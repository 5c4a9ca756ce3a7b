/**
 * The hand-captured glyph table of the server (server/hard_coded_text_pts.py):
 * for each capital letter, the points that trace it, as fractions of the
 * capture window.
 */
module Glyphs {

  /** A glyph point (x, y), each a fraction of the capture window. */
  type GlyphPoint = (real, real)

  const GlyphA: seq<GlyphPoint> := [(0.21, 0.81), (0.485, 0.0525), (0.735, 0.4475), (0.3475, 0.4375), (0.735, 0.4425), (0.855, 0.7925)]
  const GlyphB: seq<GlyphPoint> := [(0.1725, 0.8725), (0.1675, 0.0725), (0.5475, 0.135), (0.56, 0.375), (0.175, 0.4725), (0.54, 0.535), (0.5475, 0.7625), (0.175, 0.875)]
  const GlyphC: seq<GlyphPoint> := [(0.45, 0.8225), (0.6975, 0.725), (0.45, 0.825), (0.2125, 0.705), (0.1925, 0.2725), (0.3875, 0.0775), (0.695, 0.1275), (0.385, 0.08), (0.19, 0.2725), (0.2075, 0.7075), (0.4475, 0.8275)]
  const GlyphD: seq<GlyphPoint> := [(0.245, 0.8675), (0.2, 0.05), (0.5825, 0.1625), (0.6525, 0.3925), (0.66, 0.5875), (0.2525, 0.87)]
  const GlyphE: seq<GlyphPoint> := [(0.7225, 0.0875), (0.2125, 0.085), (0.2175, 0.4725), (0.6675, 0.475), (0.2175, 0.4775), (0.22, 0.8925), (0.67, 0.8975)]
  const GlyphF: seq<GlyphPoint> := [(0.71, 0.1325), (0.27, 0.1225), (0.2525, 0.48), (0.6325, 0.475), (0.25, 0.4825), (0.2325, 0.865)]
  const GlyphG: seq<GlyphPoint> := [(0.6475, 0.12), (0.2475, 0.11), (0.2475, 0.8075), (0.64, 0.82), (0.645, 0.49), (0.4275, 0.4875)]
  const GlyphH: seq<GlyphPoint> := [(0.24, 0.89), (0.25, 0.0925), (0.2475, 0.4725), (0.605, 0.4725), (0.625, 0.105), (0.605, 0.8575)]
  const GlyphI: seq<GlyphPoint> := [(0.185, 0.165), (0.7475, 0.185), (0.465, 0.1775), (0.4625, 0.81), (0.2225, 0.81), (0.7125, 0.8175)]
  const GlyphJ: seq<GlyphPoint> := [(0.6675, 0.1425), (0.6875, 0.7), (0.555, 0.8325), (0.3575, 0.82), (0.2625, 0.7425)]
  const GlyphK: seq<GlyphPoint> := [(0.2325, 0.8675), (0.2275, 0.045), (0.2325, 0.425), (0.735, 0.09), (0.2275, 0.42), (0.71, 0.895)]
  const GlyphL: seq<GlyphPoint> := [(0.28, 0.0875), (0.2925, 0.885), (0.8525, 0.87)]
  const GlyphM: seq<GlyphPoint> := [(0.155, 0.83), (0.1575, 0.065), (0.485, 0.3875), (0.815, 0.08), (0.845, 0.9025)]
  const GlyphN: seq<GlyphPoint> := [(0.17, 0.885), (0.1925, 0.0475), (0.8075, 0.8925), (0.79, 0.0825)]
  const GlyphO: seq<GlyphPoint> := [(0.685, 0.8425), (0.69, 0.085), (0.1475, 0.0825), (0.175, 0.8625), (0.6825, 0.8475)]
  const GlyphP: seq<GlyphPoint> := [(0.2875, 0.85), (0.2675, 0.07), (0.7025, 0.09), (0.6775, 0.43), (0.275, 0.43), (0.29, 0.855)]
  const GlyphQ: seq<GlyphPoint> := [(0.695, 0.795), (0.7125, 0.0675), (0.14, 0.0675), (0.15, 0.8), (0.695, 0.7975), (0.4025, 0.5175), (0.8425, 0.905)]
  const GlyphR: seq<GlyphPoint> := [(0.2575, 0.8625), (0.2225, 0.11), (0.675, 0.1275), (0.6825, 0.415), (0.245, 0.43), (0.68, 0.8675)]
  const GlyphS: seq<GlyphPoint> := [(0.185, 0.825), (0.7625, 0.8575), (0.78, 0.4075), (0.245, 0.365), (0.245, 0.065), (0.8325, 0.0675), (0.24, 0.0675), (0.2425, 0.355), (0.775, 0.4125), (0.7675, 0.855)]
  const GlyphT: seq<GlyphPoint> := [(0.515, 0.8575), (0.485, 0.115), (0.1075, 0.12), (0.8825, 0.12)]
  const GlyphU: seq<GlyphPoint> := [(0.1925, 0.07), (0.2075, 0.875), (0.8575, 0.8825), (0.83, 0.095)]
  const GlyphV: seq<GlyphPoint> := [(0.105, 0.08), (0.56, 0.91), (0.775, 0.13)]
  const GlyphW: seq<GlyphPoint> := [(0.07, 0.075), (0.3625, 0.8625), (0.5275, 0.475), (0.665, 0.8125), (0.855, 0.1)]
  const GlyphX: seq<GlyphPoint> := [(0.185, 0.8325), (0.85, 0.1025), (0.5025, 0.475), (0.1225, 0.1025), (0.7825, 0.8175)]
  const GlyphY: seq<GlyphPoint> := [(0.5175, 0.89), (0.4975, 0.435), (0.16, 0.13), (0.4975, 0.4325), (0.6975, 0.14), (0.4875, 0.4275), (0.5175, 0.88)]
  const GlyphZ: seq<GlyphPoint> := [(0.1375, 0.14), (0.845, 0.145), (0.1175, 0.9075), (0.7925, 0.8775)]

  /** TEXT_PTS: the glyph of each capital letter. */
  const TextPts: map<char, seq<GlyphPoint>> := map[
      'A' := GlyphA,
      'B' := GlyphB,
      'C' := GlyphC,
      'D' := GlyphD,
      'E' := GlyphE,
      'F' := GlyphF,
      'G' := GlyphG,
      'H' := GlyphH,
      'I' := GlyphI,
      'J' := GlyphJ,
      'K' := GlyphK,
      'L' := GlyphL,
      'M' := GlyphM,
      'N' := GlyphN,
      'O' := GlyphO,
      'P' := GlyphP,
      'Q' := GlyphQ,
      'R' := GlyphR,
      'S' := GlyphS,
      'T' := GlyphT,
      'U' := GlyphU,
      'V' := GlyphV,
      'W' := GlyphW,
      'X' := GlyphX,
      'Y' := GlyphY,
      'Z' := GlyphZ
    ]

  /** The capture stored mouse position divided by window size. */
  predicate InUnitSquare(p: GlyphPoint) {
    0.0 <= p.0 < 1.0 && 0.0 <= p.1 < 1.0
  }

  /** The table covers exactly the capital letters 'A' to 'Z'. */
  lemma TableKeys()
    ensures forall c: char :: c in TextPts <==> 'A' <= c <= 'Z'
  {
  }

  /** 'L' and 'V' are the shortest glyphs (3 points), 'C' the longest (11). */
  lemma GlyphSizes()
    ensures forall c | c in TextPts :: 3 <= |TextPts[c]| <= 11
    ensures |TextPts['L']| == 3 && |TextPts['V']| == 3 && |TextPts['C']| == 11
  {
  }

  predicate AllInUnitSquare(glyph: seq<GlyphPoint>) {
    forall i :: 0 <= i < |glyph| ==> InUnitSquare(glyph[i])
  }

  /** The glyphs 'A' to 'G' lie in [0, 1). */
  lemma GlyphsInUnitSquareAToG()
    ensures AllInUnitSquare(GlyphA)
    ensures AllInUnitSquare(GlyphB)
    ensures AllInUnitSquare(GlyphC)
    ensures AllInUnitSquare(GlyphD)
    ensures AllInUnitSquare(GlyphE)
    ensures AllInUnitSquare(GlyphF)
    ensures AllInUnitSquare(GlyphG)
  {
  }

  /** The glyphs 'H' to 'N' lie in [0, 1). */
  lemma GlyphsInUnitSquareHToN()
    ensures AllInUnitSquare(GlyphH)
    ensures AllInUnitSquare(GlyphI)
    ensures AllInUnitSquare(GlyphJ)
    ensures AllInUnitSquare(GlyphK)
    ensures AllInUnitSquare(GlyphL)
    ensures AllInUnitSquare(GlyphM)
    ensures AllInUnitSquare(GlyphN)
  {
  }

  /** The glyphs 'O' to 'T' lie in [0, 1). */
  lemma GlyphsInUnitSquareOToT()
    ensures AllInUnitSquare(GlyphO)
    ensures AllInUnitSquare(GlyphP)
    ensures AllInUnitSquare(GlyphQ)
    ensures AllInUnitSquare(GlyphR)
    ensures AllInUnitSquare(GlyphS)
    ensures AllInUnitSquare(GlyphT)
  {
  }

  /** The glyphs 'U' to 'Z' lie in [0, 1). */
  lemma GlyphsInUnitSquareUToZ()
    ensures AllInUnitSquare(GlyphU)
    ensures AllInUnitSquare(GlyphV)
    ensures AllInUnitSquare(GlyphW)
    ensures AllInUnitSquare(GlyphX)
    ensures AllInUnitSquare(GlyphY)
    ensures AllInUnitSquare(GlyphZ)
  {
  }

  /** Every captured coordinate lies in [0, 1). */
  lemma GlyphsInUnitSquare()
    ensures forall c, i | c in TextPts && 0 <= i < |TextPts[c]| :: InUnitSquare(TextPts[c][i])
  {
    GlyphsInUnitSquareAToG();
    GlyphsInUnitSquareHToN();
    GlyphsInUnitSquareOToT();
    GlyphsInUnitSquareUToZ();
    assert forall c | c in TextPts :: AllInUnitSquare(TextPts[c]);
  }
}
