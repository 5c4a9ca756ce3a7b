/**
 * sectionize from server/img_to_points.py: a recursive depth-first walk over
 * the on-pixels of a skeleton that starts a new section below every
 * intersection pixel, followed by a greedy nearest-point reordering of each
 * section.
 *
 * The defaultdict of sections is a sequence indexed by section key: keys are
 * created in the order 0, 1, 2, ..., so the dictionary's value order is the
 * sequence order.
 */
module Sections {
  import opened Grid

  // ---------------------------------------------------------------------
  // is_intersection

  function Dot(u: Cell, v: Cell): int {
    u.0 * v.0 + u.1 * v.1
  }

  /** Three offsets that are pairwise orthogonal or opposed. */
  predicate Splits(u: Cell, v: Cell, w: Cell) {
    Dot(u, v) <= 0 && Dot(u, w) <= 0 && Dot(v, w) <= 0
  }

  /** Some three entries, taken in list order, split. */
  predicate HasSplittingTriple(diffs: seq<Cell>) {
    exists i, j, k :: 0 <= i < j < k < |diffs| && Splits(diffs[i], diffs[j], diffs[k])
  }

  /** The offsets from c of the set pixels among ns, in the order of ns. */
  function OnOffsets(skeleton: array2<bool>, c: Cell, ns: seq<Cell>): seq<Cell>
    reads skeleton
  {
    if ns == [] then []
    else
      var n := ns[|ns| - 1];
      OnOffsets(skeleton, c, ns[..|ns| - 1]) + (if IsOn(skeleton, n) then [(n.0 - c.0, n.1 - c.1)] else [])
  }

  /** neighbor_diffs: the offsets of the set neighbours of c, in neighbour order. */
  function NeighborDiffs(skeleton: array2<bool>, c: Cell): seq<Cell>
    reads skeleton
  {
    OnOffsets(skeleton, c, Neighbors(c))
  }

  lemma {:induction false} OnOffsetsMember(skeleton: array2<bool>, c: Cell, ns: seq<Cell>, d: Cell)
    ensures d in OnOffsets(skeleton, c, ns) <==> (c.0 + d.0, c.1 + d.1) in ns && IsOn(skeleton, (c.0 + d.0, c.1 + d.1))
  {
    if ns != [] {
      OnOffsetsMember(skeleton, c, ns[..|ns| - 1], d);
      assert ns == ns[..|ns| - 1] + [ns[|ns| - 1]];
    }
  }

  /** An offset is listed exactly when it leads to a set pixel 8-adjacent to c. */
  lemma NeighborDiffsMember(skeleton: array2<bool>, c: Cell, d: Cell)
    ensures d in NeighborDiffs(skeleton, c) <==> Adjacent(c, (c.0 + d.0, c.1 + d.1)) && IsOn(skeleton, (c.0 + d.0, c.1 + d.1))
  {
    OnOffsetsMember(skeleton, c, Neighbors(c), d);
    NeighborsAreAdjacent(c, (c.0 + d.0, c.1 + d.1));
  }

  /** The loop over the 3-combinations of diffs, in combinations order, returning on the first split. */
  method AnySplittingTriple(diffs: seq<Cell>) returns (b: bool)
    ensures b <==> HasSplittingTriple(diffs)
  {
    var i := 0;
    while i < |diffs|
      invariant 0 <= i <= |diffs|
      invariant forall i', j, k :: 0 <= i' < i && i' < j < k < |diffs| ==> !Splits(diffs[i'], diffs[j], diffs[k])
    {
      var j := i + 1;
      while j < |diffs|
        invariant i + 1 <= j <= |diffs|
        invariant forall j', k :: i < j' < j && j' < k < |diffs| ==> !Splits(diffs[i], diffs[j'], diffs[k])
      {
        var k := j + 1;
        while k < |diffs|
          invariant j + 1 <= k <= |diffs|
          invariant forall k' :: j < k' < k ==> !Splits(diffs[i], diffs[j], diffs[k'])
        {
          if Splits(diffs[i], diffs[j], diffs[k]) {
            return true;
          }
          k := k + 1;
        }
        j := j + 1;
      }
      i := i + 1;
    }
    return false;
  }

  /** is_intersection: some three set neighbours have pairwise non-positive offset dot products. */
  method IsIntersection(skeleton: array2<bool>, x: int, y: int) returns (b: bool)
    ensures b <==> HasSplittingTriple(NeighborDiffs(skeleton, (x, y)))
  {
    var diffs := NeighborDiffs(skeleton, (x, y));
    b := AnySplittingTriple(diffs);
  }

  // ---------------------------------------------------------------------
  // The sections and what they hold

  /** Every cell stored in the sections, with multiplicity. */
  ghost function Stored(ss: seq<seq<Cell>>): multiset<Cell>
  {
    if ss == [] then multiset{}
    else Stored(ss[..|ss| - 1]) + multiset(ss[|ss| - 1])
  }

  /** The swapped (column, row) forms of a set of cells. */
  ghost function Swapped(s: set<Cell>): set<Cell>
  {
    set c | c in s :: Swap(c)
  }

  /** Element i is 8-adjacent to an earlier element. */
  ghost predicate HasEarlierAdjacent(s: seq<Cell>, i: int)
    requires 0 <= i < |s|
  {
    exists j :: 0 <= j < i && Adjacent(s[j], s[i])
  }

  /** Every element after the first is 8-adjacent to an earlier one. */
  ghost predicate Chained(s: seq<Cell>) {
    forall i :: 0 < i < |s| ==> HasEarlierAdjacent(s, i)
  }

  ghost predicate AllChained(ss: seq<seq<Cell>>) {
    forall k :: 0 <= k < |ss| ==> Chained(ss[k])
  }

  predicate AllNonEmpty(ss: seq<seq<Cell>>) {
    forall k :: 0 <= k < |ss| ==> ss[k] != []
  }

  /** after holds every section of before, each possibly longer, and possibly more sections. */
  predicate Extends(before: seq<seq<Cell>>, after: seq<seq<Cell>>) {
    |before| <= |after| && forall k :: 0 <= k < |before| ==> before[k] <= after[k]
  }

  lemma ExtendsTransitive(a: seq<seq<Cell>>, b: seq<seq<Cell>>, c: seq<seq<Cell>>)
    requires Extends(a, b) && Extends(b, c)
    ensures Extends(a, c)
  {
    forall k | 0 <= k < |a|
      ensures a[k] <= c[k]
    {
      assert a[k] <= b[k] <= c[k];
    }
  }

  lemma ExtendsKeeps(before: seq<seq<Cell>>, after: seq<seq<Cell>>, k: nat, i: nat)
    requires Extends(before, after) && k < |before| && i < |before[k]|
    ensures k < |after| && i < |after[k]| && after[k][i] == before[k][i]
  {
    assert before[k] <= after[k];
    assert before[k] == after[k][..|before[k]|];
  }

  /** The length of section k, 0 for a key not created yet. */
  function LenAt(ss: seq<seq<Cell>>, k: nat): nat {
    if k < |ss| then |ss[k]| else 0
  }

  /** Every set neighbour of c is in V: the walk from c has looked at all of them. */
  ghost predicate WalkedAround(skeleton: array2<bool>, V: set<Cell>, c: Cell)
    reads skeleton
  {
    forall m :: 0 <= m < 8 ==> IsOn(skeleton, Neighbors(c)[m]) ==> Neighbors(c)[m] in V
  }

  /** Every cell walked since V0 has all its set neighbours in V. */
  ghost predicate ClosedSince(skeleton: array2<bool>, V0: set<Cell>, V: set<Cell>)
    reads skeleton
  {
    forall c :: c in V - V0 ==> WalkedAround(skeleton, V, c)
  }

  /** The set cells among the first m entries of ns are all in V. */
  ghost predicate SeenUpTo(skeleton: array2<bool>, ns: seq<Cell>, m: nat, V: set<Cell>)
    reads skeleton
  {
    forall j :: 0 <= j < m && j < |ns| ==> IsOn(skeleton, ns[j]) ==> ns[j] in V
  }

  /** A walk from n, entered after marking n, closes everything marked since before n. */
  lemma ClosedThrough(skeleton: array2<bool>, V0: set<Cell>, n: Cell, V: set<Cell>)
    requires ClosedSince(skeleton, V0 + {n}, V) && WalkedAround(skeleton, V, n)
    ensures ClosedSince(skeleton, V0, V)
  {
    forall c | c in V - V0
      ensures WalkedAround(skeleton, V, c)
    {
      if c != n {
        assert c in V - (V0 + {n});
      }
    }
  }

  /** One step of dfs's neighbour loop keeps both closure facts. */
  lemma ClosureStep(skeleton: array2<bool>, ns: seq<Cell>, m: nat, V0: set<Cell>, V1: set<Cell>, V2: set<Cell>)
    requires m < |ns| && V0 <= V1 <= V2
    requires ClosedSince(skeleton, V0, V1) && ClosedSince(skeleton, V1, V2)
    requires SeenUpTo(skeleton, ns, m, V1)
    requires IsOn(skeleton, ns[m]) ==> ns[m] in V2
    ensures ClosedSince(skeleton, V0, V2) && SeenUpTo(skeleton, ns, m + 1, V2)
  {
    forall c | c in V2 - V0
      ensures WalkedAround(skeleton, V2, c)
    {
      if c in V1 {
        assert WalkedAround(skeleton, V1, c);
      }
    }
  }

  // ---------------------------------------------------------------------
  // The shape of the walk: where each stored pixel came from

  /** is_intersection at p. */
  ghost predicate SplitsAt(skeleton: array2<bool>, p: Cell)
    reads skeleton
  {
    HasSplittingTriple(NeighborDiffs(skeleton, p))
  }

  /** The set pixels that are intersections. */
  ghost function SplitPixels(skeleton: array2<bool>): set<Cell>
    reads skeleton
  {
    set c | c in OnPixels(skeleton) && SplitsAt(skeleton, c)
  }

  /** c was reached before each of its set neighbours (those in on) that has been reached. */
  ghost predicate RankedFirst(rank: map<Cell, nat>, on: set<Cell>, c: Cell)
  {
    c in rank &&
    forall m :: 0 <= m < 8 ==> Neighbors(c)[m] in on && Neighbors(c)[m] in rank ==> rank[c] < rank[Neighbors(c)[m]]
  }

  /**
   * Pixel c, stored right after the points before of its section, is either
   * walked from an adjacent parent reached before it, opening a fresh
   * section exactly when the parent is an intersection (in splits) and
   * otherwise following the parent in its section, or a start of the outer
   * scan: first in its section and reached before all its set neighbours.
   */
  ghost predicate PlacedAfter(parent: map<Cell, Cell>, rank: map<Cell, nat>, on: set<Cell>, splits: set<Cell>,
                              c: Cell, before: seq<Cell>)
  {
    c in rank &&
    if c in parent then
      var p := parent[c];
      p in rank && rank[p] < rank[c] && Adjacent(p, c) &&
      (p in splits <==> before == []) &&
      (p !in splits ==> Swap(p) in before)
    else
      before == [] && RankedFirst(rank, on, c)
  }

  /** Every stored pixel of the walk is placed as dfs and the outer scan place it. */
  ghost predicate WalkShape(ss: seq<seq<Cell>>, parent: map<Cell, Cell>, rank: map<Cell, nat>, on: set<Cell>, splits: set<Cell>)
  {
    forall k, i :: 0 <= k < |ss| && 0 <= i < |ss[k]| ==> PlacedAfter(parent, rank, on, splits, Swap(ss[k][i]), ss[k][..i])
  }

  /** Section k, or nothing for a key not created yet. */
  function SectionAt(ss: seq<seq<Cell>>, k: nat): seq<Cell> {
    if k < |ss| then ss[k] else []
  }

  /** Appending a pixel placed after its section keeps the walk's shape. */
  lemma AppendPlaced(ss: seq<seq<Cell>>, parent: map<Cell, Cell>, rank: map<Cell, nat>, on: set<Cell>, splits: set<Cell>,
                     k: nat, q: Cell)
    requires k <= |ss| && WalkShape(ss, parent, rank, on, splits)
    requires PlacedAfter(parent, rank, on, splits, Swap(q), SectionAt(ss, k))
    ensures WalkShape(if k == |ss| then ss + [[q]] else ss[k := ss[k] + [q]], parent, rank, on, splits)
  {
    var ss' := if k == |ss| then ss + [[q]] else ss[k := ss[k] + [q]];
    forall k', i | 0 <= k' < |ss'| && 0 <= i < |ss'[k']|
      ensures PlacedAfter(parent, rank, on, splits, Swap(ss'[k'][i]), ss'[k'][..i])
    {
      if k' == k && i == |SectionAt(ss, k)| {
        assert ss'[k'][..i] == SectionAt(ss, k);
      } else {
        assert ss'[k'][..i] == ss[k'][..i] && ss'[k'][i] == ss[k'][i];
      }
    }
  }

  /**
   * Reaching a new pixel n with the next rank, and possibly recording its
   * parent, keeps the walk's shape and the ranks below the clock.
   */
  lemma RankNew(ss: seq<seq<Cell>>, V: set<Cell>, parent: map<Cell, Cell>, parent': map<Cell, Cell>,
                rank: map<Cell, nat>, clock: nat, n: Cell, on: set<Cell>, splits: set<Cell>)
    requires WalkShape(ss, parent, rank, on, splits)
    requires rank.Keys == V && parent.Keys <= V
    requires forall c :: c in rank ==> rank[c] < clock
    requires n !in rank
    requires forall c :: c != n ==> (c in parent' <==> c in parent)
    requires forall c :: c != n && c in parent ==> parent'[c] == parent[c]
    ensures WalkShape(ss, parent', rank[n := clock], on, splits)
    ensures rank[n := clock].Keys == V + {n} && parent'.Keys <= V + {n}
    ensures forall c :: c in V + {n} ==> rank[n := clock][c] < clock + 1
  {
    var rank' := rank[n := clock];
    forall k, i | 0 <= k < |ss| && 0 <= i < |ss[k]|
      ensures PlacedAfter(parent', rank', on, splits, Swap(ss[k][i]), ss[k][..i])
    {
      var c := Swap(ss[k][i]);
      assert PlacedAfter(parent, rank, on, splits, c, ss[k][..i]);
      if c !in parent {
        assert RankedFirst(rank', on, c);
      }
    }
  }

  /**
   * A set pixel r not yet reached while every reached pixel has its set
   * neighbours reached has no reached set neighbour, so given the next rank
   * it is reached before all of them.
   */
  lemma StartRankedFirst(skeleton: array2<bool>, V: set<Cell>, rank: map<Cell, nat>, clock: nat, r: Cell)
    requires ClosedSince(skeleton, {}, V) && r !in V && IsOn(skeleton, r) && rank.Keys == V
    ensures RankedFirst(rank[r := clock], OnPixels(skeleton), r)
  {
    forall m | 0 <= m < 8
      ensures Neighbors(r)[m] in OnPixels(skeleton) ==> Neighbors(r)[m] !in V
      ensures Neighbors(r)[m] != r
    {
      var n := Neighbors(r)[m];
      OnPixelsMember(skeleton, n);
      NeighborsAreAdjacent(r, n);
      NeighborsAreAdjacent(n, r);
      var j :| 0 <= j < 8 && Neighbors(n)[j] == r;
      assert n in V ==> WalkedAround(skeleton, V, n);
    }
  }

  /** Closure since the start, then since V0, is closure since the start. */
  lemma ClosedCompose(skeleton: array2<bool>, V0: set<Cell>, V: set<Cell>)
    requires V0 <= V && ClosedSince(skeleton, {}, V0) && ClosedSince(skeleton, V0, V)
    ensures ClosedSince(skeleton, {}, V)
  {
    forall c | c in V
      ensures WalkedAround(skeleton, V, c)
    {
      if c in V0 {
        assert WalkedAround(skeleton, V0, c);
      }
    }
  }

  /**
   * Of two adjacent set pixels that both start a section, at least one was
   * walked from an intersection: the walk never cuts a path between two
   * non-intersection pixels.
   */
  lemma AdjacentStartsSplit(ss: seq<seq<Cell>>, parent: map<Cell, Cell>, rank: map<Cell, nat>, on: set<Cell>, splits: set<Cell>,
                            k1: nat, k2: nat)
    requires WalkShape(ss, parent, rank, on, splits)
    requires k1 < |ss| && k2 < |ss| && ss[k1] != [] && ss[k2] != []
    requires Adjacent(Swap(ss[k1][0]), Swap(ss[k2][0]))
    requires Swap(ss[k1][0]) in on && Swap(ss[k2][0]) in on
    ensures (Swap(ss[k1][0]) in parent && parent[Swap(ss[k1][0])] in splits) ||
            (Swap(ss[k2][0]) in parent && parent[Swap(ss[k2][0])] in splits)
  {
    var a, b := Swap(ss[k1][0]), Swap(ss[k2][0]);
    assert PlacedAfter(parent, rank, on, splits, a, ss[k1][..0]);
    assert PlacedAfter(parent, rank, on, splits, b, ss[k2][..0]);
    NeighborsAreAdjacent(a, b);
    NeighborsAreAdjacent(b, a);
    var i :| 0 <= i < 8 && Neighbors(a)[i] == b;
    var j :| 0 <= j < 8 && Neighbors(b)[j] == a;
  }

  lemma StoredAppendNew(ss: seq<seq<Cell>>, c: Cell)
    ensures Stored(ss + [[c]]) == Stored(ss) + multiset{c}
  {
    assert (ss + [[c]])[..|ss|] == ss;
  }

  lemma {:induction false} StoredAppendAt(ss: seq<seq<Cell>>, k: nat, c: Cell)
    requires k < |ss|
    ensures Stored(ss[k := ss[k] + [c]]) == Stored(ss) + multiset{c}
  {
    var n := |ss| - 1;
    var ss' := ss[k := ss[k] + [c]];
    assert Stored(ss') == Stored(ss'[..n]) + multiset(ss'[n]);
    assert Stored(ss) == Stored(ss[..n]) + multiset(ss[n]);
    if k < n {
      assert ss'[..n] == ss[..n][k := ss[k] + [c]];
      assert ss'[n] == ss[n];
      StoredAppendAt(ss[..n], k, c);
    } else {
      assert ss'[..n] == ss[..n];
      assert multiset(ss'[n]) == multiset(ss[n]) + multiset{c};
    }
  }

  lemma {:induction false} StoredHoldsSection(ss: seq<seq<Cell>>, k: nat)
    requires k < |ss|
    ensures multiset(ss[k]) <= Stored(ss)
  {
    var n := |ss| - 1;
    if k < n {
      StoredHoldsSection(ss[..n], k);
    }
  }

  lemma {:induction false} StoredPointwise(a: seq<seq<Cell>>, b: seq<seq<Cell>>)
    requires |a| == |b|
    requires forall k :: 0 <= k < |a| ==> multiset(a[k]) == multiset(b[k])
    ensures Stored(a) == Stored(b)
  {
    if a != [] {
      StoredPointwise(a[..|a| - 1], b[..|b| - 1]);
    }
  }

  lemma SwappedAdd(s: set<Cell>, c: Cell)
    requires c !in s
    ensures multiset(Swapped(s + {c})) == multiset(Swapped(s)) + multiset{Swap(c)}
  {
    assert Swap(c) !in Swapped(s);
    assert Swapped(s + {c}) == Swapped(s) + {Swap(c)};
  }

  /** A sequence that repeats nothing has the multiset of its set of elements. */
  lemma NoRepeatMultiset(s: seq<Cell>)
    requires forall c :: multiset(s)[c] <= 1
    ensures multiset(s) == multiset(set c | c in s)
  {
    var t := set c | c in s;
    forall c
      ensures multiset(s)[c] == multiset(t)[c]
    {
      if c in s {
        assert c in multiset(s);
      }
    }
  }

  // ---------------------------------------------------------------------
  // The depth-first walk

  /** The state of one sectionize call: the skeleton, the sections, the key counter and the visited pixels. */
  class Sectionizer {
    const skeleton: array2<bool>
    var sections: seq<seq<Cell>>
    var lastSectionIndex: int
    var visited: set<Cell>
    /** The pixel each walked pixel was reached from; the outer scan's starts have none. */
    ghost var parent: map<Cell, Cell>
    /** The order in which pixels were reached, and the next rank to hand out. */
    ghost var rank: map<Cell, nat>
    ghost var clock: nat

    /** Every visited pixel, and only those, has a rank below the clock; parents are recorded for visited pixels only. */
    ghost predicate Ranked()
      reads this
    {
      rank.Keys == visited && parent.Keys <= visited && forall c :: c in rank ==> rank[c] < clock
    }

    /**
     * The walk's bookkeeping: visited set pixels, each stored once (as (y, x)),
     * in chained non-empty sections, each placed where dfs places it.
     */
    ghost predicate Consistent()
      reads this, skeleton
    {
      visited <= OnPixels(skeleton) && Stored(sections) == multiset(Swapped(visited)) &&
      AllChained(sections) && AllNonEmpty(sections) &&
      Ranked() && WalkShape(sections, parent, rank, OnPixels(skeleton), SplitPixels(skeleton))
    }

    constructor (skeleton: array2<bool>)
      ensures this.skeleton == skeleton
      ensures sections == [] && lastSectionIndex == 0 && visited == {}
      ensures parent == map[] && rank == map[] && clock == 0
    {
      this.skeleton := skeleton;
      sections := [];
      lastSectionIndex := 0;
      visited := {};
      parent := map[];
      rank := map[];
      clock := 0;
    }

    /**
     * dfs(x, y, section_index): store (y, x) in the section, then walk every
     * in-bounds, unvisited, set neighbour (VisitNeighbor).
     *
     * On entry (x, y) is visited but not yet stored; on exit every visited
     * pixel is stored exactly once.
     */
    method Dfs(x: int, y: int, sectionIndex: nat)
      requires visited <= OnPixels(skeleton) && (x, y) in visited
      requires Stored(sections) + multiset{(y, x)} == multiset(Swapped(visited))
      requires (sectionIndex == lastSectionIndex == |sections|) ||
               (sectionIndex < |sections| && lastSectionIndex == |sections| - 1)
      requires sectionIndex < |sections| ==> exists q :: q in sections[sectionIndex] && Adjacent(q, (y, x))
      requires AllChained(sections) && AllNonEmpty(sections)
      requires Ranked() && WalkShape(sections, parent, rank, OnPixels(skeleton), SplitPixels(skeleton))
      requires PlacedAfter(parent, rank, OnPixels(skeleton), SplitPixels(skeleton), (x, y), SectionAt(sections, sectionIndex))
      modifies this
      decreases OnPixels(skeleton) - visited, 3
      ensures old(visited) <= visited && Consistent()
      ensures lastSectionIndex == |sections| - 1
      ensures sectionIndex < |sections| && (y, x) in sections[sectionIndex]
      ensures LenAt(old(sections), sectionIndex) < |sections[sectionIndex]|
      ensures sections[sectionIndex][LenAt(old(sections), sectionIndex)] == (y, x)
      ensures Extends(old(sections), sections)
      ensures WalkedAround(skeleton, visited, (x, y))
      ensures ClosedSince(skeleton, old(visited), visited)
    {
      AppendPlaced(sections, parent, rank, OnPixels(skeleton), SplitPixels(skeleton), sectionIndex, (y, x));
      AppendToSection(sectionIndex, (y, x));
      ghost var appended := sections;
      WalkNeighbors(x, y, sectionIndex, LenAt(old(sections), sectionIndex));
      ExtendsTransitive(old(sections), appended, sections);
    }

    /** dfs's loop over the eight neighbours of (x, y), whose (y, x) is stored at position at of the section. */
    method WalkNeighbors(x: int, y: int, sectionIndex: nat, ghost at: nat)
      requires Consistent() && (x, y) in visited
      requires lastSectionIndex == |sections| - 1
      requires sectionIndex < |sections| && at < |sections[sectionIndex]|
      requires sections[sectionIndex][at] == (y, x)
      modifies this
      decreases OnPixels(skeleton) - visited, 2
      ensures old(visited) <= visited && Consistent()
      ensures lastSectionIndex == |sections| - 1
      ensures sectionIndex < |sections| && at < |sections[sectionIndex]|
      ensures sections[sectionIndex][at] == (y, x)
      ensures Extends(old(sections), sections)
      ensures WalkedAround(skeleton, visited, (x, y))
      ensures ClosedSince(skeleton, old(visited), visited)
    {
      var ns := Neighbors((x, y));
      for m := 0 to |ns|
        invariant old(visited) <= visited && Consistent()
        invariant lastSectionIndex == |sections| - 1
        invariant sectionIndex < |sections| && at < |sections[sectionIndex]|
        invariant sections[sectionIndex][at] == (y, x)
        invariant Extends(old(sections), sections)
        invariant SeenUpTo(skeleton, ns, m, visited)
        invariant ClosedSince(skeleton, old(visited), visited)
      {
        NeighborsAreAdjacent((x, y), ns[m]);
        ghost var before := sections;
        ghost var visitedBefore := visited;
        VisitNeighbor(x, y, ns[m], sectionIndex);
        ExtendsTransitive(old(sections), before, sections);
        ExtendsKeeps(before, sections, sectionIndex, at);
        ClosureStep(skeleton, ns, m, old(visited), visitedBefore, visited);
      }
      assert SeenUpTo(skeleton, ns, |ns|, visited);
    }

    /**
     * One iteration of dfs's neighbour loop: skip the neighbour unless it is
     * in bounds, unvisited and set; otherwise mark it visited and walk it, in
     * a new section if (x, y) is an intersection, else in the same section.
     */
    method VisitNeighbor(x: int, y: int, n: Cell, sectionIndex: nat)
      requires Adjacent((x, y), n) && (x, y) in visited
      requires Consistent()
      requires lastSectionIndex == |sections| - 1
      requires sectionIndex < |sections| && (y, x) in sections[sectionIndex]
      modifies this
      decreases OnPixels(skeleton) - visited, 1
      ensures old(visited) <= visited && Consistent()
      ensures lastSectionIndex == |sections| - 1
      ensures Extends(old(sections), sections)
      ensures !IsOn(skeleton, n) || n in old(visited) ==> unchanged(this)
      ensures IsOn(skeleton, n) ==> n in visited
      ensures ClosedSince(skeleton, old(visited), visited)
      ensures IsOn(skeleton, n) && n !in old(visited) && HasSplittingTriple(NeighborDiffs(skeleton, (x, y))) ==>
                |old(sections)| < |sections| && sections[|old(sections)|][0] == (n.1, n.0)
      ensures IsOn(skeleton, n) && n !in old(visited) && !HasSplittingTriple(NeighborDiffs(skeleton, (x, y))) ==>
                |old(sections)[sectionIndex]| < |sections[sectionIndex]| &&
                sections[sectionIndex][|old(sections)[sectionIndex]|] == (n.1, n.0)
    {
      var nx := n.0;
      var ny := n.1;
      var inBounds := 0 <= nx < skeleton.Length0 && 0 <= ny < skeleton.Length1;
      var notVisited := (nx, ny) !in visited;
      if !(inBounds && notVisited && skeleton[nx, ny]) {
        return;
      }

      Enter(x, y, n, sectionIndex);
    }

    /**
     * The walk of a neighbour that passed VisitNeighbor's test: mark it
     * visited and walk it under a fresh key when (x, y) is an intersection,
     * else under the same key.
     */
    method Enter(x: int, y: int, n: Cell, sectionIndex: nat)
      requires Adjacent((x, y), n) && IsOn(skeleton, n) && n !in visited && (x, y) in visited
      requires Consistent()
      requires lastSectionIndex == |sections| - 1
      requires sectionIndex < |sections| && (y, x) in sections[sectionIndex]
      modifies this
      decreases OnPixels(skeleton) - visited, 0
      ensures old(visited) <= visited && Consistent()
      ensures lastSectionIndex == |sections| - 1
      ensures Extends(old(sections), sections)
      ensures n in visited
      ensures ClosedSince(skeleton, old(visited), visited)
      ensures old(SplitsAt(skeleton, (x, y))) ==>
                |old(sections)| < |sections| && sections[|old(sections)|][0] == (n.1, n.0)
      ensures !old(SplitsAt(skeleton, (x, y))) ==>
                |old(sections)[sectionIndex]| < |sections[sectionIndex]| &&
                sections[sectionIndex][|old(sections)[sectionIndex]|] == (n.1, n.0)
    {
      var nx := n.0;
      var ny := n.1;
      ghost var sections0 := sections;
      ghost var splitHere := SplitsAt(skeleton, (x, y));
      ghost var before := if splitHere then [] else sections[sectionIndex];
      assert (x, y) in SplitPixels(skeleton) <==> splitHere;
      MarkReached((nx, ny), (x, y), true, before);
      var split := IsIntersection(skeleton, x, y);
      assert split == splitHere;
      if split {
        lastSectionIndex := lastSectionIndex + 1;
        assert PlacedAfter(parent, rank, OnPixels(skeleton), SplitPixels(skeleton), (nx, ny), SectionAt(sections, lastSectionIndex));
        Dfs(nx, ny, lastSectionIndex);
        assert sections[|sections0|][0] == (ny, nx);
      } else {
        AdjacentSymmetric((x, y), (nx, ny));
        assert Adjacent((y, x), (ny, nx));
        assert exists q :: q in sections[sectionIndex] && Adjacent(q, (ny, nx));
        assert PlacedAfter(parent, rank, OnPixels(skeleton), SplitPixels(skeleton), (nx, ny), SectionAt(sections, sectionIndex));
        Dfs(nx, ny, sectionIndex);
        assert LenAt(sections0, sectionIndex) == |sections0[sectionIndex]|;
        assert sections[sectionIndex][|sections0[sectionIndex]|] == (ny, nx);
      }
      ClosedThrough(skeleton, old(visited), n, visited);
    }

    /**
     * visited.add(n), with the ghost record of the walk: n gets the next rank
     * and, when it is reached from a walked pixel, that pixel as its parent.
     * A start of the outer scan has no reached set neighbour yet.
     */
    method MarkReached(n: Cell, ghost from: Cell, ghost hasParent: bool, ghost before: seq<Cell>)
      requires IsOn(skeleton, n) && n !in visited
      requires Consistent()
      requires hasParent ==> from in visited && Adjacent(from, n)
      requires hasParent ==> (from in SplitPixels(skeleton) <==> before == [])
      requires hasParent && from !in SplitPixels(skeleton) ==> Swap(from) in before
      requires !hasParent ==> ClosedSince(skeleton, {}, visited) && before == []
      modifies this
      ensures visited == old(visited) + {n} && visited <= OnPixels(skeleton)
      ensures sections == old(sections) && lastSectionIndex == old(lastSectionIndex)
      ensures Stored(sections) + multiset{Swap(n)} == multiset(Swapped(visited))
      ensures AllChained(sections) && AllNonEmpty(sections)
      ensures Ranked() && WalkShape(sections, parent, rank, OnPixels(skeleton), SplitPixels(skeleton)) && n in rank
      ensures (n in parent <==> hasParent) && (hasParent ==> parent[n] == from)
      ensures PlacedAfter(parent, rank, OnPixels(skeleton), SplitPixels(skeleton), n, before)
    {
      OnPixelsMember(skeleton, n);
      SwappedAdd(visited, n);
      ghost var on, splits := OnPixels(skeleton), SplitPixels(skeleton);
      if hasParent {
        RankNew(sections, visited, parent, parent[n := from], rank, clock, n, on, splits);
        parent := parent[n := from];
      } else {
        StartRankedFirst(skeleton, visited, rank, clock, n);
        RankNew(sections, visited, parent, parent, rank, clock, n, on, splits);
      }
      visited := visited + {n};
      rank := rank[n := clock];
      clock := clock + 1;
      assert on == OnPixels(skeleton) && splits == SplitPixels(skeleton);
    }

    /** sections[section_index].append(c): the defaultdict creates the key on first use. */
    method AppendToSection(sectionIndex: nat, c: Cell)
      requires sectionIndex <= |sections|
      requires sectionIndex < |sections| ==> exists q :: q in sections[sectionIndex] && Adjacent(q, c)
      requires AllChained(sections) && AllNonEmpty(sections)
      modifies this
      ensures sections == if sectionIndex == |old(sections)| then old(sections) + [[c]]
                          else old(sections)[sectionIndex := old(sections)[sectionIndex] + [c]]
      ensures visited == old(visited) && lastSectionIndex == old(lastSectionIndex)
      ensures parent == old(parent) && rank == old(rank) && clock == old(clock)
      ensures Stored(sections) == Stored(old(sections)) + multiset{c}
      ensures Extends(old(sections), sections)
      ensures c in sections[sectionIndex]
      ensures AllChained(sections) && AllNonEmpty(sections)
    {
      if sectionIndex == |sections| {
        StoredAppendNew(sections, c);
        sections := sections + [[c]];
      } else {
        StoredAppendAt(sections, sectionIndex, c);
        AppendKeepsChained(sections[sectionIndex], c);
        sections := sections[sectionIndex := sections[sectionIndex] + [c]];
      }
    }

    /** The outer double loop of sectionize: every unvisited set pixel, in row-major order, starts a walk under a fresh key. */
    method Traverse()
      requires sections == [] && lastSectionIndex == 0 && visited == {}
      requires parent == map[] && rank == map[]
      modifies this
      ensures visited == OnPixels(skeleton)
      ensures Stored(sections) == multiset(Swapped(OnPixels(skeleton)))
      ensures AllChained(sections) && AllNonEmpty(sections)
      ensures rank.Keys == OnPixels(skeleton) && parent.Keys <= OnPixels(skeleton)
      ensures WalkShape(sections, parent, rank, OnPixels(skeleton), SplitPixels(skeleton))
    {
      for x := 0 to skeleton.Length0
        invariant Consistent() && lastSectionIndex == |sections|
        invariant VisitedBefore(x, 0) && ClosedSince(skeleton, {}, visited)
      {
        ScanRow(x);
      }
      forall c | c in OnPixels(skeleton)
        ensures c in visited
      {
        OnPixelsMember(skeleton, c);
      }
    }

    /** The inner loop of the double loop, over column y of row x. */
    method ScanRow(x: int)
      requires 0 <= x < skeleton.Length0
      requires Consistent() && lastSectionIndex == |sections|
      requires VisitedBefore(x, 0) && ClosedSince(skeleton, {}, visited)
      modifies this
      ensures Consistent() && lastSectionIndex == |sections|
      ensures VisitedBefore(x + 1, 0) && ClosedSince(skeleton, {}, visited)
    {
      for y := 0 to skeleton.Length1
        invariant Consistent() && lastSectionIndex == |sections|
        invariant VisitedBefore(x, y) && ClosedSince(skeleton, {}, visited)
      {
        ghost var visitedBefore := visited;
        StartAt(x, y);
        assert VisitedBefore(x, y + 1) by {
          forall c | IsOn(skeleton, c) && (c.0 < x || (c.0 == x && c.1 < y + 1))
            ensures c in visited
          {
            if c.0 < x || c.1 < y {
              assert c in visitedBefore;
            }
          }
        }
      }
    }

    /** Every set pixel before (x, y) in row-major order is visited. */
    ghost predicate VisitedBefore(x: int, y: int)
      reads this, skeleton
    {
      forall c :: IsOn(skeleton, c) && (c.0 < x || (c.0 == x && c.1 < y)) ==> c in visited
    }

    /** One iteration of the double loop: a set, unvisited pixel (x, y) starts a walk under a fresh key. */
    method StartAt(x: int, y: int)
      requires 0 <= x < skeleton.Length0 && 0 <= y < skeleton.Length1
      requires Consistent() && lastSectionIndex == |sections|
      requires ClosedSince(skeleton, {}, visited)
      modifies this
      ensures old(visited) <= visited && Consistent() && lastSectionIndex == |sections|
      ensures ClosedSince(skeleton, {}, visited)
      ensures skeleton[x, y] ==> (x, y) in visited
      ensures !skeleton[x, y] || (x, y) in old(visited) ==> unchanged(this)
    {
      if skeleton[x, y] && (x, y) !in visited {
        MarkReached((x, y), (x, y), false, []);
        Dfs(x, y, lastSectionIndex);
        lastSectionIndex := lastSectionIndex + 1;
        ClosedThrough(skeleton, old(visited), (x, y), visited);
        ClosedCompose(skeleton, old(visited), visited);
      }
    }
  }

  lemma AppendKeepsChained(s: seq<Cell>, c: Cell)
    requires Chained(s)
    requires exists q :: q in s && Adjacent(q, c)
    ensures Chained(s + [c])
  {
    var q :| q in s && Adjacent(q, c);
    var j :| 0 <= j < |s| && s[j] == q;
    var t := s + [c];
    forall i | 0 < i < |t|
      ensures HasEarlierAdjacent(t, i)
    {
      if i < |s| {
        assert HasEarlierAdjacent(s, i);
        var j' :| 0 <= j' < i && Adjacent(s[j'], s[i]);
        assert t[j'] == s[j'] && t[i] == s[i];
      } else {
        assert t[j] == q && t[i] == c;
      }
    }
  }

  // ---------------------------------------------------------------------
  // The reordering of each section

  function SetOf(s: seq<Cell>): set<Cell> {
    set c | c in s
  }

  /** How many entries of ns lie in s. */
  function CountIn(ns: seq<Cell>, s: set<Cell>): nat
  {
    if ns == [] then 0
    else CountIn(ns[..|ns| - 1], s) + (if ns[|ns| - 1] in s then 1 else 0)
  }

  /** The number of neighbours of p inside the section. */
  function Degree(p: Cell, s: set<Cell>): nat {
    CountIn(Neighbors(p), s)
  }

  /**
   * min(section, key=degree): the index of the first element whose
   * in-section degree is smallest.
   */
  function FewestIndex(section: seq<Cell>, s: set<Cell>): (i: nat)
    requires section != []
    ensures i < |section|
    ensures forall j :: 0 <= j < |section| ==> Degree(section[i], s) <= Degree(section[j], s)
    ensures forall j :: 0 <= j < i ==> Degree(section[j], s) > Degree(section[i], s)
  {
    if |section| == 1 then 0
    else
      var m := FewestIndex(section[..|section| - 1], s);
      if Degree(section[|section| - 1], s) < Degree(section[m], s) then |section| - 1 else m
  }

  /** np.argmin over the distances to `from`: the first index of a nearest entry. */
  function ArgMin(exploration: seq<Cell>, from: Cell): (i: nat)
    requires exploration != []
    ensures i < |exploration|
    ensures forall j :: 0 <= j < |exploration| ==> SqDist(exploration[i], from) <= SqDist(exploration[j], from)
    ensures forall j :: 0 <= j < i ==> SqDist(exploration[j], from) > SqDist(exploration[i], from)
  {
    if |exploration| == 1 then 0
    else
      var m := ArgMin(exploration[..|exploration| - 1], from);
      if SqDist(exploration[|exploration| - 1], from) < SqDist(exploration[m], from) then |exploration| - 1 else m
  }

  /** Every in-section neighbour of a visited cell is visited or queued. */
  ghost predicate Frontier(V: set<Cell>, section: set<Cell>, queue: seq<Cell>) {
    forall v, n :: v in V && n in section && Adjacent(v, n) ==> n in V || n in queue
  }

  lemma PopKeepsRest(before: seq<Cell>, i: nat)
    requires i < |before|
    ensures forall e :: e in before ==> e == before[i] || e in before[..i] + before[i + 1..]
  {
    forall e | e in before
      ensures e == before[i] || e in before[..i] + before[i + 1..]
    {
      var j :| 0 <= j < |before| && before[j] == e;
      if j < i {
        assert (before[..i] + before[i + 1..])[j] == e;
      } else if j > i {
        assert (before[..i] + before[i + 1..])[j - 1] == e;
      }
    }
  }

  lemma AddToVisited(kept: seq<Cell>, V: set<Cell>, c: Cell)
    requires multiset(kept) == multiset(V) && c !in V
    ensures multiset(kept + [c]) == multiset(V + {c})
  {
    assert multiset(V + {c}) == multiset(V) + multiset{c};
  }

  /** Popping an already visited cell keeps the frontier. */
  lemma FrontierPop(V: set<Cell>, S: set<Cell>, before: seq<Cell>, after: seq<Cell>, cur: Cell)
    requires Frontier(V, S, before) && cur in V
    requires forall e :: e in before ==> e == cur || e in after
    ensures Frontier(V, S, after)
  {
  }

  /** Visiting the popped cell and queueing its new neighbours keeps the frontier. */
  lemma FrontierVisit(V: set<Cell>, S: set<Cell>, before: seq<Cell>, rest: seq<Cell>, queued: seq<Cell>, cur: Cell)
    requires Frontier(V, S, before)
    requires forall e :: e in before ==> e == cur || e in rest
    requires rest <= queued
    requires forall n :: n in S && n !in V + {cur} && Adjacent(cur, n) ==> n in queued
    ensures Frontier(V + {cur}, S, queued)
  {
    forall v, n | v in V + {cur} && n in S && Adjacent(v, n)
      ensures n in V + {cur} || n in queued
    {
      if v in V && n !in V && n != cur {
        assert n in before;
        assert n in rest;
        var j :| 0 <= j < |rest| && rest[j] == n;
        assert queued[j] == n;
      }
    }
  }

  /** No neighbour of a member of S inside the section is missing from S. */
  ghost predicate Closed(S: set<Cell>, section: set<Cell>) {
    forall v, n :: v in S && n in section && Adjacent(v, n) ==> n in S
  }

  lemma {:induction false} ReachesFirst(section: seq<Cell>, S: set<Cell>, m: nat)
    requires Chained(section) && Closed(S, SetOf(section))
    requires m < |section| && section[m] in S
    ensures section[0] in S
    decreases m
  {
    if m > 0 {
      assert HasEarlierAdjacent(section, m);
      var j :| 0 <= j < m && Adjacent(section[j], section[m]);
      AdjacentSymmetric(section[j], section[m]);
      assert section[j] in SetOf(section);
      ReachesFirst(section, S, j);
    }
  }

  lemma {:induction false} ReachesAll(section: seq<Cell>, S: set<Cell>, i: nat)
    requires Chained(section) && Closed(S, SetOf(section))
    requires section != [] && section[0] in S
    requires i < |section|
    ensures section[i] in S
    decreases i
  {
    if i > 0 {
      assert HasEarlierAdjacent(section, i);
      var j :| 0 <= j < i && Adjacent(section[j], section[i]);
      ReachesAll(section, S, j);
      assert section[i] in SetOf(section);
    }
  }

  /** A non-empty closed subset of a chained section is the whole section. */
  lemma ClosedCovers(section: seq<Cell>, S: set<Cell>)
    requires Chained(section) && Closed(S, SetOf(section))
    requires S <= SetOf(section) && S != {}
    ensures S == SetOf(section)
  {
    var v :| v in S;
    var m :| 0 <= m < |section| && section[m] == v;
    ReachesFirst(section, S, m);
    forall c | c in SetOf(section)
      ensures c in S
    {
      var i :| 0 <= i < |section| && section[i] == c;
      ReachesAll(section, S, i);
    }
  }

  /**
   * The reordering loop as a function of its state: the section's points S,
   * the visited set V, the exploration list E, the last popped point cur and
   * the points kept so far.
   */
  function ReorderFrom(S: set<Cell>, V: set<Cell>, E: seq<Cell>, cur: Cell, kept: seq<Cell>): seq<Cell>
    requires V <= S && forall e :: e in E ==> e in S
    decreases S - V, |E|
  {
    if E == [] then kept
    else
      var i := ArgMin(E, cur);
      var c := E[i];
      var rest := E[..i] + E[i + 1..];
      assert forall e :: e in rest ==> e in E;
      if c in V then ReorderFrom(S, V, rest, c, kept)
      else ReorderFrom(S, V + {c}, rest + UnvisitedIn(Neighbors(c), S, V + {c}), c, kept + [c])
  }

  /** The first point of the section with the fewest neighbours inside it. */
  function First(section: seq<Cell>): Cell
    requires section != []
  {
    section[FewestIndex(section, SetOf(section))]
  }

  /** The reordered section: the loop run from the first point of fewest in-section neighbours. */
  function Reorder(section: seq<Cell>): seq<Cell>
    requires section != []
  {
    ReorderFrom(SetOf(section), {}, [First(section)], First(section), [])
  }

  /** The state of the reordering loop on the way to Reorder(section). */
  ghost predicate Reordering(section: seq<Cell>, S: set<Cell>, V: set<Cell>, E: seq<Cell>, cur: Cell, kept: seq<Cell>) {
    section != [] && S == SetOf(section) && V <= S && (forall e :: e in E ==> e in S) &&
    multiset(kept) == multiset(V) &&
    (V == {} ==> E == [First(section)] && kept == []) &&
    (kept != [] ==> kept[0] == First(section)) &&
    Frontier(V, S, E) &&
    ReorderFrom(S, V, E, cur, kept) == Reorder(section)
  }

  /** The exploration entry popped next: the one nearest to cur. */
  function Next(E: seq<Cell>, cur: Cell): Cell
    requires E != []
  {
    E[ArgMin(E, cur)]
  }

  /** The exploration list once that entry is popped. */
  function Rest(E: seq<Cell>, cur: Cell): seq<Cell>
    requires E != []
  {
    var i := ArgMin(E, cur);
    E[..i] + E[i + 1..]
  }

  lemma RestKeeps(E: seq<Cell>, cur: Cell)
    requires E != []
    ensures forall e :: e in E ==> e == Next(E, cur) || e in Rest(E, cur)
    ensures forall e :: e in Rest(E, cur) ==> e in E
  {
    PopKeepsRest(E, ArgMin(E, cur));
  }

  /** Popping a cell already kept: the loop state carries over. */
  lemma ReorderPopVisited(section: seq<Cell>, S: set<Cell>, V: set<Cell>, E: seq<Cell>, cur: Cell, kept: seq<Cell>)
    requires Reordering(section, S, V, E, cur, kept) && E != []
    requires Next(E, cur) in V
    ensures Reordering(section, S, V, Rest(E, cur), Next(E, cur), kept)
  {
    RestKeeps(E, cur);
    FrontierPop(V, S, E, Rest(E, cur), Next(E, cur));
  }

  /** Popping a new cell keeps the frontier once its unvisited in-section neighbours are queued. */
  lemma PopNewFrontier(S: set<Cell>, V: set<Cell>, E: seq<Cell>, cur: Cell)
    requires E != [] && Frontier(V, S, E) && forall e :: e in E ==> e in S
    ensures var c := Next(E, cur);
            var queued := Rest(E, cur) + UnvisitedIn(Neighbors(c), S, V + {c});
            Frontier(V + {c}, S, queued) && forall e :: e in queued ==> e in S
  {
    var c := Next(E, cur);
    var queued := Rest(E, cur) + UnvisitedIn(Neighbors(c), S, V + {c});
    RestKeeps(E, cur);
    forall n | n in S && n !in V + {c} && Adjacent(c, n)
      ensures n in queued
    {
      NeighborsAreAdjacent(c, n);
    }
    FrontierVisit(V, S, E, Rest(E, cur), queued, c);
  }

  /** Popping a new cell: one step of ReorderFrom keeps it and queues its neighbours. */
  lemma PopNewStep(S: set<Cell>, V: set<Cell>, E: seq<Cell>, cur: Cell, kept: seq<Cell>)
    requires V <= S && E != [] && (forall e :: e in E ==> e in S) && Next(E, cur) !in V
    requires forall e :: e in Rest(E, cur) + UnvisitedIn(Neighbors(Next(E, cur)), S, V + {Next(E, cur)}) ==> e in S
    ensures var c := Next(E, cur);
            ReorderFrom(S, V, E, cur, kept) ==
            ReorderFrom(S, V + {c}, Rest(E, cur) + UnvisitedIn(Neighbors(c), S, V + {c}), c, kept + [c])
  {
  }

  /** Popping a new cell: it is kept and its unvisited in-section neighbours are queued. */
  lemma ReorderPopNew(section: seq<Cell>, S: set<Cell>, V: set<Cell>, E: seq<Cell>, cur: Cell, kept: seq<Cell>)
    requires Reordering(section, S, V, E, cur, kept) && E != []
    requires Next(E, cur) !in V
    ensures Next(E, cur) in S
    ensures Reordering(section, S, V + {Next(E, cur)},
                       Rest(E, cur) + UnvisitedIn(Neighbors(Next(E, cur)), S, V + {Next(E, cur)}),
                       Next(E, cur), kept + [Next(E, cur)])
  {
    var c := Next(E, cur);
    PopNewFrontier(S, V, E, cur);
    PopNewStep(S, V, E, cur, kept);
    AddToVisited(kept, V, c);
  }

  /**
   * The reordering loop for one section: start at the first point with the
   * fewest in-section neighbours, repeatedly pop the exploration entry
   * nearest to the last popped point, keep it if new and queue its
   * unvisited in-section neighbours.
   *
   * The result is Reorder(section); it starts at that point, repeats
   * nothing and lies in the section; for a chained section (as every walked
   * section is) it holds every distinct point of the section.
   */
  method ReorderSection(section: seq<Cell>) returns (newSection: seq<Cell>)
    requires section != []
    ensures newSection == Reorder(section)
    ensures newSection != [] && newSection[0] == First(section)
    ensures forall c :: c in newSection ==> c in section
    ensures forall c :: multiset(newSection)[c] <= 1
    ensures Chained(section) ==> multiset(newSection) == multiset(SetOf(section))
  {
    var sectionSet := SetOf(section);
    newSection := [];
    var firstPoint := section[FewestIndex(section, sectionSet)];
    var exploration := [firstPoint];
    var sectionVisited: set<Cell> := {};
    var cur := firstPoint;
    while |exploration| > 0
      invariant Reordering(section, sectionSet, sectionVisited, exploration, cur, newSection)
      decreases sectionSet - sectionVisited, |exploration|
    {
      var i := ArgMin(exploration, cur);
      ghost var E, prev := exploration, cur;
      cur := exploration[i];
      exploration := exploration[..i] + exploration[i + 1..];
      assert cur == Next(E, prev) && exploration == Rest(E, prev);
      if cur in sectionVisited {
        ReorderPopVisited(section, sectionSet, sectionVisited, E, prev, newSection);
        continue;
      }
      ReorderPopNew(section, sectionSet, sectionVisited, E, prev, newSection);
      newSection := newSection + [cur];
      exploration := QueueNeighbors(cur, sectionSet, sectionVisited + {cur}, exploration);
      sectionVisited := sectionVisited + {cur};
    }
    VisitedCoversSection(section, sectionVisited, newSection);
  }

  /** What the exhausted exploration leaves: the visited cells, each kept once, and all of them for a chained section. */
  lemma VisitedCoversSection(section: seq<Cell>, V: set<Cell>, newSection: seq<Cell>)
    requires V != {} && V <= SetOf(section) && Frontier(V, SetOf(section), [])
    requires multiset(newSection) == multiset(V)
    ensures newSection != []
    ensures forall c :: c in newSection ==> c in section
    ensures forall c :: multiset(newSection)[c] <= 1
    ensures Chained(section) ==> multiset(newSection) == multiset(SetOf(section))
  {
    var v :| v in V;
    assert v in multiset(newSection);
    forall c | c in newSection
      ensures c in section
    {
      assert c in multiset(newSection);
    }
    if Chained(section) {
      ClosedCovers(section, V);
    }
  }

  /** The entries of ns that lie in S and not in V, in the order of ns. */
  function UnvisitedIn(ns: seq<Cell>, S: set<Cell>, V: set<Cell>): (r: seq<Cell>)
    ensures forall e :: e in r ==> e in ns && e in S && e !in V
    ensures forall e :: e in ns && e in S && e !in V ==> e in r
  {
    if ns == [] then []
    else
      var last := ns[|ns| - 1];
      assert ns == ns[..|ns| - 1] + [last];
      UnvisitedIn(ns[..|ns| - 1], S, V) + (if last in S && last !in V then [last] else [])
  }

  /** for nx, ny in neighbors(x, y): queue each in-section neighbour not yet visited, in neighbour order. */
  method QueueNeighbors(cur: Cell, sectionSet: set<Cell>, sectionVisited: set<Cell>, exploration: seq<Cell>)
    returns (queued: seq<Cell>)
    ensures queued == exploration + UnvisitedIn(Neighbors(cur), sectionSet, sectionVisited)
    ensures forall e :: e in queued[|exploration|..] ==> e in sectionSet && e !in sectionVisited && Adjacent(cur, e)
    ensures forall n :: n in sectionSet && n !in sectionVisited && Adjacent(cur, n) ==> n in queued
  {
    queued := exploration;
    var ns := Neighbors(cur);
    for m := 0 to |ns|
      invariant queued == exploration + UnvisitedIn(ns[..m], sectionSet, sectionVisited)
    {
      assert ns[..m + 1][..m] == ns[..m];
      if ns[m] in sectionSet && ns[m] !in sectionVisited {
        queued := queued + [ns[m]];
      }
    }
    assert ns[..|ns|] == ns;
    assert queued[|exploration|..] == UnvisitedIn(ns, sectionSet, sectionVisited);
    forall n | n in ns
      ensures Adjacent(cur, n)
    {
      NeighborsAreAdjacent(cur, n);
    }
    forall n | n in sectionSet && n !in sectionVisited && Adjacent(cur, n)
      ensures n in queued
    {
      NeighborsAreAdjacent(cur, n);
    }
  }

  /** The first point of the section has the fewest neighbours inside it. */
  ghost predicate StartsAtFewest(s: seq<Cell>) {
    s != [] && forall q :: q in s ==> Degree(s[0], SetOf(s)) <= Degree(q, SetOf(s))
  }

  /** A reordered walked section holds the same cells and starts at a point of fewest neighbours. */
  lemma ReorderedSection(sections: seq<seq<Cell>>, k: nat, newSection: seq<Cell>)
    requires k < |sections| && sections[k] != []
    requires forall c :: Stored(sections)[c] <= 1
    requires newSection != [] && newSection[0] == First(sections[k])
    requires multiset(newSection) == multiset(SetOf(sections[k]))
    ensures multiset(newSection) == multiset(sections[k])
    ensures StartsAtFewest(newSection)
  {
    StoredHoldsSection(sections, k);
    forall c
      ensures multiset(sections[k])[c] <= 1
    {
      assert multiset(sections[k])[c] <= Stored(sections)[c];
    }
    NoRepeatMultiset(sections[k]);
    var t := SetOf(sections[k]);
    var f := FewestIndex(sections[k], t);
    assert SetOf(newSection) == t by {
      forall c
        ensures c in newSection <==> c in sections[k]
      {
        assert c in newSection <==> c in multiset(newSection);
      }
    }
    forall q | q in newSection
      ensures Degree(newSection[0], t) <= Degree(q, t)
    {
      assert q in t;
      var j :| 0 <= j < |sections[k]| && sections[k][j] == q;
    }
  }

  /** s is the reordering of the walked section w: the same cells, from a point of fewest neighbours. */
  ghost predicate ReorderOf(w: seq<Cell>, s: seq<Cell>) {
    w != [] && s == Reorder(w) && multiset(s) == multiset(w) && StartsAtFewest(s)
  }

  /** The loop over the walked sections: each one reordered, in key order. */
  method ReorderAll(sections: seq<seq<Cell>>) returns (reordered: seq<seq<Cell>>)
    requires AllChained(sections) && AllNonEmpty(sections)
    requires forall c :: Stored(sections)[c] <= 1
    ensures |reordered| == |sections|
    ensures forall k :: 0 <= k < |sections| ==> ReorderOf(sections[k], reordered[k])
  {
    reordered := [];
    for k := 0 to |sections|
      invariant |reordered| == k
      invariant forall i :: 0 <= i < k ==> ReorderOf(sections[i], reordered[i])
    {
      var newSection := ReorderAt(sections, k);
      reordered := reordered + [newSection];
    }
  }

  /** One iteration of that loop: section k reordered. */
  method ReorderAt(sections: seq<seq<Cell>>, k: nat) returns (newSection: seq<Cell>)
    requires k < |sections| && sections[k] != [] && Chained(sections[k])
    requires forall c :: Stored(sections)[c] <= 1
    ensures ReorderOf(sections[k], newSection)
  {
    newSection := ReorderSection(sections[k]);
    ReorderedSection(sections, k, newSection);
  }

  /**
   * sectionize on a given skeleton: the walked sections, each reordered.
   * The walk stores every set pixel (x, y) as (y, x) exactly once, in
   * sections each chained by adjacency; each result section is the
   * reordering of one walked section, holds the same cells and starts at a
   * point with the fewest in-section neighbours.
   */
  method Sectionize(skeleton: array2<bool>)
    returns (reordered: seq<seq<Cell>>, ghost walked: seq<seq<Cell>>, ghost parent: map<Cell, Cell>, ghost rank: map<Cell, nat>)
    ensures Stored(walked) == multiset(Swapped(OnPixels(skeleton)))
    ensures AllChained(walked) && AllNonEmpty(walked)
    ensures rank.Keys == OnPixels(skeleton) && parent.Keys <= OnPixels(skeleton)
    ensures WalkShape(walked, parent, rank, OnPixels(skeleton), SplitPixels(skeleton))
    ensures |reordered| == |walked|
    ensures forall k :: 0 <= k < |walked| ==> ReorderOf(walked[k], reordered[k])
    ensures Stored(reordered) == multiset(Swapped(OnPixels(skeleton)))
  {
    var walker := new Sectionizer(skeleton);
    walker.Traverse();
    var sections := walker.sections;
    walked, parent, rank := sections, walker.parent, walker.rank;
    assert forall c :: Stored(sections)[c] <= 1;
    reordered := ReorderAll(sections);
    assert forall k :: 0 <= k < |sections| ==> multiset(reordered[k]) == multiset(sections[k]);
    StoredPointwise(reordered, sections);
  }
}
