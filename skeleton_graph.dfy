/**
 * make_graph from server/img_to_points.py: the reduced sections become one
 * vertex list, consecutive points of a section are linked both ways, and
 * section endpoints closer than 10 pixels are joined both ways.
 *
 * The adjacency defaultdict(list) is a map from vertex index to the list of
 * appended neighbour indices; global_indices maps a point to the index of
 * its latest occurrence in the vertex list.
 */
module SkeletonGraph {
  import opened Grid
  import opened Wrappers
  import Sections
  import Linearize

  type Adjacency = map<nat, seq<nat>>

  /** adjacencies[a].append(b): the key is created with an empty list on first use. */
  function Append(adj: Adjacency, a: nat, b: nat): Adjacency
  {
    adj[a := (if a in adj then adj[a] else []) + [b]]
  }

  /**
   * An append adds the key a if missing, puts b at the end of a's list
   * after its old entries, and leaves every other list alone.
   */
  lemma AppendShape(adj: Adjacency, a: nat, b: nat)
    ensures Append(adj, a, b).Keys == adj.Keys + {a}
    ensures forall k :: k in adj && k != a ==> Append(adj, a, b)[k] == adj[k]
    ensures var l := Append(adj, a, b)[a]; |l| > 0 && l[|l| - 1] == b
    ensures var l := Append(adj, a, b)[a]; a in adj ==> l[..|l| - 1] == adj[a]
    ensures a !in adj ==> Append(adj, a, b)[a] == [b]
  {
  }

  /** How many times b was appended to a's list. */
  function Mult(adj: Adjacency, a: nat, b: nat): nat
  {
    if a in adj then multiset(adj[a])[b] else 0
  }

  predicate Linked(adj: Adjacency, a: nat, b: nat) {
    a in adj && b in adj[a]
  }

  /** Every edge appears as often from a to b as from b to a. */
  ghost predicate Symmetric(adj: Adjacency) {
    forall a, b :: Mult(adj, a, b) == Mult(adj, b, a)
  }

  /** Keys and entries are vertex indices below n. */
  ghost predicate Bounded(adj: Adjacency, n: nat) {
    forall a :: a in adj ==> a < n && forall b :: b in adj[a] ==> b < n
  }

  /** An append adds exactly one to the count of its own pair and keeps every link. */
  lemma AppendCounts(adj: Adjacency, a: nat, b: nat)
    ensures forall x, y :: Mult(Append(adj, a, b), x, y) == Mult(adj, x, y) + (if x == a && y == b then 1 else 0)
    ensures forall x, y :: Linked(adj, x, y) ==> Linked(Append(adj, a, b), x, y)
    ensures Linked(Append(adj, a, b), a, b)
  {
  }

  /** adjacencies[a].append(b) followed by adjacencies[b].append(a). */
  function Link(adj: Adjacency, a: nat, b: nat): Adjacency
  {
    Append(Append(adj, a, b), b, a)
  }

  /** A two-way append keeps the adjacency symmetric and bounded, keeps every link and adds both directions. */
  lemma LinkKeeps(adj: Adjacency, a: nat, b: nat, n: nat)
    requires Symmetric(adj) && Bounded(adj, n) && a < n && b < n
    ensures Symmetric(Link(adj, a, b)) && Bounded(Link(adj, a, b), n)
    ensures forall x, y :: Linked(adj, x, y) ==> Linked(Link(adj, a, b), x, y)
    ensures Linked(Link(adj, a, b), a, b) && Linked(Link(adj, a, b), b, a)
  {
    AppendCounts(adj, a, b);
    AppendCounts(Append(adj, a, b), b, a);
  }

  /** The concatenation of the sections, in order. */
  function Flatten(ss: seq<seq<Cell>>): seq<Cell>
  {
    if ss == [] then [] else Flatten(ss[..|ss| - 1]) + ss[|ss| - 1]
  }

  /** The index of the first vertex of section k. */
  function Offset(ss: seq<seq<Cell>>, k: nat): nat
    requires k <= |ss|
  {
    |Flatten(ss[..k])|
  }

  lemma {:induction false} FlattenAt(ss: seq<seq<Cell>>, k: nat, i: nat)
    requires k < |ss| && i < |ss[k]|
    ensures Offset(ss, k) + i < |Flatten(ss)| && Flatten(ss)[Offset(ss, k) + i] == ss[k][i]
  {
    var n := |ss| - 1;
    assert ss[..|ss|] == ss;
    if k < n {
      assert ss[..n][..k] == ss[..k];
      FlattenAt(ss[..n], k, i);
    } else {
      assert ss[..n] == ss[..k];
    }
  }

  lemma {:induction false} FlattenMember(ss: seq<seq<Cell>>, v: Cell)
    requires v in Flatten(ss)
    ensures exists k :: 0 <= k < |ss| && v in ss[k]
  {
    var n := |ss| - 1;
    if v !in ss[n] {
      FlattenMember(ss[..n], v);
      var k :| 0 <= k < n && v in ss[..n][k];
    }
  }

  /** The index global_indices holds for c: its last occurrence. */
  function LastIndex(vs: seq<Cell>, c: Cell): (i: nat)
    requires c in vs
    ensures i < |vs| && vs[i] == c
    ensures forall j :: i < j < |vs| ==> vs[j] != c
  {
    if vs[|vs| - 1] == c then |vs| - 1 else LastIndex(vs[..|vs| - 1], c)
  }

  /** global_indices after vs have been added: every vertex mapped to its last index. */
  ghost predicate IndexesLast(globalIndices: map<Cell, nat>, vs: seq<Cell>) {
    (forall c :: c in globalIndices <==> c in vs) &&
    (forall c :: c in globalIndices ==> c in vs && globalIndices[c] == LastIndex(vs, c))
  }

  lemma IndexesLastAppend(globalIndices: map<Cell, nat>, vs: seq<Cell>, c: Cell)
    requires IndexesLast(globalIndices, vs)
    ensures IndexesLast(globalIndices[c := |vs|], vs + [c])
  {
    var vs' := vs + [c];
    assert vs'[..|vs|] == vs;
    forall d | d in vs
      ensures d in vs'
    {
      var j :| 0 <= j < |vs| && vs[j] == d;
      assert vs'[j] == d;
    }
  }

  /**
   * Point i > 0 of section k is linked both ways with the vertex that
   * global_indices held for point i - 1 at that moment: the vertex just
   * before it, or itself when the two points coincide.
   */
  ghost predicate ConsecutiveLinked(ss: seq<seq<Cell>>, adj: Adjacency, k: nat, i: nat)
    requires k < |ss| && 0 < i < |ss[k]|
  {
    Linked(adj, Offset(ss, k) + i, Prev(ss, k, i)) && Linked(adj, Prev(ss, k, i), Offset(ss, k) + i)
  }

  /** The index global_indices holds for point i - 1 of section k once point i is added. */
  function Prev(ss: seq<seq<Cell>>, k: nat, i: nat): nat
    requires k < |ss| && 0 < i < |ss[k]|
  {
    var p := Offset(ss, k) + i;
    if ss[k][i - 1] == ss[k][i] then p else p - 1
  }

  /** Endpoint e (0 first, 1 last) of a non-empty section. */
  function End(s: seq<Cell>, e: nat): Cell
    requires s != [] && e < 2
  {
    if e == 0 then s[0] else s[|s| - 1]
  }

  /** The chosen ends of sections a and b are linked both ways through their global indices. */
  ghost predicate EndsJoined(vertices: seq<Cell>, adj: Adjacency, s1: seq<Cell>, s2: seq<Cell>, e1: nat, e2: nat)
    requires s1 != [] && s2 != [] && e1 < 2 && e2 < 2
  {
    var c1 := End(s1, e1);
    var c2 := End(s2, e2);
    c1 in vertices && c2 in vertices &&
    Linked(adj, LastIndex(vertices, c1), LastIndex(vertices, c2)) &&
    Linked(adj, LastIndex(vertices, c2), LastIndex(vertices, c1))
  }

  /** The ends of two sections that must be joined. */
  predicate CloseEnds(s1: seq<Cell>, s2: seq<Cell>, e1: nat, e2: nat)
    requires s1 != [] && s2 != [] && e1 < 2 && e2 < 2
  {
    SqDist(End(s1, e1), End(s2, e2)) < 100
  }

  predicate AllNonEmpty(ss: seq<seq<Cell>>) {
    forall k :: 0 <= k < |ss| ==> ss[k] != []
  }

  /** Links only accumulate, so a consecutive pair stays linked. */
  lemma KeepsConsecutive(ss: seq<seq<Cell>>, adj: Adjacency, adj': Adjacency, k: nat, i: nat)
    requires k < |ss| && 0 < i < |ss[k]|
    requires forall x, y :: Linked(adj, x, y) ==> Linked(adj', x, y)
    requires ConsecutiveLinked(ss, adj, k, i)
    ensures ConsecutiveLinked(ss, adj', k, i)
  {
  }

  // ---------------------------------------------------------------------
  // The adjacency make_graph builds, as a function of the sections

  /** The links added with point i of section k: none for the first point of a section. */
  function LinkPoint(ss: seq<seq<Cell>>, k: nat, i: nat, adj: Adjacency): Adjacency
    requires k < |ss| && i < |ss[k]|
  {
    if i == 0 then adj else Link(adj, Offset(ss, k) + i, Prev(ss, k, i))
  }

  /** The adjacency after the first i points of section k. */
  function LinkSection(ss: seq<seq<Cell>>, k: nat, i: nat, adj: Adjacency): Adjacency
    requires k < |ss| && i <= |ss[k]|
  {
    if i == 0 then adj else LinkPoint(ss, k, i - 1, LinkSection(ss, k, i - 1, adj))
  }

  /** The adjacency after the first k sections. */
  function LinkSections(ss: seq<seq<Cell>>, k: nat): Adjacency
    requires k <= |ss|
  {
    if k == 0 then map[] else LinkSection(ss, k - 1, |ss[k - 1]|, LinkSections(ss, k - 1))
  }

  /** End e1 of s1 and end e2 of s2 linked both ways through their last indices in vs, if closer than 10. */
  function JoinEndPair(vs: seq<Cell>, adj: Adjacency, s1: seq<Cell>, s2: seq<Cell>, e1: nat, e2: nat): Adjacency
    requires s1 != [] && s2 != [] && e1 < 2 && e2 < 2
    requires End(s1, e1) in vs && End(s2, e2) in vs
  {
    if CloseEnds(s1, s2, e1, e2) then Link(adj, LastIndex(vs, End(s1, e1)), LastIndex(vs, End(s2, e2))) else adj
  }

  /** The first q of the end pairs (0, 0), (0, -1), (-1, 0), (-1, -1), joined in that order. */
  function JoinEndsOf(vs: seq<Cell>, adj: Adjacency, s1: seq<Cell>, s2: seq<Cell>, q: nat): Adjacency
    requires s1 != [] && s2 != [] && q <= 4
    requires s1[0] in vs && s1[|s1| - 1] in vs && s2[0] in vs && s2[|s2| - 1] in vs
  {
    if q == 0 then adj else JoinEndPair(vs, JoinEndsOf(vs, adj, s1, s2, q - 1), s1, s2, (q - 1) / 2, (q - 1) % 2)
  }

  /** Section a joined with sections a + 1 .. b - 1, in that order. */
  function JoinRow(ss: seq<seq<Cell>>, a: nat, b: nat, adj: Adjacency): Adjacency
    requires a < b <= |ss| && (|ss| >= 2 ==> AllNonEmpty(ss))
    decreases b
  {
    if b == a + 1 then adj
    else
      EndsInFlatten(ss, a);
      EndsInFlatten(ss, b - 1);
      JoinEndsOf(Flatten(ss), JoinRow(ss, a, b - 1, adj), ss[a], ss[b - 1], 4)
  }

  /** Rows 0 .. a - 1 of the loop over pairs of sections. */
  function JoinAll(ss: seq<seq<Cell>>, a: nat, adj: Adjacency): Adjacency
    requires a <= |ss| && (|ss| >= 2 ==> AllNonEmpty(ss))
  {
    if a == 0 then adj else JoinRow(ss, a - 1, |ss|, JoinAll(ss, a - 1, adj))
  }

  /** The adjacency make_graph builds over the reduced sections ss. */
  function GraphOf(ss: seq<seq<Cell>>): Adjacency
    requires |ss| >= 2 ==> AllNonEmpty(ss)
  {
    JoinAll(ss, |ss|, LinkSections(ss, |ss|))
  }

  /** Points i - 1 and i of a section, by the indices make_graph links, in either direction. */
  ghost predicate ConsecutiveEdge(ss: seq<seq<Cell>>, x: nat, y: nat) {
    exists k, i :: 0 <= k < |ss| && 0 < i < |ss[k]| &&
      ((x == Offset(ss, k) + i && y == Prev(ss, k, i)) || (x == Prev(ss, k, i) && y == Offset(ss, k) + i))
  }

  /** The vertex index of end e of section a: the last index of that point. */
  function EndIndex(ss: seq<seq<Cell>>, a: nat, e: nat): nat
    requires a < |ss| && ss[a] != [] && e < 2
  {
    EndsInFlatten(ss, a);
    LastIndex(Flatten(ss), End(ss[a], e))
  }

  /** Close ends of two sections a < b, by their vertex indices, in either direction. */
  ghost predicate JoinEdge(ss: seq<seq<Cell>>, x: nat, y: nat) {
    exists a, b, e1, e2 :: 0 <= a < b < |ss| && 0 <= e1 < 2 && 0 <= e2 < 2 && ss[a] != [] && ss[b] != [] &&
      CloseEnds(ss[a], ss[b], e1, e2) &&
      ((x == EndIndex(ss, a, e1) && y == EndIndex(ss, b, e2)) || (x == EndIndex(ss, b, e2) && y == EndIndex(ss, a, e1)))
  }

  /** A two-way link adds its pair in both directions and nothing else. */
  lemma LinkOnly(adj: Adjacency, a: nat, b: nat, x: nat, y: nat)
    ensures Linked(Link(adj, a, b), x, y) ==> Linked(adj, x, y) || (x == a && y == b) || (x == b && y == a)
  {
  }

  lemma {:induction false} LinkSectionOnly(ss: seq<seq<Cell>>, k: nat, i: nat, adj: Adjacency, x: nat, y: nat)
    requires k < |ss| && i <= |ss[k]|
    ensures Linked(LinkSection(ss, k, i, adj), x, y) ==> Linked(adj, x, y) || ConsecutiveEdge(ss, x, y)
  {
    if i > 0 {
      var before := LinkSection(ss, k, i - 1, adj);
      if i - 1 > 0 && !Linked(before, x, y) {
        LinkOnly(before, Offset(ss, k) + (i - 1), Prev(ss, k, i - 1), x, y);
      } else {
        LinkSectionOnly(ss, k, i - 1, adj, x, y);
      }
    }
  }

  lemma {:induction false} LinkSectionsOnly(ss: seq<seq<Cell>>, k: nat, x: nat, y: nat)
    requires k <= |ss|
    ensures Linked(LinkSections(ss, k), x, y) ==> ConsecutiveEdge(ss, x, y)
  {
    if k > 0 {
      LinkSectionOnly(ss, k - 1, |ss[k - 1]|, LinkSections(ss, k - 1), x, y);
      LinkSectionsOnly(ss, k - 1, x, y);
    }
  }

  lemma {:induction false} JoinEndsOnly(ss: seq<seq<Cell>>, a: nat, b: nat, adj: Adjacency, q: nat, x: nat, y: nat)
    requires a < b < |ss| && ss[a] != [] && ss[b] != [] && q <= 4
    requires ss[a][0] in Flatten(ss) && ss[a][|ss[a]| - 1] in Flatten(ss)
    requires ss[b][0] in Flatten(ss) && ss[b][|ss[b]| - 1] in Flatten(ss)
    ensures Linked(JoinEndsOf(Flatten(ss), adj, ss[a], ss[b], q), x, y) ==> Linked(adj, x, y) || JoinEdge(ss, x, y)
  {
    if q > 0 {
      var e1, e2 := (q - 1) / 2, (q - 1) % 2;
      var before := JoinEndsOf(Flatten(ss), adj, ss[a], ss[b], q - 1);
      JoinEndsOnly(ss, a, b, adj, q - 1, x, y);
      if CloseEnds(ss[a], ss[b], e1, e2) {
        LinkOnly(before, EndIndex(ss, a, e1), EndIndex(ss, b, e2), x, y);
      }
    }
  }

  lemma {:induction false} JoinRowOnly(ss: seq<seq<Cell>>, a: nat, b: nat, adj: Adjacency, x: nat, y: nat)
    requires a < b <= |ss| && (|ss| >= 2 ==> AllNonEmpty(ss))
    ensures Linked(JoinRow(ss, a, b, adj), x, y) ==> Linked(adj, x, y) || JoinEdge(ss, x, y)
  {
    if b > a + 1 {
      EndsInFlatten(ss, a);
      EndsInFlatten(ss, b - 1);
      JoinEndsOnly(ss, a, b - 1, JoinRow(ss, a, b - 1, adj), 4, x, y);
      JoinRowOnly(ss, a, b - 1, adj, x, y);
    }
  }

  lemma {:induction false} JoinAllOnly(ss: seq<seq<Cell>>, a: nat, adj: Adjacency, x: nat, y: nat)
    requires a <= |ss| && (|ss| >= 2 ==> AllNonEmpty(ss))
    ensures Linked(JoinAll(ss, a, adj), x, y) ==> Linked(adj, x, y) || JoinEdge(ss, x, y)
  {
    if a > 0 {
      JoinRowOnly(ss, a - 1, |ss|, JoinAll(ss, a - 1, adj), x, y);
      JoinAllOnly(ss, a - 1, adj, x, y);
    }
  }

  /** make_graph links nothing but consecutive points of a section and close ends of two sections. */
  lemma GraphLinksOnly(ss: seq<seq<Cell>>)
    requires |ss| >= 2 ==> AllNonEmpty(ss)
    ensures forall x, y :: Linked(GraphOf(ss), x, y) ==> ConsecutiveEdge(ss, x, y) || JoinEdge(ss, x, y)
  {
    forall x, y | Linked(GraphOf(ss), x, y)
      ensures ConsecutiveEdge(ss, x, y) || JoinEdge(ss, x, y)
    {
      JoinAllOnly(ss, |ss|, LinkSections(ss, |ss|), x, y);
      LinkSectionsOnly(ss, |ss|, x, y);
    }
  }

  /** One step of the first loop of make_graph: add point i of section k. */
  method AddPoint(ss: seq<seq<Cell>>, k: nat, i: nat, vertices: seq<Cell>, adjacencies: Adjacency, globalIndices: map<Cell, nat>)
    returns (vertices': seq<Cell>, adjacencies': Adjacency, globalIndices': map<Cell, nat>)
    requires k < |ss| && i < |ss[k]|
    requires vertices == Flatten(ss[..k]) + ss[k][..i]
    requires IndexesLast(globalIndices, vertices)
    requires Symmetric(adjacencies) && Bounded(adjacencies, |vertices|)
    ensures vertices' == Flatten(ss[..k]) + ss[k][..i + 1]
    ensures IndexesLast(globalIndices', vertices')
    ensures adjacencies' == LinkPoint(ss, k, i, adjacencies)
    ensures Symmetric(adjacencies') && Bounded(adjacencies', |vertices'|)
    ensures forall x, y :: Linked(adjacencies, x, y) ==> Linked(adjacencies', x, y)
    ensures i > 0 ==> ConsecutiveLinked(ss, adjacencies', k, i)
  {
    var section := ss[k];
    vertices', globalIndices' := AddVertex(ss, k, i, vertices, globalIndices);
    adjacencies' := adjacencies;
    if i > 0 {
      var p := globalIndices'[section[i]];
      var q := globalIndices'[section[i - 1]];
      adjacencies' := Link(adjacencies, p, q);
    }
    LinkPointKeeps(ss, k, i, adjacencies);
  }

  /** vertices.append(point) and global_indices[point] = len(vertices) - 1. */
  method AddVertex(ss: seq<seq<Cell>>, k: nat, i: nat, vertices: seq<Cell>, globalIndices: map<Cell, nat>)
    returns (vertices': seq<Cell>, globalIndices': map<Cell, nat>)
    requires k < |ss| && i < |ss[k]|
    requires vertices == Flatten(ss[..k]) + ss[k][..i]
    requires IndexesLast(globalIndices, vertices)
    ensures vertices' == Flatten(ss[..k]) + ss[k][..i + 1]
    ensures IndexesLast(globalIndices', vertices')
    ensures |vertices| == Offset(ss, k) + i && |vertices'| == |vertices| + 1
    ensures ss[k][i] in globalIndices' && globalIndices'[ss[k][i]] == Offset(ss, k) + i
    ensures i > 0 ==> ss[k][i - 1] in globalIndices' && globalIndices'[ss[k][i - 1]] == Prev(ss, k, i)
  {
    IndexesLastAppend(globalIndices, vertices, ss[k][i]);
    globalIndices' := globalIndices[ss[k][i] := |vertices|];
    vertices' := vertices + [ss[k][i]];
    assert ss[k][..i + 1] == ss[k][..i] + [ss[k][i]];
    if i > 0 {
      PointIndices(ss, k, i, vertices, globalIndices);
    } else {
      assert vertices == Flatten(ss[..k]);
    }
  }

  /** The links of point i keep the adjacency symmetric and bounded by the vertex count, keep every link and link i to its predecessor. */
  lemma LinkPointKeeps(ss: seq<seq<Cell>>, k: nat, i: nat, adj: Adjacency)
    requires k < |ss| && i < |ss[k]|
    requires Symmetric(adj) && Bounded(adj, Offset(ss, k) + i)
    ensures Symmetric(LinkPoint(ss, k, i, adj)) && Bounded(LinkPoint(ss, k, i, adj), Offset(ss, k) + i + 1)
    ensures forall x, y :: Linked(adj, x, y) ==> Linked(LinkPoint(ss, k, i, adj), x, y)
    ensures i > 0 ==> ConsecutiveLinked(ss, LinkPoint(ss, k, i, adj), k, i)
  {
    if i > 0 {
      LinkKeeps(adj, Offset(ss, k) + i, Prev(ss, k, i), Offset(ss, k) + i + 1);
    }
  }

  /** When point i > 0 of section k is added, global_indices gives it index Offset + i and its predecessor Prev. */
  lemma PointIndices(ss: seq<seq<Cell>>, k: nat, i: nat, vertices: seq<Cell>, globalIndices: map<Cell, nat>)
    requires k < |ss| && 0 < i < |ss[k]|
    requires vertices == Flatten(ss[..k]) + ss[k][..i]
    requires IndexesLast(globalIndices, vertices)
    ensures |vertices| == Offset(ss, k) + i
    ensures ss[k][i - 1] in globalIndices[ss[k][i] := |vertices|]
    ensures globalIndices[ss[k][i] := |vertices|][ss[k][i - 1]] == Prev(ss, k, i)
  {
    assert vertices[|vertices| - 1] == ss[k][i - 1];
    if ss[k][i - 1] != ss[k][i] {
      assert LastIndex(vertices, ss[k][i - 1]) == |vertices| - 1;
    }
  }

  /** The first loop of make_graph: every point of every section, in order. */
  method AddSections(ss: seq<seq<Cell>>) returns (vertices: seq<Cell>, adjacencies: Adjacency, globalIndices: map<Cell, nat>)
    ensures vertices == Flatten(ss)
    ensures IndexesLast(globalIndices, vertices)
    ensures adjacencies == LinkSections(ss, |ss|)
    ensures Symmetric(adjacencies) && Bounded(adjacencies, |vertices|)
    ensures forall k, i :: 0 <= k < |ss| && 0 < i < |ss[k]| ==> ConsecutiveLinked(ss, adjacencies, k, i)
  {
    vertices, adjacencies, globalIndices := [], map[], map[];
    for k := 0 to |ss|
      invariant vertices == Flatten(ss[..k])
      invariant adjacencies == LinkSections(ss, k)
      invariant IndexesLast(globalIndices, vertices)
      invariant Symmetric(adjacencies) && Bounded(adjacencies, |vertices|)
    {
      assert ss[k][..0] == [];
      for i := 0 to |ss[k]|
        invariant vertices == Flatten(ss[..k]) + ss[k][..i]
        invariant IndexesLast(globalIndices, vertices)
        invariant adjacencies == LinkSection(ss, k, i, LinkSections(ss, k))
        invariant Symmetric(adjacencies) && Bounded(adjacencies, |vertices|)
      {
        vertices, adjacencies, globalIndices := AddPoint(ss, k, i, vertices, adjacencies, globalIndices);
      }
      assert ss[..k + 1][..k] == ss[..k];
      assert ss[k][..|ss[k]|] == ss[k];
    }
    assert ss[..|ss|] == ss;
    LinkSectionsLinks(ss, |ss|);
  }

  /** The links of point i keep every link and link i to its predecessor both ways. */
  lemma LinkPointLinks(ss: seq<seq<Cell>>, k: nat, i: nat, adj: Adjacency)
    requires k < |ss| && i < |ss[k]|
    ensures forall x, y :: Linked(adj, x, y) ==> Linked(LinkPoint(ss, k, i, adj), x, y)
    ensures i > 0 ==> ConsecutiveLinked(ss, LinkPoint(ss, k, i, adj), k, i)
  {
    if i > 0 {
      var p, q := Offset(ss, k) + i, Prev(ss, k, i);
      AppendCounts(adj, p, q);
      AppendCounts(Append(adj, p, q), q, p);
    }
  }

  /** After the first i points of section k, each of them past the first is linked to its predecessor. */
  lemma {:induction false} LinkSectionLinks(ss: seq<seq<Cell>>, k: nat, i: nat, adj: Adjacency)
    requires k < |ss| && i <= |ss[k]|
    ensures forall x, y :: Linked(adj, x, y) ==> Linked(LinkSection(ss, k, i, adj), x, y)
    ensures forall i' :: 0 < i' < i ==> ConsecutiveLinked(ss, LinkSection(ss, k, i, adj), k, i')
  {
    if i > 0 {
      var before := LinkSection(ss, k, i - 1, adj);
      LinkSectionLinks(ss, k, i - 1, adj);
      LinkPointLinks(ss, k, i - 1, before);
      forall i' | 0 < i' < i - 1
        ensures ConsecutiveLinked(ss, LinkSection(ss, k, i, adj), k, i')
      {
        KeepsConsecutive(ss, before, LinkSection(ss, k, i, adj), k, i');
      }
    }
  }

  /** After the first k sections, every consecutive pair of points in them is linked both ways. */
  lemma {:induction false} LinkSectionsLinks(ss: seq<seq<Cell>>, k: nat)
    requires k <= |ss|
    ensures forall k', i :: 0 <= k' < k && 0 < i < |ss[k']| ==> ConsecutiveLinked(ss, LinkSections(ss, k), k', i)
  {
    if k > 0 {
      var before := LinkSections(ss, k - 1);
      LinkSectionsLinks(ss, k - 1);
      LinkSectionLinks(ss, k - 1, |ss[k - 1]|, before);
      forall k', i | 0 <= k' < k - 1 && 0 < i < |ss[k']|
        ensures ConsecutiveLinked(ss, LinkSections(ss, k), k', i)
      {
        KeepsConsecutive(ss, before, LinkSections(ss, k), k', i);
      }
    }
  }

  /** Links only accumulate, so joined ends stay joined. */
  lemma KeepsJoined(vertices: seq<Cell>, adj: Adjacency, adj': Adjacency, s1: seq<Cell>, s2: seq<Cell>, e1: nat, e2: nat)
    requires s1 != [] && s2 != [] && e1 < 2 && e2 < 2
    requires forall x, y :: Linked(adj, x, y) ==> Linked(adj', x, y)
    requires EndsJoined(vertices, adj, s1, s2, e1, e2)
    ensures EndsJoined(vertices, adj', s1, s2, e1, e2)
  {
  }

  /** One (i, j) of the product: link the two ends when they are closer than 10. */
  method JoinPair(vertices: seq<Cell>, adjacencies: Adjacency, globalIndices: map<Cell, nat>, s1: seq<Cell>, s2: seq<Cell>, e1: nat, e2: nat)
    returns (adjacencies': Adjacency)
    requires s1 != [] && s2 != [] && e1 < 2 && e2 < 2
    requires IndexesLast(globalIndices, vertices)
    requires End(s1, e1) in vertices && End(s2, e2) in vertices
    requires Symmetric(adjacencies) && Bounded(adjacencies, |vertices|)
    ensures Symmetric(adjacencies') && Bounded(adjacencies', |vertices|)
    ensures forall x, y :: Linked(adjacencies, x, y) ==> Linked(adjacencies', x, y)
    ensures adjacencies' == JoinEndPair(vertices, adjacencies, s1, s2, e1, e2)
    ensures CloseEnds(s1, s2, e1, e2) ==> EndsJoined(vertices, adjacencies', s1, s2, e1, e2)
    ensures !CloseEnds(s1, s2, e1, e2) ==> adjacencies' == adjacencies
  {
    var c1 := End(s1, e1);
    var c2 := End(s2, e2);
    adjacencies' := adjacencies;
    if SqDist(c1, c2) < 100 {
      var a := globalIndices[c1];
      var b := globalIndices[c2];
      LinkKeeps(adjacencies, a, b, |vertices|);
      adjacencies' := Link(adjacencies, a, b);
    }
  }

  /** for i, j in product([0, -1], [0, -1]): join the ends of s1 and s2 that are closer than 10. */
  method JoinEnds(vertices: seq<Cell>, adjacencies: Adjacency, globalIndices: map<Cell, nat>, s1: seq<Cell>, s2: seq<Cell>)
    returns (adjacencies': Adjacency)
    requires s1 != [] && s2 != []
    requires IndexesLast(globalIndices, vertices)
    requires s1[0] in vertices && s1[|s1| - 1] in vertices && s2[0] in vertices && s2[|s2| - 1] in vertices
    requires Symmetric(adjacencies) && Bounded(adjacencies, |vertices|)
    ensures adjacencies' == JoinEndsOf(vertices, adjacencies, s1, s2, 4)
    ensures Symmetric(adjacencies') && Bounded(adjacencies', |vertices|)
    ensures forall x, y :: Linked(adjacencies, x, y) ==> Linked(adjacencies', x, y)
    ensures forall e1, e2 :: 0 <= e1 < 2 && 0 <= e2 < 2 && CloseEnds(s1, s2, e1, e2) ==> EndsJoined(vertices, adjacencies', s1, s2, e1, e2)
  {
    adjacencies' := adjacencies;
    for q := 0 to 4
      invariant adjacencies' == JoinEndsOf(vertices, adjacencies, s1, s2, q)
      invariant Symmetric(adjacencies') && Bounded(adjacencies', |vertices|)
      invariant forall x, y :: Linked(adjacencies, x, y) ==> Linked(adjacencies', x, y)
      invariant JoinedUpTo(vertices, adjacencies', s1, s2, q)
    {
      var before := adjacencies';
      adjacencies' := JoinPair(vertices, adjacencies', globalIndices, s1, s2, q / 2, q % 2);
      JoinedStep(vertices, before, adjacencies', s1, s2, q);
    }
  }

  /** The first q end pairs that are close are joined. */
  ghost predicate JoinedUpTo(vertices: seq<Cell>, adj: Adjacency, s1: seq<Cell>, s2: seq<Cell>, q: nat)
    requires s1 != [] && s2 != []
  {
    forall e1, e2 :: 0 <= e1 < 2 && 0 <= e2 < 2 && 2 * e1 + e2 < q && CloseEnds(s1, s2, e1, e2) ==>
      EndsJoined(vertices, adj, s1, s2, e1, e2)
  }

  /** Joining end pair q keeps the earlier joins and adds the pair q. */
  lemma JoinedStep(vertices: seq<Cell>, before: Adjacency, after: Adjacency, s1: seq<Cell>, s2: seq<Cell>, q: nat)
    requires s1 != [] && s2 != [] && q < 4
    requires JoinedUpTo(vertices, before, s1, s2, q)
    requires forall x, y :: Linked(before, x, y) ==> Linked(after, x, y)
    requires CloseEnds(s1, s2, q / 2, q % 2) ==> EndsJoined(vertices, after, s1, s2, q / 2, q % 2)
    ensures JoinedUpTo(vertices, after, s1, s2, q + 1)
  {
    forall e1, e2 | 0 <= e1 < 2 && 0 <= e2 < 2 && 2 * e1 + e2 < q + 1 && CloseEnds(s1, s2, e1, e2)
      ensures EndsJoined(vertices, after, s1, s2, e1, e2)
    {
      if 2 * e1 + e2 < q {
        KeepsJoined(vertices, before, after, s1, s2, e1, e2);
      } else {
        assert e1 == q / 2 && e2 == q % 2;
      }
    }
  }

  lemma EndsInFlatten(ss: seq<seq<Cell>>, k: nat)
    requires k < |ss| && ss[k] != []
    ensures ss[k][0] in Flatten(ss) && ss[k][|ss[k]| - 1] in Flatten(ss)
  {
    FlattenAt(ss, k, 0);
    FlattenAt(ss, k, |ss[k]| - 1);
  }

  /** The second loop of make_graph: for every pair of sections, join their close ends. */
  method JoinSections(ss: seq<seq<Cell>>, vertices: seq<Cell>, adjacencies: Adjacency, globalIndices: map<Cell, nat>)
    returns (adjacencies': Adjacency)
    requires |ss| >= 2 ==> AllNonEmpty(ss)
    requires vertices == Flatten(ss) && IndexesLast(globalIndices, vertices)
    requires Symmetric(adjacencies) && Bounded(adjacencies, |vertices|)
    ensures adjacencies' == JoinAll(ss, |ss|, adjacencies)
    ensures Symmetric(adjacencies') && Bounded(adjacencies', |vertices|)
    ensures forall x, y :: Linked(adjacencies, x, y) ==> Linked(adjacencies', x, y)
    ensures forall a, b, e1, e2 :: 0 <= a < b < |ss| && 0 <= e1 < 2 && 0 <= e2 < 2 && CloseEnds(ss[a], ss[b], e1, e2) ==>
              EndsJoined(vertices, adjacencies', ss[a], ss[b], e1, e2)
  {
    adjacencies' := adjacencies;
    for a := 0 to |ss|
      invariant adjacencies' == JoinAll(ss, a, adjacencies)
      invariant Symmetric(adjacencies') && Bounded(adjacencies', |vertices|)
      invariant forall x, y :: Linked(adjacencies, x, y) ==> Linked(adjacencies', x, y)
      invariant forall a', b, e1, e2 :: 0 <= a' < a && a' < b < |ss| && 0 <= e1 < 2 && 0 <= e2 < 2 && CloseEnds(ss[a'], ss[b], e1, e2) ==>
                  EndsJoined(vertices, adjacencies', ss[a'], ss[b], e1, e2)
    {
      var before := adjacencies';
      adjacencies' := JoinToLater(ss, a, vertices, adjacencies', globalIndices);
      forall a', b, e1, e2 | 0 <= a' < a && a' < b < |ss| && 0 <= e1 < 2 && 0 <= e2 < 2 && CloseEnds(ss[a'], ss[b], e1, e2)
        ensures EndsJoined(vertices, adjacencies', ss[a'], ss[b], e1, e2)
      {
        KeepsJoined(vertices, before, adjacencies', ss[a'], ss[b], e1, e2);
      }
    }
  }

  /** One pass of the outer loop of the second loop of make_graph: join the close ends of section a with every later section. */
  method JoinToLater(ss: seq<seq<Cell>>, a: nat, vertices: seq<Cell>, adjacencies: Adjacency, globalIndices: map<Cell, nat>)
    returns (adjacencies': Adjacency)
    requires a < |ss|
    requires |ss| >= 2 ==> AllNonEmpty(ss)
    requires vertices == Flatten(ss) && IndexesLast(globalIndices, vertices)
    requires Symmetric(adjacencies) && Bounded(adjacencies, |vertices|)
    ensures adjacencies' == JoinRow(ss, a, |ss|, adjacencies)
    ensures Symmetric(adjacencies') && Bounded(adjacencies', |vertices|)
    ensures forall x, y :: Linked(adjacencies, x, y) ==> Linked(adjacencies', x, y)
    ensures forall b, e1, e2 :: a < b < |ss| && 0 <= e1 < 2 && 0 <= e2 < 2 && CloseEnds(ss[a], ss[b], e1, e2) ==>
              EndsJoined(vertices, adjacencies', ss[a], ss[b], e1, e2)
  {
    adjacencies' := adjacencies;
    for b := a + 1 to |ss|
      invariant adjacencies' == JoinRow(ss, a, b, adjacencies)
      invariant Symmetric(adjacencies') && Bounded(adjacencies', |vertices|)
      invariant forall x, y :: Linked(adjacencies, x, y) ==> Linked(adjacencies', x, y)
      invariant JoinedBefore(vertices, adjacencies', ss, a, b)
    {
      EndsInFlatten(ss, a);
      EndsInFlatten(ss, b);
      var before := adjacencies';
      adjacencies' := JoinEnds(vertices, adjacencies', globalIndices, ss[a], ss[b]);
      JoinedBeforeStep(vertices, before, adjacencies', ss, a, b);
    }
  }

  /** The close ends of section a and of each of sections a + 1 .. b - 1 are joined. */
  ghost predicate JoinedBefore(vertices: seq<Cell>, adj: Adjacency, ss: seq<seq<Cell>>, a: nat, b: nat)
    requires a < b <= |ss| && (|ss| >= 2 ==> AllNonEmpty(ss))
  {
    forall b', e1, e2 :: a < b' < b && 0 <= e1 < 2 && 0 <= e2 < 2 && CloseEnds(ss[a], ss[b'], e1, e2) ==>
      EndsJoined(vertices, adj, ss[a], ss[b'], e1, e2)
  }

  /** Joining section a with section b keeps the earlier joins of section a and adds those with b. */
  lemma JoinedBeforeStep(vertices: seq<Cell>, before: Adjacency, after: Adjacency, ss: seq<seq<Cell>>, a: nat, b: nat)
    requires a < b < |ss| && AllNonEmpty(ss)
    requires JoinedBefore(vertices, before, ss, a, b)
    requires forall x, y :: Linked(before, x, y) ==> Linked(after, x, y)
    requires forall e1, e2 :: 0 <= e1 < 2 && 0 <= e2 < 2 && CloseEnds(ss[a], ss[b], e1, e2) ==>
               EndsJoined(vertices, after, ss[a], ss[b], e1, e2)
    ensures JoinedBefore(vertices, after, ss, a, b + 1)
  {
    forall b', e1, e2 | a < b' < b && 0 <= e1 < 2 && 0 <= e2 < 2 && CloseEnds(ss[a], ss[b'], e1, e2)
      ensures EndsJoined(vertices, after, ss[a], ss[b'], e1, e2)
    {
      KeepsJoined(vertices, before, after, ss[a], ss[b'], e1, e2);
    }
  }

  /**
   * The graph of make_graph over given reduced sections: the vertices are
   * the sections concatenated, the adjacency is symmetric and holds the
   * consecutive links and the close-endpoint joins.
   */
  method BuildGraph(reduced: seq<seq<Cell>>) returns (vertices: seq<Cell>, adjacencies: Adjacency)
    requires |reduced| >= 2 ==> AllNonEmpty(reduced)
    ensures vertices == Flatten(reduced)
    ensures adjacencies == GraphOf(reduced)
    ensures Symmetric(adjacencies) && Bounded(adjacencies, |vertices|)
    ensures forall k, i :: 0 <= k < |reduced| && 0 < i < |reduced[k]| ==> ConsecutiveLinked(reduced, adjacencies, k, i)
    ensures forall a, b, e1, e2 :: 0 <= a < b < |reduced| && 0 <= e1 < 2 && 0 <= e2 < 2 && CloseEnds(reduced[a], reduced[b], e1, e2) ==>
              EndsJoined(vertices, adjacencies, reduced[a], reduced[b], e1, e2)
    ensures forall x, y :: Linked(adjacencies, x, y) ==> ConsecutiveEdge(reduced, x, y) || JoinEdge(reduced, x, y)
  {
    var linked, globalIndices;
    vertices, linked, globalIndices := AddSections(reduced);
    adjacencies := JoinSections(reduced, vertices, linked, globalIndices);
    forall k, i | 0 <= k < |reduced| && 0 < i < |reduced[k]|
      ensures ConsecutiveLinked(reduced, adjacencies, k, i)
    {
      KeepsConsecutive(reduced, linked, adjacencies, k, i);
    }
    GraphLinksOnly(reduced);
  }

  /** Every point of a linearized section is a point of the section it came from, and there are at least two. */
  lemma LinearizedPoints(section: seq<Cell>, threshold: real, out: seq<Cell>)
    requires Linearize.Linearized(section, threshold, out)
    ensures |out| >= 2 && forall p :: p in out ==> p in section
  {
    if |section| >= 2 {
      Linearize.SimplificationShape(section, threshold, out);
    }
  }

  /** A vertex built from the reduced walk of a skeleton is, swapped back, an on pixel of it. */
  lemma VertexOnSkeleton(skeleton: array2<bool>, sections: seq<seq<Cell>>, threshold: real, reduced: seq<seq<Cell>>, v: Cell)
    requires Sections.Stored(sections) == multiset(Sections.Swapped(OnPixels(skeleton)))
    requires |reduced| == |sections|
    requires forall k :: 0 <= k < |sections| ==> Linearize.Linearized(sections[k], threshold, reduced[k])
    requires v in Flatten(reduced)
    ensures Swap(v) in OnPixels(skeleton)
  {
    FlattenMember(reduced, v);
    var k :| 0 <= k < |reduced| && v in reduced[k];
    LinearizedPoints(sections[k], threshold, reduced[k]);
    Sections.StoredHoldsSection(sections, k);
    assert v in multiset(sections[k]);
    assert v in Sections.Swapped(OnPixels(skeleton));
    var c :| c in OnPixels(skeleton) && Swap(c) == v;
  }

  /**
   * make_graph over a skeletonized image: walk the skeleton into sections
   * (each a reordered walked section, every set pixel stored once), reduce
   * each with one common threshold, and build the graph of the reduced
   * sections. The sections are never empty, so the reduction always
   * succeeds.
   */
  method MakeGraph(skeleton: array2<bool>, pointsLimit: int)
    returns (vertices: seq<Cell>, adjacencies: Adjacency,
             ghost walked: seq<seq<Cell>>, ghost parent: map<Cell, Cell>, ghost rank: map<Cell, nat>, ghost sections: seq<seq<Cell>>, ghost threshold: real, ghost steps: nat,
             ghost reduced: seq<seq<Cell>>)
    ensures Sections.AllChained(walked) && |sections| == |walked|
    ensures rank.Keys == OnPixels(skeleton) && Sections.WalkShape(walked, parent, rank, OnPixels(skeleton), Sections.SplitPixels(skeleton))
    ensures forall k :: 0 <= k < |walked| ==> Sections.ReorderOf(walked[k], sections[k])
    ensures Sections.Stored(sections) == multiset(Sections.Swapped(OnPixels(skeleton)))
    ensures Sections.AllNonEmpty(sections)
    ensures |reduced| == |sections|
    ensures forall k :: 0 <= k < |sections| ==> Linearize.Linearized(sections[k], threshold, reduced[k])
    ensures 0.0 <= threshold <= 10.0 && 1 <= steps <= 100
    ensures steps < 100 ==> Linearize.TotalPoints(reduced) == pointsLimit
    ensures AllNonEmpty(reduced)
    ensures vertices == Flatten(reduced)
    ensures adjacencies == GraphOf(reduced)
    ensures forall v :: v in vertices ==> Swap(v) in OnPixels(skeleton)
    ensures Symmetric(adjacencies) && Bounded(adjacencies, |vertices|)
    ensures forall k, i :: 0 <= k < |reduced| && 0 < i < |reduced[k]| ==> ConsecutiveLinked(reduced, adjacencies, k, i)
    ensures forall a, b, e1, e2 :: 0 <= a < b < |reduced| && 0 <= e1 < 2 && 0 <= e2 < 2 && CloseEnds(reduced[a], reduced[b], e1, e2) ==>
              EndsJoined(vertices, adjacencies, reduced[a], reduced[b], e1, e2)
    ensures forall x, y :: Linked(adjacencies, x, y) ==> ConsecutiveEdge(reduced, x, y) || JoinEdge(reduced, x, y)
  {
    var reordered;
    reordered, walked, parent, rank := Sections.Sectionize(skeleton);
    sections := reordered;
    assert Sections.AllNonEmpty(reordered) by {
      forall k | 0 <= k < |reordered|
        ensures reordered[k] != []
      {
        assert Sections.ReorderOf(walked[k], reordered[k]);
      }
    }
    var result, t, lo, hi, n := Linearize.ReduceSections(reordered, pointsLimit);
    assert result.Success?;
    threshold, steps := t, n;
    var reducedSections := result.value;
    reduced := reducedSections;
    forall k | 0 <= k < |reduced|
      ensures reduced[k] != []
    {
      LinearizedPoints(sections[k], threshold, reduced[k]);
    }
    vertices, adjacencies := BuildGraph(reducedSections);
    forall v | v in vertices
      ensures Swap(v) in OnPixels(skeleton)
    {
      VertexOnSkeleton(skeleton, sections, threshold, reduced, v);
    }
  }
}
