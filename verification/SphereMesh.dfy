/** Index generation of the sphere mesh, and the surface its triangles form. */
module SphereMesh {

  datatype Triangle = Triangle(a: nat, b: nat, c: nat)

  // ----- the mesh without indices -----

  /** Poles, and vertex `s` of ring `r`; the first ring below the top pole is ring 0. */
  datatype Vertex = Top | Ring(r: nat, s: nat) | Bottom

  /** Triangles by the part of the sphere they come from. */
  datatype Face = TopCap(s: nat) | Lower(r: nat, s: nat) | Upper(r: nat, s: nat) | BottomCap(s: nat)

  /** The sphere has `segments` vertices a ring and `n` + 1 rings. */
  predicate IsFace(f: Face, segments: nat, n: nat) {
    match f
    case TopCap(s) => s < segments
    case Lower(r, s) => r < n && s < segments
    case Upper(r, s) => r < n && s < segments
    case BottomCap(s) => s < segments
  }

  function NextSegment(s: nat, segments: nat): (next: nat)
    requires s < segments
    ensures next < segments
    ensures next == if s + 1 < segments then s + 1 else 0
  {
    (s + 1) % segments
  }

  /** The corners of a triangle in the order they are stored. */
  function Corner(f: Face, i: nat, segments: nat, n: nat): Vertex
    requires IsFace(f, segments, n) && i < 3
  {
    match f
    case TopCap(s) => if i == 0 then Top else if i == 1 then Ring(0, s) else Ring(0, NextSegment(s, segments))
    case Lower(r, s) =>
      if i == 0 then Ring(r, s) else if i == 1 then Ring(r + 1, s) else Ring(r + 1, NextSegment(s, segments))
    case Upper(r, s) =>
      if i == 0 then Ring(r, s) else if i == 1 then Ring(r + 1, NextSegment(s, segments))
        else Ring(r, NextSegment(s, segments))
    case BottomCap(s) => if i == 0 then Ring(n, s) else if i == 1 then Bottom else Ring(n, NextSegment(s, segments))
  }

  function After(i: nat): nat { if i == 2 then 0 else i + 1 }

  /** Directed edge `i` of a triangle goes from its corner `i` to the next. */
  function From(f: Face, i: nat, segments: nat, n: nat): Vertex
    requires IsFace(f, segments, n) && i < 3
  {
    Corner(f, i, segments, n)
  }

  function To(f: Face, i: nat, segments: nat, n: nat): Vertex
    requires IsFace(f, segments, n) && i < 3
  {
    Corner(f, After(i), segments, n)
  }

  /** No directed edge occurs twice. */
  lemma EdgeOnce(f: Face, i: nat, g: Face, j: nat, segments: nat, n: nat)
    requires segments >= 3 && IsFace(f, segments, n) && IsFace(g, segments, n) && i < 3 && j < 3
    requires From(f, i, segments, n) == From(g, j, segments, n) && To(f, i, segments, n) == To(g, j, segments, n)
    ensures f == g && i == j
  {
  }

  function Before(s: nat, segments: nat): nat
    requires s < segments
  {
    if s == 0 then segments - 1 else s - 1
  }

  /** The triangle and edge on the other side of edge `i` of `f`. */
  function Opposite(f: Face, i: nat, segments: nat, n: nat): (Face, nat)
    requires IsFace(f, segments, n) && i < 3
  {
    match f
    case TopCap(s) =>
      if i == 0 then (TopCap(Before(s, segments)), 2)
      else if i == 1 then (if n == 0 then BottomCap(s) else Upper(0, s), 2)
      else (TopCap(NextSegment(s, segments)), 0)
    case Lower(r, s) =>
      if i == 0 then (Upper(r, Before(s, segments)), 1)
      else if i == 1 then (if r + 1 == n then BottomCap(s) else Upper(r + 1, s), 2)
      else (Upper(r, s), 0)
    case Upper(r, s) =>
      if i == 0 then (Lower(r, s), 2)
      else if i == 1 then (Lower(r, NextSegment(s, segments)), 0)
      else (if r == 0 then TopCap(s) else Lower(r - 1, s), 1)
    case BottomCap(s) =>
      if i == 0 then (BottomCap(Before(s, segments)), 1)
      else if i == 1 then (BottomCap(NextSegment(s, segments)), 0)
      else (if n == 0 then TopCap(s) else Lower(n - 1, s), 1)
  }

  lemma OppositeReverses(f: Face, i: nat, segments: nat, n: nat)
    requires IsFace(f, segments, n) && i < 3
    ensures var (g, j) := Opposite(f, i, segments, n);
      && IsFace(g, segments, n) && j < 3
      && From(g, j, segments, n) == To(f, i, segments, n) && To(g, j, segments, n) == From(f, i, segments, n)
  {
  }

  // ----- indices -----

  /** Where vertices and triangles go in the buffers: ring by ring, segment by segment. */
  function Index(v: Vertex, base: nat, segments: nat, n: nat): nat {
    match v
    case Top => base
    case Ring(r, s) => base + 1 + (r * segments + s)
    case Bottom => base + 1 + (n + 1) * segments
  }

  function Place(f: Face, segments: nat, n: nat): nat {
    match f
    case TopCap(s) => s
    case Lower(r, s) => segments + 2 * (r * segments + s)
    case Upper(r, s) => segments + 2 * (r * segments + s) + 1
    case BottomCap(s) => segments + 2 * (n * segments) + s
  }

  function TriangleOf(f: Face, base: nat, segments: nat, n: nat): Triangle
    requires IsFace(f, segments, n)
  {
    Triangle(Index(Corner(f, 0, segments, n), base, segments, n),
             Index(Corner(f, 1, segments, n), base, segments, n),
             Index(Corner(f, 2, segments, n), base, segments, n))
  }

  function VertexCount(segments: nat, n: nat): nat { 2 + (n + 1) * segments }

  function FaceCount(segments: nat, n: nat): nat { 2 * ((n + 1) * segments) }

  predicate IsVertex(v: Vertex, segments: nat, n: nat) { v.Ring? ==> v.r <= n && v.s < segments }

  lemma Row(r: nat, s: nat, rows: nat, segments: nat)
    requires r < rows && s < segments
    ensures r * segments + s < rows * segments
    ensures (r + 1) * segments == r * segments + segments <= rows * segments
  {
    assert rows * segments == (r + 1) * segments + (rows - r - 1) * segments;
  }

  lemma RowUnique(r: nat, s: nat, r': nat, s': nat, segments: nat)
    requires s < segments && s' < segments && r * segments + s == r' * segments + s'
    ensures r == r' && s == s'
  {
    if r < r' {
      Row(r, s, r', segments);
    } else if r' < r {
      Row(r', s', r, segments);
    }
  }

  /** Every index lies in the new range, and no two vertices share one. */
  lemma IndexRange(v: Vertex, base: nat, segments: nat, n: nat)
    requires IsVertex(v, segments, n)
    ensures base <= Index(v, base, segments, n) < base + VertexCount(segments, n)
  {
    if v.Ring? {
      Row(v.r, v.s, n + 1, segments);
    }
  }

  lemma IndexUnique(u: Vertex, v: Vertex, base: nat, segments: nat, n: nat)
    requires IsVertex(u, segments, n) && IsVertex(v, segments, n)
    requires Index(u, base, segments, n) == Index(v, base, segments, n)
    ensures u == v
  {
    if u.Ring? {
      Row(u.r, u.s, n + 1, segments);
    }
    if v.Ring? {
      Row(v.r, v.s, n + 1, segments);
    }
    if u.Ring? && v.Ring? {
      RowUnique(u.r, u.s, v.r, v.s, segments);
    }
  }

  lemma CornerIsVertex(f: Face, i: nat, segments: nat, n: nat)
    requires IsFace(f, segments, n) && i < 3
    ensures IsVertex(Corner(f, i, segments, n), segments, n)
  {
  }

  /** Every place in the list is that of some triangle. */
  lemma FaceAt(k: nat, segments: nat, n: nat) returns (f: Face)
    requires k < FaceCount(segments, n)
    ensures IsFace(f, segments, n) && Place(f, segments, n) == k
  {
    assert (n + 1) * segments == n * segments + segments;
    if k < segments {
      f := TopCap(k);
    } else if k >= segments + 2 * (n * segments) {
      f := BottomCap(k - segments - 2 * (n * segments));
    } else {
      var m := (k - segments) / 2;
      var r, s := RowOf(m, n, segments);
      f := if (k - segments) % 2 == 0 then Lower(r, s) else Upper(r, s);
    }
  }

  lemma {:induction false} RowOf(m: nat, rows: nat, segments: nat) returns (r: nat, s: nat)
    requires m < rows * segments
    ensures r < rows && s < segments && m == r * segments + s
  {
    if rows == 0 {
      r, s := 0, 0;
    } else if m >= (rows - 1) * segments {
      assert rows * segments == (rows - 1) * segments + segments;
      r, s := rows - 1, m - (rows - 1) * segments;
    } else {
      r, s := RowOf(m, rows - 1, segments);
    }
  }

  // ----- surfaces -----

  function EdgeFrom(t: Triangle, i: nat): nat
    requires i < 3
  {
    if i == 0 then t.a else if i == 1 then t.b else t.c
  }

  function EdgeTo(t: Triangle, i: nat): nat
    requires i < 3
  {
    EdgeFrom(t, After(i))
  }

  /** Edge `i` of `t` and edge `j` of `u` run between the same vertices, the same way or the other way round. */
  predicate SameEdge(t: Triangle, i: nat, u: Triangle, j: nat)
    requires i < 3 && j < 3
  {
    EdgeFrom(t, i) == EdgeFrom(u, j) && EdgeTo(t, i) == EdgeTo(u, j)
  }

  predicate OppositeEdge(t: Triangle, i: nat, u: Triangle, j: nat)
    requires i < 3 && j < 3
  {
    EdgeFrom(t, i) == EdgeTo(u, j) && EdgeTo(t, i) == EdgeFrom(u, j)
  }

  /**
   * A closed, consistently oriented surface: each directed edge occurs in one triangle only, and its reverse in
   * another one.
   */
  ghost predicate Closed(tris: seq<Triangle>) {
    && (forall k: nat, i: nat, l: nat, j: nat ::
          k < |tris| && l < |tris| && i < 3 && j < 3 && SameEdge(tris[k], i, tris[l], j) ==> k == l && i == j)
    && (forall k: nat, i: nat :: k < |tris| && i < 3 ==> HasOpposite(tris, k, i))
  }

  ghost predicate HasOpposite(tris: seq<Triangle>, k: nat, i: nat)
    requires k < |tris| && i < 3
  {
    exists l: nat, j: nat :: l < |tris| && j < 3 && OppositeEdge(tris[k], i, tris[l], j)
  }

  /** The triangles of the sphere, in their places. */
  ghost predicate IsSphere(tris: seq<Triangle>, base: nat, segments: nat, n: nat) {
    && |tris| == FaceCount(segments, n)
    && forall f :: IsFace(f, segments, n) ==>
      Place(f, segments, n) < |tris| && tris[Place(f, segments, n)] == TriangleOf(f, base, segments, n)
  }

  lemma EdgeIs(tris: seq<Triangle>, base: nat, segments: nat, n: nat, f: Face, i: nat)
    requires IsSphere(tris, base, segments, n) && IsFace(f, segments, n) && i < 3
    ensures Place(f, segments, n) < |tris|
    ensures var t := tris[Place(f, segments, n)];
      && EdgeFrom(t, i) == Index(From(f, i, segments, n), base, segments, n)
      && EdgeTo(t, i) == Index(To(f, i, segments, n), base, segments, n)
  {
    hide Corner, Index;
  }

  lemma SphereEdgeOnce(tris: seq<Triangle>, base: nat, segments: nat, n: nat, k: nat, i: nat, l: nat, j: nat)
    requires IsSphere(tris, base, segments, n) && segments >= 3
    requires k < |tris| && l < |tris| && i < 3 && j < 3 && SameEdge(tris[k], i, tris[l], j)
    ensures k == l && i == j
  {
    hide Corner, Index;
    var f := FaceAt(k, segments, n);
    var g := FaceAt(l, segments, n);
    EdgeIs(tris, base, segments, n, f, i);
    EdgeIs(tris, base, segments, n, g, j);
    CornerIsVertex(f, i, segments, n);
    CornerIsVertex(f, After(i), segments, n);
    CornerIsVertex(g, j, segments, n);
    CornerIsVertex(g, After(j), segments, n);
    IndexUnique(From(f, i, segments, n), From(g, j, segments, n), base, segments, n);
    IndexUnique(To(f, i, segments, n), To(g, j, segments, n), base, segments, n);
    EdgeOnce(f, i, g, j, segments, n);
  }

  lemma SphereHasOpposite(tris: seq<Triangle>, base: nat, segments: nat, n: nat, k: nat, i: nat)
    requires IsSphere(tris, base, segments, n) && k < |tris| && i < 3
    ensures HasOpposite(tris, k, i)
  {
    hide Corner, Index;
    var f := FaceAt(k, segments, n);
    var (g, j) := Opposite(f, i, segments, n);
    OppositeReverses(f, i, segments, n);
    EdgeIs(tris, base, segments, n, f, i);
    EdgeIs(tris, base, segments, n, g, j);
    assert OppositeEdge(tris[k], i, tris[Place(g, segments, n)], j);
  }

  /**
   * The triangles are closed and consistently oriented exactly when there are three segments or more, or none and no
   * triangle.
   */
  lemma SphereClosedIff(tris: seq<Triangle>, base: nat, segments: nat, n: nat)
    requires IsSphere(tris, base, segments, n)
    ensures Closed(tris) <==> segments == 0 || segments >= 3
    ensures tris == [] <==> segments == 0
  {
    hide Corner, Index, SameEdge;
    if segments >= 3 {
      forall k: nat, i: nat, l: nat, j: nat | k < |tris| && l < |tris| && i < 3 && j < 3 &&
        SameEdge(tris[k], i, tris[l], j)
        ensures k == l && i == j
      {
        SphereEdgeOnce(tris, base, segments, n, k, i, l, j);
      }
      forall k: nat, i: nat | k < |tris| && i < 3
        ensures HasOpposite(tris, k, i)
      {
        SphereHasOpposite(tris, base, segments, n, k, i);
      }
    } else if segments > 0 {
      TooFewSegments(tris, base, segments, n);
    }
    SomeFaces(segments, n);
  }

  lemma SomeFaces(segments: nat, n: nat)
    ensures FaceCount(segments, n) == 0 <==> segments == 0
  {
    if segments > 0 {
      assert (n + 1) * segments == n * segments + segments;
    }
  }

  /** With one or two segments an edge of the first ring is used twice in the same direction. */
  lemma TooFewSegments(tris: seq<Triangle>, base: nat, segments: nat, n: nat)
    requires IsSphere(tris, base, segments, n) && 1 <= segments <= 2
    ensures !Closed(tris)
  {
    var f := TopCap(segments - 1);
    var g := if n == 0 then BottomCap(0) else Upper(0, 0);
    EdgeIs(tris, base, segments, n, f, 1);
    EdgeIs(tris, base, segments, n, g, 2);
    assert SameEdge(tris[Place(f, segments, n)], 1, tris[Place(g, segments, n)], 2);
  }

  /** Every corner of every triangle is one of the new vertices. */
  lemma CornersInRange(tris: seq<Triangle>, base: nat, segments: nat, n: nat, k: nat, i: nat)
    requires IsSphere(tris, base, segments, n) && k < |tris| && i < 3
    ensures base <= EdgeFrom(tris[k], i) < base + VertexCount(segments, n)
  {
    hide Index;
    var f := FaceAt(k, segments, n);
    EdgeIs(tris, base, segments, n, f, i);
    CornerIsVertex(f, i, segments, n);
    IndexRange(Corner(f, i, segments, n), base, segments, n);
  }

  // ----- counting edges -----

  function Edge(t: Triangle, i: nat): (nat, nat)
    requires i < 3
  {
    (EdgeFrom(t, i), EdgeTo(t, i))
  }

  /** The edges of the triangles, each with its direction. */
  function Directed(tris: seq<Triangle>): set<(nat, nat)> {
    set k, i | 0 <= k < |tris| && 0 <= i < 3 :: Edge(tris[k], i)
  }

  function Undirect(e: (nat, nat)): (nat, nat) { if e.0 <= e.1 then e else (e.1, e.0) }

  /** The edges of the triangles, whichever way they run. */
  function Edges(tris: seq<Triangle>): set<(nat, nat)> {
    set e | e in Directed(tris) :: Undirect(e)
  }

  function Reversed(edges: set<(nat, nat)>): set<(nat, nat)> {
    set e | e in edges :: (e.1, e.0)
  }

  lemma {:induction false} ReversedSize(edges: set<(nat, nat)>)
    ensures |Reversed(edges)| == |edges|
  {
    if edges != {} {
      var e :| e in edges;
      ReversedSize(edges - {e});
      assert Reversed(edges) == Reversed(edges - {e}) + {(e.1, e.0)};
      assert (e.1, e.0) !in Reversed(edges - {e});
    }
  }

  /** No directed edge twice: as many as three for each triangle. */
  ghost predicate EdgesOnce(tris: seq<Triangle>) {
    forall k: nat, i: nat, l: nat, j: nat ::
      k < |tris| && l < |tris| && i < 3 && j < 3 && Edge(tris[k], i) == Edge(tris[l], j) ==> k == l && i == j
  }

  lemma {:induction false} DirectedSize(tris: seq<Triangle>)
    requires EdgesOnce(tris)
    ensures |Directed(tris)| == 3 * |tris|
  {
    hide Edge;
    if tris != [] {
      var last := |tris| - 1;
      DirectedSize(tris[..last]);
      var three := {Edge(tris[last], 0), Edge(tris[last], 1), Edge(tris[last], 2)};
      DirectedStep(tris);
      assert |three| == 3;
      assert Directed(tris[..last]) !! three;
    }
  }

  lemma DirectedStep(tris: seq<Triangle>)
    requires tris != []
    ensures var last := |tris| - 1;
      Directed(tris) == Directed(tris[..last]) + {Edge(tris[last], 0), Edge(tris[last], 1), Edge(tris[last], 2)}
  {
    hide Edge;
    var last := |tris| - 1;
    forall k: nat, i: nat | k < |tris| && i < 3
      ensures Edge(tris[k], i) in Directed(tris)
      ensures k < last ==> Edge(tris[k], i) in Directed(tris[..last])
    {
      if k < last {
        assert tris[..last][k] == tris[k];
      }
    }
  }

  /**
   * Edges that all occur in both directions, and never from a vertex to itself, are twice as many with their
   * directions.
   */
  lemma HalfOfDirected(tris: seq<Triangle>)
    requires forall e :: e in Directed(tris) ==> e.0 != e.1 && (e.1, e.0) in Directed(tris)
    ensures |Directed(tris)| == 2 * |Edges(tris)|
  {
    hide Directed;
    var all, up := Directed(tris), Edges(tris);
    forall e
      ensures e in up <==> e in all && e.0 < e.1
    {
      if e in all && e.0 < e.1 {
        assert Undirect(e) == e;
      }
    }
    var down := Reversed(up);
    assert up !! down;
    forall e | e in all
      ensures e in up + down
    {
      if e.1 < e.0 {
        assert (e.1, e.0) in up;
      }
    }
    assert all == up + down;
    ReversedSize(up);
  }

  /** On a sphere no edge runs from a vertex to itself, and each occurs in both directions. */
  lemma SphereEdges(tris: seq<Triangle>, base: nat, segments: nat, n: nat)
    requires IsSphere(tris, base, segments, n) && segments >= 3
    ensures EdgesOnce(tris)
    ensures forall e :: e in Directed(tris) ==> e.0 != e.1 && (e.1, e.0) in Directed(tris)
  {
    hide Corner, Index, IsSphere;
    forall k: nat, i: nat, l: nat, j: nat | k < |tris| && l < |tris| && i < 3 && j < 3 &&
      Edge(tris[k], i) == Edge(tris[l], j)
      ensures k == l && i == j
    {
      SphereEdgeOnce(tris, base, segments, n, k, i, l, j);
    }
    forall e | e in Directed(tris)
      ensures e.0 != e.1 && (e.1, e.0) in Directed(tris)
    {
      var k: nat, i: nat :| k < |tris| && i < 3 && e == Edge(tris[k], i);
      NoLoop(tris, base, segments, n, k, i);
      SphereHasOpposite(tris, base, segments, n, k, i);
      var l: nat, j: nat :| l < |tris| && j < 3 && OppositeEdge(tris[k], i, tris[l], j);
      assert Edge(tris[l], j) == (e.1, e.0);
    }
  }

  lemma NoLoop(tris: seq<Triangle>, base: nat, segments: nat, n: nat, k: nat, i: nat)
    requires IsSphere(tris, base, segments, n) && segments >= 2 && k < |tris| && i < 3
    ensures EdgeFrom(tris[k], i) != EdgeTo(tris[k], i)
  {
    hide Index;
    var f := FaceAt(k, segments, n);
    EdgeIs(tris, base, segments, n, f, i);
    CornerIsVertex(f, i, segments, n);
    CornerIsVertex(f, After(i), segments, n);
    if EdgeFrom(tris[k], i) == EdgeTo(tris[k], i) {
      IndexUnique(From(f, i, segments, n), To(f, i, segments, n), base, segments, n);
      NextDiffers(f, i, segments, n);
    }
  }

  lemma NextDiffers(f: Face, i: nat, segments: nat, n: nat)
    requires IsFace(f, segments, n) && segments >= 2 && i < 3
    ensures From(f, i, segments, n) != To(f, i, segments, n)
  {
  }

  /** The edges counted, each once: vertices minus edges plus triangles is two. */
  lemma Euler(tris: seq<Triangle>, base: nat, segments: nat, n: nat)
    requires IsSphere(tris, base, segments, n) && segments >= 3
    ensures 2 * |Edges(tris)| == 3 * |tris|
    ensures VertexCount(segments, n) - |Edges(tris)| + |tris| == 2
  {
    SphereEdges(tris, base, segments, n);
    hide Directed, Edges;
    DirectedSize(tris);
    HalfOfDirected(tris);
  }

  // ----- the order in which vertices and triangles are made -----

  function RingRow(r: nat, upto: nat): (row: seq<Vertex>)
    ensures |row| == upto
  {
    seq(upto, s requires 0 <= s < upto => Ring(r, s))
  }

  function RingRows(rows: nat, segments: nat): (vs: seq<Vertex>)
    ensures |vs| == rows * segments
  {
    if rows == 0 then []
    else
      assert rows * segments == (rows - 1) * segments + segments;
      RingRows(rows - 1, segments) + RingRow(rows - 1, segments)
  }

  /** Rings of vertices between the poles. */
  function Rows(rings: nat): nat { if rings == 0 then 0 else rings - 1 }

  function VertexList(segments: nat, n: nat): seq<Vertex> {
    [Top] + RingRows(n + 1, segments) + [Bottom]
  }

  function Caps(top: bool, upto: nat): (fs: seq<Face>)
    ensures |fs| == upto
  {
    seq(upto, s requires 0 <= s < upto => if top then TopCap(s) else BottomCap(s))
  }

  function Band(r: nat, upto: nat): (fs: seq<Face>)
    ensures |fs| == 2 * upto
  {
    if upto == 0 then [] else Band(r, upto - 1) + [Lower(r, upto - 1), Upper(r, upto - 1)]
  }

  function Bands(rows: nat, segments: nat): (fs: seq<Face>)
    ensures |fs| == 2 * (rows * segments)
  {
    if rows == 0 then []
    else
      assert rows * segments == (rows - 1) * segments + segments;
      Bands(rows - 1, segments) + Band(rows - 1, segments)
  }

  function FaceList(segments: nat, n: nat): seq<Face> {
    Caps(true, segments) + Bands(n, segments) + Caps(false, segments)
  }

  lemma {:induction false} RowsAt(rows: nat, segments: nat, r: nat, s: nat)
    requires r < rows && s < segments
    ensures r * segments + s < rows * segments && RingRows(rows, segments)[r * segments + s] == Ring(r, s)
  {
    Row(r, s, rows, segments);
    if r < rows - 1 {
      RowsAt(rows - 1, segments, r, s);
    }
  }

  lemma {:induction false} BandAt(r: nat, upto: nat, s: nat)
    requires s < upto
    ensures Band(r, upto)[2 * s] == Lower(r, s) && Band(r, upto)[2 * s + 1] == Upper(r, s)
  {
    if s < upto - 1 {
      BandAt(r, upto - 1, s);
    }
  }

  lemma {:induction false} BandsAt(rows: nat, segments: nat, r: nat, s: nat)
    requires r < rows && s < segments
    ensures var k := 2 * (r * segments + s);
      k + 1 < |Bands(rows, segments)| && Bands(rows, segments)[k] == Lower(r, s) &&
        Bands(rows, segments)[k + 1] == Upper(r, s)
  {
    Row(r, s, rows, segments);
    if r < rows - 1 {
      BandsAt(rows - 1, segments, r, s);
    } else {
      BandAt(r, segments, s);
    }
  }

  /** The vertex with a given index is where the index says. */
  lemma VertexInPlace(v: Vertex, base: nat, segments: nat, n: nat)
    requires IsVertex(v, segments, n)
    ensures |VertexList(segments, n)| == VertexCount(segments, n)
    ensures var i := Index(v, base, segments, n) - base;
      0 <= i < |VertexList(segments, n)| && VertexList(segments, n)[i] == v
  {
    if v.Ring? {
      RowsAt(n + 1, segments, v.r, v.s);
    }
  }

  lemma MiddleAt<T>(a: seq<T>, b: seq<T>, c: seq<T>, i: nat)
    requires i < |b|
    ensures (a + b + c)[|a| + i] == b[i]
  {
  }

  lemma FaceInPlace(f: Face, segments: nat, n: nat)
    requires IsFace(f, segments, n)
    ensures Place(f, segments, n) < |FaceList(segments, n)| && FaceList(segments, n)[Place(f, segments, n)] == f
  {
    hide Bands;
    match f
    case TopCap(_) =>
    case BottomCap(_) =>
    case Lower(r, s) =>
      BandsAt(n, segments, r, s);
      MiddleAt(Caps(true, segments), Bands(n, segments), Caps(false, segments), 2 * (r * segments + s));
    case Upper(r, s) =>
      BandsAt(n, segments, r, s);
      MiddleAt(Caps(true, segments), Bands(n, segments), Caps(false, segments), 2 * (r * segments + s) + 1);
  }

  /** The faces of the list are faces of the sphere. */
  lemma FaceListLength(segments: nat, n: nat)
    ensures |FaceList(segments, n)| == FaceCount(segments, n)
    ensures forall k :: 0 <= k < |FaceList(segments, n)| ==> IsFace(FaceList(segments, n)[k], segments, n)
  {
    assert (n + 1) * segments == n * segments + segments;
    forall k | 0 <= k < |FaceList(segments, n)|
      ensures IsFace(FaceList(segments, n)[k], segments, n)
    {
      var f := FaceAt(k, segments, n);
      FaceInPlace(f, segments, n);
    }
  }

  /** The triangles of faces of the sphere. */
  function Triangles(fs: seq<Face>, base: nat, segments: nat, n: nat): (ts: seq<Triangle>)
    requires forall k :: 0 <= k < |fs| ==> IsFace(fs[k], segments, n)
    ensures |ts| == |fs|
  {
    seq(|fs|, k requires 0 <= k < |fs| => TriangleOf(fs[k], base, segments, n))
  }

  lemma ListIsSphere(tris: seq<Triangle>, base: nat, segments: nat, n: nat)
    requires forall k :: 0 <= k < |FaceList(segments, n)| ==> IsFace(FaceList(segments, n)[k], segments, n)
    requires tris == Triangles(FaceList(segments, n), base, segments, n)
    ensures IsSphere(tris, base, segments, n)
  {
    hide Corner, Index, Place, FaceList;
    FaceListLength(segments, n);
    forall f | IsFace(f, segments, n)
      ensures Place(f, segments, n) < |tris| && tris[Place(f, segments, n)] == TriangleOf(f, base, segments, n)
    {
      FaceInPlace(f, segments, n);
    }
  }

  // ----- gfx3d_create_sphere -----

  lemma NoBands(segments: nat)
    ensures Bands(0, segments) == [] && Caps(true, segments) + Bands(0, segments) == [] + Caps(true, segments)
  {
  }

  lemma BandsGrow(segments: nat, r: nat)
    ensures Bands(r + 1, segments) == Bands(r, segments) + Band(r, segments)
  {
  }

  /** There is room for another band while there are bands left, and for the last cap behind them. */
  lemma RoomForFaces(segments: nat, n: nat, r: nat)
    requires r <= n
    ensures 2 * segments <= FaceCount(segments, n)
    ensures segments + |Bands(r, segments)| + segments <= FaceCount(segments, n)
    ensures r < n ==> segments + |Bands(r, segments)| + 2 * segments <= FaceCount(segments, n)
  {
    hide Bands;
    assert (n + 1) * segments == n * segments + segments;
    RowFits(r, n, segments);
    if r < n {
      RowFits(r + 1, n, segments);
    }
  }

  /** The vertex and triangle buffers. A vertex is recorded as the point of the sphere it is computed for. */
  class Buffers {
    const vertices: array<Vertex>
    const triangles: array<Triangle>
    var numVertices: nat
    var numTriangles: nat

    ghost predicate Valid()
      reads this
    {
      numVertices <= vertices.Length && numTriangles <= triangles.Length
    }

    constructor (maxVertices: nat, maxTriangles: nat)
      ensures Valid() && fresh(vertices) && fresh(triangles) && numVertices == numTriangles == 0
      ensures vertices.Length == maxVertices && triangles.Length == maxTriangles
    {
      vertices := new Vertex[maxVertices](_ => Top);
      triangles := new Triangle[maxTriangles](_ => Triangle(0, 0, 0));
      numVertices, numTriangles := 0, 0;
    }

    method AddVertex(v: Vertex)
      requires Valid() && numVertices < vertices.Length
      modifies this`numVertices, vertices
      ensures Valid() && numVertices == old(numVertices) + 1
      ensures vertices[..numVertices] == old(vertices[..numVertices]) + [v]
    {
      vertices[numVertices] := v;
      numVertices := numVertices + 1;
    }

    /** Stores the triangle with the given indices, which is that of `f`, behind those of `fs`. */
    method AddTriangle(a: nat, b: nat, c: nat, ghost start: nat, ghost fs: seq<Face>, ghost f: Face,
                       ghost base: nat, ghost segments: nat, ghost n: nat)
      requires Holds(start, fs, base, segments, n) && numTriangles < triangles.Length
      requires IsFace(f, segments, n) && Triangle(a, b, c) == TriangleOf(f, base, segments, n)
      modifies this`numTriangles, triangles
      ensures Holds(start, fs + [f], base, segments, n)
      ensures start <= numTriangles == old(numTriangles) + 1 && triangles[..start] == old(triangles[..start])
    {
      hide TriangleOf, IsFace;
      triangles[numTriangles] := Triangle(a, b, c);
      numTriangles := numTriangles + 1;
      assert triangles[start..numTriangles - 1] == old(triangles[start..numTriangles]);
      assert triangles[start..numTriangles] == triangles[start..numTriangles - 1] + [Triangle(a, b, c)];
    }

    /** Appends the sphere behind what the buffers hold. */
    method CreateSphere(segments: nat, rings: nat)
      requires Valid() && rings >= 2
      requires numVertices + VertexCount(segments, rings - 2) <= vertices.Length
      requires numTriangles + FaceCount(segments, rings - 2) <= triangles.Length
      modifies this`numVertices, this`numTriangles, vertices, triangles
      ensures Valid()
      ensures vertices[..numVertices] == old(vertices[..numVertices]) + VertexList(segments, rings - 2)
      ensures triangles[..old(numTriangles)] == old(triangles[..numTriangles])
      ensures old(numTriangles) <= numTriangles
      ensures IsSphere(triangles[old(numTriangles)..numTriangles], old(numVertices), segments, rings - 2)
    {
      hide IsSphere, FaceCount;
      var base := numVertices;
      CreateVertices(segments, rings);
      VertexInPlace(Bottom, base, segments, rings - 2);
      CreateTriangles(segments, rings, base, numVertices - 1);
    }

    method CreateTriangles(segments: nat, rings: nat, top: nat, bottom: nat)
      requires Valid() && rings >= 2 && bottom == Index(Bottom, top, segments, rings - 2)
      requires numTriangles + FaceCount(segments, rings - 2) <= triangles.Length
      modifies this`numTriangles, triangles
      ensures Valid() && triangles[..old(numTriangles)] == old(triangles[..numTriangles])
      ensures old(numTriangles) <= numTriangles
      ensures IsSphere(triangles[old(numTriangles)..numTriangles], top, segments, rings - 2)
    {
      hide IsSphere, TriangleOf, Bands, Band, Caps, Index, IsFace, FaceCount;
      ghost var n, start, before := rings - 2, numTriangles, triangles[..numTriangles];
      RoomForFaces(segments, n, 0);
      var firstRing := top + 1;
      NothingHeld(start, top, segments, n);
      AddCaps(true, segments, top, firstRing, start, [], top, n);
      NoBands(segments);
      var r := 0;
      while r < rings - 2
        invariant 0 <= r <= n && Holds(start, Caps(true, segments) + Bands(r, segments), top, segments, n)
        invariant numTriangles == start + segments + |Bands(r, segments)|
        invariant start <= numTriangles && triangles[..start] == before
      {
        RoomForFaces(segments, n, r);
        AddBand(segments, firstRing + r * segments, start, Caps(true, segments) + Bands(r, segments), top, n, r);
        BandsGrow(segments, r);
        assert Caps(true, segments) + Bands(r + 1, segments) ==
          Caps(true, segments) + Bands(r, segments) + Band(r, segments);
        r := r + 1;
      }
      RoomForFaces(segments, n, n);
      AddCaps(false, segments, bottom, firstRing + (rings - 2) * segments, start,
        Caps(true, segments) + Bands(n, segments), top, n);
      ListHeld(start, top, segments, n);
    }

    lemma NothingHeld(start: nat, base: nat, segments: nat, n: nat)
      requires Valid() && start == numTriangles
      ensures Holds(start, [], base, segments, n)
    {
    }

    lemma ListHeld(start: nat, base: nat, segments: nat, n: nat)
      requires Holds(start, FaceList(segments, n), base, segments, n)
      ensures IsSphere(triangles[start..numTriangles], base, segments, n)
    {
      ListIsSphere(triangles[start..numTriangles], base, segments, n);
    }

    /** One of the caps: triangles between a pole and the ring that starts at `ring`. */
    method AddCaps(top: bool, segments: nat, pole: nat, ring: nat, ghost start: nat, ghost fs: seq<Face>,
                   ghost base: nat, ghost n: nat)
      requires Holds(start, fs, base, segments, n) && numTriangles + segments <= triangles.Length
      requires if top then pole == base && ring == base + 1
               else pole == Index(Bottom, base, segments, n) && ring == base + 1 + n * segments
      modifies this`numTriangles, triangles
      ensures Holds(start, fs + Caps(top, segments), base, segments, n) && triangles[..start] == old(triangles[..start])
    {
      hide TriangleOf, Index, Holds;
      assert fs + Caps(top, 0) == fs;
      var s := 0;
      while s < segments
        invariant 0 <= s <= segments && numTriangles == old(numTriangles) + s
        invariant Holds(start, fs + Caps(top, s), base, segments, n) && triangles[..start] == old(triangles[..start])
      {
        var next := NextSegment(s, segments);
        if top {
          FirstRing(s, base, segments, n);
          AddTriangle(pole, ring + s, ring + next, start, fs + Caps(top, s), TopCap(s), base, segments, n);
        } else {
          LastRing(s, base, segments, n);
          AddTriangle(ring + s, pole, ring + next, start, fs + Caps(top, s), BottomCap(s), base, segments, n);
        }
        assert fs + Caps(top, s + 1) == fs + Caps(top, s) + [if top then TopCap(s) else BottomCap(s)];
        s := s + 1;
      }
    }

    /** The triangles between ring `r`, which starts at `ringStart`, and the next. */
    method AddBand(segments: nat, ringStart: nat, ghost start: nat, ghost fs: seq<Face>, ghost base: nat, ghost n: nat,
                   ghost r: nat)
      requires Holds(start, fs, base, segments, n) && numTriangles + 2 * segments <= triangles.Length
      requires r < n && ringStart == base + 1 + r * segments
      modifies this`numTriangles, triangles
      ensures Holds(start, fs + Band(r, segments), base, segments, n) && triangles[..start] == old(triangles[..start])
    {
      hide TriangleOf, Index, Holds;
      assert fs + Band(r, 0) == fs;
      var nextRing := ringStart + segments;
      var s := 0;
      while s < segments
        invariant 0 <= s <= segments && numTriangles == old(numTriangles) + 2 * s
        invariant Holds(start, fs + Band(r, s), base, segments, n) && triangles[..start] == old(triangles[..start])
      {
        var next := NextSegment(s, segments);
        MiddleRing(r, s, base, segments, n);
        AddTriangle(ringStart + s, nextRing + s, nextRing + next, start, fs + Band(r, s), Lower(r, s), base, segments,
          n);
        AddTriangle(ringStart + s, nextRing + next, ringStart + next,
                    start, fs + Band(r, s) + [Lower(r, s)], Upper(r, s), base, segments, n);
        assert fs + Band(r, s + 1) == fs + Band(r, s) + [Lower(r, s)] + [Upper(r, s)];
        s := s + 1;
      }
    }

    /** The buffer holds the triangles of `fs` from `start` on. */
    ghost predicate Holds(start: nat, fs: seq<Face>, base: nat, segments: nat, n: nat): (holds: bool)
      reads this, triangles
      ensures holds ==> start <= numTriangles <= triangles.Length
    {
      && Valid() && numTriangles == start + |fs|
      && (forall k :: 0 <= k < |fs| ==> IsFace(fs[k], segments, n))
      && triangles[start..numTriangles] == Triangles(fs, base, segments, n)
    }

    method CreateVertices(segments: nat, rings: nat)
      requires Valid() && numVertices + 2 + Rows(rings) * segments <= vertices.Length
      modifies this`numVertices, vertices
      ensures Valid()
      ensures vertices[..numVertices] ==
        old(vertices[..numVertices]) + ([Top] + RingRows(Rows(rings), segments) + [Bottom])
    {
      hide RingRows, RingRow;
      ghost var before := vertices[..numVertices];
      AddVertex(Top);
      NoRows(segments);
      var r := 1;
      while r < rings
        invariant 1 <= r && r - 1 <= Rows(rings) && Valid()
        invariant vertices[..numVertices] == before + [Top] + RingRows(r - 1, segments)
      {
        RowFits(r, Rows(rings), segments);
        NoVertices(r - 1);
        var s := 0;
        while s < segments
          invariant 0 <= s <= segments && Valid()
          invariant vertices[..numVertices] == before + [Top] + RingRows(r - 1, segments) + RingRow(r - 1, s)
        {
          AddVertex(Ring(r - 1, s));
          NextVertex(r - 1, s);
          s := s + 1;
        }
        NextRow(r - 1, segments);
        r := r + 1;
      }
      AddVertex(Bottom);
    }
  }

  lemma NoRows(segments: nat)
    ensures RingRows(0, segments) == []
  {
  }

  lemma NoVertices(r: nat)
    ensures RingRow(r, 0) == []
  {
  }

  lemma NextVertex(r: nat, upto: nat)
    ensures RingRow(r, upto + 1) == RingRow(r, upto) + [Ring(r, upto)]
  {
  }

  lemma NextRow(rows: nat, segments: nat)
    ensures RingRows(rows + 1, segments) == RingRows(rows, segments) + RingRow(rows, segments)
  {
  }

  lemma FirstRing(s: nat, base: nat, segments: nat, n: nat)
    requires s < segments
    ensures TriangleOf(TopCap(s), base, segments, n) ==
      Triangle(base, base + 1 + s, base + 1 + NextSegment(s, segments))
  {
  }

  lemma MiddleRing(r: nat, s: nat, base: nat, segments: nat, n: nat)
    requires s < segments && r < n
    ensures var a, next := base + 1 + r * segments, NextSegment(s, segments);
      && TriangleOf(Lower(r, s), base, segments, n) == Triangle(a + s, a + segments + s, a + segments + next)
      && TriangleOf(Upper(r, s), base, segments, n) == Triangle(a + s, a + segments + next, a + next)
  {
    assert (r + 1) * segments == r * segments + segments;
  }

  lemma LastRing(s: nat, base: nat, segments: nat, n: nat)
    requires s < segments
    ensures var a, next := base + 1 + n * segments, NextSegment(s, segments);
      TriangleOf(BottomCap(s), base, segments, n) == Triangle(a + s, Index(Bottom, base, segments, n), a + next)
  {
  }

  lemma RowFits(rows: nat, all: nat, segments: nat)
    requires rows <= all
    ensures rows * segments <= all * segments
    ensures rows > 0 ==> rows * segments == (rows - 1) * segments + segments
  {
    assert all * segments == rows * segments + (all - rows) * segments;
  }
}
