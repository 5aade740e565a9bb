/** The value-level meaning of the layout half of EdgeBundlingComponent
    (src/app/edge-bundling/component.ts): which edges patchNodeEdge appends,
    what score renderNode gives a node, which edges renderEdge can draw.
    The component's methods are proved against these functions, and the
    properties of the diagram are proved about them here. */
module Layout {
  import opened Wrappers
  import opened Types
  import opened Util

  // ---------------------------------------------------------------------
  // patchNodeEdge
  // ---------------------------------------------------------------------

  /** `edges.map((i) => ({ ...i, isBgLine: false }))`. */
  function AsReal(edges: seq<Edge>): (r: seq<Edge>)
    ensures |r| == |edges|
    ensures forall k :: 0 <= k < |r| ==> r[k] == edges[k].(isBgLine := false)
  {
    seq(|edges|, k requires 0 <= k < |edges| => edges[k].(isBgLine := false))
  }

  /** `raw.some((i) => i.source === a && i.target === b)`: a directed check. */
  predicate HasDirected(raw: seq<Edge>, a: string, b: string) {
    exists k :: 0 <= k < |raw| && raw[k].source == a && raw[k].target == b
  }

  /** `all.filter((node) => node !== a)`: by object identity, not by id. */
  function Others(all: seq<Node>, a: Node): seq<Node>
    decreases |all|
  {
    if all == [] then []
    else Others(all[..|all| - 1], a) + (if all[|all| - 1] != a then [all[|all| - 1]] else [])
  }

  lemma {:induction false} OthersMembers(all: seq<Node>, a: Node, b: Node)
    ensures b in Others(all, a) <==> b in all && b != a
    decreases |all|
  {
    if all != [] {
      var p := all[..|all| - 1];
      OthersMembers(p, a, b);
      assert b in all <==> b in p || b == all[|all| - 1];
    }
  }

  /** The inner forEach: a background edge from `a` to each of `bs` that the
      pre-patch copy has no directed edge for, in the order of `bs`. */
  function BgFor(raw: seq<Edge>, a: Node, bs: seq<Node>): seq<Edge>
    decreases |bs|
  {
    if bs == [] then []
    else
      var b := bs[|bs| - 1];
      BgFor(raw, a, bs[..|bs| - 1]) +
      (if !HasDirected(raw, a.id, b.id) then [Edge(a.id, b.id, true)] else [])
  }

  /** The outer forEach over `outer`, each node paired with the other nodes
      of `all`: nodeA-major, nodeB-minor. */
  function Background(raw: seq<Edge>, outer: seq<Node>, all: seq<Node>): seq<Edge>
    decreases |outer|
  {
    if outer == [] then []
    else
      var a := outer[|outer| - 1];
      Background(raw, outer[..|outer| - 1], all) + BgFor(raw, a, Others(all, a))
  }

  /** What patchNodeEdge returns: the input edges made real, then the
      background edges, checked against the real copy before any append. */
  function Patched(edges: seq<Edge>, nodes: seq<Node>): seq<Edge> {
    AsReal(edges) + Background(AsReal(edges), nodes, nodes)
  }

  /** One step of the inner forEach, for a loop over indices of `bs`. */
  lemma BgForStep(raw: seq<Edge>, a: Node, bs: seq<Node>, i: nat)
    requires i < |bs|
    ensures BgFor(raw, a, bs[..i + 1]) ==
      BgFor(raw, a, bs[..i]) + (if !HasDirected(raw, a.id, bs[i].id) then [Edge(a.id, bs[i].id, true)] else [])
  {
    assert bs[..i + 1][..i] == bs[..i];
  }

  /** One step of the outer forEach, for a loop over indices of `outer`. */
  lemma BackgroundStep(raw: seq<Edge>, outer: seq<Node>, i: nat, all: seq<Node>)
    requires i < |outer|
    ensures Background(raw, outer[..i + 1], all) ==
      Background(raw, outer[..i], all) + BgFor(raw, outer[i], Others(all, outer[i]))
  {
    assert outer[..i + 1][..i] == outer[..i];
  }

  /** Regrouping an append, kept out of line so that the patch loop's proof
      stays small. */
  lemma AppendAssoc(a: seq<Edge>, b: seq<Edge>, c: seq<Edge>)
    ensures (a + b) + c == a + (b + c)
  {
  }

  lemma {:induction false} BgForMembers(raw: seq<Edge>, a: Node, bs: seq<Node>, e: Edge)
    ensures e in BgFor(raw, a, bs) <==>
      exists b :: b in bs && e == Edge(a.id, b.id, true) && !HasDirected(raw, a.id, b.id)
    decreases |bs|
  {
    if bs != [] {
      var p := bs[..|bs| - 1];
      BgForMembers(raw, a, p, e);
      assert forall b :: b in bs <==> b in p || b == bs[|bs| - 1];
    }
  }

  lemma {:induction false} BackgroundSound(raw: seq<Edge>, outer: seq<Node>, all: seq<Node>, e: Edge)
    requires e in Background(raw, outer, all)
    ensures exists a, b ::
      a in outer && b in all && a != b && e == Edge(a.id, b.id, true) && !HasDirected(raw, a.id, b.id)
    decreases |outer|
  {
    var p, a := outer[..|outer| - 1], outer[|outer| - 1];
    assert Background(raw, outer, all) == Background(raw, p, all) + BgFor(raw, a, Others(all, a));
    if e in Background(raw, p, all) {
      BackgroundSound(raw, p, all, e);
      var x, y :| x in p && y in all && x != y && e == Edge(x.id, y.id, true) && !HasDirected(raw, x.id, y.id);
      assert x in outer;
    } else {
      BgForMembers(raw, a, Others(all, a), e);
      var y :| y in Others(all, a) && e == Edge(a.id, y.id, true) && !HasDirected(raw, a.id, y.id);
      OthersMembers(all, a, y);
      assert a in outer;
    }
  }

  lemma {:induction false} BackgroundComplete(raw: seq<Edge>, outer: seq<Node>, all: seq<Node>, x: Node, y: Node)
    requires x in outer && y in all && x != y && !HasDirected(raw, x.id, y.id)
    ensures Edge(x.id, y.id, true) in Background(raw, outer, all)
    decreases |outer|
  {
    var p, a := outer[..|outer| - 1], outer[|outer| - 1];
    assert Background(raw, outer, all) == Background(raw, p, all) + BgFor(raw, a, Others(all, a));
    if x == a {
      OthersMembers(all, a, y);
      BgForMembers(raw, a, Others(all, a), Edge(x.id, y.id, true));
    } else {
      assert x in p;
      BackgroundComplete(raw, p, all, x, y);
    }
  }

  lemma BackgroundMembers(raw: seq<Edge>, outer: seq<Node>, all: seq<Node>, e: Edge)
    ensures e in Background(raw, outer, all) <==>
      exists a, b :: a in outer && b in all && a != b &&
        e == Edge(a.id, b.id, true) && !HasDirected(raw, a.id, b.id)
  {
    if e in Background(raw, outer, all) {
      BackgroundSound(raw, outer, all, e);
    }
    if exists a, b :: a in outer && b in all && a != b && e == Edge(a.id, b.id, true) && !HasDirected(raw, a.id, b.id) {
      var a, b :| a in outer && b in all && a != b && e == Edge(a.id, b.id, true) && !HasDirected(raw, a.id, b.id);
      BackgroundComplete(raw, outer, all, a, b);
    }
  }

  /** patchNodeEdge keeps the input edges first, in order, with their
      endpoints and `isBgLine = false`; every edge it appends is a background
      edge `A.id -> B.id` for distinct node objects A and B whose directed
      edge the input lacks, and each such pair is appended. */
  lemma PatchedShape(edges: seq<Edge>, nodes: seq<Node>)
    ensures var r := Patched(edges, nodes);
      && |r| >= |edges|
      && (forall k :: 0 <= k < |edges| ==>
            r[k].source == edges[k].source && r[k].target == edges[k].target && !r[k].isBgLine)
      && (forall k :: |edges| <= k < |r| ==> r[k].isBgLine)
      && (forall e :: e in r[|edges|..] <==>
            exists a, b :: a in nodes && b in nodes && a != b &&
              e == Edge(a.id, b.id, true) && !HasDirected(edges, a.id, b.id))
  {
    var raw := AsReal(edges);
    var r := Patched(edges, nodes);
    assert r[|edges|..] == Background(raw, nodes, nodes);
    forall a, b ensures HasDirected(raw, a, b) <==> HasDirected(edges, a, b) {
      if HasDirected(edges, a, b) {
        var k :| 0 <= k < |edges| && edges[k].source == a && edges[k].target == b;
        assert raw[k].source == a && raw[k].target == b;
      }
    }
    forall e | true
      ensures e in r[|edges|..] <==>
        exists a, b :: a in nodes && b in nodes && a != b &&
          e == Edge(a.id, b.id, true) && !HasDirected(edges, a.id, b.id)
    {
      BackgroundMembers(raw, nodes, nodes, e);
    }
    forall k | |edges| <= k < |r| ensures r[k].isBgLine {
      assert r[k] in r[|edges|..];
    }
  }

  /** After patchNodeEdge every ordered pair of distinct node objects has a
      directed edge. */
  lemma PatchedIsFullMesh(edges: seq<Edge>, nodes: seq<Node>, a: Node, b: Node)
    requires a in nodes && b in nodes && a != b
    ensures HasDirected(Patched(edges, nodes), a.id, b.id)
  {
    var r := Patched(edges, nodes);
    PatchedShape(edges, nodes);
    if HasDirected(edges, a.id, b.id) {
      var k :| 0 <= k < |edges| && edges[k].source == a.id && edges[k].target == b.id;
      assert r[k].source == a.id && r[k].target == b.id;
    } else {
      var e := Edge(a.id, b.id, true);
      assert e in r[|edges|..];
      var k :| 0 <= k < |r| - |edges| && r[|edges|..][k] == e;
      assert r[|edges| + k] == e;
    }
  }

  /** patchNodeEdge applied to its own output appends nothing and makes
      every edge real: a second ngOnChanges on the same model object turns
      the whole background mesh into real edges. */
  lemma RepatchMakesAllReal(edges: seq<Edge>, nodes: seq<Node>)
    ensures |Patched(Patched(edges, nodes), nodes)| == |Patched(edges, nodes)|
    ensures forall k :: 0 <= k < |Patched(Patched(edges, nodes), nodes)| ==>
      !Patched(Patched(edges, nodes), nodes)[k].isBgLine
  {
    var p := Patched(edges, nodes);
    var r := Patched(p, nodes);
    PatchedShape(p, nodes);
    if |r| > |p| {
      var e := r[|p|];
      assert e == r[|p|..][0];
      assert e in r[|p|..];
      var a, b :| a in nodes && b in nodes && a != b &&
        e == Edge(a.id, b.id, true) && !HasDirected(p, a.id, b.id);
      PatchedIsFullMesh(edges, nodes, a, b);
      assert false;
    }
  }

  /** The pair of two distinct nodes is joined in the normalised list. */
  lemma NormalisedCovers(edges: seq<Edge>, nodes: seq<Node>, a: Node, b: Node)
    requires a in nodes && b in nodes && a.id != b.id
    ensures HasPair(RemoveRedundantEdge(Patched(edges, nodes)), Edge(a.id, b.id, false))
  {
    var s := Patched(edges, nodes);
    var pair := Edge(a.id, b.id, false);
    PatchedIsFullMesh(edges, nodes, a, b);
    var i :| 0 <= i < |s| && s[i].source == a.id && s[i].target == b.id;
    SamePairEquivalence(s[i], pair, pair);
    RemoveRedundantEdgeKeepsPairs(s, pair);
  }

  /** At most one edge of a deduplicated list joins a given pair. */
  lemma PairJoinedOnce(d: seq<Edge>, pair: Edge, k: int, l: int)
    requires PairsUnique(d)
    requires 0 <= k < |d| && 0 <= l < |d| && SamePair(d[k], pair) && SamePair(d[l], pair)
    ensures k == l
  {
    SamePairEquivalence(d[k], pair, d[l]);
    SamePairEquivalence(pair, d[l], pair);
  }

  /** When the input joins the pair, the normalised list's edge for it is the
      input's first edge for the pair, made real. */
  lemma NormalisedKeepsFirst(edges: seq<Edge>, nodes: seq<Node>, pair: Edge, k: int)
    requires HasPair(edges, pair)
    requires 0 <= k < |RemoveRedundantEdge(Patched(edges, nodes))|
    requires SamePair(RemoveRedundantEdge(Patched(edges, nodes))[k], pair)
    ensures exists m ::
      && 0 <= m < |edges| && IsFirst(edges, m) && SamePair(edges[m], pair)
      && RemoveRedundantEdge(Patched(edges, nodes))[k] == edges[m].(isBgLine := false)
  {
    var s := Patched(edges, nodes);
    var d := RemoveRedundantEdge(s);
    RemoveRedundantEdgeIsFirstOccurrences(s);
    var ix := FirstIndices(s);
    var m := ix[k];
    assert ix[k] in ix;
    assert d[k] == s[m] && IsFirst(s, m);
    var j :| 0 <= j < |edges| && SamePair(edges[j], pair);
    assert SamePair(s[j], edges[j]);
    SamePairEquivalence(s[j], edges[j], pair);
    SamePairEquivalence(s[m], pair, pair);
    SamePairEquivalence(s[j], pair, s[m]);
    assert m <= j;
    assert forall x :: 0 <= x < m ==> s[x] == edges[x].(isBgLine := false);
    assert IsFirst(edges, m);
    SamePairEquivalence(s[m], edges[m], pair);
  }

  /** getEdges' normalised list, removeRedundantEdge of the patched edges,
      holds exactly one edge for each unordered pair of distinct node ids;
      when the input joins that pair, the edge kept is the first such input
      edge, made real. */
  lemma NormalisedIsMesh(edges: seq<Edge>, nodes: seq<Node>, a: Node, b: Node)
    requires a in nodes && b in nodes && a.id != b.id
    ensures HasPair(RemoveRedundantEdge(Patched(edges, nodes)), Edge(a.id, b.id, false))
    ensures var d, pair := RemoveRedundantEdge(Patched(edges, nodes)), Edge(a.id, b.id, false);
      && (forall k, l :: 0 <= k < |d| && 0 <= l < |d| && SamePair(d[k], pair) && SamePair(d[l], pair) ==> k == l)
      && (HasPair(edges, pair) ==> forall k :: 0 <= k < |d| && SamePair(d[k], pair) ==>
            exists m :: 0 <= m < |edges| && IsFirst(edges, m) && SamePair(edges[m], pair) &&
              d[k] == edges[m].(isBgLine := false))
  {
    var d, pair := RemoveRedundantEdge(Patched(edges, nodes)), Edge(a.id, b.id, false);
    NormalisedCovers(edges, nodes, a, b);
    RemoveRedundantEdgeUnique(Patched(edges, nodes));
    forall k, l | 0 <= k < |d| && 0 <= l < |d| && SamePair(d[k], pair) && SamePair(d[l], pair)
      ensures k == l
    {
      PairJoinedOnce(d, pair, k, l);
    }
    if HasPair(edges, pair) {
      forall k | 0 <= k < |d| && SamePair(d[k], pair)
        ensures exists m :: (0 <= m < |edges| && IsFirst(edges, m) && SamePair(edges[m], pair) &&
          d[k] == edges[m].(isBgLine := false))
      {
        NormalisedKeepsFirst(edges, nodes, pair, k);
      }
    }
  }

  // ---------------------------------------------------------------------
  // renderNode: the node score
  // ---------------------------------------------------------------------

  /** The per-edge test of renderNode's inner forEach:
      `[i.source, i.target].includes(id) && !i.isBgLine`. */
  predicate CountsFor(e: Edge, id: string) {
    (e.source == id || e.target == id) && !e.isBgLine
  }

  /** How many edges of `edges` pass CountsFor, a self-loop once. */
  function Degree(edges: seq<Edge>, id: string): nat
    decreases |edges|
  {
    if edges == [] then 0
    else Degree(edges[..|edges| - 1], id) + (if CountsFor(edges[|edges| - 1], id) then 1 else 0)
  }

  /** renderNode's `value`: `100 / n` for each counted edge, kept exact. */
  function Score(edges: seq<Edge>, id: string, n: nat): real
    requires n > 0
  {
    Degree(edges, id) as real * (100.0 / n as real)
  }

  /** How many input edges touch `id`, whatever their flag. */
  function Touching(edges: seq<Edge>, id: string): nat
    decreases |edges|
  {
    if edges == [] then 0
    else
      var e := edges[|edges| - 1];
      Touching(edges[..|edges| - 1], id) + (if e.source == id || e.target == id then 1 else 0)
  }

  lemma {:induction false} DegreeAppend(s: seq<Edge>, t: seq<Edge>, id: string)
    ensures Degree(s + t, id) == Degree(s, id) + Degree(t, id)
    decreases |t|
  {
    if t != [] {
      var t' := t[..|t| - 1];
      assert (s + t)[..|s + t| - 1] == s + t';
      assert (s + t)[|s + t| - 1] == t[|t| - 1];
      var c := if CountsFor(t[|t| - 1], id) then 1 else 0;
      assert Degree(s + t, id) == Degree(s + t', id) + c;
      assert Degree(t, id) == Degree(t', id) + c;
      DegreeAppend(s, t', id);
    } else {
      assert s + t == s;
    }
  }

  lemma {:induction false} DegreeOfBackground(raw: seq<Edge>, outer: seq<Node>, all: seq<Node>, id: string)
    ensures Degree(Background(raw, outer, all), id) == 0
    decreases |outer|
  {
    if outer != [] {
      var a := outer[|outer| - 1];
      var s := Background(raw, outer[..|outer| - 1], all);
      var t := BgFor(raw, a, Others(all, a));
      DegreeOfBackground(raw, outer[..|outer| - 1], all, id);
      DegreeAppend(s, t, id);
      DegreeOfBgFor(raw, a, Others(all, a), id);
    }
  }

  lemma {:induction false} DegreeOfBgFor(raw: seq<Edge>, a: Node, bs: seq<Node>, id: string)
    ensures Degree(BgFor(raw, a, bs), id) == 0
    decreases |bs|
  {
    if bs != [] {
      var b := bs[|bs| - 1];
      DegreeOfBgFor(raw, a, bs[..|bs| - 1], id);
      DegreeAppend(BgFor(raw, a, bs[..|bs| - 1]),
        if !HasDirected(raw, a.id, b.id) then [Edge(a.id, b.id, true)] else [], id);
      assert Degree([Edge(a.id, b.id, true)], id) == 0 by {
        assert [Edge(a.id, b.id, true)][..0] == [];
      }
    }
  }

  lemma {:induction false} DegreeOfAsReal(edges: seq<Edge>, id: string)
    ensures Degree(AsReal(edges), id) == Touching(edges, id)
    decreases |edges|
  {
    if edges != [] {
      var p := edges[..|edges| - 1];
      assert AsReal(edges)[..|edges| - 1] == AsReal(p);
      DegreeOfAsReal(p, id);
    }
  }

  /** Counted over the patched, not yet deduplicated list, a node's degree is
      the number of input edges touching it: background edges never count,
      and every input edge does, even one the caller flagged as background
      and even a duplicate or a reversed copy that getEdges will drop. */
  lemma DegreeOfPatched(edges: seq<Edge>, nodes: seq<Node>, id: string)
    ensures Degree(Patched(edges, nodes), id) == Touching(edges, id)
  {
    DegreeAppend(AsReal(edges), Background(AsReal(edges), nodes, nodes), id);
    DegreeOfBackground(AsReal(edges), nodes, nodes, id);
    DegreeOfAsReal(edges, id);
  }

  // ---------------------------------------------------------------------
  // renderEdge: resolving ids to paint nodes
  // ---------------------------------------------------------------------

  /** The last paint node of `paints` whose source node has id `id`. */
  function LastWithId(paints: seq<PaintNode>, id: string): (r: Option<PaintNode>)
    ensures r.Some? ==> r.value in paints && r.value.nodeSource.id == id
    ensures r.Some? ==> exists i ::
      && 0 <= i < |paints| && paints[i] == r.value
      && forall j :: i < j < |paints| ==> paints[j].nodeSource.id != id
    ensures r.None? <==> forall k :: 0 <= k < |paints| ==> paints[k].nodeSource.id != id
    decreases |paints|
  {
    if paints == [] then None
    else if paints[|paints| - 1].nodeSource.id == id then Some(paints[|paints| - 1])
    else
      var r := LastWithId(paints[..|paints| - 1], id);
      assert forall j :: 0 <= j < |paints| - 1 ==> paints[..|paints| - 1][j] == paints[j];
      r
  }

  /** The source paint node renderEdge's forEach ends with. */
  function SourceNode(paints: seq<PaintNode>, e: Edge): Option<PaintNode> {
    LastWithId(paints, e.source)
  }

  /** The target paint node renderEdge's forEach ends with: the `else if`
      never fires when the target id equals the source id. */
  function TargetNode(paints: seq<PaintNode>, e: Edge): Option<PaintNode> {
    if e.source == e.target then None else LastWithId(paints, e.target)
  }

  /** renderEdge keeps an edge iff both ends resolved. */
  predicate Resolves(paints: seq<PaintNode>, e: Edge) {
    SourceNode(paints, e).Some? && TargetNode(paints, e).Some?
  }

  /** The edges renderEdge draws, in input order (`map` then `filter`). */
  function Drawable(paints: seq<PaintNode>, data: seq<Edge>): seq<Edge>
    decreases |data|
  {
    if data == [] then []
    else
      var e := data[|data| - 1];
      Drawable(paints, data[..|data| - 1]) + (if Resolves(paints, e) then [e] else [])
  }

  /** One step of renderEdge's map-then-filter, for a loop over indices. */
  lemma DrawableStep(paints: seq<PaintNode>, data: seq<Edge>, i: nat)
    requires i < |data|
    ensures Drawable(paints, data[..i + 1]) ==
      Drawable(paints, data[..i]) + (if Resolves(paints, data[i]) then [data[i]] else [])
  {
    assert data[..i + 1][..i] == data[..i];
  }

  /** An edge resolves iff its ends are distinct ids both found among the
      paint nodes; so self-loops are never drawn. */
  lemma ResolvesIff(paints: seq<PaintNode>, e: Edge)
    ensures Resolves(paints, e) <==>
      e.source != e.target &&
      (exists p :: p in paints && p.nodeSource.id == e.source) &&
      (exists p :: p in paints && p.nodeSource.id == e.target)
  {
  }

  /** The drawn edges are exactly the input edges that resolve. */
  lemma {:induction false} DrawableMembers(paints: seq<PaintNode>, data: seq<Edge>, e: Edge)
    ensures e in Drawable(paints, data) <==> e in data && Resolves(paints, e)
    decreases |data|
  {
    if data != [] {
      var p := data[..|data| - 1];
      DrawableMembers(paints, p, e);
      assert forall x :: x in data <==> x in p || x == data[|data| - 1];
    }
  }

  /** Drawing never adds edges. */
  lemma {:induction false} DrawableLength(paints: seq<PaintNode>, data: seq<Edge>)
    ensures |Drawable(paints, data)| <= |data|
    ensures |Drawable(paints, data)| == |data| <==> forall e :: e in data ==> Resolves(paints, e)
    decreases |data|
  {
    if data != [] {
      var p := data[..|data| - 1];
      DrawableLength(paints, p);
      assert forall x :: x in data <==> x in p || x == data[|data| - 1];
    }
  }
}
