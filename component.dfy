/** EdgeBundlingComponent (src/app/edge-bundling/component.ts): the layout
    builder, which normalises the model and rebuilds the paint nodes, the
    paint edges and the node-to-edges index, and the interaction state
    machine, which restyles paint objects in place on hover and click. */
module EdgeBundling {
  import opened Wrappers
  import opened Types
  import opened Util
  import opened Layout

  const NodeRadius: int := 5
  const BgLineColor: string := "#ededed"
  const BgLineWeight: int := 1
  const ActiveLineColor: string := "#E54545"
  const ActiveLineWeight: int := 2

  /** The sizes the component falls back to when its host binds none. */
  const DefaultOutterSize: Size := Size(600.0, 600.0)
  const DefaultInnerSize: Size := Size(390.0, 390.0)

  /** What calculateEllipseNodePosition returns for a node index: its centre
      and its angle on the ellipse. */
  datatype Placement = Placement(x: real, y: real, angle: real)

  /** A `Partial<PaintEdgeDefinition>` of the style fields, as the callers of
      updateNodeEdge pass it; an absent field is left as it was. */
  datatype EdgeStyle = EdgeStyle(stroke: Option<string>, strokeWidth: Option<int>)

  /** A `Partial<PaintNodeDefinition>` as updateNode merges it. */
  datatype NodePatch = NodePatch(
    radius: Option<int>, angle: Option<real>,
    fill: Option<FillColor>, labelText: Option<string>, isActive: Option<bool>)

  /** The `{}` that onNodeBlur passes to updateNode. */
  const EmptyPatch := NodePatch(None, None, None, None, None)

  const ActiveStyle := EdgeStyle(Some(ActiveLineColor), Some(ActiveLineWeight))
  const BgStyle := EdgeStyle(Some(BgLineColor), Some(BgLineWeight))

  // ---------------------------------------------------------------------
  // Paint-edge sequences
  // ---------------------------------------------------------------------

  /** The endpoints of a paint edge: none for a background edge. */
  function EndsOf(e: PaintEdge): set<PaintNode> {
    if e.boundNodes.Some? then {e.boundNodes.value.0, e.boundNodes.value.1} else {}
  }

  /** The members of a sequence, as a set. */
  ghost function Elems<T>(s: seq<T>): set<T> {
    set x | x in s
  }

  /** Every endpoint of the edges in `s`. */
  ghost function EndsIn(s: set<PaintEdge>): set<PaintNode> {
    set e, p | e in s && p in EndsOf(e) :: p
  }

  /** The ends of a member of `s` are among the ends of `s`. */
  lemma EndsOfIn(e: PaintEdge, s: set<PaintEdge>)
    requires e in s
    ensures EndsOf(e) <= EndsIn(s)
  {
  }

  /** Every endpoint of the edges of `es`. */
  ghost function Ends(es: seq<PaintEdge>): set<PaintNode> {
    EndsIn(Elems(es))
  }

  /** `es.filter((edge) => s.has(edge))`. */
  function Within(es: seq<PaintEdge>, s: set<PaintEdge>): seq<PaintEdge>
    decreases |es|
  {
    if es == [] then []
    else Within(es[..|es| - 1], s) + (if es[|es| - 1] in s then [es[|es| - 1]] else [])
  }

  /** `es.filter((edge) => !s.has(edge))`. */
  function Without(es: seq<PaintEdge>, s: set<PaintEdge>): seq<PaintEdge>
    decreases |es|
  {
    if es == [] then []
    else Without(es[..|es| - 1], s) + (if es[|es| - 1] !in s then [es[|es| - 1]] else [])
  }

  /** updateNodeEdge's new edge list: the edges outside `s`, then those in
      `s`, each part in its original order. */
  function Partition(es: seq<PaintEdge>, s: set<PaintEdge>): seq<PaintEdge> {
    Without(es, s) + Within(es, s)
  }

  /** The edges updateNodeEdge restyles: those of `es` that are in `s`. */
  ghost function Restyled(es: seq<PaintEdge>, s: set<PaintEdge>): set<PaintEdge> {
    Elems(es) * s
  }

  lemma {:induction false} FilterMembers(es: seq<PaintEdge>, s: set<PaintEdge>, e: PaintEdge)
    ensures e in Within(es, s) <==> e in es && e in s
    ensures e in Without(es, s) <==> e in es && e !in s
    decreases |es|
  {
    if es != [] {
      var p := es[..|es| - 1];
      FilterMembers(p, s, e);
      assert e in es <==> e in p || e == es[|es| - 1];
    }
  }

  lemma {:induction false} FilterAppend(a: seq<PaintEdge>, b: seq<PaintEdge>, s: set<PaintEdge>)
    ensures Within(a + b, s) == Within(a, s) + Within(b, s)
    ensures Without(a + b, s) == Without(a, s) + Without(b, s)
    decreases |b|
  {
    if b == [] {
      assert a + b == a;
    } else {
      var b' := b[..|b| - 1];
      assert (a + b)[..|a + b| - 1] == a + b';
      assert (a + b)[|a + b| - 1] == b[|b| - 1];
      FilterAppend(a, b', s);
    }
  }

  /** The two parts together are a permutation of the list. */
  lemma {:induction false} PartitionPermutes(es: seq<PaintEdge>, s: set<PaintEdge>)
    ensures multiset(Partition(es, s)) == multiset(es)
    decreases |es|
  {
    if es != [] {
      var p, x := es[..|es| - 1], es[|es| - 1];
      PartitionPermutes(p, s);
      assert es == p + [x];
    }
  }

  lemma {:induction false} WithinIsFixed(es: seq<PaintEdge>, s: set<PaintEdge>)
    ensures Within(Within(es, s), s) == Within(es, s)
    ensures Without(Within(es, s), s) == []
    ensures Within(Without(es, s), s) == []
    ensures Without(Without(es, s), s) == Without(es, s)
    decreases |es|
  {
    if es != [] {
      var p, x := es[..|es| - 1], es[|es| - 1];
      WithinIsFixed(p, s);
      var tail := if x in s then [x] else [];
      var tail' := if x !in s then [x] else [];
      FilterAppend(Within(p, s), tail, s);
      FilterAppend(Without(p, s), tail', s);
      assert Within(tail, s) == tail && Without(tail, s) == [] by {
        assert tail == [] || tail[..0] == [];
      }
      assert Within(tail', s) == [] && Without(tail', s) == tail' by {
        assert tail' == [] || tail'[..0] == [];
      }
    }
  }

  /** Restyling the same node twice does not reorder the edges again. */
  lemma PartitionIdempotent(es: seq<PaintEdge>, s: set<PaintEdge>)
    ensures Partition(Partition(es, s), s) == Partition(es, s)
  {
    FilterAppend(Without(es, s), Within(es, s), s);
    WithinIsFixed(es, s);
  }

  /** With no incident edges the list is left as it was. */
  lemma {:induction false} PartitionOfNothing(es: seq<PaintEdge>)
    ensures Within(es, {}) == [] && Without(es, {}) == es
    decreases |es|
  {
    if es != [] {
      PartitionOfNothing(es[..|es| - 1]);
    }
  }

  /** Two sequences with the same members have the same edges and ends. */
  lemma SameMembers(a: seq<PaintEdge>, b: seq<PaintEdge>)
    requires forall e :: e in a <==> e in b
    ensures Elems(a) == Elems(b) && Ends(a) == Ends(b)
  {
    forall p | p in Ends(a) ensures p in Ends(b) {
      var e :| e in a && p in EndsOf(e);
      assert e in b;
    }
    forall p | p in Ends(b) ensures p in Ends(a) {
      var e :| e in b && p in EndsOf(e);
      assert e in a;
    }
  }

  lemma PartitionElems(es: seq<PaintEdge>, s: set<PaintEdge>)
    ensures forall e :: e in Partition(es, s) <==> e in es
    ensures Elems(Partition(es, s)) == Elems(es)
    ensures Ends(Partition(es, s)) == Ends(es)
  {
    forall e ensures e in Partition(es, s) <==> e in es {
      FilterMembers(es, s, e);
    }
    SameMembers(Partition(es, s), es);
  }

  /** The incident part holds exactly the restyled edges. */
  lemma WithinElems(es: seq<PaintEdge>, s: set<PaintEdge>)
    ensures Elems(Within(es, s)) == Restyled(es, s)
  {
    forall e | e in Elems(Within(es, s)) ensures e in Restyled(es, s) {
      FilterMembers(es, s, e);
    }
    forall e | e in Restyled(es, s) ensures e in Elems(Within(es, s)) {
      FilterMembers(es, s, e);
    }
  }

  /** The incident part of `es` for a set of edges that all end at `node`:
      what updateNodeEdge may touch and what it promises to touch. */
  lemma IncidentPart(es: seq<PaintEdge>, s: set<PaintEdge>, node: PaintNode?)
    requires forall e :: e in s ==> node in EndsOf(e)
    ensures forall e :: e in es ==> (e in Within(es, s) <==> e in s)
    ensures forall e :: e in Within(es, s) ==> e.boundNodes.Some?
    ensures Elems(Within(es, s)) <= s && Ends(Within(es, s)) <= EndsIn(s)
    ensures forall e, p :: e in es && e in s && p in EndsOf(e) ==> p in Ends(Within(es, s))
  {
    forall e | e in es ensures e in Within(es, s) <==> e in s {
      FilterMembers(es, s, e);
    }
    forall e | e in Within(es, s) ensures e in s {
      FilterMembers(es, s, e);
    }
    forall p | p in Ends(Within(es, s)) ensures p in EndsIn(s) {
      var e :| e in Within(es, s) && p in EndsOf(e);
    }
  }

  /** A drawn edge: both its ends resolve, its path runs from the source's
      centre to the target's centre through the control point, and it holds
      its endpoints iff it is a real edge. */
  ghost predicate DrawnFrom(r: PaintEdge, e: Edge, paints: seq<PaintNode>, cp: Point, show: real -> string)
  {
    && Resolves(paints, e)
    && var s, t := SourceNode(paints, e).value, TargetNode(paints, e).value;
    && r.path == EdgePath(QuadraticEdgeModel(s.center, cp, t.center), show)
    && r.boundNodes == (if e.isBgLine then None else Some((s, t)))
  }

  /** Each edge of `result` is drawn from the edge of `drawn` at its index. */
  ghost predicate AllDrawn(result: seq<PaintEdge>, drawn: seq<Edge>, paints: seq<PaintNode>, cp: Point,
    show: real -> string)
  {
    && |result| == |drawn|
    && forall k :: 0 <= k < |result| ==> DrawnFrom(result[k], drawn[k], paints, cp, show)
  }

  lemma AllDrawnSnoc(result: seq<PaintEdge>, drawn: seq<Edge>, r: PaintEdge, e: Edge,
    paints: seq<PaintNode>, cp: Point, show: real -> string)
    requires AllDrawn(result, drawn, paints, cp, show) && DrawnFrom(r, e, paints, cp, show)
    ensures AllDrawn(result + [r], drawn + [e], paints, cp, show)
  {
    forall k | 0 <= k < |result| + 1
      ensures DrawnFrom((result + [r])[k], (drawn + [e])[k], paints, cp, show)
    {
      if k < |result| {
        assert (result + [r])[k] == result[k] && (drawn + [e])[k] == drawn[k];
      }
    }
  }

  /** Every edge of `es` has the background stroke. */
  ghost predicate BgStyled(es: seq<PaintEdge>)
    reads (set e | e in es)`stroke, (set e | e in es)`strokeWidth
  {
    forall k :: 0 <= k < |es| ==> es[k].stroke == BgLineColor && es[k].strokeWidth == BgLineWeight
  }

  lemma BgStyledSnoc(es: seq<PaintEdge>, r: PaintEdge)
    requires BgStyled(es) && r.stroke == BgLineColor && r.strokeWidth == BgLineWeight
    ensures BgStyled(es + [r])
  {
    assert forall k :: 0 <= k < |es| ==> (es + [r])[k] == es[k];
  }

  /** The state of renderEdge after the edges `drawn`: `result` holds their
      paint edges, all distinct, and `index` is
      `m0` with the real ones added. */
  ghost predicate Drawing(result: seq<PaintEdge>, drawn: seq<Edge>, index: map<PaintNode, set<PaintEdge>>,
    m0: map<PaintNode, set<PaintEdge>>, paints: seq<PaintNode>, cp: Point, show: real -> string)
  {
    && AllDrawn(result, drawn, paints, cp, show)
    && (forall k, l :: 0 <= k < l < |result| ==> result[k] != result[l])
    && IndexedBy(index, m0, result)
  }

  lemma DrawingSnoc(result: seq<PaintEdge>, drawn: seq<Edge>, index: map<PaintNode, set<PaintEdge>>,
    m0: map<PaintNode, set<PaintEdge>>, paints: seq<PaintNode>, cp: Point, show: real -> string,
    r: PaintEdge, e: Edge)
    requires AllDrawn(result, drawn, paints, cp, show) && DrawnFrom(r, e, paints, cp, show)
    requires (forall k, l :: 0 <= k < l < |result| ==> result[k] != result[l]) && r !in result
    requires IndexedBy(index, m0, result + [r])
    ensures Drawing(result + [r], drawn + [e], index, m0, paints, cp, show)
  {
    AllDrawnSnoc(result, drawn, r, e, paints, cp, show);
  }

  /** What the renderEdge state says edge by edge and entry by entry. */
  lemma DrawingFacts(result: seq<PaintEdge>, drawn: seq<Edge>, index: map<PaintNode, set<PaintEdge>>,
    m0: map<PaintNode, set<PaintEdge>>, paints: seq<PaintNode>, cp: Point, show: real -> string)
    requires Drawing(result, drawn, index, m0, paints, cp, show)
    ensures |result| == |drawn|
    ensures forall k :: 0 <= k < |result| ==> DrawnFrom(result[k], drawn[k], paints, cp, show)
    ensures forall k, l :: 0 <= k < l < |result| ==> result[k] != result[l]
    ensures index.Keys == m0.Keys
    ensures forall p, e :: p in index ==>
      (e in index[p] <==> e in m0[p] || (e in result && p in EndsOf(e)))
  {
  }

  /** A rendered node: it keeps its data node and label, sits at its
      placement with the fixed radius, is filled by its score's severity and
      starts inactive. */
  ghost predicate PaintedFrom(p: PaintNode, node: Node, position: Placement, score: real)
    reads p
  {
    && p.nodeSource == node
    && p.center == Point(position.x, position.y)
    && p.angle == position.angle
    && p.radius == NodeRadius
    && p.labelText == node.labelText
    && p.fill == NodeFillColor(Finite(score))
    && !p.isActive
  }

  /** The index `m` is `m0` with every real edge of `drawn` added to the
      entries of its two endpoints. */
  ghost predicate IndexedBy(m: map<PaintNode, set<PaintEdge>>, m0: map<PaintNode, set<PaintEdge>>,
    drawn: seq<PaintEdge>)
  {
    && m.Keys == m0.Keys
    && forall p :: p in m ==> m[p] == m0[p] + IncidentIn(drawn, p)
  }

  /** The edges of `drawn` that hold `p` as an endpoint. */
  ghost function IncidentIn(drawn: seq<PaintEdge>, p: PaintNode): set<PaintEdge> {
    set e | e in drawn && p in EndsOf(e)
  }

  /** Adding a new edge to the entries of its endpoints (and nowhere else)
      keeps the index in step with the drawn edges. */
  lemma IndexStep(m: map<PaintNode, set<PaintEdge>>, before: map<PaintNode, set<PaintEdge>>,
    m0: map<PaintNode, set<PaintEdge>>, drawn: seq<PaintEdge>, r: PaintEdge)
    requires IndexedBy(before, m0, drawn)
    requires r !in drawn && forall p :: p in m0 ==> r !in m0[p]
    requires EndsOf(r) <= before.Keys
    requires m.Keys == before.Keys
    requires forall p :: p in m ==> m[p] == if p in EndsOf(r) then before[p] + {r} else before[p]
    ensures IndexedBy(m, m0, drawn + [r])
  {
    forall p | p in m ensures m[p] == m0[p] + IncidentIn(drawn + [r], p) {
      IncidentInSnoc(drawn, r, p);
    }
  }

  lemma IncidentInSnoc(drawn: seq<PaintEdge>, r: PaintEdge, p: PaintNode)
    ensures IncidentIn(drawn + [r], p) == IncidentIn(drawn, p) + (if p in EndsOf(r) then {r} else {})
  {
    assert forall e :: e in drawn + [r] <==> e in drawn || e == r;
  }

  /** `step` added to 0 `n` times, as the `+=` of renderNode accumulates. */
  ghost function Repeated(n: nat, step: real): real {
    if n == 0 then 0.0 else Repeated(n - 1, step) + step
  }

  lemma {:induction false} RepeatedIsProduct(n: nat, step: real)
    ensures Repeated(n, step) == n as real * step
  {
    if n > 0 {
      RepeatedIsProduct(n - 1, step);
    }
  }

  /** The node kept its radius, angle, fill and label between the two states. */
  twostate predicate SameLook(n: PaintNode)
    reads n
  {
    && n.radius == old(n.radius) && n.angle == old(n.angle)
    && n.fill == old(n.fill) && n.labelText == old(n.labelText)
  }

  /** An index with an empty entry for each of `ps`. */
  ghost function EmptyEntries(ps: seq<PaintNode>): (m: map<PaintNode, set<PaintEdge>>)
    ensures m.Keys == Elems(ps)
  {
    map p | p in ps :: {}
  }

  /** An index built from empty entries holds only endpoints' edges. */
  lemma FromEmptyIsValid(m: map<PaintNode, set<PaintEdge>>, ps: seq<PaintNode>, drawn: seq<PaintEdge>)
    requires IndexedBy(m, EmptyEntries(ps), drawn)
    ensures m.Keys == Elems(ps)
    ensures forall p, e :: p in m && e in m[p] ==> p in EndsOf(e)
  {
  }

  class EdgeBundlingComponent {
    var dataNodes: seq<Node>
    var dataEdges: seq<Edge>
    var rawEdges: seq<Edge>
    const outterSize: Size
    const innerSize: Size

    var nodeDefs: seq<PaintNode>
    var edgeDefs: seq<PaintEdge>
    var nodeChosen: PaintNode?
    var nodeHover: PaintNode?
    var nodeEdgeMap: map<PaintNode, set<PaintEdge>>

    /** The nodes passed to `nodeSelected.next`, oldest first. */
    ghost var emitted: seq<Node>

    /** Every edge in a node's entry of the index is a real edge of that node. */
    ghost predicate Valid()
      reads this`nodeEdgeMap
    {
      forall p, e :: p in nodeEdgeMap && e in nodeEdgeMap[p] ==> p in EndsOf(e)
    }

    /** `this.nodeEdgeMap.get(node)`, with an absent entry as the empty set. */
    function IncidentOf(node: PaintNode?): set<PaintEdge>
      reads this`nodeEdgeMap
    {
      if node != null && node in nodeEdgeMap then nodeEdgeMap[node] else {}
    }

    /** Every edge of the index is a drawn edge: the index and `edgeDefs` are
        rebuilt together, and the handlers only reorder `edgeDefs`. */
    ghost predicate IndexInDefs()
      reads this`nodeEdgeMap, this`edgeDefs
    {
      forall p, e :: p in nodeEdgeMap && e in nodeEdgeMap[p] ==> e in edgeDefs
    }

    /** A component whose inputs the host has bound: the model, and the two
        sizes, each `None` when the host leaves it unbound. */
    constructor (nodes: seq<Node>, edges: seq<Edge>, outter: Option<Size>, inner: Option<Size>)
      ensures dataNodes == nodes && dataEdges == edges && rawEdges == []
      ensures outter.Some? ==> outterSize == outter.value
      ensures outter.None? ==> outterSize == DefaultOutterSize
      ensures inner.Some? ==> innerSize == inner.value
      ensures inner.None? ==> innerSize == DefaultInnerSize
      ensures nodeDefs == [] && edgeDefs == [] && nodeEdgeMap == map[]
      ensures nodeChosen == null && nodeHover == null && emitted == []
      ensures Valid()
    {
      dataNodes, dataEdges, rawEdges := nodes, edges, [];
      outterSize := outter.GetOr(DefaultOutterSize);
      innerSize := inner.GetOr(DefaultInnerSize);
      nodeDefs, edgeDefs, nodeEdgeMap := [], [], map[];
      nodeChosen, nodeHover := null, null;
      emitted := [];
    }

    // -------------------------------------------------------------------
    // Layout
    // -------------------------------------------------------------------

    /** ngOnChanges: keep a copy of the edges, patch them, lay the nodes out
        and draw the edges. */
    method NgOnChanges(placement: nat -> Placement, show: real -> string)
      modifies this`rawEdges, this`dataEdges, this`nodeDefs, this`edgeDefs, this`nodeEdgeMap
      modifies (set n | n in dataNodes)`value
      ensures dataNodes == old(dataNodes) && rawEdges == old(dataEdges)
      ensures dataEdges == Patched(old(dataEdges), dataNodes)
      ensures |nodeDefs| == |dataNodes|
      ensures forall i :: 0 <= i < |nodeDefs| ==> fresh(nodeDefs[i]) && nodeDefs[i].nodeSource == dataNodes[i]
      ensures forall i :: 0 <= i < |nodeDefs| ==>
        PaintedFrom(nodeDefs[i], dataNodes[i], placement(i), Score(dataEdges, dataNodes[i].id, |dataNodes|))
      ensures forall n :: n in dataNodes ==> n.value == Score(dataEdges, n.id, |dataNodes|)
      ensures Drawing(edgeDefs, Drawable(nodeDefs, RemoveRedundantEdge(dataEdges)), nodeEdgeMap,
        EmptyEntries(nodeDefs), nodeDefs, Point(outterSize.width / 2.0, outterSize.height / 2.0), show)
      ensures BgStyled(edgeDefs)
      ensures forall e :: e in edgeDefs ==> fresh(e)
      ensures nodeEdgeMap.Keys == Elems(nodeDefs)
      ensures Valid() && IndexInDefs()
      ensures nodeChosen == old(nodeChosen) && nodeHover == old(nodeHover)
      ensures emitted == old(emitted)
    {
      ghost var chosen, hover, sent := nodeChosen, nodeHover, emitted;
      Relayout(placement);
      assert nodeChosen == chosen && nodeHover == hover && emitted == sent;
      Redraw(show);
      assert nodeChosen == chosen && nodeHover == hover && emitted == sent;
    }

    /** The first three statements of ngOnChanges: copy the edges, patch
        them and lay the nodes out. */
    method Relayout(placement: nat -> Placement)
      modifies this`rawEdges, this`dataEdges, this`nodeDefs
      modifies (set n | n in dataNodes)`value
      ensures rawEdges == old(dataEdges)
      ensures dataEdges == Patched(old(dataEdges), dataNodes)
      ensures |nodeDefs| == |dataNodes|
      ensures forall i :: 0 <= i < |nodeDefs| ==> fresh(nodeDefs[i]) && nodeDefs[i].nodeSource == dataNodes[i]
      ensures forall i :: 0 <= i < |nodeDefs| ==>
        PaintedFrom(nodeDefs[i], dataNodes[i], placement(i), Score(dataEdges, dataNodes[i].id, |dataNodes|))
      ensures forall n :: n in dataNodes ==> n.value == Score(dataEdges, n.id, |dataNodes|)
    {
      rawEdges := dataEdges;
      dataEdges := PatchNodeEdge(dataEdges, dataNodes);
      nodeDefs := RenderNode(placement);
    }

    /** The last statement of ngOnChanges: `this.edgeDefs = this.getEdges(this.nodeDefs)`. */
    method Redraw(show: real -> string)
      modifies this`edgeDefs, this`nodeEdgeMap
      ensures Drawing(edgeDefs, Drawable(nodeDefs, RemoveRedundantEdge(dataEdges)), nodeEdgeMap,
        EmptyEntries(nodeDefs), nodeDefs, Point(outterSize.width / 2.0, outterSize.height / 2.0), show)
      ensures BgStyled(edgeDefs)
      ensures nodeEdgeMap.Keys == Elems(nodeDefs)
      ensures Valid() && IndexInDefs()
      ensures forall e :: e in edgeDefs ==> fresh(e)
    {
      edgeDefs := GetEdges(nodeDefs, show);
    }

    /** patchNodeEdge. */
    method PatchNodeEdge(edges: seq<Edge>, allNodes: seq<Node>) returns (patched: seq<Edge>)
      ensures patched == Patched(edges, allNodes)
      ensures forall k :: 0 <= k < |edges| ==> patched[k] == edges[k].(isBgLine := false)
      ensures forall k :: |edges| <= k < |patched| ==> patched[k].isBgLine
    {
      var rawEdge := AsReal(edges);
      patched := rawEdge;
      for a := 0 to |allNodes|
        invariant patched == rawEdge + Background(rawEdge, allNodes[..a], allNodes)
      {
        var nodeA := allNodes[a];
        var more := PatchFrom(rawEdge, nodeA, Others(allNodes, nodeA));
        BackgroundStep(rawEdge, allNodes, a, allNodes);
        AppendAssoc(rawEdge, Background(rawEdge, allNodes[..a], allNodes), more);
        patched := patched + more;
      }
      assert allNodes[..|allNodes|] == allNodes;
      PatchedShape(edges, allNodes);
    }

    /** The inner forEach of patchNodeEdge: a background edge from nodeA to
        each other node it has no directed edge to in the input. */
    static method PatchFrom(rawEdge: seq<Edge>, nodeA: Node, others: seq<Node>) returns (more: seq<Edge>)
      ensures more == BgFor(rawEdge, nodeA, others)
    {
      more := [];
      for b := 0 to |others|
        invariant more == BgFor(rawEdge, nodeA, others[..b])
      {
        var nodeB := others[b];
        BgForStep(rawEdge, nodeA, others, b);
        if !HasDirected(rawEdge, nodeA.id, nodeB.id) {
          more := more + [Edge(nodeA.id, nodeB.id, true)];
        }
      }
      assert others[..|others|] == others;
    }

    /** getNodes and renderNode: one fresh paint node per node, in order, at
        the placement of its index, with the node's score recomputed in
        place and the fill colour of that score. */
    method RenderNode(placement: nat -> Placement) returns (paints: seq<PaintNode>)
      modifies (set n | n in dataNodes)`value
      ensures |paints| == |dataNodes|
      ensures forall n :: n in dataNodes ==> n.value == Score(dataEdges, n.id, |dataNodes|)
      ensures forall i :: 0 <= i < |paints| ==> fresh(paints[i])
      ensures forall i :: 0 <= i < |paints| ==>
        PaintedFrom(paints[i], dataNodes[i], placement(i), Score(dataEdges, dataNodes[i].id, |dataNodes|))
      ensures forall i, j :: 0 <= i < j < |paints| ==> paints[i] != paints[j]
    {
      var data, edges := dataNodes, dataEdges;
      var n := |data|;
      paints := [];
      for i := 0 to n
        invariant |paints| == i
        invariant forall j :: 0 <= j < i ==> data[j].value == Score(edges, data[j].id, n)
        invariant forall j :: 0 <= j < i ==> fresh(paints[j])
        invariant forall j :: 0 <= j < i ==> PaintedFrom(paints[j], data[j], placement(j), Score(edges, data[j].id, n))
        invariant forall j, k :: 0 <= j < k < i ==> paints[j] != paints[k]
      {
        var paint := RenderOne(data[i], edges, n, placement(i));
        paints := paints + [paint];
      }
    }

    /** The map callback of renderNode for one node. */
    static method RenderOne(nodeSource: Node, edges: seq<Edge>, n: nat, position: Placement)
      returns (paint: PaintNode)
      requires n > 0
      modifies nodeSource`value
      ensures nodeSource.value == Score(edges, nodeSource.id, n)
      ensures fresh(paint) && PaintedFrom(paint, nodeSource, position, nodeSource.value)
    {
      CountDegree(nodeSource, edges, 100.0 / n as real);
      paint := new PaintNode(Point(position.x, position.y), NodeRadius, nodeSource,
        position.angle, NodeFillColor(Finite(nodeSource.value)), nodeSource.labelText);
    }

    /** The inner forEach of renderNode: the node's value restarts at 0 and
        grows by `step` per real input edge that touches it. */
    static method CountDegree(nodeSource: Node, edges: seq<Edge>, step: real)
      modifies nodeSource`value
      ensures nodeSource.value == Degree(edges, nodeSource.id) as real * step
    {
      nodeSource.value := 0.0;
      for k := 0 to |edges|
        invariant nodeSource.value == Repeated(Degree(edges[..k], nodeSource.id), step)
      {
        var e := edges[k];
        assert edges[..k + 1][..k] == edges[..k];
        if (e.source == nodeSource.id || e.target == nodeSource.id) && !e.isBgLine {
          nodeSource.value := nodeSource.value + step;
        }
      }
      assert edges[..|edges|] == edges;
      RepeatedIsProduct(Degree(edges, nodeSource.id), step);
    }

    /** getEdges: reset the index to an empty entry per paint node, then draw
        the deduplicated edges. Afterwards a paint edge is in the entry of
        `p` iff it is drawn and `p` is one of its endpoints. */
    method GetEdges(nodePaints: seq<PaintNode>, show: real -> string) returns (edges: seq<PaintEdge>)
      modifies this`nodeEdgeMap
      ensures Drawing(edges, Drawable(nodePaints, RemoveRedundantEdge(dataEdges)), nodeEdgeMap,
        EmptyEntries(nodePaints), nodePaints, Point(outterSize.width / 2.0, outterSize.height / 2.0), show)
      ensures BgStyled(edges)
      ensures nodeEdgeMap.Keys == Elems(nodePaints)
      ensures Valid()
      ensures forall p, e :: p in nodeEdgeMap && e in nodeEdgeMap[p] ==> e in edges
      ensures forall e :: e in edges ==> fresh(e)
    {
      nodeEdgeMap := map[];
      for i := 0 to |nodePaints|
        invariant nodeEdgeMap == EmptyEntries(nodePaints[..i])
      {
        assert nodePaints[..i + 1] == nodePaints[..i] + [nodePaints[i]];
        nodeEdgeMap := nodeEdgeMap[nodePaints[i] := {}];
      }
      assert nodePaints[..|nodePaints|] == nodePaints;
      edges := RenderEdge(RemoveRedundantEdge(dataEdges), nodePaints, show);
      FromEmptyIsValid(nodeEdgeMap, nodePaints, edges);
      DrawingFacts(edges, Drawable(nodePaints, RemoveRedundantEdge(dataEdges)), nodeEdgeMap,
        EmptyEntries(nodePaints), nodePaints, Point(outterSize.width / 2.0, outterSize.height / 2.0), show);
    }

    /** renderEdge: each edge whose ends resolve becomes a fresh paint edge,
        in input order; real edges are added to both endpoints' entries. */
    method RenderEdge(data: seq<Edge>, nodesPaints: seq<PaintNode>, show: real -> string)
      returns (result: seq<PaintEdge>)
      requires forall p :: p in nodesPaints ==> p in nodeEdgeMap
      modifies this`nodeEdgeMap
      ensures Drawing(result, Drawable(nodesPaints, data), nodeEdgeMap, old(nodeEdgeMap), nodesPaints,
        Point(outterSize.width / 2.0, outterSize.height / 2.0), show)
      ensures BgStyled(result)
      ensures forall e :: e in result ==> fresh(e)
    {
      var cp := Point(outterSize.width / 2.0, outterSize.height / 2.0);
      var index;
      result, index := DrawAll(data, nodesPaints, cp, show, nodeEdgeMap);
      nodeEdgeMap := index;
    }

    /** renderEdge's map-then-filter over `data`, with the index `m0` it
        adds the real edges to. */
    static method DrawAll(data: seq<Edge>, nodesPaints: seq<PaintNode>, cp: Point, show: real -> string,
      m0: map<PaintNode, set<PaintEdge>>)
      returns (result: seq<PaintEdge>, index: map<PaintNode, set<PaintEdge>>)
      requires forall p :: p in nodesPaints ==> p in m0
      ensures Drawing(result, Drawable(nodesPaints, data), index, m0, nodesPaints, cp, show)
      ensures BgStyled(result)
      ensures forall e :: e in result ==> fresh(e)
    {
      index := m0;
      result := [];
      for i := 0 to |data|
        invariant Drawing(result, Drawable(nodesPaints, data[..i]), index, m0, nodesPaints, cp, show)
        invariant BgStyled(result)
        invariant forall e :: e in result ==> fresh(e)
      {
        result, index := DrawNext(data, i, nodesPaints, cp, show, m0, result, index);
      }
      assert data[..|data|] == data;
    }

    /** One turn of renderEdge's map-then-filter: the paint edge for
        `data[i]`, if any, is appended to the result. */
    static method DrawNext(data: seq<Edge>, i: nat, nodesPaints: seq<PaintNode>, cp: Point, show: real -> string,
      ghost m0: map<PaintNode, set<PaintEdge>>, result: seq<PaintEdge>, index: map<PaintNode, set<PaintEdge>>)
      returns (result': seq<PaintEdge>, index': map<PaintNode, set<PaintEdge>>)
      requires i < |data|
      requires forall p :: p in nodesPaints ==> p in m0
      requires Drawing(result, Drawable(nodesPaints, data[..i]), index, m0, nodesPaints, cp, show)
      requires BgStyled(result)
      ensures Drawing(result', Drawable(nodesPaints, data[..i + 1]), index', m0, nodesPaints, cp, show)
      ensures BgStyled(result')
      ensures forall e :: e in result' ==> e in result || fresh(e)
    {
      DrawableStep(nodesPaints, data, i);
      var r;
      r, index' := DrawStep(data[i], nodesPaints, cp, show, m0, Drawable(nodesPaints, data[..i]), result, index);
      result' := result;
      if r.Some? {
        BgStyledSnoc(result, r.value);
        result' := result + [r.value];
      }
    }

    /** The map callback of renderEdge for one edge, with the index it adds a
        real edge to: None (filtered out) unless both ends resolve. */
    static method DrawStep(edge: Edge, nodesPaints: seq<PaintNode>, cp: Point, show: real -> string,
      ghost m0: map<PaintNode, set<PaintEdge>>, ghost drawn: seq<Edge>,
      result: seq<PaintEdge>, index: map<PaintNode, set<PaintEdge>>)
      returns (r: Option<PaintEdge>, index': map<PaintNode, set<PaintEdge>>)
      requires forall p :: p in nodesPaints ==> p in m0
      requires Drawing(result, drawn, index, m0, nodesPaints, cp, show)
      ensures r.Some? == Resolves(nodesPaints, edge)
      ensures r.Some? ==> fresh(r.value)
      ensures r.Some? ==> Drawing(result + [r.value], drawn + [edge], index', m0, nodesPaints, cp, show)
      ensures r.Some? ==> r.value.stroke == BgLineColor && r.value.strokeWidth == BgLineWeight
      ensures r.None? ==> Drawing(result, drawn, index', m0, nodesPaints, cp, show)
    {
      var sourceNode, targetNode := ResolveEnds(nodesPaints, edge);
      if sourceNode.Some? && targetNode.Some? {
        var e := DrawEdge(edge, nodesPaints, sourceNode.value, targetNode.value, cp, show);
        assert e !in result;
        index' := AddToIndex(index, e, m0, result);
        DrawingSnoc(result, drawn, index', m0, nodesPaints, cp, show, e, edge);
        r := Some(e);
      } else {
        r, index' := None, index;
      }
    }

    /** `nodeEdgeMap.get(node).add(result)` for both ends of a real edge. */
    static method AddToIndex(index: map<PaintNode, set<PaintEdge>>, r: PaintEdge,
      ghost m0: map<PaintNode, set<PaintEdge>>, ghost result: seq<PaintEdge>)
      returns (index': map<PaintNode, set<PaintEdge>>)
      requires IndexedBy(index, m0, result)
      requires r !in result && forall p :: p in m0 ==> r !in m0[p]
      requires EndsOf(r) <= index.Keys
      ensures IndexedBy(index', m0, result + [r])
    {
      index' := index;
      if r.boundNodes.Some? {
        var (s, t) := r.boundNodes.value;
        index' := index'[s := index'[s] + {r}];
        index' := index'[t := index'[t] + {r}];
      }
      IndexStep(index', index, m0, result, r);
    }

    /** The paint edge renderEdge builds for a resolved edge. */
    static method DrawEdge(edge: Edge, nodesPaints: seq<PaintNode>, s: PaintNode, t: PaintNode,
      cp: Point, show: real -> string) returns (r: PaintEdge)
      requires Some(s) == SourceNode(nodesPaints, edge) && Some(t) == TargetNode(nodesPaints, edge)
      ensures fresh(r) && DrawnFrom(r, edge, nodesPaints, cp, show)
      ensures r.stroke == BgLineColor && r.strokeWidth == BgLineWeight
      ensures EndsOf(r) == if edge.isBgLine then {} else {s, t}
    {
      r := new PaintEdge(EdgePath(QuadraticEdgeModel(s.center, cp, t.center), show),
        BgLineColor, BgLineWeight, if !edge.isBgLine then Some((s, t)) else None);
    }

    /** The inner forEach of renderEdge: the last paint node with the source
        id, and the last one with the target id among those that do not have
        the source id. */
    static method ResolveEnds(nodesPaints: seq<PaintNode>, edge: Edge)
      returns (sourceNode: Option<PaintNode>, targetNode: Option<PaintNode>)
      ensures sourceNode == SourceNode(nodesPaints, edge)
      ensures targetNode == TargetNode(nodesPaints, edge)
    {
      sourceNode, targetNode := None, None;
      for j := 0 to |nodesPaints|
        invariant sourceNode == LastWithId(nodesPaints[..j], edge.source)
        invariant targetNode == if edge.source == edge.target then None else LastWithId(nodesPaints[..j], edge.target)
      {
        assert nodesPaints[..j + 1][..j] == nodesPaints[..j];
        if nodesPaints[j].nodeSource.id == edge.source {
          sourceNode := Some(nodesPaints[j]);
        } else if nodesPaints[j].nodeSource.id == edge.target {
          targetNode := Some(nodesPaints[j]);
        }
      }
      assert nodesPaints[..|nodesPaints|] == nodesPaints;
    }

    // -------------------------------------------------------------------
    // Interaction
    // -------------------------------------------------------------------

    /** updateNode: merge the patch into the node; `nodeSource` is kept. */
    method UpdateNode(node: PaintNode, params: NodePatch) returns (r: PaintNode)
      modifies node`radius, node`angle, node`fill, node`labelText, node`isActive
      ensures r == node
      ensures node.radius == params.radius.GetOr(old(node.radius))
      ensures node.angle == params.angle.GetOr(old(node.angle))
      ensures node.fill == params.fill.GetOr(old(node.fill))
      ensures node.labelText == params.labelText.GetOr(old(node.labelText))
      ensures node.isActive == params.isActive.GetOr(old(node.isActive))
      ensures params == EmptyPatch ==> unchanged(node)
    {
      node.radius := params.radius.GetOr(node.radius);
      node.angle := params.angle.GetOr(node.angle);
      node.fill := params.fill.GetOr(node.fill);
      node.labelText := params.labelText.GetOr(node.labelText);
      node.isActive := params.isActive.GetOr(node.isActive);
      r := node;
    }

    /** updateNodeEdge: restyle the node's incident edges, set their
        endpoints' `isActive`, and move those edges, in order, to the end of
        `edgeDefs`. Paths and every other edge and node are untouched. */
    method UpdateNodeEdge(node: PaintNode?, params: EdgeStyle, setActive: bool)
      requires Valid()
      modifies this`edgeDefs
      modifies Restyled(edgeDefs, IncidentOf(node))`stroke, Restyled(edgeDefs, IncidentOf(node))`strokeWidth
      modifies EndsIn(Restyled(edgeDefs, IncidentOf(node)))`isActive
      ensures edgeDefs == Partition(old(edgeDefs), IncidentOf(node))
      ensures forall e :: e in edgeDefs <==> e in old(edgeDefs)
      ensures forall e :: e in old(edgeDefs) && e in IncidentOf(node) ==>
        && e.stroke == params.stroke.GetOr(old(e.stroke))
        && e.strokeWidth == params.strokeWidth.GetOr(old(e.strokeWidth))
      ensures forall e, p :: e in old(edgeDefs) && e in IncidentOf(node) && p in EndsOf(e) ==>
        p.isActive == setActive
      ensures IncidentOf(node) == {} ==> edgeDefs == old(edgeDefs)
    {
      var edges, es := IncidentOf(node), edgeDefs;
      var parts0, parts1 := Without(es, edges), Within(es, edges);
      WithinElems(es, edges);
      Restyle(parts1, params, setActive, es, edges, node);
      edgeDefs := parts0 + parts1;
      PartitionElems(es, edges);
      PartitionOfNothing(es);
      assert IncidentOf(node) == edges;
    }

    /** The forEach of updateNodeEdge over `parts`, the edges of `es` that
        are in `s`: `params` is merged into each edge and both of its ends
        take `setActive`. */
    static method Restyle(parts: seq<PaintEdge>, params: EdgeStyle, setActive: bool,
      ghost es: seq<PaintEdge>, ghost s: set<PaintEdge>, ghost node: PaintNode?)
      requires parts == Within(es, s)
      requires forall e :: e in s ==> node in EndsOf(e)
      modifies Elems(parts)`stroke, Elems(parts)`strokeWidth, Ends(parts)`isActive
      ensures forall e :: e in es && e in s ==>
        && e.stroke == params.stroke.GetOr(old(e.stroke))
        && e.strokeWidth == params.strokeWidth.GetOr(old(e.strokeWidth))
      ensures forall e, p :: e in es && e in s && p in EndsOf(e) ==> p.isActive == setActive
    {
      IncidentPart(es, s, node);
      forall k | 0 <= k < |parts| ensures parts[k] in s && parts[k].boundNodes.Some? {
        assert parts[k] in Within(es, s);
      }
      RestyleEach(parts, params, setActive, Elems(parts));
      forall e | e in es && e in s ensures
        && e.stroke == params.stroke.GetOr(old(e.stroke))
        && e.strokeWidth == params.strokeWidth.GetOr(old(e.strokeWidth))
      {
        var k :| 0 <= k < |parts| && parts[k] == e;
      }
      forall e, p | e in es && e in s && p in EndsOf(e) ensures p.isActive == setActive {
        var k :| 0 <= k < |parts| && parts[k] == e;
      }
    }

    /** The loop of that forEach, edge by edge. */
    static method RestyleEach(parts: seq<PaintEdge>, params: EdgeStyle, setActive: bool, ghost s: set<PaintEdge>)
      requires forall k :: 0 <= k < |parts| ==> parts[k] in s && parts[k].boundNodes.Some?
      requires s <= Elems(parts)
      modifies s`stroke, s`strokeWidth, EndsIn(s)`isActive
      ensures forall k :: 0 <= k < |parts| ==>
        && parts[k].stroke == params.stroke.GetOr(old(parts[k].stroke))
        && parts[k].strokeWidth == params.strokeWidth.GetOr(old(parts[k].strokeWidth))
      ensures forall k, p :: 0 <= k < |parts| && p in EndsOf(parts[k]) ==> p.isActive == setActive
    {
      for i := 0 to |parts|
        invariant forall k :: 0 <= k < |parts| ==>
          && params.stroke.GetOr(parts[k].stroke) == params.stroke.GetOr(old(parts[k].stroke))
          && params.strokeWidth.GetOr(parts[k].strokeWidth) == params.strokeWidth.GetOr(old(parts[k].strokeWidth))
        invariant forall k :: 0 <= k < i ==>
          && parts[k].stroke == params.stroke.GetOr(old(parts[k].stroke))
          && parts[k].strokeWidth == params.strokeWidth.GetOr(old(parts[k].strokeWidth))
        invariant forall k, p :: 0 <= k < i && p in EndsOf(parts[k]) ==> p.isActive == setActive
      {
        var edge := parts[i];
        EndsOfIn(edge, s);
        RestyleOne(edge, params, setActive);
      }
    }

    /** One step of that forEach. */
    static method RestyleOne(edge: PaintEdge, params: EdgeStyle, setActive: bool)
      requires edge.boundNodes.Some?
      modifies edge`stroke, edge`strokeWidth, EndsOf(edge)`isActive
      ensures edge.stroke == params.stroke.GetOr(old(edge.stroke))
      ensures edge.strokeWidth == params.strokeWidth.GetOr(old(edge.strokeWidth))
      ensures forall p :: p in EndsOf(edge) ==> p.isActive == setActive
    {
      edge.stroke := params.stroke.GetOr(edge.stroke);
      edge.strokeWidth := params.strokeWidth.GetOr(edge.strokeWidth);
      var (nodeA, nodeB) := edge.boundNodes.value;
      nodeA.isActive := setActive;
      nodeB.isActive := setActive;
    }

    /** onTouchNode: hover the node and show it active, unless it is the
        chosen node or is active already. */
    method OnTouchNode(node: PaintNode)
      modifies this`nodeHover, node`isActive
      ensures nodeHover == node
      ensures node.isActive == (old(node.isActive) || old(nodeChosen) != node)
    {
      nodeHover := node;
      if nodeChosen == node || node.isActive {
        return;
      }
      node.isActive := true;
    }

    /** isNodeBundling: whether `node` is an endpoint of an edge incident to
        the chosen node. None stands for the TypeError of
        `Array.from(undefined)` when the chosen node has no entry in the
        index (a chosen node left over from before a rebuild). */
    function IsNodeBundling(node: PaintNode): (r: Option<bool>)
      reads this
      ensures r.None? <==> nodeChosen != null && nodeChosen !in nodeEdgeMap
      ensures r == Some(true) <==>
        && nodeChosen != null
        && exists e :: e in IncidentOf(nodeChosen) && e.boundNodes.Some? &&
             (e.boundNodes.value.0 == node || e.boundNodes.value.1 == node)
    {
      if nodeChosen == null then Some(false)
      else if nodeChosen !in nodeEdgeMap then None
      else Some(exists e :: e in nodeEdgeMap[nodeChosen] && node in EndsOf(e))
    }

    /** A chosen node with incident real edges is bundled with itself: it is
        an endpoint of each of its edges. */
    lemma ChosenIsBundled()
      requires Valid() && nodeChosen != null && IncidentOf(nodeChosen) != {}
      ensures IsNodeBundling(nodeChosen) == Some(true)
    {
      var e :| e in IncidentOf(nodeChosen);
      assert nodeChosen in EndsOf(e);
    }

    /** onLeaveNode: clear the hover and hide the node unless it is bundled
        with the chosen node. `thrown` reports the TypeError of
        isNodeBundling, which leaves the node as it was. */
    method OnLeaveNode(node: PaintNode) returns (thrown: bool)
      modifies this`nodeHover, node`isActive
      ensures nodeHover == null
      ensures thrown <==> IsNodeBundling(node).None?
      ensures node.isActive == if IsNodeBundling(node) == Some(false) then false else old(node.isActive)
    {
      nodeHover := null;
      var bundling := IsNodeBundling(node);
      if bundling.None? {
        return true;
      }
      if bundling.value {
        return false;
      }
      node.isActive := false;
      thrown := false;
    }

    /** onNodeBlur: for a node, restore its incident edges to the background
        style and clear their endpoints' `isActive`; for null, nothing. */
    method OnNodeBlur(node: PaintNode?)
      requires Valid()
      modifies this`edgeDefs
      modifies Restyled(edgeDefs, IncidentOf(node))`stroke, Restyled(edgeDefs, IncidentOf(node))`strokeWidth
      modifies EndsIn(Restyled(edgeDefs, IncidentOf(node)))`isActive
      modifies {node}`radius, {node}`angle, {node}`fill, {node}`labelText, {node}`isActive
      ensures edgeDefs == Partition(old(edgeDefs), IncidentOf(node))
      ensures forall e :: e in old(edgeDefs) && e in IncidentOf(node) ==>
        e.stroke == BgLineColor && e.strokeWidth == BgLineWeight
      ensures forall e, p :: e in old(edgeDefs) && e in IncidentOf(node) && p in EndsOf(e) ==> !p.isActive
      ensures node != null ==> SameLook(node)
      ensures node != null && node !in EndsIn(IncidentOf(node)) ==> node.isActive == old(node.isActive)
      ensures node == null ==> edgeDefs == old(edgeDefs)
      ensures forall e :: e in edgeDefs <==> e in old(edgeDefs)
      ensures old(IndexInDefs()) ==> IndexInDefs()
    {
      if node == null {
        PartitionOfNothing(edgeDefs);
        return;
      }
      var _ := UpdateNode(node, EmptyPatch);
      UpdateNodeEdge(node, BgStyle, false);
    }

    /** onClickNode: a node without incident real edges is ignored; otherwise
        a different chosen node is blurred first, the node becomes chosen,
        its incident edges take the active style, their endpoints become
        active, and the node's source is emitted once. */
    method OnClickNode(node: PaintNode)
      requires Valid()
      modifies this`nodeChosen, this`edgeDefs, this`emitted
      modifies Restyled(edgeDefs, IncidentOf(node))`stroke, Restyled(edgeDefs, IncidentOf(node))`strokeWidth
      modifies EndsIn(Restyled(edgeDefs, IncidentOf(node)))`isActive
      modifies Restyled(edgeDefs, IncidentOf(nodeChosen))`stroke, Restyled(edgeDefs, IncidentOf(nodeChosen))`strokeWidth
      modifies EndsIn(Restyled(edgeDefs, IncidentOf(nodeChosen)))`isActive
      modifies {nodeChosen}`radius, {nodeChosen}`angle, {nodeChosen}`fill, {nodeChosen}`labelText, {nodeChosen}`isActive
      ensures old(IncidentOf(node)) == {} ==>
        && nodeChosen == old(nodeChosen) && edgeDefs == old(edgeDefs) && emitted == old(emitted)
        && unchanged(old(IncidentOf(nodeChosen))) && unchanged(old(EndsIn(IncidentOf(nodeChosen))))
        && (old(nodeChosen) != null ==> unchanged(old(nodeChosen)))
      ensures old(IncidentOf(node)) != {} ==>
        var blurred := if old(nodeChosen) != node then old(IncidentOf(nodeChosen)) else {};
        && nodeChosen == node
        && emitted == old(emitted) + [node.nodeSource]
        && edgeDefs == Partition(Partition(old(edgeDefs), blurred), old(IncidentOf(node)))
        && (forall e :: e in old(edgeDefs) && e in old(IncidentOf(node)) ==>
              e.stroke == ActiveLineColor && e.strokeWidth == ActiveLineWeight)
        && (forall e :: e in old(edgeDefs) && e in blurred && e !in old(IncidentOf(node)) ==>
              e.stroke == BgLineColor && e.strokeWidth == BgLineWeight)
        && (forall e, p :: e in old(edgeDefs) && e in old(IncidentOf(node)) && p in EndsOf(e) ==> p.isActive)
        && (forall e, p :: e in old(edgeDefs) && e in blurred && p in EndsOf(e) && p !in old(EndsIn(IncidentOf(node))) ==>
              !p.isActive)
        && (old(nodeChosen) != null ==> SameLook(old(nodeChosen)))
      ensures old(IndexInDefs()) ==> IndexInDefs()
    {
      if IncidentOf(node) == {} {
        return;
      }
      Select(node);
    }

    /** The part of onClickNode after its guard. */
    method Select(node: PaintNode)
      requires Valid()
      modifies this`nodeChosen, this`edgeDefs, this`emitted
      modifies Restyled(edgeDefs, IncidentOf(node))`stroke, Restyled(edgeDefs, IncidentOf(node))`strokeWidth
      modifies EndsIn(Restyled(edgeDefs, IncidentOf(node)))`isActive
      modifies Restyled(edgeDefs, IncidentOf(nodeChosen))`stroke, Restyled(edgeDefs, IncidentOf(nodeChosen))`strokeWidth
      modifies EndsIn(Restyled(edgeDefs, IncidentOf(nodeChosen)))`isActive
      modifies {nodeChosen}`radius, {nodeChosen}`angle, {nodeChosen}`fill, {nodeChosen}`labelText, {nodeChosen}`isActive
      ensures
        var blurred := if old(nodeChosen) != node then old(IncidentOf(nodeChosen)) else {};
        && nodeChosen == node
        && emitted == old(emitted) + [node.nodeSource]
        && edgeDefs == Partition(Partition(old(edgeDefs), blurred), old(IncidentOf(node)))
        && (forall e :: e in old(edgeDefs) && e in old(IncidentOf(node)) ==>
              e.stroke == ActiveLineColor && e.strokeWidth == ActiveLineWeight)
        && (forall e :: e in old(edgeDefs) && e in blurred && e !in old(IncidentOf(node)) ==>
              e.stroke == BgLineColor && e.strokeWidth == BgLineWeight)
        && (forall e, p :: e in old(edgeDefs) && e in old(IncidentOf(node)) && p in EndsOf(e) ==> p.isActive)
        && (forall e, p :: e in old(edgeDefs) && e in blurred && p in EndsOf(e) && p !in old(EndsIn(IncidentOf(node))) ==>
              !p.isActive)
        && (old(nodeChosen) != null ==> SameLook(old(nodeChosen)))
      ensures forall e :: e in edgeDefs <==> e in old(edgeDefs)
    {
      ghost var es0, chosen := edgeDefs, IncidentOf(node);
      ghost var blurred := BlurOther(node);
      assert IncidentOf(node) == chosen;
      assert Restyled(edgeDefs, chosen) == Restyled(es0, chosen);
      Activate(node, es0, blurred);
      assert IncidentOf(node) == chosen;
    }

    /** The first half of onClickNode: blur the chosen node when it is not
        `node`. The edges of the blurred node are background-styled and
        their endpoints inactive; no edge leaves `edgeDefs`. */
    method BlurOther(node: PaintNode) returns (ghost blurred: set<PaintEdge>)
      requires Valid()
      modifies this`edgeDefs
      modifies Restyled(edgeDefs, IncidentOf(nodeChosen))`stroke, Restyled(edgeDefs, IncidentOf(nodeChosen))`strokeWidth
      modifies EndsIn(Restyled(edgeDefs, IncidentOf(nodeChosen)))`isActive
      modifies {nodeChosen}`radius, {nodeChosen}`angle, {nodeChosen}`fill, {nodeChosen}`labelText, {nodeChosen}`isActive
      ensures blurred == if nodeChosen != node then IncidentOf(nodeChosen) else {}
      ensures edgeDefs == Partition(old(edgeDefs), blurred)
      ensures forall e :: e in edgeDefs <==> e in old(edgeDefs)
      ensures forall e :: e in old(edgeDefs) && e in blurred ==>
        e.stroke == BgLineColor && e.strokeWidth == BgLineWeight
      ensures forall e, p :: e in old(edgeDefs) && e in blurred && p in EndsOf(e) ==> !p.isActive
      ensures nodeChosen != null ==> SameLook(nodeChosen)
    {
      ghost var es0 := edgeDefs;
      if nodeChosen != node {
        blurred := IncidentOf(nodeChosen);
        OnNodeBlur(nodeChosen);
      } else {
        blurred := {};
        PartitionOfNothing(es0);
      }
    }

    /** The second half of onClickNode: choose `node`, paint its edges and
        their endpoints active and emit its source node. Edges of `es` that
        were background-styled and are not incident to `node` stay so. */
    method Activate(node: PaintNode, ghost es: seq<PaintEdge>, ghost blurred: set<PaintEdge>)
      requires Valid()
      requires forall e :: e in es ==> e in edgeDefs
      requires forall e :: e in es && e in blurred ==> e.stroke == BgLineColor && e.strokeWidth == BgLineWeight
      requires forall e, p :: e in es && e in blurred && p in EndsOf(e) ==> !p.isActive
      modifies this`nodeChosen, this`edgeDefs, this`emitted
      modifies Restyled(edgeDefs, IncidentOf(node))`stroke, Restyled(edgeDefs, IncidentOf(node))`strokeWidth
      modifies EndsIn(Restyled(edgeDefs, IncidentOf(node)))`isActive
      ensures nodeChosen == node && emitted == old(emitted) + [node.nodeSource]
      ensures edgeDefs == Partition(old(edgeDefs), IncidentOf(node))
      ensures forall e :: e in edgeDefs <==> e in old(edgeDefs)
      ensures forall e :: e in es && e in IncidentOf(node) ==>
        e.stroke == ActiveLineColor && e.strokeWidth == ActiveLineWeight
      ensures forall e, p :: e in es && e in IncidentOf(node) && p in EndsOf(e) ==> p.isActive
      ensures forall e :: e in es && e in blurred && e !in IncidentOf(node) ==>
        e.stroke == BgLineColor && e.strokeWidth == BgLineWeight
      ensures forall e, p :: e in es && e in blurred && p in EndsOf(e) && p !in EndsIn(IncidentOf(node)) ==>
        !p.isActive
    {
      ghost var chosen := IncidentOf(node);
      label Before:
      nodeChosen := node;
      assert IncidentOf(node) == chosen;
      UpdateNodeEdge(node, ActiveStyle, true);
      forall e | e in es && e in chosen
        ensures e.stroke == ActiveLineColor && e.strokeWidth == ActiveLineWeight
      {
        assert e in old@Before(edgeDefs);
      }
      forall e, p | e in es && e in chosen && p in EndsOf(e)
        ensures p.isActive
      {
        assert e in old@Before(edgeDefs);
      }
      emitted := emitted + [node.nodeSource];
    }

    /** The outside-click subscription of ngOnInit: blur the chosen node, if
        any, and clear the choice. */
    method OnOutsideClick()
      requires Valid()
      modifies this`nodeChosen, this`edgeDefs
      modifies Restyled(edgeDefs, IncidentOf(nodeChosen))`stroke, Restyled(edgeDefs, IncidentOf(nodeChosen))`strokeWidth
      modifies EndsIn(Restyled(edgeDefs, IncidentOf(nodeChosen)))`isActive
      modifies {nodeChosen}`radius, {nodeChosen}`angle, {nodeChosen}`fill, {nodeChosen}`labelText, {nodeChosen}`isActive
      ensures nodeChosen == null
      ensures edgeDefs == Partition(old(edgeDefs), old(IncidentOf(nodeChosen)))
      ensures forall e :: e in old(edgeDefs) && e in old(IncidentOf(nodeChosen)) ==>
        e.stroke == BgLineColor && e.strokeWidth == BgLineWeight
      ensures forall e, p :: e in old(edgeDefs) && e in old(IncidentOf(nodeChosen)) && p in EndsOf(e) ==> !p.isActive
      ensures old(nodeChosen) != null ==> SameLook(old(nodeChosen))
      ensures old(nodeChosen) == null ==> edgeDefs == old(edgeDefs)
      ensures old(IndexInDefs()) ==> IndexInDefs()
    {
      if nodeChosen != null {
        OnNodeBlur(nodeChosen);
      } else {
        PartitionOfNothing(edgeDefs);
      }
      nodeChosen := null;
    }
  }
}
