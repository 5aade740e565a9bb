# Edge bundling: a verified Dafny model

This project models the core of an Angular edge-bundling diagram. The diagram places a graph's nodes on an ellipse and draws every pair of them as a quadratic Bézier curve. Real edges are drawn over a mesh of grey background edges. Clicking a node highlights its real edges.

The model covers two source files:

- `util.ts` holds the pure helpers, modelled in the `Util` module:
  - removeRedundantEdge: a first-occurrence-wins dedup over unordered endpoint pairs;
  - getNodeFillColor: a five-tier severity classifier;
  - getEdgePath: the SVG path string of a quadratic curve.
- `component.ts` holds `EdgeBundlingComponent`, modelled as a Dafny class in the `EdgeBundling` module. It has two halves:
  - The layout builder patches the input with background edges, scores and paints the nodes, and draws the deduplicated edges. While drawing, it fills the index from paint node to incident real paint edges (`nodeEdgeMap`).
  - The interaction state machine restyles paint edges and paint nodes in place on hover, click, blur and outside click. It works over `nodeChosen`, `nodeHover`, `edgeDefs` and the `isActive` flags.

Modules:

- `Wrappers`: `Option`. It stands for a JavaScript reference that may be `null`/`undefined`.
- `Types`: the shapes of `type.ts`.
  - `Edge`, `Point`, `Size` and `QuadraticEdgeModel` are datatypes.
  - The objects the component mutates and compares by identity are classes: `Node`, `PaintNode` and `PaintEdge`.
  - A field is `var` when some method of the component may write it, even if no caller in the component does. updateNode may write `radius`, `angle`, `fill`, `labelText` and `isActive`, although its only caller passes an empty patch.
  - A field is `const` when nothing in the model writes it: `Node.id`, `Node.labelText`, `PaintNode.nodeSource`, `PaintEdge.path` and `PaintEdge.boundNodes`.
  - `PaintNode.center` is also `const`, although updateNode could write it (see "Left out").
- `Util`: `util.ts`, as functions and lemmas.
- `Layout`: reference functions that say what the layout methods compute: `Patched`, `Degree`/`Score`, `Drawable`, `SourceNode`/`TargetNode`. The lemmas about the patched, scored and drawn edge lists are proved here. The lemmas about the drawing state, the index and the reordering of `edgeDefs` are in `EdgeBundling`: `DrawingFacts`, `IndexStep` and the `Partition` lemmas.
- `EdgeBundling`: the component class and its methods. The `forEach` loops, the nested loops of patchNodeEdge, the `+=` loop of renderNode and the `map` callbacks of renderNode and renderEdge are `for` loops with invariants; the `map`, `filter`, `some` and `reduce` calls that only compute a value are functions. The ghost predicate `IndexInDefs` says that every edge in the index is in `edgeDefs`: ngOnChanges establishes it and the handlers preserve it, so the handlers' frames cover only edges of `edgeDefs` and their ends. Each layout method is proved against the `Layout` functions. updateNodeEdge and the handlers that call it are proved against `Partition`, the stable split that updateNodeEdge performs. updateNode, onTouchNode, onLeaveNode and isNodeBundling state their new state, or their result, directly over the old state.

Some of the source's behaviour is captured as written:

- The directed `some` check in patchNodeEdge adds a background `B→A` next to a real `A→B`. The dedup then drops that edge, because the real edge comes first (`Layout.NormalisedIsMesh`).
- renderNode counts edges over the patched list before dedup. A duplicate or reversed input edge therefore raises a node's score (`Layout.DegreeOfPatched`).
- The `else if` in renderEdge's lookup never resolves the target of a self-loop, so self-loops are never drawn (`Layout.ResolvesIff`).
- ngOnChanges writes the patched list back into the model object. A second ngOnChanges on the same object patches that list again. The second pass appends nothing and turns every edge real, so the whole background mesh becomes real and clickable (`Layout.RepatchMakesAllReal`).
- isNodeBundling throws a `TypeError` when the chosen node has no entry in the index. This happens with a node chosen before a rebuild. The model returns `None` there, and onLeaveNode reports it as `thrown`.

## Model

| member | source | states |
|---|---|---|
| Util.RemoveRedundantEdge | src/app/edge-bundling/util.ts:7-20 | the definition is the `reduce`, as a left fold that appends an edge unless the accumulator already joins its pair; the result is never longer than the input and always keeps the first edge |
| Util.RemoveRedundantEdgeKeepsPairs | src/app/edge-bundling/util.ts:7-20 | the result joins an unordered pair iff the input does (both directions of the `some` test over the accumulator) |
| Util.RemoveRedundantEdgeIsFirstOccurrences | src/app/edge-bundling/util.ts:8-19 | the result is the subsequence of the input at strictly increasing indices, and those indices are exactly the edges that are first to join their pair, whatever their `isBgLine` |
| Util.RemoveRedundantEdgeUnique | src/app/edge-bundling/util.ts:9-15 | no two result edges join the same unordered pair; (a,b) and (b,a) count as one |
| Util.RemoveRedundantEdgeCovers | src/app/edge-bundling/util.ts:10-18 | every input edge's pair is joined by some result edge |
| Util.RemoveRedundantEdgeOfUnique | src/app/edge-bundling/util.ts:7-20 | a list whose pairs are already unique comes back unchanged |
| Util.RemoveRedundantEdgeIdempotent | src/app/edge-bundling/util.ts:7-20 | deduplicating the result again returns it unchanged |
| Util.NodeFillColor | src/app/edge-bundling/util.ts:79-90 | each tier holds iff the value lies in its range under JavaScript truthiness and `<`: falsy (undefined, NaN, 0) is ALL_HEALTH; other values below 20, negatives and -Infinity included, are LOW; [20,50) is MID; [50,70) is HIGH; the rest, +Infinity included, is EXTRA |
| Util.NodeFillColorMonotone | src/app/edge-bundling/util.ts:82-89 | for positive values the tier never decreases as the value grows, and is never ALL_HEALTH |
| Util.FillColorHexDistinct | src/app/edge-bundling/util.ts:71-77 | the five NODE_FILL_COLOR values are distinct colours, so a node's fill tells its tier |
| Util.EdgePath | src/app/edge-bundling/util.ts:3-5 | the definition is the template literal, the eight tokens joined by single spaces; the path opens with the move-to command `M ` |
| Util.EdgePathTokens | src/app/edge-bundling/util.ts:3-5 | when number formatting yields no spaces, splitting the path at spaces gives exactly `M sx sy Q cx cy tx ty`: source, then control point, then target |
| Layout.OthersMembers | src/app/edge-bundling/component.ts:100-101 | `filter((node) => node !== nodeA)` keeps exactly the other node objects, by identity |
| Layout.BackgroundMembers | src/app/edge-bundling/component.ts:99-109 | an edge is appended iff it is `A.id→B.id`, flagged background, for node objects A ≠ B whose directed edge the pre-patch copy lacks |
| Layout.PatchedShape | src/app/edge-bundling/component.ts:96-112 | the patched list starts with the input edges in order with the same ends and `isBgLine` false; every later edge is a background edge; the appended edges are exactly the missing ordered pairs |
| Layout.PatchedIsFullMesh | src/app/edge-bundling/component.ts:98-109 | after patching, every ordered pair of distinct node objects has a directed edge |
| Layout.NormalisedIsMesh | src/app/edge-bundling/component.ts:131-139 | for distinct node ids, dedup of the patched list joins each unordered pair exactly once; when the input joins the pair, the kept edge is the input's first edge for it, made real |
| Layout.RepatchMakesAllReal | src/app/edge-bundling/component.ts:84-86 | patching an already patched list (a second ngOnChanges on the same model object) appends no edge and leaves every edge real (src/app/edge-bundling/component.ts:97) |
| Layout.DegreeOfPatched | src/app/edge-bundling/component.ts:147-152 | over the patched list, the count of non-background edges touching an id equals the number of input edges touching it; background edges never count |
| Layout.LastWithId | src/app/edge-bundling/component.ts:182-188 | the lookup yields the LAST paint node with that id (no later one has it), and none only when no paint node has it |
| Layout.ResolvesIff | src/app/edge-bundling/component.ts:182-192 | an edge is drawn iff its ids differ and both occur among the paint nodes, so self-loops are dropped |
| Layout.DrawableMembers | src/app/edge-bundling/component.ts:177-210 | an edge survives the map-then-filter iff it is in the input and both ends resolve |
| Layout.DrawableLength | src/app/edge-bundling/component.ts:177-210 | drawing never adds edges, and keeps them all iff every edge resolves |
| EdgeBundling.FilterMembers | src/app/edge-bundling/component.ts:227-230 | an edge is in the incident part iff it is in `edgeDefs` and in the node's set, and in the other part iff it is in `edgeDefs` and not in the set |
| EdgeBundling.PartitionPermutes | src/app/edge-bundling/component.ts:227-238 | the new `edgeDefs` is a permutation (same multiset) of the old |
| EdgeBundling.WithinElems | src/app/edge-bundling/component.ts:227-230 | the incident part holds exactly the edges of `edgeDefs` in the node's entry, the set that updateNodeEdge may restyle |
| EdgeBundling.PartitionElems | src/app/edge-bundling/component.ts:238 | the new `edgeDefs` has the same edges and the same endpoints as the old |
| EdgeBundling.PartitionIdempotent | src/app/edge-bundling/component.ts:221-239 | reordering for the same node a second time leaves the order as it is |
| EdgeBundling.PartitionOfNothing | src/app/edge-bundling/component.ts:226-238 | with no incident edges, `edgeDefs` keeps its order |
| EdgeBundling.DrawingFacts | src/app/edge-bundling/component.ts:173-211 | after renderEdge, each paint edge is drawn from the surviving edge at its index, the paint edges are distinct, and an edge is in `p`'s entry iff it was there before or is a drawn edge with `p` as an endpoint |
| EdgeBundling.IndexStep | src/app/edge-bundling/component.ts:203-206 | adding a new real edge to both endpoints' entries keeps the index equal to the drawn edges' incidence |
| EdgeBundling.EdgeBundlingComponent.constructor | src/app/edge-bundling/component.ts:40-81 | the bound `data` model is stored; `outterSize` and `innerSize` take the sizes the host binds, and default to 600×600 and 390×390; the paint lists and the index start empty; there is no chosen or hovered node |
| EdgeBundling.EdgeBundlingComponent.NgOnChanges | src/app/edge-bundling/component.ts:83-89 | `rawEdges` is the input copy; `data.edges` is the patched list; one fresh paint node per input node, in order, at the placement of its index, with radius 5, the node's label, the fill colour of its score, and inactive; each node's value is its score; one fresh paint edge per drawable deduplicated edge; `edgeDefs` is the full drawing of the drawable deduplicated edges, all with the background stroke; the index has an entry for every paint node, holds only endpoints' edges, and every edge in it is in `edgeDefs`; `nodeChosen`, `nodeHover` and the emitted nodes are kept |
| EdgeBundling.EdgeBundlingComponent.Relayout | src/app/edge-bundling/component.ts:84-87 | `rawEdges` is the input copy, `data.edges` is the patched list, and `nodeDefs` holds one fresh paint node per input node, in order, painted from its placement and score |
| EdgeBundling.EdgeBundlingComponent.Redraw | src/app/edge-bundling/component.ts:88 | `edgeDefs` becomes the drawing of the current nodes with the background stroke, every paint edge is a new object, and the rebuilt index holds only edges of `edgeDefs` |
| EdgeBundling.EdgeBundlingComponent.PatchNodeEdge | src/app/edge-bundling/component.ts:96-112 | the nested loops build `Patched`: the input edges made real, then the background edges |
| EdgeBundling.EdgeBundlingComponent.PatchFrom | src/app/edge-bundling/component.ts:100-108 | the inner loop appends a background edge to each other node nodeA has no directed edge to, in order |
| EdgeBundling.EdgeBundlingComponent.RenderNode | src/app/edge-bundling/component.ts:141-170 | one fresh, distinct paint node per input node, in input order; each node's `value` becomes its score; the paint node keeps the node and label, has radius 5 and the fill colour of the score, and starts inactive |
| EdgeBundling.EdgeBundlingComponent.RenderOne | src/app/edge-bundling/component.ts:146-169 | one map step: the node's value is its score and the paint node is built from it |
| EdgeBundling.EdgeBundlingComponent.CountDegree | src/app/edge-bundling/component.ts:147-152 | the `+=` loop leaves the count of non-background edges touching the node times `100/n` |
| EdgeBundling.EdgeBundlingComponent.GetEdges | src/app/edge-bundling/component.ts:131-139 | the index is reset to an empty entry per paint node; the result is the drawing of the deduplicated edges, all with the background stroke; every entry holds only edges with that node as an endpoint, and only edges of the result; every paint edge is a new object |
| EdgeBundling.EdgeBundlingComponent.RenderEdge | src/app/edge-bundling/component.ts:173-211 | the result is the drawing of exactly the resolvable edges in input order, all new objects with the background stroke; the index gains exactly the real ones, under both endpoints |
| EdgeBundling.EdgeBundlingComponent.DrawAll | src/app/edge-bundling/component.ts:177-210 | the map-then-filter loop keeps the drawing state and the background style invariant, and every paint edge it collects is a new object |
| EdgeBundling.EdgeBundlingComponent.DrawNext | src/app/edge-bundling/component.ts:178-210 | one turn of the map-then-filter extends the drawing state by `data[i]`, keeps the background style, and adds only new paint edges |
| EdgeBundling.EdgeBundlingComponent.DrawStep | src/app/edge-bundling/component.ts:178-209 | an edge yields a fresh paint edge iff both ends resolve, and it extends the drawing state |
| EdgeBundling.EdgeBundlingComponent.DrawEdge | src/app/edge-bundling/component.ts:193-202 | the path runs from the source centre to the target centre through the canvas centre; the stroke is the background one; `boundNodes` is null iff `isBgLine` |
| EdgeBundling.EdgeBundlingComponent.ResolveEnds | src/app/edge-bundling/component.ts:179-188 | the lookup loop finds the last paint node with the source id, and the last other one with the target id |
| EdgeBundling.EdgeBundlingComponent.AddToIndex | src/app/edge-bundling/component.ts:203-206 | a real edge is added to both endpoints' entries, a background edge to none |
| EdgeBundling.EdgeBundlingComponent.UpdateNode | src/app/edge-bundling/component.ts:213-219 | each field present in the patch is copied, the others are kept, `nodeSource` is never replaced, and an empty patch changes nothing |
| EdgeBundling.EdgeBundlingComponent.UpdateNodeEdge | src/app/edge-bundling/component.ts:221-239 | `edgeDefs` becomes the stable partition (other edges, then the node's edges); only the incident edges take the style, and both ends of each take `setActive`; with no entry, `edgeDefs` is unchanged; `edgeDefs` keeps the same edges; only the edges of `edgeDefs` in the node's entry and their ends may be written |
| EdgeBundling.EdgeBundlingComponent.Restyle | src/app/edge-bundling/component.ts:231-236 | every incident edge of `edgeDefs` takes the given stroke fields, and both ends of each take `setActive`; only those edges and their ends may be written |
| EdgeBundling.EdgeBundlingComponent.RestyleEach | src/app/edge-bundling/component.ts:231-236 | the forEach loop: every edge of the list takes the given stroke fields, and both ends of each take `setActive`; only the listed edges and their ends may be written |
| EdgeBundling.EdgeBundlingComponent.RestyleOne | src/app/edge-bundling/component.ts:232-235 | one forEach step: the edge takes each stroke field present in the style, and both its ends take `setActive` |
| EdgeBundling.EdgeBundlingComponent.OnTouchNode | src/app/edge-bundling/component.ts:245-252 | hover is set; the node becomes active unless it is the chosen node, and an active node stays active |
| EdgeBundling.EdgeBundlingComponent.IsNodeBundling | src/app/edge-bundling/component.ts:263-272 | false without a chosen node; a TypeError iff the chosen node has no entry; otherwise true iff the node is an endpoint of one of the chosen node's edges |
| EdgeBundling.EdgeBundlingComponent.ChosenIsBundled | src/app/edge-bundling/component.ts:263-272 | a chosen node with edges is bundled with itself |
| EdgeBundling.EdgeBundlingComponent.OnLeaveNode | src/app/edge-bundling/component.ts:254-261 | hover is cleared; the node becomes inactive iff it is not bundled; the thrown case leaves it as it was |
| EdgeBundling.EdgeBundlingComponent.OnNodeBlur | src/app/edge-bundling/component.ts:293-306 | null is a no-op and leaves `edgeDefs` as it was; otherwise the node's incident edges take the background stroke and move to the end, their endpoints become inactive, and the node's own look is unchanged; `edgeDefs` keeps the same edges, only those edges and their ends may be written, and the index stays within `edgeDefs` |
| EdgeBundling.EdgeBundlingComponent.OnClickNode | src/app/edge-bundling/component.ts:274-291 | a node without incident real edges changes nothing and emits nothing; otherwise a different chosen node is blurred first, the node is chosen, its edges take the active stroke and move last, their ends become active, the blurred edges that are not the node's keep the background stroke, and `node.nodeSource` is emitted exactly once; only edges of `edgeDefs` in the two nodes' entries and their ends may be written, and the index stays within `edgeDefs` |
| EdgeBundling.EdgeBundlingComponent.Select | src/app/edge-bundling/component.ts:278-290 | the part of onClickNode after the guard, with the same promises about the edges, their ends, the frame and the emitted source; `edgeDefs` keeps the same edges |
| EdgeBundling.EdgeBundlingComponent.BlurOther | src/app/edge-bundling/component.ts:278-280 | a different chosen node is blurred, `edgeDefs` keeps the same edges, and only the blurred edges of `edgeDefs` and their ends may be written |
| EdgeBundling.EdgeBundlingComponent.Activate | src/app/edge-bundling/component.ts:281-290 | the node is chosen, its edges take the active stroke and their ends become active, and its source is emitted; `edgeDefs` keeps the same edges, and only the node's edges of `edgeDefs` and their ends may be written |
| EdgeBundling.EdgeBundlingComponent.OnOutsideClick | src/app/edge-bundling/component.ts:117-124 | the chosen node, if any, is blurred, and `nodeChosen` becomes null; with no chosen node, `edgeDefs` is unchanged; only the chosen node's edges of `edgeDefs` and their ends may be written, and the index stays within `edgeDefs` |

## Left out

- calculateEllipseNodePosition and getRotate are floating-point trigonometry. A node's centre and angle come from a `placement` parameter indexed by node position.
- The IEEE rounding of `100 / n` and of its repeated `+=` is not modelled. Scores are exact reals.
- getEdgePath's number-to-string conversion is JavaScript's. It is a `show` parameter; the path lemma assumes only that it yields no spaces.
- The DOM and RxJS plumbing is not modelled: `fromEvent`, `getElementById`, the `classList` test on the click target, `takeUntil`, `destroy$` and ngOnDestroy. OnOutsideClick is the state effect of a click whose target is not a node.
- `EventEmitter.next` becomes an append to the ghost sequence `emitted`.
- The `data?.`, `edges?.` and `data?.nodes` guards for an absent model are not modelled. The model always holds a node list and an edge list.
- labelOffset, noEdgeTip and the template, styles and Angular wiring are not modelled. app.component.ts (a random demo-data generator) and app.module.ts are not part of this model.
- getNodeFillColor takes a JavaScript number, modelled as `Undefined | NaN | ±Infinity | Finite(real)`. renderNode only passes finite values.
- EdgeBundling.EdgeBundlingComponent.constructor: the host's `@Input()` bindings (`data`, `outterSize`, `innerSize`) are taken once, as constructor arguments. `outterSize` and `innerSize` are `const`, so a host that rebinds a size later is not modelled. `innerSize` is read only by calculateEllipseNodePosition, which the `placement` parameter stands for.
- EdgeBundling.EdgeBundlingComponent.UpdateNode: `center` is a `const`, so a patch cannot move a node. No caller in the core passes one.
- EdgeBundling.EdgeBundlingComponent.UpdateNodeEdge: the style argument carries only `stroke` and `strokeWidth`, the fields every caller passes. `path` is a `const`, which is how "every path is untouched" is stated. The permutation of `edgeDefs` is stated by the lemmas PartitionPermutes and PartitionElems, not in the method's contract.
- EdgeBundling.EdgeBundlingComponent.RenderEdge: the index is built in a local map and assigned once. The source adds to the live `Map` entry by entry; the final state is the same.
