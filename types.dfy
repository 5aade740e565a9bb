/** The shapes of src/app/edge-bundling/type.ts. Plain records become
    datatypes; the objects the component mutates and compares by identity
    (the caller's nodes, the paint nodes, the paint edges) become classes. */
module Types {
  import opened Wrappers

  /** A point of the drawing, `[x, y]` in the source. */
  datatype Point = Point(x: real, y: real)

  /** `{width, height}` of the canvas or of the ellipse. */
  datatype Size = Size(width: real, height: real)

  /** An edge of the input model: the ids of its two endpoints and whether it
      is a synthetic background edge. Edges are copied, never mutated. */
  datatype Edge = Edge(source: string, target: string, isBgLine: bool)

  /** The three points of a quadratic Bezier curve. */
  datatype QuadraticEdgeModel = QuadraticEdgeModel(source: Point, cp: Point, target: Point)

  /** A node of the input model. The layout recomputes `value` in place, so
      the node is an object; `id` and `label` (here `labelText`, since `label` is a Dafny keyword) are never written. */
  class Node {
    const id: string
    const labelText: string
    var value: real

    constructor (id: string, labelText: string, value: real)
      ensures this.id == id && this.labelText == labelText && this.value == value
    {
      this.id := id;
      this.labelText := labelText;
      this.value := value;
    }
  }

  /** The five fill colours of a node, from healthy to most severe. */
  datatype FillColor = AllHealth | LowSeverity | MidSeverity | HighSeverity | ExtraSeverity {

    /** The colour's CSS value. */
    function Hex(): string {
      match this
      case AllHealth => "#85DFAD"
      case LowSeverity => "#ffa59f"
      case MidSeverity => "#ff584c"
      case HighSeverity => "#d42d3d"
      case ExtraSeverity => "#a8002d"
    }
  }

  /** A node as drawn. `nodeSource` is the caller's node, shared by reference
      and never replaced; the other fields are the drawing's state. An absent
      `isActive` of the source reads as false. */
  class PaintNode {
    const center: Point
    var radius: int
    const nodeSource: Node
    var angle: real
    var fill: FillColor
    var labelText: string
    var isActive: bool

    constructor (center: Point, radius: int, nodeSource: Node, angle: real, fill: FillColor, labelText: string)
      ensures this.center == center && this.radius == radius && this.nodeSource == nodeSource
      ensures this.angle == angle && this.fill == fill && this.labelText == labelText && !isActive
    {
      this.center := center;
      this.radius := radius;
      this.nodeSource := nodeSource;
      this.angle := angle;
      this.fill := fill;
      this.labelText := labelText;
      this.isActive := false;
    }
  }

  /** An edge as drawn: its SVG path, its stroke, and, for a real edge, the
      two paint nodes it joins (None for a background edge). */
  class PaintEdge {
    const path: string
    var stroke: string
    var strokeWidth: int
    const boundNodes: Option<(PaintNode, PaintNode)>

    constructor (path: string, stroke: string, strokeWidth: int, boundNodes: Option<(PaintNode, PaintNode)>)
      ensures this.path == path && this.stroke == stroke && this.strokeWidth == strokeWidth
      ensures this.boundNodes == boundNodes
    {
      this.path := path;
      this.stroke := stroke;
      this.strokeWidth := strokeWidth;
      this.boundNodes := boundNodes;
    }
  }
}
