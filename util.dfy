/** src/app/edge-bundling/util.ts: the edge-set deduplication, the fill-colour
    classifier and the SVG path of an edge. All three are pure. */
module Util {
  import opened Types

  // ---------------------------------------------------------------------
  // removeRedundantEdge
  // ---------------------------------------------------------------------

  /** Two edges join the same unordered pair of ids, in either direction. */
  predicate SamePair(a: Edge, b: Edge) {
    (a.source == b.source && a.target == b.target) ||
    (a.source == b.target && a.target == b.source)
  }

  /** Some edge of `s` joins the same unordered pair as `e` (`acc.some(...)`). */
  predicate HasPair(s: seq<Edge>, e: Edge) {
    exists k :: 0 <= k < |s| && SamePair(s[k], e)
  }

  /** The `reduce` of removeRedundantEdge: scanning left to right, an edge is
      appended unless the accumulator already joins its pair. The list never
      grows, and its first edge is always kept. */
  function RemoveRedundantEdge(edges: seq<Edge>): (r: seq<Edge>)
    ensures |r| <= |edges|
    ensures edges != [] ==> r != [] && r[0] == edges[0]
    decreases |edges|
  {
    if edges == [] then []
    else
      var acc := RemoveRedundantEdge(edges[..|edges| - 1]);
      var curr := edges[|edges| - 1];
      if HasPair(acc, curr) then acc else acc + [curr]
  }

  /** No two edges of `s` join the same unordered pair. */
  ghost predicate PairsUnique(s: seq<Edge>) {
    forall k, l :: 0 <= k < l < |s| ==> !SamePair(s[k], s[l])
  }

  /** Edge `i` is the first of `s` to join its unordered pair. */
  ghost predicate IsFirst(s: seq<Edge>, i: int)
    requires 0 <= i < |s|
  {
    forall j :: 0 <= j < i ==> !SamePair(s[j], s[i])
  }

  /** The indices, in increasing order, of the edges of `s` that are first to
      join their pair: the reference against which the reduce is checked. */
  ghost function FirstIndices(s: seq<Edge>): seq<int>
    decreases |s|
  {
    if s == [] then []
    else FirstIndices(s[..|s| - 1]) + (if IsFirst(s, |s| - 1) then [|s| - 1] else [])
  }

  /** SamePair is an equivalence on edges. */
  lemma SamePairEquivalence(a: Edge, b: Edge, c: Edge)
    ensures SamePair(a, a)
    ensures SamePair(a, b) ==> SamePair(b, a)
    ensures SamePair(a, b) && SamePair(b, c) ==> SamePair(a, c)
  {
  }

  /** The accumulator joins exactly the pairs the scanned edges join. */
  lemma {:induction false} RemoveRedundantEdgeKeepsPairs(s: seq<Edge>, e: Edge)
    ensures HasPair(RemoveRedundantEdge(s), e) <==> HasPair(s, e)
    decreases |s|
  {
    if s != [] {
      var p, c := s[..|s| - 1], s[|s| - 1];
      var acc := RemoveRedundantEdge(p);
      var r := RemoveRedundantEdge(s);
      assert r == if HasPair(acc, c) then acc else acc + [c];
      assert forall k :: 0 <= k < |acc| ==> r[k] == acc[k];
      RemoveRedundantEdgeKeepsPairs(p, e);
      RemoveRedundantEdgeKeepsPairs(p, c);
      if HasPair(s, e) {
        var k :| 0 <= k < |s| && SamePair(s[k], e);
        if k < |s| - 1 {
          assert SamePair(p[k], e);
          var d :| 0 <= d < |acc| && SamePair(acc[d], e);
          assert SamePair(r[d], e);
        } else if HasPair(acc, c) {
          var d :| 0 <= d < |acc| && SamePair(acc[d], c);
          SamePairEquivalence(acc[d], c, e);
          assert SamePair(r[d], e);
        } else {
          assert SamePair(r[|acc|], e);
        }
      }
      if HasPair(r, e) {
        var k :| 0 <= k < |r| && SamePair(r[k], e);
        if k < |acc| {
          assert SamePair(acc[k], e);
          var j :| 0 <= j < |p| && SamePair(p[j], e);
          assert SamePair(s[j], e);
        } else {
          assert SamePair(s[|s| - 1], e);
        }
      }
    }
  }

  /** Extending a list keeps the first-occurrence status of its prefix. */
  lemma IsFirstOfPrefix(s: seq<Edge>)
    requires s != []
    ensures forall i :: 0 <= i < |s| - 1 ==> (IsFirst(s[..|s| - 1], i) <==> IsFirst(s, i))
  {
    var p := s[..|s| - 1];
    forall i | 0 <= i < |p| ensures IsFirst(p, i) <==> IsFirst(s, i) {
      assert forall j :: 0 <= j <= i ==> p[j] == s[j];
    }
  }

  /** FirstIndices lists, in increasing order, exactly the indices whose
      edge is the first to join its pair. */
  lemma {:induction false} FirstIndicesShape(s: seq<Edge>)
    ensures forall k :: 0 <= k < |FirstIndices(s)| ==> 0 <= FirstIndices(s)[k] < |s|
    ensures forall k, l :: 0 <= k < l < |FirstIndices(s)| ==> FirstIndices(s)[k] < FirstIndices(s)[l]
    ensures forall i :: 0 <= i < |s| ==> (i in FirstIndices(s) <==> IsFirst(s, i))
    decreases |s|
  {
    if s != [] {
      var p := s[..|s| - 1];
      var ixp := FirstIndices(p);
      FirstIndicesShape(p);
      IsFirstOfPrefix(s);
      if IsFirst(s, |s| - 1) {
        var ix := ixp + [|s| - 1];
        assert FirstIndices(s) == ix;
        forall i | 0 <= i < |s| ensures i in ix <==> IsFirst(s, i) {
          assert i in ix <==> i in ixp || i == |s| - 1;
        }
      } else {
        assert FirstIndices(s) == ixp;
        forall i | 0 <= i < |s| ensures i in ixp <==> IsFirst(s, i) {
          if i == |s| - 1 {
            assert i !in ixp;
          }
        }
      }
    }
  }

  /** The result is the subsequence of the input at FirstIndices: the first
      edge of each unordered pair, in input order; every later edge of that
      pair is dropped, background or not. */
  lemma {:induction false} RemoveRedundantEdgeIsFirstOccurrences(s: seq<Edge>)
    ensures |RemoveRedundantEdge(s)| == |FirstIndices(s)|
    ensures forall k :: 0 <= k < |FirstIndices(s)| ==>
      0 <= FirstIndices(s)[k] < |s| && RemoveRedundantEdge(s)[k] == s[FirstIndices(s)[k]]
    ensures forall k, l :: 0 <= k < l < |FirstIndices(s)| ==> FirstIndices(s)[k] < FirstIndices(s)[l]
    ensures forall i :: 0 <= i < |s| ==> (i in FirstIndices(s) <==> IsFirst(s, i))
    decreases |s|
  {
    FirstIndicesShape(s);
    if s != [] {
      var p, c := s[..|s| - 1], s[|s| - 1];
      RemoveRedundantEdgeIsFirstOccurrences(p);
      RemoveRedundantEdgeKeepsPairs(p, c);
      FirstIndicesShape(p);
      var ixp, acc := FirstIndices(p), RemoveRedundantEdge(p);
      assert HasPair(p, c) <==> !IsFirst(s, |s| - 1) by {
        if !IsFirst(s, |s| - 1) {
          var j :| 0 <= j < |s| - 1 && SamePair(s[j], s[|s| - 1]);
          assert SamePair(p[j], c);
        }
      }
      if IsFirst(s, |s| - 1) {
        assert RemoveRedundantEdge(s) == acc + [c];
        assert FirstIndices(s) == ixp + [|s| - 1];
      } else {
        assert RemoveRedundantEdge(s) == acc;
        assert FirstIndices(s) == ixp;
      }
    }
  }

  /** No two edges of the result join the same unordered pair. */
  lemma {:induction false} RemoveRedundantEdgeUnique(s: seq<Edge>)
    ensures PairsUnique(RemoveRedundantEdge(s))
    decreases |s|
  {
    if s != [] {
      var p, c := s[..|s| - 1], s[|s| - 1];
      var acc := RemoveRedundantEdge(p);
      RemoveRedundantEdgeUnique(p);
      if !HasPair(acc, c) {
        var r := acc + [c];
        forall k, l | 0 <= k < l < |r| ensures !SamePair(r[k], r[l]) {
          if l == |acc| {
            SamePairEquivalence(acc[k], c, acc[k]);
          }
        }
      }
    }
  }

  /** Every input edge's pair is joined by some edge of the result. */
  lemma RemoveRedundantEdgeCovers(s: seq<Edge>, i: int)
    requires 0 <= i < |s|
    ensures HasPair(RemoveRedundantEdge(s), s[i])
  {
    SamePairEquivalence(s[i], s[i], s[i]);
    RemoveRedundantEdgeKeepsPairs(s, s[i]);
  }

  /** A list whose pairs are already unique passes through unchanged. */
  lemma {:induction false} RemoveRedundantEdgeOfUnique(s: seq<Edge>)
    requires PairsUnique(s)
    ensures RemoveRedundantEdge(s) == s
    decreases |s|
  {
    if s != [] {
      var p, c := s[..|s| - 1], s[|s| - 1];
      RemoveRedundantEdgeOfUnique(p);
      forall k | 0 <= k < |p| ensures !SamePair(p[k], c) {
        assert p[k] == s[k];
      }
      assert p + [c] == s;
    }
  }

  /** removeRedundantEdge is idempotent. */
  lemma RemoveRedundantEdgeIdempotent(s: seq<Edge>)
    ensures RemoveRedundantEdge(RemoveRedundantEdge(s)) == RemoveRedundantEdge(s)
  {
    RemoveRedundantEdgeUnique(s);
    RemoveRedundantEdgeOfUnique(RemoveRedundantEdge(s));
  }

  // ---------------------------------------------------------------------
  // getNodeFillColor
  // ---------------------------------------------------------------------

  /** The values a JavaScript `number`-typed field can hold, with `undefined`
      for an absent optional field. */
  datatype JsNumber = Undefined | NaN | PosInfinity | NegInfinity | Finite(x: real)

  /** `!value` in JavaScript: undefined, NaN and (either) zero are falsy. */
  predicate IsFalsy(v: JsNumber) {
    v.Undefined? || v.NaN? || (v.Finite? && v.x == 0.0)
  }

  /** JavaScript's `value < bound` for a finite bound: false for undefined and
      NaN, true for -Infinity, false for +Infinity. */
  predicate LessThan(v: JsNumber, bound: real) {
    v.NegInfinity? || (v.Finite? && v.x < bound)
  }

  /** getNodeFillColor: the if/else chain, its conditions taken in the order written. */
  function NodeFillColor(value: JsNumber): (c: FillColor)
    ensures c == AllHealth <==> IsFalsy(value)
    ensures c == LowSeverity <==> value.NegInfinity? || (value.Finite? && value.x != 0.0 && value.x < 20.0)
    ensures c == MidSeverity <==> value.Finite? && 20.0 <= value.x < 50.0
    ensures c == HighSeverity <==> value.Finite? && 50.0 <= value.x < 70.0
    ensures c == ExtraSeverity <==> value.PosInfinity? || (value.Finite? && 70.0 <= value.x)
  {
    if IsFalsy(value) then AllHealth
    else if LessThan(value, 20.0) then LowSeverity
    else if LessThan(value, 50.0) then MidSeverity
    else if LessThan(value, 70.0) then HighSeverity
    else ExtraSeverity
  }

  /** The position of a colour in the severity order. */
  function Severity(c: FillColor): nat {
    match c
    case AllHealth => 0
    case LowSeverity => 1
    case MidSeverity => 2
    case HighSeverity => 3
    case ExtraSeverity => 4
  }

  /** For positive values the colour never gets less severe as the value grows. */
  lemma NodeFillColorMonotone(x: real, y: real)
    requires 0.0 < x <= y
    ensures 1 <= Severity(NodeFillColor(Finite(x))) <= Severity(NodeFillColor(Finite(y)))
  {
  }

  /** The NODE_FILL_COLOR values are five distinct CSS colours, so the fill
      a node is drawn with tells its tier. */
  lemma FillColorHexDistinct(a: FillColor, b: FillColor)
    ensures a.Hex() == b.Hex() <==> a == b
  {
  }

  // ---------------------------------------------------------------------
  // getEdgePath
  // ---------------------------------------------------------------------

  /** The tokens of a quadratic curveto path: move to the source, then `Q`,
      the control point and the target. */
  function PathTokens(e: QuadraticEdgeModel, show: real -> string): seq<string> {
    ["M", show(e.source.x), show(e.source.y),
     "Q", show(e.cp.x), show(e.cp.y), show(e.target.x), show(e.target.y)]
  }

  /** The tokens separated by single spaces. */
  function Join(ts: seq<string>): string
    requires |ts| >= 1
    decreases |ts|
  {
    if |ts| == 1 then ts[0] else ts[0] + " " + Join(ts[1..])
  }

  /** The pieces of `s` between its spaces, `s.split(' ')`. */
  function Split(s: string): (r: seq<string>)
    ensures |r| >= 1
    decreases |s|
  {
    if s == [] then [[]]
    else
      var rest := Split(s[1..]);
      if s[0] == ' ' then [[]] + rest else [[s[0]] + rest[0]] + rest[1..]
  }

  /** getEdgePath: the template literal `M sx sy Q cx cy tx ty`, that is
      the eight tokens joined by single spaces. It opens with the move-to
      command. */
  function EdgePath(e: QuadraticEdgeModel, show: real -> string): (r: string)
    ensures |r| >= 2 && r[..2] == "M "
  {
    Join(PathTokens(e, show))
  }

  /** `show` is JavaScript's number-to-string conversion, which never yields
      a space, so an edge path splits back into exactly its tokens: the
      move-to point is the source, `Q` follows, then the control point and
      the target. */
  lemma EdgePathTokens(e: QuadraticEdgeModel, show: real -> string)
    requires forall x :: ' ' !in show(x)
    ensures Split(EdgePath(e, show)) == PathTokens(e, show)
  {
    SplitJoin(PathTokens(e, show));
  }

  /** A word without spaces splits to itself. */
  lemma {:induction false} SplitWord(t: string)
    requires ' ' !in t
    ensures Split(t) == [t]
    decreases |t|
  {
    if t != [] {
      SplitWord(t[1..]);
      assert [t[0]] + t[1..] == t;
    }
  }

  /** Splitting after a word without spaces gives that word first. */
  lemma {:induction false} SplitCons(t: string, u: string)
    requires ' ' !in t
    ensures Split(t + " " + u) == [t] + Split(u)
    decreases |t|
  {
    if t == [] {
      assert t + " " + u == [' '] + u;
      assert ([' '] + u)[1..] == u;
    } else {
      SplitCons(t[1..], u);
      var s := t + " " + u;
      assert s[1..] == t[1..] + " " + u;
      assert [t[0]] + t[1..] == t;
    }
  }

  /** Split undoes Join for tokens without spaces. */
  lemma {:induction false} SplitJoin(ts: seq<string>)
    requires |ts| >= 1
    requires forall k :: 0 <= k < |ts| ==> ' ' !in ts[k]
    ensures Split(Join(ts)) == ts
    decreases |ts|
  {
    if |ts| == 1 {
      SplitWord(ts[0]);
    } else {
      SplitJoin(ts[1..]);
      SplitCons(ts[0], Join(ts[1..]));
      assert [ts[0]] + ts[1..] == ts;
    }
  }
}
