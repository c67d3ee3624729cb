/** What the region extractor consumes from the C# parser. Parsing itself is
    not modelled: a parsed file is the list of its nodes and tokens in
    document order (what `DescendantNodesAndTokens()` enumerates), each with
    its leading trivia.
 */
module Syntax {

  /** A `[start, start + length)` range of character offsets. */
  datatype TextSpan = TextSpan(start: int, length: int) {
    function End(): int { start + length }
  }

  datatype TriviaKind = RegionDirectiveTrivia | EndRegionDirectiveTrivia | OtherTrivia

  /** One piece of trivia: its kind, its text including surrounding trivia
      (`ToFullString()`), its full span (the key used for de-duplication) and
      the span of its location in the source (`GetLocation().SourceSpan`). */
  datatype Trivia = Trivia(kind: TriviaKind, fullText: string, fullSpan: TextSpan, location: TextSpan)

  datatype Node = Node(leadingTrivia: seq<Trivia>)

  predicate IsRegionDirective(t: Trivia) {
    t.kind == RegionDirectiveTrivia || t.kind == EndRegionDirectiveTrivia
  }

  /** How many pieces of trivia are `#region` or `#endregion` directives. */
  function DirectiveCount(ts: seq<Trivia>): (n: nat)
    ensures n <= |ts|
    ensures n == 0 <==> forall i :: 0 <= i < |ts| ==> !IsRegionDirective(ts[i])
  {
    if ts == [] then 0
    else (if IsRegionDirective(ts[0]) then 1 else 0) + DirectiveCount(ts[1..])
  }

  function Repeat(n: Node, k: nat): (r: seq<Node>)
    ensures |r| == k && forall i :: 0 <= i < k ==> r[i] == n
  {
    if k == 0 then [] else [n] + Repeat(n, k - 1)
  }

  /** The query over the parsed nodes: a node is selected once for EACH of
      its leading trivia that is a region or end-region directive, so a node
      with several directives is enumerated several times; nodes without
      one are skipped. */
  function NodesWithRegionDirectives(nodes: seq<Node>): (r: seq<Node>)
    ensures forall i :: 0 <= i < |r| ==> DirectiveCount(r[i].leadingTrivia) > 0
    ensures forall n :: n in r <==> n in nodes && DirectiveCount(n.leadingTrivia) > 0
  {
    if nodes == [] then []
    else Repeat(nodes[0], DirectiveCount(nodes[0].leadingTrivia)) + NodesWithRegionDirectives(nodes[1..])
  }

  /** All leading trivia of the nodes, each node taken once. */
  function Flatten(nodes: seq<Node>): (r: seq<Trivia>)
    ensures forall n, t :: n in nodes && t in n.leadingTrivia ==> t in r
  {
    if nodes == [] then [] else nodes[0].leadingTrivia + Flatten(nodes[1..])
  }

  /** The set of full spans occurring in `ts`. */
  function FullSpans(ts: seq<Trivia>): set<TextSpan> {
    set i | 0 <= i < |ts| :: ts[i].fullSpan
  }

  /** No two pieces of trivia share a full span. */
  predicate DistinctFullSpans(ts: seq<Trivia>) {
    forall i, j :: 0 <= i < j < |ts| ==> ts[i].fullSpan != ts[j].fullSpan
  }

  /** `a` ends no later than `b` starts, by source location. */
  predicate Before(a: Trivia, b: Trivia) {
    a.location.End() <= b.location.start
  }

  /** What the parser guarantees of the trivia of one file taken in
      enumeration order: every full span is non-empty, every location has a
      non-negative length, and both kinds of span appear in increasing,
      non-overlapping order. */
  predicate DocumentOrder(ts: seq<Trivia>) {
    && (forall i :: 0 <= i < |ts| ==> ts[i].fullSpan.length > 0 && ts[i].location.length >= 0)
    && (forall i, j :: 0 <= i < j < |ts| ==>
          ts[i].fullSpan.End() <= ts[j].fullSpan.start && Before(ts[i], ts[j]))
  }

  lemma {:induction false} FlattenAppend(a: seq<Node>, b: seq<Node>)
    ensures Flatten(a + b) == Flatten(a) + Flatten(b)
  {
    if a == [] {
      assert a + b == b;
    } else {
      assert (a + b)[1..] == a[1..] + b;
      FlattenAppend(a[1..], b);
    }
  }

  /** The query distributes over concatenation: nodes are selected
      independently of one another. */
  lemma {:induction false} NodesWithRegionDirectivesAppend(a: seq<Node>, b: seq<Node>)
    ensures NodesWithRegionDirectives(a + b) == NodesWithRegionDirectives(a) + NodesWithRegionDirectives(b)
  {
    if a == [] {
      assert a + b == b;
    } else {
      assert (a + b)[1..] == a[1..] + b;
      NodesWithRegionDirectivesAppend(a[1..], b);
    }
  }

  lemma DistinctSplit(a: seq<Trivia>, b: seq<Trivia>)
    requires DistinctFullSpans(a + b)
    ensures DistinctFullSpans(a) && DistinctFullSpans(b)
    ensures FullSpans(a) !! FullSpans(b)
  {
    assert forall i :: 0 <= i < |a| ==> (a + b)[i] == a[i];
    assert forall j :: 0 <= j < |b| ==> (a + b)[|a| + j] == b[j];
    forall i, j | 0 <= i < |a| && 0 <= j < |b|
      ensures a[i].fullSpan != b[j].fullSpan
    {
      assert (a + b)[i].fullSpan != (a + b)[|a| + j].fullSpan;
    }
  }
}
