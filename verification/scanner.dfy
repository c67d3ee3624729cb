/** The scan `FindRegions` performs: it walks the nodes the region query
    selects (a node once per directive in its leading trivia), walks every
    leading trivia of each, and processes a piece of trivia only the first
    time its full span is seen.
 */
module Scanner {
  import opened Syntax
  import opened Regions

  /** Pairs found, still-open directives and the full spans already
      processed. */
  datatype Scan = Scan(found: seq<RegionMatch>, stack: seq<Trivia>, processedSpans: set<TextSpan>)

  const Start := Scan([], [], {})

  /** The pairing state a scan is in, without its processed spans. */
  function Pairs(s: Scan): Matching {
    Matching(s.found, s.stack)
  }

  /** The body of the inner loop. Trivia whose full span was processed
      before is skipped outright; otherwise its span is recorded and it is
      paired exactly as the reference pairing does. */
  function ScanTrivia(fileName: string, s: Scan, t: Trivia): (r: Scan)
    ensures r.processedSpans == s.processedSpans + {t.fullSpan}
    ensures t.fullSpan in s.processedSpans ==> r == s
    ensures t.fullSpan !in s.processedSpans ==> Pairs(r) == PairStep(fileName, Pairs(s), t)
  {
    if t.fullSpan in s.processedSpans then s
    else
      var processed := s.processedSpans + {t.fullSpan};
      if t.kind == RegionDirectiveTrivia then
        Scan(s.found, s.stack + [t], processed)
      else if t.kind == EndRegionDirectiveTrivia && |s.stack| > 0 then
        var start := s.stack[|s.stack| - 1];
        Scan(s.found + [Match(fileName, start, t)], s.stack[..|s.stack| - 1], processed)
      else
        Scan(s.found, s.stack, processed)
  }

  function ScanTriviaList(fileName: string, s: Scan, ts: seq<Trivia>): Scan
    decreases |ts|
  {
    if ts == [] then s else ScanTriviaList(fileName, ScanTrivia(fileName, s, ts[0]), ts[1..])
  }

  /** The outer loop: each selected node's leading trivia in turn. */
  function ScanNodes(fileName: string, s: Scan, nodes: seq<Node>): Scan
    decreases |nodes|
  {
    if nodes == [] then s
    else ScanNodes(fileName, ScanTriviaList(fileName, s, nodes[0].leadingTrivia), nodes[1..])
  }

  /** The pairs `FindRegions` yields for a parsed file, in order: exactly
      the pairs of the reference pairing over the trivia it processes, so
      each directive is paired at most once however many times its node is
      enumerated and whichever nodes share it; every pair carries the file
      name and its opening directive's label. */
  function FindRegions(fileName: string, nodes: seq<Node>): (r: seq<RegionMatch>)
    ensures r == Pairing(fileName, Initial, ProcessedTrivia(nodes)).found
    ensures Labelled(fileName, r)
  {
    var selected := NodesWithRegionDirectives(nodes);
    ScanNodesFlatten(fileName, Start, selected);
    ScanTriviaListIsPairing(fileName, Start, Flatten(selected));
    PairingLabels(fileName, Initial, ProcessedTrivia(nodes));
    ScanNodes(fileName, Start, selected).found
  }

  lemma {:induction false} ScanNodesAppend(fileName: string, s: Scan, a: seq<Node>, b: seq<Node>)
    ensures ScanNodes(fileName, s, a + b) == ScanNodes(fileName, ScanNodes(fileName, s, a), b)
    decreases |a|
  {
    if a == [] {
      assert a + b == b;
    } else {
      assert (a + b)[0] == a[0] && (a + b)[1..] == a[1..] + b;
      ScanNodesAppend(fileName, ScanTriviaList(fileName, s, a[0].leadingTrivia), a[1..], b);
    }
  }

  /** Trivia all processed before is skipped entirely. */
  lemma {:induction false} ScanSeenTrivia(fileName: string, s: Scan, ts: seq<Trivia>)
    requires FullSpans(ts) <= s.processedSpans
    ensures ScanTriviaList(fileName, s, ts) == s
    decreases |ts|
  {
    if ts != [] {
      assert ts[0].fullSpan in FullSpans(ts);
      assert FullSpans(ts[1..]) <= FullSpans(ts) by {
        forall k | k in FullSpans(ts[1..]) ensures k in FullSpans(ts) {
          var i :| 0 <= i < |ts| - 1 && ts[1..][i].fullSpan == k;
          assert ts[i + 1].fullSpan == k;
        }
      }
      ScanSeenTrivia(fileName, s, ts[1..]);
    }
  }

  /** Trivia never processed before, each with its own full span, is paired
      exactly as the reference pairing does, and all its spans become
      processed. */
  lemma {:induction false} ScanFreshTrivia(fileName: string, s: Scan, ts: seq<Trivia>)
    requires DistinctFullSpans(ts) && FullSpans(ts) !! s.processedSpans
    ensures var r := ScanTriviaList(fileName, s, ts);
      && Pairs(r) == Pairing(fileName, Pairs(s), ts)
      && r.processedSpans == s.processedSpans + FullSpans(ts)
    decreases |ts|
  {
    if ts != [] {
      assert ts[0].fullSpan in FullSpans(ts);
      var s1 := ScanTrivia(fileName, s, ts[0]);
      assert [ts[0]] + ts[1..] == ts;
      DistinctSplit([ts[0]], ts[1..]);
      assert FullSpans([ts[0]]) == {ts[0].fullSpan};
      FullSpansAppend([ts[0]], ts[1..]);
      ScanFreshTrivia(fileName, s1, ts[1..]);
    }
  }

  lemma FullSpansAppend(a: seq<Trivia>, b: seq<Trivia>)
    ensures FullSpans(a + b) == FullSpans(a) + FullSpans(b)
  {
    forall k | k in FullSpans(a + b) ensures k in FullSpans(a) + FullSpans(b) {
      var i :| 0 <= i < |a + b| && (a + b)[i].fullSpan == k;
      if i >= |a| {
        assert b[i - |a|].fullSpan == k;
      }
    }
    forall k | k in FullSpans(b) ensures k in FullSpans(a + b) {
      var i :| 0 <= i < |b| && b[i].fullSpan == k;
      assert (a + b)[|a| + i].fullSpan == k;
    }
    assert forall i :: 0 <= i < |a| ==> (a + b)[i] == a[i];
  }

  /** Trivia without directives pairs nothing and opens nothing. */
  lemma {:induction false} PairingWithoutDirectives(fileName: string, m: Matching, ts: seq<Trivia>)
    requires DirectiveCount(ts) == 0
    ensures Pairing(fileName, m, ts) == m
    decreases |ts|
  {
    if ts != [] {
      assert !IsRegionDirective(ts[0]);
      PairingWithoutDirectives(fileName, m, ts[1..]);
    }
  }

  /** Further copies of a node already scanned are skipped. */
  lemma {:induction false} ScanRepeatedNode(fileName: string, s: Scan, n: Node, k: nat)
    requires FullSpans(n.leadingTrivia) <= s.processedSpans
    ensures ScanNodes(fileName, s, Repeat(n, k)) == s
    decreases k
  {
    if k > 0 {
      ScanSeenTrivia(fileName, s, n.leadingTrivia);
      assert Repeat(n, k)[0] == n && Repeat(n, k)[1..] == Repeat(n, k - 1);
      ScanRepeatedNode(fileName, s, n, k - 1);
    }
  }

  /** One node, enumerated once per directive it carries, is scanned as if
      its trivia were paired once; a node without directives is not
      enumerated and pairs nothing. */
  lemma ScanEnumeratedNode(fileName: string, s: Scan, n: Node)
    requires DistinctFullSpans(n.leadingTrivia) && FullSpans(n.leadingTrivia) !! s.processedSpans
    ensures var r := ScanNodes(fileName, s, Repeat(n, DirectiveCount(n.leadingTrivia)));
      && Pairs(r) == Pairing(fileName, Pairs(s), n.leadingTrivia)
      && r.processedSpans <= s.processedSpans + FullSpans(n.leadingTrivia)
  {
    var k := DirectiveCount(n.leadingTrivia);
    if k == 0 {
      PairingWithoutDirectives(fileName, Pairs(s), n.leadingTrivia);
    } else {
      var s1 := ScanTriviaList(fileName, s, n.leadingTrivia);
      ScanFreshTrivia(fileName, s, n.leadingTrivia);
      ScanRepeatedNode(fileName, s1, n, k - 1);
      assert Repeat(n, k)[0] == n && Repeat(n, k)[1..] == Repeat(n, k - 1);
    }
  }

  /** The trivia in `ts` whose full span is neither in `seen` nor met
      earlier in `ts`. The result has pairwise distinct full spans and
      covers exactly the full spans of `ts` not in `seen`. */
  function Dedup(ts: seq<Trivia>, seen: set<TextSpan>): (r: seq<Trivia>)
    ensures DistinctFullSpans(r) && FullSpans(r) == FullSpans(ts) - seen
    decreases |ts|
  {
    if ts == [] then []
    else
      var rest := Dedup(ts[1..], seen + {ts[0].fullSpan});
      FullSpansCons(ts);
      if ts[0].fullSpan in seen then rest
      else
        assert ts[0].fullSpan !in FullSpans(rest);
        FullSpansCons([ts[0]] + rest);
        assert ([ts[0]] + rest)[1..] == rest;
        [ts[0]] + rest
  }

  lemma FullSpansCons(ts: seq<Trivia>)
    requires ts != []
    ensures FullSpans(ts) == {ts[0].fullSpan} + FullSpans(ts[1..])
    ensures forall i, j :: 0 <= i < j < |ts| && ts[i].fullSpan == ts[j].fullSpan ==>
      i > 0 || ts[0].fullSpan in FullSpans(ts[1..])
  {
    FullSpansAppend([ts[0]], ts[1..]);
    assert [ts[0]] + ts[1..] == ts;
    assert FullSpans([ts[0]]) == {ts[0].fullSpan};
    forall i, j | 0 <= i < j < |ts| && ts[i].fullSpan == ts[j].fullSpan && i == 0
      ensures ts[0].fullSpan in FullSpans(ts[1..])
    {
      assert ts[1..][j - 1] == ts[j];
    }
  }

  /** The trivia `FindRegions` actually processes, each once, in the order
      it processes them. */
  function ProcessedTrivia(nodes: seq<Node>): seq<Trivia> {
    Dedup(Flatten(NodesWithRegionDirectives(nodes)), {})
  }

  lemma {:induction false} ScanTriviaListAppend(fileName: string, s: Scan, a: seq<Trivia>, b: seq<Trivia>)
    ensures ScanTriviaList(fileName, s, a + b) == ScanTriviaList(fileName, ScanTriviaList(fileName, s, a), b)
    decreases |a|
  {
    if a == [] {
      assert a + b == b;
    } else {
      assert (a + b)[0] == a[0] && (a + b)[1..] == a[1..] + b;
      ScanTriviaListAppend(fileName, ScanTrivia(fileName, s, a[0]), a[1..], b);
    }
  }

  /** Walking node by node is walking their trivia one after another. */
  lemma {:induction false} ScanNodesFlatten(fileName: string, s: Scan, nodes: seq<Node>)
    ensures ScanNodes(fileName, s, nodes) == ScanTriviaList(fileName, s, Flatten(nodes))
    decreases |nodes|
  {
    if nodes != [] {
      ScanTriviaListAppend(fileName, s, nodes[0].leadingTrivia, Flatten(nodes[1..]));
      ScanNodesFlatten(fileName, ScanTriviaList(fileName, s, nodes[0].leadingTrivia), nodes[1..]);
    }
  }

  /** Skipping trivia already processed is the same as pairing the trivia
      de-duplicated by full span; afterwards every span met is processed. */
  lemma {:induction false} ScanTriviaListIsPairing(fileName: string, s: Scan, ts: seq<Trivia>)
    ensures var r := ScanTriviaList(fileName, s, ts);
      && Pairs(r) == Pairing(fileName, Pairs(s), Dedup(ts, s.processedSpans))
      && r.processedSpans == s.processedSpans + FullSpans(ts)
    decreases |ts|
  {
    if ts != [] {
      FullSpansCons(ts);
      var s1 := ScanTrivia(fileName, s, ts[0]);
      ScanTriviaListIsPairing(fileName, s1, ts[1..]);
      if ts[0].fullSpan !in s.processedSpans {
        var d := Dedup(ts[1..], s.processedSpans + {ts[0].fullSpan});
        assert ([ts[0]] + d)[0] == ts[0] && ([ts[0]] + d)[1..] == d;
      }
    }
  }
}
