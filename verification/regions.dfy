/** Pairing of `#region` and `#endregion` directives with a stack, taken over
    trivia that each occur once, in document order. This is the reference the
    extractor's de-duplicating scan is proved equal to; it carries the
    properties of the pairing itself: the span of a pair, the label, LIFO
    matching, unmatched closers, counts and nesting.
 */
module Regions {
  import opened Text
  import opened Syntax
  import opened Protocol

  const RegionKeyword: string := "#region"

  /** The label of an opening directive: its full text with every
      `#region` deleted, then trimmed. */
  function RegionName(start: Trivia): (name: string)
    ensures Trimmed(name) && |name| <= |start.fullText|
  {
    Trim(RemoveAll(start.fullText, RegionKeyword))
  }

  /** For directive text of the usual shape — white space, the keyword, then
      a name padded with white space and not itself containing the keyword —
      the label is exactly the name. */
  lemma RegionNameOfDirective(start: Trivia, lead: string, pad: string, name: string, trail: string)
    requires AllWhiteSpace(lead) && AllWhiteSpace(pad) && AllWhiteSpace(trail) && Trimmed(name)
    requires forall i :: 0 <= i < |pad + name + trail| ==> !OccursAt(pad + name + trail, RegionKeyword, i)
    requires start.fullText == lead + RegionKeyword + (pad + name + trail)
    ensures RegionName(start) == name
  {
    assert !IsWhiteSpace(RegionKeyword[0]);
    LabelOfKeywordLine(lead, RegionKeyword, pad, name, trail);
  }

  /** The keyword is deleted wherever it occurs on the directive line, not
      only at its head: `#region a#regionb` is labelled `ab`. */
  lemma KeywordRemovedInsideLabel(start: Trivia, lead: string, pad: string, x: string, y: string, trail: string)
    requires AllWhiteSpace(lead) && AllWhiteSpace(pad) && AllWhiteSpace(trail) && Trimmed(x + y)
    requires forall i :: 0 <= i < |pad + x| ==> (pad + x)[i] != '#'
    requires forall i :: 0 <= i < |y + trail| ==> !OccursAt(y + trail, RegionKeyword, i)
    requires start.fullText == lead + RegionKeyword + ((pad + x) + RegionKeyword + (y + trail))
    ensures RegionName(start) == x + y
  {
    assert !IsWhiteSpace(RegionKeyword[0]);
    LabelWithInnerKeyword(lead, RegionKeyword, pad, x, y, trail);
  }

  /** A matched pair: the opening and closing directive and the id of the
      region between them. */
  datatype RegionMatch = RegionMatch(startRegion: Trivia, endRegion: Trivia, bufferId: BufferId)

  function Match(fileName: string, start: Trivia, end: Trivia): RegionMatch {
    RegionMatch(start, end, BufferId(fileName, RegionName(start)))
  }

  /** The region of a pair starts where the opening directive ends and stops
      where the closing directive starts, so neither directive's text lies
      inside it. */
  function MatchSpan(m: RegionMatch): (s: TextSpan)
    ensures s.start == m.startRegion.location.End()
    ensures s.End() == m.endRegion.location.start
  {
    TextSpan(m.startRegion.location.End(), m.endRegion.location.start - m.startRegion.location.End())
  }

  /** Pairs found so far and the still-open directives, most recent last. */
  datatype Matching = Matching(found: seq<RegionMatch>, stack: seq<Trivia>)

  const Initial := Matching([], [])

  /** One piece of trivia: an opening directive is pushed; a closing one pops
      the most recent opening directive and records the pair, or is ignored
      when nothing is open; other trivia change nothing. */
  function PairStep(fileName: string, m: Matching, t: Trivia): Matching {
    match t.kind
    case RegionDirectiveTrivia => Matching(m.found, m.stack + [t])
    case EndRegionDirectiveTrivia =>
      if |m.stack| > 0 then
        Matching(m.found + [Match(fileName, m.stack[|m.stack| - 1], t)], m.stack[..|m.stack| - 1])
      else m
    case OtherTrivia => m
  }

  /** Pairing over a whole sequence of trivia; pairs are recorded in the
      order of their closing directives, after those already found. */
  function Pairing(fileName: string, m: Matching, ts: seq<Trivia>): Matching
    decreases |ts|
  {
    if ts == [] then m else Pairing(fileName, PairStep(fileName, m, ts[0]), ts[1..])
  }

  function Opens(ts: seq<Trivia>): nat {
    if ts == [] then 0 else (if ts[0].kind == RegionDirectiveTrivia then 1 else 0) + Opens(ts[1..])
  }

  function Closes(ts: seq<Trivia>): nat {
    if ts == [] then 0 else (if ts[0].kind == EndRegionDirectiveTrivia then 1 else 0) + Closes(ts[1..])
  }

  lemma {:induction false} PairingAppend(fileName: string, m: Matching, a: seq<Trivia>, b: seq<Trivia>)
    ensures Pairing(fileName, m, a + b) == Pairing(fileName, Pairing(fileName, m, a), b)
    decreases |a|
  {
    if a == [] {
      assert a + b == b;
    } else {
      assert (a + b)[0] == a[0] && (a + b)[1..] == a[1..] + b;
      PairingAppend(fileName, PairStep(fileName, m, a[0]), a[1..], b);
    }
  }

  /** Every opening directive ends up either in a pair or left on the stack,
      and there are never more pairs than closing directives. */
  lemma {:induction false} PairingCounts(fileName: string, m: Matching, ts: seq<Trivia>)
    ensures var r := Pairing(fileName, m, ts);
      && |r.found| - |m.found| + |r.stack| == |m.stack| + Opens(ts)
      && |r.found| - |m.found| <= Closes(ts)
    decreases |ts|
  {
    if ts != [] {
      PairingCounts(fileName, PairStep(fileName, m, ts[0]), ts[1..]);
    }
  }

  /** No prefix of `ts` closes more regions than it opens plus `depth`. */
  ghost predicate NeverUnderflows(ts: seq<Trivia>, depth: int) {
    forall k :: 0 <= k <= |ts| ==> Closes(ts[..k]) <= Opens(ts[..k]) + depth
  }

  /** Well-nested: no prefix closes more than it opens, and everything
      opened is closed. */
  ghost predicate Balanced(ts: seq<Trivia>) {
    NeverUnderflows(ts, 0) && Opens(ts) == Closes(ts)
  }

  lemma NeverUnderflowsTail(ts: seq<Trivia>, depth: int)
    requires ts != [] && NeverUnderflows(ts, depth)
    ensures var d := depth + (if ts[0].kind == RegionDirectiveTrivia then 1
                              else if ts[0].kind == EndRegionDirectiveTrivia then -1 else 0);
      NeverUnderflows(ts[1..], d)
  {
    forall k | 0 <= k <= |ts| - 1
      ensures Closes(ts[1..][..k]) <= Opens(ts[1..][..k]) + depth
                + (if ts[0].kind == RegionDirectiveTrivia then 1
                   else if ts[0].kind == EndRegionDirectiveTrivia then -1 else 0)
    {
      assert ts[..k + 1][0] == ts[0] && ts[..k + 1][1..] == ts[1..][..k];
      assert Closes(ts[..k + 1]) <= Opens(ts[..k + 1]) + depth;
    }
  }

  /** The first piece of trivia cannot close below `depth`. */
  lemma FirstPrefix(ts: seq<Trivia>, depth: int)
    requires ts != [] && NeverUnderflows(ts, depth)
    ensures ts[0].kind == EndRegionDirectiveTrivia ==> depth >= 1
  {
    assert ts[..1] == [ts[0]] && [ts[0]][1..] == [];
    assert Closes(ts[..1]) <= Opens(ts[..1]) + depth;
    assert Closes([ts[0]]) == (if ts[0].kind == EndRegionDirectiveTrivia then 1 else 0) + Closes([]);
    assert Opens([ts[0]]) == (if ts[0].kind == RegionDirectiveTrivia then 1 else 0) + Opens([]);
  }

  /** When no closing directive arrives with the stack empty, every closing
      directive produces a pair. */
  lemma {:induction false} PairingMatchesEveryClose(fileName: string, m: Matching, ts: seq<Trivia>)
    requires NeverUnderflows(ts, |m.stack|)
    ensures |Pairing(fileName, m, ts).found| - |m.found| == Closes(ts)
    decreases |ts|
  {
    if ts != [] {
      FirstPrefix(ts, |m.stack|);
      NeverUnderflowsTail(ts, |m.stack|);
      var m1 := PairStep(fileName, m, ts[0]);
      match ts[0].kind
      case RegionDirectiveTrivia =>
        assert |m1.stack| == |m.stack| + 1 && m1.found == m.found;
        PairingMatchesEveryClose(fileName, m1, ts[1..]);
      case EndRegionDirectiveTrivia =>
        assert |m1.stack| == |m.stack| - 1 && |m1.found| == |m.found| + 1;
        PairingMatchesEveryClose(fileName, m1, ts[1..]);
      case OtherTrivia =>
        assert m1 == m;
        PairingMatchesEveryClose(fileName, m1, ts[1..]);
    }
  }

  /** A file whose directives are well nested yields one pair per opening
      directive and leaves nothing open. */
  lemma BalancedPairsEveryOpen(fileName: string, ts: seq<Trivia>)
    requires Balanced(ts)
    ensures |Pairing(fileName, Initial, ts).found| == Opens(ts)
    ensures Pairing(fileName, Initial, ts).stack == []
  {
    PairingCounts(fileName, Initial, ts);
    PairingMatchesEveryClose(fileName, Initial, ts);
  }

  /** A closing directive met while nothing is open leaves no trace: the
      result is as if it were absent. */
  lemma PairingSkipsUnmatchedClose(fileName: string, m: Matching, a: seq<Trivia>, c: Trivia, b: seq<Trivia>)
    requires c.kind == EndRegionDirectiveTrivia
    requires Pairing(fileName, m, a).stack == []
    ensures Pairing(fileName, m, a + [c] + b) == Pairing(fileName, m, a + b)
  {
    PairingAppend(fileName, m, a + [c], b);
    PairingAppend(fileName, m, a, [c]);
    PairingAppend(fileName, m, a, b);
  }

  /** The pairs found do not depend on those already recorded. */
  lemma {:induction false} PairingFoundIndependent(fileName: string, f: seq<RegionMatch>, st: seq<Trivia>, ts: seq<Trivia>)
    ensures var r := Pairing(fileName, Matching([], st), ts);
      Pairing(fileName, Matching(f, st), ts) == Matching(f + r.found, r.stack)
    decreases |ts|
  {
    if ts == [] {
      assert f + [] == f;
    } else {
      var m0 := PairStep(fileName, Matching([], st), ts[0]);
      var m1 := Matching(f + m0.found, m0.stack);
      var r0 := Pairing(fileName, Matching([], m0.stack), ts[1..]);
      assert Pairing(fileName, Matching(f, st), ts) == Pairing(fileName, m1, ts[1..]) by {
        StepFoundIndependent(fileName, f, st, ts[0]);
      }
      assert Pairing(fileName, Matching([], st), ts) == Pairing(fileName, m0, ts[1..]);
      assert Pairing(fileName, m1, ts[1..]) == Matching(f + (m0.found + r0.found), r0.stack) by {
        PairingFoundIndependent(fileName, f + m0.found, m0.stack, ts[1..]);
        assert f + m0.found + r0.found == f + (m0.found + r0.found);
      }
      assert Pairing(fileName, m0, ts[1..]) == Matching(m0.found + r0.found, r0.stack) by {
        PairingFoundIndependent(fileName, m0.found, m0.stack, ts[1..]);
      }
    }
  }

  lemma StepFoundIndependent(fileName: string, f: seq<RegionMatch>, st: seq<Trivia>, t: Trivia)
    ensures var m0 := PairStep(fileName, Matching([], st), t);
      PairStep(fileName, Matching(f, st), t) == Matching(f + m0.found, m0.stack)
  {
    match t.kind
    case RegionDirectiveTrivia =>
      assert f + [] == f;
    case EndRegionDirectiveTrivia =>
      if st == [] {
        assert f + [] == f;
      }
    case OtherTrivia =>
      assert f + [] == f;
  }

  /** Trivia that never close more than `st` holds leave the directives
      below `st` untouched. */
  lemma {:induction false} PairingBelowStack(fileName: string, f: seq<RegionMatch>, b: seq<Trivia>, st: seq<Trivia>, ts: seq<Trivia>)
    requires NeverUnderflows(ts, |st|)
    ensures var r := Pairing(fileName, Matching(f, st), ts);
      Pairing(fileName, Matching(f, b + st), ts) == Matching(r.found, b + r.stack)
    decreases |ts|
  {
    if ts != [] {
      FirstPrefix(ts, |st|);
      NeverUnderflowsTail(ts, |st|);
      var m0 := PairStep(fileName, Matching(f, st), ts[0]);
      StepBelowStack(fileName, f, b, st, ts[0]);
      assert |m0.stack| == |st| + (if ts[0].kind == RegionDirectiveTrivia then 1
                                    else if ts[0].kind == EndRegionDirectiveTrivia then -1 else 0);
      PairingBelowStack(fileName, m0.found, b, m0.stack, ts[1..]);
    }
  }

  lemma StepBelowStack(fileName: string, f: seq<RegionMatch>, b: seq<Trivia>, st: seq<Trivia>, t: Trivia)
    requires t.kind == EndRegionDirectiveTrivia ==> |st| > 0
    ensures var m0 := PairStep(fileName, Matching(f, st), t);
      PairStep(fileName, Matching(f, b + st), t) == Matching(m0.found, b + m0.stack)
  {
    match t.kind
    case RegionDirectiveTrivia =>
      assert (b + st) + [t] == b + (st + [t]);
    case EndRegionDirectiveTrivia =>
      assert (b + st)[|b + st| - 1] == st[|st| - 1];
      assert (b + st)[..|b + st| - 1] == b + st[..|st| - 1];
    case OtherTrivia =>
  }

  /** LIFO matching: a closing directive pairs with the most recent opening
      directive still open. For `open inner close` with `inner` well nested,
      the pairs of `inner` come first, then (open, close), and the stack is
      back where it was. */
  lemma PairingLifo(fileName: string, m: Matching, open: Trivia, inner: seq<Trivia>, close: Trivia)
    requires open.kind == RegionDirectiveTrivia && close.kind == EndRegionDirectiveTrivia
    requires Balanced(inner)
    ensures Pairing(fileName, m, [open] + inner + [close])
         == Matching(m.found + Pairing(fileName, Initial, inner).found + [Match(fileName, open, close)], m.stack)
  {
    var r := Pairing(fileName, Initial, inner);
    PairingAppend(fileName, m, [open] + inner, [close]);
    PairingAppend(fileName, m, [open], inner);
    var m1 := Pairing(fileName, m, [open]);
    assert m1 == Matching(m.found, m.stack + [open]);
    PairingBelowStack(fileName, m.found, m.stack + [open], [], inner);
    assert m.stack + [open] + [] == m.stack + [open];
    PairingFoundIndependent(fileName, m.found, [], inner);
    BalancedPairsEveryOpen(fileName, inner);
    assert Pairing(fileName, m1, inner) == Matching(m.found + r.found, m.stack + [open]);
  }

  /** Every pair in `ms` is labelled with `fileName` and its opening
      directive's label. */
  predicate Labelled(fileName: string, ms: seq<RegionMatch>) {
    forall x :: x in ms ==> x.bufferId == BufferId(fileName, RegionName(x.startRegion))
  }

  lemma StepLabels(fileName: string, m: Matching, t: Trivia)
    requires Labelled(fileName, m.found)
    ensures Labelled(fileName, PairStep(fileName, m, t).found)
  {
    if t.kind == EndRegionDirectiveTrivia && |m.stack| > 0 {
      var x := Match(fileName, m.stack[|m.stack| - 1], t);
      assert forall y :: y in m.found + [x] ==> y in m.found || y == x;
    }
  }

  lemma {:induction false} PairingLabels(fileName: string, m: Matching, ts: seq<Trivia>)
    requires Labelled(fileName, m.found)
    ensures Labelled(fileName, Pairing(fileName, m, ts).found)
    decreases |ts|
  {
    if ts != [] {
      StepLabels(fileName, m, ts[0]);
      PairingLabels(fileName, PairStep(fileName, m, ts[0]), ts[1..]);
    }
  }

  /** `inner` lies within `outer`. */
  predicate Within(inner: TextSpan, outer: TextSpan) {
    outer.start <= inner.start && inner.End() <= outer.End()
  }

  /** Two spans are disjoint or one contains the other. */
  predicate Laminar(a: TextSpan, b: TextSpan) {
    a.End() <= b.start || b.End() <= a.start || Within(a, b) || Within(b, a)
  }

  ghost predicate StackOrdered(m: Matching, rest: seq<Trivia>) {
    && (forall i, j :: 0 <= i < j < |m.stack| ==> Before(m.stack[i], m.stack[j]))
    && (forall i :: 0 <= i < |m.stack| ==> m.stack[i].location.length >= 0)
    && (forall i, j :: 0 <= i < |m.stack| && 0 <= j < |rest| ==> Before(m.stack[i], rest[j]))
  }

  ghost predicate FoundOrdered(m: Matching, rest: seq<Trivia>) {
    && (forall i :: 0 <= i < |m.found| ==>
          && m.found[i].startRegion.location.length >= 0
          && m.found[i].endRegion.location.length >= 0
          && Before(m.found[i].startRegion, m.found[i].endRegion))
    && (forall i, j :: 0 <= i < |m.found| && 0 <= j < |rest| ==> Before(m.found[i].endRegion, rest[j]))
  }

  /** Still-open directives lie outside the directives of every pair found. */
  ghost predicate StackOutsideFound(m: Matching) {
    forall i, j :: 0 <= i < |m.stack| && 0 <= j < |m.found| ==>
      Before(m.stack[i], m.found[j].startRegion) || Before(m.found[j].endRegion, m.stack[i])
  }

  ghost predicate FoundLaminar(found: seq<RegionMatch>) {
    forall i, j :: 0 <= i < |found| && 0 <= j < |found| ==> Laminar(MatchSpan(found[i]), MatchSpan(found[j]))
  }

  ghost predicate NestInv(m: Matching, rest: seq<Trivia>) {
    StackOrdered(m, rest) && FoundOrdered(m, rest) && StackOutsideFound(m) && FoundLaminar(m.found)
  }

  lemma DocumentOrderTail(ts: seq<Trivia>)
    requires ts != [] && DocumentOrder(ts)
    ensures DocumentOrder(ts[1..])
  {
    assert forall i :: 0 <= i < |ts| - 1 ==> ts[1..][i] == ts[i + 1];
  }

  lemma OpenKeepsNesting(fileName: string, m: Matching, ts: seq<Trivia>)
    requires ts != [] && DocumentOrder(ts) && NestInv(m, ts)
    requires ts[0].kind == RegionDirectiveTrivia
    ensures NestInv(PairStep(fileName, m, ts[0]), ts[1..])
  {
    var t := ts[0];
    var rest := ts[1..];
    assert forall j :: 0 <= j < |rest| ==> rest[j] == ts[j + 1] && Before(t, rest[j]);
    var m' := PairStep(fileName, m, t);
    assert m' == Matching(m.found, m.stack + [t]);
    assert forall i :: 0 <= i < |m.stack| ==> Before(m.stack[i], t);
    assert forall j :: 0 <= j < |m.found| ==> Before(m.found[j].endRegion, t);
    assert StackOrdered(m', rest);
    assert FoundOrdered(m', rest);
    assert StackOutsideFound(m');
  }

  lemma CloseKeepsNesting(fileName: string, m: Matching, ts: seq<Trivia>)
    requires ts != [] && DocumentOrder(ts) && NestInv(m, ts)
    requires ts[0].kind == EndRegionDirectiveTrivia && |m.stack| > 0
    ensures NestInv(PairStep(fileName, m, ts[0]), ts[1..])
  {
    var t := ts[0];
    var rest := ts[1..];
    var n := |m.stack| - 1;
    var top := m.stack[n];
    var nm := Match(fileName, top, t);
    var m' := PairStep(fileName, m, t);
    assert m' == Matching(m.found + [nm], m.stack[..n]);
    assert Before(top, t);
    assert forall j :: 0 <= j < |rest| ==> rest[j] == ts[j + 1] && Before(t, rest[j]);
    assert FoundLaminar(m'.found) by {
      CloseFoundLaminar(m.found, top, t, nm);
    }
    assert FoundOrdered(m', rest) by {
      assert forall j :: 0 <= j < |m'.found| ==> m'.found[j] == if j < |m.found| then m.found[j] else nm;
    }
    assert StackOrdered(m', rest) by {
      assert forall i :: 0 <= i < n ==> m'.stack[i] == m.stack[i];
    }
    assert StackOutsideFound(m') by {
      forall i, j | 0 <= i < |m'.stack| && 0 <= j < |m'.found|
        ensures Before(m'.stack[i], m'.found[j].startRegion) || Before(m'.found[j].endRegion, m'.stack[i])
      {
        if j == |m.found| {
          assert m'.found[j] == nm && Before(m.stack[i], top);
        } else {
          assert m'.found[j] == m.found[j] && m'.stack[i] == m.stack[i];
        }
      }
    }
  }

  /** Appending the pair (top, t) keeps the found regions laminar. */
  lemma CloseFoundLaminar(found: seq<RegionMatch>, top: Trivia, t: Trivia, nm: RegionMatch)
    requires FoundLaminar(found)
    requires nm.startRegion == top && nm.endRegion == t
    requires top.location.length >= 0 && t.location.length >= 0 && Before(top, t)
    requires forall j :: 0 <= j < |found| ==>
      && found[j].startRegion.location.length >= 0
      && found[j].endRegion.location.length >= 0
      && Before(found[j].endRegion, t)
      && (Before(top, found[j].startRegion) || Before(found[j].endRegion, top))
    ensures FoundLaminar(found + [nm])
  {
    var f' := found + [nm];
    forall i, j | 0 <= i < |f'| && 0 <= j < |f'|
      ensures Laminar(MatchSpan(f'[i]), MatchSpan(f'[j]))
    {
      if i < |found| && j < |found| {
        assert f'[i] == found[i] && f'[j] == found[j];
      } else if i < |found| {
        assert f'[j] == nm && f'[i] == found[i];
      } else if j < |found| {
        assert f'[i] == nm && f'[j] == found[j];
      } else {
        assert f'[i] == nm && f'[j] == nm;
      }
    }
  }

  lemma PairStepKeepsNesting(fileName: string, m: Matching, ts: seq<Trivia>)
    requires ts != [] && DocumentOrder(ts) && NestInv(m, ts)
    ensures NestInv(PairStep(fileName, m, ts[0]), ts[1..])
  {
    match ts[0].kind
    case RegionDirectiveTrivia => OpenKeepsNesting(fileName, m, ts);
    case EndRegionDirectiveTrivia =>
      if |m.stack| > 0 {
        CloseKeepsNesting(fileName, m, ts);
      } else {
        assert forall j :: 0 <= j < |ts| - 1 ==> ts[1..][j] == ts[j + 1];
      }
    case OtherTrivia =>
      assert forall j :: 0 <= j < |ts| - 1 ==> ts[1..][j] == ts[j + 1];
  }

  lemma {:induction false} PairingKeepsNesting(fileName: string, m: Matching, ts: seq<Trivia>)
    requires DocumentOrder(ts) && NestInv(m, ts)
    ensures NestInv(Pairing(fileName, m, ts), [])
    decreases |ts|
  {
    if ts != [] {
      PairStepKeepsNesting(fileName, m, ts);
      DocumentOrderTail(ts);
      PairingKeepsNesting(fileName, PairStep(fileName, m, ts[0]), ts[1..]);
    }
  }

  /** For trivia in document order, every region found has a non-negative
      length, and any two regions found are disjoint or nested — they never
      partially overlap. */
  lemma PairingNests(fileName: string, ts: seq<Trivia>)
    requires DocumentOrder(ts)
    ensures var found := Pairing(fileName, Initial, ts).found;
      && (forall i :: 0 <= i < |found| ==> MatchSpan(found[i]).length >= 0)
      && FoundLaminar(found)
  {
    PairingKeepsNesting(fileName, Initial, ts);
    var found := Pairing(fileName, Initial, ts).found;
    assert forall i :: 0 <= i < |found| ==> Before(found[i].startRegion, found[i].endRegion);
  }
}
