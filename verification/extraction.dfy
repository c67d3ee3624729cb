/** `ExtractRegions`, `ExtractViewPorts` and `ExtractViewports`: turning the
    pairs `FindRegions` yields into labelled spans, rejecting a label seen
    twice in one file, and concatenating the viewports of several files.

    The source yields lazily and throws part-way; an `Extraction` records
    either everything that was yielded, or the exception together with the
    items yielded before it.
 */
module Extraction {
  import opened Syntax
  import opened Protocol
  import opened Regions
  import opened Scanner

  datatype Exception = InvalidOperationException(message: string)

  const DuplicateIdMessage: string := "viewports identifiers must be unique"

  datatype Extraction<T> = Complete(items: seq<T>) | Thrown(error: Exception, emitted: seq<T>) {
    /** Everything yielded, whether or not an exception followed. */
    function Yielded(): seq<T> {
      match this
      case Complete(items) => items
      case Thrown(_, emitted) => emitted
    }
  }

  /** A labelled span of a file, as `ExtractRegions` yields it. */
  datatype Region = Region(bufferId: BufferId, span: TextSpan)

  function Label(m: RegionMatch): string {
    m.bufferId.regionName
  }

  /** No label of `ms` is in `ids`, and no two labels of `ms` coincide. */
  predicate FreshLabels(ms: seq<RegionMatch>, ids: set<string>) {
    && (forall i :: 0 <= i < |ms| ==> Label(ms[i]) !in ids)
    && (forall i, j :: 0 <= i < j < |ms| ==> Label(ms[i]) != Label(ms[j]))
  }

  /** The `k`th pair is the first whose label is not fresh. */
  predicate FirstClash(ms: seq<RegionMatch>, ids: set<string>, k: nat) {
    k < |ms| && FreshLabels(ms[..k], ids) && !FreshLabels(ms[..k + 1], ids)
  }

  lemma FreshLabelsCons(ms: seq<RegionMatch>, ids: set<string>)
    requires ms != []
    ensures FreshLabels(ms, ids) <==> Label(ms[0]) !in ids && FreshLabels(ms[1..], ids + {Label(ms[0])})
  {
    if Label(ms[0]) !in ids && FreshLabels(ms[1..], ids + {Label(ms[0])}) {
      forall i, j | 0 <= i < j < |ms| ensures Label(ms[i]) != Label(ms[j]) {
        assert ms[j] == ms[1..][j - 1];
        if i > 0 {
          assert ms[i] == ms[1..][i - 1];
        }
      }
      forall i | 0 <= i < |ms| ensures Label(ms[i]) !in ids {
        if i > 0 {
          assert ms[i] == ms[1..][i - 1];
        }
      }
    }
    if FreshLabels(ms, ids) {
      forall i | 0 <= i < |ms| - 1 ensures Label(ms[1..][i]) !in ids + {Label(ms[0])} {
        assert ms[1..][i] == ms[i + 1];
      }
    }
  }

  /** The region between the directives of a pair, under the pair's id. */
  function ToRegion(m: RegionMatch): Region {
    Region(m.bufferId, MatchSpan(m))
  }

  function ToRegions(ms: seq<RegionMatch>): (rs: seq<Region>)
    ensures |rs| == |ms| && forall i :: 0 <= i < |ms| ==> rs[i] == ToRegion(ms[i])
  {
    seq(|ms|, i requires 0 <= i < |ms| => ToRegion(ms[i]))
  }

  /** The loop of `ExtractRegions` over the pairs found, with the set `ids`
      of labels already yielded: each pair's region is yielded unless its
      label was yielded before, in which case the loop throws. It completes
      exactly when all labels are new; when it throws, it has yielded the
      regions of the longest prefix whose labels are all new. */
  function CheckLabels(ms: seq<RegionMatch>, ids: set<string>): (r: Extraction<Region>)
    ensures r.Complete? <==> FreshLabels(ms, ids)
    ensures r.Complete? ==> r.items == ToRegions(ms)
    ensures r.Thrown? ==>
      && r.error == InvalidOperationException(DuplicateIdMessage)
      && FirstClash(ms, ids, |r.emitted|)
      && r.emitted == ToRegions(ms[..|r.emitted|])
    decreases |ms|
  {
    if ms == [] then Complete([])
    else
      var name := Label(ms[0]);
      if name in ids then
        ClashAtHead(ms, ids);
        Thrown(InvalidOperationException(DuplicateIdMessage), [])
      else
        match CheckLabels(ms[1..], ids + {name})
        case Complete(rs) =>
          CompleteAfterHead(ms, ids, rs);
          Complete([ToRegion(ms[0])] + rs)
        case Thrown(e, rs) =>
          ThrownAfterHead(ms, ids, rs);
          Thrown(e, [ToRegion(ms[0])] + rs)
  }

  lemma ClashAtHead(ms: seq<RegionMatch>, ids: set<string>)
    requires ms != [] && Label(ms[0]) in ids
    ensures !FreshLabels(ms, ids) && FirstClash(ms, ids, 0)
  {
    assert ms[..1][0] == ms[0];
    assert ms[..0] == [];
  }

  /** A fresh first label followed by a clean rest is clean throughout. */
  lemma CompleteAfterHead(ms: seq<RegionMatch>, ids: set<string>, rs: seq<Region>)
    requires ms != [] && Label(ms[0]) !in ids
    requires FreshLabels(ms[1..], ids + {Label(ms[0])}) && rs == ToRegions(ms[1..])
    ensures FreshLabels(ms, ids) && [ToRegion(ms[0])] + rs == ToRegions(ms)
  {
    FreshLabelsCons(ms, ids);
    RegionsCons(ms, |ms|);
    assert ms[..|ms|] == ms && ms[1..][..|ms| - 1] == ms[1..];
  }

  /** A fresh first label followed by a clash in the rest clashes one
      position later. */
  lemma ThrownAfterHead(ms: seq<RegionMatch>, ids: set<string>, rs: seq<Region>)
    requires ms != [] && Label(ms[0]) !in ids
    requires !FreshLabels(ms[1..], ids + {Label(ms[0])})
    requires FirstClash(ms[1..], ids + {Label(ms[0])}, |rs|) && rs == ToRegions(ms[1..][..|rs|])
    ensures !FreshLabels(ms, ids) && FirstClash(ms, ids, |rs| + 1)
    ensures [ToRegion(ms[0])] + rs == ToRegions(ms[..|rs| + 1])
  {
    FreshLabelsCons(ms, ids);
    ClashAfterHead(ms, ids, |rs|);
    RegionsCons(ms, |rs| + 1);
  }

  lemma ClashAfterHead(ms: seq<RegionMatch>, ids: set<string>, k: nat)
    requires ms != [] && Label(ms[0]) !in ids
    requires FirstClash(ms[1..], ids + {Label(ms[0])}, k)
    ensures FirstClash(ms, ids, k + 1)
  {
    assert ms[..k + 1][0] == ms[0] && ms[..k + 1][1..] == ms[1..][..k];
    assert ms[..k + 2][0] == ms[0] && ms[..k + 2][1..] == ms[1..][..k + 1];
    FreshLabelsCons(ms[..k + 1], ids);
    FreshLabelsCons(ms[..k + 2], ids);
  }

  lemma RegionsCons(ms: seq<RegionMatch>, k: nat)
    requires 0 < k <= |ms|
    ensures ToRegions(ms[..k]) == [ToRegion(ms[0])] + ToRegions(ms[1..][..k - 1])
  {
    assert ms[..k][0] == ms[0];
    assert forall i :: 1 <= i < k ==> ms[..k][i] == ms[1..][..k - 1][i - 1];
  }

  /** `ExtractRegions` for one parsed file, with a fresh set of labels per
      call: the i-th region yielded is the i-th pair's span, named by the
      file and the pair's label; it completes, with one region per pair,
      exactly when the labels are pairwise distinct, and otherwise throws at
      the first repeated label. */
  function ExtractRegions(fileName: string, nodes: seq<Node>): (r: Extraction<Region>)
    ensures var found := FindRegions(fileName, nodes);
      && |r.Yielded()| <= |found|
      && (forall i :: 0 <= i < |r.Yielded()| ==>
            r.Yielded()[i] == Region(BufferId(fileName, RegionName(found[i].startRegion)), MatchSpan(found[i])))
      && (r.Complete? <==> FreshLabels(found, {}))
      && (r.Complete? ==> |r.items| == |found|)
      && (r.Thrown? ==> r.error == InvalidOperationException(DuplicateIdMessage) && FirstClash(found, {}, |r.emitted|))
  {
    var found := FindRegions(fileName, nodes);
    var r := CheckLabels(found, {});
    CheckLabelsYielded(found, {});
    RegionsOfPairs(fileName, found, r.Yielded());
    r
  }

  lemma RegionsOfPairs(fileName: string, found: seq<RegionMatch>, y: seq<Region>)
    requires |y| <= |found| && y == ToRegions(found[..|y|])
    requires Labelled(fileName, found)
    ensures forall i :: 0 <= i < |y| ==>
      y[i] == Region(BufferId(fileName, RegionName(found[i].startRegion)), MatchSpan(found[i]))
  {
    forall i | 0 <= i < |y|
      ensures y[i] == Region(BufferId(fileName, RegionName(found[i].startRegion)), MatchSpan(found[i]))
    {
      assert found[i] in found;
      assert found[..|y|][i] == found[i];
    }
  }

  function ToViewports(file: SourceFile, rs: seq<Region>): (vs: seq<Viewport>)
    ensures |vs| == |rs|
    ensures forall i :: 0 <= i < |rs| ==> vs[i] == Viewport(file, rs[i].span, rs[i].bufferId)
  {
    seq(|rs|, i requires 0 <= i < |rs| => Viewport(file, rs[i].span, rs[i].bufferId))
  }

  /** What the viewports of `file` are, given the pairs `found` in it: the
      i-th viewport yielded refers to the file and spans the text strictly
      between the i-th pair's directives, under the file's name and the
      pair's label; the extraction completes, with one viewport per pair,
      exactly when the labels are pairwise distinct, and otherwise throws the
      uniqueness exception at the first repeated label. */
  predicate ViewportsOf(file: SourceFile, found: seq<RegionMatch>, r: Extraction<Viewport>) {
    && |r.Yielded()| <= |found|
    && (forall i :: 0 <= i < |r.Yielded()| ==>
          r.Yielded()[i] == Viewport(file, MatchSpan(found[i]), BufferId(file.name, RegionName(found[i].startRegion))))
    && (r.Complete? <==> FreshLabels(found, {}))
    && (r.Complete? ==> |r.items| == |found|)
    && (r.Thrown? ==> r.error == InvalidOperationException(DuplicateIdMessage) && FirstClash(found, {}, |r.emitted|))
  }

  /** The viewports of one source file; `parse` stands for the C# parser,
      giving the file's nodes and tokens in document order. */
  function ExtractViewPorts(file: SourceFile, parse: string -> seq<Node>): (r: Extraction<Viewport>)
    ensures ViewportsOf(file, FindRegions(file.name, parse(file.text)), r)
  {
    var regions := ExtractRegions(file.name, parse(file.text));
    var vs := ToViewports(file, regions.Yielded());
    if regions.Complete? then Complete(vs) else Thrown(regions.error, vs)
  }

  /** Whether or not it throws, the label check yields the regions of a
      prefix of the pairs. */
  lemma CheckLabelsYielded(ms: seq<RegionMatch>, ids: set<string>)
    ensures var y := CheckLabels(ms, ids).Yielded();
      |y| <= |ms| && y == ToRegions(ms[..|y|])
  {
    if CheckLabels(ms, ids).Complete? {
      assert ms[..|ms|] == ms;
    }
  }

  /** A lazy sequence followed by another: the second is consumed only if
      the first completes. */
  function Then<T>(first: Extraction<T>, rest: Extraction<T>): (r: Extraction<T>)
    ensures r.Complete? <==> first.Complete? && rest.Complete?
    ensures r.Yielded() == if first.Thrown? then first.emitted else first.items + rest.Yielded()
    ensures r.Thrown? ==> r.error == if first.Thrown? then first.error else rest.error
  {
    match first
    case Thrown(e, vs) => Thrown(e, vs)
    case Complete(vs) =>
      match rest
      case Complete(ws) => Complete(vs + ws)
      case Thrown(e, ws) => Thrown(e, vs + ws)
  }

  /** Lazy sequences consumed one after the other, each only if all before
      it completed. */
  function Concat<T>(rs: seq<Extraction<T>>): (r: Extraction<T>)
    ensures r.Complete? <==> forall i :: 0 <= i < |rs| ==> rs[i].Complete?
    decreases |rs|
  {
    if rs == [] then Complete([])
    else
      assert forall i :: 1 <= i < |rs| ==> rs[i] == rs[1..][i - 1];
      Then(rs[0], Concat(rs[1..]))
  }

  /** An exception passes through unchanged: when every part that throws
      throws `e`, so does the whole. */
  lemma {:induction false} ConcatError<T>(rs: seq<Extraction<T>>, e: Exception)
    requires forall i :: 0 <= i < |rs| && rs[i].Thrown? ==> rs[i].error == e
    ensures Concat(rs).Thrown? ==> Concat(rs).error == e
    decreases |rs|
  {
    if rs != [] {
      assert forall i :: 0 <= i < |rs| - 1 ==> rs[1..][i] == rs[i + 1];
      ConcatError(rs[1..], e);
    }
  }

  lemma ThenAssociative<T>(a: Extraction<T>, b: Extraction<T>, c: Extraction<T>)
    ensures Then(Then(a, b), c) == Then(a, Then(b, c))
  {
    if a.Complete? && b.Complete? {
      assert a.items + b.items + c.Yielded() == a.items + (b.items + c.Yielded());
    }
  }

  lemma ThenComplete<T>(r: Extraction<T>)
    ensures Then(Complete([]), r) == r
  {
    match r
    case Complete(ws) => assert [] + ws == ws;
    case Thrown(e, ws) => assert [] + ws == ws;
  }

  lemma {:induction false} ConcatAppend<T>(a: seq<Extraction<T>>, b: seq<Extraction<T>>)
    ensures Concat(a + b) == Then(Concat(a), Concat(b))
    decreases |a|
  {
    if a == [] {
      assert a + b == b;
      ThenComplete(Concat(b));
    } else {
      assert (a + b)[0] == a[0] && (a + b)[1..] == a[1..] + b;
      ConcatAppend(a[1..], b);
      ThenAssociative(a[0], Concat(a[1..]), Concat(b));
    }
  }

  /** Each element of `xs` mapped through `f`, in order. */
  function Map<A, B>(f: A -> B, xs: seq<A>): (ys: seq<B>)
    ensures |ys| == |xs| && forall i :: 0 <= i < |xs| ==> ys[i] == f(xs[i])
  {
    seq(|xs|, i requires 0 <= i < |xs| => f(xs[i]))
  }

  lemma MapAppend<A, B>(f: A -> B, a: seq<A>, b: seq<A>)
    ensures Map(f, a + b) == Map(f, a) + Map(f, b)
  {
    assert forall i :: 0 <= i < |a| ==> (a + b)[i] == a[i];
    assert forall i :: 0 <= i < |b| ==> (a + b)[|a| + i] == b[i];
  }

  /** `ExtractViewports` over several files (`SelectMany`): each file is
      extracted with its own set of labels, so it completes exactly when
      every file's extraction completes, whatever labels different files
      share. */
  function ExtractViewports(files: seq<SourceFile>, parse: string -> seq<Node>): (r: Extraction<Viewport>)
    ensures r.Complete? <==> forall i :: 0 <= i < |files| ==> ExtractViewPorts(files[i], parse).Complete?
    ensures r.Thrown? ==> r.error == InvalidOperationException(DuplicateIdMessage)
  {
    var parts := Map((f: SourceFile) => ExtractViewPorts(f, parse), files);
    ConcatError(parts, InvalidOperationException(DuplicateIdMessage));
    Concat(parts)
  }

  /** Extracting from `a + b` is extracting from `a`, then — if that
      completed — from `b`, with the results concatenated in order. */
  lemma ExtractViewportsAppend(a: seq<SourceFile>, b: seq<SourceFile>, parse: string -> seq<Node>)
    ensures ExtractViewports(a + b, parse) == Then(ExtractViewports(a, parse), ExtractViewports(b, parse))
  {
    var extract := (f: SourceFile) => ExtractViewPorts(f, parse);
    MapAppend(extract, a, b);
    ConcatAppend(Map(extract, a), Map(extract, b));
  }

  /** Two files that each extract cleanly extract cleanly together, even
      when they use the same labels: the result is the first file's
      viewports followed by the second's. */
  lemma TwoFilesConcatenate(f: SourceFile, g: SourceFile, parse: string -> seq<Node>)
    requires ExtractViewPorts(f, parse).Complete? && ExtractViewPorts(g, parse).Complete?
    ensures ExtractViewports([f, g], parse)
         == Complete(ExtractViewPorts(f, parse).items + ExtractViewPorts(g, parse).items)
  {
    ExtractTwoFiles(f, g, parse);
    TwoExtractions(ExtractViewPorts(f, parse), ExtractViewPorts(g, parse));
  }

  lemma ExtractTwoFiles(f: SourceFile, g: SourceFile, parse: string -> seq<Node>)
    ensures ExtractViewports([f, g], parse) == Concat([ExtractViewPorts(f, parse), ExtractViewPorts(g, parse)])
  {
    MapTwo((x: SourceFile) => ExtractViewPorts(x, parse), f, g);
  }

  lemma MapTwo<A, B>(h: A -> B, x: A, y: A)
    ensures Map(h, [x, y]) == [h(x), h(y)]
  {
  }

  lemma TwoExtractions<T>(x: Extraction<T>, y: Extraction<T>)
    requires x.Complete? && y.Complete?
    ensures Concat([x, y]) == Complete(x.items + y.items)
  {
    assert [x, y][1..] == [y] && [y][1..] == [];
    assert Concat([y]) == Then(y, Complete([]));
    assert y.items + [] == y.items;
  }

  /** Overloads taking workspace files convert each to a source file
      first: a workspace file yields what the source file with its name and
      text yields. */
  function ExtractWorkspaceFileViewPorts(file: WorkspaceFile, parse: string -> seq<Node>): (r: Extraction<Viewport>)
    ensures ViewportsOf(SourceFile(file.name, file.text), FindRegions(file.name, parse(file.text)), r)
  {
    ExtractViewPorts(ToSourceFile(file), parse)
  }

  function ExtractWorkspaceViewports(files: seq<WorkspaceFile>, parse: string -> seq<Node>): (r: Extraction<Viewport>)
    ensures r.Complete? <==> forall i :: 0 <= i < |files| ==> ExtractWorkspaceFileViewPorts(files[i], parse).Complete?
    ensures r.Thrown? ==> r.error == InvalidOperationException(DuplicateIdMessage)
  {
    var sources := Map(ToSourceFile, files);
    var r := ExtractViewports(sources, parse);
    assert forall i :: 0 <= i < |files| ==>
      ExtractViewPorts(sources[i], parse) == ExtractWorkspaceFileViewPorts(files[i], parse);
    r
  }

  /** Workspace files are processed one after another, and an exception in
      one file stops the files after it. */
  lemma ExtractWorkspaceViewportsAppend(a: seq<WorkspaceFile>, b: seq<WorkspaceFile>, parse: string -> seq<Node>)
    ensures ExtractWorkspaceViewports(a + b, parse)
         == Then(ExtractWorkspaceViewports(a, parse), ExtractWorkspaceViewports(b, parse))
  {
    MapAppend(ToSourceFile, a, b);
    ExtractViewportsAppend(Map(ToSourceFile, a), Map(ToSourceFile, b), parse);
  }

  /** One workspace file alone yields exactly its own viewports. */
  lemma ExtractWorkspaceViewportsSingle(f: WorkspaceFile, parse: string -> seq<Node>)
    ensures ExtractWorkspaceViewports([f], parse) == ExtractWorkspaceFileViewPorts(f, parse)
  {
    var src := ToSourceFile(f);
    var x := ExtractViewPorts(src, parse);
    assert Map(ToSourceFile, [f]) == [src];
    assert Map((g: SourceFile) => ExtractViewPorts(g, parse), [src]) == [x];
    OneExtraction(x);
  }

  lemma OneExtraction<T>(x: Extraction<T>)
    ensures Concat([x]) == x
  {
    assert [x][1..] == [];
    if x.Complete? {
      assert x.items + [] == x.items;
    }
  }
}
