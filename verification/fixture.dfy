/** The `ViewportCode.cs` buffer the API contract tests build: one method
    body wrapped in `#region viewport` ... `#endregion`, with the nodes and
    tokens whose leading trivia matter here. Both the return statement and
    its `return` keyword carry the opening directive, so the same trivia is
    met twice; the method's closing brace carries `#endregion`.
 */
module ViewportFixture {
  import opened Text
  import opened Syntax
  import opened Protocol
  import opened Regions
  import opened Scanner
  import opened Extraction

  const Prologue := "\nusing System.Collections.Generic;\nusing System;\n\nnamespace Example\n{\n    public static class Sample\n    {\n        public static object Method()\n        {\n"
  const Opening := "#region viewport"
  const Body := "\n            return \"Hello world!\"; \n"
  const Closing := "#endregion"
  const After := "\n        }\n    }\n}"

  const Code := Prologue + Opening + Body + Closing + After

  /** Offsets of the two directives in `Code`. */
  const OpenAt := |Prologue|
  const CloseAt := |Prologue| + |Opening| + |Body|

  const FileName := "ViewportCode.cs"
  const File := SourceFile(FileName, Code)

  /** The file's first line break, leading trivia of the first using
      directive and of its `using` keyword. */
  const FirstLine := Trivia(OtherTrivia, "\n", TextSpan(0, 1), TextSpan(0, 1))
  /** `#region viewport` with its line break. */
  const Open := Trivia(RegionDirectiveTrivia, Opening + "\n", TextSpan(OpenAt, 17), TextSpan(OpenAt, 16))
  const Indent := Trivia(OtherTrivia, "            ", TextSpan(OpenAt + 17, 12), TextSpan(OpenAt + 17, 12))
  /** `#endregion` with its line break. */
  const Close := Trivia(EndRegionDirectiveTrivia, Closing + "\n", TextSpan(CloseAt, 11), TextSpan(CloseAt, 10))
  const BraceIndent := Trivia(OtherTrivia, "        ", TextSpan(CloseAt + 11, 8), TextSpan(CloseAt + 11, 8))

  /** The nodes and tokens whose leading trivia matter here, in document
      order: the first using directive and its `using` keyword (both led by
      the first line break), then the return statement and its `return`
      keyword (both led by the opening directive), then the closing brace of
      the method body (led by the closing directive). The other nodes and
      tokens carry no directive, so the query never selects them. */
  const Nodes := Heads + (Heads + (Returns + (Returns + Braces)))
  const Heads := [Node([FirstLine])]
  const Returns := [Node([Open, Indent])]
  const Braces := [Node([Close, BraceIndent])]

  /** The parser, fixed to this file. */
  const Parse: string -> seq<Node> := (t: string) => Nodes

  /** The middle piece of a five-part concatenation sits at the sum of the
      lengths before it. */
  lemma SliceOfConcat(a: string, b: string, c: string, d: string, e: string)
    ensures (a + b + c + d + e)[|a|..|a| + |b|] == b
    ensures (a + b + c + d + e)[|a| + |b|..|a| + |b| + |c|] == c
    ensures (a + b + c + d + e)[|a| + |b| + |c|..|a| + |b| + |c| + |d|] == d
  {
    var s := a + b + c + d + e;
    assert s == a + (b + (c + (d + e)));
    assert s[|a|..] == b + (c + (d + e));
    assert s[|a| + |b|..] == c + (d + e);
    assert s[|a| + |b| + |c|..] == d + e;
  }

  /** Where the directives and the method body lie in `Code`. */
  lemma OffsetsOfDirectives()
    ensures |Opening| == 16 && |Closing| == 10
    ensures Code[OpenAt..OpenAt + 16] == Opening && Code[CloseAt..CloseAt + 10] == Closing
    ensures Code[OpenAt + 16..CloseAt] == Body
  {
    SliceOfConcat(Prologue, Opening, Body, Closing, After);
  }

  lemma LabelOfOpen()
    ensures RegionName(Open) == "viewport"
  {
    var tail := " " + "viewport" + "\n";
    forall i | 0 <= i < |tail| ensures !OccursAt(tail, RegionKeyword, i) {
      assert tail[i] != RegionKeyword[0];
    }
    assert Open.fullText == "" + RegionKeyword + tail;
    RegionNameOfDirective(Open, "", " ", "viewport", "\n");
  }

  lemma NoDirectiveSelected(x: Trivia)
    requires !IsRegionDirective(x)
    ensures NodesWithRegionDirectives([Node([x])]) == []
  {
    assert [x][1..] == [];
    assert [Node([x])][1..] == [];
  }

  lemma OneDirectiveSelected(o: Trivia, i: Trivia)
    requires IsRegionDirective(o) && !IsRegionDirective(i)
    ensures NodesWithRegionDirectives([Node([o, i])]) == [Node([o, i])]
  {
    assert [o, i][1..] == [i] && [i][1..] == [];
    assert [Node([o, i])][1..] == [];
  }

  /** The query keeps the nodes whose leading trivia hold one directive,
      each once, and drops the nodes without any. */
  lemma SelectedNodes(x: Trivia, o: Trivia, i: Trivia, c: Trivia, w: Trivia)
    requires !IsRegionDirective(x) && !IsRegionDirective(i) && !IsRegionDirective(w)
    requires IsRegionDirective(o) && IsRegionDirective(c)
    ensures var a, b, d := [Node([x])], [Node([o, i])], [Node([c, w])];
      NodesWithRegionDirectives(a + (a + (b + (b + d)))) == b + (b + d)
  {
    var a, b, d := [Node([x])], [Node([o, i])], [Node([c, w])];
    NoDirectiveSelected(x);
    OneDirectiveSelected(o, i);
    OneDirectiveSelected(c, w);
    NodesWithRegionDirectivesAppend(b, d);
    NodesWithRegionDirectivesAppend(b, b + d);
    NodesWithRegionDirectivesAppend(a, b + (b + d));
    NodesWithRegionDirectivesAppend(a, a + (b + (b + d)));
  }

  lemma FlattenSelected(o: Trivia, i: Trivia, c: Trivia, w: Trivia)
    ensures var b, d := [Node([o, i])], [Node([c, w])];
      Flatten(b + (b + d)) == [o, i, o, i, c, w]
  {
    var b, d := [Node([o, i])], [Node([c, w])];
    assert Flatten(b) == [o, i] by { assert b[1..] == []; }
    assert Flatten(d) == [c, w] by { assert d[1..] == []; }
    FlattenAppend(b, d);
    FlattenAppend(b, b + d);
  }

  /** Trivia met a second time is skipped; the rest is kept in order. */
  lemma DedupRepeatedPair(o: Trivia, i: Trivia, c: Trivia, w: Trivia)
    requires o.fullSpan != i.fullSpan && o.fullSpan != c.fullSpan && o.fullSpan != w.fullSpan
    requires i.fullSpan != c.fullSpan && i.fullSpan != w.fullSpan && c.fullSpan != w.fullSpan
    ensures Dedup([o, i, o, i, c, w], {}) == [o, i, c, w]
  {
    var all := [o, i, o, i, c, w];
    var s1: set<TextSpan> := {o.fullSpan};
    var s2 := s1 + {i.fullSpan};
    var s3 := s2 + {c.fullSpan};
    assert Dedup(all[5..], s3) == [w];
    assert Dedup(all[4..], s2) == [c, w];
    assert s2 + {i.fullSpan} == s2;
    assert Dedup(all[3..], s2) == [c, w];
    assert s2 + {o.fullSpan} == s2;
    assert Dedup(all[2..], s2) == [c, w];
    assert Dedup(all[1..], s1) == [i, c, w];
    assert {} + {o.fullSpan} == s1;
  }

  /** The opening directive is pushed and popped by the closing one. */
  lemma PairingOnePair(fileName: string, o: Trivia, i: Trivia, c: Trivia, w: Trivia)
    requires o.kind == RegionDirectiveTrivia && c.kind == EndRegionDirectiveTrivia
    requires i.kind == OtherTrivia && w.kind == OtherTrivia
    ensures Pairing(fileName, Initial, [o, i, c, w]).found == [Match(fileName, o, c)]
  {
    var m1 := Matching([], [o]);
    var m3 := Matching([Match(fileName, o, c)], []);
    assert Pairing(fileName, m3, [w]) == m3 by {
      assert [w][1..] == [];
    }
    assert Pairing(fileName, m1, [c, w]) == m3 by {
      assert PairStep(fileName, m1, c) == m3 by {
        assert [] + [Match(fileName, o, c)] == [Match(fileName, o, c)] && [o][..0] == [];
      }
      assert [c, w][1..] == [w];
    }
    assert Pairing(fileName, m1, [i, c, w]) == m3 by {
      assert [i, c, w][1..] == [c, w];
    }
    assert PairStep(fileName, Initial, o) == m1;
    assert [o, i, c, w][1..] == [i, c, w];
  }

  /** The trivia the scan processes: the opening directive and its
      indentation once, although two nodes carry them. */
  lemma ProcessedOnce()
    ensures ProcessedTrivia(Nodes) == [Open, Indent, Close, BraceIndent]
  {
    SelectedNodes(FirstLine, Open, Indent, Close, BraceIndent);
    FlattenSelected(Open, Indent, Close, BraceIndent);
    DedupRepeatedPair(Open, Indent, Close, BraceIndent);
  }

  /** The scan finds one pair: the opening and closing directive, named by
      the opening directive's label. */
  lemma FoundInFixture(fileName: string)
    ensures FindRegions(fileName, Nodes) == [RegionMatch(Open, Close, BufferId(fileName, "viewport"))]
  {
    ProcessedOnce();
    PairingOnePair(fileName, Open, Indent, Close, BraceIndent);
    LabelOfOpen();
  }

  /** A file in which the scan finds a single pair yields a single
      viewport. */
  lemma SingleViewport(file: SourceFile, parse: string -> seq<Node>, m: RegionMatch)
    requires FindRegions(file.name, parse(file.text)) == [m]
    ensures ExtractViewPorts(file, parse)
         == Complete([Viewport(file, MatchSpan(m), BufferId(file.name, RegionName(m.startRegion)))])
  {
    var r := ExtractViewPorts(file, parse);
    assert FreshLabels([m], {});
    assert |r.items| == 1;
  }

  /** The test fixture yields exactly one viewport, labelled `viewport`,
      covering the method body between the two directives (the text
      `OffsetsOfDirectives` places at that span). */
  lemma ViewportCodeFixture()
    ensures ExtractViewPorts(File, Parse)
         == Complete([Viewport(File, TextSpan(OpenAt + 16, |Body|), BufferId(FileName, "viewport"))])
  {
    LabelOfOpen();
    FoundInFixture(FileName);
    assert Parse(File.text) == Nodes;
    assert MatchSpan(RegionMatch(Open, Close, BufferId(FileName, "viewport"))) == TextSpan(OpenAt + 16, |Body|) by {
      OffsetsOfDirectives();
    }
    SingleViewport(File, Parse, RegionMatch(Open, Close, BufferId(FileName, "viewport")));
  }

  lemma OneViewportEach(f: SourceFile, g: SourceFile, parse: string -> seq<Node>, vf: Viewport, vg: Viewport)
    requires ExtractViewPorts(f, parse) == Complete([vf]) && ExtractViewPorts(g, parse) == Complete([vg])
    ensures ExtractViewports([f, g], parse) == Complete([vf, vg])
  {
    var ef, eg := ExtractViewPorts(f, parse), ExtractViewPorts(g, parse);
    assert ef.items == [vf] && eg.items == [vg];
    TwoFilesConcatenate(f, g, parse);
    assert ExtractViewports([f, g], parse) == Complete(ef.items + eg.items);
    assert ef.items + eg.items == [vf, vg];
  }

  /** The same label in two files is no clash: identifiers are unique only
      within one file, so both files' viewports are yielded. */
  lemma SameLabelInTwoFiles()
    ensures var other := SourceFile("Other.cs", Code);
      ExtractViewports([File, other], Parse)
        == Complete([
             Viewport(File, TextSpan(OpenAt + 16, |Body|), BufferId(FileName, "viewport")),
             Viewport(other, TextSpan(OpenAt + 16, |Body|), BufferId("Other.cs", "viewport"))])
  {
    var other := SourceFile("Other.cs", Code);
    var span := TextSpan(OpenAt + 16, |Body|);
    var v1 := Viewport(File, span, BufferId(FileName, "viewport"));
    var v2 := Viewport(other, span, BufferId("Other.cs", "viewport"));
    ViewportCodeFixture();
    LabelOfOpen();
    FoundInFixture("Other.cs");
    assert Parse(other.text) == Nodes;
    assert MatchSpan(RegionMatch(Open, Close, BufferId("Other.cs", "viewport"))) == span by {
      OffsetsOfDirectives();
    }
    SingleViewport(other, Parse, RegionMatch(Open, Close, BufferId("Other.cs", "viewport")));
    OneViewportEach(File, other, Parse, v1, v2);
  }
}
