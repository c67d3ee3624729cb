/** Properties of the viewports of a file, stated over the trivia the scan
    processes (each once, in the order it is first met).
 */
module ViewportProperties {
  import opened Syntax
  import opened Protocol
  import opened Regions
  import opened Scanner
  import opened Extraction

  /** When the processed trivia lie in document order, every viewport
      yielded has a non-negative length and any two are disjoint or nested:
      regions never partially overlap, though an outer region does contain
      its inner ones. */
  lemma ViewportsNest(file: SourceFile, parse: string -> seq<Node>)
    requires DocumentOrder(ProcessedTrivia(parse(file.text)))
    ensures var vs := ExtractViewPorts(file, parse).Yielded();
      && (forall i :: 0 <= i < |vs| ==> vs[i].region.length >= 0)
      && (forall i, j :: 0 <= i < |vs| && 0 <= j < |vs| ==> Laminar(vs[i].region, vs[j].region))
  {
    var nodes := parse(file.text);
    var found := FindRegions(file.name, nodes);
    assert (forall i :: 0 <= i < |found| ==> MatchSpan(found[i]).length >= 0) && FoundLaminar(found) by {
      PairingNests(file.name, ProcessedTrivia(nodes));
    }
    SpansNest(found, ExtractViewPorts(file, parse).Yielded());
  }

  lemma SpansNest(found: seq<RegionMatch>, vs: seq<Viewport>)
    requires |vs| <= |found| && forall i :: 0 <= i < |vs| ==> vs[i].region == MatchSpan(found[i])
    requires forall i :: 0 <= i < |found| ==> MatchSpan(found[i]).length >= 0
    requires FoundLaminar(found)
    ensures forall i :: 0 <= i < |vs| ==> vs[i].region.length >= 0
    ensures forall i, j :: 0 <= i < |vs| && 0 <= j < |vs| ==> Laminar(vs[i].region, vs[j].region)
  {
  }

  /** A file that extracts cleanly yields one viewport per matched pair:
      every opening directive gives a viewport unless it is still open at
      the end, and open directives left over cause no error. */
  lemma ViewportsCount(file: SourceFile, parse: string -> seq<Node>)
    requires ExtractViewPorts(file, parse).Complete?
    ensures var ts := ProcessedTrivia(parse(file.text));
      && |ExtractViewPorts(file, parse).items| + |Pairing(file.name, Initial, ts).stack| == Opens(ts)
      && |ExtractViewPorts(file, parse).items| <= Closes(ts)
  {
    var nodes := parse(file.text);
    PairingCounts(file.name, Initial, ProcessedTrivia(nodes));
  }

  /** With well-nested directives, a file whose labels are distinct yields
      exactly one viewport per opening directive. */
  lemma WellNestedViewports(file: SourceFile, parse: string -> seq<Node>)
    requires Balanced(ProcessedTrivia(parse(file.text)))
    requires FreshLabels(FindRegions(file.name, parse(file.text)), {})
    ensures ExtractViewPorts(file, parse).Complete?
    ensures |ExtractViewPorts(file, parse).items| == Opens(ProcessedTrivia(parse(file.text)))
  {
    var nodes := parse(file.text);
    BalancedPairsEveryOpen(file.name, ProcessedTrivia(nodes));
  }

  /** A label repeated within one file makes extraction throw, after
      yielding the viewports before the first repetition. */
  lemma RepeatedLabelThrows(file: SourceFile, parse: string -> seq<Node>, i: nat, j: nat)
    requires var found := FindRegions(file.name, parse(file.text));
      i < j < |found| && Label(found[i]) == Label(found[j])
    ensures var r := ExtractViewPorts(file, parse);
      && r.Thrown?
      && r.error == InvalidOperationException("viewports identifiers must be unique")
      && |r.emitted| <= j
  {
    var found := FindRegions(file.name, parse(file.text));
    var r := ExtractViewPorts(file, parse);
    assert !FreshLabels(found, {});
  }
}
