/** The two string operations the region extractor applies to a directive's
    text to obtain its label: removal of every occurrence of a keyword
    (`String.Replace(keyword, "")`) and white-space trimming (`String.Trim()`).
 */
module Text {

  /** The characters `Char.IsWhiteSpace` accepts: the ASCII control range
      U+0009..U+000D, the space, NEL, NBSP, the Ogham space mark, the
      spaces U+2000..U+200A, the line and paragraph separators, the narrow
      no-break space, the medium mathematical space and the ideographic
      space. */
  const WhiteSpaceChars: set<char> := {
    '\t', '\n', '\U{000B}', '\U{000C}', '\r', ' ', '\U{0085}', '\U{00A0}', '\U{1680}',
    '\U{2000}', '\U{2001}', '\U{2002}', '\U{2003}', '\U{2004}', '\U{2005}',
    '\U{2006}', '\U{2007}', '\U{2008}', '\U{2009}', '\U{200A}',
    '\U{2028}', '\U{2029}', '\U{202F}', '\U{205F}', '\U{3000}'
  }

  predicate IsWhiteSpace(c: char) {
    c in WhiteSpaceChars
  }

  predicate AllWhiteSpace(s: string) {
    forall i :: 0 <= i < |s| ==> IsWhiteSpace(s[i])
  }

  /** Neither the first nor the last character (if any) is white space. */
  predicate Trimmed(s: string) {
    s == [] || (!IsWhiteSpace(s[0]) && !IsWhiteSpace(s[|s| - 1]))
  }

  /** The first index at or after `i` that is not white space, or `|s|`. */
  function SkipForward(s: string, i: nat): (k: nat)
    requires i <= |s|
    ensures i <= k <= |s|
    ensures forall j :: i <= j < k ==> IsWhiteSpace(s[j])
    ensures k < |s| ==> !IsWhiteSpace(s[k])
    decreases |s| - i
  {
    if i == |s| || !IsWhiteSpace(s[i]) then i else SkipForward(s, i + 1)
  }

  /** The least index `k` in `[lo, e]` such that `s[k..e]` is all white
      space. */
  function SkipBackward(s: string, lo: nat, e: nat): (k: nat)
    requires lo <= e <= |s|
    ensures lo <= k <= e
    ensures forall j :: k <= j < e ==> IsWhiteSpace(s[j])
    ensures k > lo ==> !IsWhiteSpace(s[k - 1])
    decreases e
  {
    if e == lo || !IsWhiteSpace(s[e - 1]) then e else SkipBackward(s, lo, e - 1)
  }

  /** `r` is what is left of `s` once the first `lead` characters and the
      characters after `lead + |r|` are dropped, all of them white space. */
  predicate Unpads(s: string, r: string, lead: int) {
    && 0 <= lead && lead + |r| <= |s|
    && r == s[lead..lead + |r|]
    && AllWhiteSpace(s[..lead]) && AllWhiteSpace(s[lead + |r|..])
  }

  /** `String.Trim()`: the result is `s` with white space removed on both
      sides, and it neither starts nor ends with white space. */
  function Trim(s: string): (r: string)
    ensures Trimmed(r)
    ensures exists lead :: Unpads(s, r, lead)
  {
    var a := SkipForward(s, 0);
    var b := SkipBackward(s, a, |s|);
    assert Unpads(s, s[a..b], a);
    s[a..b]
  }

  /** The forward skip stops at the first character that is not white
      space, wherever that is. */
  lemma SkipForwardAt(s: string, i: nat, k: nat)
    requires i <= k <= |s|
    requires forall j :: i <= j < k ==> IsWhiteSpace(s[j])
    requires k < |s| ==> !IsWhiteSpace(s[k])
    ensures SkipForward(s, i) == k
  {
  }

  lemma SkipBackwardAt(s: string, lo: nat, e: nat, k: nat)
    requires lo <= k <= e <= |s|
    requires forall j :: k <= j < e ==> IsWhiteSpace(s[j])
    requires k > lo ==> !IsWhiteSpace(s[k - 1])
    ensures SkipBackward(s, lo, e) == k
  {
  }

  /** Trimming a trimmed string surrounded by white space gives it back. */
  lemma TrimPadded(a: string, b: string, c: string)
    requires AllWhiteSpace(a) && AllWhiteSpace(c) && Trimmed(b)
    ensures Trim(a + b + c) == b
  {
    var s := a + b + c;
    assert forall j :: 0 <= j < |a| ==> s[j] == a[j];
    assert forall j :: 0 <= j < |b| ==> s[|a| + j] == b[j];
    assert forall j :: 0 <= j < |c| ==> s[|a| + |b| + j] == c[j];
    if b == [] {
      SkipForwardAt(s, 0, |s|);
      SkipBackwardAt(s, |s|, |s|, |s|);
    } else {
      SkipForwardAt(s, 0, |a|);
      SkipBackwardAt(s, |a|, |s|, |a| + |b|);
      assert s[|a|..|a| + |b|] == b;
    }
  }

  lemma WhiteSpaceConcat(a: string, b: string)
    requires AllWhiteSpace(a) && AllWhiteSpace(b)
    ensures AllWhiteSpace(a + b)
  {
  }

  /** A string that neither starts nor ends with white space is its own
      trim. */
  lemma TrimOfTrimmed(t: string)
    requires Trimmed(t)
    ensures Trim(t) == t
  {
    SkipForwardAt(t, 0, 0);
    SkipBackwardAt(t, 0, |t|, |t|);
  }

  /** Trimming is idempotent. */
  lemma TrimIdempotent(s: string)
    ensures Trim(Trim(s)) == Trim(s)
  {
    TrimOfTrimmed(Trim(s));
  }

  /** `pat` occurs in `s` at index `i`. */
  predicate OccursAt(s: string, pat: string, i: int) {
    0 <= i && i + |pat| <= |s| && s[i..i + |pat|] == pat
  }

  /** `String.Replace(pat, "")`: scans left to right and deletes every
      non-overlapping occurrence of `pat`; text that only becomes an
      occurrence after a deletion is not rescanned. Each deletion removes
      exactly `|pat|` characters, so the result is never longer. */
  function RemoveAll(s: string, pat: string): (r: string)
    requires |pat| > 0
    ensures |r| <= |s|
    decreases |s|
  {
    if |s| < |pat| then s
    else if s[..|pat|] == pat then
      var r := RemoveAll(s[|pat|..], pat);
      assert s == s[..|pat|] + s[|pat|..];
      r
    else
      var r := RemoveAll(s[1..], pat);
      assert s == [s[0]] + s[1..];
      [s[0]] + r
  }

  /** Text without any occurrence of `pat` is left unchanged. */
  lemma {:induction false} RemoveAllWithoutOccurrence(s: string, pat: string)
    requires |pat| > 0
    requires forall i :: 0 <= i < |s| ==> !OccursAt(s, pat, i)
    ensures RemoveAll(s, pat) == s
    decreases |s|
  {
    if |s| >= |pat| {
      assert !OccursAt(s, pat, 0);
      forall i | 0 <= i < |s| - 1
        ensures !OccursAt(s[1..], pat, i)
      {
        if OccursAt(s[1..], pat, i) {
          assert s[1..][i..i + |pat|] == s[i + 1..i + 1 + |pat|];
          assert OccursAt(s, pat, i + 1);
        }
      }
      RemoveAllWithoutOccurrence(s[1..], pat);
      assert [s[0]] + s[1..] == s;
    }
  }

  /** Replacing never introduces a character that was not there. */
  lemma {:induction false} RemoveAllKeepsCharacters(s: string, pat: string)
    requires |pat| > 0
    ensures multiset(RemoveAll(s, pat)) <= multiset(s)
    decreases |s|
  {
    if |s| >= |pat| {
      if s[..|pat|] == pat {
        RemoveAllKeepsCharacters(s[|pat|..], pat);
        assert s == s[..|pat|] + s[|pat|..];
      } else {
        RemoveAllKeepsCharacters(s[1..], pat);
        assert s == [s[0]] + s[1..];
      }
    }
  }

  /** Text in which `pat` occurs gets strictly shorter. */
  lemma {:induction false} RemoveAllShortens(s: string, pat: string, i: nat)
    requires |pat| > 0 && OccursAt(s, pat, i)
    ensures |RemoveAll(s, pat)| < |s|
    decreases |s|
  {
    if s[..|pat|] != pat {
      assert i > 0;
      assert s[1..][i - 1..i - 1 + |pat|] == s[i..i + |pat|];
      RemoveAllShortens(s[1..], pat, i - 1);
    }
  }

  /** Replacing leaves the text unchanged exactly when `pat` does not occur
      in it. */
  lemma RemoveAllUnchangedIff(s: string, pat: string)
    requires |pat| > 0
    ensures RemoveAll(s, pat) == s <==> forall i :: 0 <= i < |s| ==> !OccursAt(s, pat, i)
  {
    if forall i :: 0 <= i < |s| ==> !OccursAt(s, pat, i) {
      RemoveAllWithoutOccurrence(s, pat);
    } else {
      var i :| 0 <= i < |s| && OccursAt(s, pat, i);
      RemoveAllShortens(s, pat, i);
    }
  }

  lemma KeepFirst(s: string, pat: string)
    requires 0 < |pat| <= |s| && s[0] != pat[0]
    ensures RemoveAll(s, pat) == [s[0]] + RemoveAll(s[1..], pat)
  {
    assert s[..|pat|][0] != pat[0];
  }

  /** An occurrence of `pat` at the very start is deleted. */
  lemma DropLeadingOccurrence(pat: string, t: string)
    requires |pat| > 0
    ensures RemoveAll(pat + t, pat) == RemoveAll(t, pat)
  {
    assert (pat + t)[..|pat|] == pat;
    assert (pat + t)[|pat|..] == t;
  }

  /** A leading run of characters that cannot start `pat` is kept as is, and
      an occurrence of `pat` right after it is deleted. */
  lemma {:induction false} RemoveAllAfterKeptPrefix(a: string, pat: string, t: string)
    requires |pat| > 0
    requires forall i :: 0 <= i < |a| ==> a[i] != pat[0]
    ensures RemoveAll(a + pat + t, pat) == a + RemoveAll(t, pat)
    decreases |a|
  {
    if a == [] {
      assert a + pat + t == pat + t;
      DropLeadingOccurrence(pat, t);
      assert a + RemoveAll(t, pat) == RemoveAll(t, pat);
    } else {
      var s := a + pat + t;
      var r := RemoveAll(t, pat);
      assert RemoveAll(s, pat) == [a[0]] + RemoveAll(a[1..] + pat + t, pat) by {
        assert s[0] == a[0] && s[1..] == a[1..] + pat + t;
        KeepFirst(s, pat);
      }
      RemoveAllAfterKeptPrefix(a[1..], pat, t);
      assert [a[0]] + (a[1..] + r) == a + r by {
        assert a == [a[0]] + a[1..];
      }
    }
  }

  /** With white space before it and no further occurrence after it, a
      keyword that does not start with white space is simply cut out. */
  lemma RemoveAllAfterWhiteSpace(lead: string, pat: string, body: string)
    requires |pat| > 0 && !IsWhiteSpace(pat[0]) && AllWhiteSpace(lead)
    requires forall i :: 0 <= i < |body| ==> !OccursAt(body, pat, i)
    ensures RemoveAll(lead + pat + body, pat) == lead + body
  {
    forall i | 0 <= i < |lead| ensures lead[i] != pat[0] {
      assert IsWhiteSpace(lead[i]);
    }
    RemoveAllAfterKeptPrefix(lead, pat, body);
    RemoveAllWithoutOccurrence(body, pat);
  }

  /** Cutting the keyword out of `lead keyword pad name trail` and trimming
      leaves `name`. */
  lemma LabelOfKeywordLine(lead: string, pat: string, pad: string, name: string, trail: string)
    requires |pat| > 0 && !IsWhiteSpace(pat[0])
    requires AllWhiteSpace(lead) && AllWhiteSpace(pad) && AllWhiteSpace(trail) && Trimmed(name)
    requires forall i :: 0 <= i < |pad + name + trail| ==> !OccursAt(pad + name + trail, pat, i)
    ensures Trim(RemoveAll(lead + pat + (pad + name + trail), pat)) == name
  {
    RemoveAllAfterWhiteSpace(lead, pat, pad + name + trail);
    TrimAfterCut(lead, pad, name, trail);
  }

  /** Two occurrences of `pat`, each after characters that cannot start
      it, are both deleted. */
  lemma RemoveAllTwice(lead: string, pat: string, a: string, b: string)
    requires |pat| > 0
    requires forall i :: 0 <= i < |lead| ==> lead[i] != pat[0]
    requires forall i :: 0 <= i < |a| ==> a[i] != pat[0]
    requires forall i :: 0 <= i < |b| ==> !OccursAt(b, pat, i)
    ensures RemoveAll(lead + pat + (a + pat + b), pat) == lead + (a + b)
  {
    RemoveAllAfterKeptPrefix(lead, pat, a + pat + b);
    RemoveAllAfterKeptPrefix(a, pat, b);
    RemoveAllWithoutOccurrence(b, pat);
  }

  /** Every occurrence of the keyword is cut, including one inside the
      name: `lead pat pad x pat y trail` leaves `x y` once trimmed. */
  lemma LabelWithInnerKeyword(lead: string, pat: string, pad: string, x: string, y: string, trail: string)
    requires |pat| > 0 && !IsWhiteSpace(pat[0])
    requires AllWhiteSpace(lead) && AllWhiteSpace(pad) && AllWhiteSpace(trail) && Trimmed(x + y)
    requires forall i :: 0 <= i < |pad + x| ==> (pad + x)[i] != pat[0]
    requires forall i :: 0 <= i < |y + trail| ==> !OccursAt(y + trail, pat, i)
    ensures Trim(RemoveAll(lead + pat + ((pad + x) + pat + (y + trail)), pat)) == x + y
  {
    var cut := RemoveAll(lead + pat + ((pad + x) + pat + (y + trail)), pat);
    assert cut == lead + (pad + (x + y) + trail) by {
      forall i | 0 <= i < |lead| ensures lead[i] != pat[0] {
        assert IsWhiteSpace(lead[i]);
      }
      RemoveAllTwice(lead, pat, pad + x, y + trail);
      Regroup(lead, pad, x, y, trail);
    }
    TrimAfterCut(lead, pad, x + y, trail);
  }

  lemma Regroup(a: string, b: string, c: string, d: string, e: string)
    ensures a + ((b + c) + (d + e)) == a + (b + (c + d) + e)
  {
  }

  lemma TrimAfterCut(lead: string, pad: string, name: string, trail: string)
    requires AllWhiteSpace(lead) && AllWhiteSpace(pad) && AllWhiteSpace(trail) && Trimmed(name)
    ensures Trim(lead + (pad + name + trail)) == name
  {
    assert lead + (pad + name + trail) == (lead + pad) + name + trail;
    WhiteSpaceConcat(lead, pad);
    TrimPadded(lead + pad, name, trail);
  }
}
