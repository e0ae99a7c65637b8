/** The first step of replace_css: `preg_replace` with the fixed pattern
      /<link[^>]*rel=["']stylesheet["'][^>]*>/i
    and an empty replacement.  The pattern is matched by hand: since no
    part of it can consume a '>', a match starting at `p` always ends just
    after the first '>' that follows "<link". */
module StylesheetLinks {
  import opened PhpStrings

  /** Length of the fragment rel="stylesheet" (either quote on either side). */
  const RelLength: nat := 16

  predicate IsQuote(c: char)
  {
    c == '"' || c == '\''
  }

  /** The fragment rel=["']stylesheet["'] starts at `i`, ignoring ASCII case. */
  predicate RelAt(s: string, i: nat)
  {
    i + RelLength <= |s| &&
    MatchesIgnoreCase(s, i, "rel=") && IsQuote(s[i + 4]) &&
    MatchesIgnoreCase(s, i + 5, "stylesheet") && IsQuote(s[i + 15])
  }

  /** No '>' in s[lo..hi]: what `[^>]*` may consume. */
  predicate NoGt(s: string, lo: nat, hi: nat)
  {
    forall k :: lo <= k < hi && k < |s| ==> s[k] != '>'
  }

  /** The regular expression, read piece by piece: "<link" at `p`, `[^>]*`
      up to `i`, the rel fragment at `i`, `[^>]*` up to `e - 1` and the
      closing '>' at `e - 1`; the match is s[p..e]. */
  predicate RegexMatchVia(s: string, p: nat, i: nat, e: nat)
    ensures RegexMatchVia(s, p, i, e) ==> p + 5 + RelLength < e <= |s| && s[e - 1] == '>'
  {
    MatchesIgnoreCase(s, p, "<link") && p + 5 <= i && i + RelLength < e <= |s| &&
    NoGt(s, p + 5, i) && RelAt(s, i) && NoGt(s, i + RelLength, e - 1) && s[e - 1] == '>'
  }

  ghost predicate RegexMatch(s: string, p: nat, e: nat)
    ensures RegexMatch(s, p, e) ==> p + 5 + RelLength < e <= |s| && s[e - 1] == '>'
  {
    exists i :: RegexMatchVia(s, p, i, e)
  }

  /** Position of the first '>' at or after `lo`, or |s| when there is none. */
  function FirstGt(s: string, lo: nat): (q: nat)
    requires lo <= |s|
    ensures lo <= q <= |s| && NoGt(s, lo, q)
    ensures q < |s| ==> s[q] == '>'
    decreases |s| - lo
  {
    if lo == |s| || s[lo] == '>' then lo else FirstGt(s, lo + 1)
  }

  /** Whether the rel fragment lies wholly inside s[lo..hi]. */
  function HasRel(s: string, lo: nat, hi: nat): (b: bool)
    requires lo <= hi <= |s|
    ensures b <==> exists i :: lo <= i && i + RelLength <= hi && RelAt(s, i)
    decreases hi - lo
  {
    if hi - lo < RelLength then false
    else RelAt(s, lo) || HasRel(s, lo + 1, hi)
  }

  /** The hand-rolled matcher: the end of the match starting at `p`, if any. */
  function MatchEnd(s: string, p: nat): (r: Option<nat>)
    ensures r.Some? ==> p + 5 + RelLength < r.value <= |s|
  {
    if MatchesIgnoreCase(s, p, "<link") then
      var q := FirstGt(s, p + 5);
      if q < |s| && HasRel(s, p + 5, q) then Some(q + 1) else None
    else None
  }

  /** FirstGt finds the first '>'. */
  lemma {:induction false} FirstGtIs(s: string, lo: nat, q: nat)
    requires lo <= q < |s| && s[q] == '>' && NoGt(s, lo, q)
    ensures FirstGt(s, lo) == q
    decreases q - lo
  {
    if lo < q {
      FirstGtIs(s, lo + 1, q);
    }
  }

  lemma RelAtHasNoGt(s: string, i: nat)
    requires RelAt(s, i)
    ensures NoGt(s, i, i + RelLength)
  {
    forall k | i <= k < i + RelLength
      ensures s[k] != '>'
    {
      if k < i + 4 {
        var j := k - i;
        MatchesIgnoreCaseAt(s, i, "rel=", 0, j);
        assert "rel="[j] != '>';
      } else if 5 <= k - i < 15 {
        var j := k - i - 5;
        MatchesIgnoreCaseAt(s, i + 5, "stylesheet", 0, j);
        assert "stylesheet"[j] != '>';
      }
    }
  }

  /** Soundness of the matcher: what it finds is a match. */
  lemma MatchEndIsSound(s: string, p: nat, e: nat)
    requires MatchEnd(s, p) == Some(e)
    ensures RegexMatch(s, p, e)
  {
    var q := FirstGt(s, p + 5);
    var i :| p + 5 <= i && i + RelLength <= q && RelAt(s, i);
    assert RegexMatchVia(s, p, i, e);
  }

  /** Completeness of the matcher: every match is found, with its end. */
  lemma MatchEndIsComplete(s: string, p: nat, i: nat, e: nat)
    requires RegexMatchVia(s, p, i, e)
    ensures MatchEnd(s, p) == Some(e)
  {
    RelAtHasNoGt(s, i);
    assert NoGt(s, p + 5, e - 1);
    FirstGtIs(s, p + 5, e - 1);
    assert HasRel(s, p + 5, e - 1);
  }

  /** The matcher agrees with the regular expression, in both directions;
      in particular a match starting at `p` has exactly one end. */
  lemma MatchEndIsRegexMatch(s: string, p: nat, e: nat)
    ensures MatchEnd(s, p) == Some(e) <==> RegexMatch(s, p, e)
  {
    if MatchEnd(s, p) == Some(e) {
      MatchEndIsSound(s, p, e);
    }
    if RegexMatch(s, p, e) {
      var i :| RegexMatchVia(s, p, i, e);
      MatchEndIsComplete(s, p, i, e);
    }
  }

  /** Everything preg_replace leaves of s[p..]: scanning left to right, a
      match is dropped and scanning resumes after it; otherwise one
      character is kept and scanning moves on by one. */
  function RemoveFrom(s: string, p: nat): (r: string)
    requires p <= |s|
    decreases |s| - p
  {
    if p == |s| then []
    else match MatchEnd(s, p)
      case Some(e) => RemoveFrom(s, e)
      case None => [s[p]] + RemoveFrom(s, p + 1)
  }

  function RemoveLinks(s: string): (r: string)
    ensures |r| <= |s|
  {
    RemoveFromShrinks(s, 0);
    RemoveFrom(s, 0)
  }

  /** The removal never lengthens what it scans. */
  lemma {:induction false} RemoveFromShrinks(s: string, p: nat)
    requires p <= |s|
    ensures |RemoveFrom(s, p)| <= |s| - p
    decreases |s| - p
  {
    if p < |s| {
      match MatchEnd(s, p)
      case Some(e) => RemoveFromShrinks(s, e);
      case None => RemoveFromShrinks(s, p + 1);
    }
  }

  /** The removal as a loop over the subject, building the result. */
  method RemoveStylesheetLinks(html: string) returns (out: string)
    ensures out == RemoveLinks(html)
  {
    out := "";
    var i := 0;
    while i < |html|
      invariant i <= |html|
      invariant out + RemoveFrom(html, i) == RemoveFrom(html, 0)
      decreases |html| - i
    {
      ghost var rest := RemoveFrom(html, i);
      var m := MatchEnd(html, i);
      if m.Some? {
        assert rest == RemoveFrom(html, m.value);
        i := m.value;
      } else {
        assert rest == [html[i]] + RemoveFrom(html, i + 1);
        out := out + [html[i]];
        i := i + 1;
      }
    }
  }

  // The removal described by the spans it deletes.

  datatype Span = Span(start: nat, end: nat)

  /** The spans preg_replace deletes from s[p..], in order. */
  function Matches(s: string, p: nat): (spans: seq<Span>)
    requires p <= |s|
    decreases |s| - p
  {
    if p == |s| then []
    else match MatchEnd(s, p)
      case Some(e) => [Span(p, e)] + Matches(s, e)
      case None => Matches(s, p + 1)
  }

  ghost predicate Covered(spans: seq<Span>, k: nat)
  {
    exists j :: 0 <= j < |spans| && spans[j].start <= k < spans[j].end
  }

  /** The characters of s[p..] that no span covers, in their original order. */
  ghost function KeepUncovered(s: string, spans: seq<Span>, p: nat): string
    requires p <= |s|
    decreases |s| - p
  {
    if p == |s| then []
    else (if Covered(spans, p) then [] else [s[p]]) + KeepUncovered(s, spans, p + 1)
  }

  function TotalLength(spans: seq<Span>): (n: int)
  {
    if spans == [] then 0 else spans[0].end - spans[0].start + TotalLength(spans[1..])
  }

  /** The deleted spans are regular-expression matches lying in s[p..]. */
  lemma {:induction false} MatchesAreMatches(s: string, p: nat)
    requires p <= |s|
    ensures forall j :: 0 <= j < |Matches(s, p)| ==>
      p <= Matches(s, p)[j].start < Matches(s, p)[j].end <= |s| &&
      RegexMatch(s, Matches(s, p)[j].start, Matches(s, p)[j].end)
    decreases |s| - p
  {
    if p < |s| {
      match MatchEnd(s, p)
      case Some(e) =>
        var rest := Matches(s, e);
        MatchesAreMatches(s, e);
        MatchEndIsRegexMatch(s, p, e);
        assert Matches(s, p) == [Span(p, e)] + rest;
        forall j | 0 < j < |Matches(s, p)|
          ensures Matches(s, p)[j] == rest[j - 1]
        {
        }
      case None =>
        MatchesAreMatches(s, p + 1);
    }
  }

  /** The deleted spans come in increasing order and do not overlap. */
  lemma {:induction false} MatchesAreOrdered(s: string, p: nat)
    requires p <= |s|
    ensures forall j :: 0 <= j < |Matches(s, p)| - 1 ==>
      Matches(s, p)[j].end <= Matches(s, p)[j + 1].start
    decreases |s| - p
  {
    if p < |s| {
      match MatchEnd(s, p)
      case Some(e) =>
        var rest := Matches(s, e);
        MatchesAreOrdered(s, e);
        MatchesAreMatches(s, e);
        assert Matches(s, p) == [Span(p, e)] + rest;
      case None =>
        MatchesAreOrdered(s, p + 1);
    }
  }

  /** Leftmost-first: no match of the regular expression starts at a
      position of s[p..] that the deleted spans leave uncovered. */
  lemma {:induction false} MatchesAreLeftmost(s: string, p: nat, q: nat, e: nat)
    requires p <= q < |s| && !Covered(Matches(s, p), q)
    ensures !RegexMatch(s, q, e)
    decreases |s| - p
  {
    match MatchEnd(s, p)
    case Some(e') =>
      var rest := Matches(s, e');
      assert Matches(s, p) == [Span(p, e')] + rest;
      CoveredOrBeyond(Span(p, e'), rest, q);
      MatchesAreLeftmost(s, e', q, e);
    case None =>
      if q == p {
        MatchEndIsRegexMatch(s, p, e);
      } else {
        MatchesAreLeftmost(s, p + 1, q, e);
      }
  }

  lemma {:induction false} SkipCovered(s: string, spans: seq<Span>, a: nat, b: nat)
    requires a <= b <= |s|
    requires forall k :: a <= k < b ==> Covered(spans, k)
    ensures KeepUncovered(s, spans, a) == KeepUncovered(s, spans, b)
    decreases b - a
  {
    if a < b {
      SkipCovered(s, spans, a + 1, b);
    }
  }

  lemma {:induction false} SameCoverage(s: string, spans1: seq<Span>, spans2: seq<Span>, a: nat)
    requires a <= |s|
    requires forall k :: a <= k < |s| ==> (Covered(spans1, k) <==> Covered(spans2, k))
    ensures KeepUncovered(s, spans1, a) == KeepUncovered(s, spans2, a)
    decreases |s| - a
  {
    if a < |s| {
      SameCoverage(s, spans1, spans2, a + 1);
    }
  }

  lemma LeadingSpanCovers(first: Span, rest: seq<Span>, k: nat)
    requires first.start <= k < first.end
    ensures Covered([first] + rest, k)
  {
    assert ([first] + rest)[0] == first;
  }

  lemma CoveredBeyondLeadingSpan(first: Span, rest: seq<Span>, k: nat)
    requires first.end <= k
    ensures Covered([first] + rest, k) <==> Covered(rest, k)
  {
    var all := [first] + rest;
    if Covered(all, k) {
      var j :| 0 <= j < |all| && all[j].start <= k < all[j].end;
      assert j > 0 && rest[j - 1] == all[j];
    }
    if Covered(rest, k) {
      var j :| 0 <= j < |rest| && rest[j].start <= k < rest[j].end;
      assert all[j + 1] == rest[j];
    }
  }

  /** A position at or after the leading span's start is covered by it,
      or lies past it and is covered exactly as by the remaining spans. */
  lemma CoveredOrBeyond(first: Span, rest: seq<Span>, k: nat)
    requires first.start <= k
    ensures Covered([first] + rest, k) || (first.end <= k && (Covered([first] + rest, k) <==> Covered(rest, k)))
  {
    if k < first.end {
      LeadingSpanCovers(first, rest, k);
    } else {
      CoveredBeyondLeadingSpan(first, rest, k);
    }
  }

  /** A span in front of other spans: its characters are dropped and it
      makes no difference beyond its end. */
  lemma DropLeadingSpan(s: string, first: Span, rest: seq<Span>)
    requires first.start <= first.end <= |s|
    ensures KeepUncovered(s, [first] + rest, first.start) == KeepUncovered(s, rest, first.end)
  {
    forall k | first.start <= k < first.end
      ensures Covered([first] + rest, k)
    {
      LeadingSpanCovers(first, rest, k);
    }
    SkipCovered(s, [first] + rest, first.start, first.end);
    forall k | first.end <= k < |s|
      ensures Covered([first] + rest, k) <==> Covered(rest, k)
    {
      CoveredBeyondLeadingSpan(first, rest, k);
    }
    SameCoverage(s, [first] + rest, rest, first.end);
  }

  /** The removal keeps exactly the characters outside the deleted spans,
      in their original order. */
  lemma {:induction false} RemovalKeepsUncovered(s: string, p: nat)
    requires p <= |s|
    ensures RemoveFrom(s, p) == KeepUncovered(s, Matches(s, p), p)
    decreases |s| - p
  {
    if p < |s| {
      match MatchEnd(s, p)
      case Some(e) =>
        RemovalKeepsUncovered(s, e);
        DropLeadingSpan(s, Span(p, e), Matches(s, e));
      case None =>
        RemovalKeepsUncovered(s, p + 1);
        MatchesAreMatches(s, p + 1);
        assert !Covered(Matches(s, p + 1), p);
    }
  }

  /** Length accounting: the result is as much shorter than s[p..] as the
      deleted spans are long. */
  lemma {:induction false} RemovalLength(s: string, p: nat)
    requires p <= |s|
    ensures |RemoveFrom(s, p)| == |s| - p - TotalLength(Matches(s, p))
    decreases |s| - p
  {
    if p < |s| {
      match MatchEnd(s, p)
      case Some(e) =>
        RemovalLength(s, e);
        assert Matches(s, p)[1..] == Matches(s, e);
      case None =>
        RemovalLength(s, p + 1);
    }
  }

  /** Where no match starts, preg_replace changes nothing. */
  lemma {:induction false} NoMatchNoChange(s: string, p: nat)
    requires p <= |s|
    requires forall i :: p <= i < |s| ==> MatchEnd(s, i) == None
    ensures RemoveFrom(s, p) == s[p..]
    decreases |s| - p
  {
    if p < |s| {
      NoMatchNoChange(s, p + 1);
      assert s[p..] == [s[p]] + s[p + 1..];
    }
  }

  /** Every rel fragment carries "l=" followed by a quote (the end of
      rel=" or rel='). */
  lemma RelAtShape(s: string, r: nat)
    requires r + RelLength <= |s|
    ensures RelAt(s, r) ==> Lower(s[r + 2]) == 'l' && s[r + 3] == '=' && IsQuote(s[r + 4])
  {
    if RelAt(s, r) {
      MatchesIgnoreCaseAt(s, r, "rel=", 0, 2);
      MatchesIgnoreCaseAt(s, r, "rel=", 0, 3);
    }
  }

  /** A subject in which no "l=" (either case of the letter) is followed
      by a quote comes back unchanged. */
  lemma NoQuotedRelNoChange(s: string)
    requires forall j :: 0 <= j && j + 2 < |s| ==>
      !(Lower(s[j]) == 'l' && s[j + 1] == '=' && IsQuote(s[j + 2]))
    ensures RemoveLinks(s) == s
  {
    forall r: nat | r + RelLength <= |s|
      ensures !RelAt(s, r)
    {
      RelAtShape(s, r);
    }
    NoMatchNoChange(s, 0);
  }

  /** A match starts with '<'. */
  lemma MatchStartsWithAngle(s: string, i: nat)
    requires i < |s| && s[i] != '<'
    ensures MatchEnd(s, i) == None
  {
  }
}
