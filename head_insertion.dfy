/** The second step of replace_css: PHP's `str_replace` of "</head>" by
    a style block followed by "</head>".  str_replace scans the subject
    left to right and replaces every non-overlapping occurrence of the
    search string; the search is case-sensitive. */
module HeadInsertion {

  const HeadClose: string := "</head>"

  predicate OccursAt(s: string, p: nat, needle: string)
  {
    p + |needle| <= |s| && s[p..p + |needle|] == needle
  }

  /** What str_replace makes of s[p..] for a non-empty search string. */
  function ReplaceFrom(search: string, replace: string, s: string, p: nat): (r: string)
    requires |search| > 0 && p <= |s|
    decreases |s| - p
  {
    if p == |s| then []
    else if OccursAt(s, p, search) then replace + ReplaceFrom(search, replace, s, p + |search|)
    else [s[p]] + ReplaceFrom(search, replace, s, p + 1)
  }

  /** str_replace(search, replace, subject) for string arguments; an
      empty search string leaves the subject as it is. */
  function StrReplace(search: string, replace: string, subject: string): (r: string)
    ensures search == [] ==> r == subject
    ensures |replace| >= |search| ==> |r| >= |subject|
    ensures |replace| == |search| ==> |r| == |subject|
  {
    if search == [] then subject
    else
      ReplaceFromLength(search, replace, subject, 0);
      ReplaceFrom(search, replace, subject, 0)
  }

  /** A replacement at least as long as the search string never shortens
      the subject, and one of the same length keeps its length. */
  lemma {:induction false} ReplaceFromLength(search: string, replace: string, s: string, p: nat)
    requires |search| > 0 && p <= |s|
    ensures |replace| >= |search| ==> |ReplaceFrom(search, replace, s, p)| >= |s| - p
    ensures |replace| == |search| ==> |ReplaceFrom(search, replace, s, p)| == |s| - p
    decreases |s| - p
  {
    if p < |s| {
      if OccursAt(s, p, search) {
        ReplaceFromLength(search, replace, s, p + |search|);
      } else {
        ReplaceFromLength(search, replace, s, p + 1);
      }
    }
  }

  /** str_replace as a loop over the subject, building the result. */
  method ReplaceAll(search: string, replace: string, subject: string) returns (out: string)
    ensures out == StrReplace(search, replace, subject)
  {
    if search == [] {
      return subject;
    }
    out := "";
    var i := 0;
    while i < |subject|
      invariant i <= |subject|
      invariant out + ReplaceFrom(search, replace, subject, i) == ReplaceFrom(search, replace, subject, 0)
      decreases |subject| - i
    {
      ghost var rest := ReplaceFrom(search, replace, subject, i);
      if OccursAt(subject, i, search) {
        assert rest == replace + ReplaceFrom(search, replace, subject, i + |search|);
        out := out + replace;
        i := i + |search|;
      } else {
        assert rest == [subject[i]] + ReplaceFrom(search, replace, subject, i + 1);
        out := out + [subject[i]];
        i := i + 1;
      }
    }
  }

  // The insertion described without str_replace.

  /** s[p..] with `block` placed in front of every "</head>". */
  function InsertBefore(s: string, block: string, p: nat): (r: string)
    requires p <= |s|
    decreases |s| - p
  {
    if p == |s| then []
    else (if OccursAt(s, p, HeadClose) then block else []) + [s[p]] + InsertBefore(s, block, p + 1)
  }

  /** Number of occurrences of "</head>" in s[p..]. */
  function Occurrences(s: string, p: nat): (n: nat)
    requires p <= |s|
    decreases |s| - p
  {
    if p == |s| then 0
    else (if OccursAt(s, p, HeadClose) then 1 else 0) + Occurrences(s, p + 1)
  }

  /** "</head>" cannot overlap itself: no other occurrence starts within
      the next six characters. */
  lemma HeadCloseDoesNotOverlap(s: string, p: nat, d: nat)
    requires OccursAt(s, p, HeadClose) && 0 < d < |HeadClose|
    ensures !OccursAt(s, p + d, HeadClose)
  {
    assert s[p + d] == HeadClose[d];
    assert HeadClose[d] != HeadClose[0];
  }

  /** Away from "</head>" a character is copied and nothing is inserted. */
  lemma InsertBeforeCopies(s: string, block: string, p: nat)
    requires p < |s| && !OccursAt(s, p, HeadClose)
    ensures InsertBefore(s, block, p) == [s[p]] + InsertBefore(s, block, p + 1)
  {
  }

  lemma {:induction false} InsertBeforeSkips(s: string, block: string, p: nat, q: nat)
    requires p <= q <= |s|
    requires forall k :: p <= k < q ==> !OccursAt(s, k, HeadClose)
    ensures InsertBefore(s, block, p) == s[p..q] + InsertBefore(s, block, q)
    decreases q - p
  {
    if p < q {
      InsertBeforeSkips(s, block, p + 1, q);
      InsertBeforeCopies(s, block, p);
      assert s[p..q] == [s[p]] + s[p + 1..q];
    } else {
      assert s[p..q] == [];
    }
  }

  /** At an occurrence of "</head>" the block is put in front of it and
      the occurrence itself is copied unchanged. */
  lemma HeadCloseGetsBlock(s: string, block: string, q: nat)
    requires OccursAt(s, q, HeadClose)
    ensures InsertBefore(s, block, q) == block + HeadClose + InsertBefore(s, block, q + |HeadClose|)
  {
    var n := |HeadClose|;
    forall k | q + 1 <= k < q + n
      ensures !OccursAt(s, k, HeadClose)
    {
      HeadCloseDoesNotOverlap(s, q, k - q);
    }
    InsertBeforeSkips(s, block, q + 1, q + n);
    assert [s[q]] + s[q + 1..q + n] == HeadClose;
  }

  /** Replacing "</head>" by block + "</head>" is the same as putting the
      block in front of every "</head>" of the subject. */
  lemma {:induction false} ReplaceInsertsBefore(s: string, block: string, p: nat)
    requires p <= |s|
    ensures ReplaceFrom(HeadClose, block + HeadClose, s, p) == InsertBefore(s, block, p)
    decreases |s| - p
  {
    if p < |s| {
      if OccursAt(s, p, HeadClose) {
        ReplaceInsertsBefore(s, block, p + |HeadClose|);
        HeadCloseGetsBlock(s, block, p);
      } else {
        ReplaceInsertsBefore(s, block, p + 1);
      }
    }
  }

  /** The result is longer by one block per "</head>". */
  lemma {:induction false} InsertBeforeLength(s: string, block: string, p: nat)
    requires p <= |s|
    ensures |InsertBefore(s, block, p)| == |s| - p + Occurrences(s, p) * |block|
    decreases |s| - p
  {
    if p < |s| {
      InsertBeforeLength(s, block, p + 1);
      var rest := Occurrences(s, p + 1);
      if OccursAt(s, p, HeadClose) {
        assert |InsertBefore(s, block, p)| == |block| + 1 + |InsertBefore(s, block, p + 1)|;
        assert (1 + rest) * |block| == |block| + rest * |block|;
      } else {
        assert |InsertBefore(s, block, p)| == 1 + |InsertBefore(s, block, p + 1)|;
      }
    }
  }

  /** Without "</head>" nothing is inserted. */
  lemma {:induction false} NoHeadCloseNoChange(s: string, block: string, p: nat)
    requires p <= |s| && Occurrences(s, p) == 0
    ensures InsertBefore(s, block, p) == s[p..]
    decreases |s| - p
  {
    if p < |s| {
      NoHeadCloseNoChange(s, block, p + 1);
      assert s[p..] == [s[p]] + s[p + 1..];
    }
  }

  /** Each "</head>" of the subject is kept and has the block right in
      front of it: the result from p on is the text up to the first
      occurrence, the block, "</head>" and the result after it. */
  lemma FirstHeadCloseGetsBlock(s: string, block: string, p: nat, q: nat)
    requires p <= q <= |s| && OccursAt(s, q, HeadClose)
    requires forall k :: p <= k < q ==> !OccursAt(s, k, HeadClose)
    ensures StrReplace(HeadClose, block + HeadClose, s[p..]) ==
      s[p..q] + block + HeadClose + StrReplace(HeadClose, block + HeadClose, s[q + |HeadClose|..])
  {
    SuffixInsertBefore(s, block, p);
    SuffixInsertBefore(s, block, q + |HeadClose|);
    InsertBeforeSkips(s, block, p, q);
    HeadCloseGetsBlock(s, block, q);
  }

  /** Working on a suffix is working from an offset. */
  lemma SuffixInsertBefore(s: string, block: string, p: nat)
    requires p <= |s|
    ensures StrReplace(HeadClose, block + HeadClose, s[p..]) == InsertBefore(s, block, p)
  {
    ReplaceInsertsBefore(s[p..], block, 0);
    SuffixShift(s, block, p, 0);
  }

  lemma OccursInSuffix(s: string, p: nat, k: nat)
    requires p + k <= |s|
    ensures OccursAt(s[p..], k, HeadClose) <==> OccursAt(s, p + k, HeadClose)
  {
    if p + k + |HeadClose| <= |s| {
      assert s[p..][k..k + |HeadClose|] == s[p + k..p + k + |HeadClose|];
    }
  }

  lemma {:induction false} SuffixShift(s: string, block: string, p: nat, k: nat)
    requires p + k <= |s|
    ensures InsertBefore(s[p..], block, k) == InsertBefore(s, block, p + k)
    decreases |s| - p - k
  {
    if p + k < |s| {
      var t := s[p..];
      SuffixShift(s, block, p, k + 1);
      OccursInSuffix(s, p, k);
      assert t[k] == s[p + k];
      assert InsertBefore(t, block, k)
          == (if OccursAt(t, k, HeadClose) then block else []) + [t[k]] + InsertBefore(t, block, k + 1);
    }
  }

  /** The search is case-sensitive: an upper-case "</HEAD>" is not found,
      whatever block is to be inserted. */
  lemma UpperCaseHeadCloseIsIgnored(block: string)
    ensures StrReplace(HeadClose, block + HeadClose, "</HEAD>") == "</HEAD>"
  {
    var s := "</HEAD>";
    forall k | 0 <= k < |s|
      ensures !OccursAt(s, k, HeadClose)
    {
      if k == 0 {
        assert s[0..7][2] != HeadClose[2];
      }
    }
    assert Occurrences(s, 0) == 0 by {
      OccurrencesZero(s, 0);
    }
    ReplaceInsertsBefore(s, block, 0);
    NoHeadCloseNoChange(s, block, 0);
  }

  lemma {:induction false} OccurrencesZero(s: string, p: nat)
    requires p <= |s|
    requires forall k :: p <= k < |s| ==> !OccursAt(s, k, HeadClose)
    ensures Occurrences(s, p) == 0
    decreases |s| - p
  {
    if p < |s| {
      OccurrencesZero(s, p + 1);
    }
  }
}
