/** Small pieces of PHP string semantics that the optimizer relies on,
    and the Option type the matcher uses for "no match". */
module PhpStrings {

  datatype Option<T> = None | Some(value: T)

  /** Case folding as PCRE applies it under the `i` flag to a byte string
      in the default locale: only the ASCII letters A-Z are folded. */
  function Lower(c: char): (r: char)
    ensures !('A' <= r <= 'Z')
    ensures r == c <==> !('A' <= c <= 'Z')
  {
    if 'A' <= c <= 'Z' then (c as int + 32) as char else c
  }

  /** `lit` (written in lower case) occurs at position `p` of `s`,
      ignoring ASCII case. */
  predicate MatchesIgnoreCase(s: string, p: nat, lit: string)
  {
    p + |lit| <= |s| && MatchesIgnoreCaseFrom(s, p, lit, 0)
  }

  /** lit[k..] occurs at position `p + k` of `s`, ignoring ASCII case. */
  predicate MatchesIgnoreCaseFrom(s: string, p: nat, lit: string, k: nat)
    requires k <= |lit|
    decreases |lit| - k
  {
    k == |lit| || (p + k < |s| && Lower(s[p + k]) == lit[k] && MatchesIgnoreCaseFrom(s, p, lit, k + 1))
  }

  /** A case-insensitive match fixes every character up to case. */
  lemma {:induction false} MatchesIgnoreCaseAt(s: string, p: nat, lit: string, k: nat, j: nat)
    requires k <= j < |lit|
    ensures MatchesIgnoreCaseFrom(s, p, lit, k) ==> p + j < |s| && Lower(s[p + j]) == lit[j]
    decreases j - k
  {
    if k < j {
      MatchesIgnoreCaseAt(s, p, lit, k + 1, j);
    }
  }

  /** The converse: matching every character up to case is a match. */
  lemma {:induction false} MatchesIgnoreCaseIntro(s: string, p: nat, lit: string, k: nat)
    requires k <= |lit| && p + |lit| <= |s|
    requires forall j :: k <= j < |lit| ==> Lower(s[p + j]) == lit[j]
    ensures MatchesIgnoreCaseFrom(s, p, lit, k)
    decreases |lit| - k
  {
    if k < |lit| {
      MatchesIgnoreCaseIntro(s, p, lit, k + 1);
    }
  }

  /** PHP's `empty()` on a string, which is also its falsiness test:
      only "" and "0" are empty. */
  predicate IsEmptyString(s: string)
    ensures IsEmptyString(s) ==> |s| <= 1
  {
    s == "" || s == "0"
  }
}
