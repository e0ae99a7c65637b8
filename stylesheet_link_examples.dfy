/** Examples of what the stylesheet-link pattern does and does not remove. */
module StylesheetLinkExamples {
  import opened PhpStrings
  import opened StylesheetLinks

  /** An unquoted rel=stylesheet link is kept. */
  lemma UnquotedRelIsKept()
    ensures RemoveLinks("<link rel=stylesheet href=a.css>") == "<link rel=stylesheet href=a.css>"
  {
    NoQuotedRelNoChange("<link rel=stylesheet href=a.css>");
  }

  /** A link with spaces around '=' is kept. */
  lemma SpacedRelIsKept()
    ensures RemoveLinks("<link rel = \"stylesheet\" href=\"a.css\">") == "<link rel = \"stylesheet\" href=\"a.css\">"
  {
    NoQuotedRelNoChange("<link rel = \"stylesheet\" href=\"a.css\">");
  }

  const MixedCaseLink := "a<LINKREL='StyleSheet\">b"

  /** rel='StyleSheet" is a rel fragment: case is ignored and the two
      quotes need not agree. */
  lemma MixedCaseRelAt()
    ensures RelAt(MixedCaseLink, 6)
  {
    MatchesIgnoreCaseIntro(MixedCaseLink, 6, "rel=", 0);
    MixedCaseStylesheet();
  }

  lemma MixedCaseStylesheet()
    ensures MatchesIgnoreCase(MixedCaseLink, 11, "stylesheet")
  {
    MatchesIgnoreCaseIntro(MixedCaseLink, 11, "stylesheet", 0);
  }

  lemma MixedCaseLinkMatches()
    ensures MatchEnd(MixedCaseLink, 1) == Some(23)
  {
    MatchesIgnoreCaseIntro(MixedCaseLink, 1, "<link", 0);
    MixedCaseRelAt();
    MatchEndIsComplete(MixedCaseLink, 1, 6, 23);
  }

  /** Letter case and the choice of quotes do not matter; the quotes
      need not even agree, and `[^>]*` may match nothing. */
  lemma MixedCaseLinkIsRemoved()
    ensures RemoveLinks(MixedCaseLink) == "ab"
  {
    MixedCaseLinkMatches();
    MatchStartsWithAngle(MixedCaseLink, 0);
    MatchStartsWithAngle(MixedCaseLink, 23);
    assert RemoveFrom(MixedCaseLink, 23) == "b";
  }
}
