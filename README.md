# MACP CSS optimizer, modelled in Dafny

This project models `MACP_CSS_Optimizer`, the controller of the "remove unused
CSS" feature of the MACP WordPress plugin.  On each page render it does three
things:

* `optimize` checks a gate and otherwise processes the page.  It rewrites the
  page only when the processed CSS is non-empty in PHP's sense (`empty()`).
* `process_css` fetches each stylesheet the extractor finds on the page, in
  the order `extract_css_files` returns them.  Falsy content is skipped.
  The minifier's output is appended for the rest, using one used-selector
  value computed once for the page.  The result is saved for the page URL
  when it is non-empty.
* `replace_css` works in two steps:
  1. `preg_replace` deletes every stylesheet `<link>` tag matched by
     `/<link[^>]*rel=["']stylesheet["'][^>]*>/i`.
  2. `str_replace` puts the
     `<style id="macp-optimized-css" type="text/css">…</style>` block in front
     of every `</head>`.

Modules:

* `PhpStrings` holds the pieces of PHP string semantics that are needed:
  - ASCII case folding, as PCRE's `i` flag applies it to a byte string;
  - case-insensitive literal matching;
  - `empty()` on a string.
* `StylesheetLinks` handles the removal step.
  - It defines a hand-written matcher (`MatchEnd`) for the fixed pattern.
    No part of the pattern can consume a `>`, so a match that starts at a
    `<link` ends just after the first `>` that follows it.
  - The matcher is proved equivalent to a predicate that spells the regular
    expression out piece by piece (`RegexMatch`).
  - `preg_replace`'s leftmost, non-overlapping scan is `RemoveFrom`, which is
    implemented by the loop `RemoveStylesheetLinks`.
  - The scan is characterised by the spans it deletes (`Matches`).
* `StylesheetLinkExamples` gives concrete subjects showing what the pattern
  does and does not remove.
* `HeadInsertion` handles the insertion step.
  - `str_replace` is `StrReplace` and is implemented by the loop `ReplaceAll`.
  - When the search string is `</head>` and the replacement is
    block + `</head>`, the result is proved equal to an independent
    definition that puts the block before every occurrence (`InsertBefore`).
* `CssOptimizer` models the controller.
  - The collaborators (extractor, minifier, fetcher) are values holding the
    functions the controller calls.
  - The storage is an object whose `save` calls are logged.
  - `Optimizer` is the controller class, with methods `Optimize`,
    `ProcessCss` and `ReplaceCss`.

The used-selector value is a type parameter, because the extractor and
minifier are not part of this model.  Every property proved here therefore
holds whatever they compute.

Points where the code's behaviour is easy to misread:

* The code never reads storage back: `process_css` only calls `save`, so no
  cache-hit behaviour is modelled.
* `str_replace` inserts a style block before every case-sensitive `</head>`,
  and before none written in another case (`ReplacedHtmlInsertsBefore`,
  `UpperCaseHeadCloseGetsNoStyle`).
* The pattern misses `rel=stylesheet` without quotes and
  `rel = "stylesheet"` with spaces (`UnquotedRelIsKept`, `SpacedRelIsKept`).
* A comment at line 74 of the source says critical stylesheet links are
  spared.  No code does that: every match is removed, and so the model
  removes every match.

## Model

| member | source | states |
|---|---|---|
| PhpStrings.Lower | includes/css/optimization/class-macp-css-optimizer.php:75 | The `/i` case folding on bytes: the result is never an upper-case ASCII letter, and a character is left as it is exactly when it is not one of A-Z. |
| PhpStrings.IsEmptyString | includes/css/optimization/class-macp-css-optimizer.php:63 | PHP's `empty()` on a string, used at lines 36 and 63: only `""` and `"0"` are empty, so an empty string is at most one character long. |
| CssOptimizer.IsFalsy | includes/css/optimization/class-macp-css-optimizer.php:53 | `!$css_content`: content longer than one character is never falsy. |
| CssOptimizer.FalsyContents | includes/css/optimization/class-macp-css-optimizer.php:53 | false/null, `""` and `"0"` are falsy; `"0.0"`, `" "` and `"00"` are not. |
| CssOptimizer.Contribution | includes/css/optimization/class-macp-css-optimizer.php:52-60 | What one file adds to the CSS: nothing when its content is falsy, so a non-empty contribution comes from truthy content. |
| CssOptimizer.Accumulated | includes/css/optimization/class-macp-css-optimizer.php:50-61 | The `.=` accumulation over the files, starting from `""`: no files give `""`, and a non-empty result has at least one file with truthy content. |
| CssOptimizer.TruthyContents | includes/css/optimization/class-macp-css-optimizer.php:51-55 | The contents the loop does not skip, in file order: never more than there are files, and none of them is `""` or `"0"`. |
| CssOptimizer.ProcessedCss | includes/css/optimization/class-macp-css-optimizer.php:47-61 | The string process_css builds, from the files and the used selectors extracted once from the page: it is the minifier's outputs for the truthy contents, concatenated in file order. |
| CssOptimizer.StyleTag | includes/css/optimization/class-macp-css-optimizer.php:78-81 | The `sprintf` of the style block: 55 characters longer than the CSS, made of StyleOpen (47 characters), the CSS verbatim, then `</style>`. |
| StylesheetLinks.RegexMatchVia | includes/css/optimization/class-macp-css-optimizer.php:75 | The pattern spelled out piece by piece: `<link` in any case, `[^>]*` up to the rel fragment, the fragment `rel=["']stylesheet["']` in any case, `[^>]*` and the closing `>`. A match ends on a `>` past the `<link` and the fragment. |
| StylesheetLinks.RegexMatch | includes/css/optimization/class-macp-css-optimizer.php:75 | Some way of matching the pattern from p to e exists. Such a match ends on a `>` past the `<link` and the fragment, within the subject. |
| StylesheetLinks.RemoveLinks | includes/css/optimization/class-macp-css-optimizer.php:75 | `preg_replace` of the pattern by `""` over the whole page (through `RemoveFrom`: at each position, a match is dropped and scanning resumes after it, otherwise one character is kept). The result is never longer than the page. |
| StylesheetLinks.RemoveFromShrinks | includes/css/optimization/class-macp-css-optimizer.php:75 | The left-to-right removal never lengthens the part of the page it scans. |
| HeadInsertion.StrReplace | includes/css/optimization/class-macp-css-optimizer.php:83 | `str_replace` for string arguments (through `ReplaceFrom`: a left-to-right scan replacing each non-overlapping occurrence). An empty search string leaves the subject unchanged. A replacement at least as long as the search never shortens the subject, and one of the same length keeps its length. |
| HeadInsertion.ReplaceFromLength | includes/css/optimization/class-macp-css-optimizer.php:83 | The length facts of `str_replace`'s scan, from any position: at least as long as the rest when the replacement is not shorter than the search, and exactly as long when the two have the same length. |
| CssOptimizer.Optimizer.Optimize | includes/css/optimization/class-macp-css-optimizer.php:28-41 | When the gate is off, the page comes back unchanged and nothing is saved. Otherwise, with css the processed CSS: if css is `""` or `"0"`, the page comes back unchanged and nothing is saved. Otherwise the result is the rewritten page, and exactly one (url, css) pair is saved. So a save happens exactly when the page is rewritten. |
| CssOptimizer.Optimizer.ProcessCss | includes/css/optimization/class-macp-css-optimizer.php:46-68 | The returned CSS is the accumulation over the extracted files in order, and falsy contents contribute nothing. The minifier is called once per truthy content, in file order. Every call receives the same used-selector value, extracted once from the page. Storage gets exactly one save of (url, css) when css is non-empty, and none otherwise. |
| CssOptimizer.Optimizer.ReplaceCss | includes/css/optimization/class-macp-css-optimizer.php:73-84 | The result is the page with stylesheet links removed and then the style block replaced in before every `</head>`. |
| CssOptimizer.UsedCssStorage.Save | includes/css/optimization/class-macp-css-optimizer.php:64 | Each save appends one (url, css) pair to the storage's log. |
| CssOptimizer.AccumulatedSkipsFalsy | includes/css/optimization/class-macp-css-optimizer.php:51-61 | The accumulated CSS equals the minifier's outputs for exactly the truthy contents, concatenated in file order. Falsy contents (false, null, `""`, `"0"`) are skipped. |
| CssOptimizer.AccumulatedAppend | includes/css/optimization/class-macp-css-optimizer.php:51-61 | Accumulating over files a followed by files b gives the result for a followed by the result for b. Order follows extraction order. |
| CssOptimizer.NothingFetchedNothingProduced | includes/css/optimization/class-macp-css-optimizer.php:51-61 | When no file yields truthy content, the accumulated CSS is empty. Together with Optimize, the page is then left unchanged and nothing is saved. |
| CssOptimizer.MinifyEachAppend | includes/css/optimization/class-macp-css-optimizer.php:57-60 | Minifying the contents a followed by b and concatenating equals doing a and b separately. |
| CssOptimizer.ReplacedHtmlInsertsBefore | includes/css/optimization/class-macp-css-optimizer.php:78-83 | After link removal, the style block with the CSS verbatim is put in front of every `</head>`, and nothing else changes. |
| CssOptimizer.ReplacedHtmlLength | includes/css/optimization/class-macp-css-optimizer.php:75-83 | Output length equals input length, minus the total length of the removed link matches, plus (CSS length + 55) for each `</head>` left after removal. |
| CssOptimizer.NoHeadCloseOnlyRemovesLinks | includes/css/optimization/class-macp-css-optimizer.php:75-83 | Without a `</head>` nothing is inserted, but the stylesheet links are still removed. |
| StylesheetLinks.RemoveStylesheetLinks | includes/css/optimization/class-macp-css-optimizer.php:75 | The loop computes exactly `preg_replace`'s left-to-right, leftmost, non-overlapping removal of the matches. |
| StylesheetLinks.FirstGt | includes/css/optimization/class-macp-css-optimizer.php:75 | Finds the first `>` at or after a position: there is none before it, and the character there is `>` unless the end of the subject is reached. |
| StylesheetLinks.HasRel | includes/css/optimization/class-macp-css-optimizer.php:75 | Is true exactly when a quoted `rel=` stylesheet fragment (either quote on either side, any letter case) lies wholly inside the range. |
| StylesheetLinks.MatchEnd | includes/css/optimization/class-macp-css-optimizer.php:75 | A match found at p ends past the `<link` and the rel fragment, and within the subject. |
| StylesheetLinks.MatchEndIsSound | includes/css/optimization/class-macp-css-optimizer.php:75 | Whatever the matcher finds is a match of the regular expression. |
| StylesheetLinks.MatchEndIsComplete | includes/css/optimization/class-macp-css-optimizer.php:75 | Every way the regular expression can match at p is found by the matcher, with the same end. |
| StylesheetLinks.MatchEndIsRegexMatch | includes/css/optimization/class-macp-css-optimizer.php:75 | The matcher and the regular expression agree in both directions. A match at p therefore has exactly one end. |
| StylesheetLinks.FirstGtIs | includes/css/optimization/class-macp-css-optimizer.php:75 | The first `>` after a position is the one with no `>` before it, which is why `[^>]*>` ends there. |
| StylesheetLinks.RelAtHasNoGt | includes/css/optimization/class-macp-css-optimizer.php:75 | The rel fragment contains no `>`, so a match cannot end inside it. |
| StylesheetLinks.MatchesAreMatches | includes/css/optimization/class-macp-css-optimizer.php:75 | Every deleted span is a non-empty match of the regular expression lying within the scanned part of the subject. |
| StylesheetLinks.MatchesAreOrdered | includes/css/optimization/class-macp-css-optimizer.php:75 | The deleted spans come in increasing order and do not overlap. |
| StylesheetLinks.MatchesAreLeftmost | includes/css/optimization/class-macp-css-optimizer.php:75 | No match of the regular expression starts at any position that the deleted spans leave uncovered. |
| StylesheetLinks.RemovalKeepsUncovered | includes/css/optimization/class-macp-css-optimizer.php:75 | The removal keeps exactly the characters outside the deleted spans, in their original order. |
| StylesheetLinks.RemovalLength | includes/css/optimization/class-macp-css-optimizer.php:75 | The result is shorter than the subject by the total length of the deleted spans. |
| StylesheetLinks.NoMatchNoChange | includes/css/optimization/class-macp-css-optimizer.php:75 | Where no match starts, the subject comes back unchanged. |
| StylesheetLinks.RelAtShape | includes/css/optimization/class-macp-css-optimizer.php:75 | Every rel fragment contains an `l` (either case), then `=`, then a quote. |
| StylesheetLinks.NoQuotedRelNoChange | includes/css/optimization/class-macp-css-optimizer.php:75 | A subject in which no `l=` is followed by a quote comes back unchanged. |
| StylesheetLinks.MatchStartsWithAngle | includes/css/optimization/class-macp-css-optimizer.php:75 | No match starts at a character other than `<`. |
| StylesheetLinkExamples.UnquotedRelIsKept | includes/css/optimization/class-macp-css-optimizer.php:75 | `<link rel=stylesheet href=a.css>` is not removed. |
| StylesheetLinkExamples.SpacedRelIsKept | includes/css/optimization/class-macp-css-optimizer.php:75 | `<link rel = "stylesheet" href="a.css">` is not removed. |
| StylesheetLinkExamples.MixedCaseRelAt | includes/css/optimization/class-macp-css-optimizer.php:75 | `REL='StyleSheet"` is a rel fragment: letter case is ignored, and the two quotes need not agree. |
| StylesheetLinkExamples.MixedCaseLinkMatches | includes/css/optimization/class-macp-css-optimizer.php:75 | In `a<LINKREL='StyleSheet">b` the match starts at the `<` and ends after the `>`. `[^>]*` may match nothing. |
| StylesheetLinkExamples.MixedCaseLinkIsRemoved | includes/css/optimization/class-macp-css-optimizer.php:75 | `a<LINKREL='StyleSheet">b` becomes `ab`. |
| HeadInsertion.ReplaceAll | includes/css/optimization/class-macp-css-optimizer.php:83 | The loop computes `str_replace`: a left-to-right scan replacing each non-overlapping occurrence, leaving the subject unchanged for an empty search string. |
| HeadInsertion.ReplaceInsertsBefore | includes/css/optimization/class-macp-css-optimizer.php:83 | Replacing `</head>` by block + `</head>` is the same as putting the block in front of every `</head>` and changing nothing else. |
| HeadInsertion.HeadCloseDoesNotOverlap | includes/css/optimization/class-macp-css-optimizer.php:83 | No occurrence of `</head>` starts within another one. |
| HeadInsertion.HeadCloseGetsBlock | includes/css/optimization/class-macp-css-optimizer.php:83 | At an occurrence of `</head>`, the block is inserted and the occurrence is copied unchanged. |
| HeadInsertion.InsertBeforeSkips | includes/css/optimization/class-macp-css-optimizer.php:83 | Text containing no `</head>` is copied unchanged. |
| HeadInsertion.InsertBeforeLength | includes/css/optimization/class-macp-css-optimizer.php:83 | The result is longer by one block per `</head>`. |
| HeadInsertion.NoHeadCloseNoChange | includes/css/optimization/class-macp-css-optimizer.php:83 | Without a `</head>` nothing is inserted. |
| HeadInsertion.FirstHeadCloseGetsBlock | includes/css/optimization/class-macp-css-optimizer.php:83 | The result is: the text up to the first `</head>`, then the block, then `</head>`, then the replacement of the rest. |
| HeadInsertion.UpperCaseHeadCloseIsIgnored | includes/css/optimization/class-macp-css-optimizer.php:83 | The search is case-sensitive: `</HEAD>` gets no block inserted, whatever the block. |
| CssOptimizer.UpperCaseHeadCloseGetsNoStyle | includes/css/optimization/class-macp-css-optimizer.php:78-83 | For every CSS, replace_css's `str_replace` leaves `</HEAD>` without the style block. |
| HeadInsertion.OccurrencesZero | includes/css/optimization/class-macp-css-optimizer.php:83 | A subject in which `</head>` occurs nowhere has no occurrences counted. |
| PhpStrings.MatchesIgnoreCaseAt | includes/css/optimization/class-macp-css-optimizer.php:75 | A case-insensitive match of a lower-case literal fixes each character up to ASCII case. |
| PhpStrings.MatchesIgnoreCaseIntro | includes/css/optimization/class-macp-css-optimizer.php:75 | Conversely, agreeing with the literal on each character up to ASCII case is a match. |

## Left out

- `should_process` (lines 89-93) reads WordPress options and request state (`get_option`, `is_admin`, `is_user_logged_in`). Its result is the `shouldProcess` parameter of `Optimize`.
- `get_current_url` (lines 98-101) reads the global request and `home_url`. Its result is the `url` parameter of `Optimize`.
- The constructor (lines 18-23) builds its own collaborators. The model's constructor takes them as arguments, so that no behaviour is invented for them.
- The internals of `MACP_CSS_Extractor`, `MACP_CSS_Minifier`, `MACP_CSS_Fetcher` and `MACP_Used_CSS_Storage` are not part of this model. The first three are functions supplied from outside. Storage is seen only through its `save` calls.
- Network and disk retrieval behind the fetcher is left out. Fetching is a function of the reference, which returns the same content for the same reference.
- Reading cached CSS back is left out: the code never does it.
- General PCRE semantics are left out. Only the fixed pattern of line 75 is modelled, by a dedicated matcher. The `i` flag folds ASCII letters only, as PCRE does on a byte string without the `u` modifier. Characters stand for bytes.
- The error path of `preg_replace` is not modelled. When PCRE fails (for example when `pcre.backtrack_limit` is exceeded on a very long page), `preg_replace` returns `null`, `str_replace` turns it into `""`, and `optimize` would return an empty page. The model always completes the removal instead.
- The source comment at line 74 promises to spare "critical" links. No code does this, and the model does not.
