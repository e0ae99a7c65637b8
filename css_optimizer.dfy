/** MACP_CSS_Optimizer, the controller of the "remove unused CSS" feature:
    it gathers the page's stylesheets, has the unused rules removed from
    each, stores the result for the page and puts it inline in place of
    the stylesheet links.

    The extractor, minifier and fetcher are collaborators whose code is
    not part of this model: each is a value holding the functions the
    controller calls, so every property below holds whatever they
    compute.  The storage is an object whose only observable effect here
    is the sequence of `save` calls made on it. */
module CssOptimizer {
  import opened PhpStrings
  import opened StylesheetLinks
  import opened HeadInsertion

  /** What MACP_CSS_Fetcher::get_css_content yields: the stylesheet text,
      or false/null when it could not be had. */
  datatype FetchResult = Content(text: string) | Failure

  /** PHP's `!$css_content`: false, null, "" and "0" are all falsy. */
  predicate IsFalsy(r: FetchResult)
    ensures r.Content? && |r.text| > 1 ==> !IsFalsy(r)
  {
    r.Failure? || IsEmptyString(r.text)
  }

  /** Which fetched contents `!$css_content` rejects: only false/null, ""
      and "0"; "0.0", " " and "00" are kept. */
  lemma FalsyContents()
    ensures IsFalsy(Failure) && IsFalsy(Content("")) && IsFalsy(Content("0"))
    ensures !IsFalsy(Content("0.0")) && !IsFalsy(Content(" ")) && !IsFalsy(Content("00"))
  {
  }

  /** MACP_CSS_Extractor: the stylesheet references of a page, in the
      order extract_css_files returns them, and the page's used selectors
      (of a type this model leaves abstract). */
  datatype CssExtractor<Selectors> = CssExtractor(
    extractCssFiles: string -> seq<string>,
    extractUsedSelectors: string -> Selectors)

  /** MACP_CSS_Minifier: a stylesheet reduced to the rules the selectors use. */
  datatype CssMinifier<!Selectors> = CssMinifier(removeUnusedCss: (string, Selectors) -> string)

  /** MACP_CSS_Fetcher. */
  datatype CssFetcher = CssFetcher(getCssContent: string -> FetchResult)

  /** MACP_Used_CSS_Storage, seen through the calls made to its `save`. */
  class UsedCssStorage {
    ghost var saved: seq<(string, string)>

    constructor ()
      ensures saved == []
    {
      saved := [];
    }

    method Save(url: string, css: string)
      modifies this
      ensures saved == old(saved) + [(url, css)]
    {
      saved := saved + [(url, css)];
    }
  }

  // process_css

  /** What one referenced file adds to the optimized CSS: nothing when its
      content is falsy, else the minifier's output for it. */
  function Contribution<Selectors>(fetcher: CssFetcher, minifier: CssMinifier<Selectors>,
                                   file: string, used: Selectors): (r: string)
    ensures |r| > 0 ==> !IsFalsy(fetcher.getCssContent(file))
  {
    var content := fetcher.getCssContent(file);
    if IsFalsy(content) then "" else minifier.removeUnusedCss(content.text, used)
  }

  /** The `.=` accumulation over the files, in their order. */
  function Accumulated<Selectors>(fetcher: CssFetcher, minifier: CssMinifier<Selectors>,
                                  files: seq<string>, used: Selectors): (r: string)
    ensures files == [] ==> r == ""
    ensures |r| > 0 ==> exists i :: 0 <= i < |files| && !IsFalsy(fetcher.getCssContent(files[i]))
  {
    if files == [] then ""
    else Accumulated(fetcher, minifier, files[..|files| - 1], used)
         + Contribution(fetcher, minifier, files[|files| - 1], used)
  }

  /** The string process_css returns for a page. */
  function ProcessedCss<Selectors>(extractor: CssExtractor<Selectors>, minifier: CssMinifier<Selectors>,
                                   fetcher: CssFetcher, html: string): (r: string)
    ensures r == MinifyEach(minifier, TruthyContents(fetcher, extractor.extractCssFiles(html)),
                            extractor.extractUsedSelectors(html))
  {
    AccumulatedSkipsFalsy(fetcher, minifier, extractor.extractCssFiles(html), extractor.extractUsedSelectors(html));
    Accumulated(fetcher, minifier, extractor.extractCssFiles(html), extractor.extractUsedSelectors(html))
  }

  /** The truthy contents of the files, in file order. */
  function TruthyContents(fetcher: CssFetcher, files: seq<string>): (contents: seq<string>)
    ensures |contents| <= |files|
    ensures forall k :: 0 <= k < |contents| ==> !IsEmptyString(contents[k])
  {
    if files == [] then []
    else
      var content := fetcher.getCssContent(files[|files| - 1]);
      TruthyContents(fetcher, files[..|files| - 1]) + (if IsFalsy(content) then [] else [content.text])
  }

  /** The minifier applied to each of the contents, results concatenated. */
  function MinifyEach<Selectors>(minifier: CssMinifier<Selectors>, contents: seq<string>, used: Selectors): (r: string)
  {
    if contents == [] then ""
    else minifier.removeUnusedCss(contents[0], used) + MinifyEach(minifier, contents[1..], used)
  }

  lemma {:induction false} MinifyEachAppend<Selectors>(minifier: CssMinifier<Selectors>, a: seq<string>,
                                                       b: seq<string>, used: Selectors)
    ensures MinifyEach(minifier, a + b, used) == MinifyEach(minifier, a, used) + MinifyEach(minifier, b, used)
  {
    if a != [] {
      MinifyEachAppend(minifier, a[1..], b, used);
      assert (a + b)[0] == a[0];
      assert (a + b)[1..] == a[1..] + b;
    } else {
      assert a + b == b;
    }
  }

  /** The optimized CSS is the minifier's output for each truthy content,
      in file order: falsy contents contribute nothing. */
  lemma {:induction false} AccumulatedSkipsFalsy<Selectors>(fetcher: CssFetcher, minifier: CssMinifier<Selectors>,
                                                            files: seq<string>, used: Selectors)
    ensures Accumulated(fetcher, minifier, files, used) == MinifyEach(minifier, TruthyContents(fetcher, files), used)
  {
    if files != [] {
      var init := files[..|files| - 1];
      var content := fetcher.getCssContent(files[|files| - 1]);
      AccumulatedSkipsFalsy(fetcher, minifier, init, used);
      var tail := if IsFalsy(content) then [] else [content.text];
      MinifyEachAppend(minifier, TruthyContents(fetcher, init), tail, used);
      if !IsFalsy(content) {
        assert MinifyEach(minifier, tail, used) == minifier.removeUnusedCss(content.text, used);
      }
    }
  }

  /** Order follows the extraction order: the files' contributions are
      concatenated in sequence. */
  lemma {:induction false} AccumulatedAppend<Selectors>(fetcher: CssFetcher, minifier: CssMinifier<Selectors>,
                                                        a: seq<string>, b: seq<string>, used: Selectors)
    ensures Accumulated(fetcher, minifier, a + b, used)
         == Accumulated(fetcher, minifier, a, used) + Accumulated(fetcher, minifier, b, used)
    decreases |b|
  {
    if b != [] {
      var b' := b[..|b| - 1];
      var last := Contribution(fetcher, minifier, b[|b| - 1], used);
      AccumulatedAppend(fetcher, minifier, a, b', used);
      assert (a + b)[..|a + b| - 1] == a + b';
      assert (a + b)[|a + b| - 1] == b[|b| - 1];
      assert Accumulated(fetcher, minifier, a + b, used) == Accumulated(fetcher, minifier, a + b', used) + last;
      assert Accumulated(fetcher, minifier, b, used) == Accumulated(fetcher, minifier, b', used) + last;
    } else {
      assert a + b == a;
    }
  }

  /** When no referenced file yields truthy content, the optimized CSS is empty. */
  lemma {:induction false} NothingFetchedNothingProduced<Selectors>(fetcher: CssFetcher, minifier: CssMinifier<Selectors>,
                                                                    files: seq<string>, used: Selectors)
    requires forall i :: 0 <= i < |files| ==> IsFalsy(fetcher.getCssContent(files[i]))
    ensures Accumulated(fetcher, minifier, files, used) == ""
  {
    if files != [] {
      NothingFetchedNothingProduced(fetcher, minifier, files[..|files| - 1], used);
    }
  }

  // replace_css

  const StyleOpen: string := "<style id=\"macp-optimized-css\" type=\"text/css\">"
  const StyleClose: string := "</style>"

  /** The sprintf of the style block: the CSS goes in verbatim. */
  function StyleTag(css: string): (r: string)
    ensures |r| == |css| + 55
    ensures r[..|StyleOpen|] == StyleOpen && r[|StyleOpen|..|StyleOpen| + |css|] == css
    ensures r[|StyleOpen| + |css|..] == StyleClose
  {
    StyleOpen + css + StyleClose
  }

  /** The page replace_css returns: stylesheet links removed, then the
      style block put before every "</head>". */
  function ReplacedHtml(html: string, css: string): (r: string)
  {
    StrReplace(HeadClose, StyleTag(css) + HeadClose, RemoveLinks(html))
  }

  /** The style block lands in front of every "</head>" left after the
      links are removed, and nowhere else. */
  lemma ReplacedHtmlInsertsBefore(html: string, css: string)
    ensures ReplacedHtml(html, css) == InsertBefore(RemoveLinks(html), StyleTag(css), 0)
  {
    ReplaceInsertsBefore(RemoveLinks(html), StyleTag(css), 0);
  }

  /** Length accounting: the removed links are gone and one style block
      (55 characters around the CSS) is added per "</head>". */
  lemma ReplacedHtmlLength(html: string, css: string)
    ensures |ReplacedHtml(html, css)| ==
      |html| - TotalLength(Matches(html, 0)) + Occurrences(RemoveLinks(html), 0) * (|css| + 55)
  {
    ReplacedHtmlInsertsBefore(html, css);
    InsertBeforeLength(RemoveLinks(html), StyleTag(css), 0);
    RemovalLength(html, 0);
  }

  /** Without a "</head>" nothing is inserted, but the links are still removed. */
  lemma NoHeadCloseOnlyRemovesLinks(html: string, css: string)
    requires Occurrences(RemoveLinks(html), 0) == 0
    ensures ReplacedHtml(html, css) == RemoveLinks(html)
  {
    ReplacedHtmlInsertsBefore(html, css);
    NoHeadCloseNoChange(RemoveLinks(html), StyleTag(css), 0);
  }

  /** An upper-case "</HEAD>" gets no style block, whatever the CSS. */
  lemma UpperCaseHeadCloseGetsNoStyle(css: string)
    ensures StrReplace(HeadClose, StyleTag(css) + HeadClose, "</HEAD>") == "</HEAD>"
  {
    UpperCaseHeadCloseIsIgnored(StyleTag(css));
  }

  /** The controller.  The collaborators are set once, when it is built. */
  class Optimizer<Selectors> {
    const extractor: CssExtractor<Selectors>
    const minifier: CssMinifier<Selectors>
    const fetcher: CssFetcher
    const storage: UsedCssStorage

    constructor (extractor: CssExtractor<Selectors>, minifier: CssMinifier<Selectors>,
                 fetcher: CssFetcher, storage: UsedCssStorage)
      ensures this.extractor == extractor && this.minifier == minifier
      ensures this.fetcher == fetcher && this.storage == storage
    {
      this.extractor := extractor;
      this.minifier := minifier;
      this.fetcher := fetcher;
      this.storage := storage;
    }

    /** optimize: `shouldProcess` is the result of should_process() and
        `url` that of get_current_url(). */
    method Optimize(html: string, shouldProcess: bool, url: string) returns (out: string)
      modifies storage
      ensures !shouldProcess ==> out == html && storage.saved == old(storage.saved)
      ensures shouldProcess ==>
        var css := ProcessedCss(extractor, minifier, fetcher, html);
        if IsEmptyString(css) then out == html && storage.saved == old(storage.saved)
        else out == ReplacedHtml(html, css) && storage.saved == old(storage.saved) + [(url, css)]
    {
      if !shouldProcess {
        return html;
      }
      var optimizedCss, _ := ProcessCss(url, html);
      out := html;
      if !IsEmptyString(optimizedCss) {
        out := ReplaceCss(html, optimizedCss);
      }
    }

    /** process_css.  `calls` records the arguments of each minifier call. */
    method ProcessCss(url: string, html: string) returns (css: string, ghost calls: seq<(string, Selectors)>)
      modifies storage
      ensures css == ProcessedCss(extractor, minifier, fetcher, html)
      ensures var contents := TruthyContents(fetcher, extractor.extractCssFiles(html));
        |calls| == |contents| &&
        forall k :: 0 <= k < |calls| ==> calls[k] == (contents[k], extractor.extractUsedSelectors(html))
      ensures storage.saved == old(storage.saved) + (if IsEmptyString(css) then [] else [(url, css)])
    {
      var files := extractor.extractCssFiles(html);
      var used := extractor.extractUsedSelectors(html);
      css := "";
      calls := [];
      for i := 0 to |files|
        invariant css == Accumulated(fetcher, minifier, files[..i], used)
        invariant |calls| == |TruthyContents(fetcher, files[..i])|
        invariant forall k :: 0 <= k < |calls| ==> calls[k] == (TruthyContents(fetcher, files[..i])[k], used)
      {
        assert files[..i + 1][..i] == files[..i];
        var content := fetcher.getCssContent(files[i]);
        if IsFalsy(content) {
          continue;
        }
        css := css + minifier.removeUnusedCss(content.text, used);
        calls := calls + [(content.text, used)];
      }
      assert files[..|files|] == files;
      if !IsEmptyString(css) {
        storage.Save(url, css);
      }
    }

    /** replace_css. */
    method ReplaceCss(html: string, optimizedCss: string) returns (out: string)
      ensures out == ReplacedHtml(html, optimizedCss)
    {
      var withoutLinks := RemoveStylesheetLinks(html);
      var cssTag := StyleTag(optimizedCss);
      out := ReplaceAll(HeadClose, cssTag + HeadClose, withoutLinks);
    }
  }
}
