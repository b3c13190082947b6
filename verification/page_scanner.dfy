/**
 * The page scanner (`scrape_page`): the page text and every term are lower-cased,
 * and a term is reported, lower-cased, when it is a substring of the text.
 * A failed fetch or parse reports nothing.
 */
module PageScanner {
  import opened Wrappers
  import opened Strings

  /** The lower-cased forms of the terms: everything a scan can report. */
  function LowerAll(terms: set<string>): set<string> {
    set t | t in terms :: Lower(t)
  }

  /** The terms found in a page whose text was obtained. */
  function ScanText(text: string, terms: set<string>): set<string> {
    var pageText := Lower(text);
    set t | t in terms && Contains(pageText, Lower(t)) :: Lower(t)
  }

  /** `scrape_page`: `text` is the page's text, or None when fetching or parsing it failed. */
  function ScrapePage(text: Option<string>, terms: set<string>): set<string> {
    match text
    case None => {}
    case Some(t) => ScanText(t, terms)
  }

  /**
   * A string is reported for a page exactly when it is the lower-cased form of
   * some term and it stands somewhere in the lower-cased page text.
   */
  lemma ScanTextMembers(text: string, terms: set<string>, x: string)
    ensures x in ScanText(text, terms) <==>
      x in LowerAll(terms) && Occurs(Lower(text), x)
  {
    ContainsOccurs(Lower(text), x);
    if x in LowerAll(terms) && Occurs(Lower(text), x) {
      var t :| t in terms && Lower(t) == x;
      assert Lower(t) in ScanText(text, terms);
    }
  }

  /** A page reports only lower-cased terms, and nothing when it could not be read. */
  lemma ScrapePageWithinTerms(text: Option<string>, terms: set<string>)
    ensures ScrapePage(text, terms) <= LowerAll(terms)
    ensures text.None? ==> ScrapePage(text, terms) == {}
  {
    if text.Some? {
      forall x | x in ScanText(text.value, terms) ensures x in LowerAll(terms) {
        ScanTextMembers(text.value, terms, x);
      }
    }
  }

  /** Matching ignores the case of both the page and the terms. */
  lemma ScanTextIgnoresCase(text: string, terms: set<string>)
    ensures ScanText(Lower(text), terms) == ScanText(text, terms)
    ensures ScanText(text, LowerAll(terms)) == ScanText(text, terms)
  {
    LowerIdempotent(text);
    forall x ensures x in ScanText(text, LowerAll(terms)) <==> x in ScanText(text, terms) {
      ScanTextMembers(text, LowerAll(terms), x);
      ScanTextMembers(text, terms, x);
      if x in LowerAll(LowerAll(terms)) {
        var t :| t in LowerAll(terms) && Lower(t) == x;
        var u :| u in terms && Lower(u) == t;
        LowerIdempotent(u);
      }
      if x in LowerAll(terms) {
        var u :| u in terms && Lower(u) == x;
        LowerIdempotent(u);
        assert Lower(x) == x && x in LowerAll(terms);
      }
    }
  }

  /** An empty term, which `"" in page_text` always accepts, is reported for every page that was read. */
  lemma EmptyTermAlwaysFound(text: string, terms: set<string>)
    requires "" in terms
    ensures "" in ScanText(text, terms)
  {
    EmptyContained(Lower(text));
    assert Lower("") == "";
  }

  /** A page with "Cancer is discussed here" is reported to contain "cancer". */
  lemma CaseInsensitiveExample()
    ensures ScanText("Cancer is discussed here", {"cancer"}) == {"cancer"}
  {
    var page := Lower("Cancer is discussed here");
    assert page[0] == 'c' && page[1] == 'a' && page[2] == 'n' && page[3] == 'c' && page[4] == 'e' && page[5] == 'r';
    assert "cancer" <= page;
    var term := Lower("cancer");
    assert term[0] == 'c' && term[1] == 'a' && term[2] == 'n' && term[3] == 'c' && term[4] == 'e' && term[5] == 'r';
    assert term == "cancer";
    assert Contains(page, "cancer");
  }
}
