/**
 * Worked examples of the crawl on small sites whose hrefs are already absolute,
 * so that resolution returns them unchanged.
 */
module Scenarios {
  import opened Wrappers
  import opened Strings
  import opened PageScanner
  import opened CrawlSpec

  function Absolute(base: string, href: string): Option<string> {
    Some(href)
  }

  /** A string lacking one of the letters of `pat` does not contain it. */
  lemma LetterMissing(text: string, pat: string, k: nat)
    requires k < |pat| && pat[k] !in text
    ensures !Contains(text, pat)
  {
    ContainsOccurs(text, pat);
    forall i | 0 <= i && i + |pat| <= |text| ensures !OccursAt(text, pat, i) {
      assert text[i..i + |pat|][k] == text[i + k];
    }
  }

  /** The home page has `homeText` and links to `home + "about"`, which has `aboutText` and no links. */
  function TwoPages(home: string, homeText: string, aboutText: string): Web {
    Web(map[home := Page(Some(homeText), Some([home + "about"])),
            home + "about" := Page(Some(aboutText), Some([]))],
        Absolute)
  }

  /**
   * Whatever the URL and the texts, a crawl of depth 2 scrapes the home page and then
   * the about page, visits exactly those two, and reports what the two pages hold.
   */
  lemma TwoPageCrawl(home: string, homeText: string, aboutText: string, terms: set<string>)
    ensures Crawl(TwoPages(home, homeText, aboutText), terms, home, 2, {}) ==
      CrawlResult(ScanText(homeText, terms) + ScanText(aboutText, terms),
                  {home, home + "about"}, [home, home + "about"])
  {
    var web, about := TwoPages(home, homeText, aboutText), home + "about";
    assert home != about by { assert |about| == |home| + 5; }
    InfixContained([], home, "about");
    assert [] + home + "about" == about;
    var aboutResult := Crawl(web, terms, about, 1, {home});
    assert aboutResult == CrawlResult(ScanText(aboutText, terms), {home, about}, [about]);
    assert [about][1..] == [];
    assert Links(web, terms, home, [about], 1, {home}) == aboutResult;
  }

  /** A lower-case page ending in a lower-case term mentions it. */
  lemma Mentioned(prefix: string, term: string)
    requires forall j :: 0 <= j < |prefix| ==> !IsUpper(prefix[j])
    requires forall j :: 0 <= j < |term| ==> !IsUpper(term[j])
    ensures ScanText(prefix + term, {term}) == {term}
  {
    var text := prefix + term;
    LowerOfLowerCase(text);
    LowerOfLowerCase(term);
    InfixContained(prefix, term, []);
    assert prefix + term + [] == text;
  }

  /** A page lacking the letter `term[k]` (in either case) does not mention the term. */
  lemma NotMentioned(text: string, term: string, k: nat)
    requires forall j :: 0 <= j < |text| ==> !IsUpper(text[j])
    requires forall j :: 0 <= j < |term| ==> !IsUpper(term[j])
    requires k < |term| && term[k] !in text
    ensures ScanText(text, {term}) == {}
  {
    LowerOfLowerCase(text);
    LowerOfLowerCase(term);
    LetterMissing(text, term, k);
    forall x | x in ScanText(text, {term}) ensures false {
      ScanTextMembers(text, {term}, x);
    }
  }

  /** A page "living with <term>" reports the term, for a lower-case term. */
  lemma LivingWith(text: string, term: string)
    requires forall j :: 0 <= j < |term| ==> 'a' <= term[j] <= 'z'
    requires text == "living with " + term
    ensures ScanText(text, {term}) == {term}
  {
    Mentioned("living with ", term);
  }

  /**
   * "no conditions mentioned" reports nothing for "diabetes". The literals come in through
   * `requires` because Dafny unrolls the scan without bound on literal arguments.
   */
  lemma DiabetesAbout(text: string, term: string)
    requires text == "no conditions mentioned" && term == "diabetes"
    ensures ScanText(text, {term}) == {}
  {
    assert 'a' !in text;
    NotMentioned(text, term, 2);
  }

  /**
   * A home page "living with diabetes" linking to an about page with "no conditions
   * mentioned": with depth 2 both pages are scraped and diabetes is reported.
   */
  lemma DiabetesSite(home: string)
    ensures Crawl(TwoPages(home, "living with diabetes", "no conditions mentioned"), {"diabetes"}, home, 2, {}) ==
      CrawlResult({"diabetes"}, {home, home + "about"}, [home, home + "about"])
  {
    TwoPageCrawl(home, "living with diabetes", "no conditions mentioned", {"diabetes"});
    LivingWith("living with diabetes", "diabetes");
    DiabetesAbout("no conditions mentioned", "diabetes");
  }

  /** Page A links to B = A + "b"; B links back to A and to itself. */
  function Cycle(a: string, aText: string, bText: string): Web {
    Web(map[a := Page(Some(aText), Some([a + "b"])),
            a + "b" := Page(Some(bText), Some([a, a + "b"]))],
        Absolute)
  }

  /**
   * The crawl from A with depth 3 scrapes A and B once each: the link back to A fails
   * the same-site test, and B's link to itself is already visited.
   */
  lemma CycleCrawl(a: string, aText: string, bText: string, terms: set<string>)
    ensures Crawl(Cycle(a, aText, bText), terms, a, 3, {}) ==
      CrawlResult(ScanText(aText, terms) + ScanText(bText, terms), {a, a + "b"}, [a, a + "b"])
  {
    var web, b := Cycle(a, aText, bText), a + "b";
    assert a != b by { assert |b| == |a| + 1; }
    InfixContained([], a, "b");
    assert [] + a + "b" == b;
    assert !SameSite(b, a);
    ContainsSelf(b);
    var visited := {a, b};
    assert [a, b][1..] == [b] && [b][1..] == [];
    assert Links(web, terms, b, [b], 1, visited) == CrawlResult({}, visited, []);
    assert Links(web, terms, b, [a, b], 1, visited) == CrawlResult({}, visited, []);
    assert FetchText(web, b) == Some(bText) && FetchLinks(web, b) == Some([a, b]);
    assert {a} + {b} == visited;
    var bResult := Crawl(web, terms, b, 2, {a});
    assert bResult == CrawlResult(ScanText(bText, terms), visited, [b]);
    assert Links(web, terms, a, [b], 2, {a}) == bResult;
    assert FetchText(web, a) == Some(aText) && FetchLinks(web, a) == Some([b]);
    assert {} + {a} == {a};
  }

  /**
   * "welcome" reports nothing for "asthma". As in `DiabetesAbout`, the literals come in
   * through `requires` to keep Dafny from unrolling the scan on them.
   */
  lemma AsthmaFirst(text: string, term: string)
    requires text == "welcome" && term == "asthma"
    ensures ScanText(text, {term}) == {}
  {
    assert 'a' !in text;
    NotMentioned(text, term, 0);
  }

  /** With asthma mentioned on B only, the crawl from A reports asthma, each page scraped once. */
  lemma AsthmaCycle(a: string)
    ensures Crawl(Cycle(a, "welcome", "living with asthma"), {"asthma"}, a, 3, {}) ==
      CrawlResult({"asthma"}, {a, a + "b"}, [a, a + "b"])
  {
    CycleCrawl(a, "welcome", "living with asthma", {"asthma"});
    AsthmaFirst("welcome", "asthma");
    LivingWith("living with asthma", "asthma");
  }
}
