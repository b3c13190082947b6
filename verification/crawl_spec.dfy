/**
 * The recursive crawl (`scrape_website`) as a reference definition over values.
 *
 * The network and the HTML parser are replaced by a `Web`: for every URL, the outcome
 * of fetching and reading its text, and independently the outcome of fetching it again
 * and listing the `href` of its anchors in document order. `resolve` stands for
 * `urljoin`; None is a resolution that raises. The visited set, which the source shares
 * by reference between the recursive calls, is threaded through as a value.
 */
module CrawlSpec {
  import opened Wrappers
  import opened Strings
  import opened PageScanner

  /** The two independent fetches of one page: its text, and its anchors' hrefs. */
  datatype Page = Page(text: Option<string>, hrefs: Option<seq<string>>)

  datatype Web = Web(pages: map<string, Page>, resolve: (string, string) -> Option<string>)

  /** The text `scrape_page` reads from `url`; a URL the web does not serve fails. */
  function FetchText(web: Web, url: string): Option<string> {
    if url in web.pages then web.pages[url].text else None
  }

  /** The hrefs the link discovery reads from `url`, in document order. */
  function FetchLinks(web: Web, url: string): Option<seq<string>> {
    if url in web.pages then web.pages[url].hrefs else None
  }

  /** The same-site test: the candidate contains the URL of the page it was found on. */
  predicate SameSite(pageUrl: string, candidate: string) {
    Contains(candidate, pageUrl)
  }

  /**
   * What one crawl call produces: the terms it found, the visited set after it,
   * and the URLs it scraped, in the order it announced them. A URL is scraped, and
   * marked visited, even when fetching its text fails.
   */
  datatype CrawlResult = CrawlResult(found: set<string>, visited: set<string>, scraped: seq<string>)

  /** One step of the crawl followed by the next, which starts from the visited set the first left. */
  function Then(first: CrawlResult, next: CrawlResult): CrawlResult {
    CrawlResult(first.found + next.found, next.visited, first.scraped + next.scraped)
  }

  /** `scrape_website(url, terms, depth, visited)`. */
  function Crawl(web: Web, terms: set<string>, url: string, depth: nat, visited: set<string>): CrawlResult
    decreases depth, 1
  {
    if url in visited || depth == 0 then CrawlResult({}, visited, [])
    else
      var own := CrawlResult(ScrapePage(FetchText(web, url), terms), visited + {url}, [url]);
      match FetchLinks(web, url)
      case None => own
      case Some(hrefs) => Then(own, Links(web, terms, url, hrefs, depth - 1, own.visited))
  }

  /**
   * The loop over the hrefs of `pageUrl`, each admitted link crawled with `depth`.
   * A resolution that raises ends the loop, keeping what was merged before it.
   */
  function Links(web: Web, terms: set<string>, pageUrl: string, hrefs: seq<string>, depth: nat,
                 visited: set<string>): CrawlResult
    decreases depth + 1, 0, |hrefs|
  {
    if hrefs == [] then CrawlResult({}, visited, [])
    else
      match web.resolve(pageUrl, hrefs[0])
      case None => CrawlResult({}, visited, [])
      case Some(full) =>
        if SameSite(pageUrl, full) && full !in visited then
          var sub := Crawl(web, terms, full, depth, visited);
          Then(sub, Links(web, terms, pageUrl, hrefs[1..], depth, sub.visited))
        else
          Links(web, terms, pageUrl, hrefs[1..], depth, visited)
  }

  predicate Distinct(s: seq<string>) {
    forall i, j :: 0 <= i < j < |s| ==> s[i] != s[j]
  }

  /**
   * `r` started from the visited set `before`: the visited set only grew, by exactly
   * the URLs scraped, each of which was new and scraped once.
   */
  ghost predicate Extends(before: set<string>, r: CrawlResult) {
    before <= r.visited &&
    (forall u :: u in r.visited <==> u in before || u in r.scraped) &&
    Distinct(r.scraped) &&
    (forall i :: 0 <= i < |r.scraped| ==> r.scraped[i] !in before)
  }

  lemma ThenExtends(before: set<string>, a: CrawlResult, b: CrawlResult)
    requires Extends(before, a) && Extends(a.visited, b)
    ensures Extends(before, Then(a, b))
  {
    var s := a.scraped + b.scraped;
    forall i, j | 0 <= i < j < |s| ensures s[i] != s[j] {
      if j >= |a.scraped| && i < |a.scraped| {
        assert s[i] in a.visited;
      }
    }
  }

  /**
   * A crawl call scrapes nothing when the URL was visited or the depth is spent;
   * otherwise it scrapes the URL first. Either way the visited set grows by exactly
   * the scraped URLs, and no URL is scraped twice or after it was visited.
   */
  lemma {:induction false} CrawlExtends(web: Web, terms: set<string>, url: string, depth: nat, visited: set<string>)
    ensures Extends(visited, Crawl(web, terms, url, depth, visited))
    ensures url in visited || depth == 0 ==> Crawl(web, terms, url, depth, visited).scraped == []
    ensures url !in visited && depth > 0 ==>
      |Crawl(web, terms, url, depth, visited).scraped| >= 1 && Crawl(web, terms, url, depth, visited).scraped[0] == url
    decreases depth, 1
  {
    if url !in visited && depth > 0 {
      var own := CrawlResult(ScrapePage(FetchText(web, url), terms), visited + {url}, [url]);
      assert Extends(visited, own);
      if FetchLinks(web, url).Some? {
        LinksExtends(web, terms, url, FetchLinks(web, url).value, depth - 1, own.visited);
        ThenExtends(visited, own, Links(web, terms, url, FetchLinks(web, url).value, depth - 1, own.visited));
      }
    }
  }

  lemma {:induction false} LinksExtends(web: Web, terms: set<string>, pageUrl: string, hrefs: seq<string>,
                                        depth: nat, visited: set<string>)
    ensures Extends(visited, Links(web, terms, pageUrl, hrefs, depth, visited))
    decreases depth + 1, 0, |hrefs|
  {
    if hrefs != [] && web.resolve(pageUrl, hrefs[0]).Some? {
      var full := web.resolve(pageUrl, hrefs[0]).value;
      if SameSite(pageUrl, full) && full !in visited {
        var sub := Crawl(web, terms, full, depth, visited);
        CrawlExtends(web, terms, full, depth, visited);
        LinksExtends(web, terms, pageUrl, hrefs[1..], depth, sub.visited);
        ThenExtends(visited, sub, Links(web, terms, pageUrl, hrefs[1..], depth, sub.visited));
      } else {
        LinksExtends(web, terms, pageUrl, hrefs[1..], depth, visited);
      }
    }
  }

  /** The terms `scrape_page` reports for each of `urls`, united. */
  function PagesTerms(web: Web, terms: set<string>, urls: seq<string>): set<string> {
    if urls == [] then {} else ScrapePage(FetchText(web, urls[0]), terms) + PagesTerms(web, terms, urls[1..])
  }

  lemma {:induction false} PagesTermsConcat(web: Web, terms: set<string>, a: seq<string>, b: seq<string>)
    ensures PagesTerms(web, terms, a + b) == PagesTerms(web, terms, a) + PagesTerms(web, terms, b)
    decreases |a|
  {
    if a == [] {
      assert a + b == b;
    } else {
      assert (a + b)[0] == a[0] && (a + b)[1..] == a[1..] + b;
      PagesTermsConcat(web, terms, a[1..], b);
    }
  }

  lemma {:induction false} PagesTermsWithin(web: Web, terms: set<string>, urls: seq<string>)
    ensures PagesTerms(web, terms, urls) <= LowerAll(terms)
    decreases |urls|
  {
    if urls != [] {
      ScrapePageWithinTerms(FetchText(web, urls[0]), terms);
      PagesTermsWithin(web, terms, urls[1..]);
    }
  }

  lemma ThenFound(web: Web, terms: set<string>, a: CrawlResult, b: CrawlResult)
    requires a.found == PagesTerms(web, terms, a.scraped) && b.found == PagesTerms(web, terms, b.scraped)
    ensures Then(a, b).found == PagesTerms(web, terms, Then(a, b).scraped)
  {
    PagesTermsConcat(web, terms, a.scraped, b.scraped);
  }

  /**
   * No term lost, none made up: a crawl reports exactly the terms found on the
   * pages it scraped, whatever failed on the way.
   */
  lemma {:induction false} CrawlFoundOnFetchedPages(web: Web, terms: set<string>, url: string, depth: nat, visited: set<string>)
    ensures var r := Crawl(web, terms, url, depth, visited); r.found == PagesTerms(web, terms, r.scraped)
    decreases depth, 1
  {
    if url !in visited && depth > 0 {
      var own := CrawlResult(ScrapePage(FetchText(web, url), terms), visited + {url}, [url]);
      assert own.found == PagesTerms(web, terms, own.scraped);
      if FetchLinks(web, url).Some? {
        LinksFoundOnFetchedPages(web, terms, url, FetchLinks(web, url).value, depth - 1, own.visited);
        ThenFound(web, terms, own, Links(web, terms, url, FetchLinks(web, url).value, depth - 1, own.visited));
      }
    }
  }

  lemma {:induction false} LinksFoundOnFetchedPages(web: Web, terms: set<string>, pageUrl: string, hrefs: seq<string>,
                                                    depth: nat, visited: set<string>)
    ensures var r := Links(web, terms, pageUrl, hrefs, depth, visited); r.found == PagesTerms(web, terms, r.scraped)
    decreases depth + 1, 0, |hrefs|
  {
    if hrefs != [] && web.resolve(pageUrl, hrefs[0]).Some? {
      var full := web.resolve(pageUrl, hrefs[0]).value;
      if SameSite(pageUrl, full) && full !in visited {
        var sub := Crawl(web, terms, full, depth, visited);
        CrawlFoundOnFetchedPages(web, terms, full, depth, visited);
        LinksFoundOnFetchedPages(web, terms, pageUrl, hrefs[1..], depth, sub.visited);
        ThenFound(web, terms, sub, Links(web, terms, pageUrl, hrefs[1..], depth, sub.visited));
      } else {
        LinksFoundOnFetchedPages(web, terms, pageUrl, hrefs[1..], depth, visited);
      }
    }
  }

  /** Everything a crawl reports is the lower-cased form of one of the terms. */
  lemma CrawlFoundWithinTerms(web: Web, terms: set<string>, url: string, depth: nat, visited: set<string>)
    ensures Crawl(web, terms, url, depth, visited).found <= LowerAll(terms)
  {
    CrawlFoundOnFetchedPages(web, terms, url, depth, visited);
    PagesTermsWithin(web, terms, Crawl(web, terms, url, depth, visited).scraped);
  }

  /**
   * Every page a crawl scrapes contains the URL the crawl started from: each admitted
   * link contains the page it was found on, and containment is transitive.
   */
  lemma {:induction false} CrawlStaysOnSite(web: Web, terms: set<string>, url: string, depth: nat, visited: set<string>)
    ensures forall u :: u in Crawl(web, terms, url, depth, visited).scraped ==> SameSite(url, u)
    decreases depth, 1
  {
    if url !in visited && depth > 0 {
      ContainsSelf(url);
      if FetchLinks(web, url).Some? {
        LinksStayOnSite(web, terms, url, FetchLinks(web, url).value, depth - 1, visited + {url});
      }
    }
  }

  lemma {:induction false} LinksStayOnSite(web: Web, terms: set<string>, pageUrl: string, hrefs: seq<string>,
                                           depth: nat, visited: set<string>)
    ensures forall u :: u in Links(web, terms, pageUrl, hrefs, depth, visited).scraped ==> SameSite(pageUrl, u)
    decreases depth + 1, 0, |hrefs|
  {
    if hrefs != [] && web.resolve(pageUrl, hrefs[0]).Some? {
      var full := web.resolve(pageUrl, hrefs[0]).value;
      if SameSite(pageUrl, full) && full !in visited {
        var sub := Crawl(web, terms, full, depth, visited);
        CrawlStaysOnSite(web, terms, full, depth, visited);
        LinksStayOnSite(web, terms, pageUrl, hrefs[1..], depth, sub.visited);
        forall u | u in sub.scraped ensures SameSite(pageUrl, u) {
          ContainsTransitive(pageUrl, full, u);
        }
      } else {
        LinksStayOnSite(web, terms, pageUrl, hrefs[1..], depth, visited);
      }
    }
  }

  /** `to` is an admitted link of `from`: one of its hrefs resolves to `to`, and `to` passes the same-site test. */
  ghost predicate Hop(web: Web, from: string, to: string) {
    FetchLinks(web, from).Some? &&
    exists h :: h in FetchLinks(web, from).value && web.resolve(from, h) == Some(to) && SameSite(from, to)
  }

  /** `to` is `from` or lies at most `n` admitted links away from it. */
  ghost predicate Reaches(web: Web, from: string, to: string, n: nat)
    decreases n
  {
    from == to || (n > 0 && exists mid :: Hop(web, from, mid) && Reaches(web, mid, to, n - 1))
  }

  /**
   * Every page a crawl of depth `depth` scrapes lies at most `depth - 1` admitted
   * links from its start: each recursive call follows one admitted link with one less depth.
   */
  lemma {:induction false} CrawlWithinDepth(web: Web, terms: set<string>, url: string, depth: nat, visited: set<string>)
    ensures forall u :: u in Crawl(web, terms, url, depth, visited).scraped ==>
      depth >= 1 && Reaches(web, url, u, depth - 1)
    decreases depth, 1
  {
    if url !in visited && depth > 0 {
      if FetchLinks(web, url).Some? {
        var hrefs := FetchLinks(web, url).value;
        LinksWithinDepth(web, terms, url, hrefs, depth - 1, visited + {url});
      }
    }
  }

  lemma {:induction false} LinksWithinDepth(web: Web, terms: set<string>, pageUrl: string, hrefs: seq<string>,
                                            depth: nat, visited: set<string>)
    requires FetchLinks(web, pageUrl).Some?
    requires forall h :: h in hrefs ==> h in FetchLinks(web, pageUrl).value
    ensures forall u :: u in Links(web, terms, pageUrl, hrefs, depth, visited).scraped ==>
      depth >= 1 && Reaches(web, pageUrl, u, depth)
    decreases depth + 1, 0, |hrefs|
  {
    if hrefs != [] && web.resolve(pageUrl, hrefs[0]).Some? {
      var full := web.resolve(pageUrl, hrefs[0]).value;
      if SameSite(pageUrl, full) && full !in visited {
        var sub := Crawl(web, terms, full, depth, visited);
        CrawlWithinDepth(web, terms, full, depth, visited);
        LinksWithinDepth(web, terms, pageUrl, hrefs[1..], depth, sub.visited);
        assert Hop(web, pageUrl, full) by {
          assert hrefs[0] in FetchLinks(web, pageUrl).value;
        }
        forall u | u in sub.scraped ensures Reaches(web, pageUrl, u, depth) {
          assert Reaches(web, full, u, depth - 1);
        }
      } else {
        LinksWithinDepth(web, terms, pageUrl, hrefs[1..], depth, visited);
      }
    }
  }

  /** With depth 1 the crawl scrapes the start page and no other, however many links it has. */
  lemma DepthOneScrapesOnlyStart(web: Web, terms: set<string>, url: string, visited: set<string>)
    requires url !in visited
    ensures Crawl(web, terms, url, 1, visited).scraped == [url]
    ensures Crawl(web, terms, url, 1, visited).found == ScrapePage(FetchText(web, url), terms)
  {
    var r := Crawl(web, terms, url, 1, visited);
    CrawlExtends(web, terms, url, 1, visited);
    CrawlWithinDepth(web, terms, url, 1, visited);
    CrawlFoundOnFetchedPages(web, terms, url, 1, visited);
    forall i | 0 <= i < |r.scraped| ensures r.scraped[i] == url {
      assert Reaches(web, url, r.scraped[i], 0);
    }
    assert r.scraped == [url];
  }

  /**
   * Within one crawl a URL is scraped once: a later call for any URL the crawl
   * visited, along another branch or the same one, scrapes nothing and reports nothing.
   */
  lemma RevisitIsEmpty(web: Web, terms: set<string>, url: string, depth: nat, visited: set<string>,
                       u: string, depth': nat)
    requires u in visited || u in Crawl(web, terms, url, depth, visited).scraped
    ensures var after := Crawl(web, terms, url, depth, visited).visited;
      Crawl(web, terms, u, depth', after) == CrawlResult({}, after, [])
  {
    CrawlExtends(web, terms, url, depth, visited);
  }

  /** The same web, except that reading the text of `u` fails. */
  function NoText(web: Web, u: string): Web {
    if u in web.pages then web.(pages := web.pages[u := web.pages[u].(text := None)]) else web
  }

  /**
   * A page whose text cannot be read loses only its own terms: the crawl scrapes the
   * same pages, in the same order, and leaves the same visited set.
   */
  lemma {:induction false} CrawlTextIndependent(web: Web, terms: set<string>, url: string, depth: nat,
                                                visited: set<string>, u: string)
    ensures var r, r' := Crawl(web, terms, url, depth, visited), Crawl(NoText(web, u), terms, url, depth, visited);
      r'.scraped == r.scraped && r'.visited == r.visited
    decreases depth, 1
  {
    if url !in visited && depth > 0 {
      assert FetchLinks(NoText(web, u), url) == FetchLinks(web, url);
      if FetchLinks(web, url).Some? {
        LinksTextIndependent(web, terms, url, FetchLinks(web, url).value, depth - 1, visited + {url}, u);
      }
    }
  }

  lemma {:induction false} LinksTextIndependent(web: Web, terms: set<string>, pageUrl: string, hrefs: seq<string>,
                                                depth: nat, visited: set<string>, u: string)
    ensures var r, r' := Links(web, terms, pageUrl, hrefs, depth, visited),
                         Links(NoText(web, u), terms, pageUrl, hrefs, depth, visited);
      r'.scraped == r.scraped && r'.visited == r.visited
    decreases depth + 1, 0, |hrefs|
  {
    if hrefs != [] {
      assert NoText(web, u).resolve == web.resolve;
      match web.resolve(pageUrl, hrefs[0])
      case None =>
      case Some(full) =>
        if SameSite(pageUrl, full) && full !in visited {
          CrawlTextIndependent(web, terms, full, depth, visited, u);
          var sub := Crawl(web, terms, full, depth, visited);
          LinksTextIndependent(web, terms, pageUrl, hrefs[1..], depth, sub.visited, u);
        } else {
          LinksTextIndependent(web, terms, pageUrl, hrefs[1..], depth, visited, u);
        }
    }
  }

  /**
   * A link that `urljoin` cannot resolve ends the loop: the result is that of the loop
   * over the links before it, with everything merged so far kept.
   */
  lemma {:induction false} LinksBreak(web: Web, terms: set<string>, pageUrl: string, hrefs: seq<string>,
                                      depth: nat, visited: set<string>, i: nat)
    requires i < |hrefs| && web.resolve(pageUrl, hrefs[i]).None?
    ensures Links(web, terms, pageUrl, hrefs, depth, visited) == Links(web, terms, pageUrl, hrefs[..i], depth, visited)
    decreases i
  {
    if i > 0 {
      var rest := hrefs[1..];
      assert hrefs[..i][0] == hrefs[0] && hrefs[..i][1..] == rest[..i - 1];
      assert rest[i - 1] == hrefs[i];
      match web.resolve(pageUrl, hrefs[0])
      case None =>
      case Some(full) =>
        if SameSite(pageUrl, full) && full !in visited {
          var sub := Crawl(web, terms, full, depth, visited);
          LinksBreak(web, terms, pageUrl, rest, depth, sub.visited, i - 1);
        } else {
          LinksBreak(web, terms, pageUrl, rest, depth, visited, i - 1);
        }
    }
  }

  /**
   * The loop follows its links: an href before the first that `urljoin` cannot resolve,
   * whose target passes the same-site test, has its target visited after the loop,
   * either because it was visited already or because the loop scraped it.
   */
  lemma {:induction false} LinksFollowed(web: Web, terms: set<string>, pageUrl: string, hrefs: seq<string>,
                                         depth: nat, visited: set<string>, i: nat)
    requires depth >= 1 && i < |hrefs|
    requires forall j :: 0 <= j <= i ==> web.resolve(pageUrl, hrefs[j]).Some?
    requires SameSite(pageUrl, web.resolve(pageUrl, hrefs[i]).value)
    ensures var target, r := web.resolve(pageUrl, hrefs[i]).value, Links(web, terms, pageUrl, hrefs, depth, visited);
      target in r.visited && (target in visited || target in r.scraped)
    decreases i
  {
    var full := web.resolve(pageUrl, hrefs[0]).value;
    var rest := hrefs[1..];
    LinksExtends(web, terms, pageUrl, hrefs, depth, visited);
    if i == 0 {
      if full !in visited {
        var sub := Crawl(web, terms, full, depth, visited);
        CrawlExtends(web, terms, full, depth, visited);
        LinksExtends(web, terms, pageUrl, rest, depth, sub.visited);
      }
    } else {
      assert rest[i - 1] == hrefs[i];
      if SameSite(pageUrl, full) && full !in visited {
        var sub := Crawl(web, terms, full, depth, visited);
        LinksFollowed(web, terms, pageUrl, rest, depth, sub.visited, i - 1);
      } else {
        LinksFollowed(web, terms, pageUrl, rest, depth, visited, i - 1);
      }
    }
  }

  /**
   * A crawl with depth left for its links follows them: the target of every same-site
   * href of the start page before the first that `urljoin` cannot resolve is scraped
   * by the crawl or was visited before it.
   */
  lemma CrawlFollowsLinks(web: Web, terms: set<string>, url: string, depth: nat, visited: set<string>, i: nat)
    requires url !in visited && depth >= 2
    requires FetchLinks(web, url).Some? && i < |FetchLinks(web, url).value|
    requires forall j :: 0 <= j <= i ==> web.resolve(url, FetchLinks(web, url).value[j]).Some?
    requires SameSite(url, web.resolve(url, FetchLinks(web, url).value[i]).value)
    ensures var target := web.resolve(url, FetchLinks(web, url).value[i]).value;
      target in visited || target in Crawl(web, terms, url, depth, visited).scraped
  {
    var hrefs := FetchLinks(web, url).value;
    LinksFollowed(web, terms, url, hrefs, depth - 1, visited + {url}, i);
  }

  /**
   * A link from a page back to a page whose URL it contains, such as the page it was
   * reached from, passes the same-site test only when it is that page itself.
   */
  lemma BackLinkOnlyToSelf(parent: string, child: string)
    requires SameSite(parent, child) && SameSite(child, parent)
    ensures child == parent
  {
    MutualContainment(parent, child);
  }
}
