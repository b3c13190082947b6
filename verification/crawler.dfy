/**
 * The crawler as the source runs it: a recursive method whose loop walks the
 * hrefs of the page in document order, with the visited set passed in and handed
 * back (the source mutates one set shared by every call).
 */
module Crawler {
  import opened Wrappers
  import opened Strings
  import opened PageScanner
  import opened CrawlSpec

  /**
   * `scrape_website(url, terms, depth, visited)`. `scraped` is the sequence of
   * "Scraping <url>" announcements the call makes.
   */
  method ScrapeWebsite(web: Web, terms: set<string>, url: string, depth: nat, visited: set<string>)
    returns (found: set<string>, visitedOut: set<string>, scraped: seq<string>)
    ensures CrawlResult(found, visitedOut, scraped) == Crawl(web, terms, url, depth, visited)
    decreases depth
  {
    if url in visited || depth == 0 {
      return {}, visited, [];
    }
    scraped := [url];
    visitedOut := visited + {url};
    var own := ScrapePage(FetchText(web, url), terms);
    found := own;
    var links := FetchLinks(web, url);
    if links.None? {
      return;
    }
    var hrefs := links.value;
    ghost var start := CrawlResult(own, visitedOut, scraped);
    var i := 0;
    while i < |hrefs|
      invariant 0 <= i <= |hrefs|
      invariant Then(CrawlResult(found, visitedOut, scraped), Links(web, terms, url, hrefs[i..], depth - 1, visitedOut))
             == Then(start, Links(web, terms, url, hrefs, depth - 1, start.visited))
    {
      assert hrefs[i..][0] == hrefs[i] && hrefs[i..][1..] == hrefs[i + 1..];
      var full := web.resolve(url, hrefs[i]);
      if full.None? {
        break;
      }
      if SameSite(url, full.value) && full.value !in visitedOut {
        var subFound, subVisited, subScraped := ScrapeWebsite(web, terms, full.value, depth - 1, visitedOut);
        found := found + subFound;
        visitedOut := subVisited;
        scraped := scraped + subScraped;
      }
      i := i + 1;
    }
  }

  /**
   * The top-level call, `scrape_website(url, terms, max_depth)` with no visited set:
   * a fresh, empty one is made for it.
   */
  method ScrapeSite(web: Web, terms: set<string>, url: string, depth: nat)
    returns (found: set<string>, scraped: seq<string>)
    ensures found == Crawl(web, terms, url, depth, {}).found
    ensures scraped == Crawl(web, terms, url, depth, {}).scraped
    ensures found == PagesTerms(web, terms, scraped)
    ensures found <= LowerAll(terms)
    ensures Distinct(scraped)
    ensures depth == 0 ==> scraped == []
    ensures depth >= 1 ==> |scraped| >= 1 && scraped[0] == url
    ensures depth == 1 ==> scraped == [url]
    ensures forall u :: u in scraped ==> SameSite(url, u) && Reaches(web, url, u, depth - 1)
    ensures depth >= 2 && FetchLinks(web, url).Some? ==>
      forall i ::
        (0 <= i < |FetchLinks(web, url).value| &&
         (forall j :: 0 <= j <= i ==> web.resolve(url, FetchLinks(web, url).value[j]).Some?) &&
         SameSite(url, web.resolve(url, FetchLinks(web, url).value[i]).value)) ==>
        web.resolve(url, FetchLinks(web, url).value[i]).value in scraped
  {
    var visited;
    found, visited, scraped := ScrapeWebsite(web, terms, url, depth, {});
    CrawlExtends(web, terms, url, depth, {});
    CrawlFoundOnFetchedPages(web, terms, url, depth, {});
    CrawlFoundWithinTerms(web, terms, url, depth, {});
    CrawlStaysOnSite(web, terms, url, depth, {});
    CrawlWithinDepth(web, terms, url, depth, {});
    if depth == 1 {
      DepthOneScrapesOnlyStart(web, terms, url, {});
    }
    if depth >= 2 && FetchLinks(web, url).Some? {
      var hrefs := FetchLinks(web, url).value;
      forall i | 0 <= i < |hrefs| && (forall j :: 0 <= j <= i ==> web.resolve(url, hrefs[j]).Some?) &&
                 SameSite(url, web.resolve(url, hrefs[i]).value)
        ensures web.resolve(url, hrefs[i]).value in scraped
      {
        CrawlFollowsLinks(web, terms, url, depth, {}, i);
      }
    }
  }
}
