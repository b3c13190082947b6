# Disease-term web scraper, modelled in Dafny

The scraper takes a start URL, a depth and a comma-separated list of disease terms.
It parses the terms, expands each one through the MeSH vocabulary (the descriptor name
and the synonyms of its first search hit), and crawls the site depth-first from the
start URL. For every page it scrapes, it reports which expanded terms occur in the
lower-cased page text.

This project models that core. It proves what the parsing, the expansion, the page
scan and the crawl compute, and what they guarantee.

- `Wrappers` (`wrappers.dfy`): `Option`.
- `Strings` (`strings.dfy`): the string operations the program relies on.
  - `Lower` is `str.lower()`, for ASCII letters.
  - `IsSpace` is the character set that `str.strip()` removes.
  - `Contains` is Python's substring test `pat in text`. It is proved equivalent to the
    existence of an index where `pat` occurs.
- `TermInput` (`term_input.dfy`): the parse of the user's input. `Split` is
  `str.split(',')`, `Join` is its inverse, `Strip` is `str.strip()`, and `ParseTerms`
  is the whole parse.
- `TermExpander` (`term_expander.dfy`): the MeSH expansion.
  - The Entrez search, fetch and read are one `lookup` function. For a query it
    answers `LookupError` (anything raised), `NoIds` (an empty `IdList`) or
    `Found(record)` (the record of the first identifier).
  - `FetchMeshTerms` and `ExpandDiseaseTerms` are the loops of the source. They are
    proved against the specification functions `MeshTerms` and `Expansion`.
- `PageScanner` (`page_scanner.dfy`): `scrape_page`.
  - The fetched and parsed text is `Some(text)`, or `None` when the request or the
    parse raised.
- `CrawlSpec` (`crawl_spec.dfy`): `scrape_website` as mutually recursive functions.
  - `Crawl` is one call. `Links` is its loop over the page's links.
  - A `Web` maps each URL to the two independent fetches the source makes of it: one
    for its text (inside `scrape_page`), one for its links. Each can fail.
  - A `Web` also gives a `resolve` function standing for `urljoin`, where `None`
    means it raised.
  - `CrawlResult` holds the terms found, the visited set afterwards, and the URLs
    scraped, in the order they are announced.
- `Crawler` (`crawler.dfy`): `scrape_website` as the recursive method with its loop over
  the hrefs, proved equal to `Crawl`, and the top-level call with a fresh visited set.
- `Scenarios` (`scenarios.dfy`): small sites crawled end to end. One is a home page
  linking to an about page. The other is two pages linking back and forth.

Behaviour the model keeps from the code:

- The same-site test checks that the resolved link contains the URL of the page it
  was found on, not the URL the crawl started from. Because containment is
  transitive, every scraped page still contains the start URL (`CrawlStaysOnSite`).
- Every same-site link of a page is followed while depth remains: its target is
  scraped unless it was visited already (`CrawlFollowsLinks`, `LinksFollowed`). This
  holds for the links before the first one `urljoin` cannot resolve.
- The links are a list, followed in document order. The visited set is shared by the
  whole crawl, so no URL is scraped twice, however often and along however many
  branches it is linked (`CrawlExtends`). A repeated href whose first occurrence was
  scraped finds itself visited the second time. At the last depth level each occurrence
  leads to a call that returns at once without marking it visited. A link that fails
  the same-site test is skipped by that test every time.
- A page whose links cannot be fetched still reports its own terms. So does a page
  with a link that `urljoin` cannot resolve. That failure ends the loop over the page's
  remaining links, but it keeps the results merged before it (`LinksBreak`).
- A page whose text cannot be read loses only its own terms. The same pages are
  scraped, in the same order, and the visited set is the same (`CrawlTextIndependent`).
- The early return of a crawl call is the empty value `{}`, modelled as the empty set.
- An empty term (from a trailing or doubled comma) matches every page that was read.

## Model

| member | source | states |
|---|---|---|
| TermInput.Split | webscraper.py:23 | `user_terms.split(',')` gives at least one piece, even for empty input |
| TermInput.SplitPiecesCommaFree | webscraper.py:23 | no piece of the split contains a comma |
| TermInput.SplitCount | webscraper.py:23 | the split gives exactly one more piece than there are commas in the input |
| TermInput.JoinSplit | webscraper.py:23 | joining the pieces with commas gives back the input, so the split loses nothing |
| TermInput.SplitConcat | webscraper.py:23 | splitting at a comma gives the pieces before it followed by the pieces after it |
| TermInput.SplitJoin | webscraper.py:23 | splitting the comma-join of comma-free pieces gives those pieces back |
| TermInput.SplitCommaFree | webscraper.py:23 | a piece without a comma splits into itself alone |
| TermInput.TrimStart | webscraper.py:23 | the result is a suffix of the input; the part dropped is all whitespace; the result does not start with whitespace |
| TermInput.TrimEnd | webscraper.py:23 | the result is a prefix of the input; the part dropped is all whitespace; the result does not end with whitespace |
| TermInput.TrimBoth | webscraper.py:23 | removing leading then trailing whitespace leaves no whitespace at either end, and what was removed is whitespace on both sides |
| TermInput.Strip | webscraper.py:23 | the result has no leading or trailing whitespace, and it is the input with an all-whitespace prefix and suffix removed |
| TermInput.ParseTerms | webscraper.py:23 | one term per comma-separated piece (commas + 1 of them); each term is its piece stripped, so it has no comma and no outer whitespace |
| TermInput.TrailingCommaGivesEmptyTerm | webscraper.py:23 | input ending in a comma yields an empty last term |
| TermInput.DoubledCommaGivesEmptyTerm | webscraper.py:23 | two adjacent commas yield an empty term |
| TermExpander.MeshTerms | webscraper.py:26-55 | what `fetch_mesh_terms` returns for a query and a service answer; its meaning is given by `MeshTermsMembers` |
| TermExpander.ConceptTermsMembers | webscraper.py:47-49 | a string is collected from the concepts exactly when some concept's TermList holds it |
| TermExpander.MeshTermsMembers | webscraper.py:26-55 | a failed lookup or an empty IdList gives `[query]`; a record gives its descriptor name first, then exactly the TermList strings of its concepts |
| TermExpander.FetchMeshTerms | webscraper.py:26-55 | the nested loops build the descriptor name followed by every concept's TermList, in order; the error and no-hit paths return the query alone |
| TermExpander.Expansion | webscraper.py:58-63 | what `expand_disease_terms` returns, the union of every seed's MeSH terms; its meaning is given by `ExpansionMembers` |
| TermExpander.GatherMembers | webscraper.py:59-62 | the union built seed by seed holds a string exactly when some seed gives it |
| TermExpander.ExpansionMembers | webscraper.py:58-63 | a string is in the expansion exactly when the lookup of some seed term yields it |
| TermExpander.ExpansionFallback | webscraper.py:33-55 | a seed whose lookup fails or finds nothing contributes exactly itself, and so is kept in the expansion |
| TermExpander.ExpandDiseaseTerms | webscraper.py:58-63 | the loop builds the union of the lookups of all seeds; a string is in it exactly when some seed's lookup yields it |
| Strings.Lower | webscraper.py:72 | `str.lower()` on ASCII letters; `LowerIdempotent` and `LowerChar`'s contract give its meaning |
| Strings.Contains | webscraper.py:75 | Python's `pat in text` as a left-to-right scan; `ContainsOccurs` gives its meaning |
| Strings.ContainsOccurs | webscraper.py:75 | the substring test `pat in text` holds exactly when `pat` occurs at some index of `text` |
| Strings.InfixContained | webscraper.py:75 | every infix of a string passes the substring test |
| Strings.ContainsTransitive | webscraper.py:110 | a substring of a substring is a substring, which is what keeps the same-site test chained |
| Strings.MutualContainment | webscraper.py:110 | two URLs that each pass the other's containment test are equal |
| Strings.LowerIdempotent | webscraper.py:72 | lower-casing twice equals lower-casing once |
| PageScanner.ScanText | webscraper.py:72-75 | the terms found in a page text that was read; `ScanTextMembers` gives its meaning |
| PageScanner.ScrapePage | webscraper.py:66-80 | `scrape_page`, with `None` for a fetch or parse that raised; `ScrapePageWithinTerms` and `ScanTextMembers` give its meaning |
| PageScanner.ScanTextMembers | webscraper.py:72-75 | a string is reported for a page exactly when it is a lower-cased term that occurs in the lower-cased page text |
| PageScanner.ScrapePageWithinTerms | webscraper.py:66-80 | a page reports only lower-cased terms, and a page whose fetch or parse raised reports nothing |
| PageScanner.ScanTextIgnoresCase | webscraper.py:72-75 | the result does not change if the page text or the terms are lower-cased first |
| PageScanner.EmptyTermAlwaysFound | webscraper.py:75 | an empty term is reported for every page that was read |
| PageScanner.CaseInsensitiveExample | webscraper.py:72-75 | the text "Cancer is discussed here" is reported to contain the term "cancer" |
| CrawlSpec.SameSite | webscraper.py:110 | the same-site test: the resolved link contains the URL of the current page; `CrawlStaysOnSite` and `BackLinkOnlyToSelf` give its consequences |
| CrawlSpec.Crawl | webscraper.py:83-117 | one `scrape_website` call; `CrawlExtends`, `CrawlFoundOnFetchedPages` and `CrawlWithinDepth` bound what it scrapes, and `CrawlFollowsLinks` shows it follows the start page's admitted links |
| CrawlSpec.Links | webscraper.py:105-112 | the loop over the page's links; `LinksExtends`, `LinksFoundOnFetchedPages` and `LinksBreak` bound what it scrapes, and `LinksFollowed` shows it crawls every admitted link |
| CrawlSpec.ThenExtends | webscraper.py:108-112 | merging a call's result with the next call's result keeps the visited set growing by exactly the scraped URLs |
| CrawlSpec.CrawlExtends | webscraper.py:83-117 | a call scrapes nothing when the URL was visited or the depth is 0, and otherwise scrapes the URL first; the visited set grows by exactly the scraped URLs; no URL is scraped twice |
| CrawlSpec.LinksExtends | webscraper.py:105-112 | the link loop grows the visited set by exactly the URLs it scrapes, each new and scraped once |
| CrawlSpec.PagesTermsConcat | webscraper.py:112 | the terms of two runs of pages are the union of the terms of each |
| CrawlSpec.PagesTermsWithin | webscraper.py:75 | the terms of any pages are lower-cased terms |
| CrawlSpec.ThenFound | webscraper.py:112 | merging keeps the found terms equal to the terms of the scraped pages |
| CrawlSpec.CrawlFoundOnFetchedPages | webscraper.py:83-117 | a crawl reports exactly the union of what `scrape_page` finds on the pages it scraped, whatever failed on the way |
| CrawlSpec.LinksFoundOnFetchedPages | webscraper.py:105-112 | the link loop reports exactly the terms found on the pages it scraped |
| CrawlSpec.CrawlFoundWithinTerms | webscraper.py:83-117 | a crawl reports only lower-cased forms of the terms |
| CrawlSpec.CrawlStaysOnSite | webscraper.py:108-111 | every scraped page contains the URL the crawl started from |
| CrawlSpec.LinksStayOnSite | webscraper.py:108-111 | every page the link loop scrapes contains the URL of the page whose links it walks |
| CrawlSpec.CrawlWithinDepth | webscraper.py:88-111 | every page a crawl of depth d scrapes is at most d - 1 admitted links from the start |
| CrawlSpec.LinksWithinDepth | webscraper.py:108-111 | every page the link loop scrapes with depth d is at most d admitted links from the page whose links it walks |
| CrawlSpec.DepthOneScrapesOnlyStart | webscraper.py:88-111 | with depth 1 only the start page is scraped, and its terms are what is reported |
| CrawlSpec.RevisitIsEmpty | webscraper.py:88-89 | a later call for a URL already visited scrapes nothing, reports nothing and leaves the visited set as it was |
| CrawlSpec.CrawlTextIndependent | webscraper.py:66-80 | when reading one page's text fails, the crawl still scrapes the same pages in the same order and leaves the same visited set, so only that page's own terms are lost |
| CrawlSpec.LinksTextIndependent | webscraper.py:105-112 | the same for the link loop: a failed text read changes neither the pages scraped nor the visited set |
| CrawlSpec.LinksBreak | webscraper.py:108-115 | a link that `urljoin` cannot resolve ends the loop: the result equals that of the loop over the links before it |
| CrawlSpec.LinksFollowed | webscraper.py:105-112 | with depth left, the target of every href before the first that `urljoin` cannot resolve, if it passes the same-site test, is visited after the loop: it was visited before or the loop scraped it |
| CrawlSpec.CrawlFollowsLinks | webscraper.py:100-111 | a crawl of depth 2 or more from an unvisited URL scrapes the target of each same-site link of the start page before the first unresolvable one, unless that target was already visited |
| CrawlSpec.BackLinkOnlyToSelf | webscraper.py:110 | two URLs that each pass the other's same-site test are equal, so a link back to a page the current URL contains is admitted only if it is the current page itself |
| Crawler.ScrapeWebsite | webscraper.py:83-117 | the recursive method with its loop over the hrefs returns exactly the found terms, visited set and scrape order of `Crawl` |
| Crawler.ScrapeSite | webscraper.py:83-85 | the top-level call with a fresh visited set: it reports exactly the terms of the pages scraped, all lower-cased terms; no page is scraped twice; nothing is scraped at depth 0; the start page comes first; only the start page is scraped at depth 1; every page scraped is on the site and within depth - 1 links; with depth 2 or more, every same-site link of the start page before the first unresolvable one is scraped |
| Scenarios.TwoPageCrawl | webscraper.py:83-117 | on a home page linking to an about page, depth 2 scrapes the home page and then the about page, and reports the union of their terms |
| Scenarios.Mentioned | webscraper.py:72-75 | a lower-case text ending in a lower-case term reports that term |
| Scenarios.NotMentioned | webscraper.py:72-75 | a lower-case text missing one letter of a lower-case term does not report it |
| Scenarios.LivingWith | webscraper.py:72-75 | a page "living with <term>" reports that lower-case term |
| Scenarios.DiabetesAbout | webscraper.py:72-75 | the page "no conditions mentioned" reports nothing for "diabetes" |
| Scenarios.DiabetesSite | webscraper.py:83-117 | "living with diabetes" on the home page, and nothing on the about page: diabetes is reported and both pages are scraped |
| Scenarios.CycleCrawl | webscraper.py:108-111 | on two pages linking to each other, depth 3 scrapes each page once: the link back fails the same-site test and the self-link is already visited |
| Scenarios.AsthmaFirst | webscraper.py:72-75 | the page "welcome" reports nothing for "asthma" |
| Scenarios.AsthmaCycle | webscraper.py:83-117 | asthma mentioned only on the second page of the cycle is reported |

## Left out

- The Streamlit interface is not modelled: the title, the three inputs, the button and the guard on empty inputs (lines 11-20 and 120-133). The crawl takes its URL, depth and terms as parameters.
- The messages written with `st.write`, `st.warning`, `st.error` and `st.success` are not modelled. The "Scraping" announcements appear only as the `scraped` sequence.
- HTTP requests and HTML parsing are not modelled. A `Web` gives each URL's text (`soup.get_text()`) and its hrefs, in document order, with each fetch able to fail. The two fetches of a page are independent, so any text can go with any hrefs, as when the page changes between the two requests. A URL does, however, give the same two outcomes every time it is requested, across all the calls of a crawl.
- `urljoin` is not modelled. It is the uninterpreted `resolve` parameter of a `Web`, whose `None` stands for an exception.
- Entrez is not modelled: the e-mail setting, `esearch`, `efetch` and the XML reading. Together they are the `lookup` parameter, which answers the same way for the same query. The choice of the first identifier happens inside that function.
- Strings.Lower: lower-cases ASCII letters only, not the full Unicode mapping of `str.lower()`.
- The Python recursion limit is not modelled. Neither are exceptions raised by the recursive call, which in the source would be caught by the enclosing `try` of the calling page.
