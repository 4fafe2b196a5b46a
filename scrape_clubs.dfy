/**
 * The club-directory scraper (src/scrape_clubs.py): absolutising the "Learn More"
 * hrefs of a listing page, walking the listing pages until one of the stop
 * conditions holds, building one record per club page, and keeping the records
 * that were scraped.
 *
 * The browser is foreign: what each listing page and each club page showed (or
 * that reading it raised) is an input.
 */
module ScrapeClubs {

  import opened Wrappers
  import opened Json
  import opened PyStr

  const BaseUrl := "https://clubs.wusa.ca"

  // ---------------------------------------------------------------------------
  // get_club_urls
  // ---------------------------------------------------------------------------

  /** `href if href.startswith("http") else f"{BASE_URL}{href}"` */
  function AbsoluteUrl(href: string): (url: string)
    ensures StartsWith(url, "http")
    ensures StartsWith(href, "http") ==> url == href
    ensures !StartsWith(href, "http") ==> url == BaseUrl + href && EndsWith(url, href)
  {
    if StartsWith(href, "http") then href
    else
      var url := BaseUrl + href;
      assert url[..4] == BaseUrl[..4];
      assert url[|url| - |href|..] == href;
      url
  }

  /** An absolute URL is left as it is. */
  lemma AbsoluteUrlIdempotent(href: string)
    ensures AbsoluteUrl(AbsoluteUrl(href)) == AbsoluteUrl(href)
  {
  }

  /** Reading one "Learn More" anchor: its `href` attribute, or an error. */
  datatype AnchorRead = Href(href: Option<string>) | ReadFailed

  /**
   * The links `get_club_urls` returns: the absolutised non-empty hrefs in anchor
   * order, up to the first anchor whose read raised. A wait that times out is a
   * `ReadFailed` at the front.
   */
  function ClubUrls(anchors: seq<AnchorRead>): (links: seq<string>)
    ensures |links| <= |anchors|
    ensures forall k :: 0 <= k < |links| ==> StartsWith(links[k], "http")
    decreases |anchors|
  {
    if anchors == [] then []
    else match anchors[0]
      case ReadFailed => []
      case Href(h) =>
        if h.Some? && h.value != "" then [AbsoluteUrl(h.value)] + ClubUrls(anchors[1..])
        else ClubUrls(anchors[1..])
  }

  /** Every non-empty href before the first failed read yields exactly one link, in order. */
  lemma {:induction false} ClubUrlsOfCleanListing(hrefs: seq<string>)
    requires forall k :: 0 <= k < |hrefs| ==> hrefs[k] != ""
    ensures var anchors := seq(|hrefs|, k requires 0 <= k < |hrefs| => Href(Some(hrefs[k])));
      ClubUrls(anchors) == seq(|hrefs|, k requires 0 <= k < |hrefs| => AbsoluteUrl(hrefs[k]))
  {
    if hrefs != [] {
      ClubUrlsOfCleanListing(hrefs[1..]);
      var anchors := seq(|hrefs|, k requires 0 <= k < |hrefs| => Href(Some(hrefs[k])));
      assert anchors[1..] == seq(|hrefs[1..]|, k requires 0 <= k < |hrefs[1..]| => Href(Some(hrefs[1..][k])));
    }
  }

  /** `get_club_urls`: the loop over the anchors, stopping at the first error. */
  method GetClubUrls(anchors: seq<AnchorRead>) returns (clubLinks: seq<string>)
    ensures clubLinks == ClubUrls(anchors)
  {
    clubLinks := [];
    var i := 0;
    while i < |anchors|
      invariant 0 <= i <= |anchors|
      invariant clubLinks + ClubUrls(anchors[i..]) == ClubUrls(anchors)
    {
      assert anchors[i..][1..] == anchors[i + 1..];
      match anchors[i] {
        case ReadFailed =>
          return;
        case Href(h) =>
          if h.Some? && h.value != "" {
            clubLinks := clubLinks + [AbsoluteUrl(h.value)];
          }
      }
      i := i + 1;
    }
  }

  // ---------------------------------------------------------------------------
  // Pagination in main
  // ---------------------------------------------------------------------------

  /** `[u for u in urls if u not in all_club_links]` */
  function NewLinks(urls: seq<string>, known: seq<string>): (kept: seq<string>)
    ensures forall u :: u in kept <==> u in urls && u !in known
    ensures |kept| <= |urls|
  {
    if urls == [] then []
    else
      var rest := NewLinks(urls[1..], known);
      assert urls == [urls[0]] + urls[1..];
      if urls[0] !in known then [urls[0]] + rest else rest
  }

  /**
   * The filter keeps the page's order and its repeats: the new links of two runs
   * of URLs are the new links of the first followed by those of the second.
   */
  lemma {:induction false} NewLinksAppend(a: seq<string>, b: seq<string>, known: seq<string>)
    ensures NewLinks(a + b, known) == NewLinks(a, known) + NewLinks(b, known)
    decreases |a|
  {
    if a == [] {
      assert a + b == b;
    } else {
      assert (a + b)[0] == a[0] && (a + b)[1..] == a[1..] + b;
      NewLinksAppend(a[1..], b, known);
    }
  }

  /** One more URL on the page is kept exactly when it is not yet known. */
  lemma NewLinksSnoc(urls: seq<string>, u: string, known: seq<string>)
    ensures NewLinks(urls + [u], known) == NewLinks(urls, known) + (if u !in known then [u] else [])
  {
    NewLinksAppend(urls, [u], known);
  }

  /** No string occurs twice. */
  predicate NoDuplicates(s: seq<string>) {
    forall i, j :: 0 <= i < j < |s| ==> s[i] != s[j]
  }

  /** Within one page the filter does not remove repeats: a page listing a club twice yields it twice. */
  lemma NewLinksKeepsRepeatsWithinPage()
    ensures NewLinks(["u", "u"], []) == ["u", "u"]
  {
  }

  /** Filtering a duplicate-free page keeps it duplicate-free. */
  lemma {:induction false} NewLinksNoDuplicates(urls: seq<string>, known: seq<string>)
    requires NoDuplicates(urls)
    ensures NoDuplicates(NewLinks(urls, known))
  {
    if urls != [] {
      assert NoDuplicates(urls[1..]) by {
        forall i, j | 0 <= i < j < |urls[1..]|
          ensures urls[1..][i] != urls[1..][j]
        {
          assert urls[1..][i] == urls[i + 1] && urls[1..][j] == urls[j + 1];
        }
      }
      NewLinksNoDuplicates(urls[1..], known);
      assert urls[0] !in urls[1..] by {
        forall i | 0 <= i < |urls[1..]|
          ensures urls[1..][i] != urls[0]
        {
          assert urls[1..][i] == urls[i + 1];
        }
      }
    }
  }

  /** Extending by a duplicate-free page never repeats a known link. */
  lemma NewLinksExtendUnique(urls: seq<string>, known: seq<string>)
    requires NoDuplicates(known) && NoDuplicates(urls)
    ensures NoDuplicates(known + NewLinks(urls, known))
  {
    var kept := NewLinks(urls, known);
    NewLinksNoDuplicates(urls, known);
    var all := known + kept;
    forall i, j | 0 <= i < j < |all|
      ensures all[i] != all[j]
    {
      if j >= |known| && i < |known| {
        assert all[j] == kept[j - |known|] && all[j] in kept;
        assert all[i] in known;
      } else if j >= |known| {
        assert all[i] == kept[i - |known|] && all[j] == kept[j - |known|];
      }
    }
  }

  /** What visiting one listing page showed. */
  datatype ListingPage =
    | PageFailed                                          // navigation raised
    | Listing(anchors: seq<AnchorRead>, nextVisible: bool)

  /** Why the pagination loop stopped. */
  datatype StopReason = NoUrls | NoNewLinks | NoNextButton | PageError

  /**
   * Listing page `n` (1-based). The site has finitely many; a page past the last
   * shows no anchors.
   */
  function PageAt(pages: seq<ListingPage>, n: nat): ListingPage {
    if 1 <= n <= |pages| then pages[n - 1] else Listing([], false)
  }

  /**
   * The pagination loop from page `n` with the links collected so far: the links at
   * the end, the page it stopped on, and why.
   */
  function Crawl(pages: seq<ListingPage>, n: nat, links: seq<string>): (r: (seq<string>, nat, StopReason))
    requires 1 <= n <= |pages| + 1
    ensures |links| <= |r.0| && r.0[..|links|] == links
    ensures n <= r.1 <= |pages| + 1
    decreases |pages| + 1 - n
  {
    match PageAt(pages, n)
    case PageFailed => (links, n, PageError)
    case Listing(anchors, nextVisible) =>
      var urls := ClubUrls(anchors);
      var kept := NewLinks(urls, links);
      if urls == [] then (links, n, NoUrls)
      else if kept == [] then (links, n, NoNewLinks)
      else if !nextVisible then (links + kept, n, NoNextButton)
      else
        assert n <= |pages|;
        var r := Crawl(pages, n + 1, links + kept);
        assert r.0[..|links|] == (links + kept)[..|links|];
        r
  }

  /** Links collected from duplicate-free listing pages are all distinct. */
  lemma {:induction false} CrawlNoDuplicates(pages: seq<ListingPage>, n: nat, links: seq<string>)
    requires 1 <= n <= |pages| + 1
    requires NoDuplicates(links)
    requires forall i :: 0 <= i < |pages| && pages[i].Listing? ==> NoDuplicates(ClubUrls(pages[i].anchors))
    ensures NoDuplicates(Crawl(pages, n, links).0)
    decreases |pages| + 1 - n
  {
    match PageAt(pages, n)
    case PageFailed =>
    case Listing(anchors, nextVisible) =>
      var urls := ClubUrls(anchors);
      if urls != [] {
        assert n <= |pages|;
        NewLinksExtendUnique(urls, links);
        if NewLinks(urls, links) != [] && nextVisible {
          CrawlNoDuplicates(pages, n + 1, links + NewLinks(urls, links));
        }
      }
  }

  /**
   * The `while True` pagination loop of `main`: stop on a page that raises, a
   * page without links, a page without new links, or a missing Next button;
   * otherwise move to the next page.
   */
  method Paginate(pages: seq<ListingPage>) returns (allClubLinks: seq<string>, pageNum: nat, reason: StopReason)
    ensures (allClubLinks, pageNum, reason) == Crawl(pages, 1, [])
  {
    allClubLinks := [];
    pageNum := 1;
    while true
      invariant 1 <= pageNum <= |pages| + 1
      invariant Crawl(pages, pageNum, allClubLinks) == Crawl(pages, 1, [])
      decreases |pages| + 1 - pageNum
    {
      var page := PageAt(pages, pageNum);
      if page.PageFailed? {
        return allClubLinks, pageNum, PageError;
      }
      var urls := GetClubUrls(page.anchors);
      if urls == [] {
        return allClubLinks, pageNum, NoUrls;
      }
      var newLinks := NewLinks(urls, allClubLinks);
      if newLinks == [] {
        return allClubLinks, pageNum, NoNewLinks;
      }
      allClubLinks := allClubLinks + newLinks;
      if !page.nextVisible {
        return allClubLinks, pageNum, NoNextButton;
      }
      pageNum := pageNum + 1;
    }
  }

  // ---------------------------------------------------------------------------
  // scrape_club_details
  // ---------------------------------------------------------------------------

  /** A locator read with `inner_text()`: absent, one element, or several (a strict-mode error). */
  datatype Located = Absent | One(text: string) | Several

  /** What a club page shows to the locators the scraper uses. */
  datatype DetailPage = DetailPage(
    h1: Option<string>,         // first h1's inner text, when there is one
    h2: Option<string>,         // first h2's inner text, when there is one
    breadcrumb: Located,        // ".breadcrumb li:last-child"
    whoWeAre: Located,          // parent of the "Who we are" header
    paragraphs: seq<string>,    // "div.club-content p, div.description p"
    content: Option<string>)    // first of ".content, #content, main"

  /** The club name: h1, else h2, and the breadcrumb only while the name is still empty; `None` when reading raised. */
  function NameOf(p: DetailPage): Option<Json> {
    var name := if p.h1.Some? then JStr(Strip(p.h1.value))
                else if p.h2.Some? then JStr(Strip(p.h2.value))
                else JNull;
    if Truthy(name) then Some(name)
    else match p.breadcrumb
      case Absent => Some(name)
      case One(t) => Some(JStr(Strip(t)))
      case Several => None
  }

  /** `text.replace("Who we are", "").strip()`, applied only to a non-empty description. */
  function CleanDescription(d: string): (r: string)
    ensures NoEdgeSpace(r)
    ensures NoEdgeSpace(d) && !Contains(d, "Who we are") ==> r == d
  {
    if d == "" then d
    else
      var r := Strip(Replace(d, "Who we are", ""));
      if NoEdgeSpace(d) && !Contains(d, "Who we are") then
        ReplaceAbsent(d, "Who we are", "");
        StripUnchanged(d);
        r
      else r
  }

  /** The raw description: the "Who we are" container, else the paragraphs, else the main content; `None` when reading raised. */
  function RawDescriptionOf(p: DetailPage): Option<string> {
    match p.whoWeAre
    case One(t) => Some(Strip(t))
    case Several => None
    case Absent =>
      var d := Strip(Join(p.paragraphs, "\n"));
      if d == "" && p.content.Some? then Some(Strip(p.content.value)) else Some(d)
  }

  /** The record for a club page: link, name, the default category, and the cleaned description. */
  function ClubRecord(url: string, name: Json, description: string): Object {
    [("link", JStr(url)), ("club_name", name), ("category", JStr("Uncategorized")), ("description", JStr(description))]
  }

  /**
   * `scrape_club_details`: fill the record field by field; any error (navigation
   * or a strict-mode read) gives `None`.
   */
  method ScrapeClubDetails(url: string, page: Option<DetailPage>) returns (r: Option<Object>)
    ensures page.None? ==> r.None?
    ensures page.Some? ==>
      r == (if NameOf(page.value).Some? && RawDescriptionOf(page.value).Some?
            then Some(ClubRecord(url, NameOf(page.value).value, CleanDescription(RawDescriptionOf(page.value).value)))
            else None)
  {
    if page.None? {
      return None;
    }
    var p := page.value;
    var name := JNull;
    if p.h1.Some? {
      name := JStr(Strip(p.h1.value));
    } else if p.h2.Some? {
      name := JStr(Strip(p.h2.value));
    }
    if !Truthy(name) {
      match p.breadcrumb {
        case Absent =>
        case One(t) => name := JStr(Strip(t));
        case Several => return None;
      }
    }
    assert NameOf(p) == Some(name);
    var description: string;
    match p.whoWeAre {
      case One(t) => description := Strip(t);
      case Several => return None;
      case Absent =>
        description := Strip(Join(p.paragraphs, "\n"));
        if description == "" && p.content.Some? {
          description := Strip(p.content.value);
        }
    }
    assert RawDescriptionOf(p) == Some(description);
    ghost var raw := description;
    if description != "" {
      description := Strip(Replace(description, "Who we are", ""));
    }
    assert description == CleanDescription(raw);
    return Some([("link", JStr(url)), ("club_name", name), ("category", JStr("Uncategorized")),
                 ("description", JStr(description))]);
  }

  /** A record has the four keys in order, and each key reads back its field. */
  lemma ClubRecordFields(url: string, name: Json, description: string)
    ensures var rec := ClubRecord(url, name, description);
      && Keys(rec) == ["link", "club_name", "category", "description"]
      && Get(rec, "link", JNull) == JStr(url)
      && Get(rec, "club_name", JNull) == name
      && Get(rec, "category", JNull) == JStr("Uncategorized")
      && Get(rec, "description", JNull) == JStr(description)
  {
    var rec := ClubRecord(url, name, description);
    var t1, t2, t3 := rec[1..], rec[2..], rec[3..];
    assert t1[1..] == t2 && t2[1..] == t3 && t3[1..] == [];
    assert Keys(t3) == ["description"];
    assert Keys(t2) == ["category", "description"];
    assert Keys(t1) == ["club_name", "category", "description"];
    assert Get(t3, "description", JNull) == JStr(description);
    assert Get(t2, "description", JNull) == JStr(description);
    assert Get(t1, "description", JNull) == JStr(description);
    assert Get(t1, "category", JNull) == JStr("Uncategorized");
  }

  /** A scraped record's description has no whitespace at either end. */
  lemma ScrapedDescriptionTrimmed(url: string, page: DetailPage)
    requires NameOf(page).Some? && RawDescriptionOf(page).Some?
    ensures var rec := ClubRecord(url, NameOf(page).value, CleanDescription(RawDescriptionOf(page).value));
      Get(rec, "description", JNull).JStr? && NoEdgeSpace(Get(rec, "description", JNull).s)
  {
    ClubRecordFields(url, NameOf(page).value, CleanDescription(RawDescriptionOf(page).value));
  }

  /** A heading with text names the club: the first h1, or the first h2 when there is no h1. */
  lemma NameFromHeading(p: DetailPage)
    ensures p.h1.Some? && Strip(p.h1.value) != "" ==> NameOf(p) == Some(JStr(Strip(p.h1.value)))
    ensures p.h1.None? && p.h2.Some? && Strip(p.h2.value) != "" ==> NameOf(p) == Some(JStr(Strip(p.h2.value)))
  {
    if p.h1.Some? {
      assert Truthy(JStr(Strip(p.h1.value))) <==> Strip(p.h1.value) != "";
    } else if p.h2.Some? {
      assert Truthy(JStr(Strip(p.h2.value))) <==> Strip(p.h2.value) != "";
    }
  }

  /**
   * When no heading gives a non-blank name, the breadcrumb decides: its last item
   * names the club, several items make the locator raise, and with none the name
   * stays what the headings gave: `""` for a blank heading, null without one.
   */
  lemma NameFromBreadcrumb(p: DetailPage)
    requires !(p.h1.Some? && Strip(p.h1.value) != "")
    requires !(p.h1.None? && p.h2.Some? && Strip(p.h2.value) != "")
    ensures p.breadcrumb.One? ==> NameOf(p) == Some(JStr(Strip(p.breadcrumb.text)))
    ensures p.breadcrumb.Absent? && (p.h1.Some? || p.h2.Some?) ==> NameOf(p) == Some(JStr(""))
    ensures p.breadcrumb.Absent? && p.h1.None? && p.h2.None? ==> NameOf(p) == Some(JNull)
    ensures p.breadcrumb.Several? ==> NameOf(p).None?
  {
    var name := if p.h1.Some? then JStr(Strip(p.h1.value))
                else if p.h2.Some? then JStr(Strip(p.h2.value))
                else JNull;
    assert name == if p.h1.Some? || p.h2.Some? then JStr("") else JNull;
    assert !Truthy(name);
  }

  // ---------------------------------------------------------------------------
  // main: visiting each club
  // ---------------------------------------------------------------------------

  /** The records kept by `if details: results.append(details)`, in link order. */
  function Scraped(links: seq<string>, visit: string -> Option<DetailPage>): seq<Object> {
    if links == [] then []
    else
      var rest := Scraped(links[..|links| - 1], visit);
      var url := links[|links| - 1];
      var page := visit(url);
      if page.Some? && NameOf(page.value).Some? && RawDescriptionOf(page.value).Some? then
        rest + [ClubRecord(url, NameOf(page.value).value, CleanDescription(RawDescriptionOf(page.value).value))]
      else rest
  }

  /** Each kept record belongs to a collected link, and there are at most as many records as links. */
  lemma {:induction false} ScrapedFromLinks(links: seq<string>, visit: string -> Option<DetailPage>)
    ensures |Scraped(links, visit)| <= |links|
    ensures forall o :: o in Scraped(links, visit) ==> exists u :: u in links && Get(o, "link", JNull) == JStr(u)
  {
    if links != [] {
      var init := links[..|links| - 1];
      ScrapedFromLinks(init, visit);
      forall o | o in Scraped(links, visit)
        ensures exists u :: u in links && Get(o, "link", JNull) == JStr(u)
      {
        if o in Scraped(init, visit) {
          var u :| u in init && Get(o, "link", JNull) == JStr(u);
          assert u in links;
        } else {
          assert Get(o, "link", JNull) == JStr(links[|links| - 1]);
        }
      }
    }
  }

  /**
   * `main` without the browser set-up and the file write: collect the links,
   * then visit each and keep the records that were scraped.
   */
  method CollectClubs(pages: seq<ListingPage>, visit: string -> Option<DetailPage>)
      returns (allClubLinks: seq<string>, results: seq<Object>)
    ensures allClubLinks == Crawl(pages, 1, []).0
    ensures results == Scraped(allClubLinks, visit)
  {
    var pageNum, reason;
    allClubLinks, pageNum, reason := Paginate(pages);
    results := [];
    for i := 0 to |allClubLinks|
      invariant results == Scraped(allClubLinks[..i], visit)
    {
      assert allClubLinks[..i + 1][..i] == allClubLinks[..i];
      var details := ScrapeClubDetails(allClubLinks[i], visit(allClubLinks[i]));
      if details.Some? {
        results := results + [details.value];
      }
    }
    assert allClubLinks[..|allClubLinks|] == allClubLinks;
  }
}
