/** The domain scraper of `scraper.py`: for each registry page it picks the
    page URL, fetches it, keeps the links that point at a domain's edit page
    and whose text looks like a domain name; it concatenates the pages'
    results in page order, pausing between pages, then writes the distinct
    domains in sorted order, one per line.

    The HTTP client and the HTML parser stay outside the model: a fetch is a
    function from URL to `Response`, and a parsed page is its list of `<a>`
    elements. Pauses are recorded in an event log instead of taking time. */
module Scraper {
  import opened Wrappers
  import Text
  import Ordering

  /** The registry root, which is also the URL of page 1. */
  const BaseUrl: string := "https://freedns.afraid.org/domain/registry/"
  /** Every numbered page URL is `PagePrefix + str(n) + PageSuffix`. */
  const PagePrefix: string := BaseUrl + "page-"
  const PageSuffix: string := ".html"
  /** The substring that marks a link to a domain's edit page. */
  const EditMarker: string := "edit_domain_id="
  /** The number of registry pages the scraper visits. */
  const TotalPages: nat := 254
  /** The length of the pause between two pages, in seconds. */
  const PauseSeconds: nat := 2

  // ---------------------------------------------------------------------
  // Page URLs
  // ---------------------------------------------------------------------

  /** The URL requested for page `pageNum`: the registry root for page 1,
      a numbered sub-page for every other number. */
  function PageUrl(pageNum: int): (url: string)
    ensures |BaseUrl| <= |url| && url[..|BaseUrl|] == BaseUrl
  {
    if pageNum == 1 then BaseUrl
    else PagePrefix + Text.IntToString(pageNum) + PageSuffix
  }

  /** Reads the page number back from a registry URL. */
  function PageOfUrl(url: string): Option<int> {
    if url == BaseUrl then Some(1)
    else if |url| >= |PagePrefix| + |PageSuffix|
         && url[..|PagePrefix|] == PagePrefix
         && url[|url| - |PageSuffix|..] == PageSuffix
    then Text.ParseInt(url[|PagePrefix|..|url| - |PageSuffix|])
    else None
  }

  /** Every page number can be read back from its URL. */
  lemma PageUrlRoundTrip(pageNum: int)
    ensures PageOfUrl(PageUrl(pageNum)) == Some(pageNum)
  {
    if pageNum != 1 {
      var digits := Text.IntToString(pageNum);
      var url := PageUrl(pageNum);
      assert |url| > |BaseUrl|;
      assert url[..|PagePrefix|] == PagePrefix;
      assert url[|url| - |PageSuffix|..] == PageSuffix;
      assert url[|PagePrefix|..|url| - |PageSuffix|] == digits;
      Text.IntToStringRoundTrip(pageNum);
    }
  }

  /** Different pages are fetched from different URLs. */
  lemma PageUrlInjective(p: int, q: int)
    requires PageUrl(p) == PageUrl(q)
    ensures p == q
  {
    PageUrlRoundTrip(p);
    PageUrlRoundTrip(q);
  }

  // ---------------------------------------------------------------------
  // Links of one page
  // ---------------------------------------------------------------------

  /** An `<a>` element as the HTML parser reports it: its `href` attribute,
      when it has one, and its text. */
  datatype Link = Link(href: Option<string>, text: string)

  /** The `href` test handed to the parser: present, non-empty, and
      containing the edit marker. */
  predicate IsDomainLink(link: Link) {
    match link.href
    case None => false
    case Some(h) => |h| > 0 && Text.Contains(h, EditMarker)
  }

  /** The basic validation of a stripped link text: non-empty with a dot. */
  predicate IsValidDomain(d: string) {
    |d| > 0 && '.' in d
  }

  /** The links that pass the `href` test, in document order. */
  function DomainLinks(links: seq<Link>): seq<Link>
    decreases |links|
  {
    if links == [] then []
    else
      var last := links[|links| - 1];
      DomainLinks(links[..|links| - 1]) + (if IsDomainLink(last) then [last] else [])
  }

  /** What one candidate contributes: its stripped text, if that is valid. */
  function Kept(candidate: Link): seq<string> {
    var d := Text.Strip(candidate.text);
    if IsValidDomain(d) then [d] else []
  }

  /** The stripped texts of `candidates` that pass the validation, in order. */
  function KeptDomains(candidates: seq<Link>): seq<string>
    decreases |candidates|
  {
    if candidates == [] then []
    else KeptDomains(candidates[..|candidates| - 1]) + Kept(candidates[|candidates| - 1])
  }

  /** The domains one successfully fetched page yields. */
  function LinkDomains(links: seq<Link>): seq<string> {
    KeptDomains(DomainLinks(links))
  }

  /** The link loop: strips each domain link's text and keeps the valid ones. */
  method ExtractDomains(links: seq<Link>) returns (domains: seq<string>)
    ensures domains == LinkDomains(links)
  {
    var domainLinks := DomainLinks(links);
    domains := [];
    for i := 0 to |domainLinks|
      invariant domains == KeptDomains(domainLinks[..i])
    {
      assert domainLinks[..i + 1][..i] == domainLinks[..i];
      assert KeptDomains(domainLinks[..i + 1]) == KeptDomains(domainLinks[..i]) + Kept(domainLinks[i]);
      var domain := Text.Strip(domainLinks[i].text);
      if |domain| > 0 && '.' in domain {
        domains := domains + [domain];
      }
    }
    assert domainLinks[..|domainLinks|] == domainLinks;
  }

  lemma {:induction false} DomainLinksConcat(a: seq<Link>, b: seq<Link>)
    ensures DomainLinks(a + b) == DomainLinks(a) + DomainLinks(b)
    decreases |b|
  {
    if b != [] {
      var b' := b[..|b| - 1];
      assert (a + b)[..|a + b| - 1] == a + b';
      assert (a + b)[|a + b| - 1] == b[|b| - 1];
      DomainLinksConcat(a, b');
    } else {
      assert a + b == a;
    }
  }

  lemma {:induction false} KeptDomainsConcat(a: seq<Link>, b: seq<Link>)
    ensures KeptDomains(a + b) == KeptDomains(a) + KeptDomains(b)
    decreases |b|
  {
    if b != [] {
      var b' := b[..|b| - 1];
      assert (a + b)[..|a + b| - 1] == a + b';
      assert (a + b)[|a + b| - 1] == b[|b| - 1];
      KeptDomainsConcat(a, b');
    } else {
      assert a + b == a;
    }
  }

  /** The filter keeps document order: the links of `a` followed by those of
      `b` give the domains of `a` followed by the domains of `b`. */
  lemma LinkDomainsConcat(a: seq<Link>, b: seq<Link>)
    ensures LinkDomains(a + b) == LinkDomains(a) + LinkDomains(b)
  {
    DomainLinksConcat(a, b);
    KeptDomainsConcat(DomainLinks(a), DomainLinks(b));
  }

  /** The filter never yields more domains than the page has links. */
  lemma {:induction false} LinkDomainsLength(links: seq<Link>)
    ensures |LinkDomains(links)| <= |DomainLinks(links)| <= |links|
    decreases |links|
  {
    if links != [] {
      var init := links[..|links| - 1];
      LinkDomainsLength(init);
      var last := links[|links| - 1];
      assert links == init + [last];
      LinkDomainsConcat(init, [last]);
      DomainLinksConcat(init, [last]);
      assert DomainLinks([last]) == DomainLinks([]) + (if IsDomainLink(last) then [last] else []);
      assert KeptDomains(DomainLinks(links)) == KeptDomains(DomainLinks(init)) + KeptDomains(DomainLinks([last]));
      KeptDomainsLength(DomainLinks([last]));
      KeptDomainsLength(DomainLinks(init));
    }
  }

  lemma {:induction false} KeptDomainsLength(candidates: seq<Link>)
    ensures |KeptDomains(candidates)| <= |candidates|
    decreases |candidates|
  {
    if candidates != [] {
      KeptDomainsLength(candidates[..|candidates| - 1]);
    }
  }

  lemma {:induction false} DomainLinksSound(links: seq<Link>)
    ensures forall l :: l in DomainLinks(links) ==> l in links && IsDomainLink(l)
    decreases |links|
  {
    if links != [] {
      var init := links[..|links| - 1];
      DomainLinksSound(init);
      assert forall l :: l in init ==> l in links;
    }
  }

  lemma {:induction false} KeptDomainsSound(candidates: seq<Link>)
    ensures forall d :: d in KeptDomains(candidates) ==>
      IsValidDomain(d) && exists c :: c in candidates && Text.Strip(c.text) == d
    decreases |candidates|
  {
    if candidates != [] {
      var init := candidates[..|candidates| - 1];
      var last := candidates[|candidates| - 1];
      KeptDomainsSound(init);
      assert KeptDomains(candidates) == KeptDomains(init) + Kept(last);
      forall d | d in KeptDomains(candidates)
        ensures IsValidDomain(d) && exists c :: c in candidates && Text.Strip(c.text) == d
      {
        if d in KeptDomains(init) {
          var c :| c in init && Text.Strip(c.text) == d;
          assert c in candidates;
        } else {
          assert d in Kept(last);
          assert last in candidates && Text.Strip(last.text) == d;
        }
      }
    }
  }

  /** Every domain a page yields is non-empty, contains a dot, has no
      whitespace at either end, and is the stripped text of one of the
      page's links whose `href` passes the test. */
  lemma LinkDomainsSound(links: seq<Link>)
    ensures forall d :: d in LinkDomains(links) ==>
      && IsValidDomain(d)
      && Text.IsStripped(d)
      && exists l :: l in links && IsDomainLink(l) && Text.Strip(l.text) == d
  {
    DomainLinksSound(links);
    KeptDomainsSound(DomainLinks(links));
  }

  /** Conversely, every link that passes both tests contributes its domain. */
  lemma {:induction false} LinkDomainsComplete(links: seq<Link>, i: nat)
    requires i < |links|
    requires IsDomainLink(links[i]) && IsValidDomain(Text.Strip(links[i].text))
    ensures Text.Strip(links[i].text) in LinkDomains(links)
    decreases |links|
  {
    var init := links[..|links| - 1];
    var last := links[|links| - 1];
    assert links == init + [last];
    LinkDomainsConcat(init, [last]);
    if i < |links| - 1 {
      assert init[i] == links[i];
      LinkDomainsComplete(init, i);
    } else {
      assert DomainLinks([last]) == [last] by {
        assert DomainLinks([last]) == DomainLinks([]) + [last];
      }
      assert KeptDomains([last]) == KeptDomains([]) + [Text.Strip(last.text)];
    }
  }

  // ---------------------------------------------------------------------
  // One page
  // ---------------------------------------------------------------------

  /** What a request for a page produces: a request error (connection
      failure, timeout, ...) or a reply with its status code and the links
      of its body. */
  datatype Response = RequestError | Reply(status: int, links: seq<Link>)

  /** The status codes for which the reply is turned into an error: client
      errors 4xx and server errors 5xx. */
  predicate IsHttpError(status: int) {
    400 <= status < 600
  }

  /** The domains a page contributes, given the response to its request. */
  function PageDomains(response: Response): seq<string> {
    match response
    case RequestError => []
    case Reply(status, links) => if IsHttpError(status) then [] else LinkDomains(links)
  }

  /** Scrapes one page: requests its URL and extracts the domains; a failed
      request yields no domains and is not an error for the caller. */
  method ScrapePage(pageNum: int, fetch: string -> Response) returns (domains: seq<string>)
    ensures domains == PageDomains(fetch(PageUrl(pageNum)))
    ensures fetch(PageUrl(pageNum)).RequestError? ==> domains == []
    ensures fetch(PageUrl(pageNum)).Reply? && IsHttpError(fetch(PageUrl(pageNum)).status) ==> domains == []
    ensures fetch(PageUrl(pageNum)).Reply? && !IsHttpError(fetch(PageUrl(pageNum)).status) ==>
      domains == LinkDomains(fetch(PageUrl(pageNum)).links)
  {
    var url := PageUrl(pageNum);
    var response := fetch(url);
    match response
    case RequestError =>
      domains := [];
    case Reply(status, links) =>
      if IsHttpError(status) {
        domains := [];
      } else {
        domains := ExtractDomains(links);
      }
  }

  /** Every domain a page contributes passes the validation and is stripped. */
  lemma PageDomainsValid(response: Response)
    ensures forall d :: d in PageDomains(response) ==> IsValidDomain(d) && Text.IsStripped(d)
  {
    if response.Reply? {
      LinkDomainsSound(response.links);
    }
  }

  // ---------------------------------------------------------------------
  // The page loop
  // ---------------------------------------------------------------------

  /** One entry of the run's event log: a page was scraped, or the scraper
      paused for some seconds. */
  datatype Event = Scrape(page: int) | Pause(seconds: nat)

  /** The lists `results(1)`, ..., `results(pages)`, concatenated in this order. */
  function Concat(pages: nat, results: int -> seq<string>): seq<string>
    decreases pages
  {
    if pages == 0 then [] else Concat(pages - 1, results) + results(pages)
  }

  /** The domains each page contributes, by page number. */
  function PageResults(fetch: string -> Response): int -> seq<string> {
    page => PageDomains(fetch(PageUrl(page)))
  }

  /** The domains of pages 1..pages, concatenated in ascending page order. */
  function Accumulated(pages: nat, fetch: string -> Response): seq<string> {
    Concat(pages, PageResults(fetch))
  }

  /** The events of pages 1..pages of a run over `total` pages: each page is
      scraped, and followed by a pause unless it is the last page. */
  function ScheduleUpTo(pages: nat, total: nat): seq<Event>
    decreases pages
  {
    if pages == 0 then []
    else ScheduleUpTo(pages - 1, total) + [Scrape(pages)]
         + (if pages < total then [Pause(PauseSeconds)] else [])
  }

  /** The whole event log of a run over `total` pages. */
  function Schedule(total: nat): seq<Event> {
    ScheduleUpTo(total, total)
  }

  /** The main loop: scrapes pages 1..totalPages in order, extends the
      accumulated list with each page's domains, and pauses after every page
      but the last. */
  method Aggregate(totalPages: nat, fetch: string -> Response)
    returns (allDomains: seq<string>, events: seq<Event>)
    ensures allDomains == Accumulated(totalPages, fetch)
    ensures events == Schedule(totalPages)
  {
    allDomains := [];
    events := [];
    for page := 1 to totalPages + 1
      invariant allDomains == Accumulated(page - 1, fetch)
      invariant events == ScheduleUpTo(page - 1, totalPages)
    {
      var domains := ScrapePage(page, fetch);
      events := events + [Scrape(page)];
      allDomains := allDomains + domains;
      if page < totalPages {
        events := events + [Pause(PauseSeconds)];
      }
    }
  }

  /** The event log alternates: pages 1, 2, ... at the even positions and a
      pause of `PauseSeconds` at every odd position; it ends with the last
      page, never with a pause. */
  lemma {:induction false} ScheduleUpToShape(pages: nat, total: nat)
    requires pages <= total
    ensures |ScheduleUpTo(pages, total)| ==
      if pages == 0 then 0 else if pages < total then 2 * pages else 2 * pages - 1
    ensures forall i :: 0 <= i < |ScheduleUpTo(pages, total)| ==>
      ScheduleUpTo(pages, total)[i] == if i % 2 == 0 then Scrape(i / 2 + 1) else Pause(PauseSeconds)
    decreases pages
  {
    if pages > 0 {
      ScheduleUpToShape(pages - 1, total);
    }
  }

  /** A run over `total` pages scrapes every page once, in order, with
      exactly one pause between consecutive pages and none after the last. */
  lemma ScheduleShape(total: nat)
    ensures |Schedule(total)| == if total == 0 then 0 else 2 * total - 1
    ensures forall i :: 0 <= i < |Schedule(total)| ==>
      Schedule(total)[i] == if i % 2 == 0 then Scrape(i / 2 + 1) else Pause(PauseSeconds)
    ensures total > 0 ==> Schedule(total)[|Schedule(total)| - 1] == Scrape(total)
  {
    ScheduleUpToShape(total, total);
  }

  /** The number of pauses in an event log. */
  function PauseCount(events: seq<Event>): nat
    decreases |events|
  {
    if events == [] then 0
    else PauseCount(events[..|events| - 1]) + (if events[|events| - 1].Pause? then 1 else 0)
  }

  lemma {:induction false} PauseCountUpTo(pages: nat, total: nat)
    requires pages <= total
    ensures PauseCount(ScheduleUpTo(pages, total)) == if 0 < pages == total then pages - 1 else pages
    decreases pages
  {
    if pages > 0 {
      PauseCountUpTo(pages - 1, total);
      var before := ScheduleUpTo(pages - 1, total);
      var scraped := before + [Scrape(pages)];
      assert scraped[..|scraped| - 1] == before;
      assert PauseCount(scraped) == PauseCount(before);
      if pages < total {
        var paused := scraped + [Pause(PauseSeconds)];
        assert paused[..|paused| - 1] == scraped;
        assert ScheduleUpTo(pages, total) == paused;
        assert PauseCount(paused) == PauseCount(scraped) + 1;
      } else {
        assert ScheduleUpTo(pages, total) == scraped;
      }
    }
  }

  /** The scraper pauses exactly `total - 1` times over `total` pages. */
  lemma PauseCountOfRun(total: nat)
    requires total > 0
    ensures PauseCount(Schedule(total)) == total - 1
  {
    PauseCountUpTo(total, total);
  }

  /** A domain is in the concatenation exactly when one of the lists has it. */
  lemma {:induction false} ConcatMembers(pages: nat, results: int -> seq<string>, d: string)
    ensures d in Concat(pages, results) <==> exists p :: 1 <= p <= pages && d in results(p)
    decreases pages
  {
    if pages > 0 {
      ConcatMembers(pages - 1, results, d);
      if d in results(pages) {
        assert 1 <= pages <= pages;
      }
    }
  }

  /** Page `page` yields domain `d`. */
  predicate FoundOnPage(fetch: string -> Response, page: int, d: string) {
    d in PageResults(fetch)(page)
  }

  /** A domain is accumulated exactly when some page 1..pages yields it. */
  lemma AccumulatedMembers(pages: nat, fetch: string -> Response, d: string)
    ensures d in Accumulated(pages, fetch) <==> exists p :: 1 <= p <= pages && FoundOnPage(fetch, p, d)
  {
    ConcatMembers(pages, PageResults(fetch), d);
    if d in Accumulated(pages, fetch) {
      var p :| 1 <= p <= pages && d in PageResults(fetch)(p);
      assert FoundOnPage(fetch, p, d);
    }
    if exists p :: 1 <= p <= pages && FoundOnPage(fetch, p, d) {
      var p :| 1 <= p <= pages && FoundOnPage(fetch, p, d);
      assert d in PageResults(fetch)(p);
    }
  }

  /** Every accumulated domain passes the validation and is stripped. */
  lemma AccumulatedValid(pages: nat, fetch: string -> Response)
    ensures forall d :: d in Accumulated(pages, fetch) ==> IsValidDomain(d) && Text.IsStripped(d)
  {
    forall d | d in Accumulated(pages, fetch) ensures IsValidDomain(d) && Text.IsStripped(d) {
      AccumulatedMembers(pages, fetch, d);
      var p :| 1 <= p <= pages && FoundOnPage(fetch, p, d);
      PageDomainsValid(fetch(PageUrl(p)));
    }
  }

  // ---------------------------------------------------------------------
  // Output
  // ---------------------------------------------------------------------

  /** The text of the output file: each domain followed by a newline. */
  function Lines(domains: seq<string>): string
    decreases |domains|
  {
    if domains == [] then "" else domains[0] + "\n" + Lines(domains[1..])
  }

  lemma {:induction false} LinesAppend(domains: seq<string>, d: string)
    ensures Lines(domains + [d]) == Lines(domains) + d + "\n"
    decreases |domains|
  {
    if domains == [] {
      assert [d][1..] == [];
    } else {
      assert (domains + [d])[1..] == domains[1..] + [d];
      LinesAppend(domains[1..], d);
    }
  }

  /** The write loop: emits one line per domain, in order. */
  method Render(domains: seq<string>) returns (content: string)
    ensures content == Lines(domains)
  {
    content := "";
    for i := 0 to |domains|
      invariant content == Lines(domains[..i])
    {
      LinesAppend(domains[..i], domains[i]);
      assert domains[..i + 1] == domains[..i] + [domains[i]];
      content := content + domains[i] + "\n";
    }
    assert domains[..|domains|] == domains;
  }

  /** The position of the first newline of `text`, or its length. */
  function LineEnd(text: string): (i: nat)
    ensures i <= |text|
    ensures forall k :: 0 <= k < i ==> text[k] != '\n'
    ensures i < |text| ==> text[i] == '\n'
    decreases |text|
  {
    if text == [] || text[0] == '\n' then 0 else 1 + LineEnd(text[1..])
  }

  /** Splits a text into its lines at each `'\n'` only (a final line without
      a newline counts too). A reader in Python's universal-newline mode would
      also break lines at `'\r'`; this function does not. */
  function ReadLines(text: string): seq<string>
    decreases |text|
  {
    if text == [] then []
    else
      var i := LineEnd(text);
      if i == |text| then [text] else [text[..i]] + ReadLines(text[i + 1..])
  }

  /** The number of newline characters in `s`. */
  function NewlineCount(s: string): nat
    decreases |s|
  {
    if s == [] then 0 else (if s[0] == '\n' then 1 else 0) + NewlineCount(s[1..])
  }

  lemma {:induction false} NewlineCountConcat(a: string, b: string)
    ensures NewlineCount(a + b) == NewlineCount(a) + NewlineCount(b)
    decreases |a|
  {
    if a != [] {
      assert (a + b)[1..] == a[1..] + b;
      NewlineCountConcat(a[1..], b);
    } else {
      assert a + b == b;
    }
  }

  lemma {:induction false} NewlineFree(s: string)
    requires '\n' !in s
    ensures NewlineCount(s) == 0
    decreases |s|
  {
    if s != [] {
      NewlineFree(s[1..]);
    }
  }

  /** Reading the file back gives the domains again, as long as no domain
      has a line break inside it. */
  lemma {:induction false} LinesRoundTrip(domains: seq<string>)
    requires forall d :: d in domains ==> '\n' !in d
    ensures ReadLines(Lines(domains)) == domains
    decreases |domains|
  {
    if domains != [] {
      var d := domains[0];
      var rest := Lines(domains[1..]);
      var text := Lines(domains);
      assert text == d + ("\n" + rest);
      assert d in domains;
      assert LineEnd(text) == |d| by {
        var i := LineEnd(text);
        assert forall k :: 0 <= k < |d| ==> text[k] == d[k] && d[k] in d;
        assert text[|d|] == '\n';
      }
      assert text[..|d|] == d;
      assert text[|d| + 1..] == rest;
      assert forall x :: x in domains[1..] ==> x in domains;
      LinesRoundTrip(domains[1..]);
      assert domains == [d] + domains[1..];
    }
  }

  /** The file has as many lines as there are domains, as long as no domain
      has a line break inside it. */
  lemma {:induction false} LinesCount(domains: seq<string>)
    requires forall d :: d in domains ==> '\n' !in d
    ensures NewlineCount(Lines(domains)) == |domains|
    decreases |domains|
  {
    if domains != [] {
      var d := domains[0];
      assert forall x :: x in domains[1..] ==> x in domains;
      LinesCount(domains[1..]);
      NewlineCountConcat(d + "\n", Lines(domains[1..]));
      NewlineCountConcat(d, "\n");
      NewlineFree(d);
    }
  }

  /** The text of the example link below is already stripped. */
  lemma ExampleTextStripped()
    ensures Text.Strip("a.\nb") == "a.\nb"
  {
    var t := "a.\nb";
    assert t[0] == 'a' && t[3] == 'b';
    Text.StripIsSlice(t, 0, 4);
    assert t[0..4] == t;
  }

  /** Stripping keeps line breaks inside a link's text: a domain link whose
      text is `a.` and `b` on two lines is kept as one domain ... */
  lemma InnerLineBreakKept(link: Link)
    requires IsDomainLink(link) && link.text == "a.\nb"
    ensures LinkDomains([link]) == ["a.\nb"]
  {
    assert Kept(link) == ["a.\nb"] by {
      ExampleTextStripped();
      var d := "a.\nb";
      assert d[1] == '.';
      assert IsValidDomain(d);
    }
    SingleLink(link);
  }

  /** A page with a single link yields that link's contribution, if its
      `href` passes the test. */
  lemma SingleLink(link: Link)
    ensures LinkDomains([link]) == if IsDomainLink(link) then Kept(link) else []
  {
    assert [link][..0] == [];
    assert DomainLinks([link]) == DomainLinks([]) + (if IsDomainLink(link) then [link] else []);
    if IsDomainLink(link) {
      assert KeptDomains([link]) == KeptDomains([]) + Kept(link);
    }
  }

  /** ... which then takes two lines of the output file, so the line count
      and the read-back above need their side condition. */
  lemma InnerLineBreakSplits()
    ensures ReadLines(Lines(["a.\nb"])) == ["a.", "b"]
  {
    var text := Lines(["a.\nb"]);
    assert text == "a.\nb\n";
    assert LineEnd(text) == 2;
    assert text[..2] == "a.";
    assert text[3..] == "b\n";
    assert ReadLines("b\n") == ["b"] by {
      assert LineEnd("b\n") == 1;
      assert "b\n"[..1] == "b";
      assert "b\n"[2..] == [];
    }
  }

  // ---------------------------------------------------------------------
  // The whole run
  // ---------------------------------------------------------------------

  /** The whole scraper: visits all registry pages, removes duplicates,
      sorts, and produces the text of the output file. */
  method RunScraper(fetch: string -> Response) returns (content: string, events: seq<Event>)
    ensures content == Lines(Ordering.SortedUnique(Accumulated(TotalPages, fetch)))
    ensures events == Schedule(TotalPages)
  {
    var allDomains;
    allDomains, events := Aggregate(TotalPages, fetch);
    var uniqueDomains := Ordering.SortedUnique(allDomains);
    content := Render(uniqueDomains);
  }

  /** What the output file lists: every domain found on some page, each
      once, in increasing order, each valid and stripped; read back line by
      line it gives that list whenever no domain has an inner line break. */
  lemma RunOutput(fetch: string -> Response)
    ensures var unique := Ordering.SortedUnique(Accumulated(TotalPages, fetch));
      && Ordering.Increasing(unique)
      && (forall d :: d in unique <==> exists p :: 1 <= p <= TotalPages && FoundOnPage(fetch, p, d))
      && (forall d :: d in unique ==> IsValidDomain(d) && Text.IsStripped(d))
      && ((forall d :: d in unique ==> '\n' !in d) ==> ReadLines(Lines(unique)) == unique)
  {
    var all := Accumulated(TotalPages, fetch);
    var unique := Ordering.SortedUnique(all);
    AccumulatedValid(TotalPages, fetch);
    forall d ensures d in unique <==> exists p :: 1 <= p <= TotalPages && FoundOnPage(fetch, p, d)
    {
      assert d in unique <==> d in Ordering.Elems(all);
      AccumulatedMembers(TotalPages, fetch, d);
    }
    assert forall d :: d in unique ==> d in Ordering.Elems(all);
    if forall d :: d in unique ==> '\n' !in d {
      LinesRoundTrip(unique);
    }
  }
}
