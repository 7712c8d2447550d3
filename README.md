# FreeDNS registry domain scraper, modelled in Dafny

`scraper.py` collects the domain names listed in the public domain registry of
freedns.afraid.org. It visits registry pages 1 to 254 in order. Page 1 is the
registry root; page N is `page-N.html` under it. For each page it keeps the
`<a>` elements whose `href` contains `edit_domain_id=`, strips their text and
keeps the texts that are non-empty and contain a dot. A page whose request
fails contributes nothing. It pauses two seconds between pages. At the end it
removes duplicates, sorts the domains and writes them to `domains.txt`, one
per line.

The model has four modules:

- `Wrappers` (`wrappers.dfy`): the `Option` type.
- `Text` (`text.dfy`): Python's substring test `sub in s`, `str.strip()`
  without arguments (with Python's full set of whitespace characters), and
  `str(n)` for integers, with a parser to read it back.
- `Ordering` (`ordering.dfy`): Python's string order (code point by code
  point, a proper prefix first) and `sorted(list(set(xs)))`. The step is
  computed by inserting each element into a strictly increasing list. A lemma
  shows that a strictly increasing list is determined by its set of elements,
  so the result does not depend on the order in which a Python set is walked.
- `Scraper` (`scraper.dfy`): the page URL, the link filter, one page, the
  page loop, the output text and the whole run.

The network and the HTML parser are inputs. A fetch is a function
`fetch: string -> Response` from URL to response. A response is either a
request error (connection failure, timeout and the like) or a reply with a
status code and the page's `<a>` elements, each a `Link(href, text)` with an
optional `href`. Modelling the server as a function of the URL loses nothing,
because `PageUrlInjective` shows that every page is requested from its own
URL. `raise_for_status` turns a reply with a status from 400 to 599 into an
error. That range is the rule of the `requests` library, which is not part of
this model. The two-second pause is an entry `Pause(2)` in an event log, and
each page visit is an entry `Scrape(page)`. The output file is the string
that would be written.

The loops of the source are methods with loops: the link loop
(`ExtractDomains`), the page loop (`Aggregate`) and the write loop (`Render`).
Each is proved equal to a specification function. The properties are proved
as lemmas about those functions. The URL choice and `sorted(list(set(...)))`
are pure functions in the source and are functions here.

`scraper.py` extracts only the text of each link. It visits a fixed 254 pages
(scraper.py:58) and writes one flat list.

One promise holds only with a side condition. `str.strip()` removes
whitespace at the ends of a link's text but keeps line breaks inside it. A
kept domain can therefore contain a newline and fill two lines of the output
file. "One line per unique domain" and "reading the file back gives the
domains" are proved for domain lists without inner newlines
(`LinesCount`, `LinesRoundTrip`). `InnerLineBreakKept` and
`InnerLineBreakSplits` show a concrete link for which the side condition is
needed. The reader in these lemmas, `ReadLines`, breaks lines at `'\n'`
only. Python's text-mode reader (universal newlines) also breaks lines at
`'\r'`, which `strip()` likewise keeps inside a text. With that reader, a
domain such as `a.`, `'\r'`, `b` meets the side condition and still reads
back as two lines.

## Model

| member | source | states |
|---|---|---|
| `Text.ContainsIffOccurs` | scraper.py:42 | the computed substring test used for `'edit_domain_id=' in href` holds exactly when the marker occurs as a contiguous window of the `href`, in both directions |
| `Text.Contains` | scraper.py:42 | the substring test `'edit_domain_id=' in href`, computed by trying each start position (characterised by `Text.ContainsIffOccurs`) |
| `Text.IsSpace` | scraper.py:44 | Python's `str.isspace()` for one character, with its full set of Unicode whitespace |
| `Text.TrimLeft` | scraper.py:44 | the left half of `strip()`: drops leading whitespace (characterised by `Text.TrimLeftSpec`) |
| `Text.TrimRight` | scraper.py:44 | the right half of `strip()`: drops trailing whitespace (characterised by `Text.TrimRightSpec`) |
| `Text.TrimLeftSpec` | scraper.py:44 | the left trim leaves a suffix of the text, drops only whitespace, and leaves nothing that starts with whitespace |
| `Text.TrimRightSpec` | scraper.py:44 | the right trim leaves a prefix of the text, drops only whitespace, and leaves nothing that ends with whitespace |
| `Text.Strip` | scraper.py:44 | the stripped text is no longer than the input, and is empty or has a non-whitespace character at each end |
| `Text.StripIsSlice` | scraper.py:44 | `strip()` returns exactly the slice between the leading and the trailing whitespace runs, for every way of writing the input as whitespace, core and whitespace |
| `Text.StripIdempotent` | scraper.py:44 | stripping an already stripped text changes nothing |
| `Text.IntToString` | scraper.py:33 | `str(page_num)`: a minus sign for a negative number, then the decimal digits with no leading zero (characterised by `Text.IntToStringRoundTrip`) |
| `Text.IntToStringRoundTrip` | scraper.py:33 | `str(page_num)` reads back as `page_num` for every integer, negative ones included |
| `Text.IntToStringInjective` | scraper.py:33 | different page numbers are rendered as different digit strings |
| `Scraper.BaseUrl` | scraper.py:22 | the registry root `https://freedns.afraid.org/domain/registry/`, which is also page 1's URL |
| `Scraper.EditMarker` | scraper.py:42 | the `edit_domain_id=` marker that a domain link's `href` must contain |
| `Scraper.TotalPages` | scraper.py:58 | the run visits 254 pages |
| `Scraper.PauseSeconds` | scraper.py:67 | each pause lasts 2 seconds |
| `Scraper.PageUrl` | scraper.py:30-33 | every page URL, page 1 and numbered pages alike, starts with the registry root `BASE_URL` |
| `Scraper.PageUrlRoundTrip` | scraper.py:30-33 | the page number can be read back from its URL: the root gives page 1, `page-N.html` under the root gives N |
| `Scraper.PageUrlInjective` | scraper.py:30-33 | two different page numbers never request the same URL |
| `Scraper.IsDomainLink` | scraper.py:42 | the `href` filter: the attribute is present, non-empty and contains the marker (characterised by `Scraper.DomainLinksSound`) |
| `Scraper.DomainLinks` | scraper.py:42 | `find_all`: the links that pass the `href` filter, in document order |
| `Scraper.IsValidDomain` | scraper.py:45 | the basic validation: a stripped text that is non-empty and contains a dot |
| `Scraper.KeptDomains` | scraper.py:43-46 | the stripped texts of the candidate links that pass the validation, in order (characterised by `Scraper.KeptDomainsSound`) |
| `Scraper.LinkDomains` | scraper.py:42-46 | the domains a page's links yield: filter, then strip and validate (characterised by `Scraper.LinkDomainsSound` and `Scraper.LinkDomainsComplete`) |
| `Scraper.ExtractDomains` | scraper.py:40-46 | the link loop returns exactly the stripped, validated texts of the links that pass the `href` test |
| `Scraper.DomainLinksSound` | scraper.py:42 | every link selected by `find_all` is a link of the page whose `href` is present, non-empty and contains the marker |
| `Scraper.KeptDomainsSound` | scraper.py:43-46 | every kept domain is non-empty, contains a dot and is the stripped text of one of the candidate links |
| `Scraper.LinkDomainsSound` | scraper.py:42-46 | every domain a page yields is valid, has no whitespace at either end and is the stripped text of a page link whose `href` contains the marker |
| `Scraper.LinkDomainsComplete` | scraper.py:42-46 | every page link whose `href` passes the test and whose stripped text is valid contributes that text |
| `Scraper.LinkDomainsConcat` | scraper.py:43-46 | the filter keeps document order: the links of one list followed by another give the first list's domains followed by the second's |
| `Scraper.LinkDomainsLength` | scraper.py:42-46 | a page yields no more domains than it has domain links, and no more domain links than links |
| `Scraper.IsHttpError` | scraper.py:36 | the statuses `raise_for_status` rejects: 400 to 599 |
| `Scraper.PageDomains` | scraper.py:34-53 | a page's domains given its response: none on a request error or an HTTP error, the link filter's result otherwise (characterised by `Scraper.PageDomainsValid`) |
| `Scraper.ScrapePage` | scraper.py:28-53 | one page yields the link filter's result on a good reply, and the empty list, without an error, on a request error or a 4xx/5xx status |
| `Scraper.PageDomainsValid` | scraper.py:44-53 | whatever a page's response, every domain it contributes is valid and stripped |
| `Scraper.Concat` | scraper.py:62-64 | the per-page lists of pages 1..n, concatenated in ascending page order (characterised by `Scraper.ConcatMembers`) |
| `Scraper.Accumulated` | scraper.py:62-64 | `all_domains` after pages 1..n: each page's domains, in page order (characterised by `Scraper.AccumulatedMembers`) |
| `Scraper.ScheduleUpTo` | scraper.py:62-67 | the event log after pages 1..k of n: each page's visit, then a pause unless it is the last page (characterised by `Scraper.ScheduleUpToShape`) |
| `Scraper.Schedule` | scraper.py:62-67 | the event log of a whole run over n pages (characterised by `Scraper.ScheduleShape`) |
| `Scraper.Aggregate` | scraper.py:57-67 | the page loop returns the concatenation of the results of pages 1..total in ascending order, and the event log of visits and pauses |
| `Scraper.ScheduleUpToShape` | scraper.py:62-67 | after k of n pages the log alternates visits of pages 1..k and pauses; it is empty when k = 0, and it ends in a pause exactly when 0 < k < n |
| `Scraper.ScheduleShape` | scraper.py:62-67 | a run over n pages logs 2n-1 events: page i+1 at position 2i, a two-second pause at each odd position, the last page last |
| `Scraper.PauseCountUpTo` | scraper.py:66-67 | after k of n pages the scraper has paused k times, or k-1 times once the last page is done |
| `Scraper.PauseCountOfRun` | scraper.py:66-67 | a run over n > 0 pages pauses exactly n-1 times |
| `Scraper.ConcatMembers` | scraper.py:62-64 | a domain is in the concatenation of per-page lists exactly when one of those lists holds it |
| `Scraper.AccumulatedMembers` | scraper.py:62-64 | a domain is in the accumulated list exactly when some page 1..n yields it |
| `Scraper.AccumulatedValid` | scraper.py:62-64 | every accumulated domain is valid and stripped |
| `Ordering.Less` | scraper.py:70 | the comparison `sorted` uses on strings: code point by code point, a proper prefix first |
| `Ordering.LessIrreflexive` | scraper.py:70 | no string sorts before itself |
| `Ordering.LessTransitive` | scraper.py:70 | the string order used by `sorted` is transitive |
| `Ordering.LessTotal` | scraper.py:70 | any two different strings are ordered one way or the other |
| `Ordering.LessAsymmetric` | scraper.py:70 | two strings never sort before each other both ways |
| `Ordering.IncreasingDistinct` | scraper.py:70 | a strictly increasing list holds no element twice |
| `Ordering.Insert` | scraper.py:70 | inserting into a strictly increasing list keeps it strictly increasing and adds exactly that one element to its set |
| `Ordering.SortedUnique` | scraper.py:70 | `sorted(list(set(xs)))` is strictly increasing (sorted, no duplicates), has exactly the elements of `xs` and is no longer than `xs` |
| `Ordering.IncreasingDetermined` | scraper.py:70 | two strictly increasing lists with the same elements are equal |
| `Ordering.SortedUniqueOfSameSet` | scraper.py:70 | inputs with the same elements, in any order or multiplicity, give the same result |
| `Ordering.SortedUniqueIdempotent` | scraper.py:70 | applying dedupe-and-sort to its own output returns the same list |
| `Ordering.SortedUniqueOfIncreasing` | scraper.py:70 | a list that is already strictly increasing is returned unchanged |
| `Scraper.Lines` | scraper.py:73-75 | the file's text: each domain followed by a newline, in list order (characterised by `Scraper.LinesRoundTrip` and `Scraper.LinesCount`) |
| `Scraper.LinesAppend` | scraper.py:74-75 | writing one more domain appends that domain and a newline to the text |
| `Scraper.Render` | scraper.py:73-75 | the write loop produces each domain followed by a newline, in list order |
| `Scraper.LinesRoundTrip` | scraper.py:73-75 | reading the written text back with a reader that breaks lines at `'\n'` gives the domain list, when no domain contains `'\n'` |
| `Scraper.LinesCount` | scraper.py:73-75 | the text has exactly one newline per domain, when no domain contains a newline |
| `Scraper.SingleLink` | scraper.py:42-46 | a page with one link yields that link's stripped, validated text exactly when its `href` passes the test |
| `Scraper.InnerLineBreakKept` | scraper.py:42-46 | any domain link whose text is `a.`, a newline and `b` yields that text as one domain, newline included |
| `Scraper.InnerLineBreakSplits` | scraper.py:74-75 | such a domain is read back from the file as two lines |
| `Scraper.RunScraper` | scraper.py:55-75 | the run's output text is the line rendering of the deduplicated, sorted concatenation of pages 1..254, and its event log is the schedule for 254 pages |
| `Scraper.RunOutput` | scraper.py:62-75 | the written list is strictly increasing, holds exactly the domains found on some page 1..254, all valid and stripped, and reads back as itself when no domain has an inner newline |

## Left out

- HTTP: the request itself, its headers (browser user agent and referer) and its 10-second timeout are network I/O. A fetch is an input function from URL to response.
- HTML parsing: BeautifulSoup is a foreign library. A page's `<a>` elements are given as `Link` values, with the `href` attribute (if any) and the element's text. Only the `href` test is modelled.
- Exceptions other than `requests.RequestException` (for example a parser failure) propagate out of `scrape_page` in the source. The model has no such failure.
- Logging of page counts, errors and the final total has no effect on the result.
- `time.sleep(2)` takes wall-clock time; here it is a `Pause(2)` entry in the event log.
- Opening and writing `domains.txt` with UTF-8 encoding, and text-mode newline translation on platforms that use `\r\n`, are file I/O. The model produces the file's text.
- `Scraper.Aggregate` takes the page count as a parameter; `Scraper.RunScraper` fixes it at 254, as the source does.
- `Scraper.LinesRoundTrip`: holds only when no domain contains a newline, because `strip()` keeps inner line breaks (see `Scraper.InnerLineBreakKept`). It reads back with `ReadLines`, which breaks at `'\n'` only. A universal-newline reader also breaks at `'\r'`, so for it the side condition would have to exclude `'\r'` too.
- Strings are sequences of Unicode scalar values, because a Dafny `char` cannot hold a lone surrogate. A Python `str` can hold one, for example from a character reference such as `&#xD800;` that the HTML parser decodes. Writing such a domain with UTF-8 encoding (scraper.py:73-75) raises an error, which the model does not capture.
- `Scraper.LinesCount`: holds only when no domain contains a newline, for the same reason.
