# Gun-violence-archive scraper, modelled in Dafny

This project models the two scraper scripts of the `gun_violence`
repository. They discover which incident IDs of the Gun Violence Archive
have a record page, and they turn a record page into one comma-separated
row.

- `scraper/scraper.py` walks the IDs 200000 to 201999 and builds one URL
  per ID. For each URL it fetches the page, retrying on four kinds of
  network fault. It reads the page's first `h1` text. On an incident page
  it appends the ID to the file `scraped.csv`, creating that file with the
  header line `ids` first if it does not exist. On a "Page not found" page
  it does nothing. Any other page makes it start over on the same URL.
- `scraper/incident_scraper.py` builds the row. It prints the date, taken
  from the last `h1`, followed by the location columns, taken from the
  page's `span` elements by position. It also filters a loaded ID list to
  an inclusive range.

The HTML library and the network are replaced by plain values:

- A parsed page is the list of its raw `h1`, `h2` and `span` tag strings
  (`IncidentScraper.Page`).
- A fetch is a finite sequence of attempts. Each attempt is either a
  response (with the text of its first `h1`, if any) or a raised fault
  (`Scraper.Attempt`).
- The save file is an object with a presence flag and its lines
  (`Scraper.ScrapedFile`), updated in place by `Save`.

The Python string operations the scripts rely on are defined once, in
module `PyStr`, with the semantics of CPython:

- `str.replace(p, '')` removes non-overlapping occurrences scanning left
  to right.
- `str.split(sep)` and `str.split()` split on a separator and on
  whitespace.
- `str.strip(chars)` removes the given characters from both ends.
- `str(n)` is the decimal rendering of an integer.
- `int(s)` strips surrounding whitespace, reads an optional sign, and
  accepts ASCII digits with single `_` separators. The whitespace it skips
  is that of `str.split()` except the four information separators
  U+001C to U+001F (`PyStr.IsIntSpace`).

Two behaviours of the code shape what the model proves:

- **Location row.** Line 93 of `scraper/incident_scraper.py` assigns
  `data = spans[3] + ','` instead of appending to `data`, so its effect
  depends on the span count:
  - With 7 spans, line 93 does not run. The location string has six
    columns, `city,state,,address,lat,lon,`. When no column contains a
    comma, it splits on `,` into 7 pieces
    (`IncidentScraper.SevenSpanLocation`, `IncidentScraper.LocationColumns`).
  - With 8 or more spans, `spans[3]` replaces city and state. On an
    eight-span page `spans[3]` is the one span more than a seven-span page
    has, just before the address `spans[-4]`; the comment on line 80 implies
    it is the description. For 9 or more spans the code does not say what
    `spans[3]` holds. The string has four columns and holds neither city
    nor state, unless `spans[3]` itself contains them. When no column contains a comma, it splits on
    `,` into 5 pieces (`IncidentScraper.OtherSpanLocation`,
    `IncidentScraper.LocationColumns`).
  - With 6 spans, `spans[3]` is `spans[-3]`, the city/state span itself,
    so `city, state` is written as one column. The string splits on `,`
    into 6 pieces: city, state with its leading space, address, lat, lon
    and an empty piece (`IncidentScraper.SixSpanLocation`).
  - With 4 or 5 spans, `spans[3]` is the last or the lat/lon span.
  So rows do not all have the same number of columns.
- **Page classification.** `check_idx` (scraper/scraper.py:68-73) tells
  pages apart by the text of their first `h1`, not by HTTP status. A page
  whose `h1` is neither title is fetched again.

## Model

| member | source | states |
|---|---|---|
| IncidentScraper.StripH1 | scraper/incident_scraper.py:65 | the two `replace` calls on a heading; `StripH1Wrapped` states that they give back the text of `<h1>t</h1>` |
| IncidentScraper.StripSpan | scraper/incident_scraper.py:82 | the two `replace` calls on a span; `StripSpanWrapped` states the round trip and `NestedSpanSurvives` that a tag can survive |
| IncidentScraper.StripSpans | scraper/incident_scraper.py:81-82 | stripping keeps the number and order of the spans; entry i is span i with `<span>` and then `</span>` removed |
| IncidentScraper.StripSpanWrapped | scraper/incident_scraper.py:82 | a span `<span>t</span>` whose text has no `<` strips back to exactly `t` |
| IncidentScraper.StripSpansWrapped | scraper/incident_scraper.py:81-82 | stripping a whole list of rendered `<`-free spans gives back their texts, in order |
| IncidentScraper.NestedSpanSurvives | scraper/incident_scraper.py:82 | `replace` does not remove every occurrence: `<sp<span>an>` strips to `<span>`, because the text that closes up after a removal is not scanned again |
| IncidentScraper.StripH1Wrapped | scraper/incident_scraper.py:65 | a heading `<h1>t</h1>` whose text has no `<` strips back to exactly `t` |
| IncidentScraper.ScrapeHeader | scraper/incident_scraper.py:58-67 | needs a last `h1` with non-blank text; the result is that text's first whitespace token followed by exactly one `,` |
| IncidentScraper.ScrapeHeaderOfTitle | scraper/incident_scraper.py:64-67 | a last heading `<h1>date rest</h1>` is parsable and yields `date,` whatever the earlier headings are |
| IncidentScraper.City | scraper/incident_scraper.py:85 | the city is the prefix of the city/state span that ends where its first `", "` starts |
| IncidentScraper.State | scraper/incident_scraper.py:86 | no contract of its own; `CityStateParts` states that from `city, state` with comma-free parts it returns piece 1 of `split(', ')`, the state |
| IncidentScraper.CityStateParts | scraper/incident_scraper.py:85-86 | from `city, state` with comma-free parts, split on `", "`, piece 0 is the city and piece 1 the state |
| IncidentScraper.GeoParts | scraper/incident_scraper.py:97-98 | from `caption lat, lon`, lat is the second whitespace token without its trailing `,` and lon is the third token |
| IncidentScraper.Lat | scraper/incident_scraper.py:97 | the second whitespace token of the lat/lon span, commas stripped; `GeoParts` states what it returns |
| IncidentScraper.Lon | scraper/incident_scraper.py:98 | the third whitespace token of the lat/lon span; `GeoParts` states what it returns |
| IncidentScraper.StripTrailingComma | scraper/incident_scraper.py:97 | `strip(',')` of a comma-free non-empty word followed by `,` gives back the word |
| IncidentScraper.ScrapeLocation | scraper/incident_scraper.py:69-101 | needs at least four spans, a `", "` in `spans[-3]` and three tokens in `spans[-2]`; every result ends with `,` |
| IncidentScraper.ScrapeLocationFields | scraper/incident_scraper.py:79-101 | the location string is its column list with a `,` after each column: city, state, empty, address, lat, lon for 7 spans; `spans[3]`, address, lat, lon otherwise |
| IncidentScraper.LocationColumns | scraper/incident_scraper.py:87-99 | with comma-free columns the string splits on `,` back into its columns plus one empty piece: 7 pieces for 7 spans, 5 for any other count (which cannot be 6, see `SixSpanFirstColumnComma`) |
| IncidentScraper.SevenSpanLocation | scraper/incident_scraper.py:85-99 | a seven-span page yields `city,state,,address,lat,lon,`, with an empty description column |
| IncidentScraper.OtherSpanLocation | scraper/incident_scraper.py:85-99 | a page whose span count is not 7 yields `spans[3],address,lat,lon,`; city and state are written only where `spans[3]` is the city/state span, that is on six-span pages |
| IncidentScraper.SixSpanLocation | scraper/incident_scraper.py:85-99 | a six-span page yields `city, state,address,lat,lon,`, which, when address and lon contain no comma, splits on `,` into six pieces: city, state after its leading space, address, lat, lon, empty |
| IncidentScraper.SixSpanFirstColumnComma | scraper/incident_scraper.py:85-93 | on a six-span page the first location column contains a `,`, the one of its `", "`, so `LocationColumns` never applies there |
| IncidentScraper.SixSpanColumns | scraper/incident_scraper.py:93-99 | the four columns `city, state`, address, lat and lon with a `,` after each split into six pieces |
| IncidentScraper.SplitCityState | scraper/incident_scraper.py:93 | a `city, state` column followed by comma-free columns splits on `,` into the city, the state after its space, and those columns |
| IncidentScraper.SoupEater | scraper/incident_scraper.py:47-56 | the row is the header string followed by the location string, so it ends with `,` |
| IncidentScraper.SoupEaterIgnoresH2 | scraper/incident_scraper.py:51-56 | the `h2` list is computed but has no effect on the row |
| IncidentScraper.SoupEaterSevenSpanRow | scraper/incident_scraper.py:47-56 | a seven-span page with a dated heading gives `date,city,state,,address,lat,lon,`, which splits into those eight pieces, the last empty |
| IncidentScraper.FilterIds | scraper/incident_scraper.py:14-15 | the two boolean masks in turn; what they keep is stated by `FilterIdsSpec` and `FilterIdsCons` |
| IncidentScraper.FilterIdsCons | scraper/incident_scraper.py:14-15 | the two masks decide for each ID on its own: it stays exactly when `lower <= id <= upper` |
| IncidentScraper.FilterIdsSpec | scraper/incident_scraper.py:14-15 | the filter keeps exactly the IDs in `[lower, upper]`, each as often as it occurs, as a subsequence of the input in the original order |
| Scraper.Url | scraper/scraper.py:79 | the prefix followed by `str(idx)`; `IdOfUrlSixDigits` and `IdOfShortUrl` state what `int(url[-6:])` recovers from it |
| Scraper.IdOf | scraper/scraper.py:13 | `int(url[-6:])`, `None` where it raises; stated by `IdOfUrlSixDigits` and `IdOfShortUrl` |
| Scraper.LastSix | scraper/scraper.py:13 | `url[-6:]` is the final six characters, or the whole of a shorter URL |
| Scraper.IdOfUrlSixDigits | scraper/scraper.py:13 | `int(url[-6:])` on the URL of a six-digit ID returns that ID |
| Scraper.IdOfShortUrl | scraper/scraper.py:66 | for an ID of five digits or fewer, `url[-6:]` takes in a letter or `/` of the prefix and `int` raises |
| Scraper.ScanUrls | scraper/scraper.py:77-79 | the loop builds 2000 URLs, entry i the prefix followed by `str(200000 + i)`, each giving back its ID through `int(url[-6:])` |
| Scraper.ClassifyTitle | scraper/scraper.py:68-73 | an incident page exactly when the `h1` text is `"\nIncident\n"`, a missing page exactly when it is `"\nPage not found\n"`, and anything else otherwise |
| Scraper.Retryable | scraper/scraper.py:18-31 | exactly the four caught exceptions are retried; `CheckIdxStep` states that any other escapes |
| Scraper.OpenSoup | scraper/scraper.py:9-31 | the first attempt that is not one of the four retried faults ends the call, whatever page it returns: every attempt before it is a retried fault, a response gives `Parsed` with that response's heading, and any other fault gives `Raises` with that fault; the call gives up exactly when every attempt is a retried fault; the attempts not consumed are the rest of the list |
| Scraper.OpenSoupFlat | scraper/scraper.py:14-31 | for each kind of result of `open_soup`, the outcome agrees with the reference run that skips every retry, an "other page" response included |
| Scraper.CheckIdxRun | scraper/scraper.py:62-73 | `check_idx` over a finite sequence of attempts; `CheckIdxRunIsFlat`, `FlatRunSaves`, `RetriesNeverDecide` and `CheckIdxStep` state how it ends |
| Scraper.CheckIdxRunIsFlat | scraper/scraper.py:62-73 | the nested retries of `check_idx` and `open_soup` come to one scan, decided by the first attempt that is not a retry |
| Scraper.FlatRunSaves | scraper/scraper.py:66-73 | a run saves exactly when some attempt returns the incident page and every attempt before it was a retry, and the saved ID is the URL's ID |
| Scraper.FlatAllRetries | scraper/scraper.py:72-73 | the reference run never decides while every attempt is a retry |
| Scraper.RetriesNeverDecide | scraper/scraper.py:72-73 | while every attempt is a retried fault or an unrecognised page, `check_idx` neither saves nor finishes |
| Scraper.CheckIdxStep | scraper/scraper.py:68-73 | an incident page saves the ID, "not found" ends without a save, a retry starts over on the remaining attempts, and any other exception escapes |
| Scraper.AfterSave | scraper/scraper.py:46-60 | the file exists after a save; a missing file becomes exactly `["ids", str(idx)]`; an existing file keeps all its lines and gains `str(idx)` at the end |
| Scraper.IdLineIsNotHeader | scraper/scraper.py:55-59 | no ID line equals the header line `ids` |
| Scraper.SaveKeepsHeaderOnce | scraper/scraper.py:53-60 | a save keeps the header at line 0 and nowhere else |
| Scraper.SavesAppend | scraper/scraper.py:58-60 | saves into an existing file append one line per ID, in order, and change nothing else |
| Scraper.SavesFromMissingFile | scraper/scraper.py:53-60 | saves starting from a missing file leave `ids` followed by one line per ID in order, with the header exactly once, at position 0 |
| Scraper.HeaderThenIds | scraper/scraper.py:53-56 | the header followed by ID lines holds the header exactly once |
| Scraper.ScrapedFile.Save | scraper/scraper.py:46-60 | updates the file object in place to the state `AfterSave` gives |
| Scraper.CheckIdx | scraper/scraper.py:62-73 | returns how `check_idx` ends; calls `save` once, with the URL's ID, exactly when it ends on an incident page, and leaves the file untouched otherwise |
| PyStr.RemoveWrapped | scraper/incident_scraper.py:65 | removing an opening and then a closing tag from `open t close` gives back `t` when `t` cannot start a tag |
| PyStr.RemoveAllNoMatch | scraper/incident_scraper.py:82 | `replace` leaves a string with no occurrence unchanged |
| PyStr.SplitContains | scraper/incident_scraper.py:85-86 | `split(sep)` has a second piece exactly when the separator occurs, which is what `[1]` needs |
| PyStr.SplitFirstPiece | scraper/incident_scraper.py:85 | the first piece ends at the first occurrence of the separator |
| PyStr.SplitAtFirst | scraper/incident_scraper.py:85-86 | splitting `a + sep + b`, where `a` holds no occurrence, gives `a` and then the pieces of `b` |
| PyStr.SplitFirstPrefix | scraper/incident_scraper.py:85 | the first piece of `split(sep)` is a prefix of the string |
| PyStr.JoinSplit | scraper/incident_scraper.py:85-86 | joining the pieces of `split(sep)` with `sep` gives back the string |
| PyStr.SplitJoinChar | scraper/incident_scraper.py:87-99 | splitting a join of parts that are free of the one-character separator gives back the parts |
| PyStr.TerminatedSplit | scraper/incident_scraper.py:87-99 | comma-free columns, each followed by `,`, split on `,` into the columns and one empty piece |
| PyStr.WordsEmptyIffBlank | scraper/incident_scraper.py:66 | `split()` is empty exactly when the string is all whitespace |
| PyStr.FirstWord | scraper/incident_scraper.py:66 | `split()[0]` is the run of non-space characters after the leading whitespace |
| PyStr.WordsJoin | scraper/incident_scraper.py:97-98 | `split()` of words joined by single spaces gives back the words |
| PyStr.LStripDrops | scraper/incident_scraper.py:97 | everything removed on the left is a stripped character |
| PyStr.RStripDrops | scraper/incident_scraper.py:97 | everything removed on the right is a stripped character |
| PyStr.StripInfix | scraper/incident_scraper.py:97 | `strip` returns a contiguous slice of its input with only stripped characters on either side |
| PyStr.StripEnds | scraper/incident_scraper.py:97 | a stripped result neither starts nor ends with a stripped character |
| PyStr.NatToStringDigits | scraper/scraper.py:59 | `str(idx)` of a non-negative ID is all ASCII digits |
| PyStr.NatToStringLength | scraper/scraper.py:13 | `str(n)` is longer than k digits exactly when `n >= 10^k` |
| PyStr.DigitsValueOfNat | scraper/scraper.py:13 | the digits of `str(n)` read back as `n` |
| PyStr.ValidDigitsShape | scraper/scraper.py:13 | what `int` accepts as digits starts and ends with a digit, holds only digits and `_`, and never two `_` in a row |
| PyStr.ParseIntOfDigits | scraper/scraper.py:13 | `int` of a non-empty string of ASCII digits is its decimal value |
| PyStr.IntSpaceNarrower | scraper/scraper.py:13 | `int` skips less whitespace than `split()`: `int('\x1c5')` raises while `int(' 5')` is 5 |
| PyStr.ParseIntToString | scraper/scraper.py:13 | `int(str(n)) == n` for every non-negative n |

## Left out

- The network: `requests.get` with its timeouts and HTTP status handling. A fetch is a given sequence of attempt outcomes.
- BeautifulSoup: `find_all`, `str(tag)` and `.h1.text` are not modelled. Pages are given as lists of tag strings, and tags with attributes are not rendered.
- The self-recursion of `open_soup` and `check_idx`. The model runs over a finite sequence of attempts. Running out of them gives `GaveUp` or `Unresolved`, and nothing is claimed about termination.
- Scraper.CheckIdxRun: has no outcome for CPython's recursion limit. Each retry in `open_soup` (scraper/scraper.py:21-31) and `check_idx` (scraper/scraper.py:73) adds a stack frame. About 1000 consecutive retries (the default limit) therefore raise an uncaught `RecursionError`. In the model, `FlatRunSaves`, `CheckIdxStep` and `CheckIdxRunIsFlat` reach `Saved` after any number of retries.
- The `multiprocessing.Pool` fan-out over the URL list (scraper/scraper.py:80-81). Its workers all save into the one `scraped.csv`, and this can lose an ID. Two workers can both find the file missing (scraper/scraper.py:53). One creates it and appends its ID. The other then opens it with `'w'` (scraper/scraper.py:54), which truncates it. `SavesAppend` and `SavesFromMissingFile` hold only for saves made one after another.
- `printout`, the elapsed-time prints and the global `start`. The model assumes `start` is bound in every worker, which holds only when `Pool` starts its workers by fork. `start` is assigned only in the `__main__` block (scraper/scraper.py:76). A worker started by spawn (the default on macOS and Windows) or by forkserver imports the script without running that block. Its first `printout` (scraper/scraper.py:15, reading `start` at :39) then raises `NameError` inside the `try` of `open_soup`. None of the four `except` clauses (scraper/scraper.py:18-31) catches it, so every `check_idx` fails, `p.map` (scraper/scraper.py:81) re-raises, and no ID is saved. `CheckIdxRun`, `FlatRunSaves` and `CheckIdx` have no such outcome. Apart from this, the prints are clock and standard-output effects only.
- The `pandas.read_csv` load in `main_controller` (scraper/incident_scraper.py:12). The filter works on an already-loaded list.
- The per-ID loop of `main_controller`. It only fetches, parses and prints.
- `csv_writer` (scraper/incident_scraper.py:142-165). It reads an undefined `idx` and repeats `save`.
- `soup_opener` (scraper/incident_scraper.py:24-45). It calls `open_soup`, which is not defined in that file, so every retry raises there.
- The empty stubs `scrape_participants`, `scrape_characteristics`, `scrape_notes`, `scrape_gun_types` and `scrape_sources`: they have no behaviour.
- app.py (user-interface wiring) and scraper/index_assemble.py (directory listing and pandas concatenation) are not part of this model.
- Exception subclassing inside `requests`: a raised exception is given by the first of the four `except` clauses (scraper/scraper.py:18-31) that catches it. For example, `ConnectTimeout` and `ProxyError` are subclasses of `ConnectionError`, so they are given as `ConnectionError` and retried. `ConnectTimeout` is what `requests.get(url, timeout=2)` (scraper/scraper.py:16) raises when a connection is slow to open. `OtherFault` stands only for exceptions that none of the four clauses catches.
- File-system errors while opening or writing `scraped.csv` are not modelled.
- Scraper.AfterSave: the file is modelled as a list of lines, so an existing file is assumed to end with a newline. If its last line has none, `f.write(str(idx))` (scraper/scraper.py:59) extends that line instead. `ScrapedFile.Existing` and `SavesAppend` take newline-terminated content.
- `int()` treats only ASCII digits as digits. Python also accepts other Unicode decimal digits, which never occur in these URLs.
- ParseIntToString: stated for non-negative integers only. Every ID here is non-negative.
- IdOfUrlSixDigits: stated for six-digit IDs, the only kind the URL loop produces. For IDs of seven or more digits, `url[-6:]` keeps only the last six digits. No lemma states this.
- IncidentScraper.StripSpans: states per-span tag removal, not that the result contains no `<span>`. Python's `replace` can leave a tag that closes up during removal, as `NestedSpanSurvives` shows.
