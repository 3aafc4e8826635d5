# thronebutt-parser, modelled in Dafny

thronebutt-parser scrapes race leaderboards from beta.thronebutt.com. This model covers four parts of it:

- **Parser.** `RaceParser.parse_race` (src/race_parser.py) builds the address of one leaderboard page. It then reads the page into records of rank, name, distance and kills, and returns `None` when the page cannot be fetched or parsed.
- **Desktop form.** `RaceApp.load_data` (src/race_app.py) checks the form fields. It then loads either one page or every page of a race, from page 1 until the first page that fails or is empty.
- **Search.** `RaceApp.search_participant` (src/race_app.py) filters the loaded participants by name, ignoring case.
- **HTTP handler.** `POST /parse` (src/api/main.py) runs the same two modes over HTTP.

The network and the HTML are abstractions:

- The site is a finite map from address to `Response`:
  - `TransportFault` is a timeout, connection error or error status.
  - `Malformed` is a body that cannot be read.
  - `Body(doc)` is a parsed page.

  An address outside the map is a transport fault.
- A page (`Document`) holds:
  - the text nodes of its first `text-center` div;
  - its score plates, in document order.
- Each `Plate` already holds what each CSS selector would find in it:
  - an optional `data-rank`;
  - an optional name element;
  - the level spans;
  - the wide-layout and narrow-layout kill elements;
  - a flag saying whether reading the plate raises.
- An element is its sequence of text nodes:
  - `get_text()` joins them;
  - `get_text(strip=True)` strips each one, then joins them.

Modules:

| module | file | contents |
|---|---|---|
| `Common` | common.dfy | `Option`, `Result` |
| `Text` | text.dfy | `strip`, `lower`, `in`, `replace`, `split`, `join`, decimal rendering |
| `Selection` | selection.dfy | generic order-preserving filter and how its output traces back to its input |
| `Locator` | locator.dfy | page addresses |
| `RaceParser` | race_parser.dfy | one page to records |
| `Pager` | pager.dfy | the all-pages loop shared by the form and the HTTP handler |
| `RaceApp` | race_app.dfy | the form and the search |
| `Api` | api.dfy | the HTTP handler |

## Model

| member | source | states |
|---|---|---|
| Locator.DailyAddress | src/race_parser.py:14-15 | A daily race's address is the base URL followed by `/daily/`, the year, the month, the day and the page, separated by slashes. |
| Locator.WeeklyAddress | src/race_parser.py:16-17 | Any race type other than `daily` gets the `/weekly/` form: year, week and page, whatever the type was called. |
| Locator.PageInjective | src/race_parser.py:14-17 | For one race, two pages share an address only if the page strings are equal. |
| Locator.AddressEndsWithPage | src/race_parser.py:14-17 | The page is the last part of the address: every page of one race shares the same prefix. |
| Locator.AddressRoundTrip | src/race_parser.py:14-17 | When no field holds a slash, splitting the path at its slashes gives back the race type, the year, the identifier fields and the page. |
| Locator.Address | src/race_parser.py:14-17 | Every page address starts with the site root and a slash. The full form is stated by `Locator.DailyAddress` and `Locator.WeeklyAddress`. |
| RaceParser.ParseRace | src/race_parser.py:22-82 | `None` exactly when the fetch or the page-level parse fails, so a failure never yields a list. A "No scores!" banner gives `[]` whatever plates the page holds. Otherwise there is one record per plate that does not fault, never more records than plates. |
| RaceParser.ExtractOrder | src/race_parser.py:39-75 | Record `j` is the record of the `j`-th plate that does not fault. Positions ascend, so document order is kept. Every plate that does not fault contributes one record. |
| RaceParser.SkipFaultyPlate | src/race_parser.py:44-73 | Inserting a faulting plate anywhere changes nothing: its neighbours yield the same records as without it. |
| RaceParser.ExtractConcat | src/race_parser.py:44-75 | The plate loop distributes over concatenation of plate runs. |
| RaceParser.ExtractPlates | src/race_parser.py:44-75 | The plate loop yields one record per plate that does not fault, and never more records than plates. |
| RaceParser.ExtractIsRecordsOfKept | src/race_parser.py:44-75 | The plate loop's output is the records of the plates that do not fault, taken in order. |
| RaceParser.NoFaultsPointwise | src/race_parser.py:44-69 | With no faulting plate, record `i` is the record of plate `i`. |
| RaceParser.PlateFields | src/race_parser.py:46-52 | `rank` is `data-rank` or `N/A`. `name` is the stripped name text or `N/A`, and never starts or ends with whitespace. `distance` is the space-join of the stripped span texts, or `N/A` when there are no spans. |
| RaceParser.PlateRecord | src/race_parser.py:46-69 | The record of a plate that does not fault always has a name without surrounding whitespace and a kill count without commas. |
| RaceParser.KillsFallback | src/race_parser.py:54-59 | Kills come from the wide-layout element if present, else from the narrow-layout element, stripped with every comma removed. With neither, kills are `N/A`. The result never holds a comma. |
| RaceParser.DistanceRoundTrip | src/race_parser.py:51-52 | When no span text holds a space, splitting the distance at spaces gives back the span texts. |
| RaceParser.GetStrippedText | src/race_parser.py:49-59 | Text read with `strip=True` has no leading or trailing whitespace. |
| RaceParser.StrippedTextOfTrimmed | src/race_parser.py:49-59 | When no text node starts or ends with whitespace, `get_text(strip=True)` equals `get_text()`. |
| RaceParser.StrippedTextKeepsNonSpace | src/race_parser.py:49-59 | `get_text(strip=True)` drops whitespace only: every other character occurs as often as in `get_text()`. |
| RaceParser.FirstPresentPair | src/race_parser.py:54-57 | Of two prioritised selectors, the first one's element wins when present; otherwise the second's is used. |
| Pager.FetchAllPages | src/race_app.py:150-184 | Pages 1, 2, 3, … are requested in ascending order, and nothing after the first page that is `None` or `[]`. The data is the records of the earlier pages in page order, kept even when the stopping page failed. `total` is the data's length. `pages` is the number of non-empty pages before the stop, and the loop ends within one request more than the site has pages. |
| Pager.ProgressStep | src/race_app.py:166-182 | A page that continues is appended to the data and counted in the total. Its address is logged, and it is a served address not seen before, so the loop makes progress. |
| Pager.ProgressExit | src/race_app.py:166-174 | The first page that does not continue ends a complete all-pages run. The pages before it are all served ones, each holding at least one record. |
| Pager.PageAddressInjective | src/race_app.py:156-182 | Distinct page numbers of one race give distinct addresses, since the decimal rendering is injective. This is why the loop cannot revisit a page. |
| Pager.GatheredPrefix | src/race_app.py:176 | Accumulation only appends: the records of the first `n` pages are a prefix of those of the first `m >= n` pages. |
| Pager.LookupIsParse | src/race_app.py:166 | Looking an address up in the parsed site is fetching it and running the parser on the response. |
| RaceApp.FormRace | src/race_app.py:121-148 | An empty stripped year warns first. A daily race then warns when the stripped month or day is empty; any other race warns when the stripped week is empty. Otherwise the race holds the stripped fields, as `(month, day)` or the week. |
| RaceApp.LoadData | src/race_app.py:120-205 | A missing race field warns, fetches nothing and leaves the participants unchanged. Otherwise the participants are cleared and the race is loaded as `RaceLoaded` describes. |
| RaceApp.LoadRace | src/race_app.py:150-205 | All-pages mode ignores the page field and runs the all-pages loop. Single-page mode warns on an empty stripped page, leaving the participants cleared. Otherwise it fetches exactly that page and shows its records, or nothing when the parser gave `None`. The status reports no participants whenever the table is empty. |
| RaceApp.LoadOnePage | src/race_app.py:186-196 | Exactly one address, the given page's, is fetched. The records shown are the parser's list, or empty on `None`. |
| RaceApp.FinalStatus | src/race_app.py:184-205 | The status reports no participants exactly when the table is empty, whatever the mode. Otherwise all-pages mode reports the participant total and the page count, and single-page mode reports the number of participants. |
| RaceApp.Search | src/race_app.py:217-224 | An empty lower-cased, stripped query shows every participant; no query shows more participants than the table holds. |
| RaceApp.SearchMatches | src/race_app.py:218-223 | A non-empty query shows only table participants whose lower-cased name contains it, and every participant whose name does. |
| RaceApp.SearchKeepsOrder | src/race_app.py:223 | The matches appear in table order: they sit at ascending positions of the table, and every matching position is among them. |
| RaceApp.SearchConcat | src/race_app.py:223 | Searching two tables appended is appending their searches. |
| RaceApp.SearchCaseInsensitive | src/race_app.py:218-223 | A query and its lower-cased form show the same participants. |
| Api.RequestIdentifier | src/api/main.py:30-39 | A daily identifier without a slash is refused as a missing slash, and only then. An accepted identifier fits its race type. A non-daily identifier passes through unchanged. |
| Api.PageParam | src/api/main.py:23 | A request without `page` asks for page `"1"`; otherwise it asks for the page it names. |
| Api.DailyIdentifier | src/api/main.py:35-37 | A daily identifier is accepted exactly when it holds one slash. The month and day are then slash-free and rejoin to the identifier. |
| Api.DailyIdentifierRoundTrip | src/api/main.py:35-37 | Any slash-free month and day joined by a slash come back as that `(month, day)`. |
| Api.Serve | src/api/main.py:41-68 | All-pages mode runs the all-pages loop from page 1 and answers with the concatenation; `None` and `[]` both stop it. Single-page mode answers with the parser's result for exactly the requested page, `"1"` by default. |
| Api.ParseEndpoint | src/api/main.py:27-74 | A refused identifier fetches nothing and answers 400 for a missing slash, 500 otherwise. An accepted identifier is served as `Api.Serve` states. |
| Api.ParseEndpointAsWritten | src/api/main.py:29-74 | As written, every request ends in a 500. A refused identifier fetches nothing. An accepted one fetches exactly one page (page 1 in all-pages mode) before failing. |
| Api.MissingSlashAnswers500 | src/api/main.py:30-33 | The daily identifier `0101` is refused for a missing slash, and the client receives 500. |
| Api.ServedPageAnswers500 | src/api/main.py:61-74 | A weekly page that the parser reads successfully still reaches the client as a 500. |
| Text.StripIsSlice | src/race_app.py:122 | `strip()` removes only blanks: the result is a contiguous slice with only whitespace around it. |
| Text.Strip | src/race_app.py:122 | `strip()` leaves no whitespace at either end and never lengthens the text. |
| Text.StripKeepsNonSpace | src/race_app.py:122 | `strip()` drops whitespace only: every other character occurs in the result as often as in the input. |
| Text.Lower | src/race_app.py:218 | `lower()` keeps the length. It maps each `A`–`Z` to the letter 32 code points later, leaves every other character as it is, and leaves no upper-case letter. |
| Text.StripIdempotent | src/race_app.py:122 | Stripping twice is stripping once. |
| Text.StripEmptyIffBlank | src/race_app.py:132 | A field counts as empty after stripping exactly when it is all whitespace. |
| Text.ContainsIffOccurs | src/race_app.py:223 | `needle in hay` holds exactly when the needle occurs as a contiguous slice of the hay. |
| Text.RemoveChar | src/race_parser.py:59 | `replace(',', '')` leaves no comma and keeps every other character with its multiplicity. It changes nothing when there is no comma. |
| Text.RemoveCharIsKept | src/race_parser.py:59 | `replace(',', '')` is the order-preserving selection that drops every comma, so the remaining digits keep their order. |
| Text.SplitJoin | src/api/main.py:36 | `split` undoes `join` when no piece holds the separator. |
| Text.JoinSplit | src/api/main.py:36 | `join` undoes `split` for every string. |
| Text.DecimalRoundTrip | src/race_app.py:166 | The decimal rendering of a page number reads back as that number. |
| Selection.KeptTracesBack | src/race_app.py:223 | A filter's output is its input's kept elements at ascending positions, and covers every kept element. |

## Left out

- Fetching is modelled as a finite map from address to response. Timeouts, status codes and `raise_for_status` are all folded into `TransportFault`.
- HTML parsing and CSS selector matching are not modelled. A plate's selector results are given in the `Plate` datatype, and a plate that faults is flagged rather than derived.
- The loop has no page limit in the code. On a finite site it stops within one request more than the site has pages.
- The `debug` flag's prints and tracebacks are not modelled: they change no result.
- The parser's `messagebox.showerror` popup is not modelled, and neither are the form's warning and status texts. They appear only as the `Warning` and `Status` values.
- Tkinter widgets, `display_data`, the status-bar updates during the loop, and the handler's FastAPI and pydantic plumbing are not modelled. The `/health` route is not modelled either.
- src/locale_manager.py is not part of this model.
- `strip()` and `lower()` are ASCII-only here:
  - `strip()` removes the ASCII characters `str.isspace` accepts: space, tab, newline, vertical tab, form feed, carriage return and the separators 0x1C–0x1F;
  - `lower()` maps `A`–`Z` to lower case.
- Text.Strip: non-ASCII whitespace such as U+0085 and U+00A0 is not stripped.
- Text.Lower: other Unicode case mappings are not modelled.
- Locator.Address: requires the identifier to fit the race type, a `(month, day)` pair exactly for `daily`. Every caller in the code passes such a pair. Indexing a string identifier for a daily race is not modelled.
- Api.ParseEndpoint: a `None` from the parser in single-page mode is answered as a JSON `null`. FastAPI's response validation of that `null` against `List[Participant]` is not modelled.

## Findings

| source | as written | input that shows it | evidently intended | confidence | as-written member | corrected member |
|---|---|---|---|---|---|---|
| src/api/main.py:46,62 | The handler `await`s `RaceParser.parse_race`, which is synchronous and returns a list or `None`. Awaiting either raises `TypeError`, and the blanket handler turns it into a 500. | Any weekly request for a page the site serves, e.g. `race_type="weekly", year="2024", identifier="5"`. | Call the parser without `await`, serving one page or looping over all pages. | not executed; high | Api.ParseEndpointAsWritten (exhibited by Api.ServedPageAnswers500) | Api.ParseEndpoint |
| src/api/main.py:30-33,70-74 | The `HTTPException(400)` for a daily identifier without a slash is raised inside the `try`, caught by `except Exception`, and re-raised as a 500. | `race_type="daily", identifier="0101"` | The client receives 400. | not executed; medium | Api.ParseEndpointAsWritten (exhibited by Api.MissingSlashAnswers500) | Api.ParseEndpoint |
