/** Fetching a race's pages one after another until the leaderboard runs out: the
    "all pages" loops of race_app.py (`RaceApp.load_data`) and api/main.py (`parse_race`). */
module Pager {
  import opened Common
  import opened Text
  import opened Locator
  import opened RaceParser

  /** The network, frozen for the duration of one run: what fetching each address yields.
      An address the site does not answer is a transport failure. */
  type Site = map<string, Response>

  /** What `RaceParser.parse_race` returns for each address the site answers; every other
      address yields `None`. */
  type Results = map<string, Option<seq<Record>>>

  /** The race whose pages are fetched. */
  datatype Race = Race(raceType: string, year: string, id: Identifier) {
    predicate Valid() {
      Shaped(raceType, id)
    }
  }

  /** `requests.get(url)` followed by `raise_for_status()` and parsing. */
  function Fetch(site: Site, url: string): Response {
    if url in site then site[url] else TransportFault
  }

  /** The address of page `n`; the page number is rendered in decimal. */
  function PageAddress(race: Race, n: nat): string
    requires race.Valid()
  {
    Address(race.raceType, race.year, race.id, Decimal(n))
  }

  /** Parsing every response the site gives. */
  function ParseAll(site: Site): Results {
    map url | url in site :: ParseRace(site[url])
  }

  /** `RaceParser.parse_race` at one address, given the parsed responses. */
  function Lookup(results: Results, url: string): Option<seq<Record>> {
    if url in results then results[url] else None
  }

  /** Looking an address up among the parsed responses is fetching and parsing it. */
  lemma LookupIsParse(site: Site, url: string)
    ensures Lookup(ParseAll(site), url) == ParseRace(Fetch(site, url))
  {
  }

  /** What `RaceParser.parse_race` returns for page `n`. */
  function Outcome(results: Results, race: Race, n: nat): Option<seq<Record>>
    requires race.Valid()
  {
    Lookup(results, PageAddress(race, n))
  }

  /** Python truthiness of a page result: a non-empty list. `None` and `[]` both stop the loop. */
  predicate Continues(r: Option<seq<Record>>) {
    r.Some? && |r.value| > 0
  }

  /** The records of pages `1..n` in ascending page order. */
  function Gathered(results: Results, race: Race, n: nat): seq<Record>
    requires race.Valid()
  {
    if n == 0 then [] else Gathered(results, race, n - 1) + Outcome(results, race, n).GetOr([])
  }

  /** Two page numbers of one race give the same address only if they are equal. */
  lemma PageAddressInjective(race: Race, m: nat, n: nat)
    requires race.Valid()
    requires PageAddress(race, m) == PageAddress(race, n)
    ensures m == n
  {
    PageInjective(race.raceType, race.year, race.id, Decimal(m), Decimal(n));
    DecimalInjective(m, n);
  }

  /** `requested` holds the addresses of pages `1..n`, in this order, and nothing else. */
  predicate RequestedInOrder(race: Race, requested: seq<string>, n: nat)
    requires race.Valid()
  {
    |requested| == n && forall i :: 0 <= i < n ==> requested[i] == PageAddress(race, i + 1)
  }

  /** Requesting page `n + 1` after pages `1..n` keeps the log in order. */
  lemma RequestNext(race: Race, requested: seq<string>, n: nat)
    requires race.Valid()
    requires RequestedInOrder(race, requested, n)
    ensures RequestedInOrder(race, requested + [PageAddress(race, n + 1)], n + 1)
  {
  }

  /** Pages `1..n` all continued the loop. */
  predicate ContinuedThrough(results: Results, race: Race, n: nat)
    requires race.Valid()
  {
    forall k :: 1 <= k <= n ==> Continues(Outcome(results, race, k))
  }

  /** Page `n` continuing after pages `1..n-1` did extends the run by one page. */
  lemma ContinueNext(results: Results, race: Race, n: nat)
    requires race.Valid() && n >= 1
    requires ContinuedThrough(results, race, n - 1)
    requires Continues(Outcome(results, race, n))
    ensures ContinuedThrough(results, race, n)
  {
  }

  /** The single-page load of `race` at `page`: exactly that page's address is requested, and
      its records become the participants, or none when the fetch or the parse failed. */
  predicate OnePageRun(site: Site, race: Race, page: string, participants: seq<Record>, requested: seq<string>)
    requires race.Valid()
  {
    && requested == [Address(race.raceType, race.year, race.id, page)]
    && participants == ParseRace(Fetch(site, requested[0])).GetOr([])
  }

  /** One all-pages run: `requested` holds the addresses of pages 1, 2, 3, ... in ascending
      order; every page but the last one requested continued, the last one (the stopping page)
      did not; and `data` holds the records of the pages before the stopping page, in page
      order. */
  predicate AllPagesRun(results: Results, race: Race, data: seq<Record>, requested: seq<string>)
    requires race.Valid()
  {
    var pages := |requested| - 1;
    && |requested| >= 1
    && RequestedInOrder(race, requested, pages + 1)
    && ContinuedThrough(results, race, pages)
    && !Continues(Outcome(results, race, pages + 1))
    && data == Gathered(results, race, pages)
  }

  /** The all-pages loop. Pages 1, 2, 3, ... are requested in ascending order; the loop stops
      at the first page whose result is `None` or `[]` and requests nothing after it. The
      records are those of the pages before the stopping page, in page order, kept even when
      the stopping page failed; `total` is their number and `pages` the number of pages they
      came from, each page holding at least one record. Every page that continued was served
      by the site, so the loop ends after at most one more request than the site has pages. */
  method FetchAllPages(results: Results, race: Race)
    returns (data: seq<Record>, total: nat, pages: nat, requested: seq<string>)
    requires race.Valid()
    ensures AllPagesRun(results, race, data, requested)
    ensures pages == |requested| - 1
    ensures total == |data| && pages <= total
    ensures pages <= |results|
  {
    data := [];
    total := 0;
    requested := [];
    var page: nat := 1;
    ghost var served: set<string> := {};
    while true
      invariant Progress(results, race, page, data, total, requested, served)
      decreases results.Keys - served
    {
      var url := PageAddress(race, page);
      var participants := Lookup(results, url);
      if !Continues(participants) {
        ProgressExit(results, race, page, data, total, requested, served);
        requested := requested + [url];
        break;
      }
      ProgressStep(results, race, page, data, total, requested, served);
      data := data + participants.value;
      total := total + |participants.value|;
      requested := requested + [url];
      served := served + {url};
      page := page + 1;
    }
    pages := page - 1;
  }

  /** The state of the all-pages loop before it requests `page`: pages `1..page-1` continued,
      their addresses were requested in order and all were served by the site, and `data`
      holds their records, `total` of them. */
  ghost predicate Progress(results: Results, race: Race, page: nat, data: seq<Record>, total: nat,
                           requested: seq<string>, served: set<string>)
    requires race.Valid()
  {
    && page >= 1
    && ContinuedThrough(results, race, page - 1)
    && data == Gathered(results, race, page - 1)
    && total == |data| && page - 1 <= total
    && RequestedInOrder(race, requested, page - 1)
    && served <= results.Keys && |served| == page - 1
    && forall a :: a in served ==> exists k :: 1 <= k < page && a == PageAddress(race, k)
  }

  /** One more round of the loop: a continuing page keeps the loop state, and its address is a
      served address not seen before, so the loop's measure shrinks. */
  lemma ProgressStep(results: Results, race: Race, page: nat, data: seq<Record>, total: nat,
                     requested: seq<string>, served: set<string>)
    requires race.Valid()
    requires Progress(results, race, page, data, total, requested, served)
    requires Continues(Outcome(results, race, page))
    ensures var url := PageAddress(race, page);
      var records := Outcome(results, race, page).value;
      && Progress(results, race, page + 1, data + records, total + |records|,
                  requested + [url], served + {url})
      && url in results.Keys && url !in served
  {
    var url := PageAddress(race, page);
    ServedGrows(results, race, served, page);
    RequestNext(race, requested, page - 1);
    ContinueNext(results, race, page);
  }

  /** The loop's exit: the page that does not continue completes an all-pages run, and the
      pages before it were all served. */
  lemma ProgressExit(results: Results, race: Race, page: nat, data: seq<Record>, total: nat,
                     requested: seq<string>, served: set<string>)
    requires race.Valid()
    requires Progress(results, race, page, data, total, requested, served)
    requires !Continues(Outcome(results, race, page))
    ensures AllPagesRun(results, race, data, requested + [PageAddress(race, page)])
    ensures page - 1 <= total == |data|
    ensures page - 1 <= |results|
  {
    var all := requested + [PageAddress(race, page)];
    RequestNext(race, requested, page - 1);
    assert |all| - 1 == page - 1;
    SubsetSize(served, results.Keys);
  }

  /** A page that continues was served by the site at an address not requested before, so
      the set of served addresses grows by one. */
  lemma ServedGrows(results: Results, race: Race, served: set<string>, page: nat)
    requires race.Valid()
    requires Continues(Outcome(results, race, page))
    requires served <= results.Keys && |served| == page - 1
    requires forall a :: a in served ==> exists k :: 1 <= k < page && a == PageAddress(race, k)
    ensures var next := served + {PageAddress(race, page)};
      && next <= results.Keys && |next| == page
      && forall a :: a in next ==> exists k :: 1 <= k < page + 1 && a == PageAddress(race, k)
  {
    var url := PageAddress(race, page);
    assert url !in served by {
      if url in served {
        var k :| 1 <= k < page && url == PageAddress(race, k);
        PageAddressInjective(race, k, page);
      }
    }
  }

  /** A subset is no larger than its superset. */
  lemma {:induction false} SubsetSize<T>(a: set<T>, b: set<T>)
    requires a <= b
    ensures |a| <= |b|
    decreases |a|
  {
    if a != {} {
      var x :| x in a;
      SubsetSize(a - {x}, b - {x});
    }
  }

  /** Accumulation only appends: the records of the first `m` pages start with the records
      of the first `n` pages. */
  lemma {:induction false} GatheredPrefix(results: Results, race: Race, n: nat, m: nat)
    requires race.Valid()
    requires n <= m
    ensures Gathered(results, race, n) <= Gathered(results, race, m)
    decreases m - n
  {
    if n < m {
      GatheredPrefix(results, race, n, m - 1);
      assert Gathered(results, race, m)
             == Gathered(results, race, m - 1) + Outcome(results, race, m).GetOr([]);
    }
  }
}
