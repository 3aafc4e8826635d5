/** Extraction of leaderboard records from one fetched page (race_parser.py, `RaceParser.parse_race`).
    The HTML tree and CSS selectors are abstracted: a page is a `Document` whose score plates
    already carry what each selector would find. */
module RaceParser {
  import opened Common
  import opened Text
  import opened Selection

  /** The sentinel stored in a field whose element is missing. */
  const NotAvailable: string := "N/A"

  /** The phrase the site prints instead of a leaderboard when a race has no results. */
  const NoScoresPhrase: string := "No scores!"

  /** An element, seen through its text nodes in document order. */
  type Element = seq<string>

  /** BeautifulSoup's `get_text()`: the text nodes run together. */
  function GetText(e: Element): string {
    Concat(e)
  }

  /** Every text node, stripped. */
  function StrippedNodes(e: Element): seq<string> {
    seq(|e|, k requires 0 <= k < |e| => Strip(e[k]))
  }

  /** BeautifulSoup's `get_text(strip=True)`: every text node stripped, then run together. */
  function GetStrippedText(e: Element): (t: string)
    ensures Trimmed(t)
  {
    ConcatTrimmed(StrippedNodes(e));
    Concat(StrippedNodes(e))
  }

  /** When no text node starts or ends with whitespace, `strip=True` changes nothing. */
  lemma {:induction false} StrippedTextOfTrimmed(e: Element)
    requires forall k :: 0 <= k < |e| ==> Trimmed(e[k])
    ensures GetStrippedText(e) == GetText(e)
  {
    forall k | 0 <= k < |e|
      ensures StrippedNodes(e)[k] == e[k]
    {
      StripTrimmed(e[k]);
    }
    assert StrippedNodes(e) == e;
  }

  /** Dropping the first text node drops its stripped text. */
  lemma StrippedNodesTail(e: Element)
    requires |e| > 0
    ensures StrippedNodes(e)[1..] == StrippedNodes(e[1..])
  {
    forall k | 0 <= k < |e| - 1
      ensures StrippedNodes(e)[1..][k] == StrippedNodes(e[1..])[k]
    {
      assert e[1..][k] == e[k + 1];
    }
  }

  /** `strip=True` removes whitespace only: every other character occurs in the stripped text as
      often as in the plain text. */
  lemma {:induction false} StrippedTextKeepsNonSpace(e: Element, x: char)
    requires !IsSpace(x)
    ensures multiset(GetStrippedText(e))[x] == multiset(GetText(e))[x]
    decreases |e|
  {
    if |e| > 0 {
      StrippedTextKeepsNonSpace(e[1..], x);
      StripKeepsNonSpace(e[0], x);
      StrippedNodesTail(e);
      var stripped, plain := GetStrippedText(e), GetText(e);
      assert stripped == Strip(e[0]) + GetStrippedText(e[1..]);
      assert plain == e[0] + GetText(e[1..]);
      assert multiset(stripped) == multiset(Strip(e[0])) + multiset(GetStrippedText(e[1..]));
      assert multiset(plain) == multiset(e[0]) + multiset(GetText(e[1..]));
    }
  }

  /** One `div.score_plate`, with what each selector finds inside it:
      - `rank`: the `data-rank` attribute;
      - `name`: the first `div.break-all` or `div.break-words`;
      - `levels`: every `span` inside `div.flex.flex-col.gap-1`;
      - `wideKills`: the kill count of the wide layout (`div.hidden.sm:flex div.nt-text-shadow.text-right`);
      - `narrowKills`: the kill count of the narrow layout (`div.flex.sm:hidden div.nt-text-shadow`);
      - `faulty`: reading the plate raises, so the per-plate handler drops it. */
  datatype Plate = Plate(
    rank: Option<string>,
    name: Option<Element>,
    levels: seq<Element>,
    wideKills: Option<Element>,
    narrowKills: Option<Element>,
    faulty: bool)

  /** A parsed page: the first `div` whose class matches `text-center` (if any), and the
      score plates in document order. */
  datatype Document = Document(banner: Option<Element>, plates: seq<Plate>)

  /** What fetching an address yields: a transport failure (timeout, connection error or a
      non-success status), a body that cannot be parsed, or a parsed document. */
  datatype Response = TransportFault | Malformed | Body(doc: Document)

  /** One participant; all four fields are always present. */
  datatype Record = Record(rank: string, name: string, distance: string, kills: string)

  /** The first present choice of a prioritised list of selector results. */
  function FirstPresent<T>(choices: seq<Option<T>>): (r: Option<T>)
    ensures r.None? <==> forall i :: 0 <= i < |choices| ==> choices[i].None?
    ensures r.Some? ==> exists i :: 0 <= i < |choices| && choices[i] == r
                                    && forall j :: 0 <= j < i ==> choices[j].None?
  {
    if |choices| == 0 then None
    else if choices[0].Some? then choices[0]
    else
      var r := FirstPresent(choices[1..]);
      assert r.Some? ==> exists i :: 0 <= i < |choices| && choices[i] == r
                                     && forall j :: 0 <= j < i ==> choices[j].None? by {
        if r.Some? {
          var i :| 0 <= i < |choices| - 1 && choices[1..][i] == r
                   && forall j :: 0 <= j < i ==> choices[1..][j].None?;
          assert choices[i + 1] == r;
          assert forall j :: 0 <= j < i + 1 ==> choices[j].None? by {
            forall j | 0 <= j < i + 1 ensures choices[j].None? {
              if j > 0 { assert choices[j] == choices[1..][j - 1]; }
            }
          }
        }
      }
      r
  }

  /** The kill-count selectors in priority order: wide layout first, narrow layout second. */
  function KillsChoices(p: Plate): seq<Option<Element>> {
    [p.wideKills, p.narrowKills]
  }

  /** The name field: the stripped name text, or the sentinel. */
  function NameField(p: Plate): string {
    match p.name
    case Some(e) => GetStrippedText(e)
    case None => NotAvailable
  }

  /** The stripped texts of the level spans. */
  function LevelTexts(p: Plate): seq<string> {
    seq(|p.levels|, k requires 0 <= k < |p.levels| => GetStrippedText(p.levels[k]))
  }

  /** The distance field: the stripped span texts joined by single spaces, or the sentinel
      when the plate has no spans. */
  function DistanceField(p: Plate): string {
    if |p.levels| == 0 then NotAvailable else Join(' ', LevelTexts(p))
  }

  /** The kills field: the first kill element found, stripped, with its commas removed. */
  function KillsField(p: Plate): string {
    match FirstPresent(KillsChoices(p))
    case Some(e) => RemoveChar(GetStrippedText(e), ',')
    case None => NotAvailable
  }

  /** The record read from one plate that does not fault. Its name never starts or ends with
      whitespace and its kill count never holds a comma. */
  function PlateRecord(p: Plate): (r: Record)
    ensures Trimmed(r.name)
    ensures ',' !in r.kills
  {
    Record(p.rank.GetOr(NotAvailable), NameField(p), DistanceField(p), KillsField(p))
  }

  /** A prioritised pair of selectors yields the first one's element when it is there and
      the second one's otherwise. */
  lemma FirstPresentPair<T>(first: Option<T>, second: Option<T>)
    ensures FirstPresent([first, second]) == if first.Some? then first else second
  {
    assert [first, second][1..] == [second];
    assert [second][1..] == [];
  }

  /** Rank, name and distance are filled from their elements when present and with the
      sentinel otherwise; the name never starts or ends with whitespace. */
  lemma PlateFields(p: Plate)
    ensures var r := PlateRecord(p);
      && (p.rank.None? ==> r.rank == NotAvailable)
      && (p.rank.Some? ==> r.rank == p.rank.value)
      && (p.name.None? ==> r.name == NotAvailable)
      && (p.name.Some? ==> r.name == GetStrippedText(p.name.value))
      && Trimmed(r.name)
      && (|p.levels| == 0 ==> r.distance == NotAvailable)
      && (|p.levels| > 0 ==> r.distance == Join(' ', LevelTexts(p)))
  {
  }

  /** The kill count comes from the wide layout when it has the element, from the narrow
      layout otherwise, and is the sentinel when neither has it; it never holds a comma. */
  lemma KillsFallback(p: Plate)
    ensures var kills := PlateRecord(p).kills;
      && ',' !in kills
      && (p.wideKills.Some? ==> kills == RemoveChar(GetStrippedText(p.wideKills.value), ','))
      && (p.wideKills.None? && p.narrowKills.Some?
          ==> kills == RemoveChar(GetStrippedText(p.narrowKills.value), ','))
      && (p.wideKills.None? && p.narrowKills.None? ==> kills == NotAvailable)
  {
    FirstPresentPair(p.wideKills, p.narrowKills);
  }

  /** When no span text holds a space, the distance can be split back into the span texts. */
  lemma {:induction false} DistanceRoundTrip(p: Plate)
    requires |p.levels| > 0
    requires forall k :: 0 <= k < |p.levels| ==> ' ' !in GetStrippedText(p.levels[k])
    ensures Split(PlateRecord(p).distance, ' ') == LevelTexts(p)
  {
    SplitJoin(LevelTexts(p), ' ');
  }

  /** The number of plates that do not fault. */
  function KeptCount(plates: seq<Plate>): nat {
    if |plates| == 0 then 0 else (if plates[0].faulty then 0 else 1) + KeptCount(plates[1..])
  }

  /** The per-plate loop: one record per plate that does not fault, in document order. */
  function ExtractPlates(plates: seq<Plate>): (rs: seq<Record>)
    ensures |rs| == KeptCount(plates) <= |plates|
  {
    if |plates| == 0 then []
    else
      var rest := ExtractPlates(plates[1..]);
      if plates[0].faulty then rest else [PlateRecord(plates[0])] + rest
  }

  /** Python's `"No scores!" in no_scores.get_text()`, guarded by the banner existing. */
  predicate NoScores(doc: Document) {
    doc.banner.Some? && Contains(GetText(doc.banner.value), NoScoresPhrase)
  }

  /** `RaceParser.parse_race` after the fetch: `None` exactly on a page-level failure,
      `[]` when the site reports no scores (whatever plates the page holds), and otherwise
      the records of the plates that do not fault. */
  function ParseRace(resp: Response): (r: Option<seq<Record>>)
    ensures r.None? <==> !resp.Body?
    ensures resp.Body? && NoScores(resp.doc) ==> r == Some([])
    ensures resp.Body? && !NoScores(resp.doc)
            ==> r.Some? && |r.value| == KeptCount(resp.doc.plates) <= |resp.doc.plates|
  {
    match resp
    case TransportFault => None
    case Malformed => None
    case Body(doc) =>
      if NoScores(doc) then Some([]) else Some(ExtractPlates(doc.plates))
  }

  /** The plate loop distributes over concatenation: parsing two runs of plates is
      parsing each and appending, so the output keeps document order. */
  lemma {:induction false} ExtractConcat(a: seq<Plate>, b: seq<Plate>)
    ensures ExtractPlates(a + b) == ExtractPlates(a) + ExtractPlates(b)
  {
    if |a| > 0 {
      var ab := a + b;
      assert ab[0] == a[0] && ab[1..] == a[1..] + b;
      ExtractConcat(a[1..], b);
      var head := if a[0].faulty then [] else [PlateRecord(a[0])];
      assert ExtractPlates(ab) == head + ExtractPlates(a[1..] + b);
      assert ExtractPlates(a) == head + ExtractPlates(a[1..]);
    } else {
      assert a + b == b;
    }
  }

  /** A plate that faults is dropped and costs nothing else: its neighbours still yield
      exactly the records they would yield without it. */
  lemma {:induction false} SkipFaultyPlate(a: seq<Plate>, p: Plate, b: seq<Plate>)
    requires p.faulty
    ensures ExtractPlates(a + [p] + b) == ExtractPlates(a + b)
  {
    var ap := a + [p];
    assert ExtractPlates([p]) == [];
    ExtractConcat(a, [p]);
    assert ExtractPlates(ap) == ExtractPlates(a);
    ExtractConcat(ap, b);
    ExtractConcat(a, b);
  }

  /** The per-plate handler drops a plate exactly when reading it faults. */
  predicate Faulty(p: Plate) {
    p.faulty
  }

  /** The record of each plate, position by position. */
  function RecordsOf(plates: seq<Plate>): (rs: seq<Record>)
    ensures |rs| == |plates|
  {
    seq(|plates|, j requires 0 <= j < |plates| => PlateRecord(plates[j]))
  }

  /** The plate loop emits the records of the plates that do not fault. */
  lemma {:induction false} ExtractIsRecordsOfKept(plates: seq<Plate>)
    ensures ExtractPlates(plates) == RecordsOf(Kept(plates, Faulty))
  {
    if |plates| > 0 {
      ExtractIsRecordsOfKept(plates[1..]);
      var kept := Kept(plates[1..], Faulty);
      if !plates[0].faulty {
        assert RecordsOf([plates[0]] + kept) == [PlateRecord(plates[0])] + RecordsOf(kept);
      }
    }
  }

  /** Record `j` of a page comes from the `j`-th plate that does not fault: the plate loop
      neither reorders, duplicates nor invents records, and skips only faulty plates. */
  predicate ExtractedInOrder(plates: seq<Plate>) {
    var rs := ExtractPlates(plates);
    var pos := Positions(plates, Faulty);
    && |pos| == |rs|
    && (forall j :: 0 <= j < |pos| ==> pos[j] < |plates| && !plates[pos[j]].faulty
                                       && rs[j] == PlateRecord(plates[pos[j]]))
    && Ascending(pos)
    && Covers(plates, Faulty, pos)
  }

  /** Every page is read in document order, as `ExtractedInOrder` states. */
  lemma {:induction false} ExtractOrder(plates: seq<Plate>)
    ensures ExtractedInOrder(plates)
  {
    KeptTracesBack(plates, Faulty);
    ExtractIsRecordsOfKept(plates);
  }

  /** With no faulty plate, the page has exactly one record per plate, position by position. */
  lemma {:induction false} NoFaultsPointwise(plates: seq<Plate>)
    requires forall i :: 0 <= i < |plates| ==> !plates[i].faulty
    ensures |ExtractPlates(plates)| == |plates|
    ensures forall i :: 0 <= i < |plates| ==> ExtractPlates(plates)[i] == PlateRecord(plates[i])
  {
    ExtractIsRecordsOfKept(plates);
    KeptAll(plates, Faulty);
  }

}
