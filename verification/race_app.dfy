/** The desktop form's request logic (race_app.py): checking the fields, choosing between one
    page and all pages, keeping the loaded participants, and filtering them by name. */
module RaceApp {
  import opened Common
  import opened Text
  import opened Selection
  import opened Locator
  import opened RaceParser
  import opened Pager

  /** The raw contents of the form's fields. */
  datatype Form = Form(
    raceType: string,
    year: string,
    month: string,
    day: string,
    week: string,
    page: string,
    allPages: bool)

  /** The warning popups that abort a load. */
  datatype Warning = YearRequired | DayRequired | WeekRequired | PageRequired

  /** The status line after a load that was not aborted. */
  datatype Status = AllPagesLoaded(total: nat, pages: nat) | PageLoaded(count: nat) | NoParticipants

  /** How a load ends: with a warning, or with the table and status line updated. */
  datatype LoadResult = Warned(warning: Warning) | Shown(status: Status)

  /** The race the form describes. The year is required first; a daily race then needs both
      month and day, any other race a week. Every field is stripped before use. */
  function FormRace(form: Form): (r: Result<Race, Warning>)
    ensures Strip(form.year) == [] <==> r == Err(YearRequired)
    ensures Strip(form.year) != [] && IsDaily(form.raceType)
            ==> (r == Err(DayRequired) <==> Strip(form.month) == [] || Strip(form.day) == [])
    ensures Strip(form.year) != [] && !IsDaily(form.raceType)
            ==> (r == Err(WeekRequired) <==> Strip(form.week) == [])
    ensures r.Ok? ==> r.value.Valid() && r.value.raceType == form.raceType
                      && r.value.year == Strip(form.year) && r.value.year != []
    ensures r.Ok? && IsDaily(form.raceType)
            ==> r.value.id == DayOf(Strip(form.month), Strip(form.day))
                && r.value.id.month != [] && r.value.id.day != []
    ensures r.Ok? && !IsDaily(form.raceType) ==> r.value.id == Week(Strip(form.week)) && r.value.id.week != []
  {
    var year := Strip(form.year);
    if year == [] then Err(YearRequired)
    else if IsDaily(form.raceType) then
      var month := Strip(form.month);
      var day := Strip(form.day);
      if month == [] || day == [] then Err(DayRequired)
      else Ok(Race(form.raceType, year, DayOf(month, day)))
    else
      var week := Strip(form.week);
      if week == [] then Err(WeekRequired)
      else Ok(Race(form.raceType, year, Week(week)))
  }

  /** The status line once the participants are known: an empty table reports that no
      participant was found, whatever the mode. */
  function FinalStatus(form: Form, participants: seq<Record>, pages: nat): (s: Status)
    ensures s == NoParticipants <==> |participants| == 0
    ensures s.AllPagesLoaded? <==> form.allPages && |participants| > 0
    ensures s.AllPagesLoaded? ==> s.total == |participants| && s.pages == pages
    ensures s.PageLoaded? ==> s.count == |participants|
  {
    if |participants| == 0 then NoParticipants
    else if form.allPages then AllPagesLoaded(|participants|, pages)
    else PageLoaded(|participants|)
  }

  /** The single-page branch of `RaceApp.load_data`. */
  method LoadOnePage(site: Site, race: Race, page: string)
    returns (participants: seq<Record>, requested: seq<string>)
    requires race.Valid()
    ensures OnePageRun(site, race, page, participants, requested)
    ensures |requested| == 1 && requested[0][..|BaseUrl| + 1] == BaseUrl + "/"
  {
    var url := Address(race.raceType, race.year, race.id, page);
    requested := [url];
    participants := [];
    var parsed := ParseRace(Fetch(site, url));
    if parsed.Some? {
      participants := parsed.value;
    }
  }

  /** What `RaceApp.load_data` does once the form names a valid `race`. In all-pages mode the
      page field is ignored and the pages are fetched from 1 until the first page that fails or
      is empty; the participants become the records of the pages before it. In single-page mode
      an empty page field warns and leaves the participants cleared; otherwise exactly the
      stripped page is fetched and its records replace the participants. */
  predicate RaceLoaded(form: Form, race: Race, site: Site,
                       participants: seq<Record>, requested: seq<string>, result: LoadResult)
    requires race.Valid()
  {
    if form.allPages then
      && AllPagesRun(ParseAll(site), race, participants, requested)
      && result == Shown(FinalStatus(form, participants, |requested| - 1))
    else if Strip(form.page) == [] then
      result == Warned(PageRequired) && participants == [] && requested == []
    else
      && OnePageRun(site, race, Strip(form.page), participants, requested)
      && result == Shown(FinalStatus(form, participants, 1))
  }

  /** The part of `RaceApp.load_data` after the race fields were accepted. */
  method LoadRace(form: Form, race: Race, site: Site)
    returns (participants: seq<Record>, requested: seq<string>, result: LoadResult)
    requires race.Valid()
    ensures RaceLoaded(form, race, site, participants, requested, result)
    ensures result.Shown? <==> form.allPages || Strip(form.page) != []
    ensures result.Shown? ==> |requested| >= 1
  {
    if form.allPages {
      var total, pages;
      participants, total, pages, requested := FetchAllPages(ParseAll(site), race);
      result := Shown(FinalStatus(form, participants, pages));
    } else {
      var page := Strip(form.page);
      if page == [] {
        return [], [], Warned(PageRequired);
      }
      participants, requested := LoadOnePage(site, race, page);
      result := Shown(FinalStatus(form, participants, 1));
    }
  }

  /** `RaceApp.load_data`. A warning about a missing race field leaves the participants as
      they were and fetches nothing; otherwise the participants are cleared and the race is
      loaded as `RaceLoaded` describes. */
  method LoadData(form: Form, data: seq<Record>, site: Site)
    returns (participants: seq<Record>, requested: seq<string>, result: LoadResult)
    ensures FormRace(form).Err? ==> result == Warned(FormRace(form).error) && participants == data && requested == []
    ensures FormRace(form).Ok? ==> RaceLoaded(form, FormRace(form).value, site, participants, requested, result)
  {
    var formRace := FormRace(form);
    if formRace.Err? {
      return data, [], Warned(formRace.error);
    }
    participants, requested, result := LoadRace(form, formRace.value, site);
  }

  /** A participant matches a query when its lower-cased name contains the query. */
  predicate Matches(query: string, r: Record) {
    Contains(Lower(r.name), query)
  }

  /** The search rejects a participant that does not match the query. */
  function Misses(query: string): Record -> bool {
    (r: Record) => !Matches(query, r)
  }

  /** `RaceApp.search_participant`: the query is lower-cased and stripped; an empty query shows
      every participant, any other the participants whose lower-cased name contains it. */
  function Search(rawQuery: string, data: seq<Record>): (shown: seq<Record>)
    ensures Strip(Lower(rawQuery)) == [] ==> shown == data
    ensures |shown| <= |data|
  {
    var query := Strip(Lower(rawQuery));
    if query == [] then data else Kept(data, Misses(query))
  }

  /** A non-empty query shows the participants that match it, and only those. */
  lemma {:induction false} SearchMatches(rawQuery: string, data: seq<Record>)
    requires Strip(Lower(rawQuery)) != []
    ensures forall r :: r in Search(rawQuery, data) ==> r in data && Matches(Strip(Lower(rawQuery)), r)
    ensures forall i :: 0 <= i < |data| && Matches(Strip(Lower(rawQuery)), data[i])
                        ==> data[i] in Search(rawQuery, data)
  {
    var query := Strip(Lower(rawQuery));
    var shown := Search(rawQuery, data);
    var pos := Positions(data, Misses(query));
    KeptTracesBack(data, Misses(query));
    forall i | 0 <= i < |data| && Matches(query, data[i])
      ensures data[i] in shown
    {
      assert !Misses(query)(data[i]);
      var j :| 0 <= j < |pos| && pos[j] == i;
      assert shown[j] == data[i];
    }
  }

  /** The search keeps the table's order: the shown participants sit at strictly ascending
      positions of the table, and every matching participant's position is among them. */
  predicate ShownInOrder(rawQuery: string, data: seq<Record>)
    requires Strip(Lower(rawQuery)) != []
  {
    var query := Strip(Lower(rawQuery));
    TracesBack(data, Misses(query), Search(rawQuery, data), Positions(data, Misses(query)))
  }

  /** Every non-empty query's result is in table order, as `ShownInOrder` states. */
  lemma {:induction false} SearchKeepsOrder(rawQuery: string, data: seq<Record>)
    requires Strip(Lower(rawQuery)) != []
    ensures ShownInOrder(rawQuery, data)
  {
    KeptTracesBack(data, Misses(Strip(Lower(rawQuery))));
  }

  /** Searching a table made of two parts shows the matches of the first part, then those of
      the second. */
  lemma SearchConcat(rawQuery: string, a: seq<Record>, b: seq<Record>)
    ensures Strip(Lower(rawQuery)) != [] ==>
      Search(rawQuery, a + b) == Search(rawQuery, a) + Search(rawQuery, b)
  {
    KeptConcat(a, b, Misses(Strip(Lower(rawQuery))));
  }

  /** The case of the query does not matter. */
  lemma SearchCaseInsensitive(rawQuery: string, data: seq<Record>)
    ensures Search(Lower(rawQuery), data) == Search(rawQuery, data)
  {
    LowerIdempotent(rawQuery);
  }
}
