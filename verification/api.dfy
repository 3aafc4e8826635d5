/** The HTTP endpoint `POST /parse` (api/main.py): reading the race identifier from the request,
    then serving one page or every page of the race as a list of participants. */
module Api {
  import opened Common
  import opened Text
  import opened Locator
  import opened RaceParser
  import opened Pager

  /** The request body. A missing `page` defaults to `DefaultPage`; `debug` only switches the
      parser's progress messages on. */
  datatype RaceParams = RaceParams(
    raceType: string,
    year: string,
    identifier: string,
    page: Option<string>,
    debug: bool,
    allPages: bool)

  const DefaultPage: string := "1"
  const BadRequest: nat := 400
  const InternalError: nat := 500

  /** The page a single-page request asks for. */
  function PageParam(params: RaceParams): (page: string)
    ensures params.page.None? ==> page == DefaultPage
    ensures params.page.Some? ==> page == params.page.value
  {
    params.page.GetOr(DefaultPage)
  }

  /** Why an identifier was refused: a daily identifier without a slash, or a daily
      identifier that does not split into exactly a month and a day. */
  datatype IdentifierError = MissingSlash | NotTwoParts

  /** The answer to a request: a JSON list of participants (`null` when the parser gave
      `None`), or an HTTP error status. */
  datatype Reply = Json(body: Option<seq<Record>>) | HttpError(status: nat)

  /** The identifier handed to the parser. A daily race needs a `month/day` identifier split at
      its only slash; any other race takes the identifier as it is. */
  function RequestIdentifier(raceType: string, identifier: string): (r: Result<Identifier, IdentifierError>)
    ensures r.Ok? ==> Shaped(raceType, r.value)
    ensures r == Err(MissingSlash) <==> IsDaily(raceType) && '/' !in identifier
    ensures !IsDaily(raceType) ==> r == Ok(Week(identifier))
  {
    if IsDaily(raceType) && '/' !in identifier then Err(MissingSlash)
    else if IsDaily(raceType) then
      var parts := Split(identifier, '/');
      if |parts| != 2 then Err(NotTwoParts) else Ok(DayOf(parts[0], parts[1]))
    else Ok(Week(identifier))
  }

  /** A daily identifier is accepted exactly when it holds one slash, and then the month and
      the day are the text before and after it. */
  lemma DailyIdentifier(raceType: string, identifier: string)
    requires IsDaily(raceType)
    ensures RequestIdentifier(raceType, identifier).Ok? <==> Count(identifier, '/') == 1
    ensures RequestIdentifier(raceType, identifier).Ok? ==>
      var id := RequestIdentifier(raceType, identifier).value;
      && id.DayOf?
      && id.month + "/" + id.day == identifier
      && '/' !in id.month && '/' !in id.day
  {
    CountZero(identifier, '/');
    var parts := Split(identifier, '/');
    if |parts| == 2 {
      JoinSplit(identifier, '/');
      assert Join('/', parts) == parts[0] + ['/'] + parts[1];
    }
  }

  /** Every `month/day` pair without slashes comes back from its identifier unchanged. */
  lemma DailyIdentifierRoundTrip(raceType: string, month: string, day: string)
    requires IsDaily(raceType)
    requires '/' !in month && '/' !in day
    ensures RequestIdentifier(raceType, month + "/" + day) == Ok(DayOf(month, day))
  {
    var xs := [month, day];
    assert Join('/', xs) == month + "/" + day;
    SplitJoin(xs, '/');
    assert '/' in month + "/" + day by {
      assert (month + "/" + day)[|month|] == '/';
    }
  }

  /** The endpoint once the identifier was accepted: all-pages mode runs the same loop as the
      desktop form and answers with the records gathered; single-page mode answers with exactly
      what the parser gave for the requested page. */
  predicate Served(params: RaceParams, race: Race, site: Site, reply: Reply, requested: seq<string>)
    requires race.Valid()
  {
    if params.allPages then
      reply.Json? && reply.body.Some? && AllPagesRun(ParseAll(site), race, reply.body.value, requested)
    else
      && requested == [Address(race.raceType, race.year, race.id, PageParam(params))]
      && reply == Json(ParseRace(Fetch(site, requested[0])))
  }

  /** The race a request describes, once its identifier was accepted. */
  function RequestRace(params: RaceParams, id: Identifier): (race: Race)
    requires Shaped(params.raceType, id)
    ensures race.Valid()
  {
    Race(params.raceType, params.year, id)
  }

  /** The endpoint after its identifier was accepted. */
  method Serve(params: RaceParams, race: Race, site: Site) returns (reply: Reply, requested: seq<string>)
    requires race.Valid()
    ensures Served(params, race, site, reply, requested)
    ensures reply.Json? && |requested| >= 1
  {
    if params.allPages {
      var participants, total, pages;
      participants, total, pages, requested := FetchAllPages(ParseAll(site), race);
      reply := Json(Some(participants));
    } else {
      var url := Address(race.raceType, race.year, race.id, PageParam(params));
      requested := [url];
      reply := Json(ParseRace(Fetch(site, url)));
    }
  }

  /** `parse_race`, the `POST /parse` handler, as its code evidently intends it: a refused
      identifier answers 400 for a missing slash and 500 otherwise, and fetches nothing; an
      accepted one is served as `Served` describes. */
  method ParseEndpoint(params: RaceParams, site: Site) returns (reply: Reply, requested: seq<string>)
    ensures RequestIdentifier(params.raceType, params.identifier) == Err(MissingSlash)
            ==> reply == HttpError(BadRequest) && requested == []
    ensures RequestIdentifier(params.raceType, params.identifier) == Err(NotTwoParts)
            ==> reply == HttpError(InternalError) && requested == []
    ensures RequestIdentifier(params.raceType, params.identifier).Ok? ==>
      Served(params, RequestRace(params, RequestIdentifier(params.raceType, params.identifier).value),
             site, reply, requested)
  {
    var id := RequestIdentifier(params.raceType, params.identifier);
    if id.Err? {
      var status := if id.error == MissingSlash then BadRequest else InternalError;
      return HttpError(status), [];
    }
    reply, requested := Serve(params, RequestRace(params, id.value), site);
  }

  /** The fault raised by `await` on a value that is not awaitable. */
  datatype AwaitFault = NotAwaitable

  /** `await x` where `x` is what the synchronous parser returned: a list or `None`. In Python
      neither a list nor `None` defines `__await__`, so awaiting either raises `TypeError`. */
  function Await(x: Option<seq<Record>>): Result<Option<seq<Record>>, AwaitFault> {
    match x
    case None => Err(NotAwaitable)
    case Some(_) => Err(NotAwaitable)
  }

  /** `parse_race` as written, giving the reply and the addresses fetched. Every exception
      inside the handler, the 400 raised for a missing slash included, becomes a 500. The parser
      is called synchronously and its result is then awaited, which raises: the first page is
      fetched and the request fails. In all-pages mode the loop therefore never passes its
      first round. */
  function ParseEndpointAsWritten(params: RaceParams, site: Site): (out: (Reply, seq<string>))
    ensures RequestIdentifier(params.raceType, params.identifier).Err?
            ==> out == (HttpError(InternalError), [])
    ensures RequestIdentifier(params.raceType, params.identifier).Ok? ==>
      var race := RequestRace(params, RequestIdentifier(params.raceType, params.identifier).value);
      && out.0 == HttpError(InternalError)
      && out.1 == [Address(race.raceType, race.year, race.id,
                           if params.allPages then Decimal(1) else PageParam(params))]
  {
    var id := RequestIdentifier(params.raceType, params.identifier);
    if id.Err? then (HttpError(InternalError), [])
    else
      var race := RequestRace(params, id.value);
      var page := if params.allPages then Decimal(1) else PageParam(params);
      var url := Address(race.raceType, race.year, race.id, page);
      match Await(ParseRace(Fetch(site, url)))
      case Err(_) => (HttpError(InternalError), [url])
      case Ok(participants) => (Json(participants), [url])
  }

  /** A daily request whose identifier has no slash: the handler means to answer 400, and the
      client receives 500. */
  lemma MissingSlashAnswers500(site: Site)
    ensures RequestIdentifier("daily", "0101") == Err(MissingSlash)
    ensures ParseEndpointAsWritten(RaceParams("daily", "2024", "0101", None, false, false), site).0
            == HttpError(InternalError)
  {
    assert "daily" == "daily";
    assert '/' !in "0101";
  }

  /** A weekly request for a page the site serves with participants: the parser succeeds and
      the client still receives 500. */
  lemma ServedPageAnswers500(site: Site, year: string, week: string, page: string)
    requires ParseRace(Fetch(site, Address("weekly", year, Week(week), page))).Some?
    ensures ParseEndpointAsWritten(RaceParams("weekly", year, week, Some(page), false, false), site).0
            == HttpError(InternalError)
  {
    assert !IsDaily("weekly");
  }
}
