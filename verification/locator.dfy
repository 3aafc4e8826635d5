/** The request target for one leaderboard page (race_parser.py, the URL f-strings). */
module Locator {
  import opened Text

  /** The site every page is fetched from. */
  const BaseUrl: string := "https://beta.thronebutt.com"

  /** The race instance within a year: a calendar day for daily races, a week number otherwise. */
  datatype Identifier = DayOf(month: string, day: string) | Week(week: string)

  /** Only the exact string "daily" selects the daily address form; every other race type is weekly. */
  predicate IsDaily(raceType: string) {
    raceType == "daily"
  }

  /** Both callers pass a (month, day) pair exactly for daily races and a single token otherwise. */
  predicate Shaped(raceType: string, id: Identifier) {
    IsDaily(raceType) <==> id.DayOf?
  }

  /** The path segments after the site root. */
  function Segments(raceType: string, year: string, id: Identifier, page: string): seq<string>
    requires Shaped(raceType, id)
  {
    if IsDaily(raceType) then ["daily", year, id.month, id.day, page]
    else ["weekly", year, id.week, page]
  }

  /** The page address: the site root followed by the slash-separated segments. */
  function Address(raceType: string, year: string, id: Identifier, page: string): (url: string)
    requires Shaped(raceType, id)
    ensures |url| > |BaseUrl| + 1 && url[..|BaseUrl| + 1] == BaseUrl + "/"
  {
    BaseUrl + "/" + Join('/', Segments(raceType, year, id, page))
  }

  /** No character of any free segment is a slash. */
  predicate SlashFree(year: string, id: Identifier, page: string) {
    && '/' !in year && '/' !in page
    && match id
       case DayOf(m, d) => '/' !in m && '/' !in d
       case Week(w) => '/' !in w
  }

  /** Moving one joined segment from the rest of the path onto the part already written. */
  lemma Regroup(done: string, segment: string, rest: string)
    ensures done + (segment + "/" + rest) == done + segment + "/" + rest
  {
  }

  /** A daily address is `BASE_URL/daily/{year}/{month}/{day}/{page}`. */
  lemma DailyAddress(year: string, month: string, day: string, page: string)
    ensures Address("daily", year, DayOf(month, day), page)
            == BaseUrl + "/daily/" + year + "/" + month + "/" + day + "/" + page
  {
    var segs := ["daily", year, month, day, page];
    assert Join('/', segs[4..]) == page;
    assert Join('/', segs[3..]) == day + "/" + page;
    assert Join('/', segs[2..]) == month + "/" + Join('/', segs[3..]);
    assert Join('/', segs[1..]) == year + "/" + Join('/', segs[2..]);
    assert Join('/', segs) == "daily" + "/" + Join('/', segs[1..]);
    Regroup(BaseUrl + "/", "daily", Join('/', segs[1..]));
    assert BaseUrl + "/" + "daily" + "/" == BaseUrl + "/daily/";
    Regroup(BaseUrl + "/daily/", year, Join('/', segs[2..]));
    Regroup(BaseUrl + "/daily/" + year + "/", month, Join('/', segs[3..]));
    Regroup(BaseUrl + "/daily/" + year + "/" + month + "/", day, page);
  }

  /** Any other race type gives `BASE_URL/weekly/{year}/{week}/{page}`. */
  lemma WeeklyAddress(raceType: string, year: string, week: string, page: string)
    requires !IsDaily(raceType)
    ensures Address(raceType, year, Week(week), page)
            == BaseUrl + "/weekly/" + year + "/" + week + "/" + page
  {
    var segs := ["weekly", year, week, page];
    assert Join('/', segs[3..]) == page;
    assert Join('/', segs[2..]) == week + "/" + page;
    assert Join('/', segs[1..]) == year + "/" + Join('/', segs[2..]);
    assert Join('/', segs) == "weekly" + "/" + Join('/', segs[1..]);
    Regroup(BaseUrl + "/", "weekly", Join('/', segs[1..]));
    assert BaseUrl + "/" + "weekly" + "/" == BaseUrl + "/weekly/";
    Regroup(BaseUrl + "/weekly/", year, Join('/', segs[2..]));
    Regroup(BaseUrl + "/weekly/" + year + "/", week, page);
  }

  /** The address is exactly the root plus a prefix fixed by the race, followed by the page. */
  lemma AddressEndsWithPage(raceType: string, year: string, id: Identifier, page: string)
    requires Shaped(raceType, id)
    ensures Address(raceType, year, id, page) == Address(raceType, year, id, []) + page
  {
    if IsDaily(raceType) {
      DailyAddress(year, id.month, id.day, page);
      DailyAddress(year, id.month, id.day, []);
    } else {
      WeeklyAddress(raceType, year, id.week, page);
      WeeklyAddress(raceType, year, id.week, []);
    }
  }

  /** Within one race, different pages have different addresses. */
  lemma PageInjective(raceType: string, year: string, id: Identifier, p: string, q: string)
    requires Shaped(raceType, id)
    requires Address(raceType, year, id, p) == Address(raceType, year, id, q)
    ensures p == q
  {
    var prefix := Address(raceType, year, id, []);
    AddressEndsWithPage(raceType, year, id, p);
    AddressEndsWithPage(raceType, year, id, q);
    assert p == (prefix + p)[|prefix|..];
    assert q == (prefix + q)[|prefix|..];
  }

  /** The address can be read back: splitting the path after the root on '/' recovers the
      race type, year, identifier parts and page, provided none of them holds a slash. */
  lemma AddressRoundTrip(raceType: string, year: string, id: Identifier, page: string)
    requires Shaped(raceType, id)
    requires SlashFree(year, id, page)
    ensures Split(Address(raceType, year, id, page)[|BaseUrl| + 1..], '/')
            == Segments(raceType, year, id, page)
  {
    var segs := Segments(raceType, year, id, page);
    var url := Address(raceType, year, id, page);
    assert url[|BaseUrl| + 1..] == Join('/', segs);
    SplitJoin(segs, '/');
  }
}
