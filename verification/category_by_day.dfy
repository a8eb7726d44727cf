/** The category-by-day page (src/js/page-category-by-day.js): which URL the
    list is fetched from, and how the fetched week of services is reordered
    before it is rendered.

    The clock (`new Date().getDay()`) and the browser's geolocation answer are
    parameters; the fetch, the templates and the DOM are not modelled. */
module CategoryByDay {
  import opened JsValues
  import opened Lodash

  datatype OpeningTimes = OpeningTimes(startTime: string, endTime: string)

  datatype Provider = Provider(providerName: string, openingTimes: OpeningTimes)

  /** One day of the API's week (Monday first) with the providers open on it. */
  datatype Day = Day(name: string, serviceProviders: seq<Provider>)

  // ---------------------------------------------------------------------------
  // sortDaysFromToday

  /** `sortDaysFromToday`: `weekday` is `getDay()` (0 for Sunday), so `today`
      is the API's index of the current day, except on Sunday where it is -1,
      which `_.slice` reads as "the last day". */
  function SortDaysFromToday<T>(days: seq<T>, weekday: int): (r: seq<T>)
    ensures |r| == |days| && multiset(r) == multiset(days)
  {
    var today := weekday - 1;
    var past := Slice(days, 0, Some(today));
    var todayToTail := Slice(days, today, None);
    assert |todayToTail + past| == |days| && multiset(todayToTail + past) == multiset(days) by {
      SliceRotation(days, today);
      var j :| 0 <= j <= |days| && todayToTail + past == days[j..] + days[..j];
      assert days == days[..j] + days[j..];
    }
    todayToTail + past
  }

  /** `r` is `days` turned so that it starts at index `j`. */
  ghost predicate RotationOf<T>(r: seq<T>, days: seq<T>, j: int) {
    0 <= j <= |days| && r == days[j..] + days[..j]
  }

  /** A rotation has the same elements, and the element at `i` is the one
      `i` places after the start, counting round the end. */
  lemma RotationElements<T>(r: seq<T>, days: seq<T>, j: int)
    requires RotationOf(r, days, j)
    ensures |r| == |days| && multiset(r) == multiset(days)
    ensures forall i :: 0 <= i < |r| ==>
              r[i] == if j + i < |days| then days[j + i] else days[j + i - |days|]
  {
    assert days == days[..j] + days[j..];
    assert multiset(r) == multiset(days[j..]) + multiset(days[..j]);
  }

  /** Whatever the weekday, the result is a rotation of the week. */
  lemma SortDaysFromTodayIsRotation<T>(days: seq<T>, weekday: int)
    ensures exists j :: RotationOf(SortDaysFromToday(days, weekday), days, j)
  {
    SliceRotation(days, weekday - 1);
    var j :| 0 <= j <= |days|
             && Slice(days, weekday - 1, None) + Slice(days, 0, Some(weekday - 1)) == days[j..] + days[..j];
    assert RotationOf(SortDaysFromToday(days, weekday), days, j);
  }

  /** From Monday on (`today` from 0 up to the number of days) the week is
      turned to start at `today`; on Monday nothing moves. */
  lemma SortDaysFromTodayWeekday<T>(days: seq<T>, weekday: int)
    requires 1 <= weekday <= |days| + 1
    ensures SortDaysFromToday(days, weekday) == days[weekday - 1..] + days[..weekday - 1]
    ensures weekday == 1 ==> SortDaysFromToday(days, weekday) == days
    ensures weekday - 1 < |days| ==> SortDaysFromToday(days, weekday)[0] == days[weekday - 1]
  {
    if days == [] {
      assert SortDaysFromToday(days, weekday) == [];
    }
  }

  /** On Sunday `today` is -1: the last day comes first, then the others in
      order. */
  lemma SortDaysFromTodaySunday<T>(days: seq<T>)
    requires |days| > 0
    ensures SortDaysFromToday(days, 0) == [days[|days| - 1]] + days[..|days| - 1]
  {
    assert days[|days| - 1..] == [days[|days| - 1]];
  }

  /** Reducing a count of days below three weeks to a day of the week. */
  lemma WeekWrap(a: int)
    requires 0 <= a < 21
    ensures a % 7 == if a < 7 then a else if a < 14 then a - 7 else a - 14
  {
  }

  /** For a full seven-day week the day shown at position `i` is the API day
      `i` days after today, Monday being the API's day 0. */
  lemma SortDaysFromTodayWeek<T>(days: seq<T>, weekday: int)
    requires |days| == 7 && 0 <= weekday <= 6
    ensures |SortDaysFromToday(days, weekday)| == 7
    ensures forall i :: 0 <= i < 7 ==> SortDaysFromToday(days, weekday)[i] == days[(weekday + 6 + i) % 7]
  {
    var r := SortDaysFromToday(days, weekday);
    var j := if weekday == 0 then 6 else weekday - 1;
    if weekday == 0 {
      SortDaysFromTodaySunday(days);
      assert days[6..] == [days[6]];
    } else {
      SortDaysFromTodayWeekday(days, weekday);
    }
    assert RotationOf(r, days, j);
    RotationElements(r, days, j);
    forall i | 0 <= i < 7
      ensures r[i] == days[(weekday + 6 + i) % 7]
    {
      var k := if j + i < 7 then j + i else j + i - 7;
      assert r[i] == days[k];
      WeekWrap(weekday + 6 + i);
      assert (weekday + 6 + i) % 7 == k;
    }
  }

  // ---------------------------------------------------------------------------
  // sortByOpeningTimes

  /** The sort key: `provider.openingTimes.startTime`. */
  function StartTime(p: Provider): string {
    p.openingTimes.startTime
  }

  /** Providers in the order `_.sortBy` by start time leaves them: a stable,
      ascending rearrangement. */
  ghost predicate SortedByStartTime(r: seq<Provider>, providers: seq<Provider>) {
    && multiset(r) == multiset(providers)
    && SortedBy(r, StartTime)
    && StableFor(r, providers, StartTime)
  }

  /** `sortByOpeningTimes`: every day's providers sorted by start time. */
  function SortByOpeningTimes(days: seq<Day>): (r: seq<Day>)
    ensures |r| == |days|
    ensures forall i :: 0 <= i < |days| ==>
              r[i].name == days[i].name
              && SortedByStartTime(r[i].serviceProviders, days[i].serviceProviders)
  {
    seq(|days|, i requires 0 <= i < |days| =>
      days[i].(serviceProviders := SortBy(days[i].serviceProviders, StartTime)))
  }

  /** The sorted providers of a day are the only stable ascending order of
      them, and sorting an already sorted week changes nothing. */
  lemma SortByOpeningTimesIdempotent(days: seq<Day>)
    ensures SortByOpeningTimes(SortByOpeningTimes(days)) == SortByOpeningTimes(days)
  {
    var once := SortByOpeningTimes(days);
    var twice := SortByOpeningTimes(once);
    forall i | 0 <= i < |days|
      ensures twice[i] == once[i]
    {
      var ps := once[i].serviceProviders;
      SortByIsTheStableSort(ps, ps, StartTime);
    }
  }

  /** Any sorted, stable rearrangement of a day's providers is the one the page
      shows. */
  lemma SortByOpeningTimesUnique(days: seq<Day>, i: int, ps: seq<Provider>)
    requires 0 <= i < |days|
    requires SortedBy(ps, StartTime) && StableFor(ps, days[i].serviceProviders, StartTime)
    ensures SortByOpeningTimes(days)[i].serviceProviders == ps
  {
    SortByIsTheStableSort(days[i].serviceProviders, ps, StartTime);
  }

  // ---------------------------------------------------------------------------
  // buildList

  const ResultTemplate: string := "js-category-result-tpl"
  const NoResultsTemplate: string := "js-category-no-results-result-tpl"

  /** What `buildList` renders: the template and the `organisations` data. */
  datatype Listing = Listing(template: string, daysServices: seq<Day>)

  /** The part of `buildList` after the fetch: a non-empty week is turned to
      start today and each day's providers sorted; an empty one selects the
      no-results template and is passed on as it came. */
  function BuildList(daysServices: seq<Day>, weekday: int): (r: Listing)
    ensures r.template == ResultTemplate || r.template == NoResultsTemplate
  {
    if |daysServices| > 0 then
      Listing(ResultTemplate, SortByOpeningTimes(SortDaysFromToday(daysServices, weekday)))
    else
      Listing(NoResultsTemplate, daysServices)
  }

  /** `buildList` on the response's `daysServices`, which may be missing
      (`None`): reading `.length` of `undefined` throws, and otherwise the
      listing is `BuildList`'s. */
  function BuildListFromResponse(daysServices: Option<seq<Day>>, weekday: int): (r: Result<Listing>)
    ensures r.TypeError? <==> daysServices.None?
    ensures r.Success? ==> r.value == BuildList(daysServices.value, weekday)
  {
    match daysServices
    case None => TypeError("Cannot read property 'length' of undefined")
    case Some(days) => Success(BuildList(days, weekday))
  }

  /** The two templates are told apart by the emptiness of the week, and the
      no-results listing carries the data unchanged. */
  lemma BuildListTemplates(daysServices: seq<Day>, weekday: int)
    ensures var r := BuildList(daysServices, weekday);
      && (r.template == ResultTemplate <==> |daysServices| > 0)
      && (r.template == NoResultsTemplate <==> |daysServices| == 0)
      && (|daysServices| == 0 ==> r.daysServices == daysServices)
  {
    assert ResultTemplate != NoResultsTemplate by {
      assert |ResultTemplate| != |NoResultsTemplate|;
    }
  }

  /** A non-empty week is shown in full, turned to start at some day and
      wrapping round, each day with its own providers sorted stably by start
      time. */
  lemma BuildListShowsTurnedWeek(daysServices: seq<Day>, weekday: int)
    requires |daysServices| > 0
    ensures exists j :: 0 <= j <= |daysServices| &&
              BuildList(daysServices, weekday).daysServices
              == SortByOpeningTimes(daysServices[j..] + daysServices[..j])
  {
    SortDaysFromTodayIsRotation(daysServices, weekday);
    var j :| RotationOf(SortDaysFromToday(daysServices, weekday), daysServices, j);
    assert BuildList(daysServices, weekday).daysServices
           == SortByOpeningTimes(daysServices[j..] + daysServices[..j]);
  }

  // ---------------------------------------------------------------------------
  // Choosing the list URL (lines 49-74)

  /** A coordinate as the page prints it into a URL. */
  datatype Coordinate = Coordinate(latitude: string, longitude: string)

  datatype NamedLocation = NamedLocation(key: string, name: string, coordinate: Coordinate)

  /** The fixed table of named locations. */
  const Locations: seq<NamedLocation> := [
    NamedLocation("manchester", "Manchester", Coordinate("53.4792777155671", "-2.24455696347558")),
    NamedLocation("leeds", "Leeds", Coordinate("53.7954906003838", "-1.54511238485298"))]

  /** `find(table, (loc) => loc.key === key)`. */
  function LocationWithKey(table: seq<NamedLocation>, key: string): (r: Option<NamedLocation>)
    ensures r.None? <==> forall i :: 0 <= i < |table| ==> table[i].key != key
    ensures r.Some? ==> r.value in table && r.value.key == key
  {
    if table == [] then None
    else if table[0].key == key then Some(table[0])
    else
      var r := LocationWithKey(table[1..], key);
      assert forall i :: 1 <= i < |table| ==> table[i] == table[1..][i - 1];
      r
  }

  /** `requestedLocation`: looked up only when the `location` parameter is
      non-empty, and otherwise left `undefined`. */
  function RequestedLocation(location: string): (r: Option<NamedLocation>)
    ensures r.Some? ==> r.value in Locations && r.value.key == location
    ensures r.None? <==> location != "manchester" && location != "leeds"
  {
    if |location| > 0 then LocationWithKey(Locations, location) else None
  }

  /** `categoryUrl + '/long/' + longitude + '/lat/' + latitude`. */
  function LocatedUrl(categoryUrl: string, c: Coordinate): string {
    categoryUrl + "/long/" + c.longitude + "/lat/" + c.latitude
  }

  /** What the browser's geolocation request ends in. */
  datatype GeoOutcome = Resolved(position: Coordinate) | Failed

  /** The URL `buildList` is called with, and whether the browser was asked
      for its position on the way. */
  datatype ListRequest = ListRequest(url: string, askedDevice: bool)

  /** Lines 49-74 as written. `find` yields a location or `undefined`, never
      `false`, so `requestedLocation !== false` always holds and the first
      branch is always taken: reading `.latitude` of `undefined` throws when
      the parameter is empty or names no known place, and the geolocation and
      plain branches are never reached. */
  function ChooseListUrlAsWritten(categoryUrl: string, location: string, geolocationAvailable: bool,
                                  outcome: GeoOutcome): (r: Result<ListRequest>)
    ensures r.Success? ==> !r.value.askedDevice
  {
    match RequestedLocation(location)
    case None => TypeError("Cannot read property 'latitude' of undefined")
    case Some(loc) => Success(ListRequest(LocatedUrl(categoryUrl, loc.coordinate), false))
  }

  /** As written, the page fails unless the parameter names a known place,
      whatever the browser could have told it. */
  lemma AsWrittenFailsWithoutNamedLocation(categoryUrl: string, location: string,
                                           geolocationAvailable: bool, outcome: GeoOutcome)
    ensures ChooseListUrlAsWritten(categoryUrl, location, geolocationAvailable, outcome).TypeError?
            <==> location != "manchester" && location != "leeds"
  {
  }

  /** A page opened without a `location` parameter on a browser with
      geolocation: the list is never requested. */
  lemma AsWrittenCounterexample(categoryUrl: string, position: Coordinate)
    ensures ChooseListUrlAsWritten(categoryUrl, "", true, Resolved(position)).TypeError?
  {
  }

  /** The branch as evidently intended: a known place is used directly; else
      the browser is asked when it can be, falling back to the plain category
      URL when it cannot answer; else the plain category URL. */
  function ChooseListUrl(categoryUrl: string, location: string, geolocationAvailable: bool,
                         outcome: GeoOutcome): (r: ListRequest)
    ensures r.askedDevice ==> geolocationAvailable
    ensures r.url == categoryUrl || exists c :: r.url == LocatedUrl(categoryUrl, c)
  {
    match RequestedLocation(location)
    case Some(loc) => ListRequest(LocatedUrl(categoryUrl, loc.coordinate), false)
    case None =>
      if !geolocationAvailable then ListRequest(categoryUrl, false)
      else
        match outcome
        case Resolved(position) => ListRequest(LocatedUrl(categoryUrl, position), true)
        case Failed => ListRequest(categoryUrl, true)
  }

  /** A known place bypasses the browser and puts that place's fixed
      coordinate in the URL. */
  lemma KnownLocationSkipsDevice(categoryUrl: string, location: string, geolocationAvailable: bool,
                                 outcome: GeoOutcome)
    requires location == "manchester" || location == "leeds"
    ensures var req := ChooseListUrl(categoryUrl, location, geolocationAvailable, outcome);
      && !req.askedDevice
      && exists loc :: loc in Locations && loc.key == location
                       && req.url == LocatedUrl(categoryUrl, loc.coordinate)
  {
  }

  /** Without a known place the browser is asked exactly when it has
      geolocation; the fetched URL carries coordinates exactly when the
      browser answered, and otherwise is the plain category URL. */
  lemma UnknownLocationUsesDevice(categoryUrl: string, location: string, geolocationAvailable: bool,
                                  outcome: GeoOutcome)
    requires location != "manchester" && location != "leeds"
    ensures var req := ChooseListUrl(categoryUrl, location, geolocationAvailable, outcome);
      && (req.askedDevice <==> geolocationAvailable)
      && (geolocationAvailable && outcome.Resolved? ==> req.url == LocatedUrl(categoryUrl, outcome.position))
      && (!geolocationAvailable || outcome.Failed? ==> req.url == categoryUrl)
  {
  }

  /** Wherever the code as written gets through, the corrected choice is the
      same; the correction only changes the cases that threw. */
  lemma ChooseListUrlAgrees(categoryUrl: string, location: string, geolocationAvailable: bool,
                            outcome: GeoOutcome)
    ensures ChooseListUrlAsWritten(categoryUrl, location, geolocationAvailable, outcome).Success? ==>
            ChooseListUrlAsWritten(categoryUrl, location, geolocationAvailable, outcome).value
            == ChooseListUrl(categoryUrl, location, geolocationAvailable, outcome)
  {
  }
}
