/**
 * The visit tracker of the rango views: the session lookup with a fallback for falsy values, the
 * cookie handler that decides the session's `visits` and `last_visit` entries, and the two page
 * handlers that hand the fresh `visits` to their templates.
 */
module Views {
  import opened Results
  import opened Numerals
  import opened Timestamps

  /** The values a session or a template context holds here, with Python's truthiness. */
  datatype Value = Null | Bool(b: bool) | Int(i: int) | Str(s: string) | List(items: seq<Value>)

  /** Python's `bool(v)`: None, False, 0, the empty string and the empty list are falsy. */
  predicate Truthy(v: Value) {
    match v
    case Null => false
    case Bool(b) => b
    case Int(i) => i != 0
    case Str(s) => |s| > 0
    case List(items) => |items| > 0
  }

  /**
   * `get_server_side_cookie`: the session's value for `cookie`, unless it is missing or falsy,
   * in which case `defaultVal`.
   */
  function GetServerSideCookie(session: map<string, Value>, cookie: string, defaultVal: Value): (val: Value)
    ensures cookie in session && Truthy(session[cookie]) ==> val == session[cookie]
    ensures cookie !in session || !Truthy(session[cookie]) ==> val == defaultVal
    ensures Truthy(defaultVal) ==> Truthy(val)
  {
    var stored := if cookie in session then session[cookie] else Null;
    if !Truthy(stored) then defaultVal else stored
  }

  const VisitsKey := "visits"
  const LastVisitKey := "last_visit"
  const AboutMessage := "This tutorial has been put together by Ruairidh Macgregor."

  /**
   * The three readings of the wall clock one call of the handler takes, in order: the default for a
   * missing `last_visit` cookie, the one the cookie's time is compared with, and the one stored on a
   * later day.
   */
  datatype Clock = Clock(atDefault: DateTime, atCompare: DateTime, atStore: DateTime)

  predicate ValidClock(clock: Clock) {
    Valid(clock.atDefault) && Valid(clock.atCompare) && Valid(clock.atStore)
  }

  /** Why the handler raises: `int()` refused the `visits` cookie, or `strptime` refused the time. */
  datatype HandlerError = BadVisitsCookie | BadTimestamp

  /** The two session entries one visit writes. */
  datatype Visit = Visit(visits: int, lastVisit: string)

  /** The `visits` cookie text, `"1"` when there is none. */
  function VisitsText(cookies: map<string, string>): string {
    if VisitsKey in cookies then cookies[VisitsKey] else "1"
  }

  /** The `last_visit` cookie text, the first clock reading rendered by `str()` when there is none. */
  function LastVisitText(cookies: map<string, string>, clock: Clock): string
    requires ValidClock(clock)
  {
    if LastVisitKey in cookies then cookies[LastVisitKey] else Format(clock.atDefault)
  }

  /**
   * What `visitor_cookie_handler` decides from the request's cookies and the clock. The session
   * is not an argument: nothing it held before is read.
   */
  function HandleVisit(cookies: map<string, string>, clock: Clock): Result<Visit, HandlerError>
    requires ValidClock(clock)
  {
    match ParseInt(VisitsText(cookies))
    case None => Err(BadVisitsCookie)
    case Some(count) => Decide(count, LastVisitText(cookies, clock), clock)
  }

  /**
   * The rest of the handler once the count has been read: parse the time text less its last seven
   * characters, then either count on from the cookie's count or start again at 1.
   */
  function Decide(count: int, lastVisitCookie: string, clock: Clock): Result<Visit, HandlerError>
    requires ValidClock(clock)
  {
    match Parse(DropSuffix(lastVisitCookie))
    case None => Err(BadTimestamp)
    case Some(lastVisitTime) =>
      if ElapsedDays(clock.atCompare, lastVisitTime) > 0 then Ok(Visit(count + 1, Format(clock.atStore)))
      else Ok(Visit(1, lastVisitCookie))
  }

  /** The session after a visit is recorded: `last_visit` and `visits` set, every other entry as it was. */
  function Written(session: map<string, Value>, visit: Visit): map<string, Value>
  {
    session[LastVisitKey := Str(visit.lastVisit)][VisitsKey := Int(visit.visits)]
  }

  /** Recording a visit sets `last_visit` and `visits` and leaves every other session entry as it was. */
  lemma WrittenEntries(session: map<string, Value>, visit: Visit)
    ensures Written(session, visit).Keys == session.Keys + {VisitsKey, LastVisitKey}
    ensures Written(session, visit)[VisitsKey] == Int(visit.visits)
    ensures Written(session, visit)[LastVisitKey] == Str(visit.lastVisit)
    ensures forall k :: k in session && k != VisitsKey && k != LastVisitKey ==> Written(session, visit)[k] == session[k]
  {
  }

  /** An incoming request: the cookies the client sent, and the session it updates in place. */
  class Request {
    var session: map<string, Value>
    const cookies: map<string, string>

    constructor (session: map<string, Value>, cookies: map<string, string>)
      ensures this.session == session && this.cookies == cookies
    {
      this.session := session;
      this.cookies := cookies;
    }
  }

  /**
   * `visitor_cookie_handler(request)`: reads the `visits` and `last_visit` cookies and records the
   * visit in the session. Err stands for the ValueError the code raises, before it writes anything.
   */
  method VisitorCookieHandler(request: Request, clock: Clock) returns (r: Result<(), HandlerError>)
    requires ValidClock(clock)
    modifies request
    ensures HandleVisit(request.cookies, clock).Ok? ==>
      r == Ok(()) && request.session == Written(old(request.session), HandleVisit(request.cookies, clock).value)
    ensures HandleVisit(request.cookies, clock).Err? ==>
      r == Err(HandleVisit(request.cookies, clock).error) && request.session == old(request.session)
  {
    var parsed := ParseInt(if VisitsKey in request.cookies then request.cookies[VisitsKey] else "1");
    assert parsed == ParseInt(VisitsText(request.cookies));
    if parsed.None? {
      return Err(BadVisitsCookie);
    }
    var visits := parsed.value;

    var lastVisitCookie := if LastVisitKey in request.cookies then request.cookies[LastVisitKey]
                           else Format(clock.atDefault);
    assert lastVisitCookie == LastVisitText(request.cookies, clock);
    var lastVisitTime := Parse(DropSuffix(lastVisitCookie));
    if lastVisitTime.None? {
      return Err(BadTimestamp);
    }

    if ElapsedDays(clock.atCompare, lastVisitTime.value) > 0 {
      HandleVisitElapsed(request.cookies, clock, visits, lastVisitCookie, lastVisitTime.value);
      visits := visits + 1;
      request.session := request.session[LastVisitKey := Str(Format(clock.atStore))];
    } else {
      HandleVisitWithinDay(request.cookies, clock, visits, lastVisitCookie, lastVisitTime.value);
      visits := 1;
      request.session := request.session[LastVisitKey := Str(lastVisitCookie)];
    }
    request.session := request.session[VisitsKey := Int(visits)];
    r := Ok(());
  }

  /**
   * `index(request)` up to the call of `render`: the context it renders, holding the categories and
   * pages it was given and the `visits` the handler just stored.
   */
  method Index(request: Request, clock: Clock, categories: Value, pages: Value)
    returns (r: Result<map<string, Value>, HandlerError>)
    requires ValidClock(clock)
    modifies request
    ensures r.Ok? <==> HandleVisit(request.cookies, clock).Ok?
    ensures r.Ok? ==>
      && request.session == Written(old(request.session), HandleVisit(request.cookies, clock).value)
      && r.value == map["categories" := categories, "pages" := pages, VisitsKey := request.session[VisitsKey]]
      && r.value[VisitsKey] == Int(HandleVisit(request.cookies, clock).value.visits)
    ensures r.Err? ==> r.error == HandleVisit(request.cookies, clock).error && request.session == old(request.session)
  {
    var context := map["categories" := categories, "pages" := pages];
    var handled := VisitorCookieHandler(request, clock);
    if handled.Err? {
      return Err(handled.error);
    }
    context := context[VisitsKey := request.session[VisitsKey]];
    r := Ok(context);
  }

  /** `about(request)` up to the call of `render`: its fixed message and the `visits` just stored. */
  method About(request: Request, clock: Clock) returns (r: Result<map<string, Value>, HandlerError>)
    requires ValidClock(clock)
    modifies request
    ensures r.Ok? <==> HandleVisit(request.cookies, clock).Ok?
    ensures r.Ok? ==>
      && request.session == Written(old(request.session), HandleVisit(request.cookies, clock).value)
      && r.value == map["aboutmessage" := Str(AboutMessage), VisitsKey := request.session[VisitsKey]]
      && r.value[VisitsKey] == Int(HandleVisit(request.cookies, clock).value.visits)
    ensures r.Err? ==> r.error == HandleVisit(request.cookies, clock).error && request.session == old(request.session)
  {
    var context := map["aboutmessage" := Str(AboutMessage)];
    var handled := VisitorCookieHandler(request, clock);
    if handled.Err? {
      return Err(handled.error);
    }
    context := context[VisitsKey := request.session[VisitsKey]];
    r := Ok(context);
  }

  /** The count cookie text when it is an integer literal, the count it denotes. */
  function CookieCount(cookies: map<string, string>): int
    requires IsIntLiteral(VisitsText(cookies))
  {
    ParseInt(VisitsText(cookies)).value
  }

  /** The handler raises exactly when `int()` refuses the count text or `strptime` refuses the sliced time text. */
  lemma HandleVisitFails(cookies: map<string, string>, clock: Clock)
    requires ValidClock(clock)
    ensures HandleVisit(cookies, clock) == Err(BadVisitsCookie) <==> !IsIntLiteral(VisitsText(cookies))
    ensures HandleVisit(cookies, clock) == Err(BadTimestamp) <==>
      IsIntLiteral(VisitsText(cookies)) && Parse(DropSuffix(LastVisitText(cookies, clock))).None?
  {
  }

  /**
   * Only two outcomes: the count reset to 1 with the cookie's time text kept as it came, or the
   * cookie's count plus one with the current time. Either way `last_visit` is non-empty text.
   */
  lemma OneOrIncremented(cookies: map<string, string>, clock: Clock)
    requires ValidClock(clock) && HandleVisit(cookies, clock).Ok?
    ensures IsIntLiteral(VisitsText(cookies))
    ensures var v := HandleVisit(cookies, clock).value;
      || v == Visit(1, LastVisitText(cookies, clock))
      || v == Visit(CookieCount(cookies) + 1, Format(clock.atStore))
    ensures |HandleVisit(cookies, clock).value.lastVisit| >= 19
  {
    DecideOutcomes(ParseInt(VisitsText(cookies)).value, LastVisitText(cookies, clock), clock);
  }

  /** The decision either resets the count to 1 and keeps the time text, or adds one and takes the current time. */
  lemma DecideOutcomes(count: int, lastVisitCookie: string, clock: Clock)
    requires ValidClock(clock) && Decide(count, lastVisitCookie, clock).Ok?
    ensures var v := Decide(count, lastVisitCookie, clock).value;
      v == Visit(1, lastVisitCookie) || v == Visit(count + 1, Format(clock.atStore))
    ensures |lastVisitCookie| >= 19
  {
    assert |DropSuffix(lastVisitCookie)| == 19;
  }

  /** The handler's path where both cookies parse and a whole day or more has passed. */
  lemma HandleVisitElapsed(cookies: map<string, string>, clock: Clock, count: int, lastVisitCookie: string, last: DateTime)
    requires ValidClock(clock)
    requires ParseInt(VisitsText(cookies)) == Some(count)
    requires LastVisitText(cookies, clock) == lastVisitCookie
    requires Parse(DropSuffix(lastVisitCookie)) == Some(last)
    requires ElapsedDays(clock.atCompare, last) > 0
    ensures HandleVisit(cookies, clock) == Ok(Visit(count + 1, Format(clock.atStore)))
  {
  }

  /** The handler's path where both cookies parse and less than a whole day has passed. */
  lemma HandleVisitWithinDay(cookies: map<string, string>, clock: Clock, count: int, lastVisitCookie: string, last: DateTime)
    requires ValidClock(clock)
    requires ParseInt(VisitsText(cookies)) == Some(count)
    requires LastVisitText(cookies, clock) == lastVisitCookie
    requires Parse(DropSuffix(lastVisitCookie)) == Some(last)
    requires ElapsedDays(clock.atCompare, last) <= 0
    ensures HandleVisit(cookies, clock) == Ok(Visit(1, lastVisitCookie))
  {
  }

  /** A whole day or more since the parsed time: the count plus one, and `str()` of the current reading. */
  lemma DayElapsedIncrements(count: int, lastVisitCookie: string, clock: Clock, last: DateTime)
    requires ValidClock(clock)
    requires Parse(DropSuffix(lastVisitCookie)) == Some(last)
    requires Micros(clock.atCompare) - Micros(last) >= MicrosPerDay
    ensures Decide(count, lastVisitCookie, clock) == Ok(Visit(count + 1, Format(clock.atStore)))
  {
    ElapsedDaysFloor(clock.atCompare, last);
  }

  /**
   * Less than a whole day since the parsed time, or a time in the future: the count is 1 and
   * `last_visit` is the time text unchanged.
   */
  lemma WithinDayResets(count: int, lastVisitCookie: string, clock: Clock, last: DateTime)
    requires ValidClock(clock)
    requires Parse(DropSuffix(lastVisitCookie)) == Some(last)
    requires Micros(clock.atCompare) - Micros(last) < MicrosPerDay
    ensures Decide(count, lastVisitCookie, clock) == Ok(Visit(1, lastVisitCookie))
  {
    ElapsedDaysFloor(clock.atCompare, last);
  }

  /**
   * A cookie written as `str()` of a time, read back on the next calendar day at the same time of
   * day or later: the count goes up by one and `last_visit` moves to the current time.
   */
  lemma NextDayRevisit(cookies: map<string, string>, clock: Clock, last: DateTime)
    requires ValidClock(clock) && IsIntLiteral(VisitsText(cookies))
    requires Valid(last) && last.microsecond != 0 && last.year < 9999
    requires LastVisitKey in cookies && cookies[LastVisitKey] == Format(last)
    requires Micros(NextDay(last)) <= Micros(clock.atCompare)
    ensures HandleVisit(cookies, clock) == Ok(Visit(CookieCount(cookies) + 1, Format(clock.atStore)))
  {
    ParseDroppedSuffix(last);
    NextDayOneDayLater(last);
    MicrosWholeSecond(last);
    DayElapsedIncrements(CookieCount(cookies), Format(last), clock, WholeSecond(last));
  }

  /**
   * A cookie written as `str()` of a time, read back on the same calendar day or an earlier one:
   * the count is 1 and `last_visit` stays the cookie text.
   */
  lemma SameDayRevisit(cookies: map<string, string>, clock: Clock, last: DateTime)
    requires ValidClock(clock) && IsIntLiteral(VisitsText(cookies))
    requires Valid(last) && last.microsecond != 0
    requires LastVisitKey in cookies && cookies[LastVisitKey] == Format(last)
    requires Ordinal(clock.atCompare) <= Ordinal(last)
    ensures HandleVisit(cookies, clock) == Ok(Visit(1, Format(last)))
  {
    ParseDroppedSuffix(last);
    var whole := WholeSecond(last);
    MicrosWholeSecond(last);
    assert Ordinal(whole) == Ordinal(last);
    MicrosInDay(clock.atCompare);
    MicrosInDay(whole);
    WithinDayResets(CookieCount(cookies), Format(last), clock, whole);
  }

  /**
   * No `last_visit` cookie: the default is `str()` of the first clock reading, so unless the
   * comparison reading is a whole day after it, the count is 1 and that text is stored.
   */
  lemma FirstVisit(cookies: map<string, string>, clock: Clock)
    requires ValidClock(clock) && IsIntLiteral(VisitsText(cookies))
    requires LastVisitKey !in cookies && clock.atDefault.microsecond != 0
    requires Micros(clock.atCompare) < Micros(WholeSecond(clock.atDefault)) + MicrosPerDay
    ensures HandleVisit(cookies, clock) == Ok(Visit(1, Format(clock.atDefault)))
  {
    ParseDroppedSuffix(clock.atDefault);
    MicrosWholeSecond(clock.atDefault);
    WithinDayResets(CookieCount(cookies), Format(clock.atDefault), clock, WholeSecond(clock.atDefault));
  }

  /**
   * No `last_visit` cookie and a first clock reading with zero microseconds: `str()` then has no
   * fraction, the slice cuts into the time and `strptime` raises.
   */
  lemma FirstVisitOnWholeSecondRaises(cookies: map<string, string>, clock: Clock)
    requires ValidClock(clock) && IsIntLiteral(VisitsText(cookies))
    requires LastVisitKey !in cookies && clock.atDefault.microsecond == 0
    ensures HandleVisit(cookies, clock) == Err(BadTimestamp)
  {
    ParseDroppedSuffixWholeSecond(clock.atDefault);
  }

  /** The stored count is at least 1 whenever the count cookie is not negative. */
  lemma CountAtLeastOne(cookies: map<string, string>, clock: Clock)
    requires ValidClock(clock) && HandleVisit(cookies, clock).Ok?
    requires CookieCount(cookies) >= 0
    ensures HandleVisit(cookies, clock).value.visits >= 1
  {
    OneOrIncremented(cookies, clock);
  }

  /**
   * A negative count cookie read back a day later is stored as it came, plus one: the stored
   * count stays below 1.
   */
  lemma NegativeCountCarriesOver(cookies: map<string, string>, clock: Clock, last: DateTime)
    requires ValidClock(clock) && IsIntLiteral(VisitsText(cookies)) && CookieCount(cookies) < 0
    requires Valid(last) && last.microsecond != 0 && last.year < 9999
    requires LastVisitKey in cookies && cookies[LastVisitKey] == Format(last)
    requires Micros(NextDay(last)) <= Micros(clock.atCompare)
    ensures HandleVisit(cookies, clock).Ok?
    ensures HandleVisit(cookies, clock).value.visits == CookieCount(cookies) + 1 < 1
  {
    NextDayRevisit(cookies, clock, last);
  }

  /**
   * After a visit is recorded, looking the entries up with `get_server_side_cookie` finds the
   * stored time text, and the stored count unless that count is 0, which is falsy.
   */
  lemma LookupAfterVisit(session: map<string, Value>, cookies: map<string, string>, clock: Clock, defaultVal: Value)
    requires ValidClock(clock) && HandleVisit(cookies, clock).Ok?
    ensures var v := HandleVisit(cookies, clock).value;
      && GetServerSideCookie(Written(session, v), LastVisitKey, defaultVal) == Str(v.lastVisit)
      && GetServerSideCookie(Written(session, v), VisitsKey, defaultVal) == if v.visits == 0 then defaultVal else Int(v.visits)
  {
    OneOrIncremented(cookies, clock);
    WrittenEntries(session, HandleVisit(cookies, clock).value);
  }
}
