/** The HTTP layer of `index.ts` over the store: the course-code listing, the 24-hour staleness
    rule, and the decision sequence of `GET /api/courses/:course_code`. The route handler calls
    the helpers of `utils.ts`. */
module Index {
  import opened Types
  import opened Text
  import opened Tables
  import opened Database
  import Utils

  // ---------------------------------------------------------------------------------------
  // Staleness

  /** `time_before_course_update`: 24 hours in milliseconds. */
  const DAY: int := 1000 * 60 * 60 * 24

  /** The staleness test as it behaves: `last_updated_timestamp` is a TEXT column, so the stored
      sentinel reads back as the string "-1" and `=== -1` never holds; only the time comparison
      (`parseInt(ts) + DAY < now`, strict) decides. */
  predicate StaleAsWritten(ts: int, now: int) {
    ts + DAY < now
  }

  /** The staleness test as intended: the seeding sentinel -1 always asks for a refresh, and
      otherwise a row is stale once it is strictly more than 24 hours old. */
  predicate Stale(ts: int, now: int) {
    ts == -1 || ts + DAY < now
  }

  /** A clock within the first day after the epoch shows the two apart: a never-refreshed row
      (sentinel -1) would be served without a refresh. */
  lemma SentinelMissedAsWritten()
    ensures Stale(-1, 0) && !StaleAsWritten(-1, 0)
  {
  }

  /** With the sentinel test in place, every course row the seeding inserts asks for a refresh
      on its first request, whatever the clock says. */
  lemma SeededCoursesAreStale(codes: seq<string>, now: int)
    ensures forall row :: row in SeedRows(codes) ==> Stale(row.lastUpdated, now)
  {
  }

  /** Once the clock is past the first day after the epoch the sentinel is older than 24 hours
      by itself, so the missing sentinel test changes no decision. */
  lemma StaleAgreesAfterFirstDay(ts: int, now: int)
    requires now >= DAY
    ensures Stale(ts, now) <==> StaleAsWritten(ts, now)
  {
  }

  /** A row refreshed at `t` is served from the store for exactly 24 hours: at `t + DAY` it is
      still fresh, one millisecond later it is stale, and it stays stale. */
  lemma FreshForOneDay(t: int, now: int, later: int)
    requires t >= 0
    ensures t <= now <= t + DAY ==> !Stale(t, now)
    ensures now > t + DAY && later >= now ==> Stale(t, now) && Stale(t, later)
  {
  }

  // ---------------------------------------------------------------------------------------
  // GET /api/courses

  /** The body of `GET /api/courses`: the `course_code` of every course row, in table order. */
  function CourseCodes(rows: seq<CourseRow>): seq<string> {
    seq(|rows|, i requires 0 <= i < |rows| => rows[i].code)
  }

  /** Every listed code is one the course lookup finds, and every code it finds is listed; the
      primary key keeps the list free of repeats. */
  lemma CourseCodesListed(rows: seq<CourseRow>)
    requires UniqueCodes(rows)
    ensures forall c :: c in CourseCodes(rows) <==> FindCourse(rows, c).Some?
    ensures forall i, j :: 0 <= i < j < |CourseCodes(rows)| ==> CourseCodes(rows)[i] != CourseCodes(rows)[j]
  {
    var codes := CourseCodes(rows);
    forall c | c in codes
      ensures FindCourse(rows, c).Some?
    {
      var i :| 0 <= i < |codes| && codes[i] == c;
      assert rows[i] in rows;
    }
    forall c | FindCourse(rows, c).Some?
      ensures c in codes
    {
      var row := FindCourse(rows, c).value;
      var i :| 0 <= i < |rows| && rows[i] == row;
      assert codes[i] == c;
    }
  }

  /** After seeding an empty course table, the listing holds every fetched code exactly once
      and nothing else. */
  lemma ListAfterSeeding(codes: seq<string>)
    ensures forall c :: c in CourseCodes(SeedRows(codes)) <==> c in codes
    ensures forall i, j :: 0 <= i < j < |CourseCodes(SeedRows(codes))| ==>
      CourseCodes(SeedRows(codes))[i] != CourseCodes(SeedRows(codes))[j]
  {
    SeedRowsSpec(codes);
    CourseCodesListed(SeedRows(codes));
  }

  // ---------------------------------------------------------------------------------------
  // GET /api/courses/:course_code

  /** What the route answers: 400, 404, 503, no answer at all (the refresh promise never
      settles), or the course document. */
  datatype Response = BadRequest | NotFound | Unavailable | Unanswered | Served(doc: FormattedCourse)

  /** `GET /api/courses/:course_code` with path parameter `param`. `now` is the clock reading
      of the staleness test; `fetched` is what the statistics request would return if the
      course needs a refresh, and `refreshedAt` the later clock reading that the refresh's
      UPDATE stores once that request has come back. The lookup upper-cases the parameter; the
      refresh and the read then use the stored code. */
  method HandleCourseRequest(store: Store, param: string, fetched: Option<seq<Stat>>, now: int, refreshedAt: int)
    returns (resp: Response)
    requires store.Valid()
    requires now <= refreshedAt
    modifies store
    ensures store.Valid()
    ensures param == "" ==> resp == BadRequest && store.State() == old(store.State())
    ensures param != "" && FindCourse(old(store.courses), Upper(param)).None? ==>
      resp == NotFound && store.State() == old(store.State())
    ensures param != "" && FindCourse(old(store.courses), Upper(param)).Some? ==>
      var row := FindCourse(old(store.courses), Upper(param)).value;
      if !Stale(row.lastUpdated, now) then
        resp == Served(GetFormattedCourseData(old(store.State()), param).value)
        && store.State() == old(store.State())
      else if fetched.None? then
        resp == Unavailable && store.State() == old(store.State())
      else if fetched.value == [] then
        resp == Unanswered && store.State() == old(store.State())
      else
        resp == Served(PayloadDocument(Upper(param), fetched.value, refreshedAt))
        && store.State() == AfterRefresh(old(store.State()), Upper(param), Upper(param), Upper(param), fetched.value, refreshedAt)
  {
    if param == "" {
      return BadRequest;
    }
    var found := FindCourse(store.courses, Upper(param));
    if found.None? {
      return NotFound;
    }
    var code := found.value.code;
    if Stale(found.value.lastUpdated, now) {
      var outcome := Utils.UpdateCourseData(store, code, fetched, refreshedAt);
      if outcome == FetchFailed {
        return Unavailable;
      } else if outcome == Crashed {
        return Unanswered;
      }
      Utils.RefreshRoundTrip(old(store.State()), code, fetched.value, refreshedAt);
    } else {
      Utils.AgreesWithDatabase(store.State(), param);
    }
    var doc := Utils.GetCourseData(store.State(), code);
    resp := Served(doc.value);
  }
}
