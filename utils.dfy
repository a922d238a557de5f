/** The older store helpers of `utils.ts`, which the request handler of `index.ts` calls: a join
    that looks the course up by its exact code and selects the grades of all its modules at once
    with `IN`, and a refresh whose statements all use the code as given. */
module Utils {
  import opened Types
  import opened Tables
  import opened Database

  /** `module_data.map((module) => module.id)` */
  function ModuleIds(mods: seq<ModuleRow>): seq<int> {
    seq(|mods|, i requires 0 <= i < |mods| => mods[i].id)
  }

  /** The condition of `SELECT * FROM grade WHERE module_id IN (?, ..., ?)`. */
  function OfAnyModule(ids: seq<int>): GradeRow -> bool {
    (g: GradeRow) => g.moduleId in ids
  }

  /** `get_course_data` of `utils.ts`: the course whose code is exactly `code` (no case
      folding), its module rows in table order, and for each of them the rows of the `IN`
      selection whose `module_id` is that module's id, in table order, projected. */
  function GetCourseData(db: Db, code: string): (r: Option<FormattedCourse>)
    ensures r.None? <==> FindCourse(db.courses, code).None?
    ensures r.Some? ==>
      var row := FindCourse(db.courses, code).value;
      && r.value.courseCode == row.code == code
      && r.value.courseNameSwe == row.nameSwe
      && r.value.courseNameEng == row.nameEng
      && r.value.lastUpdatedTimestamp == row.lastUpdated
      && |r.value.modules| == |ModulesOf(db.modules, code)|
  {
    match FindCourse(db.courses, code)
    case None => None
    case Some(row) =>
      var mods := ModulesOf(db.modules, row.code);
      var selected := Filter(db.grades, OfAnyModule(ModuleIds(mods)));
      Some(FormattedCourse(row.code, row.nameSwe, row.nameEng, row.lastUpdated, FormatModules(mods, selected)))
  }

  /** Narrowing the grade table to the modules in `ids` first does not change the grades of a
      module in `ids`. */
  lemma {:induction false} GradesOfSelected(grades: seq<GradeRow>, ids: seq<int>, id: int)
    requires id in ids
    ensures GradesOf(Filter(grades, OfAnyModule(ids)), id) == GradesOf(grades, id)
  {
    if grades != [] {
      GradesOfSelected(grades[1..], ids, id);
      var g := grades[0];
      if g.moduleId in ids {
        FilterAppend([g], Filter(grades[1..], OfAnyModule(ids)), OfModule(id));
        assert [g][1..] == [];
      }
    }
  }

  /** The `IN` selection followed by the per-module `filter` gives each module exactly its own
      grade rows: the result is the nested document of the course with exactly this code. */
  lemma GetCourseDataIsJoin(db: Db, code: string)
    ensures GetCourseData(db, code) == Join(db, code)
  {
    if FindCourse(db.courses, code).Some? {
      var mods := ModulesOf(db.modules, code);
      var ids := ModuleIds(mods);
      var selected := Filter(db.grades, OfAnyModule(ids));
      forall i | 0 <= i < |mods|
        ensures FormatModule(mods[i], selected) == FormatModule(mods[i], db.grades)
      {
        assert ids[i] == mods[i].id;
        GradesOfSelected(db.grades, ids, mods[i].id);
      }
      assert FormatModules(mods, selected) == FormatModules(mods, db.grades);
    }
  }

  /** With the requested code upper-cased first, as the request handler does, this join and
      `get_formated_course_data` of `database.ts` return the same document. */
  lemma AgreesWithDatabase(db: Db, code: string)
    ensures GetCourseData(db, Text.Upper(code)) == GetFormattedCourseData(db, code)
  {
    GetCourseDataIsJoin(db, Text.Upper(code));
  }

  /** Round trip: refreshing a course that is in the course table, under its stored code, and
      reading it back gives the payload's title, `now`, and the payload's modules in order,
      each with its grades unchanged. */
  lemma RefreshRoundTrip(db: Db, code: string, data: seq<Stat>, now: int)
    requires Consistent(db)
    requires FindCourse(db.courses, code).Some?
    requires |data| > 0
    ensures GetCourseData(AfterRefresh(db, code, code, code, data, now), code) == Some(PayloadDocument(code, data, now))
  {
    GetCourseDataIsJoin(AfterRefresh(db, code, code, code, data, now), code);
    JoinAfterRefresh(db, code, code, data, now);
    assert [] + PayloadModules(data) == PayloadModules(data);
  }

  /** `update_course_data` of `utils.ts`. `fetched` is what the statistics request for `code`
      returned (`None` for a non-2xx response). Its `run` swallows statement errors, so any
      payload whose first element exists ends in `true`; an empty payload throws on
      `data[0].courseTitle` before any write. */
  method UpdateCourseData(store: Store, code: string, fetched: Option<seq<Stat>>, now: int) returns (outcome: RefreshOutcome)
    requires store.Valid()
    modifies store
    ensures store.Valid()
    ensures fetched.None? ==> outcome == FetchFailed && store.State() == old(store.State())
    ensures fetched == Some([]) ==> outcome == Crashed && store.State() == old(store.State())
    ensures fetched.Some? && fetched.value != [] ==>
      outcome == Updated && store.State() == AfterRefresh(old(store.State()), code, code, code, fetched.value, now)
  {
    match fetched
    case None =>
      return FetchFailed;
    case Some(data) =>
      if data == [] {
        return Crashed;
      }
      store.WriteStatistics(code, code, code, data, now);
      return Updated;
  }
}
