/** The store of `database.ts`: the read accessors and the nested course document, the refresh
    that rewrites one course from an upstream statistics payload, and the seeding of the course
    table. Each SQL statement is one sequential, atomic update of the in-memory tables. */
module Database {
  import opened Types
  import opened Text
  import opened Tables

  /** What a call of `update_course_data` comes to. `FetchFailed` is its `false`; `Crashed` is
      an empty payload, where reading `data[0].courseTitle` throws before any write. */
  datatype RefreshOutcome = Updated | FetchFailed | Crashed

  // ---------------------------------------------------------------------------------------
  // Reads

  /** `get_course_data`: the course row whose code is the upper-cased argument. */
  function GetCourseData(courses: seq<CourseRow>, code: string): (r: Option<CourseRow>)
    ensures r.Some? ==> r.value in courses && r.value.code == Upper(code)
    ensures r.None? <==> forall row :: row in courses ==> row.code != Upper(code)
  {
    FindCourse(courses, Upper(code))
  }

  /** `get_module_data`: the module rows of the upper-cased code, in table order. */
  function GetModuleData(modules: seq<ModuleRow>, code: string): (r: seq<ModuleRow>)
    ensures forall m :: m in r <==> m in modules && m.courseCode == Upper(code)
  {
    FilterMembers(modules, OfCourse(Upper(code)));
    ModulesOf(modules, Upper(code))
  }

  /** `get_grade_data`: the grade rows of one module id, in table order. */
  function GetGradeData(grades: seq<GradeRow>, moduleId: int): (r: seq<GradeRow>)
    ensures forall g :: g in r <==> g in grades && g.moduleId == moduleId
  {
    FilterMembers(grades, OfModule(moduleId));
    GradesOf(grades, moduleId)
  }

  /** `get_formated_course_data`: absent when the course is unknown; otherwise the course row,
      then one entry per module row of the course in table order (none at all when it has no
      modules), each holding its own grade rows in table order, projected. */
  function GetFormattedCourseData(db: Db, code: string): (r: Option<FormattedCourse>)
    ensures r.None? <==> GetCourseData(db.courses, code).None?
    ensures r.Some? ==>
      var row := GetCourseData(db.courses, code).value;
      && r.value.courseCode == row.code == Upper(code)
      && r.value.courseNameSwe == row.nameSwe
      && r.value.courseNameEng == row.nameEng
      && r.value.lastUpdatedTimestamp == row.lastUpdated
    ensures r.Some? ==>
      var mods := GetModuleData(db.modules, code);
      && |r.value.modules| == |mods|
      && forall i :: 0 <= i < |mods| ==>
           && r.value.modules[i].moduleCode == mods[i].moduleCode
           && r.value.modules[i].date == mods[i].date
           && r.value.modules[i].grades == Project(GetGradeData(db.grades, mods[i].id))
  {
    Join(db, Upper(code))
  }

  /** The lookup ignores the letter case of its argument: `tdde05` finds what `TDDE05` finds. */
  lemma CaseInsensitiveLookup(courses: seq<CourseRow>, code: string)
    ensures GetCourseData(courses, code) == GetCourseData(courses, Upper(code))
    ensures GetCourseData(courses, "tdde05") == GetCourseData(courses, "TDDE05")
  {
    UpperIdempotent(code);
    var lower, upper := Upper("tdde05"), Upper("TDDE05");
    assert lower[0] == upper[0] == 'T' && lower[1] == upper[1] == 'D' && lower[2] == upper[2] == 'D';
    assert lower[3] == upper[3] == 'E' && lower[4] == upper[4] == '0' && lower[5] == upper[5] == '5';
    assert lower == upper;
  }

  // ---------------------------------------------------------------------------------------
  // The refresh: the tables after `update_course_data`

  /** Round trip: refreshing an upper-case code that is in the course table and then reading it
      back gives the payload's title, `now`, and the payload's modules in order, each with its
      grades unchanged. */
  lemma RefreshRoundTrip(db: Db, code: string, data: seq<Stat>, now: int)
    requires Consistent(db)
    requires Upper(code) == code
    requires GetCourseData(db.courses, code).Some?
    requires |data| > 0
    ensures GetFormattedCourseData(AfterRefresh(db, Upper(code), code, Upper(code), data, now), code)
         == Some(PayloadDocument(code, data, now))
  {
    var after := AfterRefresh(db, code, code, code, data, now);
    assert GetFormattedCourseData(after, code) == Join(after, code);
    JoinAfterRefresh(db, code, code, data, now);
    assert [] + PayloadModules(data) == PayloadModules(data);
  }

  /** With a code that is not upper case, the DELETE (raw code) misses the stored module rows
      while the UPDATE and the INSERTs (upper-cased code) hit the course: the course then lists
      its previous modules, still with their grades, followed by the payload's modules. */
  lemma RefreshWithLowerCaseKeepsOldModules(db: Db, code: string, data: seq<Stat>, now: int)
    requires Consistent(db)
    requires Upper(code) != code
    requires GetCourseData(db.courses, code).Some?
    requires |data| > 0
    ensures GetFormattedCourseData(AfterRefresh(db, Upper(code), code, Upper(code), data, now), code)
         == Some(PayloadDocument(Upper(code), data, now).(
              modules := GetFormattedCourseData(db, code).value.modules + PayloadModules(data)))
  {
    JoinAfterRefresh(db, Upper(code), code, data, now);
  }

  /** What a refresh writes: grade rows are only appended, the module rows of every course
      other than the raw and the upper-cased code stay as they were, and the upper-cased code
      ends with its surviving old module rows (none when the code was given upper case) followed
      by one new row per payload element. */
  lemma RefreshTouchesOnlyItsCourse(db: Db, code: string, data: seq<Stat>, now: int)
    requires |data| > 0
    ensures var after := AfterRefresh(db, Upper(code), code, Upper(code), data, now);
      && |db.grades| <= |after.grades| && after.grades[..|db.grades|] == db.grades
      && (forall other :: other != code && other != Upper(code) ==>
            ModulesOf(after.modules, other) == ModulesOf(db.modules, other))
      && ModulesOf(after.modules, Upper(code))
         == (if Upper(code) == code then [] else ModulesOf(db.modules, Upper(code)))
            + ModuleRowsFor(data, Upper(code), db.nextModuleId)
  {
    var after := AfterRefresh(db, Upper(code), code, Upper(code), data, now);
    var kept := OtherModules(db.modules, code);
    var added := ModuleRowsFor(data, Upper(code), db.nextModuleId);
    forall other | other != code && other != Upper(code)
      ensures ModulesOf(after.modules, other) == ModulesOf(db.modules, other)
    {
      FilterAppend(kept, added, OfCourse(other));
      ModulesOfAfterDelete(db.modules, code, other);
      ModulesOfInserted(data, Upper(code), db.nextModuleId, other);
      assert ModulesOf(after.modules, other) == ModulesOf(db.modules, other) + [];
    }
    FilterAppend(kept, added, OfCourse(Upper(code)));
    ModulesOfAfterDelete(db.modules, code, Upper(code));
    ModulesOfInserted(data, Upper(code), db.nextModuleId, Upper(code));
  }

  /** Round trip for the refresh with every statement keyed by the upper-cased code: whatever
      letter case the code is given in, reading the course back gives exactly the payload. */
  lemma RefreshRoundTripAnyCase(db: Db, code: string, data: seq<Stat>, now: int)
    requires Consistent(db)
    requires GetCourseData(db.courses, code).Some?
    requires |data| > 0
    ensures GetFormattedCourseData(AfterRefresh(db, Upper(code), Upper(code), Upper(code), data, now), code)
         == Some(PayloadDocument(Upper(code), data, now))
  {
    JoinAfterRefresh(db, Upper(code), Upper(code), data, now);
    assert [] + PayloadModules(data) == PayloadModules(data);
  }

  /** A refresh of `code` leaves the document of every other course as it was. */
  lemma RefreshLeavesOtherCourses(db: Db, code: string, other: string, data: seq<Stat>, now: int)
    requires Consistent(db)
    requires |data| > 0
    requires Upper(other) != Upper(code)
    ensures GetFormattedCourseData(AfterRefresh(db, Upper(code), code, Upper(code), data, now), other)
         == GetFormattedCourseData(db, other)
  {
    JoinOtherAfterRefresh(db, Upper(code), code, Upper(code), data, now, Upper(other));
  }

  // ---------------------------------------------------------------------------------------
  // Seeding

  /** Seeding an empty course table gives one row per distinct fetched code, each with no names
      and the sentinel timestamp -1, and no code twice. */
  lemma {:induction false} SeedRowsSpec(codes: seq<string>)
    ensures UniqueCodes(SeedRows(codes))
    ensures forall row :: row in SeedRows(codes) ==>
      row.code in codes && row.nameSwe.None? && row.nameEng.None? && row.lastUpdated == -1
    ensures forall c :: c in codes ==> FindCourse(SeedRows(codes), c).Some?
  {
    if codes != [] {
      var init := codes[..|codes| - 1];
      var code := codes[|codes| - 1];
      SeedRowsSpec(init);
      var rows := SeedRows(init);
      assert codes == init + [code];
      if FindCourse(rows, code).None? {
        var rows' := rows + [CourseRow(code, None, None, -1)];
        forall c | c in codes
          ensures FindCourse(rows', c).Some?
        {
          if c != code {
            FindInPrefix(rows, [CourseRow(code, None, None, -1)], c);
          } else {
            assert rows'[|rows|] == CourseRow(code, None, None, -1);
          }
        }
      }
    }
  }

  lemma {:induction false} FindInPrefix(rows: seq<CourseRow>, more: seq<CourseRow>, code: string)
    requires FindCourse(rows, code).Some?
    ensures FindCourse(rows + more, code) == FindCourse(rows, code)
  {
    assert (rows + more)[0] == rows[0];
    if rows[0].code != code {
      assert (rows + more)[1..] == rows[1..] + more;
      FindInPrefix(rows[1..], more, code);
    }
  }

  // ---------------------------------------------------------------------------------------
  // The store

  /** The database connection: the three tables in table order and the AUTOINCREMENT counters
      of `module` and `grade`. */
  class Store {
    var courses: seq<CourseRow>
    var modules: seq<ModuleRow>
    var grades: seq<GradeRow>
    var nextModuleId: int
    var nextGradeId: int

    function State(): Db
      reads this
    {
      Db(courses, modules, grades, nextModuleId, nextGradeId)
    }

    ghost predicate Valid()
      reads this
    {
      Consistent(State())
    }

    /** A new database file after `CREATE TABLE IF NOT EXISTS` of the three tables. */
    constructor ()
      ensures Valid()
      ensures State() == Db([], [], [], 1, 1)
    {
      courses, modules, grades := [], [], [];
      nextModuleId, nextGradeId := 1, 1;
    }

    /** `UPDATE course SET last_updated_timestamp = ?, course_name_swe = ?, course_name_eng = ?
        WHERE course_code = ?` */
    method UpdateCourse(key: string, title: Title, ts: int)
      requires Valid()
      modifies this
      ensures Valid()
      ensures State() == old(State()).(courses := UpdateCourseRows(old(courses), key, title, ts))
    {
      courses := UpdateCourseRows(courses, key, title, ts);
      assert forall i :: 0 <= i < |courses| ==> courses[i].code == old(courses)[i].code;
    }

    /** `DELETE FROM module WHERE course_code = ?` */
    method DeleteModules(key: string)
      requires Valid()
      modifies this
      ensures Valid()
      ensures State() == old(State()).(modules := OtherModules(old(modules), key))
    {
      FilterMembers(modules, NotOfCourse(key));
      modules := OtherModules(modules, key);
    }

    /** `INSERT INTO module (module_code, date, course_code) VALUES (?, ?, ?)` followed by
        `SELECT last_insert_rowid()`: the new row gets the next AUTOINCREMENT id. */
    method InsertModule(moduleCode: string, date: string, courseCode: string) returns (id: int)
      requires Valid()
      modifies this
      ensures Valid()
      ensures id == old(nextModuleId)
      ensures State() == old(State()).(modules := old(modules) + [ModuleRow(id, moduleCode, date, courseCode)],
                                       nextModuleId := id + 1)
    {
      id := nextModuleId;
      modules := modules + [ModuleRow(id, moduleCode, date, courseCode)];
      nextModuleId := id + 1;
    }

    /** `INSERT INTO grade (grade, grade_order, quantity, module_id) VALUES (?, ?, ?, ?)` */
    method InsertGrade(entry: GradeEntry, moduleId: int)
      requires Valid()
      requires moduleId < nextModuleId
      modifies this
      ensures Valid()
      ensures State() == old(State()).(
                grades := old(grades) + [GradeRow(old(nextGradeId), entry.grade, entry.gradeOrder, entry.quantity, moduleId)],
                nextGradeId := old(nextGradeId) + 1)
    {
      grades := grades + [GradeRow(nextGradeId, entry.grade, entry.gradeOrder, entry.quantity, moduleId)];
      nextGradeId := nextGradeId + 1;
    }

    /** `INSERT INTO course (course_code, last_updated_timestamp) VALUES (?, -1)`; the primary
        key refuses a code that is already present. */
    method InsertCourse(code: string) returns (inserted: bool)
      requires Valid()
      modifies this
      ensures Valid()
      ensures inserted <==> FindCourse(old(courses), code).None?
      ensures State() == if inserted then old(State()).(courses := old(courses) + [CourseRow(code, None, None, -1)])
                         else old(State())
    {
      inserted := FindCourse(courses, code).None?;
      if inserted {
        courses := courses + [CourseRow(code, None, None, -1)];
      }
    }

    /** The statements of a refresh from a non-empty payload, in the order issued: the course
        UPDATE, the module DELETE, then per payload element one module INSERT followed by one
        grade INSERT per grade, each grade pointing at the id of the module just inserted. */
    method WriteStatistics(updateKey: string, deleteKey: string, insertKey: string, data: seq<Stat>, now: int)
      requires Valid()
      requires |data| > 0
      modifies this
      ensures Valid()
      ensures State() == AfterRefresh(old(State()), updateKey, deleteKey, insertKey, data, now)
    {
      UpdateCourse(updateKey, data[0].courseTitle, now);
      DeleteModules(deleteKey);
      ghost var base := State();
      for i := 0 to |data|
        invariant Valid()
        invariant State() == AppendStats(base, data[..i], insertKey)
      {
        AppendStatsSnoc(base, data, i, insertKey);
        var _ := InsertStat(data[i], insertKey);
      }
      assert data[..|data|] == data;
    }

    /** One iteration of the outer loop of a refresh: the module INSERT, then the grade
        INSERTs pointing at the new module's id. */
    method InsertStat(stat: Stat, courseCode: string) returns (id: int)
      requires Valid()
      modifies this
      ensures Valid()
      ensures id == old(nextModuleId)
      ensures State() == AppendStat(old(State()), stat, courseCode)
    {
      id := InsertModule(stat.moduleCode, stat.examinationDate, courseCode);
      InsertGrades(stat.grades, id);
    }

    /** The inner loop of a refresh: one grade INSERT per entry, all pointing at `moduleId`. */
    method InsertGrades(entries: seq<GradeEntry>, moduleId: int)
      requires Valid()
      requires moduleId < nextModuleId
      modifies this
      ensures Valid()
      ensures State() == old(State()).(grades := old(grades) + GradeRows(entries, moduleId, old(nextGradeId)),
                                       nextGradeId := old(nextGradeId) + |entries|)
    {
      for j := 0 to |entries|
        invariant Valid()
        invariant State() == old(State()).(grades := old(grades) + GradeRows(entries[..j], moduleId, old(nextGradeId)),
                                           nextGradeId := old(nextGradeId) + j)
      {
        InsertGrade(entries[j], moduleId);
        assert GradeRows(entries[..j + 1], moduleId, old(nextGradeId))
            == GradeRows(entries[..j], moduleId, old(nextGradeId)) + [GradeRow(old(nextGradeId) + j, entries[j].grade, entries[j].gradeOrder, entries[j].quantity, moduleId)];
      }
      assert entries[..|entries|] == entries;
    }

    /** `update_course_data` of `database.ts`. `fetched` is what the statistics request for
        `code` returned (`None` for a non-2xx response). The UPDATE and the INSERTs use the
        upper-cased code; the DELETE uses the code as given. */
    method UpdateCourseData(code: string, fetched: Option<seq<Stat>>, now: int) returns (outcome: RefreshOutcome)
      requires Valid()
      modifies this
      ensures Valid()
      ensures fetched.None? ==> outcome == FetchFailed && State() == old(State())
      ensures fetched == Some([]) ==> outcome == Crashed && State() == old(State())
      ensures fetched.Some? && fetched.value != [] ==>
        outcome == Updated && State() == AfterRefresh(old(State()), Upper(code), code, Upper(code), fetched.value, now)
    {
      match fetched
      case None =>
        return FetchFailed;
      case Some(data) =>
        if data == [] {
          return Crashed;
        }
        WriteStatistics(Upper(code), code, Upper(code), data, now);
        return Updated;
    }

    /** `update_course_data` with the DELETE keyed, like the UPDATE and the INSERTs, by the
        upper-cased code, so that a refresh replaces the course's modules in any letter case. */
    method UpdateCourseDataIntended(code: string, fetched: Option<seq<Stat>>, now: int) returns (outcome: RefreshOutcome)
      requires Valid()
      modifies this
      ensures Valid()
      ensures fetched.None? ==> outcome == FetchFailed && State() == old(State())
      ensures fetched == Some([]) ==> outcome == Crashed && State() == old(State())
      ensures fetched.Some? && fetched.value != [] ==>
        outcome == Updated && State() == AfterRefresh(old(State()), Upper(code), Upper(code), Upper(code), fetched.value, now)
    {
      match fetched
      case None =>
        return FetchFailed;
      case Some(data) =>
        if data == [] {
          return Crashed;
        }
        WriteStatistics(Upper(code), Upper(code), Upper(code), data, now);
        return Updated;
    }

    /** The seeding step of `initializeDatabase`: only when the course table is empty, one
        INSERT per code that the course-code list returned (`fetchedCodes`). */
    method SeedCourses(fetchedCodes: seq<string>)
      requires Valid()
      modifies this
      ensures Valid()
      ensures old(courses) == [] ==> State() == old(State()).(courses := SeedRows(fetchedCodes))
      ensures old(courses) != [] ==> State() == old(State())
    {
      if courses != [] {
        return;
      }
      for i := 0 to |fetchedCodes|
        invariant Valid()
        invariant State() == old(State()).(courses := SeedRows(fetchedCodes[..i]))
      {
        var _ := InsertCourse(fetchedCodes[i]);
        assert fetchedCodes[..i + 1][..i] == fetchedCodes[..i];
      }
      assert fetchedCodes[..|fetchedCodes|] == fetchedCodes;
    }
  }
}
