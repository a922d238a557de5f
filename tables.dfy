/** The three SQLite tables (`course`, `module`, `grade`) as in-memory row sequences in table
    order, with each SQL statement the store issues written as a pure function on them, the
    course -> modules -> grades join, and the facts about them that the refresh relies on. */
module Tables {
  import opened Types

  /** The whole database: the three tables and the AUTOINCREMENT counters of `module` and
      `grade` (the next id each will hand out; ids are never reused, even after a DELETE). */
  datatype Db = Db(
    courses: seq<CourseRow>,
    modules: seq<ModuleRow>,
    grades: seq<GradeRow>,
    nextModuleId: int,
    nextGradeId: int)

  // ---------------------------------------------------------------------------------------
  // Selection (`SELECT * FROM t WHERE ...`, rows in table order)

  function Filter<T>(rows: seq<T>, keep: T -> bool): (r: seq<T>)
    ensures |r| <= |rows|
  {
    if rows == [] then []
    else if keep(rows[0]) then [rows[0]] + Filter(rows[1..], keep)
    else Filter(rows[1..], keep)
  }

  /** A selection holds exactly the rows that satisfy its condition. */
  lemma {:induction false} FilterMembers<T>(rows: seq<T>, keep: T -> bool)
    ensures forall x :: x in Filter(rows, keep) <==> x in rows && keep(x)
  {
    if rows != [] {
      FilterMembers(rows[1..], keep);
      assert rows == [rows[0]] + rows[1..];
    }
  }

  /** A selection keeps table order: selecting from `a + b` selects from `a`, then from `b`. */
  lemma {:induction false} FilterAppend<T>(a: seq<T>, b: seq<T>, keep: T -> bool)
    ensures Filter(a + b, keep) == Filter(a, keep) + Filter(b, keep)
  {
    if a == [] {
      assert a + b == b;
    } else {
      assert (a + b)[0] == a[0];
      assert (a + b)[1..] == a[1..] + b;
      FilterAppend(a[1..], b, keep);
    }
  }

  lemma {:induction false} FilterNone<T>(rows: seq<T>, keep: T -> bool)
    requires forall i :: 0 <= i < |rows| ==> !keep(rows[i])
    ensures Filter(rows, keep) == []
  {
    if rows != [] {
      assert !keep(rows[0]);
      FilterNone(rows[1..], keep);
    }
  }

  lemma {:induction false} FilterAll<T>(rows: seq<T>, keep: T -> bool)
    requires forall i :: 0 <= i < |rows| ==> keep(rows[i])
    ensures Filter(rows, keep) == rows
  {
    if rows != [] {
      assert keep(rows[0]);
      FilterAll(rows[1..], keep);
      assert rows == [rows[0]] + rows[1..];
    }
  }

  function OfCourse(code: string): ModuleRow -> bool {
    (m: ModuleRow) => m.courseCode == code
  }

  function NotOfCourse(code: string): ModuleRow -> bool {
    (m: ModuleRow) => m.courseCode != code
  }

  function OfModule(id: int): GradeRow -> bool {
    (g: GradeRow) => g.moduleId == id
  }

  /** `SELECT * FROM module WHERE course_code = ?` */
  function ModulesOf(modules: seq<ModuleRow>, code: string): seq<ModuleRow> {
    Filter(modules, OfCourse(code))
  }

  /** What `DELETE FROM module WHERE course_code = ?` leaves behind. */
  function OtherModules(modules: seq<ModuleRow>, code: string): seq<ModuleRow> {
    Filter(modules, NotOfCourse(code))
  }

  /** `SELECT * FROM grade WHERE module_id = ?` */
  function GradesOf(grades: seq<GradeRow>, moduleId: int): seq<GradeRow> {
    Filter(grades, OfModule(moduleId))
  }

  /** `SELECT * FROM course WHERE course_code = ?` through `db.get`: the first matching row. */
  function FindCourse(rows: seq<CourseRow>, code: string): (r: Option<CourseRow>)
    ensures r.Some? ==> r.value in rows && r.value.code == code
    ensures r.None? <==> forall row :: row in rows ==> row.code != code
  {
    if rows == [] then None
    else if rows[0].code == code then Some(rows[0])
    else FindCourse(rows[1..], code)
  }

  // ---------------------------------------------------------------------------------------
  // Table invariants

  /** `course_code` is the primary key of `course`. */
  predicate UniqueCodes(rows: seq<CourseRow>) {
    forall i, j :: 0 <= i < j < |rows| ==> rows[i].code != rows[j].code
  }

  /** Every id handed out so far is below its table's counter, and every grade refers to a module
      id that has been handed out (so a module id handed out later has no grades yet). */
  predicate Consistent(db: Db) {
    && UniqueCodes(db.courses)
    && 1 <= db.nextModuleId && 1 <= db.nextGradeId
    && (forall m :: m in db.modules ==> 1 <= m.id < db.nextModuleId)
    && (forall g :: g in db.grades ==> 1 <= g.id < db.nextGradeId && g.moduleId < db.nextModuleId)
  }

  // ---------------------------------------------------------------------------------------
  // Writes

  /** `UPDATE course SET last_updated_timestamp = ?, course_name_swe = ?, course_name_eng = ?
      WHERE course_code = ?`: the rows with code `key` get the new names and timestamp, every
      other row is left as it was, and no row moves. */
  function UpdateCourseRows(rows: seq<CourseRow>, key: string, title: Title, ts: int): (r: seq<CourseRow>)
    ensures |r| == |rows|
    ensures forall i :: 0 <= i < |rows| && rows[i].code != key ==> r[i] == rows[i]
    ensures forall i :: 0 <= i < |rows| && rows[i].code == key ==> r[i] == CourseRow(key, Some(title.sv), Some(title.en), ts)
  {
    if rows == [] then []
    else
      [if rows[0].code == key then CourseRow(key, Some(title.sv), Some(title.en), ts) else rows[0]]
      + UpdateCourseRows(rows[1..], key, title, ts)
  }

  /** The module rows inserted for `data`, one per element, with consecutive ids from `firstId`. */
  function ModuleRowsFor(data: seq<Stat>, courseCode: string, firstId: int): seq<ModuleRow> {
    seq(|data|, i requires 0 <= i < |data| => ModuleRow(firstId + i, data[i].moduleCode, data[i].examinationDate, courseCode))
  }

  /** The grade rows inserted for one module's grade list, with consecutive ids from `firstId`. */
  function GradeRows(entries: seq<GradeEntry>, moduleId: int, firstId: int): seq<GradeRow> {
    seq(|entries|, i requires 0 <= i < |entries| =>
      GradeRow(firstId + i, entries[i].grade, entries[i].gradeOrder, entries[i].quantity, moduleId))
  }

  function GradeCount(data: seq<Stat>): nat {
    if data == [] then 0 else GradeCount(data[..|data| - 1]) + |data[|data| - 1].grades|
  }

  /** All grade rows inserted for `data`: module after module, the i-th element's grades
      pointing at module id `firstModuleId + i`. */
  function GradeRowsFor(data: seq<Stat>, firstModuleId: int, firstGradeId: int): (r: seq<GradeRow>)
    ensures |r| == GradeCount(data)
    ensures forall i :: 0 <= i < |r| ==>
      && firstModuleId <= r[i].moduleId < firstModuleId + |data|
      && firstGradeId <= r[i].id < firstGradeId + GradeCount(data)
  {
    if data == [] then []
    else
      var n := |data| - 1;
      GradeRowsFor(data[..n], firstModuleId, firstGradeId)
      + GradeRows(data[n].grades, firstModuleId + n, firstGradeId + GradeCount(data[..n]))
  }

  /** The tables after a refresh of one course from a non-empty statistics payload `data`,
      with the course row updated under `updateKey`, module rows deleted under `deleteKey` and
      the new module rows inserted under `insertKey`. Grade rows are only ever appended. */
  function AfterRefresh(db: Db, updateKey: string, deleteKey: string, insertKey: string, data: seq<Stat>, now: int): Db
    requires |data| > 0
  {
    AppendStats(db.(courses := UpdateCourseRows(db.courses, updateKey, data[0].courseTitle, now),
                    modules := OtherModules(db.modules, deleteKey)),
                data, insertKey)
  }

  /** The tables after appending one module row for `stat` under `courseCode`, and its grade
      rows, with the next free ids of both tables. */
  function AppendStat(db: Db, stat: Stat, courseCode: string): Db {
    db.(modules := db.modules + [ModuleRow(db.nextModuleId, stat.moduleCode, stat.examinationDate, courseCode)],
        grades := db.grades + GradeRows(stat.grades, db.nextModuleId, db.nextGradeId),
        nextModuleId := db.nextModuleId + 1,
        nextGradeId := db.nextGradeId + |stat.grades|)
  }

  /** The tables after appending the module and grade rows of every entry of `data`. */
  function AppendStats(db: Db, data: seq<Stat>, courseCode: string): Db {
    db.(modules := db.modules + ModuleRowsFor(data, courseCode, db.nextModuleId),
        grades := db.grades + GradeRowsFor(data, db.nextModuleId, db.nextGradeId),
        nextModuleId := db.nextModuleId + |data|,
        nextGradeId := db.nextGradeId + GradeCount(data))
  }

  /** Appending the entries of a payload one at a time, in order, appends them all. */
  lemma AppendStatsSnoc(db: Db, data: seq<Stat>, i: int, courseCode: string)
    requires 0 <= i < |data|
    ensures AppendStats(db, data[..i + 1], courseCode) == AppendStat(AppendStats(db, data[..i], courseCode), data[i], courseCode)
  {
    RowsForPrefix(data, i, courseCode, db.nextModuleId, db.nextGradeId);
    var mid := AppendStats(db, data[..i], courseCode);
    var step := GradeRows(data[i].grades, db.nextModuleId + i, db.nextGradeId + GradeCount(data[..i]));
    assert mid.grades + step == db.grades + (GradeRowsFor(data[..i], db.nextModuleId, db.nextGradeId) + step);
  }

  /** The course rows after seeding an empty table with `codes`, one INSERT per code in order;
      an INSERT of a code already present is refused by the primary key. */
  function SeedRows(codes: seq<string>): seq<CourseRow> {
    if codes == [] then []
    else
      var rows := SeedRows(codes[..|codes| - 1]);
      var code := codes[|codes| - 1];
      if FindCourse(rows, code).Some? then rows else rows + [CourseRow(code, None, None, -1)]
  }

  // ---------------------------------------------------------------------------------------
  // The served document

  /** A grade row projected to `{grade, gradeOrder, quantity}`. */
  function Project(rows: seq<GradeRow>): seq<GradeEntry> {
    seq(|rows|, i requires 0 <= i < |rows| => GradeEntry(rows[i].grade, rows[i].gradeOrder, rows[i].quantity))
  }

  function FormatModule(m: ModuleRow, grades: seq<GradeRow>): FormattedModule {
    FormattedModule(m.moduleCode, m.date, Project(GradesOf(grades, m.id)))
  }

  function FormatModules(mods: seq<ModuleRow>, grades: seq<GradeRow>): seq<FormattedModule> {
    seq(|mods|, i requires 0 <= i < |mods| => FormatModule(mods[i], grades))
  }

  /** The course whose code is exactly `key`, with its module rows in table order and each
      module's grade rows in table order; absent when there is no such course. */
  function Join(db: Db, key: string): (r: Option<FormattedCourse>)
    ensures r.None? <==> FindCourse(db.courses, key).None?
    ensures r.Some? ==> r.value.courseCode == key && |r.value.modules| == |ModulesOf(db.modules, key)|
  {
    match FindCourse(db.courses, key)
    case None => None
    case Some(row) =>
      Some(FormattedCourse(row.code, row.nameSwe, row.nameEng, row.lastUpdated,
                           FormatModules(ModulesOf(db.modules, key), db.grades)))
  }

  /** The modules of a statistics payload, as the served document shows them. */
  function PayloadModules(data: seq<Stat>): seq<FormattedModule> {
    seq(|data|, i requires 0 <= i < |data| => FormattedModule(data[i].moduleCode, data[i].examinationDate, data[i].grades))
  }

  /** The document a course should read as right after a refresh from `data` at time `now`. */
  function PayloadDocument(code: string, data: seq<Stat>, now: int): FormattedCourse
    requires |data| > 0
  {
    FormattedCourse(code, Some(data[0].courseTitle.sv), Some(data[0].courseTitle.en), now, PayloadModules(data))
  }

  // ---------------------------------------------------------------------------------------
  // Lemmas

  /** The rows inserted for the first i + 1 payload elements are those for the first i, then
      the module row and the grade rows of element i. */
  lemma RowsForPrefix(data: seq<Stat>, i: int, courseCode: string, firstModuleId: int, firstGradeId: int)
    requires 0 <= i < |data|
    ensures ModuleRowsFor(data[..i + 1], courseCode, firstModuleId)
         == ModuleRowsFor(data[..i], courseCode, firstModuleId)
            + [ModuleRow(firstModuleId + i, data[i].moduleCode, data[i].examinationDate, courseCode)]
    ensures GradeCount(data[..i + 1]) == GradeCount(data[..i]) + |data[i].grades|
    ensures GradeRowsFor(data[..i + 1], firstModuleId, firstGradeId)
         == GradeRowsFor(data[..i], firstModuleId, firstGradeId)
            + GradeRows(data[i].grades, firstModuleId + i, firstGradeId + GradeCount(data[..i]))
  {
    assert data[..i + 1][..i] == data[..i];
  }

  /** After the UPDATE, looking up its key finds the updated row, and every other code finds
      what it found before. */
  lemma {:induction false} FindAfterUpdate(rows: seq<CourseRow>, key: string, title: Title, ts: int, code: string)
    ensures code == key && FindCourse(rows, key).Some? ==>
      FindCourse(UpdateCourseRows(rows, key, title, ts), code) == Some(CourseRow(key, Some(title.sv), Some(title.en), ts))
    ensures code != key ==> FindCourse(UpdateCourseRows(rows, key, title, ts), code) == FindCourse(rows, code)
  {
    if rows != [] {
      var r := UpdateCourseRows(rows, key, title, ts);
      assert r[1..] == UpdateCourseRows(rows[1..], key, title, ts);
      FindAfterUpdate(rows[1..], key, title, ts, code);
    }
  }

  /** Deleting the module rows of `deleteKey` removes every module of `deleteKey` and leaves the
      module list of every other course exactly as it was. */
  lemma {:induction false} ModulesOfAfterDelete(modules: seq<ModuleRow>, deleteKey: string, code: string)
    ensures ModulesOf(OtherModules(modules, deleteKey), code) == if code == deleteKey then [] else ModulesOf(modules, code)
  {
    if modules != [] {
      ModulesOfAfterDelete(modules[1..], deleteKey, code);
    }
  }

  lemma ModulesOfInserted(data: seq<Stat>, insertKey: string, firstId: int, code: string)
    ensures ModulesOf(ModuleRowsFor(data, insertKey, firstId), code) == if code == insertKey then ModuleRowsFor(data, insertKey, firstId) else []
  {
    var rows := ModuleRowsFor(data, insertKey, firstId);
    if code == insertKey {
      FilterAll(rows, OfCourse(code));
    } else {
      FilterNone(rows, OfCourse(code));
    }
  }

  /** The grades inserted for the last element of a payload are exactly the grades that the
      last new module id selects. */
  lemma GradesOfLastModule(data: seq<Stat>, firstModuleId: int, firstGradeId: int)
    requires |data| > 0
    ensures var n := |data| - 1;
      GradesOf(GradeRowsFor(data, firstModuleId, firstGradeId), firstModuleId + n)
      == GradeRows(data[n].grades, firstModuleId + n, firstGradeId + GradeCount(data[..n]))
  {
    var n := |data| - 1;
    var before := GradeRowsFor(data[..n], firstModuleId, firstGradeId);
    var last := GradeRows(data[n].grades, firstModuleId + n, firstGradeId + GradeCount(data[..n]));
    var keep := OfModule(firstModuleId + n);
    FilterAppend(before, last, keep);
    FilterNone(before, keep);
    FilterAll(last, keep);
  }

  /** The grades inserted for the k-th element of a payload are exactly the grades that the
      k-th new module id selects, in payload order. */
  lemma {:induction false} GradesOfNewModule(data: seq<Stat>, firstModuleId: int, firstGradeId: int, k: int)
    requires 0 <= k < |data|
    ensures GradesOf(GradeRowsFor(data, firstModuleId, firstGradeId), firstModuleId + k)
         == GradeRows(data[k].grades, firstModuleId + k, firstGradeId + GradeCount(data[..k]))
  {
    var n := |data| - 1;
    if k == n {
      GradesOfLastModule(data, firstModuleId, firstGradeId);
    } else {
      var init := data[..n];
      var before := GradeRowsFor(init, firstModuleId, firstGradeId);
      var last := GradeRows(data[n].grades, firstModuleId + n, firstGradeId + GradeCount(init));
      var keep := OfModule(firstModuleId + k);
      assert GradeRowsFor(data, firstModuleId, firstGradeId) == before + last;
      FilterAppend(before, last, keep);
      GradesOfNewModule(init, firstModuleId, firstGradeId, k);
      FilterNone(last, keep);
      assert init[k] == data[k];
      assert init[..k] == data[..k];
    }
  }

  /** Appending the rows of a refresh adds no grade to a module id handed out before it. */
  lemma GradesOfOldModule(grades: seq<GradeRow>, data: seq<Stat>, firstModuleId: int, firstGradeId: int, id: int)
    requires id < firstModuleId
    ensures GradesOf(grades + GradeRowsFor(data, firstModuleId, firstGradeId), id) == GradesOf(grades, id)
  {
    var added := GradeRowsFor(data, firstModuleId, firstGradeId);
    FilterAppend(grades, added, OfModule(id));
    FilterNone(added, OfModule(id));
  }

  lemma FormatModulesAppend(a: seq<ModuleRow>, b: seq<ModuleRow>, grades: seq<GradeRow>)
    ensures FormatModules(a + b, grades) == FormatModules(a, grades) + FormatModules(b, grades)
  {
  }

  /** Modules that existed before a refresh are formatted with the same grades after it. */
  lemma FormatOldModules(mods: seq<ModuleRow>, grades: seq<GradeRow>, data: seq<Stat>, firstModuleId: int, firstGradeId: int)
    requires forall m :: m in mods ==> m.id < firstModuleId
    ensures FormatModules(mods, grades + GradeRowsFor(data, firstModuleId, firstGradeId)) == FormatModules(mods, grades)
  {
    forall i | 0 <= i < |mods|
      ensures FormatModule(mods[i], grades + GradeRowsFor(data, firstModuleId, firstGradeId)) == FormatModule(mods[i], grades)
    {
      assert mods[i] in mods;
      GradesOfOldModule(grades, data, firstModuleId, firstGradeId, mods[i].id);
    }
  }

  /** The module rows inserted by a refresh format back to exactly the payload's modules. */
  lemma FormatNewModules(grades: seq<GradeRow>, data: seq<Stat>, insertKey: string, firstModuleId: int, firstGradeId: int)
    requires forall g :: g in grades ==> g.moduleId < firstModuleId
    ensures FormatModules(ModuleRowsFor(data, insertKey, firstModuleId), grades + GradeRowsFor(data, firstModuleId, firstGradeId))
         == PayloadModules(data)
  {
    var mods := ModuleRowsFor(data, insertKey, firstModuleId);
    var added := GradeRowsFor(data, firstModuleId, firstGradeId);
    forall k | 0 <= k < |data|
      ensures FormatModule(mods[k], grades + added) == PayloadModules(data)[k]
    {
      var keep := OfModule(firstModuleId + k);
      FilterAppend(grades, added, keep);
      FilterNone(grades, keep);
      GradesOfNewModule(data, firstModuleId, firstGradeId, k);
    }
  }

  /** The refresh round trip: after a refresh that updates and inserts under the course's own
      code `key`, the course reads back with the payload's title and `now`, and with the
      payload's modules, in payload order and each with its grades unchanged, after whatever
      modules the DELETE left behind (none when it was keyed on `key` too). */
  lemma JoinAfterRefresh(db: Db, key: string, deleteKey: string, data: seq<Stat>, now: int)
    requires Consistent(db)
    requires FindCourse(db.courses, key).Some?
    requires |data| > 0
    ensures Join(AfterRefresh(db, key, deleteKey, key, data, now), key)
         == Some(FormattedCourse(key, Some(data[0].courseTitle.sv), Some(data[0].courseTitle.en), now,
                                 (if deleteKey == key then [] else Join(db, key).value.modules) + PayloadModules(data)))
  {
    var after := AfterRefresh(db, key, deleteKey, key, data, now);
    FindAfterUpdate(db.courses, key, data[0].courseTitle, now, key);
    var kept := OtherModules(db.modules, deleteKey);
    var added := ModuleRowsFor(data, key, db.nextModuleId);
    FilterAppend(kept, added, OfCourse(key));
    ModulesOfAfterDelete(db.modules, deleteKey, key);
    ModulesOfInserted(data, key, db.nextModuleId, key);
    var survivors := ModulesOf(kept, key);
    assert ModulesOf(after.modules, key) == survivors + added;
    FormatModulesAppend(survivors, added, after.grades);
    FilterMembers(kept, OfCourse(key));
    FilterMembers(db.modules, NotOfCourse(deleteKey));
    FormatOldModules(survivors, db.grades, data, db.nextModuleId, db.nextGradeId);
    FormatNewModules(db.grades, data, key, db.nextModuleId, db.nextGradeId);
  }

  /** A refresh leaves the document of every course it is not keyed on exactly as it was. */
  lemma JoinOtherAfterRefresh(db: Db, updateKey: string, deleteKey: string, insertKey: string, data: seq<Stat>, now: int, code: string)
    requires Consistent(db)
    requires |data| > 0
    requires code != updateKey && code != deleteKey && code != insertKey
    ensures Join(AfterRefresh(db, updateKey, deleteKey, insertKey, data, now), code) == Join(db, code)
  {
    var after := AfterRefresh(db, updateKey, deleteKey, insertKey, data, now);
    FindAfterUpdate(db.courses, updateKey, data[0].courseTitle, now, code);
    var kept := OtherModules(db.modules, deleteKey);
    var added := ModuleRowsFor(data, insertKey, db.nextModuleId);
    FilterAppend(kept, added, OfCourse(code));
    ModulesOfAfterDelete(db.modules, deleteKey, code);
    ModulesOfInserted(data, insertKey, db.nextModuleId, code);
    assert ModulesOf(after.modules, code) == ModulesOf(db.modules, code);
    FilterMembers(db.modules, OfCourse(code));
    FormatOldModules(ModulesOf(db.modules, code), db.grades, data, db.nextModuleId, db.nextGradeId);
  }

  /** A refresh keeps the tables consistent; every module id it hands out is larger than every
      id in the module table before it and than every module id a grade row refers to, so no
      grade left behind by an earlier DELETE attaches to a new module. */
  lemma AfterRefreshConsistent(db: Db, updateKey: string, deleteKey: string, insertKey: string, data: seq<Stat>, now: int)
    requires Consistent(db)
    requires |data| > 0
    ensures Consistent(AfterRefresh(db, updateKey, deleteKey, insertKey, data, now))
    ensures forall m, n :: m in db.modules && n in ModuleRowsFor(data, insertKey, db.nextModuleId) ==> m.id < n.id
    ensures forall g, n :: g in db.grades && n in ModuleRowsFor(data, insertKey, db.nextModuleId) ==> g.moduleId < n.id
  {
    var after := AfterRefresh(db, updateKey, deleteKey, insertKey, data, now);
    FilterMembers(db.modules, NotOfCourse(deleteKey));
    var rows := UpdateCourseRows(db.courses, updateKey, data[0].courseTitle, now);
    assert forall i :: 0 <= i < |rows| ==> rows[i].code == db.courses[i].code;
  }
}
