/** The record shapes of the exam-statistics cache: the three table rows, the upstream
    statistics payload and the nested document served to clients. */
module Types {

  datatype Option<+T> = None | Some(value: T)

  /** A row of the `course` table. `code` is the primary key; both names are NULL until the
      course is first refreshed; `lastUpdated` is epoch milliseconds, or -1 for "never refreshed". */
  datatype CourseRow = CourseRow(code: string, nameSwe: Option<string>, nameEng: Option<string>, lastUpdated: int)

  /** A row of the `module` table: one examination of a course. `id` is an AUTOINCREMENT key. */
  datatype ModuleRow = ModuleRow(id: int, moduleCode: string, date: string, courseCode: string)

  /** A row of the `grade` table, attached to a module row through `moduleId`. */
  datatype GradeRow = GradeRow(id: int, grade: string, gradeOrder: int, quantity: int, moduleId: int)

  /** One grade bucket: its label, its sort key and the number of students who got it.
      The upstream payload and the served document use the same three fields. */
  datatype GradeEntry = GradeEntry(grade: string, gradeOrder: int, quantity: int)

  datatype Title = Title(sv: string, en: string)

  /** One element of the upstream statistics array: one examination of the course, with the
      course's title repeated in every element. */
  datatype Stat = Stat(courseTitle: Title, moduleCode: string, examinationDate: string, grades: seq<GradeEntry>)

  datatype FormattedModule = FormattedModule(moduleCode: string, date: string, grades: seq<GradeEntry>)

  /** The document served for one course (`FormattedCourseData`). */
  datatype FormattedCourse = FormattedCourse(
    courseCode: string,
    courseNameSwe: Option<string>,
    courseNameEng: Option<string>,
    lastUpdatedTimestamp: int,
    modules: seq<FormattedModule>)
}
