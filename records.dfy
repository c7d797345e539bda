/** The rows the dashboard fetches and the standing it computes for each student. */
module Records {
  import opened Wrappers
  import opened JsNumber

  /** Row identifiers of the data store. */
  type Id = string

  /** A row of the `classes` table. */
  datatype ClassRow = ClassRow(id: Id, name: string)

  /** A subject: the classes it is taught to, its exam years and its papers with
      their maximum marks (either list may be absent in a stored row). */
  datatype Subject = Subject(
    id: Id,
    teacherId: Id,
    name: string,
    classes: seq<string>,
    startYear: int,
    endYear: int,
    papers: Option<seq<string>>,
    maxMarks: Option<seq<int>>)

  /** One exam session's marks. Each paper field holds what `Number()` yields for
      the stored value (`NaN` when the field is missing or not numeric). */
  datatype ExamEntry = ExamEntry(
    p1: JsNumber, p2: JsNumber, p3: JsNumber, p4: JsNumber,
    sessionName: string,
    subjectId: Id)

  /** A row of the `students` table together with its exam entries. */
  datatype Student = Student(id: Id, name: string, classId: Id, examEntries: seq<ExamEntry>)

  /** Syllabus progress, per paper index. */
  type Progress = map<nat, real>

  /** A student as the dashboard shows it: the student's fields, the class name,
      totals, percentages, progress, the current subject's entries and both ranks. */
  datatype Standing = Standing(
    student: Student,
    className: string,
    maxPossible: int,
    total: real,
    percentage: int,
    exactPercentage: real,
    progress: Progress,
    allEntries: seq<ExamEntry>,
    globalRank: nat,
    classRank: nat)
}
