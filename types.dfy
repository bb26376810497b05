/** The records of the criteria editor and the audit screen. Every
    optional field of the source is an `Option`; `None` is an absent key. */
module Types {
  import opened Wrappers

  /** A grade: one of the named grades or any other string (an unknown grade
      counts as a fail for the audit service). */
  type Grade = string

  /** The grades the editor offers in its grade selectors. */
  const NamedGrades: seq<Grade> := ["A+", "A", "B+", "B", "C+", "C", "D+", "D", "E", "P"]

  datatype SlotKind = Required | Elective

  /** One graduation requirement. `courseName` and `minGrade` matter for a
      required slot, `allowedCourses` and `tag` for an elective one; the other
      group is carried along, not validated away. */
  datatype Slot = Slot(
    id: string,
    title: string,
    kind: SlotKind,
    courseName: Option<string>,
    minGrade: Option<Grade>,
    allowedCourses: Option<seq<string>>,
    priority: Option<int>,
    tag: Option<string>)

  /** The `when` part of a rule: course names of which any / all must have been passed. */
  datatype Condition = Condition(anyPassed: Option<seq<string>>, allPassed: Option<seq<string>>)

  /** The `then` part of a rule: slots to add (full Slot values, not
      references), slot titles and courses to waive. */
  datatype Effect = Effect(
    addSlots: Option<seq<Slot>>,
    waiveSlotsByTitle: Option<seq<string>>,
    waiveCourses: Option<seq<string>>)

  const EmptyCondition := Condition(None, None)
  const EmptyEffect := Effect(None, None, None)

  /** A conditional adjustment of the slot list, evaluated by the audit service. */
  datatype Rule = Rule(id: string, name: string, whenClause: Option<Condition>, thenClause: Option<Effect>)

  /** The criteria of one (year group, program, semester) key. */
  datatype SemesterData = SemesterData(slots: seq<Slot>, rules: seq<Rule>, checkpointLabel: Option<string>)

  /** `{ slots: [], rules: [] }`. */
  const EmptyData := SemesterData([], [], None)

  /** What the criteria endpoint returns for a key: nothing (`null`; an unset
      key) or an object whose `slots` and `rules` are lists when present
      (`None` stands for an absent or non-list field). */
  datatype StoredData =
    | Missing
    | Object(slots: Option<seq<Slot>>, rules: Option<seq<Rule>>, checkpointLabel: Option<string>)

  /** The body `saveSemesterData` sends for a buffer. */
  function ToStored(d: SemesterData): StoredData {
    Object(Some(d.slots), Some(d.rules), d.checkpointLabel)
  }

  /** One course line of a student, as the spreadsheet upload builds it
      (these fields differ from the declared `StudentRecord.courses`). */
  datatype CourseEntry = CourseEntry(
    code: string,
    category: string,
    subCategory: string,
    credits: real,
    earnedCredits: real,
    grade: Grade)

  datatype StudentRecord = StudentRecord(applicationNo: string, name: string, program: string, courses: seq<CourseEntry>)

  /** One student's verdict from the audit service. */
  datatype AuditOutcome = AuditOutcome(applicationNo: string, name: string, program: string, passed: bool, missing: seq<string>)
}
