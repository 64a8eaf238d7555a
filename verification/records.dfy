/** The stored documents the results engine reads, with references already
    populated: a registration and a result carry the course document they
    point at, as they do after `.populate("course")`. */
module Records {
  import opened Common

  type Id = nat

  /** A course document: code (`course`), credit units, semester and level. */
  datatype Course = Course(id: Id, code: string, units: int, semester: int, level: int)

  /** A group course binding: a course assigned to a cohort (group and
      student set), `isCore` being the `course_type` flag (true = core). */
  datatype GroupCourse = GroupCourse(course: Course, isCore: bool, group: Id, studentSet: int, status: bool)

  datatype Student = Student(id: Id, group: Id, studentSet: int, entryYear: int, matric: string, name: string)

  /** A course registration: `year` is `year_registered`. */
  datatype Registration = Registration(student: Id, course: Course, year: int, regStatus: bool)

  /** A result document: `year` is `year_submitted`, `status` is `result_status`. */
  datatype ResultRow = ResultRow(student: Id, course: Course, year: int,
                                 ca1: int, ca2: int, ca3: int, exam: int, status: int)

  /** The store the engine queries, as in-memory collections in natural order. */
  datatype Db = Db(students: seq<Student>, bindings: seq<GroupCourse>,
                   regs: seq<Registration>, results: seq<ResultRow>)

  /** What the grade mapper returns for a total score. */
  datatype GradeData = GradeData(grade: string, points: int)

  /** The grade mapper together with the grade system configured for the
      student's group and set (the group options lookup). */
  type Grader = (Student, int) -> GradeData

  /** The score shown on a row and given to the grade mapper. */
  function Total(r: ResultRow): int
  {
    r.exam + r.ca1 + r.ca2 + r.ca3
  }

  /** A grade fails when its lower-cased letter is "f": a one-character
      string whose character lower-cases to 'f'. */
  predicate Fails(g: GradeData)
  {
    |g.grade| == 1 && LowerChar(g.grade[0]) == 'f'
  }

  /** The failing test is `toLowerCase() === "f"`, and only the letters "f"
      and "F" pass it. */
  lemma FailsIffLetterF(g: GradeData)
    ensures Fails(g) <==> Lower(g.grade) == "f"
    ensures Fails(g) <==> g.grade == "f" || g.grade == "F"
  {
    if Lower(g.grade) == "f" {
      assert Lower(g.grade)[0] == LowerChar(g.grade[0]);
    }
    if Fails(g) {
      assert Lower(g.grade) == [LowerChar(g.grade[0])];
      assert g.grade == [g.grade[0]];
    }
  }

  /** The students of a cohort for a given year: same group and set, entered
      no later than that year (`entry_year: { $lte: year }`). */
  function Cohort(students: seq<Student>, group: Id, studentSet: int, year: int): (r: seq<Student>)
    ensures forall s :: s in r <==> s in students && s.group == group && s.studentSet == studentSet && s.entryYear <= year
  {
    Filter(students, (s: Student) => s.group == group && s.studentSet == studentSet && s.entryYear <= year)
  }

  /** The cohort keeps the store's order: it distributes over a split of
      the store, and a single student is kept exactly when it belongs. */
  lemma CohortAppend(s: seq<Student>, t: seq<Student>, group: Id, studentSet: int, year: int)
    ensures Cohort(s + t, group, studentSet, year) == Cohort(s, group, studentSet, year) + Cohort(t, group, studentSet, year)
    ensures |s| == 1 ==>
      Cohort(s, group, studentSet, year) ==
      (if s[0].group == group && s[0].studentSet == studentSet && s[0].entryYear <= year then s else [])
  {
    FilterAppend(s, t, (x: Student) => x.group == group && x.studentSet == studentSet && x.entryYear <= year);
    if |s| == 1 {
      assert s[1..] == [];
    }
  }

  /** Course documents with the same id are the same document. */
  predicate SameIdSameCourse(a: Course, b: Course)
  {
    a.id == b.id ==> a == b
  }

  /** Every course document reachable from the store is consistent with the
      others of the same id, and no course has negative units. */
  predicate WellFormed(db: Db)
  {
    && (forall g :: g in db.bindings ==> g.course.units >= 0)
    && (forall r :: r in db.regs ==> r.course.units >= 0)
    && (forall x :: x in db.results ==> x.course.units >= 0)
    && (forall g, x :: g in db.bindings && x in db.results ==> SameIdSameCourse(g.course, x.course))
  }
}
