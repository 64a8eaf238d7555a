/** The pure filters that choose which course bindings a report looks at:
    the cohort's bindings of one type, the term list (exactly this level and
    semester), the cumulative list (everything up to this level and
    semester), and the year/semester window applied to registrations and
    results when rebuilding a student's history. */
module CourseLists {
  import opened Common
  import opened Records

  /** The level a report is about: (academic_year - year_submitted + 1) * 100. */
  function Level(academicYear: int, yearSubmitted: int): int
  {
    (academicYear - yearSubmitted + 1) * 100
  }

  /** The bindings of one course type for a cohort (`GroupCourse.find`). */
  function Bindings(all: seq<GroupCourse>, group: Id, studentSet: int, isCore: bool): (r: seq<GroupCourse>)
    ensures forall g :: g in r <==> g in all && g.group == group && g.studentSet == studentSet && g.isCore == isCore
  {
    Filter(all, (g: GroupCourse) => g.group == group && g.studentSet == studentSet && g.isCore == isCore)
  }

  /** The term list: a binding is kept when its course is of exactly the
      given semester and level. */
  function TermList(bindings: seq<GroupCourse>, level: int, semester: int): (r: seq<GroupCourse>)
    ensures forall g :: g in r <==> g in bindings && g.course.semester == semester && g.course.level == level
  {
    Filter(bindings, (g: GroupCourse) => g.course.semester == semester && g.course.level == level)
  }

  /** The test of the cumulative list's reduce: a course of the boundary
      level whose semester is later is dropped, anything else up to the
      level is kept. */
  predicate UpToCutoff(g: GroupCourse, level: int, semester: int)
  {
    if g.course.level == level && g.course.semester > semester then false
    else g.course.level <= level
  }

  /** The cumulative list: every course below the level, and the courses of
      the level itself up to the semester. */
  function CumulativeList(bindings: seq<GroupCourse>, level: int, semester: int): (r: seq<GroupCourse>)
    ensures forall g :: g in r <==> (g in bindings &&
      (g.course.level < level || (g.course.level == level && g.course.semester <= semester)))
  {
    Filter(bindings, (g: GroupCourse) => UpToCutoff(g, level, semester))
  }

  /** The test of the history window's reduce, on a record's year and its
      course's semester. */
  predicate InWindow(year: int, courseSemester: int, cutYear: int, cutSemester: int)
  {
    if year == cutYear && courseSemester > cutSemester then false
    else year <= cutYear
  }

  /** A record is in the window exactly when it is from an earlier year, or
      from the cut-off year and a semester no later than the cut-off one. */
  lemma InWindowIff(year: int, courseSemester: int, cutYear: int, cutSemester: int)
    ensures InWindow(year, courseSemester, cutYear, cutSemester) <==>
      (year < cutYear || (year == cutYear && courseSemester <= cutSemester))
  {
  }

  /** The term list is part of the cumulative list. */
  lemma TermListInCumulative(bindings: seq<GroupCourse>, level: int, semester: int)
    ensures forall g :: g in TermList(bindings, level, semester) ==> g in CumulativeList(bindings, level, semester)
  {
  }
}
