/** The history pass of the results engine (`getPreviousData` and
    `getPreviousResult`): for every course of the cumulative lists, whether
    the student registered for it up to the report's year and semester,
    the last passing attempt among the visible results of that window, and
    the carry-over remarks of the core courses never passed. */
module Cumulative {
  import opened Common
  import opened Records
  import opened CourseLists
  import opened TermAggregation

  /** The student's `reg_status` registrations for a course, of any year,
      that fall in the window ending at the given year and semester. */
  function WindowRegs(regs: seq<Registration>, sid: Id, cid: Id, year: int, semester: int): (r: seq<Registration>)
    ensures forall x :: x in r <==> (x in regs && x.student == sid && x.course.id == cid && x.regStatus
                                   && InWindow(x.year, x.course.semester, year, semester))
  {
    Filter(regs, (x: Registration) => x.student == sid && x.course.id == cid && x.regStatus
                                      && InWindow(x.year, x.course.semester, year, semester))
  }

  /** The student's results for a course, of any year, whose status is
      visible and that fall in the window. */
  function WindowResults(results: seq<ResultRow>, sid: Id, cid: Id, year: int, semester: int, visible: set<int>)
    : (r: seq<ResultRow>)
    ensures forall x :: x in r <==> (x in results && x.student == sid && x.course.id == cid && x.status in visible
                                   && InWindow(x.year, x.course.semester, year, semester))
  {
    Filter(results, (x: ResultRow) => x.student == sid && x.course.id == cid && x.status in visible
                                      && InWindow(x.year, x.course.semester, year, semester))
  }

  /** An attempt passes when its grade is not "f". */
  predicate Passes(r: ResultRow, student: Student, grader: Grader)
  {
    !Fails(grader(student, Total(r)))
  }

  /** What the attempts of one course resolve to: whether one passed, and
      the credits and grade points of the passing attempt kept. */
  datatype Slap = Slap(found: bool, ctce: int, ctgp: int)

  /** What a passing attempt is worth: its course's units and its grade
      points times those units. */
  function Credit(r: ResultRow, student: Student, grader: Grader): Slap
  {
    Slap(true, r.course.units, grader(student, Total(r)).points * r.course.units)
  }

  /** One step of the attempts' reduce: a passing attempt overwrites
      whatever an earlier one recorded; a failing one changes nothing. */
  function SlapStep(acc: Slap, r: ResultRow, student: Student, grader: Grader): Slap
  {
    if Passes(r, student, grader) then Credit(r, student, grader) else acc
  }

  function FoldSlap(acc: Slap, rs: seq<ResultRow>, student: Student, grader: Grader): Slap
    decreases |rs|
  {
    if rs == [] then acc else FoldSlap(SlapStep(acc, rs[0], student, grader), rs[1..], student, grader)
  }

  /** The position of the last passing attempt, if any. */
  function LastPassing(rs: seq<ResultRow>, student: Student, grader: Grader): (r: Option<nat>)
    ensures r.Some? ==> (r.value < |rs| && Passes(rs[r.value], student, grader)
                         && forall j :: r.value < j < |rs| ==> !Passes(rs[j], student, grader))
    ensures r.None? ==> forall j :: 0 <= j < |rs| ==> !Passes(rs[j], student, grader)
    decreases |rs|
  {
    if rs == [] then None
    else if Passes(rs[|rs| - 1], student, grader) then Some(|rs| - 1)
    else LastPassing(rs[..|rs| - 1], student, grader)
  }

  lemma {:induction false} FoldSlapSnoc(acc: Slap, rs: seq<ResultRow>, x: ResultRow, student: Student, grader: Grader)
    ensures FoldSlap(acc, rs + [x], student, grader) == SlapStep(FoldSlap(acc, rs, student, grader), x, student, grader)
    decreases |rs|
  {
    if rs == [] {
      assert [] + [x] == [x];
    } else {
      assert (rs + [x])[1..] == rs[1..] + [x];
      FoldSlapSnoc(SlapStep(acc, rs[0], student, grader), rs[1..], x, student, grader);
    }
  }

  /** The reduce over the attempts keeps the last passing one: with none,
      the accumulator is unchanged; otherwise it records that attempt's
      credit, whatever came before. */
  lemma {:induction false} FoldSlapIsLastPassing(acc: Slap, rs: seq<ResultRow>, student: Student, grader: Grader)
    ensures LastPassing(rs, student, grader).None? ==> FoldSlap(acc, rs, student, grader) == acc
    ensures LastPassing(rs, student, grader).Some? ==>
      FoldSlap(acc, rs, student, grader) == Credit(rs[LastPassing(rs, student, grader).value], student, grader)
    decreases |rs|
  {
    if rs != [] {
      var init := rs[..|rs| - 1];
      var last := rs[|rs| - 1];
      assert rs == init + [last];
      FoldSlapSnoc(acc, init, last, student, grader);
      FoldSlapIsLastPassing(acc, init, student, grader);
    }
  }

  /** What one course of a cumulative list adds to the history: credits
      registered, credits earned, grade points, and the carry-over remark
      (the course's code) if there is one. */
  datatype Contribution = Contribution(ctcr: int, ctce: int, ctgp: int, remark: Option<string>)

  /** One course's turn in `getPreviousData`'s reduce. A course never
      registered in the window is a carry-over; a registered one counts its
      units once toward CTCR; with no visible result in the window it adds
      nothing else; otherwise the last passing attempt's credit is earned,
      and with no passing attempt it is a carry-over. */
  function CourseHistory(gc: GroupCourse, ctx: Ctx, semester: int): (c: Contribution)
    ensures c.ctcr == 0 || c.ctcr == gc.course.units
    ensures c.remark.Some? ==> c.remark.value == gc.course.code
  {
    if WindowRegs(ctx.db.regs, ctx.student.id, gc.course.id, ctx.year, semester) == [] then
      Contribution(0, 0, 0, Some(gc.course.code))
    else if WindowResults(ctx.db.results, ctx.student.id, gc.course.id, ctx.year, semester, ctx.visible) == [] then
      Contribution(gc.course.units, 0, 0, None)
    else if !FoldSlap(Slap(false, 0, 0),
                      WindowResults(ctx.db.results, ctx.student.id, gc.course.id, ctx.year, semester, ctx.visible),
                      ctx.student, ctx.grader).found then
      Contribution(gc.course.units, 0, 0, Some(gc.course.code))
    else
      Contribution(gc.course.units,
                   FoldSlap(Slap(false, 0, 0),
                            WindowResults(ctx.db.results, ctx.student.id, gc.course.id, ctx.year, semester, ctx.visible),
                            ctx.student, ctx.grader).ctce,
                   FoldSlap(Slap(false, 0, 0),
                            WindowResults(ctx.db.results, ctx.student.id, gc.course.id, ctx.year, semester, ctx.visible),
                            ctx.student, ctx.grader).ctgp,
                   None)
  }

  /** A course is a carry-over exactly when the student has no registration
      for it in the window, or has visible results in the window and none
      of them passes; a registered course with no result yet is not one.
      CTCR counts the course's units once when it is registered, however
      many registrations there are, and the credit earned is that of the
      last passing attempt. */
  lemma CourseHistoryMeaning(gc: GroupCourse, ctx: Ctx, semester: int)
    ensures var c := CourseHistory(gc, ctx, semester);
      var regs := WindowRegs(ctx.db.regs, ctx.student.id, gc.course.id, ctx.year, semester);
      var rs := WindowResults(ctx.db.results, ctx.student.id, gc.course.id, ctx.year, semester, ctx.visible);
      && (c.remark.Some? <==> (regs == [] || (rs != [] && LastPassing(rs, ctx.student, ctx.grader).None?)))
      && (c.remark.Some? ==> c.remark.value == gc.course.code)
      && c.ctcr == (if regs == [] then 0 else gc.course.units)
      && (regs == [] || LastPassing(rs, ctx.student, ctx.grader).None? ==> c.ctce == 0 && c.ctgp == 0)
      && (regs != [] && LastPassing(rs, ctx.student, ctx.grader).Some? ==>
            (c.ctce == rs[LastPassing(rs, ctx.student, ctx.grader).value].course.units
             && c.ctgp == Credit(rs[LastPassing(rs, ctx.student, ctx.grader).value], ctx.student, ctx.grader).ctgp))
  {
    var rs := WindowResults(ctx.db.results, ctx.student.id, gc.course.id, ctx.year, semester, ctx.visible);
    FoldSlapIsLastPassing(Slap(false, 0, 0), rs, ctx.student, ctx.grader);
  }

  /** With a consistent store and a course of the store's bindings, a course
      never earns more than it registers. */
  lemma CourseHistoryEarnedWithinRegistered(gc: GroupCourse, ctx: Ctx, semester: int)
    requires WellFormed(ctx.db) && gc in ctx.db.bindings
    ensures 0 <= CourseHistory(gc, ctx, semester).ctce <= CourseHistory(gc, ctx, semester).ctcr
  {
    CourseHistoryMeaning(gc, ctx, semester);
    var regs := WindowRegs(ctx.db.regs, ctx.student.id, gc.course.id, ctx.year, semester);
    var rs := WindowResults(ctx.db.results, ctx.student.id, gc.course.id, ctx.year, semester, ctx.visible);
    if regs != [] && LastPassing(rs, ctx.student, ctx.grader).Some? {
      var x := rs[LastPassing(rs, ctx.student, ctx.grader).value];
      assert x in rs;
      assert SameIdSameCourse(gc.course, x.course);
    }
  }

  // ---------------------------------------------------------------------
  // The reduce over a cumulative list
  // ---------------------------------------------------------------------

  /** What `getPreviousData` resolves with. */
  datatype History = History(ctcr: int, ctce: int, ctgp: int, remarks: seq<string>)

  /** The accumulation step: add the credits, push the remark if any. */
  function FoldHistory(acc: History, cs: seq<Contribution>): History
    decreases |cs|
  {
    if cs == [] then acc
    else FoldHistory(History(acc.ctcr + cs[0].ctcr, acc.ctce + cs[0].ctce, acc.ctgp + cs[0].ctgp,
                             acc.remarks + (if cs[0].remark.Some? then [cs[0].remark.value] else [])),
                     cs[1..])
  }

  /** Reference definitions: the sums of the contributions and the list of
      their remarks, in order. */
  function SumHistory(cs: seq<Contribution>): History
  {
    if cs == [] then History(0, 0, 0, [])
    else History(cs[0].ctcr + SumHistory(cs[1..]).ctcr, cs[0].ctce + SumHistory(cs[1..]).ctce,
                 cs[0].ctgp + SumHistory(cs[1..]).ctgp,
                 (if cs[0].remark.Some? then [cs[0].remark.value] else []) + SumHistory(cs[1..]).remarks)
  }

  lemma {:induction false} FoldHistoryIsSum(acc: History, cs: seq<Contribution>)
    ensures FoldHistory(acc, cs) ==
      History(acc.ctcr + SumHistory(cs).ctcr, acc.ctce + SumHistory(cs).ctce, acc.ctgp + SumHistory(cs).ctgp,
              acc.remarks + SumHistory(cs).remarks)
    decreases |cs|
  {
    if cs == [] {
      assert acc.remarks + [] == acc.remarks;
    } else {
      var r := if cs[0].remark.Some? then [cs[0].remark.value] else [];
      FoldHistoryIsSum(History(acc.ctcr + cs[0].ctcr, acc.ctce + cs[0].ctce, acc.ctgp + cs[0].ctgp,
                               acc.remarks + r), cs[1..]);
      assert acc.remarks + r + SumHistory(cs[1..]).remarks == acc.remarks + SumHistory(cs).remarks;
    }
  }

  /** When no contribution earns more than it registers, neither does the
      sum. */
  lemma {:induction false} SumHistoryEarnedWithinRegistered(cs: seq<Contribution>)
    requires forall i :: 0 <= i < |cs| ==> 0 <= cs[i].ctce <= cs[i].ctcr
    ensures 0 <= SumHistory(cs).ctce <= SumHistory(cs).ctcr
  {
    if cs != [] {
      SumHistoryEarnedWithinRegistered(cs[1..]);
    }
  }

  /** The remarks are the remarks of the contributions, in order. */
  lemma {:induction false} SumHistoryRemarks(cs: seq<Contribution>, code: string)
    ensures code in SumHistory(cs).remarks <==> exists i :: 0 <= i < |cs| && cs[i].remark == Some(code)
  {
    if cs != [] {
      SumHistoryRemarks(cs[1..], code);
      if code in SumHistory(cs[1..]).remarks {
        var i :| 1 <= i + 1 < |cs| && cs[1..][i].remark == Some(code);
        assert cs[i + 1].remark == Some(code);
      }
      if exists i :: 0 <= i < |cs| && cs[i].remark == Some(code) {
        var i :| 0 <= i < |cs| && cs[i].remark == Some(code);
        if i > 0 {
          assert cs[1..][i - 1].remark == Some(code);
        }
      }
    }
  }

  /** The contributions of a course list, one per course in order. */
  function Contributions(courses: seq<GroupCourse>, ctx: Ctx, semester: int): (cs: seq<Contribution>)
    ensures |cs| == |courses|
  {
    if courses == [] then [] else [CourseHistory(courses[0], ctx, semester)] + Contributions(courses[1..], ctx, semester)
  }

  lemma {:induction false} ContributionsAt(courses: seq<GroupCourse>, ctx: Ctx, semester: int, i: int)
    requires 0 <= i < |courses|
    ensures Contributions(courses, ctx, semester)[i] == CourseHistory(courses[i], ctx, semester)
  {
    if i > 0 {
      ContributionsAt(courses[1..], ctx, semester, i - 1);
    }
  }

  /** `getPreviousData`: the history of a student over a course list up to a
      year and semester, the sum of the courses' contributions. */
  function PreviousData(courses: seq<GroupCourse>, ctx: Ctx, semester: int): (h: History)
    ensures h == SumHistory(Contributions(courses, ctx, semester))
  {
    FoldHistoryIsSum(History(0, 0, 0, []), Contributions(courses, ctx, semester));
    assert [] + SumHistory(Contributions(courses, ctx, semester)).remarks
           == SumHistory(Contributions(courses, ctx, semester)).remarks;
    FoldHistory(History(0, 0, 0, []), Contributions(courses, ctx, semester))
  }

  /** A course's code is among the remarks exactly when some course of the
      list carrying it is a carry-over. */
  lemma PreviousDataRemarks(courses: seq<GroupCourse>, ctx: Ctx, semester: int, code: string)
    ensures code in PreviousData(courses, ctx, semester).remarks <==>
      exists i :: 0 <= i < |courses| && CourseHistory(courses[i], ctx, semester).remark == Some(code)
  {
    var cs := Contributions(courses, ctx, semester);
    SumHistoryRemarks(cs, code);
    forall i | 0 <= i < |courses|
      ensures cs[i] == CourseHistory(courses[i], ctx, semester)
    {
      ContributionsAt(courses, ctx, semester, i);
    }
  }

  /** With a consistent store and courses of the store's bindings, the
      history never earns more credits than it registers. */
  lemma PreviousDataEarnedWithinRegistered(courses: seq<GroupCourse>, ctx: Ctx, semester: int)
    requires WellFormed(ctx.db)
    requires forall g :: g in courses ==> g in ctx.db.bindings
    ensures 0 <= PreviousData(courses, ctx, semester).ctce <= PreviousData(courses, ctx, semester).ctcr
  {
    var cs := Contributions(courses, ctx, semester);
    forall i | 0 <= i < |cs|
      ensures 0 <= cs[i].ctce <= cs[i].ctcr
    {
      ContributionsAt(courses, ctx, semester, i);
      CourseHistoryEarnedWithinRegistered(courses[i], ctx, semester);
    }
    SumHistoryEarnedWithinRegistered(cs);
  }

  // ---------------------------------------------------------------------
  // `getPreviousResult`
  // ---------------------------------------------------------------------

  /** What `getPreviousResult` resolves with: the cumulative totals over the
      core and elective lists, and the carry-over remarks of the core list. */
  datatype Previous = Previous(totals: Totals, remarks: seq<string>)

  /** The cumulative list of the cohort's core (or elective) courses up to
      the report's level and semester. */
  function CumulativeCourses(ctx: Ctx, group: Id, studentSet: int, semester: int, academicYear: int, isCore: bool)
    : seq<GroupCourse>
  {
    CumulativeList(Bindings(ctx.db.bindings, group, studentSet, isCore), Level(academicYear, ctx.year), semester)
  }

  /** `getPreviousResult` for a student of a cohort (group and set), a
      report year and semester, and the academic year that fixes the
      level. */
  function PreviousResult(ctx: Ctx, group: Id, studentSet: int, semester: int, academicYear: int): (p: Previous)
    ensures var core := SumHistory(Contributions(CumulativeCourses(ctx, group, studentSet, semester, academicYear, true),
                                                 ctx, semester));
      var electives := SumHistory(Contributions(CumulativeCourses(ctx, group, studentSet, semester, academicYear, false),
                                                ctx, semester));
      && p.totals == Totals(core.ctcr + electives.ctcr, core.ctce + electives.ctce, core.ctgp + electives.ctgp)
      && p.remarks == core.remarks
  {
    var core := PreviousData(CumulativeCourses(ctx, group, studentSet, semester, academicYear, true), ctx, semester);
    var electives := PreviousData(CumulativeCourses(ctx, group, studentSet, semester, academicYear, false), ctx, semester);
    Previous(Totals(core.ctcr + electives.ctcr, core.ctce + electives.ctce, core.ctgp + electives.ctgp), core.remarks)
  }

  /** Only core courses become remarks: an elective the student never took
      adds no remark, while a core course of the cumulative list never
      registered in the window does. */
  lemma UnregisteredCoreIsRemark(ctx: Ctx, group: Id, studentSet: int, semester: int, academicYear: int, gc: GroupCourse)
    requires gc in CumulativeCourses(ctx, group, studentSet, semester, academicYear, true)
    requires WindowRegs(ctx.db.regs, ctx.student.id, gc.course.id, ctx.year, semester) == []
    ensures gc.course.code in PreviousResult(ctx, group, studentSet, semester, academicYear).remarks
  {
    var core := CumulativeCourses(ctx, group, studentSet, semester, academicYear, true);
    var i :| 0 <= i < |core| && core[i] == gc;
    CourseHistoryMeaning(gc, ctx, semester);
    PreviousDataRemarks(core, ctx, semester, gc.course.code);
  }

  /** Every remark is the code of a core course of the cumulative list that
      is a carry-over; electives never produce one. */
  lemma RemarkIsCoreCarryOver(ctx: Ctx, group: Id, studentSet: int, semester: int, academicYear: int, code: string)
    requires code in PreviousResult(ctx, group, studentSet, semester, academicYear).remarks
    ensures exists g :: (g in ctx.db.bindings && g.group == group && g.studentSet == studentSet && g.isCore
                         && g.course.code == code && CourseHistory(g, ctx, semester).remark.Some?)
  {
    var core := CumulativeCourses(ctx, group, studentSet, semester, academicYear, true);
    PreviousDataRemarks(core, ctx, semester, code);
    var i :| 0 <= i < |core| && CourseHistory(core[i], ctx, semester).remark == Some(code);
    CourseHistoryMeaning(core[i], ctx, semester);
    assert core[i] in core;
  }

  /** With a consistent store, the cumulative credits earned never exceed the
      cumulative credits registered. */
  lemma PreviousEarnedWithinRegistered(ctx: Ctx, group: Id, studentSet: int, semester: int, academicYear: int)
    requires WellFormed(ctx.db)
    ensures 0 <= PreviousResult(ctx, group, studentSet, semester, academicYear).totals.tce
              <= PreviousResult(ctx, group, studentSet, semester, academicYear).totals.tcr
  {
    PreviousDataEarnedWithinRegistered(CumulativeCourses(ctx, group, studentSet, semester, academicYear, true),
                                       ctx, semester);
    PreviousDataEarnedWithinRegistered(CumulativeCourses(ctx, group, studentSet, semester, academicYear, false),
                                       ctx, semester);
  }
}
