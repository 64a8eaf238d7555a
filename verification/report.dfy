/** The report `get_results` builds for every student of a cohort: the
    term rows of the core and elective lists and of the carry-overs, the
    term totals and GPA, the history before this term, the CGPA and the
    carry-over remarks. The officer and the administrator run the same
    engine; they differ in the result statuses they may see and in the
    officer's check that the group is assigned to them. */
module Report {
  import opened Common
  import opened Records
  import opened CourseLists
  import opened TermAggregation
  import opened Cumulative

  /** The statuses the officer's engine shows (submitted, approved by the
      officer, approved by the administrator) and the administrator's. */
  const OfficerVisible: set<int> := {2, 3, 4}
  const AdminVisible: set<int> := {3, 4}

  const NotAssignedMessage: string := "Group wasn't assigned to you."

  /** A report request: the group (from the request's group), the student
      set, year and semester (from the body) and the current academic year
      (from the application defaults). */
  datatype Request = Request(group: Id, studentSet: int, year: int, semester: int, academicYear: int)

  /** `x || 1` on a number: zero is replaced by one. */
  function OrOne(x: int): (r: int)
    ensures r != 0
    ensures x != 0 ==> r == x
  {
    if x == 0 then 1 else x
  }

  /** `a / (b || 1)`, before the two-decimal rounding. */
  function Ratio(a: int, b: int): real
  {
    a as real / OrOne(b) as real
  }

  /** The `previous` object of a report: the history before this term. */
  datatype PreviousView = PreviousView(tce: int, tcr: int, tgp: int, gpa: real)

  datatype StudentReport = StudentReport(
    matric: string, name: string,
    core: Option<RowsOrText>, electives: Option<RowsOrText>, carryovers: Option<RowsOrText>,
    tce: int, tcr: int, tgp: int, gpa: real,
    previous: PreviousView, cgpa: real, remarks: seq<string>)

  /** The term lists of a request. */
  function TermCore(req: Request, db: Db): seq<GroupCourse>
  {
    TermList(Bindings(db.bindings, req.group, req.studentSet, true), Level(req.academicYear, req.year), req.semester)
  }

  function TermElectives(req: Request, db: Db): seq<GroupCourse>
  {
    TermList(Bindings(db.bindings, req.group, req.studentSet, false), Level(req.academicYear, req.year), req.semester)
  }

  function StudentCtx(s: Student, req: Request, db: Db, visible: set<int>, grader: Grader): Ctx
  {
    Ctx(s, req.year, db, visible, grader)
  }

  /** The three term passes' totals, added up. */
  function TermTotals(core: TermAggregate, electives: TermAggregate, carry: TermAggregate): Totals
  {
    Add(Add(core.totals, electives.totals), carry.totals)
  }

  /** Assembles one student's report from the three term passes and the
      cumulative history: the CGPA divides the cumulative points by the
      cumulative credits earned; `previous` is the cumulative history less
      this term; the term GPA divides by the credits registered. */
  function Assemble(s: Student, core: TermAggregate, electives: TermAggregate, carry: TermAggregate,
                    prev: Previous): (r: StudentReport)
    ensures r.matric == s.matric && r.name == s.name
    ensures r.core == core.data && r.electives == electives.data && r.carryovers == carry.data
    ensures r.remarks == prev.remarks
  {
    StudentReport(
      s.matric, s.name, core.data, electives.data, carry.data,
      TermTotals(core, electives, carry).tce, TermTotals(core, electives, carry).tcr,
      TermTotals(core, electives, carry).tgp,
      Ratio(TermTotals(core, electives, carry).tgp, TermTotals(core, electives, carry).tcr),
      PreviousView(prev.totals.tce - TermTotals(core, electives, carry).tce,
                   prev.totals.tcr - TermTotals(core, electives, carry).tcr,
                   prev.totals.tgp - TermTotals(core, electives, carry).tgp,
                   Ratio(prev.totals.tgp - TermTotals(core, electives, carry).tgp,
                         prev.totals.tce - TermTotals(core, electives, carry).tce)),
      Ratio(prev.totals.tgp, prev.totals.tce),
      prev.remarks)
  }

  /** The history before this term plus this term is the cumulative
      history; the CGPA is the ratio of the two added together, and the
      previous GPA and the term GPA are ratios of their own parts. */
  lemma AssembleMeaning(s: Student, core: TermAggregate, electives: TermAggregate, carry: TermAggregate,
                        prev: Previous)
    ensures var r := Assemble(s, core, electives, carry, prev);
      && r.previous.tce + r.tce == prev.totals.tce
      && r.previous.tcr + r.tcr == prev.totals.tcr
      && r.previous.tgp + r.tgp == prev.totals.tgp
      && r.cgpa == Ratio(r.previous.tgp + r.tgp, r.previous.tce + r.tce)
      && r.previous.gpa == Ratio(r.previous.tgp, r.previous.tce)
      && r.gpa == Ratio(r.tgp, r.tcr)
      && r.tcr == core.totals.tcr + electives.totals.tcr + carry.totals.tcr
      && r.tce == core.totals.tce + electives.totals.tce + carry.totals.tce
      && r.tgp == core.totals.tgp + electives.totals.tgp + carry.totals.tgp
  {
  }

  /** One student's turn in `get_results`' reduce. */
  function StudentResult(s: Student, req: Request, db: Db, visible: set<int>, grader: Grader): (r: StudentReport)
    ensures r.matric == s.matric && r.name == s.name
  {
    Assemble(s,
             SingleResult(TermCore(req, db), StudentCtx(s, req, db, visible, grader)),
             SingleResult(TermElectives(req, db), StudentCtx(s, req, db, visible, grader)),
             SingleResultCos(TermCore(req, db), req.semester, StudentCtx(s, req, db, visible, grader)),
             PreviousResult(StudentCtx(s, req, db, visible, grader), req.group, req.studentSet, req.semester,
                            req.academicYear))
  }

  /** The reports of a list of students, in order. */
  function Reports(students: seq<Student>, req: Request, db: Db, visible: set<int>, grader: Grader)
    : (rs: seq<StudentReport>)
  {
    Each(students, (s: Student) => StudentResult(s, req, db, visible, grader))
  }

  /** The `data` of the response: the term lists and one report per
      student of the cohort. */
  datatype ReportData = ReportData(core: seq<GroupCourse>, electives: seq<GroupCourse>, results: seq<StudentReport>)

  datatype Response = Response(status: int, message: string, data: Option<ReportData>)

  /** The engine behind `get_results`, for a set of visible statuses. */
  function GetResults(req: Request, db: Db, visible: set<int>, grader: Grader, msg: string): (r: Response)
    ensures r.status == 200 && r.message == msg && r.data.Some?
    ensures r.data.value.core == TermCore(req, db) && r.data.value.electives == TermElectives(req, db)
    ensures |r.data.value.results| == |Cohort(db.students, req.group, req.studentSet, req.year)|
  {
    Response(200, msg, Some(ReportData(TermCore(req, db), TermElectives(req, db),
                                       Reports(Cohort(db.students, req.group, req.studentSet, req.year),
                                               req, db, visible, grader))))
  }

  /** The officer's `get_results`: refused unless the group is one of the
      officer's assigned groups. */
  function OfficerGetResults(req: Request, assignedGroups: seq<Id>, db: Db, grader: Grader, msg: string): (r: Response)
    ensures req.group !in assignedGroups <==> r.status == 403
    ensures req.group !in assignedGroups ==> r.message == NotAssignedMessage && r.data.None?
    ensures req.group in assignedGroups ==> r.status == 200 && r.message == msg
    ensures req.group in assignedGroups ==> r == GetResults(req, db, OfficerVisible, grader, msg)
  {
    if req.group !in assignedGroups then Response(403, NotAssignedMessage, None)
    else GetResults(req, db, OfficerVisible, grader, msg)
  }

  /** The administrator's `get_results`, with no assignment check. */
  function AdminGetResults(req: Request, db: Db, grader: Grader, msg: string): (r: Response)
    ensures r.status == 200 && r.message == msg
    ensures r == GetResults(req, db, AdminVisible, grader, msg)
  {
    GetResults(req, db, AdminVisible, grader, msg)
  }

  /** The response holds one report per student of the cohort, in the
      cohort's order, each the report of that student. */
  lemma ResultsPerStudent(req: Request, db: Db, visible: set<int>, grader: Grader, msg: string, i: int)
    requires 0 <= i < |Cohort(db.students, req.group, req.studentSet, req.year)|
    ensures var cohort := Cohort(db.students, req.group, req.studentSet, req.year);
      var rs := GetResults(req, db, visible, grader, msg).data.value.results;
      && |rs| == |cohort|
      && rs[i] == StudentResult(cohort[i], req, db, visible, grader)
      && rs[i].matric == cohort[i].matric
      && cohort[i].group == req.group && cohort[i].studentSet == req.studentSet && cohort[i].entryYear <= req.year
  {
    var cohort := Cohort(db.students, req.group, req.studentSet, req.year);
    EachAt(cohort, (s: Student) => StudentResult(s, req, db, visible, grader), i);
    assert cohort[i] in cohort;
  }

  /** In every report, the term totals are those of the core, elective and
      carry-over passes added up, the previous history and the term add up
      to the cumulative history, and the CGPA is the cumulative points over
      the cumulative credits earned (one when none were earned). */
  lemma StudentResultMeaning(s: Student, req: Request, db: Db, visible: set<int>, grader: Grader)
    ensures var r := StudentResult(s, req, db, visible, grader);
      var ctx := StudentCtx(s, req, db, visible, grader);
      var prev := PreviousResult(ctx, req.group, req.studentSet, req.semester, req.academicYear);
      && r.tcr == SingleResult(TermCore(req, db), ctx).totals.tcr
                  + SingleResult(TermElectives(req, db), ctx).totals.tcr
                  + SingleResultCos(TermCore(req, db), req.semester, ctx).totals.tcr
      && r.tce == SingleResult(TermCore(req, db), ctx).totals.tce
                  + SingleResult(TermElectives(req, db), ctx).totals.tce
                  + SingleResultCos(TermCore(req, db), req.semester, ctx).totals.tce
      && r.tgp == SingleResult(TermCore(req, db), ctx).totals.tgp
                  + SingleResult(TermElectives(req, db), ctx).totals.tgp
                  + SingleResultCos(TermCore(req, db), req.semester, ctx).totals.tgp
      && r.previous.tce + r.tce == prev.totals.tce
      && r.previous.tcr + r.tcr == prev.totals.tcr
      && r.previous.tgp + r.tgp == prev.totals.tgp
      && r.cgpa == Ratio(prev.totals.tgp, prev.totals.tce)
      && r.previous.gpa == Ratio(r.previous.tgp, r.previous.tce)
      && r.gpa == Ratio(r.tgp, r.tcr)
      && r.remarks == prev.remarks
      && r.core == SingleResult(TermCore(req, db), ctx).data
      && r.electives == SingleResult(TermElectives(req, db), ctx).data
      && r.carryovers == SingleResultCos(TermCore(req, db), req.semester, ctx).data
  {
    var ctx := StudentCtx(s, req, db, visible, grader);
    AssembleMeaning(s, SingleResult(TermCore(req, db), ctx), SingleResult(TermElectives(req, db), ctx),
                    SingleResultCos(TermCore(req, db), req.semester, ctx),
                    PreviousResult(ctx, req.group, req.studentSet, req.semester, req.academicYear));
  }

  // ---------------------------------------------------------------------
  // Credits without points
  // ---------------------------------------------------------------------

  /** An entry registers no negative credits and, registering none, earns
      no points. */
  predicate Sober(e: Entry)
  {
    e.add.tcr >= 0 && (e.add.tcr == 0 ==> e.add.tgp == 0)
  }

  lemma {:induction false} SumSober(es: seq<Entry>)
    requires forall i :: 0 <= i < |es| ==> Sober(es[i])
    ensures SumEntries(es).tcr >= 0
    ensures SumEntries(es).tcr == 0 ==> SumEntries(es).tgp == 0
  {
    if es != [] {
      assert Sober(es[0]);
      SumSober(es[1..]);
    }
  }

  lemma {:induction false} CourseEntriesSober(courses: seq<GroupCourse>, ctx: Ctx)
    requires forall g :: g in courses ==> g.course.units >= 0
    ensures forall i :: 0 <= i < |CourseEntries(courses, ctx)| ==> Sober(CourseEntries(courses, ctx)[i])
  {
    if courses != [] {
      var es := CourseEntries(courses, ctx);
      assert es[1..] == CourseEntries(courses[1..], ctx);
      assert courses[0] in courses;
      CourseEntryMeaning(courses[0], ctx);
      if es[0].row.remark != DRP {
        GradedMeaning(courses[0].course,
                      VisibleResult(ctx.db.results, ctx.student.id, courses[0].course.id, ctx.year, ctx.visible),
                      ctx.student, ctx.grader);
      }
      CourseEntriesSober(courses[1..], ctx);
    }
  }

  lemma {:induction false} CarryEntriesSober(regs: seq<Registration>, ctx: Ctx)
    requires forall x :: x in regs ==> x.course.units >= 0
    ensures forall i :: 0 <= i < |CarryEntries(regs, ctx)| ==> Sober(CarryEntries(regs, ctx)[i])
  {
    if regs != [] {
      var es := CarryEntries(regs, ctx);
      assert es[1..] == CarryEntries(regs[1..], ctx);
      assert regs[0] in regs;
      GradedMeaning(regs[0].course,
                    VisibleResult(ctx.db.results, ctx.student.id, regs[0].course.id, ctx.year, ctx.visible),
                    ctx.student, ctx.grader);
      CarryEntriesSober(regs[1..], ctx);
    }
  }

  lemma TermPassSober(courses: seq<GroupCourse>, ctx: Ctx)
    requires forall g :: g in courses ==> g.course.units >= 0
    ensures SingleResult(courses, ctx).totals.tcr >= 0
    ensures SingleResult(courses, ctx).totals.tcr == 0 ==> SingleResult(courses, ctx).totals.tgp == 0
  {
    CourseEntriesSober(courses, ctx);
    SumSober(CourseEntries(courses, ctx));
  }

  lemma CarryPassSober(core: seq<GroupCourse>, semester: int, ctx: Ctx)
    requires WellFormed(ctx.db)
    ensures SingleResultCos(core, semester, ctx).totals.tcr >= 0
    ensures SingleResultCos(core, semester, ctx).totals.tcr == 0 ==> SingleResultCos(core, semester, ctx).totals.tgp == 0
  {
    CarryEntriesSober(CarriedOver(core, semester, ctx), ctx);
    SumSober(CarryEntries(CarriedOver(core, semester, ctx), ctx));
  }

  /** With no negative units in the store, a student who registered no
      credits this term has a term GPA of zero: the `|| 1` guard only ever
      divides zero points. */
  lemma AssembleNoCredits(s: Student, core: TermAggregate, electives: TermAggregate, carry: TermAggregate,
                          prev: Previous)
    requires core.totals.tcr >= 0 && electives.totals.tcr >= 0 && carry.totals.tcr >= 0
    requires core.totals.tcr == 0 ==> core.totals.tgp == 0
    requires electives.totals.tcr == 0 ==> electives.totals.tgp == 0
    requires carry.totals.tcr == 0 ==> carry.totals.tgp == 0
    requires Assemble(s, core, electives, carry, prev).tcr == 0
    ensures Assemble(s, core, electives, carry, prev).gpa == 0.0
    ensures Assemble(s, core, electives, carry, prev).tgp == 0
  {
  }

  lemma NoCreditsZeroGpa(s: Student, req: Request, db: Db, visible: set<int>, grader: Grader)
    requires WellFormed(db)
    requires StudentResult(s, req, db, visible, grader).tcr == 0
    ensures StudentResult(s, req, db, visible, grader).gpa == 0.0
    ensures StudentResult(s, req, db, visible, grader).tgp == 0
  {
    var ctx := StudentCtx(s, req, db, visible, grader);
    TermPassSober(TermCore(req, db), ctx);
    TermPassSober(TermElectives(req, db), ctx);
    CarryPassSober(TermCore(req, db), req.semester, ctx);
    AssembleNoCredits(s, SingleResult(TermCore(req, db), ctx), SingleResult(TermElectives(req, db), ctx),
                      SingleResultCos(TermCore(req, db), req.semester, ctx),
                      PreviousResult(ctx, req.group, req.studentSet, req.semester, req.academicYear));
  }
}

