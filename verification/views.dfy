/** The officer's and the administrator's reports differ only through the
    result statuses each may see: the engine reads the visible set only to
    pick results, so two sets that agree on every stored result give the
    same report. With no result awaiting the officer (status 2), the two
    views coincide. */
module Views {
  import opened Common
  import opened Records
  import opened CourseLists
  import opened TermAggregation
  import opened Cumulative
  import opened Report

  /** Two visible sets that no stored result can tell apart. */
  predicate Indistinguishable(results: seq<ResultRow>, v1: set<int>, v2: set<int>)
  {
    forall x :: x in results ==> (x.status in v1 <==> x.status in v2)
  }

  lemma VisibleResultAgree(results: seq<ResultRow>, sid: Id, cid: Id, year: int, v1: set<int>, v2: set<int>)
    requires Indistinguishable(results, v1, v2)
    ensures VisibleResult(results, sid, cid, year, v1) == VisibleResult(results, sid, cid, year, v2)
  {
    FirstIndexCongruent(results,
                        (x: ResultRow) => x.student == sid && x.course.id == cid && x.year == year && x.status in v1,
                        (x: ResultRow) => x.student == sid && x.course.id == cid && x.year == year && x.status in v2);
  }

  lemma CourseEntryAgree(gc: GroupCourse, ctx: Ctx, v: set<int>)
    requires Indistinguishable(ctx.db.results, ctx.visible, v)
    ensures CourseEntry(gc, ctx) == CourseEntry(gc, ctx.(visible := v))
  {
    VisibleResultAgree(ctx.db.results, ctx.student.id, gc.course.id, ctx.year, ctx.visible, v);
  }

  lemma {:induction false} CourseEntriesAgree(courses: seq<GroupCourse>, ctx: Ctx, v: set<int>)
    requires Indistinguishable(ctx.db.results, ctx.visible, v)
    ensures CourseEntries(courses, ctx) == CourseEntries(courses, ctx.(visible := v))
  {
    if courses != [] {
      CourseEntryAgree(courses[0], ctx, v);
      CourseEntriesAgree(courses[1..], ctx, v);
    }
  }

  lemma SingleResultAgree(courses: seq<GroupCourse>, ctx: Ctx, v: set<int>)
    requires Indistinguishable(ctx.db.results, ctx.visible, v)
    ensures SingleResult(courses, ctx) == SingleResult(courses, ctx.(visible := v))
  {
    CourseEntriesAgree(courses, ctx, v);
  }

  lemma {:induction false} CarryEntriesAgree(regs: seq<Registration>, ctx: Ctx, v: set<int>)
    requires Indistinguishable(ctx.db.results, ctx.visible, v)
    ensures CarryEntries(regs, ctx) == CarryEntries(regs, ctx.(visible := v))
  {
    if regs != [] {
      VisibleResultAgree(ctx.db.results, ctx.student.id, regs[0].course.id, ctx.year, ctx.visible, v);
      CarryEntriesAgree(regs[1..], ctx, v);
    }
  }

  lemma SingleResultCosAgree(core: seq<GroupCourse>, semester: int, ctx: Ctx, v: set<int>)
    requires Indistinguishable(ctx.db.results, ctx.visible, v)
    ensures SingleResultCos(core, semester, ctx) == SingleResultCos(core, semester, ctx.(visible := v))
  {
    assert CarriedOver(core, semester, ctx) == CarriedOver(core, semester, ctx.(visible := v));
    CarryEntriesAgree(CarriedOver(core, semester, ctx), ctx, v);
  }

  lemma CourseHistoryAgree(gc: GroupCourse, ctx: Ctx, semester: int, v: set<int>)
    requires Indistinguishable(ctx.db.results, ctx.visible, v)
    ensures CourseHistory(gc, ctx, semester) == CourseHistory(gc, ctx.(visible := v), semester)
  {
    var p1 := (x: ResultRow) => x.student == ctx.student.id && x.course.id == gc.course.id && x.status in ctx.visible
                                && InWindow(x.year, x.course.semester, ctx.year, semester);
    var p2 := (x: ResultRow) => x.student == ctx.student.id && x.course.id == gc.course.id && x.status in v
                                && InWindow(x.year, x.course.semester, ctx.year, semester);
    FilterCongruent(ctx.db.results, p1, p2);
  }

  lemma {:induction false} ContributionsAgree(courses: seq<GroupCourse>, ctx: Ctx, semester: int, v: set<int>)
    requires Indistinguishable(ctx.db.results, ctx.visible, v)
    ensures Contributions(courses, ctx, semester) == Contributions(courses, ctx.(visible := v), semester)
  {
    if courses != [] {
      CourseHistoryAgree(courses[0], ctx, semester, v);
      ContributionsAgree(courses[1..], ctx, semester, v);
    }
  }

  lemma PreviousResultAgree(ctx: Ctx, group: Id, studentSet: int, semester: int, academicYear: int, v: set<int>)
    requires Indistinguishable(ctx.db.results, ctx.visible, v)
    ensures PreviousResult(ctx, group, studentSet, semester, academicYear)
            == PreviousResult(ctx.(visible := v), group, studentSet, semester, academicYear)
  {
    ContributionsAgree(CumulativeCourses(ctx, group, studentSet, semester, academicYear, true), ctx, semester, v);
    ContributionsAgree(CumulativeCourses(ctx, group, studentSet, semester, academicYear, false), ctx, semester, v);
  }

  lemma StudentResultAgree(s: Student, req: Request, db: Db, v1: set<int>, v2: set<int>, grader: Grader)
    requires Indistinguishable(db.results, v1, v2)
    ensures StudentResult(s, req, db, v1, grader) == StudentResult(s, req, db, v2, grader)
  {
    var ctx := StudentCtx(s, req, db, v1, grader);
    assert ctx.(visible := v2) == StudentCtx(s, req, db, v2, grader);
    SingleResultAgree(TermCore(req, db), ctx, v2);
    SingleResultAgree(TermElectives(req, db), ctx, v2);
    SingleResultCosAgree(TermCore(req, db), req.semester, ctx, v2);
    PreviousResultAgree(ctx, req.group, req.studentSet, req.semester, req.academicYear, v2);
  }

  /** Two visible sets no stored result can tell apart give the same
      response. */
  lemma GetResultsAgree(req: Request, db: Db, v1: set<int>, v2: set<int>, grader: Grader, msg: string)
    requires Indistinguishable(db.results, v1, v2)
    ensures GetResults(req, db, v1, grader, msg) == GetResults(req, db, v2, grader, msg)
  {
    var cohort := Cohort(db.students, req.group, req.studentSet, req.year);
    var f := (s: Student) => StudentResult(s, req, db, v1, grader);
    var g := (s: Student) => StudentResult(s, req, db, v2, grader);
    forall s | s in cohort
      ensures f(s) == g(s)
    {
      StudentResultAgree(s, req, db, v1, v2, grader);
    }
    EachCongruent(cohort, f, g);
  }

  /** With no result at status 2 in the store, the officer of an assigned
      group and the administrator get the same report. */
  lemma ViewsAgreeWithoutSubmitted(req: Request, assignedGroups: seq<Id>, db: Db, grader: Grader, msg: string)
    requires req.group in assignedGroups
    requires forall x :: x in db.results ==> x.status != 2
    ensures OfficerGetResults(req, assignedGroups, db, grader, msg) == AdminGetResults(req, db, grader, msg)
  {
    GetResultsAgree(req, db, OfficerVisible, AdminVisible, grader, msg);
  }

  /** A result at status 2 is one the officer's engine may pick and the
      administrator's never does. */
  lemma SubmittedSeenByOfficerOnly(results: seq<ResultRow>, sid: Id, cid: Id, year: int)
    ensures VisibleResult(results, sid, cid, year, AdminVisible).Some? ==>
            VisibleResult(results, sid, cid, year, AdminVisible).value.status != 2
    ensures VisibleResult(results, sid, cid, year, AdminVisible).Some? ==>
            VisibleResult(results, sid, cid, year, OfficerVisible).Some?
  {
  }
}
