/** The term pass of the results engine (`getSingleResult` and
    `getSingleResultCos`): one row per course of a term list, the carry-over
    rows of the semester, and the TCR / TCE / TGP totals folded over them.
    The set of result statuses the engine may show is a parameter. */
module TermAggregation {
  import opened Common
  import opened Records

  datatype Remark = DRP | Pending | Passed | Failed

  function RemarkText(r: Remark): string
  {
    match r
    case DRP => "DRP"
    case Pending => "Pending..."
    case Passed => "Passed"
    case Failed => "Failed"
  }

  /** A row of a student's term report. */
  datatype Row = Row(course: string, units: int, score: int, exam: int,
                     firstCa: int, secondCa: int, thirdCa: int,
                     grade: Option<string>, remark: Remark, points: int)

  /** A list of rows, or the message that stands in for one. */
  datatype RowsOrText = Rows(rows: seq<Row>) | Text(text: string)

  /** Total credits registered, total credits earned, total grade points. */
  datatype Totals = Totals(tcr: int, tce: int, tgp: int)

  const Zero := Totals(0, 0, 0)

  function Add(a: Totals, b: Totals): Totals
  {
    Totals(a.tcr + b.tcr, a.tce + b.tce, a.tgp + b.tgp)
  }

  /** What a term pass resolves with. The rows sit under `data`; the
      placeholder of a student with no registration sits under `results`. */
  datatype TermAggregate = TermAggregate(data: Option<RowsOrText>, results: Option<string>, totals: Totals)

  const NoCoursesMessage: string := "Didn't register any courses this semester"
  const NoCarryOversMessage: string := "Didn't register any carryovers this semester."

  /** Everything a term pass reads besides its course list: the student, the
      year, the store, the statuses it may show and the grade mapper. */
  datatype Ctx = Ctx(student: Student, year: int, db: Db, visible: set<int>, grader: Grader)

  /** One course's row and what it adds to the totals. */
  datatype Entry = Entry(row: Row, add: Totals)

  /** Whether `findOne` finds a `reg_status` registration of the student for
      the course in the year. */
  predicate RegisteredIn(regs: seq<Registration>, sid: Id, cid: Id, year: int)
  {
    regs != [] &&
    ((regs[0].student == sid && regs[0].course.id == cid && regs[0].year == year && regs[0].regStatus)
     || RegisteredIn(regs[1..], sid, cid, year))
  }

  lemma {:induction false} RegisteredInIff(regs: seq<Registration>, sid: Id, cid: Id, year: int)
    ensures RegisteredIn(regs, sid, cid, year) <==>
      exists r :: r in regs && r.student == sid && r.course.id == cid && r.year == year && r.regStatus
  {
    if regs != [] {
      RegisteredInIff(regs[1..], sid, cid, year);
      assert forall r :: r in regs <==> r == regs[0] || r in regs[1..];
    }
  }

  /** Whether `find` returns any `reg_status` registration of the student in
      the year. */
  predicate RegisteredInYear(regs: seq<Registration>, sid: Id, year: int)
  {
    regs != [] &&
    ((regs[0].student == sid && regs[0].year == year && regs[0].regStatus)
     || RegisteredInYear(regs[1..], sid, year))
  }

  lemma {:induction false} RegisteredInYearIff(regs: seq<Registration>, sid: Id, year: int)
    ensures RegisteredInYear(regs, sid, year) <==>
      exists r :: r in regs && r.student == sid && r.year == year && r.regStatus
  {
    if regs != [] {
      RegisteredInYearIff(regs[1..], sid, year);
      assert forall r :: r in regs <==> r == regs[0] || r in regs[1..];
    }
  }

  /** A student registered for a course in the year is registered in the year. */
  lemma {:induction false} RegisteredInGivesYear(regs: seq<Registration>, sid: Id, cid: Id, year: int)
    requires RegisteredIn(regs, sid, cid, year)
    ensures RegisteredInYear(regs, sid, year)
  {
    if !(regs[0].student == sid && regs[0].course.id == cid && regs[0].year == year && regs[0].regStatus) {
      RegisteredInGivesYear(regs[1..], sid, cid, year);
    }
  }

  /** The result the engine shows for a student, course and year: the first
      one submitted that year whose status is visible. */
  function VisibleResult(results: seq<ResultRow>, sid: Id, cid: Id, year: int, visible: set<int>): (r: Option<ResultRow>)
    ensures r.Some? ==> r.value in results && r.value.student == sid && r.value.course.id == cid
                        && r.value.year == year && r.value.status in visible
    ensures r.None? <==> forall x :: x in results ==>
                          !(x.student == sid && x.course.id == cid && x.year == year && x.status in visible)
  {
    FindFirst(results, (x: ResultRow) => x.student == sid && x.course.id == cid && x.year == year && x.status in visible)
  }

  /** The row and contribution of a registered course, given the result found
      for it (if any). */
  function Graded(c: Course, found: Option<ResultRow>, student: Student, grader: Grader): (e: Entry)
    ensures e.row.course == c.code && e.row.units == c.units && e.add.tcr == c.units
    ensures e.row.remark == Pending <==> found.None?
  {
    match found
    case None =>
      Entry(Row(c.code, c.units, 0, 0, 0, 0, 0, None, Pending, 0), Totals(c.units, 0, 0))
    case Some(r) =>
      Entry(Row(c.code, c.units, Total(r), r.exam, r.ca1, r.ca2, r.ca3, Some(grader(student, Total(r)).grade),
                if Fails(grader(student, Total(r))) then Failed else Passed, grader(student, Total(r)).points),
            Totals(c.units, if Fails(grader(student, Total(r))) then 0 else c.units,
                   grader(student, Total(r)).points * c.units))
  }

  /** A registered course always counts toward TCR; with no visible result it
      is Pending with every score 0 and earns nothing; with one, the row shows the scores and
      the mapped grade, the remark is Failed exactly when the grade is "f",
      and the course earns its units only when passed, and points times
      units toward TGP. */
  lemma GradedMeaning(c: Course, found: Option<ResultRow>, student: Student, grader: Grader)
    ensures var e := Graded(c, found, student, grader);
      && e.row.course == c.code && e.row.units == c.units
      && e.add.tcr == c.units
      && e.row.remark != DRP
      && (e.row.remark == Pending <==> found.None?)
      && (found.None? ==> e.row.score == 0 && e.row.exam == 0 && e.row.firstCa == 0 && e.row.secondCa == 0
                          && e.row.thirdCa == 0 && e.row.grade.None? && e.row.points == 0 && e.add.tgp == 0)
      && (found.Some? ==> (e.row.score == Total(found.value) && e.row.exam == found.value.exam
                           && e.row.firstCa == found.value.ca1 && e.row.secondCa == found.value.ca2
                           && e.row.thirdCa == found.value.ca3
                           && e.row.grade == Some(grader(student, Total(found.value)).grade)
                           && e.row.points == grader(student, Total(found.value)).points
                           && (e.row.remark == Failed <==> Fails(grader(student, Total(found.value))))))
      && e.add.tce == (if e.row.remark == Passed then c.units else 0)
      && e.add.tgp == e.row.points * c.units
  {
  }

  /** The row and contribution of one course of a term list. */
  function CourseEntry(gc: GroupCourse, ctx: Ctx): (e: Entry)
    ensures e.row.course == gc.course.code && e.row.units == gc.course.units
  {
    if !RegisteredIn(ctx.db.regs, ctx.student.id, gc.course.id, ctx.year) then
      Entry(Row(gc.course.code, gc.course.units, 0, 0, 0, 0, 0, None, DRP, 0), Zero)
    else
      Graded(gc.course, VisibleResult(ctx.db.results, ctx.student.id, gc.course.id, ctx.year, ctx.visible),
             ctx.student, ctx.grader)
  }

  /** A course of the list shows DRP exactly when the student has no
      `reg_status` registration for it that year, and then shows every score
      as 0 and adds nothing;
      a registered one counts its units toward TCR, is Pending exactly when
      no visible result exists, and earns its units only when Passed. */
  lemma CourseEntryMeaning(gc: GroupCourse, ctx: Ctx)
    ensures var e := CourseEntry(gc, ctx);
      && e.row.course == gc.course.code && e.row.units == gc.course.units
      && (e.row.remark == DRP <==> !RegisteredIn(ctx.db.regs, ctx.student.id, gc.course.id, ctx.year))
      && (e.row.remark == DRP ==> (e.add == Zero && e.row.score == 0 && e.row.exam == 0 && e.row.firstCa == 0
                                   && e.row.secondCa == 0 && e.row.thirdCa == 0
                                   && e.row.grade.None? && e.row.points == 0))
      && (e.row.remark != DRP ==> e.add.tcr == gc.course.units)
      && (e.row.remark == Pending <==>
            (e.row.remark != DRP &&
             VisibleResult(ctx.db.results, ctx.student.id, gc.course.id, ctx.year, ctx.visible).None?))
      && e.add.tce == (if e.row.remark == Passed then gc.course.units else 0)
  {
    if RegisteredIn(ctx.db.regs, ctx.student.id, gc.course.id, ctx.year) {
      GradedMeaning(gc.course, VisibleResult(ctx.db.results, ctx.student.id, gc.course.id, ctx.year, ctx.visible),
                    ctx.student, ctx.grader);
    }
  }

  // ---------------------------------------------------------------------
  // Sums of entries
  // ---------------------------------------------------------------------

  function RowsOfEntries(es: seq<Entry>): (rows: seq<Row>)
    ensures |rows| == |es|
    ensures forall i :: 0 <= i < |es| ==> rows[i] == es[i].row
  {
    seq(|es|, i requires 0 <= i < |es| => es[i].row)
  }

  /** The sum of the entries' contributions. */
  function SumEntries(es: seq<Entry>): Totals
  {
    if es == [] then Zero else Add(es[0].add, SumEntries(es[1..]))
  }

  lemma {:induction false} SumEntriesAppend(es: seq<Entry>, fs: seq<Entry>)
    ensures SumEntries(es + fs) == Add(SumEntries(es), SumEntries(fs))
  {
    if es == [] {
      assert es + fs == fs;
    } else {
      assert (es + fs)[1..] == es[1..] + fs;
      SumEntriesAppend(es[1..], fs);
    }
  }

  /** When every entry earns between nothing and what it registers, so does
      the sum. */
  lemma {:induction false} SumEntriesEarnedWithinRegistered(es: seq<Entry>)
    requires forall i :: 0 <= i < |es| ==> 0 <= es[i].add.tce <= es[i].add.tcr
    ensures 0 <= SumEntries(es).tce <= SumEntries(es).tcr
  {
    if es != [] {
      SumEntriesEarnedWithinRegistered(es[1..]);
    }
  }

  /** The entries of a course list, one per course in order. */
  function CourseEntries(courses: seq<GroupCourse>, ctx: Ctx): (es: seq<Entry>)
    ensures |es| == |courses|
  {
    if courses == [] then [] else [CourseEntry(courses[0], ctx)] + CourseEntries(courses[1..], ctx)
  }

  /** A reduce's accumulator: the `data` field and the totals. */
  datatype Acc = Acc(data: RowsOrText, totals: Totals)

  /** The rows of a `data` field, the message counting as none. */
  function RowsOf(d: RowsOrText): seq<Row>
  {
    if d.Rows? then d.rows else []
  }

  /** The accumulation step the term and carry-over reduces share, over the
      entries of the courses they keep: make `data` a list (dropping a
      message that stood in for it), push the row, add the contribution. */
  function FoldEntries(acc: Acc, es: seq<Entry>): Acc
    decreases |es|
  {
    if es == [] then acc
    else FoldEntries(Acc(Rows(RowsOf(acc.data) + [es[0].row]), Add(acc.totals, es[0].add)), es[1..])
  }

  lemma ConcatAssoc<T>(a: seq<T>, b: seq<T>, c: seq<T>)
    ensures (a + b) + c == a + (b + c)
  {
  }

  lemma ConcatNil<T>(a: seq<T>)
    ensures a + [] == a
  {
  }

  lemma RowsOfEntriesCons(es: seq<Entry>)
    requires es != []
    ensures RowsOfEntries(es) == [es[0].row] + RowsOfEntries(es[1..])
  {
  }

  /** The fold's `data`: unchanged with no entries, otherwise the earlier
      rows followed by one row per entry. */
  lemma {:induction false} FoldRows(acc: Acc, es: seq<Entry>)
    ensures es == [] ==> FoldEntries(acc, es).data == acc.data
    ensures es != [] ==> FoldEntries(acc, es).data == Rows(RowsOf(acc.data) + RowsOfEntries(es))
    decreases |es|
  {
    if es != [] {
      var acc' := Acc(Rows(RowsOf(acc.data) + [es[0].row]), Add(acc.totals, es[0].add));
      assert FoldEntries(acc, es) == FoldEntries(acc', es[1..]);
      FoldRows(acc', es[1..]);
      RowsOfEntriesCons(es);
      if es[1..] == [] {
        assert RowsOfEntries(es[1..]) == [];
        ConcatNil([es[0].row]);
      } else {
        ConcatAssoc(RowsOf(acc.data), [es[0].row], RowsOfEntries(es[1..]));
      }
    }
  }

  /** The fold's totals grow by the entries' sum. */
  lemma {:induction false} FoldTotals(acc: Acc, es: seq<Entry>)
    ensures FoldEntries(acc, es).totals == Add(acc.totals, SumEntries(es))
    decreases |es|
  {
    if es != [] {
      var acc' := Acc(Rows(RowsOf(acc.data) + [es[0].row]), Add(acc.totals, es[0].add));
      FoldTotals(acc', es[1..]);
    }
  }

  /** With no entries the accumulator is left as it was; otherwise it holds
      its earlier rows followed by one row per entry, in order, and the
      totals grow by the entries' sum. */
  lemma FoldEntriesIsSum(acc: Acc, es: seq<Entry>)
    ensures es == [] ==> FoldEntries(acc, es) == acc
    ensures es != [] ==>
      FoldEntries(acc, es) == Acc(Rows(RowsOf(acc.data) + RowsOfEntries(es)), Add(acc.totals, SumEntries(es)))
  {
    FoldRows(acc, es);
    FoldTotals(acc, es);
  }

  /** A reduce from a fresh accumulator (`data` initialised to `init`, zero
      totals) over a list of entries. */
  function Reduce(init: RowsOrText, es: seq<Entry>): (a: Acc)
    ensures es == [] ==> a == Acc(init, Zero)
    ensures es != [] ==> a == Acc(Rows(RowsOf(init) + RowsOfEntries(es)), SumEntries(es))
  {
    FoldEntriesIsSum(Acc(init, Zero), es);
    FoldEntries(Acc(init, Zero), es)
  }

  /** `getSingleResult`: the term rows and totals of a student for a list of
      courses. A student with no registration at all in the year gets the
      placeholder message and zero totals; otherwise one row per course, in
      the order of the list, and the sum of the courses' contributions. */
  function SingleResult(courses: seq<GroupCourse>, ctx: Ctx): (r: TermAggregate)
    ensures !RegisteredInYear(ctx.db.regs, ctx.student.id, ctx.year) ==>
      r.data.None? && r.results == Some(NoCoursesMessage) && r.totals == Zero
    ensures RegisteredInYear(ctx.db.regs, ctx.student.id, ctx.year) ==>
      (r.results.None? && r.data == Some(Rows(RowsOfEntries(CourseEntries(courses, ctx))))
       && r.totals == SumEntries(CourseEntries(courses, ctx)))
  {
    if !RegisteredInYear(ctx.db.regs, ctx.student.id, ctx.year) then
      TermAggregate(None, Some(NoCoursesMessage), Zero)
    else
      assert RowsOf(Rows([])) + RowsOfEntries(CourseEntries(courses, ctx)) == RowsOfEntries(CourseEntries(courses, ctx));
      assert CourseEntries(courses, ctx) == [] ==> RowsOfEntries(CourseEntries(courses, ctx)) == [];
      TermAggregate(Some(Reduce(Rows([]), CourseEntries(courses, ctx)).data), None,
                    Reduce(Rows([]), CourseEntries(courses, ctx)).totals)
  }

  /** The units of the courses of the list the student registered for. */
  function RegisteredUnits(courses: seq<GroupCourse>, ctx: Ctx): int
  {
    if courses == [] then 0
    else (if RegisteredIn(ctx.db.regs, ctx.student.id, courses[0].course.id, ctx.year) then courses[0].course.units else 0)
         + RegisteredUnits(courses[1..], ctx)
  }

  /** TCR counts exactly the units of the registered courses of the list,
      whether or not a result was found for them. */
  lemma {:induction false} TermCreditsRegistered(courses: seq<GroupCourse>, ctx: Ctx)
    ensures SumEntries(CourseEntries(courses, ctx)).tcr == RegisteredUnits(courses, ctx)
  {
    if courses != [] {
      var es := CourseEntries(courses, ctx);
      assert es[1..] == CourseEntries(courses[1..], ctx);
      CourseEntryMeaning(courses[0], ctx);
      TermCreditsRegistered(courses[1..], ctx);
    }
  }

  /** With no negative units, credits earned in a term never exceed credits
      registered. */
  lemma {:induction false} TermEarnedWithinRegistered(courses: seq<GroupCourse>, ctx: Ctx)
    requires forall g :: g in courses ==> g.course.units >= 0
    ensures 0 <= SumEntries(CourseEntries(courses, ctx)).tce <= SumEntries(CourseEntries(courses, ctx)).tcr
  {
    if courses != [] {
      var es := CourseEntries(courses, ctx);
      assert es[1..] == CourseEntries(courses[1..], ctx);
      assert courses[0] in courses;
      CourseEntryMeaning(courses[0], ctx);
      TermEarnedWithinRegistered(courses[1..], ctx);
    }
  }

  /** Appending a course to the list appends its entry. */
  lemma {:induction false} CourseEntriesAppend(courses: seq<GroupCourse>, gc: GroupCourse, ctx: Ctx)
    ensures CourseEntries(courses + [gc], ctx) == CourseEntries(courses, ctx) + [CourseEntry(gc, ctx)]
  {
    if courses == [] {
      assert courses + [gc] == [gc];
      assert CourseEntries([gc], ctx) == [CourseEntry(gc, ctx)] + CourseEntries([], ctx);
    } else {
      assert (courses + [gc])[1..] == courses[1..] + [gc];
      assert (courses + [gc])[0] == courses[0];
      CourseEntriesAppend(courses[1..], gc, ctx);
    }
  }

  /** Appending an entry that adds nothing appends its row and leaves the
      sum as it was. */
  lemma AppendNothing(es: seq<Entry>, e: Entry, fs: seq<Entry>)
    requires e.add == Zero
    requires fs == es + [e]
    ensures SumEntries(fs) == SumEntries(es)
    ensures RowsOfEntries(fs) == RowsOfEntries(es) + [e.row]
  {
    SumEntriesAppend(es, [e]);
    assert SumEntries([e]) == Add(e.add, SumEntries([]));
  }

  /** A course the student did not register for adds a DRP row and changes
      no total. */
  lemma UnregisteredCourseAddsNothing(courses: seq<GroupCourse>, gc: GroupCourse, ctx: Ctx)
    requires RegisteredInYear(ctx.db.regs, ctx.student.id, ctx.year)
    requires !RegisteredIn(ctx.db.regs, ctx.student.id, gc.course.id, ctx.year)
    ensures SingleResult(courses + [gc], ctx).totals == SingleResult(courses, ctx).totals
    ensures SingleResult(courses + [gc], ctx).data.value.rows ==
            SingleResult(courses, ctx).data.value.rows + [CourseEntry(gc, ctx).row]
    ensures CourseEntry(gc, ctx).row.remark == DRP
  {
    var es := CourseEntries(courses, ctx);
    var e := CourseEntry(gc, ctx);
    CourseEntryMeaning(gc, ctx);
    CourseEntriesAppend(courses, gc, ctx);
    AppendNothing(es, e, CourseEntries(courses + [gc], ctx));
  }

  // ---------------------------------------------------------------------
  // Carry-overs (`getSingleResultCos`)
  // ---------------------------------------------------------------------

  /** The student's `reg_status` registrations of the year whose course is of
      the given semester, in store order. */
  function SemesterRegs(semester: int, ctx: Ctx): (r: seq<Registration>)
    ensures forall x :: x in r <==> (x in ctx.db.regs && x.student == ctx.student.id && x.year == ctx.year
                                   && x.regStatus && x.course.semester == semester)
  {
    Filter(ctx.db.regs, (x: Registration) => x.student == ctx.student.id && x.year == ctx.year
                                            && x.regStatus && x.course.semester == semester)
  }

  /** Whether a course is one of a list's courses (the inner reduce). */
  predicate Listed(courses: seq<GroupCourse>, cid: Id)
  {
    courses != [] && (courses[0].course.id == cid || Listed(courses[1..], cid))
  }

  lemma {:induction false} ListedIff(courses: seq<GroupCourse>, cid: Id)
    ensures Listed(courses, cid) <==> exists g :: g in courses && g.course.id == cid
  {
    if courses != [] {
      ListedIff(courses[1..], cid);
      assert forall g :: g in courses <==> g == courses[0] || g in courses[1..];
    }
  }

  /** The registrations whose course is not in the list. */
  function NotListed(regs: seq<Registration>, courses: seq<GroupCourse>): (r: seq<Registration>)
    ensures forall x :: x in r <==> x in regs && !Listed(courses, x.course.id)
  {
    Filter(regs, (x: Registration) => !Listed(courses, x.course.id))
  }

  /** The carry-overs of the semester: registrations of the semester whose
      course is not in the given (core) list. */
  function CarriedOver(core: seq<GroupCourse>, semester: int, ctx: Ctx): (r: seq<Registration>)
    ensures |r| <= |ctx.db.regs|
  {
    NotListed(SemesterRegs(semester, ctx), core)
  }

  function CarryOverEntry(r: Registration, ctx: Ctx): Entry
  {
    Graded(r.course, VisibleResult(ctx.db.results, ctx.student.id, r.course.id, ctx.year, ctx.visible),
           ctx.student, ctx.grader)
  }

  /** The entries of a list of registrations, one per registration in order. */
  function CarryEntries(regs: seq<Registration>, ctx: Ctx): (es: seq<Entry>)
    ensures |es| == |regs|
  {
    if regs == [] then [] else [CarryOverEntry(regs[0], ctx)] + CarryEntries(regs[1..], ctx)
  }

  /** `getSingleResultCos`: the carry-over rows and totals of a student for a
      semester. The reduce over the semester's registrations skips those of
      a core course and accumulates the others from the "no carry-overs"
      message: the data stays that message exactly when no registration of
      the semester lies outside the core list; otherwise it holds one row
      per such registration, in store order. */
  function SingleResultCos(core: seq<GroupCourse>, semester: int, ctx: Ctx): (r: TermAggregate)
    ensures r.results.None? && r.data.Some?
    ensures r.data.value == Text(NoCarryOversMessage) <==> CarriedOver(core, semester, ctx) == []
    ensures CarriedOver(core, semester, ctx) != [] ==>
      r.data.value == Rows(RowsOfEntries(CarryEntries(CarriedOver(core, semester, ctx), ctx)))
    ensures r.totals == SumEntries(CarryEntries(CarriedOver(core, semester, ctx), ctx))
  {
    assert RowsOf(Text(NoCarryOversMessage)) + RowsOfEntries(CarryEntries(CarriedOver(core, semester, ctx), ctx))
           == RowsOfEntries(CarryEntries(CarriedOver(core, semester, ctx), ctx));
    assert CarryEntries(CarriedOver(core, semester, ctx), ctx) == [] <==> CarriedOver(core, semester, ctx) == [];
    TermAggregate(Some(Reduce(Text(NoCarryOversMessage), CarryEntries(CarriedOver(core, semester, ctx), ctx)).data),
                  None,
                  Reduce(Text(NoCarryOversMessage), CarryEntries(CarriedOver(core, semester, ctx), ctx)).totals)
  }

  /** Every carry-over is a `reg_status` registration of the student for the
      year and semester whose course is outside the core list, and every
      such registration is a carry-over. */
  lemma CarriedOverMembers(core: seq<GroupCourse>, semester: int, ctx: Ctx, x: Registration)
    ensures x in CarriedOver(core, semester, ctx) <==>
      (x in ctx.db.regs && x.student == ctx.student.id && x.year == ctx.year && x.regStatus
       && x.course.semester == semester && !(exists g :: g in core && g.course.id == x.course.id))
  {
    ListedIff(core, x.course.id);
  }

  /** The carry-over pass excludes only the core list: a registered elective
      of the semester is picked up again as a carry-over. */
  lemma ElectiveAlsoCarriedOver(core: seq<GroupCourse>, elective: GroupCourse, semester: int,
                                reg: Registration, ctx: Ctx)
    requires reg in ctx.db.regs && reg.student == ctx.student.id && reg.year == ctx.year && reg.regStatus
    requires reg.course.semester == semester && elective.course.id == reg.course.id
    requires forall g :: g in core ==> g.course.id != reg.course.id
    ensures reg in CarriedOver(core, semester, ctx)
  {
    ListedIff(core, reg.course.id);
  }

  /** With no negative units, credits earned on carry-overs never exceed
      credits registered. */
  lemma {:induction false} CarryEarnedWithinRegistered(regs: seq<Registration>, ctx: Ctx)
    requires forall x :: x in regs ==> x.course.units >= 0
    ensures 0 <= SumEntries(CarryEntries(regs, ctx)).tce <= SumEntries(CarryEntries(regs, ctx)).tcr
  {
    if regs != [] {
      var es := CarryEntries(regs, ctx);
      assert es[1..] == CarryEntries(regs[1..], ctx);
      assert regs[0] in regs;
      GradedMeaning(regs[0].course, VisibleResult(ctx.db.results, ctx.student.id, regs[0].course.id, ctx.year, ctx.visible),
                    ctx.student, ctx.grader);
      CarryEarnedWithinRegistered(regs[1..], ctx);
    }
  }
}
