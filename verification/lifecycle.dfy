/** The result lifecycle: the batch transitions that move a cohort's
    results for a year and semester from one status to the next, and the
    officer's per-course rejection. Statuses: 1 pending (with the
    lecturer), 2 submitted to the officer, 3 approved by the officer, 4
    approved by the administrator. The results collection is an array of
    rows updated in place. */
module Lifecycle {
  import opened Common
  import opened Records

  const PendingMessage: string := "You can't submit with pending results."
  const RejectPendingMessage: string := "You can't reject pending results."
  const ApprovePendingMessage: string := "You can't approve with pending results."
  const NotAssignedMessage: string := "Group wasn't assigned to you."

  /** A (student, course) pair a batch must find a result for. */
  datatype Key = Key(student: Id, course: Id)

  /** A registration the batch looks a result up for: the student's, in the
      year, with a course of the semester. The registration's `reg_status`
      is not consulted. */
  predicate InBatch(r: Registration, sid: Id, year: int, semester: int)
  {
    r.student == sid && r.year == year && r.course.semester == semester
  }

  /** The keys of one student: one per registration of the batch, in store
      order. */
  function StudentKeys(sid: Id, regs: seq<Registration>, year: int, semester: int): (ks: seq<Key>)
    ensures |ks| <= |regs|
    ensures forall k :: k in ks ==> k.student == sid
    ensures forall r :: r in regs && InBatch(r, sid, year, semester) ==> Key(sid, r.course.id) in ks
    ensures forall k :: k in ks ==> exists r :: r in regs && InBatch(r, sid, year, semester) && r.course.id == k.course
  {
    if regs == [] then []
    else (if InBatch(regs[0], sid, year, semester) then [Key(sid, regs[0].course.id)] else [])
         + StudentKeys(sid, regs[1..], year, semester)
  }

  /** The keys of a list of students, student by student. */
  function BatchKeys(students: seq<Student>, regs: seq<Registration>, year: int, semester: int): (ks: seq<Key>)
    ensures forall k :: k in ks ==> exists s :: s in students && s.id == k.student
    ensures forall k :: k in ks ==> exists r :: r in regs && InBatch(r, k.student, year, semester) && r.course.id == k.course
  {
    if students == [] then []
    else StudentKeys(students[0].id, regs, year, semester) + BatchKeys(students[1..], regs, year, semester)
  }

  /** The batch of a cohort: the keys of every student of the group and set
      who entered by the year. */
  function CohortKeys(students: seq<Student>, regs: seq<Registration>, group: Id, studentSet: int,
                      year: int, semester: int): (ks: seq<Key>)
    ensures forall k :: k in ks ==>
      (exists s :: s in Cohort(students, group, studentSet, year) && s.id == k.student)
      && exists r :: r in regs && InBatch(r, k.student, year, semester) && r.course.id == k.course
  {
    BatchKeys(Cohort(students, group, studentSet, year), regs, year, semester)
  }

  /** The `findOne` of a batch: a row for the key's student and course,
      submitted in the year, with one of the given statuses. */
  predicate Matches(x: ResultRow, k: Key, year: int, from: set<int>)
  {
    x.student == k.student && x.course.id == k.course && x.year == year && x.status in from
  }

  function Lookup(rows: seq<ResultRow>, k: Key, year: int, from: set<int>): Option<nat>
  {
    FirstIndex(rows, (x: ResultRow) => Matches(x, k, year, from))
  }

  /** Every key of the batch has a row to move. */
  predicate Complete(rows: seq<ResultRow>, keys: seq<Key>, year: int, from: set<int>)
  {
    forall j :: 0 <= j < |keys| ==> Lookup(rows, keys[j], year, from).Some?
  }

  /** The rows found for the keys, in the order of the keys. */
  function Hits(rows: seq<ResultRow>, keys: seq<Key>, year: int, from: set<int>): (hs: seq<nat>)
    ensures forall i :: i in hs ==> i < |rows| && rows[i].year == year && rows[i].status in from
    decreases |keys|
  {
    if keys == [] then []
    else Hits(rows, keys[..|keys| - 1], year, from)
         + (match Lookup(rows, keys[|keys| - 1], year, from) case None => [] case Some(i) => [i])
  }

  /** The rows found are exactly the first matching row of each key. */
  lemma {:induction false} HitsMeaning(rows: seq<ResultRow>, keys: seq<Key>, year: int, from: set<int>, i: nat)
    ensures i in Hits(rows, keys, year, from) <==>
      exists j :: 0 <= j < |keys| && Lookup(rows, keys[j], year, from) == Some(i)
    decreases |keys|
  {
    if keys != [] {
      var init := keys[..|keys| - 1];
      HitsMeaning(rows, init, year, from, i);
      if exists j :: 0 <= j < |keys| && Lookup(rows, keys[j], year, from) == Some(i) {
        var j :| 0 <= j < |keys| && Lookup(rows, keys[j], year, from) == Some(i);
        if j < |keys| - 1 {
          assert init[j] == keys[j];
        }
      }
      if i in Hits(rows, init, year, from) {
        var j :| 0 <= j < |init| && Lookup(rows, init[j], year, from) == Some(i);
        assert keys[j] == init[j];
      }
    }
  }

  /** The rows with every listed position moved to status `to`. */
  function Moved(rows: seq<ResultRow>, hs: seq<nat>, to: int): (r: seq<ResultRow>)
    ensures |r| == |rows|
    ensures forall i :: 0 <= i < |rows| && i in hs ==> r[i] == rows[i].(status := to)
    ensures forall i :: 0 <= i < |rows| && i !in hs ==> r[i] == rows[i]
  {
    seq(|rows|, i requires 0 <= i < |rows| => if i in hs then rows[i].(status := to) else rows[i])
  }

  /** Moving one more position updates that row alone. */
  lemma MovedStep(rows: seq<ResultRow>, hs: seq<nat>, h: nat, to: int)
    requires h < |rows|
    ensures Moved(rows, hs + [h], to) == Moved(rows, hs, to)[h := Moved(rows, hs, to)[h].(status := to)]
  {
    var a := Moved(rows, hs + [h], to);
    var b := Moved(rows, hs, to)[h := Moved(rows, hs, to)[h].(status := to)];
    forall i | 0 <= i < |rows|
      ensures a[i] == b[i]
    {
      if i != h && i in hs + [h] {
        assert i in hs;
      }
    }
  }

  /** After a complete batch, every key's first matching row has moved to
      `to`, and only rows that were found have changed, in their status
      alone. */
  lemma BatchEffect(rows: seq<ResultRow>, keys: seq<Key>, year: int, from: set<int>, to: int)
    requires Complete(rows, keys, year, from)
    ensures var after := Moved(rows, Hits(rows, keys, year, from), to);
      && (forall j :: 0 <= j < |keys| ==>
            (Lookup(rows, keys[j], year, from).value < |after|
             && after[Lookup(rows, keys[j], year, from).value].status == to
             && after[Lookup(rows, keys[j], year, from).value].student == keys[j].student
             && after[Lookup(rows, keys[j], year, from).value].course.id == keys[j].course
             && after[Lookup(rows, keys[j], year, from).value].year == year))
      && (forall i :: 0 <= i < |rows| && after[i] != rows[i] ==>
            (after[i] == rows[i].(status := to) && rows[i].status in from && rows[i].year == year))
  {
    var hs := Hits(rows, keys, year, from);
    forall j | 0 <= j < |keys|
      ensures Lookup(rows, keys[j], year, from).value in hs
    {
      HitsMeaning(rows, keys, year, from, Lookup(rows, keys[j], year, from).value);
    }
  }

  // ---------------------------------------------------------------------
  // The batch transitions
  // ---------------------------------------------------------------------

  /** A `findOne` over the results collection: the first row matching the
      key, scanning in store order. */
  method FindOne(table: array<ResultRow>, k: Key, year: int, from: set<int>) returns (found: Option<nat>)
    ensures found == Lookup(table[..], k, year, from)
  {
    var i := 0;
    while i < table.Length
      invariant 0 <= i <= table.Length
      invariant forall j :: 0 <= j < i ==> !Matches(table[j], k, year, from)
    {
      if Matches(table[i], k, year, from) {
        return Some(i);
      }
      i := i + 1;
    }
    return None;
  }

  /** The check phase of a batch: looks up every key, recording whether all
      were found and which rows were. */
  method CollectBatch(table: array<ResultRow>, keys: seq<Key>, year: int, from: set<int>)
    returns (complete: bool, hits: seq<nat>)
    ensures complete == Complete(table[..], keys, year, from)
    ensures hits == Hits(table[..], keys, year, from)
  {
    complete := true;
    hits := [];
    var k := 0;
    while k < |keys|
      invariant 0 <= k <= |keys|
      invariant complete == (forall j :: 0 <= j < k ==> Lookup(table[..], keys[j], year, from).Some?)
      invariant hits == Hits(table[..], keys[..k], year, from)
    {
      var found := FindOne(table, keys[k], year, from);
      assert keys[..k + 1][..k] == keys[..k];
      match found {
        case None =>
          complete := false;
        case Some(i) =>
          hits := hits + [i];
      }
      k := k + 1;
    }
    assert keys[..k] == keys;
  }

  /** The write phase of a batch: every collected row takes status `to`. */
  method MoveRows(table: array<ResultRow>, hits: seq<nat>, to: int)
    requires forall k :: 0 <= k < |hits| ==> hits[k] < table.Length
    modifies table
    ensures table[..] == Moved(old(table[..]), hits, to)
  {
    ghost var before := table[..];
    var k := 0;
    while k < |hits|
      invariant 0 <= k <= |hits|
      invariant table[..] == Moved(before, hits[..k], to)
    {
      MovedStep(before, hits[..k], hits[k], to);
      assert hits[..k + 1] == hits[..k] + [hits[k]];
      table[hits[k]] := table[hits[k]].(status := to);
      k := k + 1;
    }
    assert hits[..k] == hits;
  }

  /** A batch transition: when every key of the batch has a row in one of
      the `from` statuses, all of those rows move to `to` and the handler
      passes on; otherwise it answers 403 with `msg` and nothing changes. */
  method BatchTransition(table: array<ResultRow>, keys: seq<Key>, year: int, from: set<int>, to: int, msg: string)
    returns (out: Outcome)
    modifies table
    ensures Complete(old(table[..]), keys, year, from) ==>
      out == Next && table[..] == Moved(old(table[..]), Hits(old(table[..]), keys, year, from), to)
    ensures !Complete(old(table[..]), keys, year, from) ==>
      out == Reply(403, msg) && table[..] == old(table[..])
  {
    var complete, hits := CollectBatch(table, keys, year, from);
    if !complete {
      return Reply(403, msg);
    }
    forall k | 0 <= k < |hits|
      ensures hits[k] < table.Length
    {
      assert hits[k] in hits;
    }
    MoveRows(table, hits, to);
    return Next;
  }

  /** The officer's `save_result`: submits the cohort's semester to the
      administrator, moving every submitted result (2) to approved by the
      officer (3). */
  method OfficerSubmit(table: array<ResultRow>, students: seq<Student>, regs: seq<Registration>,
                       assignedGroups: seq<Id>, group: Id, studentSet: int, year: int, semester: int)
    returns (out: Outcome)
    modifies table
    ensures group !in assignedGroups ==> out == Reply(403, NotAssignedMessage) && table[..] == old(table[..])
    ensures group in assignedGroups ==>
      var keys := CohortKeys(students, regs, group, studentSet, year, semester);
      if Complete(old(table[..]), keys, year, {2}) then
        out == Next && table[..] == Moved(old(table[..]), Hits(old(table[..]), keys, year, {2}), 3)
      else
        out == Reply(403, PendingMessage) && table[..] == old(table[..])
  {
    if group !in assignedGroups {
      return Reply(403, NotAssignedMessage);
    }
    out := BatchTransition(table, CohortKeys(students, regs, group, studentSet, year, semester), year, {2}, 3, PendingMessage);
  }

  /** The administrator's `save_result`: approves the cohort's semester,
      moving every result approved by the officer or already approved (3 or
      4) to approved (4). */
  method AdminApprove(table: array<ResultRow>, students: seq<Student>, regs: seq<Registration>,
                      group: Id, studentSet: int, year: int, semester: int)
    returns (out: Outcome)
    modifies table
    ensures var keys := CohortKeys(students, regs, group, studentSet, year, semester);
      if Complete(old(table[..]), keys, year, {3, 4}) then
        out == Next && table[..] == Moved(old(table[..]), Hits(old(table[..]), keys, year, {3, 4}), 4)
      else
        out == Reply(403, ApprovePendingMessage) && table[..] == old(table[..])
  {
    out := BatchTransition(table, CohortKeys(students, regs, group, studentSet, year, semester), year, {3, 4}, 4,
                           ApprovePendingMessage);
  }

  /** The administrator's `reject_result`: sends the cohort's semester back
      to the officer, moving every result at 3 or 4 to submitted (2). */
  method AdminReject(table: array<ResultRow>, students: seq<Student>, regs: seq<Registration>,
                     group: Id, studentSet: int, year: int, semester: int)
    returns (out: Outcome)
    modifies table
    ensures var keys := CohortKeys(students, regs, group, studentSet, year, semester);
      if Complete(old(table[..]), keys, year, {3, 4}) then
        out == Next && table[..] == Moved(old(table[..]), Hits(old(table[..]), keys, year, {3, 4}), 2)
      else
        out == Reply(403, RejectPendingMessage) && table[..] == old(table[..])
  {
    out := BatchTransition(table, CohortKeys(students, regs, group, studentSet, year, semester), year, {3, 4}, 2,
                           RejectPendingMessage);
  }

  /** Some result of the store matches the key. */
  predicate HasRow(rows: seq<ResultRow>, k: Key, year: int, from: set<int>)
  {
    exists x :: x in rows && Matches(x, k, year, from)
  }

  lemma LookupFindsRow(rows: seq<ResultRow>, k: Key, year: int, from: set<int>)
    ensures Lookup(rows, k, year, from).Some? <==> HasRow(rows, k, year, from)
  {
    if HasRow(rows, k, year, from) {
      var x :| x in rows && Matches(x, k, year, from);
      var i :| 0 <= i < |rows| && rows[i] == x;
    }
  }

  /** Every registration of the batch, for every student of the cohort, has
      a result in one of the `from` statuses. */
  predicate EveryRegistrationHasRow(rows: seq<ResultRow>, students: seq<Student>, regs: seq<Registration>,
                                    group: Id, studentSet: int, year: int, semester: int, from: set<int>)
  {
    forall s, r :: s in Cohort(students, group, studentSet, year) && r in regs && InBatch(r, s.id, year, semester)
      ==> HasRow(rows, Key(s.id, r.course.id), year, from)
  }

  /** The guard of a batch, read at the level of registrations: the batch
      goes through exactly when every registration of the semester of every
      cohort student has a result in one of the `from` statuses ({2} for
      the officer's submission, {3, 4} for the administrator's approval and
      rejection). */
  lemma CohortCompleteIff(rows: seq<ResultRow>, students: seq<Student>, regs: seq<Registration>,
                          group: Id, studentSet: int, year: int, semester: int, from: set<int>)
    ensures Complete(rows, CohortKeys(students, regs, group, studentSet, year, semester), year, from)
            <==> EveryRegistrationHasRow(rows, students, regs, group, studentSet, year, semester, from)
  {
    var cohort := Cohort(students, group, studentSet, year);
    var keys := CohortKeys(students, regs, group, studentSet, year, semester);
    if Complete(rows, keys, year, from) {
      forall s, r | s in cohort && r in regs && InBatch(r, s.id, year, semester)
        ensures HasRow(rows, Key(s.id, r.course.id), year, from)
      {
        KeyInBatch(cohort, regs, year, semester, s, r);
        var j :| 0 <= j < |keys| && keys[j] == Key(s.id, r.course.id);
        LookupFindsRow(rows, keys[j], year, from);
      }
    }
    if EveryRegistrationHasRow(rows, students, regs, group, studentSet, year, semester, from) {
      forall j | 0 <= j < |keys|
        ensures Lookup(rows, keys[j], year, from).Some?
      {
        var k := keys[j];
        assert k in keys;
        var s :| s in cohort && s.id == k.student;
        var r :| r in regs && InBatch(r, k.student, year, semester) && r.course.id == k.course;
        assert k == Key(s.id, r.course.id);
        LookupFindsRow(rows, k, year, from);
      }
    }
  }

  /** A registration in the semester without a submitted result blocks the
      officer's submission, whatever its `reg_status`. */
  lemma MissingResultBlocks(rows: seq<ResultRow>, students: seq<Student>, regs: seq<Registration>,
                            group: Id, studentSet: int, year: int, semester: int, s: Student, r: Registration)
    requires s in Cohort(students, group, studentSet, year)
    requires r in regs && InBatch(r, s.id, year, semester)
    requires forall x :: x in rows ==> !(x.student == s.id && x.course.id == r.course.id && x.year == year && x.status == 2)
    ensures !Complete(rows, CohortKeys(students, regs, group, studentSet, year, semester), year, {2})
  {
    CohortCompleteIff(rows, students, regs, group, studentSet, year, semester, {2});
    assert !HasRow(rows, Key(s.id, r.course.id), year, {2});
  }

  lemma {:induction false} KeyInBatch(students: seq<Student>, regs: seq<Registration>, year: int, semester: int,
                                      s: Student, r: Registration)
    requires s in students
    requires r in regs && InBatch(r, s.id, year, semester)
    ensures Key(s.id, r.course.id) in BatchKeys(students, regs, year, semester)
  {
    if students[0] != s {
      KeyInBatch(students[1..], regs, year, semester, s, r);
    }
  }

  // ---------------------------------------------------------------------
  // The officer's per-course rejection
  // ---------------------------------------------------------------------

  /** One student's turn in the officer's `reject_result`: the first
      submitted result of the student for the course in the year, if any,
      goes back to pending. */
  function RejectOne(rows: seq<ResultRow>, sid: Id, cid: Id, year: int): (r: seq<ResultRow>)
    ensures |r| == |rows|
    ensures forall i :: 0 <= i < |rows| && r[i] != rows[i] ==>
      r[i] == rows[i].(status := 1) && Matches(rows[i], Key(sid, cid), year, {2})
  {
    match Lookup(rows, Key(sid, cid), year, {2})
    case None => rows
    case Some(i) => rows[i := rows[i].(status := 1)]
  }

  /** The officer's `reject_result` over a list of students, in order. */
  function RejectAll(rows: seq<ResultRow>, students: seq<Student>, cid: Id, year: int): (r: seq<ResultRow>)
    ensures |r| == |rows|
    decreases |students|
  {
    if students == [] then rows
    else RejectOne(RejectAll(rows, students[..|students| - 1], cid, year), students[|students| - 1].id, cid, year)
  }

  /** The rejection of one more student is that student's turn after the
      others'. */
  lemma RejectAllSnoc(rows: seq<ResultRow>, students: seq<Student>, s: Student, cid: Id, year: int)
    ensures RejectAll(rows, students + [s], cid, year) == RejectOne(RejectAll(rows, students, cid, year), s.id, cid, year)
  {
    assert (students + [s])[..|students|] == students;
  }

  /** A row the rejection changes was a submitted result of one of the
      students for the course in the year, and it is now pending with
      nothing else changed. */
  lemma {:induction false} RejectAllFrame(rows: seq<ResultRow>, students: seq<Student>, cid: Id, year: int, i: int)
    requires 0 <= i < |rows|
    ensures RejectAll(rows, students, cid, year)[i] == rows[i] ||
      (RejectAll(rows, students, cid, year)[i] == rows[i].(status := 1)
       && rows[i].status == 2 && rows[i].course.id == cid && rows[i].year == year
       && exists s :: s in students && s.id == rows[i].student)
    decreases |students|
  {
    if students != [] {
      var init := students[..|students| - 1];
      var last := students[|students| - 1];
      var mid := RejectAll(rows, init, cid, year);
      RejectAllFrame(rows, init, cid, year, i);
      if mid[i] != rows[i] {
        var s :| s in init && s.id == rows[i].student;
        assert s in students;
      }
      if RejectOne(mid, last.id, cid, year)[i] != mid[i] {
        assert Lookup(mid, Key(last.id, cid), year, {2}) == Some(i);
      }
    }
  }

  /** A row that is not submitted is left alone by a student's turn. */
  lemma RejectOneKeeps(rows: seq<ResultRow>, sid: Id, cid: Id, year: int, i: int)
    requires 0 <= i < |rows| && rows[i].status != 2
    ensures RejectOne(rows, sid, cid, year)[i] == rows[i]
  {
  }

  /** Every listed student's first submitted result for the course in the
      year is pending afterwards. */
  lemma {:induction false} RejectAllMoves(rows: seq<ResultRow>, students: seq<Student>, cid: Id, year: int,
                                          s: Student, i: nat)
    requires s in students
    requires Lookup(rows, Key(s.id, cid), year, {2}) == Some(i)
    ensures RejectAll(rows, students, cid, year)[i] == rows[i].(status := 1)
    decreases |students|
  {
    var init := students[..|students| - 1];
    var last := students[|students| - 1];
    var mid := RejectAll(rows, init, cid, year);
    assert students == init + [last];
    if s in init {
      RejectAllMoves(rows, init, cid, year, s, i);
      RejectOneKeeps(mid, last.id, cid, year, i);
    } else {
      RejectAllFrame(rows, init, cid, year, i);
      if mid[i] == rows[i] {
        forall j | 0 <= j < i
          ensures !Matches(mid[j], Key(s.id, cid), year, {2})
        {
          RejectAllFrame(rows, init, cid, year, j);
        }
        assert Matches(mid[i], Key(s.id, cid), year, {2});
        assert Lookup(mid, Key(s.id, cid), year, {2}) == Some(i);
      } else {
        RejectOneKeeps(mid, last.id, cid, year, i);
      }
    }
  }

  /** One student's turn, in place. */
  method RejectTurn(table: array<ResultRow>, sid: Id, cid: Id, year: int)
    modifies table
    ensures table[..] == RejectOne(old(table[..]), sid, cid, year)
  {
    var found := FindOne(table, Key(sid, cid), year, {2});
    match found {
      case None =>
      case Some(i) =>
        table[i] := table[i].(status := 1);
    }
  }

  /** The turns of a list of students, one after the other, in place. */
  method RejectStudents(table: array<ResultRow>, students: seq<Student>, cid: Id, year: int)
    modifies table
    ensures table[..] == RejectAll(old(table[..]), students, cid, year)
  {
    ghost var before := table[..];
    var k := 0;
    while k < |students|
      invariant 0 <= k <= |students|
      invariant table[..] == RejectAll(before, students[..k], cid, year)
    {
      RejectAllSnoc(before, students[..k], students[k], cid, year);
      assert students[..k + 1] == students[..k] + [students[k]];
      RejectTurn(table, students[k].id, cid, year);
      k := k + 1;
    }
    assert students[..k] == students;
  }

  /** The officer's `reject_result`: for every student of the cohort, the
      first submitted result for the course in the year goes back to
      pending (1). No check phase: students with no such result are
      skipped. */
  method OfficerReject(table: array<ResultRow>, students: seq<Student>, assignedGroups: seq<Id>, group: Id,
                       studentSet: int, cid: Id, year: int) returns (out: Outcome)
    modifies table
    ensures group !in assignedGroups ==> out == Reply(403, NotAssignedMessage) && table[..] == old(table[..])
    ensures group in assignedGroups ==>
      out == Next && table[..] == RejectAll(old(table[..]), Cohort(students, group, studentSet, year), cid, year)
  {
    if group !in assignedGroups {
      return Reply(403, NotAssignedMessage);
    }
    RejectStudents(table, Cohort(students, group, studentSet, year), cid, year);
    return Next;
  }
}
