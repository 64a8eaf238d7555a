/** How the term pass's reduce behaves as written. Its callback is `async`,
    so every call returns a promise, and `reduce` hands that promise to the
    next call as its accumulator. From the second course on, the callback
    therefore reads `data` off a promise, gets `undefined`, and `push`
    throws. */
module AsyncReduce {
  import opened Common
  import opened TermAggregation

  /** What the callback receives as `acc`: the initial object on the first
      call, and after that the promise the previous call returned (settled
      with an accumulator or rejected). */
  datatype JsAcc = Object(acc: Acc) | PromiseOf(acc: Acc) | Rejected

  /** The step every branch of the callback ends with on a real accumulator. */
  function Push(acc: Acc, e: Entry): (r: Acc)
    ensures r == FoldEntries(acc, [e])
  {
    Acc(Rows(RowsOf(acc.data) + [e.row]), Add(acc.totals, e.add))
  }

  /** One call of the `async` callback. */
  function AsyncStep(j: JsAcc, e: Entry): JsAcc
  {
    match j
    case Object(a) => PromiseOf(Push(a, e))
    // a promise has no `data` field, so `acc.data.push` throws and the
    // call's promise rejects
    case PromiseOf(_) => Rejected
    case Rejected => Rejected
  }

  function AsyncFold(j: JsAcc, es: seq<Entry>): JsAcc
    decreases |es|
  {
    if es == [] then j else AsyncFold(AsyncStep(j, es[0]), es[1..])
  }

  /** `await courses.reduce(async …, init)`: the accumulator it resolves
      with, or None when it rejects. */
  function AsyncReduceAsWritten(init: RowsOrText, es: seq<Entry>): (r: Option<Acc>)
  {
    match AsyncFold(Object(Acc(init, Zero)), es)
    case Object(a) => Some(a)
    case PromiseOf(a) => Some(a)
    case Rejected => None
  }

  lemma {:induction false} RejectedStaysRejected(es: seq<Entry>)
    ensures AsyncFold(Rejected, es) == Rejected
    decreases |es|
  {
    if es != [] {
      RejectedStaysRejected(es[1..]);
    }
  }

  /** As written, a list of two or more courses makes the pass reject. */
  lemma AsyncReduceRejectsFromTwo(init: RowsOrText, es: seq<Entry>)
    requires |es| >= 2
    ensures AsyncReduceAsWritten(init, es).None?
  {
    assert AsyncFold(Object(Acc(init, Zero)), es) == AsyncFold(AsyncStep(PromiseOf(Push(Acc(init, Zero), es[0])), es[1]), es[2..]);
    RejectedStaysRejected(es[2..]);
  }

  /** The discrepancy on a concrete input: two courses, where the intended
      sequential reduce produces two rows. */
  lemma TwoCoursesShowIt(e1: Entry, e2: Entry)
    ensures AsyncReduceAsWritten(Rows([]), [e1, e2]).None?
    ensures Reduce(Rows([]), [e1, e2]).data == Rows([e1.row, e2.row])
  {
    AsyncReduceRejectsFromTwo(Rows([]), [e1, e2]);
    assert RowsOfEntries([e1, e2]) == [e1.row, e2.row];
  }

  /** With at most one course, the code as written and the intended
      sequential reduce agree. */
  lemma AsyncReduceAgreesUpToOne(init: RowsOrText, es: seq<Entry>)
    requires |es| <= 1
    ensures AsyncReduceAsWritten(init, es) == Some(Reduce(init, es))
  {
    var a0 := Acc(init, Zero);
    if |es| == 1 {
      assert es == [es[0]];
      assert AsyncFold(Object(a0), es) == PromiseOf(Push(a0, es[0]));
      assert Reduce(init, es) == FoldEntries(a0, [es[0]]);
    }
  }
}
