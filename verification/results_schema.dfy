/** The result document's schema: which fields are required, the maxima
    of the continuous-assessment and exam scores, and the defaults a new
    result takes. There is no minimum on any score. */
module ResultsSchema {
  import opened Common
  import opened Records

  const CaMax := 10
  const ExamMax := 70
  const InitialStatus := 1

  /** The fields given when a result is created; an absent field is None. */
  datatype ResultDraft = ResultDraft(course: Option<Id>, ca1: Option<int>, ca2: Option<int>, ca3: Option<int>,
                                     exam: Option<int>, student: Option<Id>, yearSubmitted: Option<int>,
                                     resultStatus: Option<int>)

  /** A stored result document. */
  datatype StoredResult = StoredResult(course: Id, ca1: int, ca2: int, ca3: int, exam: int,
                                       student: Id, yearSubmitted: int, resultStatus: int)

  /** What fails schema validation: a required field that is absent, or a
      number above its maximum. */
  datatype FieldError = Required(path: string) | AboveMax(path: string, max: int)

  datatype Created = Saved(doc: StoredResult) | Invalid(errors: seq<FieldError>)

  function OrDefault(v: Option<int>, d: int): int
  {
    if v.Some? then v.value else d
  }

  /** The errors of one score field after its default is applied. */
  function ScoreErrors(path: string, v: Option<int>, max: int): seq<FieldError>
  {
    if OrDefault(v, 0) > max then [AboveMax(path, max)] else []
  }

  function RequiredErrors(path: string, present: bool): seq<FieldError>
  {
    if present then [] else [Required(path)]
  }

  /** The validation errors of a draft, in the schema's field order. */
  function Errors(d: ResultDraft): seq<FieldError>
  {
    RequiredErrors("course", d.course.Some?)
    + ScoreErrors("ca_1", d.ca1, CaMax) + ScoreErrors("ca_2", d.ca2, CaMax) + ScoreErrors("ca_3", d.ca3, CaMax)
    + ScoreErrors("exam", d.exam, ExamMax)
    + RequiredErrors("student", d.student.Some?) + RequiredErrors("year_submitted", d.yearSubmitted.Some?)
  }

  /** Creating a result: the defaults are applied (0 for every score, 1
      for the status) and the document is saved when it validates. */
  function Create(d: ResultDraft): (c: Created)
    ensures c.Saved? <==> (d.course.Some? && d.student.Some? && d.yearSubmitted.Some?
                           && OrDefault(d.ca1, 0) <= CaMax && OrDefault(d.ca2, 0) <= CaMax
                           && OrDefault(d.ca3, 0) <= CaMax && OrDefault(d.exam, 0) <= ExamMax)
    ensures c.Invalid? ==> c.errors != []
    ensures c.Saved? ==> (c.doc.course == d.course.value && c.doc.student == d.student.value
                          && c.doc.yearSubmitted == d.yearSubmitted.value)
  {
    if Errors(d) != [] then Invalid(Errors(d))
    else Saved(StoredResult(d.course.value, OrDefault(d.ca1, 0), OrDefault(d.ca2, 0), OrDefault(d.ca3, 0),
                            OrDefault(d.exam, 0), d.student.value, d.yearSubmitted.value,
                            OrDefault(d.resultStatus, InitialStatus)))
  }

  /** The total of a stored result. */
  function DocTotal(r: StoredResult): int
  {
    r.exam + r.ca1 + r.ca2 + r.ca3
  }

  /** A saved result's total is at most 100. */
  lemma SavedTotalAtMost100(d: ResultDraft)
    requires Create(d).Saved?
    ensures DocTotal(Create(d).doc) <= 100
  {
  }

  /** Each absent score is saved as 0 and an absent status as 1
      (pending); each given score and status is saved as given. */
  lemma SavedDefaults(d: ResultDraft)
    requires Create(d).Saved?
    ensures var r := Create(d).doc;
      (d.ca1.None? ==> r.ca1 == 0) && (d.ca1.Some? ==> r.ca1 == d.ca1.value)
      && (d.ca2.None? ==> r.ca2 == 0) && (d.ca2.Some? ==> r.ca2 == d.ca2.value)
      && (d.ca3.None? ==> r.ca3 == 0) && (d.ca3.Some? ==> r.ca3 == d.ca3.value)
      && (d.exam.None? ==> r.exam == 0) && (d.exam.Some? ==> r.exam == d.exam.value)
      && (d.resultStatus.None? ==> r.resultStatus == 1)
      && (d.resultStatus.Some? ==> r.resultStatus == d.resultStatus.value)
  {
  }

  /** A missing course, student or year is reported by its path. */
  lemma MissingRequiredReported(d: ResultDraft)
    ensures d.course.None? ==> Required("course") in Errors(d)
    ensures d.student.None? ==> Required("student") in Errors(d)
    ensures d.yearSubmitted.None? ==> Required("year_submitted") in Errors(d)
  {
  }

  /** Only maxima are declared: negative scores pass validation, and a
      saved result's total can be negative. */
  lemma NegativeScoreAccepted(d: ResultDraft, n: int)
    requires d.course.Some? && d.student.Some? && d.yearSubmitted.Some?
    requires n < 0
    ensures var c := Create(d.(ca1 := Some(n), ca2 := Some(n), ca3 := Some(n), exam := Some(n)));
      c.Saved? && DocTotal(c.doc) == 4 * n < 0
  {
  }
}
