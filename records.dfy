/**
  The documents the loan and form controllers read and write, as they appear
  after Mongoose has loaded them. Every collection is keyed by an `Id`; a
  record value never carries its own `_id`, so "deleting `_id`" before a
  create is the same as building the record from the remaining fields.
  Timestamps set by the pre-save hooks depend on the wall clock and are not
  modelled; the answer record keeps its `_v`, `date_created` and
  `last_modified` fields only so that the answers patch can be shown not to
  touch them.
 */
module Records {

  /** Object ids; every collection draws them from one counter. */
  type Id = nat

  datatype Option<+T> = None | Some(value: T)

  /** The `type` of the `CustomError` each controller throws. */
  datatype ErrorType =
    | LoanCreationError         // LOAN_CREATION_ERROR
    | LoanStatusUpdateError     // LOAN_STATUS_UPDATE_ERROR (the VIEW refusal of fetchOne, the UPDATE refusal of update)
    | LoanRetrievalError        // LOAN_RETRIEVAL_ERROR
    | LoanUpdateError           // LOAN_UPDATE_ERROR (body validation of update)
    | UpdateLoanError           // UPDATE_LOAN_ERROR (everything thrown inside update's try)
    | RemoveLoanError           // REMOVE_LOAN_ERROR
    | FormCreationError         // FORM_CREATION_ERROR
    | FormRetrievalError        // FORM_RETRIEVAL_ERROR
    | FormStatusUpdateError     // FORM_STATUS_UPDATE_ERROR
    | UpdateFormError           // UPDATE_FORM_ERROR

  /** What a controller hands back: the response body, or the error it throws. */
  datatype Result<+T> = Ok(value: T) | Err(kind: ErrorType, msg: string)

  /** A template question (models/question.js); `subQuestions` are references. */
  datatype Question = Question(
    title: string,
    remark: string,
    qtype: string,
    answer: string,
    subQuestions: seq<Id>)

  /** A form template; `questions` are references into the question collection. */
  datatype Form = Form(
    ftype: string,
    title: string,
    isActive: Option<bool>,
    questions: seq<Id>)

  datatype Client = Client(firstName: string, lastName: string, status: string)

  datatype Screening = Screening(client: Id, status: string)

  /** An account belongs to a user; `created_by` of a loan prefers it. */
  datatype Account = Account(user: Id)

  /**
    An answer: a question copied into one loan application. `subQuestions`
    is what loan creation fills in; `subAnswers` is what loan removal reads.
   */
  datatype Answer = Answer(
    title: string,
    remark: string,
    qtype: string,
    answer: string,
    subQuestions: seq<Id>,
    subAnswers: seq<Id>,
    v: Option<int>,
    dateCreated: Option<string>,
    lastModified: Option<string>)

  /**
    A loan application (models/loan.js). An entry of `answers` is `None` when
    the answers patch stored the `null` returned for an answer it could not find.
   */
  datatype Loan = Loan(
    ltype: string,
    description: string,
    title: string,
    answers: seq<Option<Id>>,
    createdBy: Id,
    client: Id,
    status: string)

  datatype Task = Task(
    task: string,
    taskType: string,
    entityRef: Id,
    entityType: string,
    createdBy: Id,
    user: Option<Id>,
    status: string)

  datatype Notification = Notification(recipient: Id, message: string, taskRef: Option<Id>)

  /** One element of `body.answers` in a loan update: any subset of an answer's fields. */
  datatype AnswerEdit = AnswerEdit(
    id: Option<Id>,
    v: Option<int>,
    dateCreated: Option<string>,
    lastModified: Option<string>,
    title: Option<string>,
    remark: Option<string>,
    qtype: Option<string>,
    answer: Option<string>,
    subQuestions: Option<seq<Id>>,
    subAnswers: Option<seq<Id>>)

  /** The body of `PUT /loans/:id`, restricted to the fields the loan schema keeps. */
  datatype LoanBody = LoanBody(
    status: Option<string>,
    answers: Option<seq<AnswerEdit>>,
    ltype: Option<string>,
    description: Option<string>,
    title: Option<string>,
    createdBy: Option<Id>,
    client: Option<Id>)

  /** The body of a form create or update, restricted to the fields the form keeps. */
  datatype FormBody = FormBody(
    ftype: Option<string>,
    title: Option<string>,
    isActive: Option<bool>,
    questions: Option<seq<Id>>)

  function Pick<T>(o: Option<T>, d: T): (r: T)
    ensures o.Some? ==> r == o.value
    ensures o.None? ==> r == d
  {
    match o
    case Some(x) => x
    case None => d
  }

  function Lookup<V>(m: map<Id, V>, k: Id): (r: Option<V>)
    ensures r.Some? <==> k in m
    ensures r.Some? ==> r.value == m[k]
  {
    if k in m then Some(m[k]) else None
  }

  /** A `$set` of every field the edit carries, identity and timestamp fields included. */
  function ApplyEdit(a: Answer, e: AnswerEdit): Answer
  {
    Answer(
      Pick(e.title, a.title),
      Pick(e.remark, a.remark),
      Pick(e.qtype, a.qtype),
      Pick(e.answer, a.answer),
      Pick(e.subQuestions, a.subQuestions),
      Pick(e.subAnswers, a.subAnswers),
      if e.v.Some? then e.v else a.v,
      if e.dateCreated.Some? then e.dateCreated else a.dateCreated,
      if e.lastModified.Some? then e.lastModified else a.lastModified)
  }

  /** The `delete answer._id; delete answer._v; …` of the answers patch. */
  function Strip(e: AnswerEdit): (r: AnswerEdit)
    ensures r.id.None? && r.v.None? && r.dateCreated.None? && r.lastModified.None?
    ensures r.(id := e.id, v := e.v, dateCreated := e.dateCreated, lastModified := e.lastModified) == e
  {
    e.(id := None, v := None, dateCreated := None, lastModified := None)
  }

  /** Applying a stripped edit changes an answer's content fields and keeps its identity fields. */
  lemma StripKeepsIdentity(a: Answer, e: AnswerEdit)
    ensures var b := ApplyEdit(a, Strip(e));
      b.v == a.v && b.dateCreated == a.dateCreated && b.lastModified == a.lastModified
      && b.title == Pick(e.title, a.title) && b.answer == Pick(e.answer, a.answer)
      && b.remark == Pick(e.remark, a.remark) && b.qtype == Pick(e.qtype, a.qtype)
      && b.subQuestions == Pick(e.subQuestions, a.subQuestions)
      && b.subAnswers == Pick(e.subAnswers, a.subAnswers)
  {
  }

  /** LoanDal.update with the (already answer-resolved) body. */
  function ApplyLoanBody(l: Loan, status: string, answers: Option<seq<Option<Id>>>, b: LoanBody): Loan
  {
    Loan(
      Pick(b.ltype, l.ltype),
      Pick(b.description, l.description),
      Pick(b.title, l.title),
      Pick(answers, l.answers),
      Pick(b.createdBy, l.createdBy),
      Pick(b.client, l.client),
      status)
  }

  function ApplyFormBody(f: Form, b: FormBody): Form
  {
    Form(
      Pick(b.ftype, f.ftype),
      Pick(b.title, f.title),
      if b.isActive.Some? then b.isActive else f.isActive,
      Pick(b.questions, f.questions))
  }

  /** The message of a TypeError raised by reading property `p` of `null`. */
  function NullRead(p: string): string
  {
    "Cannot read property '" + p + "' of null"
  }

  /** The message of a TypeError raised by reading property `p` of `undefined`. */
  function UndefinedRead(p: string): string
  {
    "Cannot read property '" + p + "' of undefined"
  }

  const PermissionMessage: string := "You Don't " + "have enough permissions to complete this action"

  /** `JSON.stringify(this.errors)` for koa-validate's `[{field: message}, …]`. */
  function ErrorsJson(errs: seq<(string, string)>): string
  {
    "[" + ErrorItems(errs) + "]"
  }

  function ErrorItems(errs: seq<(string, string)>): string
  {
    if errs == [] then ""
    else
      "{\"" + errs[0].0 + "\":\"" + errs[0].1 + "\"}"
      + (if |errs| > 1 then "," + ErrorItems(errs[1..]) else "")
  }
}
