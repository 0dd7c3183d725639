/**
  The entity store the controllers talk to through the data-access modules
  (FormDal, ClientDal, ScreeningDal, LoanDal, AnswerDal, TaskDal,
  NotificationDal, AccountDal). `DB` is a snapshot of every collection and
  the next free object id; its member functions are the store operations as
  values. `Store` is the mutable store itself: a class whose fields are the
  collections, whose methods perform one store operation each and are proved
  to agree with the corresponding `DB` function.

  Conventions taken from the data-access layer:
  - `get(query)` is Mongo's `findOne`: the matching document with the least id
    (ids are handed out in increasing order, so this is insertion order), or null;
  - `update(query, patch)` is `findOneAndUpdate` with `new: true`: the updated
    document, or null when nothing matches;
  - `delete(query)` returns the removed document, or an empty object when
    nothing matches (dal/loanSection.js:65-70), never an error.
 */
module Store {
  import opened Records

  /** Every key of `m` was handed out before `n`. */
  ghost predicate Bounded<V>(m: map<Id, V>, n: Id)
  {
    forall k :: k in m ==> k < n
  }

  /**
    The least key in [lo, hi) whose value satisfies `p`: the document `findOne`
    returns for the query `p`.
   */
  function FirstKey<V>(m: map<Id, V>, p: V -> bool, lo: nat, hi: nat): (r: Option<Id>)
    decreases hi - lo
    ensures r.Some? ==> lo <= r.value < hi && r.value in m && p(m[r.value])
    ensures r.Some? ==> forall k :: lo <= k < r.value && k in m ==> !p(m[k])
    ensures r.None? ==> forall k :: lo <= k < hi && k in m ==> !p(m[k])
  {
    if lo >= hi then None
    else if lo in m && p(m[lo]) then Some(lo)
    else FirstKey(m, p, lo + 1, hi)
  }

  /** The query `{ entity_ref: l }` over tasks. */
  function TaskOf(l: Id): Task -> bool { (t: Task) => t.entityRef == l }

  datatype DB = DB(
    forms: map<Id, Form>,
    questions: map<Id, Question>,
    clients: map<Id, Client>,
    screenings: map<Id, Screening>,
    accounts: map<Id, Account>,
    loans: map<Id, Loan>,
    answers: map<Id, Answer>,
    tasks: map<Id, Task>,
    notifications: map<Id, Notification>,
    next: Id)
  {
    /** No key of any collection is at or above the next free id. */
    ghost predicate Valid()
    {
      && Bounded(forms, next) && Bounded(questions, next) && Bounded(clients, next)
      && Bounded(screenings, next) && Bounded(accounts, next) && Bounded(loans, next)
      && Bounded(answers, next) && Bounded(tasks, next) && Bounded(notifications, next)
    }

    /** `findOne` over a collection: only keys below `next` can match. */
    function Find<V>(m: map<Id, V>, p: V -> bool): (r: Option<Id>)
      requires Bounded(m, next)
      ensures r.Some? ==> r.value in m && p(m[r.value])
      ensures r.Some? ==> forall k :: k < r.value && k in m ==> !p(m[k])
      ensures r.None? ==> forall k :: k in m ==> !p(m[k])
    {
      FirstKey(m, p, 0, next)
    }

    // ---- creates: the new document gets the next free id ----

    function AddForm(f: Form): (r: (DB, Id))
      ensures Valid() ==> r.0.Valid() && r.1 !in forms
      ensures r.1 == next && r.0.next == next + 1 && r.0.forms == forms[next := f]
      ensures r.0 == this.(forms := r.0.forms, next := r.0.next)
    {
      (this.(forms := forms[next := f], next := next + 1), next)
    }

    function AddAnswer(a: Answer): (r: (DB, Id))
      ensures Valid() ==> r.0.Valid() && r.1 !in answers
      ensures r.1 == next && r.0.next == next + 1 && r.0.answers == answers[next := a]
      ensures r.0 == this.(answers := r.0.answers, next := r.0.next)
    {
      (this.(answers := answers[next := a], next := next + 1), next)
    }

    function AddLoan(l: Loan): (r: (DB, Id))
      ensures Valid() ==> r.0.Valid() && r.1 !in loans
      ensures r.1 == next && r.0.next == next + 1 && r.0.loans == loans[next := l]
      ensures r.0 == this.(loans := r.0.loans, next := r.0.next)
    {
      (this.(loans := loans[next := l], next := next + 1), next)
    }

    function AddTask(t: Task): (r: (DB, Id))
      ensures Valid() ==> r.0.Valid() && r.1 !in tasks
      ensures r.1 == next && r.0.next == next + 1 && r.0.tasks == tasks[next := t]
      ensures r.0 == this.(tasks := r.0.tasks, next := r.0.next)
    {
      (this.(tasks := tasks[next := t], next := next + 1), next)
    }

    function AddNotification(n: Notification): (r: (DB, Id))
      ensures Valid() ==> r.0.Valid() && r.1 !in notifications
      ensures r.1 == next && r.0.next == next + 1 && r.0.notifications == notifications[next := n]
      ensures r.0 == this.(notifications := r.0.notifications, next := r.0.next)
    {
      (this.(notifications := notifications[next := n], next := next + 1), next)
    }

    // ---- updates: findOneAndUpdate by id, or by entity reference ----

    /** ClientDal.update({ _id: c }, { status: s }). */
    function SetClientStatus(c: Id, s: string): (r: (DB, Option<Client>))
      ensures Valid() ==> r.0.Valid()
      ensures c in clients ==> r.1 == Some(clients[c].(status := s)) && r.0 == this.(clients := clients[c := clients[c].(status := s)])
      ensures c !in clients ==> r == (this, None)
    {
      if c in clients then
        var updated := clients[c].(status := s);
        (this.(clients := clients[c := updated]), Some(updated))
      else (this, None)
    }

    /** TaskDal.update({ entity_ref: l }, { status: 'completed' }): the first task of entity `l`. */
    function CompleteTaskOf(l: Id): (r: (DB, Option<(Id, Task)>))
      requires Valid()
      ensures r.0.Valid()
      ensures r.1.None? <==> forall k :: k in tasks ==> tasks[k].entityRef != l
      ensures r.1.None? ==> r.0 == this
      ensures r.1.Some? ==> var (k, t) := r.1.value;
        k in tasks && tasks[k].entityRef == l && t == tasks[k].(status := "completed")
        && (forall j :: j < k && j in tasks ==> tasks[j].entityRef != l)
        && r.0 == this.(tasks := tasks[k := t])
    {
      match Find(tasks, TaskOf(l))
      case None => (this, None)
      case Some(k) =>
        var t := tasks[k].(status := "completed");
        (this.(tasks := tasks[k := t]), Some((k, t)))
    }

    /** AnswerDal.update({ _id: ref }, e): the updated answer's id, or null. */
    function UpdateAnswer(ref: Option<Id>, e: AnswerEdit): (r: (DB, Option<Id>))
      ensures Valid() ==> r.0.Valid()
      ensures r.0 == this.(answers := r.0.answers) && r.0.answers.Keys == answers.Keys
      ensures r.1.Some? <==> ref.Some? && ref.value in answers
      ensures r.1.Some? ==> r.1 == ref && r.0.answers == answers[ref.value := ApplyEdit(answers[ref.value], e)]
      ensures r.1.None? ==> r.0 == this
    {
      if ref.Some? && ref.value in answers then
        (this.(answers := answers[ref.value := ApplyEdit(answers[ref.value], e)]), ref)
      else (this, None)
    }

    /** LoanDal.update({ _id: id }, body) once the answers of the body are resolved. */
    function UpdateLoan(id: Id, status: string, ans: Option<seq<Option<Id>>>, b: LoanBody): (r: (DB, Option<Loan>))
      ensures Valid() ==> r.0.Valid()
      ensures id in loans ==> r.1 == Some(ApplyLoanBody(loans[id], status, ans, b)) && r.0 == this.(loans := loans[id := r.1.value])
      ensures id !in loans ==> r == (this, None)
    {
      if id in loans then
        var l := ApplyLoanBody(loans[id], status, ans, b);
        (this.(loans := loans[id := l]), Some(l))
      else (this, None)
    }

    /** FormDal.update({ _id: id }, body). */
    function UpdateForm(id: Id, b: FormBody): (r: (DB, Option<Form>))
      ensures Valid() ==> r.0.Valid()
      ensures id in forms ==> r.1 == Some(ApplyFormBody(forms[id], b)) && r.0 == this.(forms := forms[id := r.1.value])
      ensures id !in forms ==> r == (this, None)
    {
      if id in forms then
        var f := ApplyFormBody(forms[id], b);
        (this.(forms := forms[id := f]), Some(f))
      else (this, None)
    }

    // ---- deletes: the removed document, or None for the empty object ----

    function DeleteLoan(id: Id): (r: (DB, Option<Loan>))
      ensures Valid() ==> r.0.Valid()
      ensures r.0 == this.(loans := loans - {id})
      ensures r.1 == Lookup(loans, id)
    {
      (this.(loans := loans - {id}), Lookup(loans, id))
    }

    function DeleteAnswer(id: Id): (r: (DB, Option<Answer>))
      ensures Valid() ==> r.0.Valid()
      ensures r.0 == this.(answers := answers - {id})
      ensures r.1 == Lookup(answers, id)
    {
      (this.(answers := answers - {id}), Lookup(answers, id))
    }
  }

  /**
    The mutable store. Each method is one data-access call and is proved equal
    to the `DB` function of the same name on the snapshot `Db()`.
   */
  class Store {
    var forms: map<Id, Form>
    var questions: map<Id, Question>
    var clients: map<Id, Client>
    var screenings: map<Id, Screening>
    var accounts: map<Id, Account>
    var loans: map<Id, Loan>
    var answers: map<Id, Answer>
    var tasks: map<Id, Task>
    var notifications: map<Id, Notification>
    var next: Id

    function Db(): DB
      reads this
    {
      DB(forms, questions, clients, screenings, accounts, loans, answers, tasks, notifications, next)
    }

    ghost predicate Valid()
      reads this
    {
      Db().Valid()
    }

    /** Loads the store with the given collections. */
    constructor (d: DB)
      requires d.Valid()
      ensures Valid() && Db() == d
    {
      forms, questions, clients, screenings, accounts := d.forms, d.questions, d.clients, d.screenings, d.accounts;
      loans, answers, tasks, notifications, next := d.loans, d.answers, d.tasks, d.notifications, d.next;
    }

    method CreateForm(f: Form) returns (id: Id)
      requires Valid()
      modifies this
      ensures Valid() && (Db(), id) == old(Db()).AddForm(f)
    {
      id := next;
      forms := forms[id := f];
      next := next + 1;
    }

    method CreateAnswer(a: Answer) returns (id: Id)
      requires Valid()
      modifies this
      ensures Valid() && (Db(), id) == old(Db()).AddAnswer(a)
    {
      id := next;
      answers := answers[id := a];
      next := next + 1;
    }

    method CreateLoan(l: Loan) returns (id: Id)
      requires Valid()
      modifies this
      ensures Valid() && (Db(), id) == old(Db()).AddLoan(l)
    {
      id := next;
      loans := loans[id := l];
      next := next + 1;
    }

    method CreateTask(t: Task) returns (id: Id)
      requires Valid()
      modifies this
      ensures Valid() && (Db(), id) == old(Db()).AddTask(t)
    {
      id := next;
      tasks := tasks[id := t];
      next := next + 1;
    }

    method CreateNotification(n: Notification) returns (id: Id)
      requires Valid()
      modifies this
      ensures Valid() && (Db(), id) == old(Db()).AddNotification(n)
    {
      id := next;
      notifications := notifications[id := n];
      next := next + 1;
    }

    method UpdateClientStatus(c: Id, s: string) returns (r: Option<Client>)
      requires Valid()
      modifies this
      ensures Valid() && (Db(), r) == old(Db()).SetClientStatus(c, s)
    {
      if c in clients {
        var updated := clients[c].(status := s);
        clients := clients[c := updated];
        r := Some(updated);
      } else {
        r := None;
      }
    }

    method CompleteTaskOf(l: Id) returns (r: Option<(Id, Task)>)
      requires Valid()
      modifies this
      ensures Valid() && (Db(), r) == old(Db()).CompleteTaskOf(l)
    {
      var k := Db().Find(tasks, TaskOf(l));
      if k.Some? {
        var t := tasks[k.value].(status := "completed");
        tasks := tasks[k.value := t];
        r := Some((k.value, t));
      } else {
        r := None;
      }
    }

    method UpdateAnswer(ref: Option<Id>, e: AnswerEdit) returns (r: Option<Id>)
      requires Valid()
      modifies this
      ensures Valid() && (Db(), r) == old(Db()).UpdateAnswer(ref, e)
    {
      if ref.Some? && ref.value in answers {
        answers := answers[ref.value := ApplyEdit(answers[ref.value], e)];
        r := ref;
      } else {
        r := None;
      }
    }

    method UpdateLoan(id: Id, status: string, ans: Option<seq<Option<Id>>>, b: LoanBody) returns (r: Option<Loan>)
      requires Valid()
      modifies this
      ensures Valid() && (Db(), r) == old(Db()).UpdateLoan(id, status, ans, b)
    {
      if id in loans {
        var l := ApplyLoanBody(loans[id], status, ans, b);
        loans := loans[id := l];
        r := Some(l);
      } else {
        r := None;
      }
    }

    method UpdateForm(id: Id, b: FormBody) returns (r: Option<Form>)
      requires Valid()
      modifies this
      ensures Valid() && (Db(), r) == old(Db()).UpdateForm(id, b)
    {
      if id in forms {
        var f := ApplyFormBody(forms[id], b);
        forms := forms[id := f];
        r := Some(f);
      } else {
        r := None;
      }
    }

    method DeleteLoan(id: Id) returns (r: Option<Loan>)
      requires Valid()
      modifies this
      ensures Valid() && (Db(), r) == old(Db()).DeleteLoan(id)
    {
      r := Lookup(loans, id);
      loans := loans - {id};
    }

    method DeleteAnswer(id: Id) returns (r: Option<Answer>)
      requires Valid()
      modifies this
      ensures Valid() && (Db(), r) == old(Db()).DeleteAnswer(id)
    {
      r := Lookup(answers, id);
      answers := answers - {id};
    }
  }
}
