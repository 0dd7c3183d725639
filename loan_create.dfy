/**
  Loan instantiation (`create` in controllers/loan.js): the eligibility gate,
  the one-level-deep copy of the 'Loan Application' form's questions into
  fresh answers, and the loan record itself.

  `CreateSpec` is the whole operation as a function of the store snapshot;
  `Create` is the controller's loop over the store, proved equal to it. The
  lemmas state what the source promises about the outcome.
 */
module LoanCreate {
  import opened Records
  import opened Store

  const LoanFormType := "Loan Application"
  const NoFormMessage := "Loan Form Is Needed To Be Created In Order To Continue!"
  const NoClientMessage := "Client Does Not Exist!!"
  const NotApprovedMessage := "Screening Application Has Not Been Approved Yet"
  const HasLoanMessage := "Client Has A Loan Application Form Already!!"
  const EmptyClientErrors := ErrorsJson([("client", "Loan Client is Empty")])

  // ---- the queries the gate runs ----

  function IsLoanForm(f: Form): bool { f.ftype == LoanFormType }

  function ScreeningOf(c: Id): Screening -> bool { (s: Screening) => s.client == c }

  function LoanOf(c: Id): Loan -> bool { (l: Loan) => l.client == c }

  function AccountOf(u: Id): Account -> bool { (a: Account) => a.user == u }

  // ---- the populated template ----

  /** A template question as the controller sees it: its sub-questions loaded, one level deep. */
  datatype Template = Template(q: Question, subs: seq<Question>)

  /** Mongoose `populate` of a reference array: dangling references are dropped. */
  function Resolve(qs: map<Id, Question>, ids: seq<Id>): (r: seq<Question>)
    ensures |r| <= |ids|
    ensures forall q :: q in r ==> exists k :: k in ids && k in qs && qs[k] == q
    ensures (forall k :: k in ids ==> k in qs) ==> |r| == |ids| && forall j :: 0 <= j < |ids| ==> r[j] == qs[ids[j]]
    ensures |ids| == 1 ==> r == if ids[0] in qs then [qs[ids[0]]] else []
  {
    if ids == [] then []
    else
      var rest := Resolve(qs, ids[1..]);
      assert forall k :: k in ids[1..] ==> k in ids;
      if ids[0] in qs then [qs[ids[0]]] + rest else rest
  }

  /**
    Population works reference by reference: resolving a concatenation is
    resolving each part, so with the single-reference case of `Resolve` the
    result is the referenced questions in order with the dangling ones dropped.
   */
  lemma {:induction false} ResolveAppend(qs: map<Id, Question>, a: seq<Id>, b: seq<Id>)
    ensures Resolve(qs, a + b) == Resolve(qs, a) + Resolve(qs, b)
  {
    if a == [] {
      assert a + b == b;
    } else {
      assert (a + b)[0] == a[0];
      assert (a + b)[1..] == a[1..] + b;
      ResolveAppend(qs, a[1..], b);
    }
  }

  /** The form's `questions` with every question's `sub_questions` loaded. */
  function Populate(qs: map<Id, Question>, ids: seq<Id>): seq<Template>
  {
    var top := Resolve(qs, ids);
    seq(|top|, i requires 0 <= i < |top| => Template(top[i], Resolve(qs, top[i].subQuestions)))
  }

  /** The answer created from a question whose sub-question list is `subs`. */
  function AnswerOf(q: Question, subs: seq<Id>): Answer
  {
    Answer(q.title, q.remark, q.qtype, q.answer, subs, [], None, None, None)
  }

  /** Answers created for one sub-question: its own `sub_questions` are copied as they are. */
  function SubAnswerOf(q: Question): Answer
  {
    AnswerOf(q, q.subQuestions)
  }

  /** The number of answers cloning `ts` creates: one per question and one per sub-question. */
  function Total(ts: seq<Template>): nat
  {
    if ts == [] then 0 else Total(ts[..|ts| - 1]) + 1 + |ts[|ts| - 1].subs|
  }

  // ---- the clone, as functions of the store ----

  /** The inner loop: `AnswerDal.create(sub)` for each sub-question, in order. */
  function CloneSubs(db: DB, subs: seq<Question>): (DB, seq<Id>)
  {
    if subs == [] then (db, [])
    else
      var prev := CloneSubs(db, subs[..|subs| - 1]);
      var add := prev.0.AddAnswer(SubAnswerOf(subs[|subs| - 1]));
      (add.0, prev.1 + [add.1])
  }

  /** One outer iteration: the sub-answers, then the parent pointing at exactly them. */
  function CloneOne(db: DB, t: Template): (DB, Id)
  {
    var subs := CloneSubs(db, t.subs);
    subs.0.AddAnswer(AnswerOf(t.q, subs.1))
  }

  /** The outer loop: the parent answers' ids, in template order. */
  function CloneAll(db: DB, ts: seq<Template>): (DB, seq<Id>)
  {
    if ts == [] then (db, [])
    else
      var prev := CloneAll(db, ts[..|ts| - 1]);
      var one := CloneOne(prev.0, ts[|ts| - 1]);
      (one.0, prev.1 + [one.1])
  }

  /**
    `id` holds the clone of template question `t`: its fields, and a
    `sub_questions` list naming, in order, the answers cloned from `t`'s
    sub-questions, which were created just before it.
   */
  ghost predicate IsCloneOf(ans: map<Id, Answer>, id: Id, t: Template)
  {
    && id in ans
    && |ans[id].subQuestions| == |t.subs| <= id
    && ans[id] == AnswerOf(t.q, ans[id].subQuestions)
    && forall j :: 0 <= j < |t.subs| ==>
         var s := ans[id].subQuestions[j];
         s == id - |t.subs| + j && s in ans && ans[s] == SubAnswerOf(t.subs[j])
  }

  /** The clone of a sub-question list fills exactly the next |subs| ids, in order. */
  lemma {:induction false} CloneSubsFacts(db: DB, subs: seq<Question>)
    requires db.Valid()
    ensures var (d, ids) := CloneSubs(db, subs);
      && d.Valid() && d == db.(answers := d.answers, next := d.next)
      && d.next == db.next + |subs| && |ids| == |subs|
      && (forall k :: k in d.answers <==> k in db.answers || db.next <= k < d.next)
      && (forall k :: k in db.answers ==> d.answers[k] == db.answers[k])
      && (forall j :: 0 <= j < |subs| ==> ids[j] == db.next + j && d.answers[ids[j]] == SubAnswerOf(subs[j]))
  {
    if subs != [] {
      var pre := subs[..|subs| - 1];
      CloneSubsFacts(db, pre);
      var (d, ids) := CloneSubs(db, pre);
      assert forall j :: 0 <= j < |pre| ==> pre[j] == subs[j];
    }
  }

  lemma CloneOfGrows(a: map<Id, Answer>, b: map<Id, Answer>, id: Id, t: Template)
    requires IsCloneOf(a, id, t)
    requires forall k :: k in a ==> k in b && b[k] == a[k]
    ensures IsCloneOf(b, id, t)
  {
    forall j | 0 <= j < |t.subs|
      ensures var s := b[id].subQuestions[j]; s == id - |t.subs| + j && s in b && b[s] == SubAnswerOf(t.subs[j])
    {
      var s := a[id].subQuestions[j];
      assert s in a;
    }
  }

  /** One outer iteration creates 1 + |t.subs| answers and leaves the parent a clone of `t`. */
  lemma CloneOneFacts(db: DB, t: Template)
    requires db.Valid()
    ensures var (d, id) := CloneOne(db, t);
      && d.Valid() && d == db.(answers := d.answers, next := d.next)
      && d.next == db.next + |t.subs| + 1 && id == db.next + |t.subs|
      && (forall k :: k in d.answers <==> k in db.answers || db.next <= k < d.next)
      && (forall k :: k in db.answers ==> d.answers[k] == db.answers[k])
      && IsCloneOf(d.answers, id, t)
  {
    CloneSubsFacts(db, t.subs);
    var (d, subIds) := CloneSubs(db, t.subs);
    var (d', id) := d.AddAnswer(AnswerOf(t.q, subIds));
    assert d'.answers[id].subQuestions == subIds;
    forall j | 0 <= j < |t.subs|
      ensures var s := d'.answers[id].subQuestions[j]; s == id - |t.subs| + j && s in d'.answers && d'.answers[s] == SubAnswerOf(t.subs[j])
    {
      assert subIds[j] in d.answers;
    }
  }

  /**
    Cloning the template creates one answer per question plus one per
    sub-question, all under fresh ids, touches no other collection and no
    existing answer, and returns the parents in template order, each a clone
    of its template question whose sub-answers come right before it.
   */
  lemma {:induction false} CloneAllFacts(db: DB, ts: seq<Template>)
    requires db.Valid()
    ensures var r := CloneAll(db, ts);
      && r.0.Valid() && r.0 == db.(answers := r.0.answers, next := r.0.next)
      && r.0.next == db.next + Total(ts) && |r.1| == |ts|
      && (forall k :: k in r.0.answers <==> k in db.answers || db.next <= k < r.0.next)
      && (forall k :: k in db.answers ==> r.0.answers[k] == db.answers[k])
      && (forall i :: 0 <= i < |ts| ==> r.1[i] == db.next + Total(ts[..i]) + |ts[i].subs| && IsCloneOf(r.0.answers, r.1[i], ts[i]))
  {
    CloneAllFrame(db, ts);
    CloneAllClones(db, ts);
  }

  /** The part of `CloneAllFacts` about the store as a whole. */
  lemma {:induction false} CloneAllFrame(db: DB, ts: seq<Template>)
    requires db.Valid()
    ensures var r := CloneAll(db, ts);
      && r.0.Valid() && r.0 == db.(answers := r.0.answers, next := r.0.next)
      && r.0.next == db.next + Total(ts) && |r.1| == |ts|
      && (forall k :: k in r.0.answers <==> k in db.answers || db.next <= k < r.0.next)
      && (forall k :: k in db.answers ==> r.0.answers[k] == db.answers[k])
  {
    if ts != [] {
      var pre := ts[..|ts| - 1];
      CloneAllFrame(db, pre);
      CloneOneFacts(CloneAll(db, pre).0, ts[|ts| - 1]);
    }
  }

  /** The part of `CloneAllFacts` about each parent. */
  lemma CloneAllClones(db: DB, ts: seq<Template>)
    requires db.Valid()
    ensures var r := CloneAll(db, ts);
      && |r.1| == |ts|
      && (forall i :: 0 <= i < |ts| ==> r.1[i] == db.next + Total(ts[..i]) + |ts[i].subs| && IsCloneOf(r.0.answers, r.1[i], ts[i]))
  {
    CloneAllFrame(db, ts);
    forall i | 0 <= i < |ts|
      ensures CloneAll(db, ts).1[i] == db.next + Total(ts[..i]) + |ts[i].subs| && IsCloneOf(CloneAll(db, ts).0.answers, CloneAll(db, ts).1[i], ts[i])
    {
      CloneAllAt(db, ts, i);
    }
  }

  /** Parent `i` of the clone: its id, and its clone of `ts[i]`. */
  lemma {:induction false} CloneAllAt(db: DB, ts: seq<Template>, i: nat)
    requires db.Valid() && i < |ts|
    ensures var r := CloneAll(db, ts);
      |r.1| == |ts| && r.1[i] == db.next + Total(ts[..i]) + |ts[i].subs| && IsCloneOf(r.0.answers, r.1[i], ts[i])
    decreases |ts|, 1
  {
    if i < |ts| - 1 {
      CloneAllAtEarlier(db, ts, i);
    } else {
      var pre := ts[..i];
      CloneAllFrame(db, pre);
      var prev := CloneAll(db, pre);
      CloneOneFacts(prev.0, ts[i]);
      assert CloneAll(db, ts).1 == prev.1 + [CloneOne(prev.0, ts[i]).1];
    }
  }

  /** A parent before the last one stays a clone when the last question is cloned. */
  lemma {:induction false} CloneAllAtEarlier(db: DB, ts: seq<Template>, i: nat)
    requires db.Valid() && i < |ts| - 1
    ensures var r := CloneAll(db, ts);
      |r.1| == |ts| && r.1[i] == db.next + Total(ts[..i]) + |ts[i].subs| && IsCloneOf(r.0.answers, r.1[i], ts[i])
    decreases |ts|, 0
  {
    var n := |ts| - 1;
    var pre := ts[..n];
    CloneAllFrame(db, pre);
    var prev := CloneAll(db, pre);
    CloneOneFacts(prev.0, ts[n]);
    var one := CloneOne(prev.0, ts[n]);
    assert CloneAll(db, ts) == (one.0, prev.1 + [one.1]);
    CloneAllAt(db, pre, i);
    assert ts[..i] == pre[..i];
    CloneOfGrows(prev.0.answers, one.0.answers, prev.1[i], ts[i]);
  }

  /** The parents' ids strictly increase, so `answers` lists the template's questions in order. */
  lemma {:induction false} TotalGrows(ts: seq<Template>, i: nat, j: nat)
    requires i <= j <= |ts|
    ensures Total(ts[..i]) <= Total(ts[..j])
    ensures i < j ==> Total(ts[..i]) + |ts[i].subs| + 1 <= Total(ts[..j])
    decreases j
  {
    if i < j {
      TotalGrows(ts, i, j - 1);
      assert ts[..j][..j - 1] == ts[..j - 1];
    }
  }

  /** Wraps the created parent ids as the loan's `answers` references. */
  function Refs(ids: seq<Id>): (r: seq<Option<Id>>)
    ensures |r| == |ids| && forall i :: 0 <= i < |ids| ==> r[i] == Some(ids[i])
  {
    seq(|ids|, i requires 0 <= i < |ids| => Some(ids[i]))
  }

  /** The loan record `create` writes for client `c` with parent answers `ids`. */
  function NewLoan(c: Client, cid: Id, ids: seq<Id>, createdBy: Id): Loan
  {
    Loan("Loan", "Loan Process For " + c.firstName + " " + c.lastName, "Loan Form", Refs(ids), createdBy, cid, "new")
  }

  /** `created_by`: the account of the acting user when one exists, otherwise the user's own record. */
  function CreatorOf(db: DB, user: Id): Id
    requires db.Valid()
  {
    var acc := db.Find(db.accounts, AccountOf(user));
    if acc.Some? then acc.value else user
  }

  /** `POST /loans/create`, as a function of the store: the new store and the response. */
  function CreateSpec(db: DB, client: Option<Id>, user: Id): (DB, Result<(Id, Loan)>)
    requires db.Valid()
  {
    if client.None? then (db, Err(LoanCreationError, EmptyClientErrors))
    else
      var cid := client.value;
      var form := db.Find(db.forms, IsLoanForm);
      if form.None? then (db, Err(LoanCreationError, NoFormMessage))
      else if cid !in db.clients then (db, Err(LoanCreationError, NoClientMessage))
      else
        var scr := db.Find(db.screenings, ScreeningOf(cid));
        if scr.None? then (db, Err(LoanCreationError, NullRead("status")))
        else if db.screenings[scr.value].status != "approved" then (db, Err(LoanCreationError, NotApprovedMessage))
        else if db.Find(db.loans, LoanOf(cid)).Some? then (db, Err(LoanCreationError, HasLoanMessage))
        else Created(db, cid, user)
  }

  /** The two nested loops of `create`: one answer per sub-question, then one per question. */
  method CloneTemplate(st: Store, ts: seq<Template>) returns (answers: seq<Id>)
    requires st.Valid()
    modifies st
    ensures st.Valid() && (st.Db(), answers) == CloneAll(old(st.Db()), ts)
  {
    ghost var db := st.Db();
    answers := [];
    var i := 0;
    while i < |ts|
      invariant 0 <= i <= |ts| && st.Valid()
      invariant (st.Db(), answers) == CloneAll(db, ts[..i])
    {
      var t := ts[i];
      ghost var di := st.Db();
      var subs: seq<Id> := [];
      var j := 0;
      while j < |t.subs|
        invariant 0 <= j <= |t.subs| && st.Valid()
        invariant (st.Db(), subs) == CloneSubs(di, t.subs[..j])
      {
        var id := st.CreateAnswer(SubAnswerOf(t.subs[j]));
        subs := subs + [id];
        j := j + 1;
        assert t.subs[..j][..j - 1] == t.subs[..j - 1];
      }
      assert t.subs[..j] == t.subs;
      var id := st.CreateAnswer(AnswerOf(t.q, subs));
      answers := answers + [id];
      i := i + 1;
      assert ts[..i][..i - 1] == ts[..i - 1];
    }
    assert ts[..i] == ts;
  }

  /** The controller: the gate, the clone of the template, the loan, the client status. */
  method Create(st: Store, client: Option<Id>, user: Id) returns (r: Result<(Id, Loan)>)
    requires st.Valid()
    modifies st
    ensures st.Valid() && (st.Db(), r) == CreateSpec(old(st.Db()), client, user)
  {
    ghost var db := st.Db();
    if client.None? {
      return Err(LoanCreationError, EmptyClientErrors);
    }
    var cid := client.value;
    var form := st.Db().Find(st.forms, IsLoanForm);
    if form.None? {
      return Err(LoanCreationError, NoFormMessage);
    }
    if cid !in st.clients {
      return Err(LoanCreationError, NoClientMessage);
    }
    var c := st.clients[cid];
    var scr := st.Db().Find(st.screenings, ScreeningOf(cid));
    if scr.None? {
      return Err(LoanCreationError, NullRead("status"));
    }
    if st.screenings[scr.value].status != "approved" {
      return Err(LoanCreationError, NotApprovedMessage);
    }
    var existing := st.Db().Find(st.loans, LoanOf(cid));
    if existing.Some? {
      return Err(LoanCreationError, HasLoanMessage);
    }

    var ts := Populate(st.questions, st.forms[form.value].questions);
    var answers := CloneTemplate(st, ts);

    CloneAllFacts(db, ts);
    var createdBy := CreatorOf(st.Db(), user);
    var loan := NewLoan(c, cid, answers, createdBy);
    var lid := st.CreateLoan(loan);
    var _ := st.UpdateClientStatus(cid, "loan_application_new");
    r := Ok((lid, loan));
  }

  // ---- what the source promises about create ----

  /**
    The gate: `create` fails, with nothing written, on the first of these
    that holds — no client in the body; no form of type 'Loan Application';
    no such client; no screening for the client (a null dereference); a
    screening not 'approved'; a loan already on file for the client.
   */
  lemma CreateGate(db: DB, client: Option<Id>, user: Id)
    requires db.Valid()
    ensures var (d, r) := CreateSpec(db, client, user);
      && (client.None? ==> d == db && r == Err(LoanCreationError, EmptyClientErrors))
      && (client.Some? && (forall k :: k in db.forms ==> db.forms[k].ftype != LoanFormType) ==>
            d == db && r == Err(LoanCreationError, NoFormMessage))
      && (client.Some? && (exists k :: k in db.forms && db.forms[k].ftype == LoanFormType) && client.value !in db.clients ==>
            d == db && r == Err(LoanCreationError, NoClientMessage))
      && (client.Some? && (exists k :: k in db.forms && db.forms[k].ftype == LoanFormType) && client.value in db.clients
          && (forall k :: k in db.screenings ==> db.screenings[k].client != client.value) ==>
            d == db && r == Err(LoanCreationError, NullRead("status")))
      && (client.Some? && (exists k :: k in db.forms && db.forms[k].ftype == LoanFormType) && client.value in db.clients ==>
          var s := db.Find(db.screenings, ScreeningOf(client.value));
          s.Some? && db.screenings[s.value].status != "approved" ==>
            d == db && r == Err(LoanCreationError, NotApprovedMessage))
  {
    if client.Some? {
      var cid := client.value;
      if exists k :: k in db.forms && db.forms[k].ftype == LoanFormType {
        var k :| k in db.forms && db.forms[k].ftype == LoanFormType;
        assert IsLoanForm(db.forms[k]);
      }
      if exists k :: k in db.screenings && db.screenings[k].client == cid {
        var k :| k in db.screenings && db.screenings[k].client == cid;
        assert ScreeningOf(cid)(db.screenings[k]);
      }
    }
  }

  /**
    A client that already has any loan is refused, with nothing written; once
    the earlier gates pass (a loan form, the client, an approved first
    screening) the refusal is the fifth gate's `HasLoanMessage`.
   */
  lemma CreateRefusesSecondLoan(db: DB, cid: Id, user: Id, l: Id)
    requires db.Valid()
    requires l in db.loans && db.loans[l].client == cid
    ensures var (d, r) := CreateSpec(db, Some(cid), user);
      r.Err? && r.kind == LoanCreationError && d == db
    ensures (&& db.Find(db.forms, IsLoanForm).Some? && cid in db.clients
             && var s := db.Find(db.screenings, ScreeningOf(cid));
             s.Some? && db.screenings[s.value].status == "approved") ==>
      CreateSpec(db, Some(cid), user) == (db, Err(LoanCreationError, HasLoanMessage))
  {
    assert LoanOf(cid)(db.loans[l]);
  }

  /**
    `created_by`: with no account for the user it is the user's own id;
    otherwise it is the first account whose `user` is the acting user.
   */
  lemma CreatorOfCases(db: DB, user: Id)
    requires db.Valid()
    ensures (forall a :: a in db.accounts ==> db.accounts[a].user != user) ==> CreatorOf(db, user) == user
    ensures (exists a :: a in db.accounts && db.accounts[a].user == user) ==>
      && CreatorOf(db, user) in db.accounts && db.accounts[CreatorOf(db, user)].user == user
      && forall a :: a in db.accounts && a < CreatorOf(db, user) ==> db.accounts[a].user != user
  {
    if exists a :: a in db.accounts && db.accounts[a].user == user {
      var a :| a in db.accounts && db.accounts[a].user == user;
      assert AccountOf(user)(db.accounts[a]);
    }
  }

  /** Everything the gate needs to let a request for client `cid` through. */
  ghost predicate Eligible(db: DB, cid: Id)
    requires db.Valid()
  {
    && db.Find(db.forms, IsLoanForm).Some?
    && cid in db.clients
    && (var s := db.Find(db.screenings, ScreeningOf(cid));
        s.Some? && db.screenings[s.value].status == "approved")
    && forall k :: k in db.loans ==> db.loans[k].client != cid
  }

  /**
    A successful create: a fresh loan titled 'Loan Form' for the client,
    status 'new', type 'Loan', described as 'Loan Process For' and the
    client's name, `created_by` the acting user's account (or, with no
    account, the user), its
    answers the cloned parents in template order, each a fresh block of ids
    above the previous one; exactly 1 + |subs| answers per template question
    are added; the client's status becomes
    'loan_application_new'; nothing else changes.
   */
  lemma CreateSuccess(db: DB, cid: Id, user: Id)
    requires db.Valid() && Eligible(db, cid)
    ensures var res := CreateSpec(db, Some(cid), user);
      var d, r := res.0, res.1;
      var form := db.Find(db.forms, IsLoanForm).value;
      var ts := Populate(db.questions, db.forms[form].questions);
      && r.Ok? && d.Valid()
      && var lid, loan := r.value.0, r.value.1;
      && lid !in db.loans && d.loans == db.loans[lid := loan]
      && loan.title == "Loan Form" && loan.client == cid && loan.status == "new" && loan.ltype == "Loan"
      && loan.description == "Loan Process For " + db.clients[cid].firstName + " " + db.clients[cid].lastName
      && loan.createdBy == CreatorOf(db, user)
      && ((forall a :: a in db.accounts ==> db.accounts[a].user != user) ==> loan.createdBy == user)
      && ((exists a :: a in db.accounts && db.accounts[a].user == user) ==>
            loan.createdBy in db.accounts && db.accounts[loan.createdBy].user == user)
      && |loan.answers| == |ts|
      && (forall i :: 0 <= i < |ts| ==> loan.answers[i].Some? && IsCloneOf(d.answers, loan.answers[i].value, ts[i]))
      && (forall i :: 0 <= i < |ts| ==> db.next <= loan.answers[i].value - |ts[i].subs|)
      && (forall i, j :: 0 <= i < j < |ts| ==> loan.answers[i].value < loan.answers[j].value - |ts[j].subs|)
      && d.next == db.next + Total(ts) + 1
      && (forall k :: k in d.answers <==> k in db.answers || db.next <= k < db.next + Total(ts))
      && (forall k :: k in db.answers ==> d.answers[k] == db.answers[k])
      && d.clients == db.clients[cid := db.clients[cid].(status := "loan_application_new")]
      && d.forms == db.forms && d.questions == db.questions && d.screenings == db.screenings
      && d.accounts == db.accounts && d.tasks == db.tasks && d.notifications == db.notifications
  {
    assert db.Find(db.loans, LoanOf(cid)).None?;
    CreatedFacts(db, cid, user);
  }

  /**
    Past the gate: clone the template, then add the loan, created by the
    user's account as found after the clone, then set the client's status.
   */
  function Created(db: DB, cid: Id, user: Id): (DB, Result<(Id, Loan)>)
    requires db.Valid() && db.Find(db.forms, IsLoanForm).Some? && cid in db.clients
  {
    var ts := Populate(db.questions, db.forms[db.Find(db.forms, IsLoanForm).value].questions);
    var (d1, ids) := CloneAll(db, ts);
    CloneAllFacts(db, ts);
    var loan := NewLoan(db.clients[cid], cid, ids, CreatorOf(d1, user));
    var (d2, lid) := d1.AddLoan(loan);
    var (d3, _) := d2.SetClientStatus(cid, "loan_application_new");
    (d3, Ok((lid, loan)))
  }

  /** What `Created` holds: the facts `CreateSuccess` states. */
  lemma CreatedFacts(db: DB, cid: Id, user: Id)
    requires db.Valid() && Eligible(db, cid)
    ensures var res := Created(db, cid, user);
      var d, r := res.0, res.1;
      var form := db.Find(db.forms, IsLoanForm).value;
      var ts := Populate(db.questions, db.forms[form].questions);
      && r.Ok? && d.Valid()
      && var lid, loan := r.value.0, r.value.1;
      && lid !in db.loans && d.loans == db.loans[lid := loan]
      && loan.title == "Loan Form" && loan.client == cid && loan.status == "new" && loan.ltype == "Loan"
      && loan.description == "Loan Process For " + db.clients[cid].firstName + " " + db.clients[cid].lastName
      && loan.createdBy == CreatorOf(db, user)
      && ((forall a :: a in db.accounts ==> db.accounts[a].user != user) ==> loan.createdBy == user)
      && ((exists a :: a in db.accounts && db.accounts[a].user == user) ==>
            loan.createdBy in db.accounts && db.accounts[loan.createdBy].user == user)
      && |loan.answers| == |ts|
      && (forall i :: 0 <= i < |ts| ==> loan.answers[i].Some? && IsCloneOf(d.answers, loan.answers[i].value, ts[i]))
      && (forall i :: 0 <= i < |ts| ==> db.next <= loan.answers[i].value - |ts[i].subs|)
      && (forall i, j :: 0 <= i < j < |ts| ==> loan.answers[i].value < loan.answers[j].value - |ts[j].subs|)
      && d.next == db.next + Total(ts) + 1
      && (forall k :: k in d.answers <==> k in db.answers || db.next <= k < db.next + Total(ts))
      && (forall k :: k in db.answers ==> d.answers[k] == db.answers[k])
      && d.clients == db.clients[cid := db.clients[cid].(status := "loan_application_new")]
      && d.forms == db.forms && d.questions == db.questions && d.screenings == db.screenings
      && d.accounts == db.accounts && d.tasks == db.tasks && d.notifications == db.notifications
  {
    var form := db.Find(db.forms, IsLoanForm).value;
    var ts := Populate(db.questions, db.forms[form].questions);
    CloneAllFacts(db, ts);
    var d1 := CloneAll(db, ts).0;
    assert d1.Find(d1.accounts, AccountOf(user)) == db.Find(db.accounts, AccountOf(user)) by {
      FindStable(db.accounts, AccountOf(user), db.next, d1.next);
    }
    CloneAllBlocks(db, ts);
    CreatorOfCases(db, user);
  }

  /**
    The clones of each template question take a block of fresh ids, the
    sub-answers' ids and then the parent's; later blocks lie above earlier ones.
   */
  lemma CloneAllBlocks(db: DB, ts: seq<Template>)
    requires db.Valid()
    ensures var (d, ids) := CloneAll(db, ts);
      && |ids| == |ts|
      && (forall i :: 0 <= i < |ts| ==> db.next <= ids[i] - |ts[i].subs|)
      && (forall i, j :: 0 <= i < j < |ts| ==> ids[i] < ids[j] - |ts[j].subs|)
  {
    CloneAllFacts(db, ts);
    var (d, ids) := CloneAll(db, ts);
    forall i, j | 0 <= i < j < |ts| ensures ids[i] < ids[j] - |ts[j].subs| {
      TotalGrows(ts, i, j);
    }
  }

  /** `findOne` does not depend on how far above the last key the bound lies. */
  lemma FindStable<V>(m: map<Id, V>, p: V -> bool, n: Id, n': Id)
    requires Bounded(m, n) && n <= n'
    ensures FirstKey(m, p, 0, n) == FirstKey(m, p, 0, n')
  {
    var a := FirstKey(m, p, 0, n);
    var b := FirstKey(m, p, 0, n');
    if a.Some? && b.Some? {
      assert !(b.value < a.value) && !(a.value < b.value);
    }
  }
}
