/**
  Loan update (`update` in controllers/loan.js): the status state machine
  with its two permission tiers, the per-target side effects on the client,
  the tasks and the notifications, and the nested answers patch.

  The store writes are not transactional: a dereference of a missing task or
  client part-way through throws after the earlier writes, and the model
  keeps those writes. `UpdateSpec` is the operation on a store snapshot,
  `Update` the controller's sequence of store calls, proved equal to it.
 */
module LoanUpdate {
  import opened Records
  import opened Store

  /** The values `checkBody('status').isIn([...])` accepts. */
  const Statuses: seq<string> := ["inprogress", "submitted", "accepted", "declined_final", "declined_under_review"]
  const EmptyStatusMessage := "Status should not be empty"
  const BadStatusMessage := "Correct Status is either inprogress, accepted, submitted, declined_final or declined_under_review"

  /**
    The validation error of the body's `status`, if any: `notEmpty`, then
    `isIn`; the chain stops at its first failure.
   */
  function StatusError(s: Option<string>): (r: Option<string>)
    ensures r.None? <==> s.Some? && s.value in Statuses
    ensures (s.None? || s.value == "") ==> r == Some(ErrorsJson([("status", EmptyStatusMessage)]))
    ensures s.Some? && s.value != "" && s.value !in Statuses ==> r == Some(ErrorsJson([("status", BadStatusMessage)]))
  {
    if s.None? || s.value == "" then Some(ErrorsJson([("status", EmptyStatusMessage)]))
    else if s.value !in Statuses then Some(ErrorsJson([("status", BadStatusMessage)]))
    else None
  }

  /** The targets that need the AUTHORIZE permission on top of UPDATE. */
  predicate NeedsAuthorize(s: string)
  {
    s == "accepted" || s == "declined_final" || s == "declined_under_review"
  }

  /** The client status each closing target writes. */
  function ClosingClientStatus(target: string): string
  {
    if target == "accepted" then "loan_application_accepted" else "loan_application_declined"
  }

  function ClosingMessage(target: string, c: Client): string
  {
    "Loan Application of " + c.firstName + " " + c.lastName
    + (if target == "accepted" then " has been accepted" else " has been declined in Final")
  }

  function ReviewTask(c: Client, loan: Id, user: Id, owner: Id): Task
  {
    Task("Review Loan Application of " + c.firstName + " " + c.lastName, "review", loan, "loan", user, Some(owner), "pending")
  }

  function ReviewMessage(c: Client): string
  {
    "Loan Application of " + c.firstName + " " + c.lastName + " has been declined For Further Review"
  }

  function ApproveTask(c: Client, loan: Id, user: Id): Task
  {
    Task("Approve Loan For of " + c.firstName + " " + c.lastName, "approve", loan, "loan", user, None, "pending")
  }

  // ---- the answers patch ----

  /** The loop over `body.answers`: each edit stripped and applied under its own id. */
  function PatchAnswersSpec(db: DB, edits: seq<AnswerEdit>): (DB, seq<Option<Id>>)
  {
    if edits == [] then (db, [])
    else
      var (d, rs) := PatchAnswersSpec(db, edits[..|edits| - 1]);
      var e := edits[|edits| - 1];
      var (d', r) := d.UpdateAnswer(e.id, Strip(e));
      (d', rs + [r])
  }

  /** The stripped edits of `edits` that name answer `k`, in order. */
  function EditsFor(edits: seq<AnswerEdit>, k: Id): (r: seq<AnswerEdit>)
    ensures |r| <= |edits|
  {
    if edits == [] then []
    else
      var e := edits[|edits| - 1];
      EditsFor(edits[..|edits| - 1], k) + (if e.id == Some(k) then [Strip(e)] else [])
  }

  /** Applies edits left to right. */
  function ApplyAll(a: Answer, es: seq<AnswerEdit>): Answer
  {
    if es == [] then a else ApplyEdit(ApplyAll(a, es[..|es| - 1]), es[|es| - 1])
  }

  /** Applying stripped edits never changes `_v`, `date_created` or `last_modified`. */
  lemma {:induction false} ApplyAllKeepsIdentity(a: Answer, edits: seq<AnswerEdit>, k: Id)
    ensures var b := ApplyAll(a, EditsFor(edits, k));
      b.v == a.v && b.dateCreated == a.dateCreated && b.lastModified == a.lastModified
  {
    if edits != [] {
      var pre := edits[..|edits| - 1];
      var e := edits[|edits| - 1];
      ApplyAllKeepsIdentity(a, pre, k);
      if e.id == Some(k) {
        var es := EditsFor(pre, k) + [Strip(e)];
        assert es[..|es| - 1] == EditsFor(pre, k);
        StripKeepsIdentity(ApplyAll(a, EditsFor(pre, k)), e);
      } else {
        assert EditsFor(edits, k) == EditsFor(pre, k);
      }
    }
  }

  /**
    The answers patch updates only existing answers, each under its own id:
    the result list has one entry per edit, the edit's id when that answer
    exists and null otherwise, and nothing but the content of existing
    answers changes.
   */
  lemma {:induction false} PatchAnswersResults(db: DB, edits: seq<AnswerEdit>)
    ensures var (d, rs) := PatchAnswersSpec(db, edits);
      && d == db.(answers := d.answers) && d.answers.Keys == db.answers.Keys
      && |rs| == |edits|
      && (forall i :: 0 <= i < |edits| ==>
            rs[i] == if edits[i].id.Some? && edits[i].id.value in db.answers then edits[i].id else None)
  {
    if edits != [] {
      var pre := edits[..|edits| - 1];
      var e := edits[|edits| - 1];
      PatchAnswersResults(db, pre);
      var (d, rs) := PatchAnswersSpec(db, pre);
      var (d', r) := d.UpdateAnswer(e.id, Strip(e));
      assert PatchAnswersSpec(db, edits) == (d', rs + [r]);
      forall i | 0 <= i < |edits|
        ensures (rs + [r])[i] == if edits[i].id.Some? && edits[i].id.value in db.answers then edits[i].id else None
      {
        if i < |pre| {
          assert pre[i] == edits[i];
        }
      }
    }
  }

  /**
    Each answer ends up with the stripped edits that name it applied in order,
    so an answer that no edit names is unchanged.
   */
  lemma {:induction false} PatchAnswersValues(db: DB, edits: seq<AnswerEdit>)
    ensures var (d, _) := PatchAnswersSpec(db, edits);
      forall k :: k in db.answers ==> k in d.answers && d.answers[k] == ApplyAll(db.answers[k], EditsFor(edits, k))
  {
    if edits != [] {
      var pre := edits[..|edits| - 1];
      var e := edits[|edits| - 1];
      PatchAnswersValues(db, pre);
      var (d, rs) := PatchAnswersSpec(db, pre);
      var (d', r) := d.UpdateAnswer(e.id, Strip(e));
      assert PatchAnswersSpec(db, edits).0 == d';
      forall k | k in db.answers
        ensures k in d'.answers && d'.answers[k] == ApplyAll(db.answers[k], EditsFor(edits, k))
      {
        if e.id == Some(k) {
          var es := EditsFor(pre, k) + [Strip(e)];
          assert EditsFor(edits, k) == es;
          assert es[..|es| - 1] == EditsFor(pre, k);
        } else {
          assert EditsFor(edits, k) == EditsFor(pre, k);
        }
      }
    }
  }

  /** Corollary: no answer's identity or timestamp fields change in the patch. */
  lemma PatchKeepsIdentity(db: DB, edits: seq<AnswerEdit>)
    ensures var (d, _) := PatchAnswersSpec(db, edits);
      forall k :: k in db.answers ==>
        k in d.answers && d.answers[k].v == db.answers[k].v && d.answers[k].dateCreated == db.answers[k].dateCreated
        && d.answers[k].lastModified == db.answers[k].lastModified
  {
    PatchAnswersValues(db, edits);
    forall k | k in db.answers {
      ApplyAllKeepsIdentity(db.answers[k], edits, k);
    }
  }

  // ---- the side effects of each target status ----

  /**
    The branch on the target status, run after the 'new' check: the client
    sync, the task completion and the task and notifications of each target.
    On success it hands back the controller's `client` variable.
   */
  function Effects(db: DB, lid: Id, cid: Id, c: Option<Client>, target: string, user: Id): (r: (DB, Result<Option<Client>>))
    requires db.Valid()
    ensures r.0.Valid() && r.0.loans == db.loans && r.0.answers == db.answers
  {
    if target == "accepted" || target == "declined_final" then
      var (d1, c1) := db.SetClientStatus(cid, ClosingClientStatus(target));
      var (d2, t) := d1.CompleteTaskOf(lid);
      if t.None? then (d2, Err(UpdateLoanError, NullRead("created_by")))
      else if c1.None? then (d2, Err(UpdateLoanError, NullRead("first_name")))
      else
        var (d3, _) := d2.AddNotification(Notification(t.value.1.createdBy, ClosingMessage(target, c1.value), Some(t.value.0)));
        (d3, Ok(c1))
    else if target == "declined_under_review" then
      var (d1, c1) := db.SetClientStatus(cid, "loan_application_inprogress");
      var (d2, t) := d1.CompleteTaskOf(lid);
      if c1.None? then (d2, Err(UpdateLoanError, NullRead("first_name")))
      else if t.None? then (d2, Err(UpdateLoanError, NullRead("created_by")))
      else
        var (d3, nt) := d2.AddTask(ReviewTask(c1.value, lid, user, t.value.1.createdBy));
        var (d4, _) := d3.AddNotification(Notification(user, ReviewMessage(c1.value), Some(nt)));
        (d4, Ok(c1))
    else (db, Ok(c))
  }

  /** `PUT /loans/:id`, as a function of the store: the new store and the response. */
  function UpdateSpec(db: DB, id: Id, body: LoanBody, user: Id, canUpdate: bool, canApprove: bool): (DB, Result<(Id, Loan)>)
    requires db.Valid()
  {
    if !canUpdate then (db, Err(LoanStatusUpdateError, PermissionMessage))
    else if StatusError(body.status).Some? then (db, Err(LoanUpdateError, StatusError(body.status).value))
    else
      var target := body.status.value;
      if NeedsAuthorize(target) && !canApprove then (db, Err(UpdateLoanError, PermissionMessage))
      else if id !in db.loans then (db, Err(UpdateLoanError, NullRead("client")))
      else Proceed(db, id, target, body, user)
  }

  /** A loan still 'new' first moves its client to 'loan_application_inprogress'. */
  function SyncNew(db: DB, loan: Loan, client: Option<Client>): (r: (DB, Option<Client>))
    requires db.Valid()
    ensures r.0.Valid() && r.0 == db.(clients := r.0.clients)
  {
    if loan.status == "new" then db.SetClientStatus(loan.client, "loan_application_inprogress") else (db, client)
  }

  /** The writes of an update that got past the gates: client sync, target effects, answers, loan, approve task. */
  function Proceed(db: DB, id: Id, target: string, body: LoanBody, user: Id): (DB, Result<(Id, Loan)>)
    requires db.Valid() && id in db.loans
  {
    var loan := db.loans[id];
    var client := Lookup(db.clients, loan.client);
    if loan.status == "new" && client.None? then (db, Err(UpdateLoanError, NullRead("_id")))
    else
      var (d1, c1) := SyncNew(db, loan, client);
      var (d2, eff) := Effects(d1, id, loan.client, c1, target, user);
      if eff.Err? then (d2, Err(eff.kind, eff.msg))
      else Persist(d2, id, target, body, eff.value, user)
  }

  /** The answers patch, `LoanDal.update` and, for 'submitted', the approve task. */
  function Persist(d: DB, id: Id, target: string, body: LoanBody, client: Option<Client>, user: Id): (DB, Result<(Id, Loan)>)
    requires d.Valid()
  {
    var (d3, results) := if body.answers.Some? then PatchAnswersSpec(d, body.answers.value) else (d, []);
    var (d4, saved) := d3.UpdateLoan(id, target, if body.answers.Some? then Some(results) else None, body);
    if saved.None? then (d4, Err(UpdateLoanError, NullRead("_id")))
    else if target != "submitted" then (d4, Ok((id, saved.value)))
    else if client.None? then (d4, Err(UpdateLoanError, NullRead("first_name")))
    else
      var (d5, _) := d4.AddTask(ApproveTask(client.value, id, user));
      (d5, Ok((id, saved.value)))
  }

  // ---- the controller ----

  method PatchAnswers(st: Store, edits: seq<AnswerEdit>) returns (results: seq<Option<Id>>)
    requires st.Valid()
    modifies st
    ensures st.Valid() && (st.Db(), results) == PatchAnswersSpec(old(st.Db()), edits)
  {
    ghost var db := st.Db();
    results := [];
    var i := 0;
    while i < |edits|
      invariant 0 <= i <= |edits| && st.Valid()
      invariant (st.Db(), results) == PatchAnswersSpec(db, edits[..i])
    {
      var answer := edits[i];
      var answerId := answer.id;
      var r := st.UpdateAnswer(answerId, Strip(answer));
      results := results + [r];
      i := i + 1;
      assert edits[..i][..i - 1] == edits[..i - 1];
    }
    assert edits[..i] == edits;
  }

  method ApplyEffects(st: Store, lid: Id, cid: Id, c: Option<Client>, target: string, user: Id) returns (r: Result<Option<Client>>)
    requires st.Valid()
    modifies st
    ensures st.Valid() && (st.Db(), r) == Effects(old(st.Db()), lid, cid, c, target, user)
  {
    if target == "accepted" || target == "declined_final" {
      var client := st.UpdateClientStatus(cid, ClosingClientStatus(target));
      var task := st.CompleteTaskOf(lid);
      if task.None? {
        return Err(UpdateLoanError, NullRead("created_by"));
      }
      if client.None? {
        return Err(UpdateLoanError, NullRead("first_name"));
      }
      var _ := st.CreateNotification(Notification(task.value.1.createdBy, ClosingMessage(target, client.value), Some(task.value.0)));
      r := Ok(client);
    } else if target == "declined_under_review" {
      var client := st.UpdateClientStatus(cid, "loan_application_inprogress");
      var task := st.CompleteTaskOf(lid);
      if client.None? {
        return Err(UpdateLoanError, NullRead("first_name"));
      }
      if task.None? {
        return Err(UpdateLoanError, NullRead("created_by"));
      }
      var reviewTask := st.CreateTask(ReviewTask(client.value, lid, user, task.value.1.createdBy));
      var _ := st.CreateNotification(Notification(user, ReviewMessage(client.value), Some(reviewTask)));
      r := Ok(client);
    } else {
      r := Ok(c);
    }
  }

  /** The controller, with the permissions of the acting user given as inputs. */
  method Update(st: Store, id: Id, body: LoanBody, user: Id, canUpdate: bool, canApprove: bool) returns (r: Result<(Id, Loan)>)
    requires st.Valid()
    modifies st
    ensures st.Valid() && (st.Db(), r) == UpdateSpec(old(st.Db()), id, body, user, canUpdate, canApprove)
  {
    if !canUpdate {
      return Err(LoanStatusUpdateError, PermissionMessage);
    }
    var errors := StatusError(body.status);
    if errors.Some? {
      return Err(LoanUpdateError, errors.value);
    }
    var target := body.status.value;
    if NeedsAuthorize(target) && !canApprove {
      return Err(UpdateLoanError, PermissionMessage);
    }
    if id !in st.loans {
      return Err(UpdateLoanError, NullRead("client"));
    }
    var loan := st.loans[id];
    var client := Lookup(st.clients, loan.client);
    if loan.status == "new" {
      if client.None? {
        return Err(UpdateLoanError, NullRead("_id"));
      }
      client := st.UpdateClientStatus(loan.client, "loan_application_inprogress");
    }
    var eff := ApplyEffects(st, id, loan.client, client, target, user);
    if eff.Err? {
      return Err(eff.kind, eff.msg);
    }
    client := eff.value;
    var answers: Option<seq<Option<Id>>> := None;
    if body.answers.Some? {
      var results := PatchAnswers(st, body.answers.value);
      answers := Some(results);
    }
    var saved := st.UpdateLoan(id, target, answers, body);
    if saved.None? {
      return Err(UpdateLoanError, NullRead("_id"));
    }
    if target == "submitted" {
      if client.None? {
        return Err(UpdateLoanError, NullRead("first_name"));
      }
      var _ := st.CreateTask(ApproveTask(client.value, id, user));
    }
    r := Ok((id, saved.value));
  }
}
