/**
  What `update` in controllers/loan.js does, target status by target
  status, stated over `LoanUpdate.UpdateSpec`.
 */
module LoanUpdateFacts {
  import opened Records
  import opened Store
  import opened LoanUpdate

  /** The request gets past validation, both permission checks and the loan lookup. */
  ghost predicate PastGates(db: DB, id: Id, body: LoanBody, canUpdate: bool, canApprove: bool)
  {
    && canUpdate
    && body.status.Some? && body.status.value in Statuses
    && (NeedsAuthorize(body.status.value) ==> canApprove)
    && id in db.loans
  }

  /** Past the gates, `update` is `Proceed` on the requested status. */
  lemma PastGatesProceed(db: DB, id: Id, body: LoanBody, user: Id, canApprove: bool)
    requires db.Valid() && PastGates(db, id, body, true, canApprove)
    ensures UpdateSpec(db, id, body, user, true, canApprove) == Proceed(db, id, body.status.value, body, user)
  {
  }

  /** The first task whose `entity_ref` is the loan: the one `TaskDal.update` completes. */
  function FirstTask(db: DB, id: Id): Option<Id>
    requires db.Valid()
  {
    db.Find(db.tasks, TaskOf(id))
  }

  lemma NullReadIsNotPermission(p: string)
    ensures NullRead(p) != PermissionMessage
  {
    assert NullRead(p)[0] == 'C';
    assert PermissionMessage[0] == 'Y';
  }

  /**
    `update` refuses before any store write: without UPDATE; with a status
    that is missing, empty or not one of the five; with a closing or review
    target and no AUTHORIZE; and when there is no loan with that id.
   */
  lemma UpdateRefusals(db: DB, id: Id, body: LoanBody, user: Id, canUpdate: bool, canApprove: bool)
    requires db.Valid()
    ensures var (d, r) := UpdateSpec(db, id, body, user, canUpdate, canApprove);
      && (!canUpdate ==> d == db && r == Err(LoanStatusUpdateError, PermissionMessage))
      && (canUpdate && !(body.status.Some? && body.status.value in Statuses) ==>
            d == db && r.Err? && r.kind == LoanUpdateError)
      && (canUpdate && body.status.Some? && body.status.value in Statuses
          && NeedsAuthorize(body.status.value) && !canApprove ==>
            d == db && r == Err(UpdateLoanError, PermissionMessage))
      && (canUpdate && body.status.Some? && body.status.value in Statuses
          && (NeedsAuthorize(body.status.value) ==> canApprove) && id !in db.loans ==>
            d == db && r == Err(UpdateLoanError, NullRead("client")))
  {
  }

  /**
    The two tiers: with UPDATE and a valid status, the request fails for lack
    of permission exactly when the target is accepted, declined_final or
    declined_under_review and the user lacks AUTHORIZE.
   */
  lemma AuthorizeTier(db: DB, id: Id, body: LoanBody, user: Id, canApprove: bool)
    requires db.Valid()
    requires body.status.Some? && body.status.value in Statuses
    ensures var (d, r) := UpdateSpec(db, id, body, user, true, canApprove);
      r == Err(UpdateLoanError, PermissionMessage) <==> NeedsAuthorize(body.status.value) && !canApprove
  {
    NullReadIsNotPermission("client");
    if id in db.loans {
      ProceedNeverPermission(db, id, body.status.value, body, user);
    }
  }

  /** The effects fail only on a null read of the client's name or of the task. */
  lemma EffectsErrors(db: DB, lid: Id, cid: Id, c: Option<Client>, target: string, user: Id)
    requires db.Valid()
    ensures var r := Effects(db, lid, cid, c, target, user).1;
      r.Err? ==> r.kind == UpdateLoanError && (r.msg == NullRead("first_name") || r.msg == NullRead("created_by"))
  {
  }

  /** The save fails only on a null read of the saved loan or of the client's name. */
  lemma PersistErrors(d: DB, id: Id, target: string, body: LoanBody, client: Option<Client>, user: Id)
    requires d.Valid()
    ensures var r := Persist(d, id, target, body, client, user).1;
      r.Err? ==> r.kind == UpdateLoanError && (r.msg == NullRead("_id") || r.msg == NullRead("first_name"))
  {
  }

  /** Past the gates, no failure is a permission failure. */
  lemma ProceedNeverPermission(db: DB, id: Id, target: string, body: LoanBody, user: Id)
    requires db.Valid() && id in db.loans
    ensures Proceed(db, id, target, body, user).1 != Err(UpdateLoanError, PermissionMessage)
  {
    NullReadIsNotPermission("_id");
    NullReadIsNotPermission("created_by");
    NullReadIsNotPermission("first_name");
    var loan := db.loans[id];
    var client := Lookup(db.clients, loan.client);
    if !(loan.status == "new" && client.None?) {
      var (d1, c1) := SyncNew(db, loan, client);
      EffectsErrors(d1, id, loan.client, c1, target, user);
      var (d2, eff) := Effects(d1, id, loan.client, c1, target, user);
      if eff.Ok? {
        PersistErrors(d2, id, target, body, eff.value, user);
      }
    }
  }

  /** `SyncNew` touches only the loan's client, and only while the loan is 'new'. */
  lemma SyncNewFacts(db: DB, id: Id)
    requires db.Valid() && id in db.loans
    requires db.loans[id].status == "new" ==> db.loans[id].client in db.clients
    ensures var loan := db.loans[id];
      var cid := loan.client;
      var (d1, c1) := SyncNew(db, loan, Lookup(db.clients, cid));
      && d1 == (if loan.status == "new" then db.(clients := db.clients[cid := db.clients[cid].(status := "loan_application_inprogress")]) else db)
      && (cid in db.clients <==> c1.Some?)
      && (c1.Some? ==> cid in d1.clients && c1.value == d1.clients[cid])
  {
  }

  /** Both descriptions of the task `TaskDal.update` completes pick the same task. */
  lemma FirstTaskIsCompleted(db: DB, id: Id)
    requires db.Valid()
    ensures var (d, t) := db.CompleteTaskOf(id);
      && (FirstTask(db, id).None? <==> t.None?)
      && (t.Some? ==> t.value.0 == FirstTask(db, id).value)
  {
  }

  /**
    The store after the effects of accepted or declined_final, written out:
    the client's closing status, the loan's first task completed and one
    notification to that task's creator that references it, under the next
    id.
   */
  function ClosingWrites(db: DB, lid: Id, cid: Id, target: string): DB
    requires db.Valid() && cid in db.clients && FirstTask(db, lid).Some?
  {
    var c := db.clients[cid].(status := ClosingClientStatus(target));
    var k := FirstTask(db, lid).value;
    db.(clients := db.clients[cid := c],
        tasks := db.tasks[k := db.tasks[k].(status := "completed")],
        notifications := db.notifications[db.next := Notification(db.tasks[k].createdBy, ClosingMessage(target, c), Some(k))],
        next := db.next + 1)
  }

  /** The effects of accepted and declined_final when client and task exist, in the source's order. */
  lemma EffectsClosing(db: DB, lid: Id, cid: Id, c: Option<Client>, target: string, user: Id)
    requires db.Valid()
    requires target == "accepted" || target == "declined_final"
    requires cid in db.clients && FirstTask(db, lid).Some?
    ensures Effects(db, lid, cid, c, target, user) ==
      (ClosingWrites(db, lid, cid, target), Ok(Some(db.clients[cid].(status := ClosingClientStatus(target)))))
  {
    var (d1, c1) := db.SetClientStatus(cid, ClosingClientStatus(target));
    FirstTaskIsCompleted(d1, lid);
    assert FirstTask(d1, lid) == FirstTask(db, lid);
    var (d2, t) := d1.CompleteTaskOf(lid);
    var (d3, n) := d2.AddNotification(Notification(t.value.1.createdBy, ClosingMessage(target, c1.value), Some(t.value.0)));
    assert Effects(db, lid, cid, c, target, user) == (d3, Ok(c1));
  }

  /**
    The store after the effects of declined_under_review, written out: the
    client back to 'loan_application_inprogress', the loan's first task
    completed, a 'review' task for that task's creator, by the acting user,
    under the next id, and a notification to the acting user that
    references it under the id after that.
   */
  function ReviewWrites(db: DB, lid: Id, cid: Id, user: Id): DB
    requires db.Valid() && cid in db.clients && FirstTask(db, lid).Some?
  {
    var c := db.clients[cid].(status := "loan_application_inprogress");
    var k := FirstTask(db, lid).value;
    db.(clients := db.clients[cid := c],
        tasks := db.tasks[k := db.tasks[k].(status := "completed")][db.next := ReviewTask(c, lid, user, db.tasks[k].createdBy)],
        notifications := db.notifications[db.next + 1 := Notification(user, ReviewMessage(c), Some(db.next))],
        next := db.next + 2)
  }

  /**
    The effects of declined_under_review when client and task exist: the
    client status, the task completion, one review task and one notification
    that references it.
   */
  lemma EffectsReview(db: DB, lid: Id, cid: Id, c: Option<Client>, user: Id)
    requires db.Valid()
    requires cid in db.clients && FirstTask(db, lid).Some?
    ensures Effects(db, lid, cid, c, "declined_under_review", user) ==
      (ReviewWrites(db, lid, cid, user), Ok(Some(db.clients[cid].(status := "loan_application_inprogress"))))
  {
    var (d1, c1) := db.SetClientStatus(cid, "loan_application_inprogress");
    FirstTaskIsCompleted(d1, lid);
    assert FirstTask(d1, lid) == FirstTask(db, lid);
    var (d2, t) := d1.CompleteTaskOf(lid);
    var (d3, nt) := d2.AddTask(ReviewTask(c1.value, lid, user, t.value.1.createdBy));
    var (d4, n) := d3.AddNotification(Notification(user, ReviewMessage(c1.value), Some(nt)));
    assert Effects(db, lid, cid, c, "declined_under_review", user) == (d4, Ok(c1));
  }

  /** The answers map once the body's answers patch, if any, has run. */
  function AnswersAfter(db: DB, body: LoanBody): map<Id, Answer>
  {
    if body.answers.Some? then PatchAnswersSpec(db, body.answers.value).0.answers else db.answers
  }

  /** What the update writes as the loan's `answers`: the patch results, or nothing. */
  function SavedAnswers(db: DB, body: LoanBody): Option<seq<Option<Id>>>
  {
    if body.answers.Some? then Some(PatchAnswersSpec(db, body.answers.value).1) else None
  }

  /** The answers patch reads nothing of the store but its answers. */
  lemma PatchReadsAnswersOnly(d: DB, e: DB, edits: seq<AnswerEdit>)
    requires d.answers == e.answers
    ensures PatchAnswersSpec(d, edits).0.answers == PatchAnswersSpec(e, edits).0.answers
    ensures PatchAnswersSpec(d, edits).1 == PatchAnswersSpec(e, edits).1
  {
    PatchAnswersResults(d, edits);
    PatchAnswersResults(e, edits);
    PatchAnswersValues(d, edits);
    PatchAnswersValues(e, edits);
  }

  /**
    `Persist`: the answers patch, then the loan saved with the patch results
    as its `answers`, then for 'submitted' the approve task.
   */
  lemma PersistPatched(d: DB, id: Id, target: string, body: LoanBody, client: Option<Client>, user: Id)
    requires d.Valid() && id in d.loans
    ensures var l := ApplyLoanBody(d.loans[id], target, SavedAnswers(d, body), body);
      var d4 := d.(answers := AnswersAfter(d, body), loans := d.loans[id := l]);
      Persist(d, id, target, body, client, user) ==
        if target != "submitted" then (d4, Ok((id, l)))
        else if client.None? then (d4, Err(UpdateLoanError, NullRead("first_name")))
        else (d4.(tasks := d.tasks[d.next := ApproveTask(client.value, id, user)], next := d.next + 1), Ok((id, l)))
  {
    if body.answers.Some? {
      PatchAnswersResults(d, body.answers.value);
    }
  }

  /** Then the answers patch runs and the loan is saved with the target status and the patch results. */
  function ClosingOutcome(db: DB, id: Id, body: LoanBody): (DB, Result<(Id, Loan)>)
    requires db.Valid() && id in db.loans && db.loans[id].client in db.clients && FirstTask(db, id).Some?
    requires body.status.Some?
  {
    var l := ApplyLoanBody(db.loans[id], body.status.value, SavedAnswers(db, body), body);
    (ClosingWrites(db, id, db.loans[id].client, body.status.value).(answers := AnswersAfter(db, body), loans := db.loans[id := l]), Ok((id, l)))
  }

  /** Moving a 'new' loan's client to 'loan_application_inprogress' first changes nothing in `ClosingWrites`. */
  lemma ClosingWritesReset(db: DB, lid: Id, cid: Id, target: string)
    requires db.Valid() && cid in db.clients && FirstTask(db, lid).Some?
    ensures var d1 := db.(clients := db.clients[cid := db.clients[cid].(status := "loan_application_inprogress")]);
      d1.Valid() && FirstTask(d1, lid).Some? && ClosingWrites(d1, lid, cid, target) == ClosingWrites(db, lid, cid, target)
  {
    var c := db.clients[cid].(status := ClosingClientStatus(target));
    var d1 := db.(clients := db.clients[cid := db.clients[cid].(status := "loan_application_inprogress")]);
    assert d1.tasks == db.tasks && d1.next == db.next;
    assert FirstTask(d1, lid) == FirstTask(db, lid);
    assert d1.clients[cid].(status := ClosingClientStatus(target)) == c;
    assert d1.clients[cid := c] == db.clients[cid := c];
  }

  /** The effects of a closing target, after the 'new' check, are `ClosingWrites`. */
  lemma ClosingEffects(db: DB, id: Id, target: string, user: Id)
    requires db.Valid() && id in db.loans && db.loans[id].client in db.clients
    requires target == "accepted" || target == "declined_final"
    requires FirstTask(db, id).Some?
    ensures var cid := db.loans[id].client;
      var s := SyncNew(db, db.loans[id], Some(db.clients[cid]));
      Effects(s.0, id, cid, s.1, target, user)
        == (ClosingWrites(db, id, cid, target), Ok(Some(db.clients[cid].(status := ClosingClientStatus(target)))))
  {
    var cid := db.loans[id].client;
    if db.loans[id].status == "new" {
      var c := db.clients[cid].(status := "loan_application_inprogress");
      ClosingWritesReset(db, id, cid, target);
      EffectsClosing(db.(clients := db.clients[cid := c]), id, cid, Some(c), target, user);
      assert c.(status := ClosingClientStatus(target)) == db.clients[cid].(status := ClosingClientStatus(target));
    } else {
      EffectsClosing(db, id, cid, Some(db.clients[cid]), target, user);
    }
  }

  /** `Persist` after `ClosingWrites` gives `ClosingOutcome`. */
  lemma ClosingPersist(db: DB, id: Id, body: LoanBody, user: Id)
    requires db.Valid() && id in db.loans && db.loans[id].client in db.clients && FirstTask(db, id).Some?
    requires body.status.Some? && (body.status.value == "accepted" || body.status.value == "declined_final")
    ensures ClosingWrites(db, id, db.loans[id].client, body.status.value).Valid()
    ensures var c := db.clients[db.loans[id].client].(status := ClosingClientStatus(body.status.value));
      Persist(ClosingWrites(db, id, db.loans[id].client, body.status.value), id, body.status.value, body, Some(c), user)
        == ClosingOutcome(db, id, body)
  {
    var c := db.clients[db.loans[id].client].(status := ClosingClientStatus(body.status.value));
    var e := ClosingWrites(db, id, db.loans[id].client, body.status.value);
    assert e.Valid();
    PersistPatched(e, id, body.status.value, body, Some(c), user);
    if body.answers.Some? {
      PatchReadsAnswersOnly(e, db, body.answers.value);
    }
  }

  /**
    Targets accepted and declined_final, when the loan's client and a task
    for the loan exist: the store and response are `ClosingOutcome`, in
    which exactly one notification is added, under an id not yet used.
   */
  lemma ClosingTargets(db: DB, id: Id, body: LoanBody, user: Id, canApprove: bool)
    requires db.Valid() && PastGates(db, id, body, true, canApprove)
    requires body.status.value == "accepted" || body.status.value == "declined_final"
    requires db.loans[id].client in db.clients
    requires exists k :: k in db.tasks && db.tasks[k].entityRef == id
    ensures FirstTask(db, id).Some? && db.next !in db.notifications
    ensures UpdateSpec(db, id, body, user, true, canApprove) == ClosingOutcome(db, id, body)
  {
    PastGatesProceed(db, id, body, user, canApprove);
    ClosingEffects(db, id, body.status.value, user);
    ClosingPersist(db, id, body, user);
  }

  /**
    Accepted or declined_final when the loan has no task: the client status
    is already written when the null task is dereferenced, so the request
    fails and keeps that write, with no task, notification or loan change.
   */
  lemma ClosingWithoutTask(db: DB, id: Id, body: LoanBody, user: Id, canApprove: bool)
    requires db.Valid() && PastGates(db, id, body, true, canApprove)
    requires body.status.value == "accepted" || body.status.value == "declined_final"
    requires db.loans[id].client in db.clients
    requires forall k :: k in db.tasks ==> db.tasks[k].entityRef != id
    ensures var (d, r) := UpdateSpec(db, id, body, user, true, canApprove);
      var cid := db.loans[id].client;
      && r == Err(UpdateLoanError, NullRead("created_by"))
      && d.clients == db.clients[cid := db.clients[cid].(status := ClosingClientStatus(body.status.value))]
      && d.loans == db.loans && d.tasks == db.tasks && d.notifications == db.notifications && d.answers == db.answers
  {
    var target := body.status.value;
    var loan := db.loans[id];
    var cid := loan.client;
    SyncNewFacts(db, id);
    var (d1, c1) := SyncNew(db, loan, Lookup(db.clients, cid));
    var (e1, ec) := d1.SetClientStatus(cid, ClosingClientStatus(target));
    var (e2, t) := e1.CompleteTaskOf(id);
    assert Effects(d1, id, cid, c1, target, user) == (e2, Err(UpdateLoanError, NullRead("created_by")));
    PastGatesProceed(db, id, body, user, canApprove);
    assert Proceed(db, id, target, body, user) == (e2, Err(UpdateLoanError, NullRead("created_by")));
    assert e2.clients == db.clients[cid := db.clients[cid].(status := ClosingClientStatus(target))];
  }

  /**
    Accepted or declined_final on a loan (not 'new') whose client is gone:
    the loan's first task, if any, is completed before the null client is
    dereferenced, so the request fails after that write and the task status
    is checked first, so a loan without a task fails on the task instead.
   */
  lemma ClosingWithoutClient(db: DB, id: Id, body: LoanBody, user: Id, canApprove: bool)
    requires db.Valid() && PastGates(db, id, body, true, canApprove)
    requires body.status.value == "accepted" || body.status.value == "declined_final"
    requires db.loans[id].client !in db.clients && db.loans[id].status != "new"
    ensures var (d, r) := UpdateSpec(db, id, body, user, true, canApprove);
      var k := FirstTask(db, id);
      && r == Err(UpdateLoanError, NullRead(if k.Some? then "first_name" else "created_by"))
      && d.tasks == (if k.Some? then db.tasks[k.value := db.tasks[k.value].(status := "completed")] else db.tasks)
      && d.clients == db.clients && d.loans == db.loans && d.notifications == db.notifications && d.answers == db.answers
  {
    PastGatesProceed(db, id, body, user, canApprove);
    var (e2, t) := db.CompleteTaskOf(id);
    FirstTaskIsCompleted(db, id);
    assert Effects(db, id, db.loans[id].client, None, body.status.value, user).0 == e2;
  }

  /** Then the answers patch runs and the loan is saved with the new status and the patch results. */
  function ReviewOutcome(db: DB, id: Id, body: LoanBody, user: Id): (DB, Result<(Id, Loan)>)
    requires db.Valid() && id in db.loans && db.loans[id].client in db.clients && FirstTask(db, id).Some?
  {
    var l := ApplyLoanBody(db.loans[id], "declined_under_review", SavedAnswers(db, body), body);
    (ReviewWrites(db, id, db.loans[id].client, user).(answers := AnswersAfter(db, body), loans := db.loans[id := l]), Ok((id, l)))
  }

  /** Resetting the client's status first changes nothing in `ReviewWrites`. */
  lemma ReviewWritesReset(db: DB, lid: Id, cid: Id, user: Id)
    requires db.Valid() && cid in db.clients && FirstTask(db, lid).Some?
    ensures var d1 := db.(clients := db.clients[cid := db.clients[cid].(status := "loan_application_inprogress")]);
      d1.Valid() && FirstTask(d1, lid).Some? && ReviewWrites(d1, lid, cid, user) == ReviewWrites(db, lid, cid, user)
  {
    var c := db.clients[cid].(status := "loan_application_inprogress");
    var d1 := db.(clients := db.clients[cid := c]);
    assert d1.tasks == db.tasks && d1.next == db.next;
    assert FirstTask(d1, lid) == FirstTask(db, lid);
    assert d1.clients[cid].(status := "loan_application_inprogress") == c;
    assert d1.clients[cid := c] == db.clients[cid := c];
  }

  /** The effects of declined_under_review, after the 'new' check, are `ReviewWrites`. */
  lemma ReviewEffects(db: DB, id: Id, user: Id)
    requires db.Valid() && id in db.loans && db.loans[id].client in db.clients
    requires FirstTask(db, id).Some?
    ensures var cid := db.loans[id].client;
      var s := SyncNew(db, db.loans[id], Some(db.clients[cid]));
      Effects(s.0, id, cid, s.1, "declined_under_review", user)
        == (ReviewWrites(db, id, cid, user), Ok(Some(db.clients[cid].(status := "loan_application_inprogress"))))
  {
    if db.loans[id].status == "new" {
      var cid := db.loans[id].client;
      ReviewWritesReset(db, id, cid, user);
      EffectsReview(db.(clients := db.clients[cid := db.clients[cid].(status := "loan_application_inprogress")]), id, cid,
        Some(db.clients[cid].(status := "loan_application_inprogress")), user);
    } else {
      EffectsReview(db, id, db.loans[id].client, Some(db.clients[db.loans[id].client]), user);
    }
  }

  /** `Persist` after `ReviewWrites` gives `ReviewOutcome`. */
  lemma ReviewPersist(db: DB, id: Id, body: LoanBody, user: Id)
    requires db.Valid() && id in db.loans && db.loans[id].client in db.clients && FirstTask(db, id).Some?
    ensures ReviewWrites(db, id, db.loans[id].client, user).Valid()
    ensures var c := db.clients[db.loans[id].client].(status := "loan_application_inprogress");
      Persist(ReviewWrites(db, id, db.loans[id].client, user), id, "declined_under_review", body, Some(c), user) == ReviewOutcome(db, id, body, user)
  {
    var c := db.clients[db.loans[id].client].(status := "loan_application_inprogress");
    var e := ReviewWrites(db, id, db.loans[id].client, user);
    assert e.Valid();
    PersistPatched(e, id, "declined_under_review", body, Some(c), user);
    if body.answers.Some? {
      PatchReadsAnswersOnly(e, db, body.answers.value);
    }
  }

  /**
    Target declined_under_review, when the loan's client and a task for the
    loan exist: the store and response are `ReviewOutcome`, in which exactly
    one task and one notification are added, under ids not yet used.
   */
  lemma ReviewTarget(db: DB, id: Id, body: LoanBody, user: Id)
    requires db.Valid() && PastGates(db, id, body, true, true)
    requires body.status.value == "declined_under_review"
    requires db.loans[id].client in db.clients
    requires exists k :: k in db.tasks && db.tasks[k].entityRef == id
    ensures FirstTask(db, id).Some? && db.next !in db.tasks && db.next + 1 !in db.notifications
    ensures UpdateSpec(db, id, body, user, true, true) == ReviewOutcome(db, id, body, user)
  {
    PastGatesProceed(db, id, body, user, true);
    ReviewEffects(db, id, user);
    ReviewPersist(db, id, body, user);
  }

  /**
    declined_under_review on a loan (not 'new') whose client is gone, or
    whose client exists but which has no task. The client is read before the
    task, so a missing client fails on `first_name` after the task
    completion, and a missing task fails on `created_by` after the client
    status write; neither saves the loan or creates a task or notification.
   */
  lemma ReviewFailures(db: DB, id: Id, body: LoanBody, user: Id)
    requires db.Valid() && PastGates(db, id, body, true, true)
    requires body.status.value == "declined_under_review"
    requires db.loans[id].status != "new"
    requires db.loans[id].client !in db.clients || forall k :: k in db.tasks ==> db.tasks[k].entityRef != id
    ensures var (d, r) := UpdateSpec(db, id, body, user, true, true);
      var cid := db.loans[id].client;
      var k := FirstTask(db, id);
      && r == Err(UpdateLoanError, NullRead(if cid !in db.clients then "first_name" else "created_by"))
      && d.clients == (if cid in db.clients then db.clients[cid := db.clients[cid].(status := "loan_application_inprogress")] else db.clients)
      && d.tasks == (if k.Some? then db.tasks[k.value := db.tasks[k.value].(status := "completed")] else db.tasks)
      && d.loans == db.loans && d.notifications == db.notifications && d.answers == db.answers
  {
    PastGatesProceed(db, id, body, user, true);
    var cid := db.loans[id].client;
    var (e1, c1) := db.SetClientStatus(cid, "loan_application_inprogress");
    FirstTaskIsCompleted(e1, id);
    assert FirstTask(e1, id) == FirstTask(db, id);
    var (e2, t) := e1.CompleteTaskOf(id);
    assert Effects(db, id, cid, None, body.status.value, user).0 == e2;
  }

  /**
    declined_under_review on a loan still 'new' whose client exists but which
    has no task: the client is first moved to 'loan_application_inprogress'
    by the sync and again by the review branch, then `task.created_by` is
    read on null; no task, loan, notification or answer is written.
   */
  lemma ReviewFailuresNew(db: DB, id: Id, body: LoanBody, user: Id)
    requires db.Valid() && PastGates(db, id, body, true, true)
    requires body.status.value == "declined_under_review"
    requires db.loans[id].status == "new" && db.loans[id].client in db.clients
    requires forall k :: k in db.tasks ==> db.tasks[k].entityRef != id
    ensures var (d, r) := UpdateSpec(db, id, body, user, true, true);
      var cid := db.loans[id].client;
      && r == Err(UpdateLoanError, NullRead("created_by"))
      && d.clients == db.clients[cid := db.clients[cid].(status := "loan_application_inprogress")]
      && d.tasks == db.tasks && d.loans == db.loans && d.notifications == db.notifications && d.answers == db.answers
  {
    PastGatesProceed(db, id, body, user, true);
    SyncNewFacts(db, id);
    var cid := db.loans[id].client;
    var d1 := db.(clients := db.clients[cid := db.clients[cid].(status := "loan_application_inprogress")]);
    var (e1, c1) := d1.SetClientStatus(cid, "loan_application_inprogress");
    FirstTaskIsCompleted(e1, id);
    assert e1 == d1;
  }

  /**
    A loan still 'new' whose client is gone: `client._id` is read on the null
    client before anything is written, whatever the target.
   */
  lemma NewWithoutClient(db: DB, id: Id, body: LoanBody, user: Id, canApprove: bool)
    requires db.Valid() && PastGates(db, id, body, true, canApprove)
    requires db.loans[id].status == "new" && db.loans[id].client !in db.clients
    ensures UpdateSpec(db, id, body, user, true, canApprove) == (db, Err(UpdateLoanError, NullRead("_id")))
  {
  }

  /**
    Target submitted: the answers patch runs, the loan is saved with the
    patch results, then exactly one 'approve' task for the loan, by the
    acting user, is created as the last write; a loan still 'new' moves its
    client to 'loan_application_inprogress'.
   */
  lemma SubmittedTarget(db: DB, id: Id, body: LoanBody, user: Id, canApprove: bool)
    requires db.Valid() && PastGates(db, id, body, true, canApprove)
    requires body.status.value == "submitted"
    requires db.loans[id].client in db.clients
    ensures var (d, r) := UpdateSpec(db, id, body, user, true, canApprove);
      var cid := db.loans[id].client;
      var c := if db.loans[id].status == "new" then db.clients[cid].(status := "loan_application_inprogress") else db.clients[cid];
      && r.Ok? && d.loans == db.loans[id := r.value.1] && r.value.1.status == "submitted"
      && r.value.1 == ApplyLoanBody(db.loans[id], "submitted", SavedAnswers(db, body), body)
      && d.clients == db.clients[cid := c]
      && db.next !in db.tasks && d.next == db.next + 1
      && d.tasks == db.tasks[db.next := ApproveTask(c, id, user)]
      && d.notifications == db.notifications && d.answers == AnswersAfter(db, body)
  {
    var loan := db.loans[id];
    var cid := loan.client;
    SyncNewFacts(db, id);
    var (d1, c1) := SyncNew(db, loan, Lookup(db.clients, cid));
    PersistPatched(d1, id, "submitted", body, c1, user);
    if body.answers.Some? {
      PatchReadsAnswersOnly(d1, db, body.answers.value);
    }
    PastGatesProceed(db, id, body, user, canApprove);
    assert Proceed(db, id, "submitted", body, user) == Persist(d1, id, "submitted", body, c1, user);
  }

  /**
    Target submitted on a loan whose client no longer exists (and that is
    not 'new'): the answers are patched and the loan is already saved when
    the approve task's name dereferences the null client, so the request
    fails after those writes and creates no task.
   */
  lemma SubmittedWithoutClient(db: DB, id: Id, body: LoanBody, user: Id, canApprove: bool)
    requires db.Valid() && PastGates(db, id, body, true, canApprove)
    requires body.status.value == "submitted"
    requires db.loans[id].client !in db.clients && db.loans[id].status != "new"
    ensures var (d, r) := UpdateSpec(db, id, body, user, true, canApprove);
      && r == Err(UpdateLoanError, NullRead("first_name"))
      && d.loans == db.loans[id := ApplyLoanBody(db.loans[id], "submitted", SavedAnswers(db, body), body)]
      && d.answers == AnswersAfter(db, body)
      && d.tasks == db.tasks && d.clients == db.clients
  {
    PersistPatched(db, id, "submitted", body, None, user);
    PastGatesProceed(db, id, body, user, canApprove);
    assert Proceed(db, id, "submitted", body, user) == Persist(db, id, "submitted", body, None, user);
  }

  /**
    Target inprogress: no task or notification is touched; the client moves
    to 'loan_application_inprogress' only when the loan was 'new'; the loan
    is saved with the patch results.
   */
  lemma InprogressTarget(db: DB, id: Id, body: LoanBody, user: Id, canApprove: bool)
    requires db.Valid() && PastGates(db, id, body, true, canApprove)
    requires body.status.value == "inprogress"
    requires db.loans[id].status == "new" ==> db.loans[id].client in db.clients
    ensures var (d, r) := UpdateSpec(db, id, body, user, true, canApprove);
      var cid := db.loans[id].client;
      && r.Ok? && d.loans == db.loans[id := r.value.1] && r.value.1.status == "inprogress"
      && r.value.1 == ApplyLoanBody(db.loans[id], "inprogress", SavedAnswers(db, body), body)
      && d.clients == (if db.loans[id].status == "new" then db.clients[cid := db.clients[cid].(status := "loan_application_inprogress")] else db.clients)
      && d.tasks == db.tasks && d.notifications == db.notifications && d.answers == AnswersAfter(db, body)
  {
    var loan := db.loans[id];
    var cid := loan.client;
    SyncNewFacts(db, id);
    var (d1, c1) := SyncNew(db, loan, Lookup(db.clients, cid));
    PersistPatched(d1, id, "inprogress", body, c1, user);
    if body.answers.Some? {
      PatchReadsAnswersOnly(d1, db, body.answers.value);
    }
    PastGatesProceed(db, id, body, user, canApprove);
    assert Proceed(db, id, "inprogress", body, user) == Persist(d1, id, "inprogress", body, c1, user);
  }

  /**
    With an answers patch, a successful update saves as the loan's `answers`
    the patch results in order: each edit's own id when that answer exists,
    null otherwise; no answer's `_v` or timestamps change.
   */
  lemma AnswersSaved(db: DB, id: Id, body: LoanBody, user: Id, canUpdate: bool, canApprove: bool)
    requires db.Valid()
    requires body.answers.Some?
    ensures var (d, r) := UpdateSpec(db, id, body, user, canUpdate, canApprove);
      var edits := body.answers.value;
      r.Ok? ==>
        && id in d.loans && r.value.1 == d.loans[id]
        && |d.loans[id].answers| == |edits|
        && (forall i :: 0 <= i < |edits| ==>
              d.loans[id].answers[i] == if edits[i].id.Some? && edits[i].id.value in db.answers then edits[i].id else None)
        && d.answers.Keys == db.answers.Keys
        && (forall k :: k in db.answers ==>
              d.answers[k].v == db.answers[k].v && d.answers[k].dateCreated == db.answers[k].dateCreated
              && d.answers[k].lastModified == db.answers[k].lastModified)
  {
    var (d, r) := UpdateSpec(db, id, body, user, canUpdate, canApprove);
    if r.Ok? {
      var target := body.status.value;
      var loan := db.loans[id];
      var client := Lookup(db.clients, loan.client);
      var (d1, c1) := SyncNew(db, loan, client);
      var (d2, eff) := Effects(d1, id, loan.client, c1, target, user);
      var edits := body.answers.value;
      PatchAnswersResults(d2, edits);
      PatchKeepsIdentity(d2, edits);
      var (d3, results) := PatchAnswersSpec(d2, edits);
      var (d4, saved) := d3.UpdateLoan(id, target, Some(results), body);
      assert Proceed(db, id, target, body, user) == Persist(d2, id, target, body, eff.value, user);
      assert d.loans == d4.loans && d.answers == d4.answers && r == Ok((id, saved.value));
    }
  }
}
