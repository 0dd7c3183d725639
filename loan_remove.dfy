/**
  Loan removal (`remove` in controllers/loan.js): the loan is deleted first,
  then each of its answers in order, and after each answer the ids listed in
  that answer's `sub_answers`.

  A data-access `delete` of a missing document resolves to the empty object,
  so an entry of the loan's `answers` that names no answer makes the next
  line read `length` of `undefined`; an entry that is `null` makes the loop
  read `_id` of `null`. Either error ends the request after the deletes
  already done. Deleting a missing sub-answer is a no-op.
 */
module LoanRemove {
  import opened Records
  import opened Store

  const NoLoanMessage := "Loan Does Not Exist!"

  /** The two TypeErrors the answer loop can raise. */
  datatype Thrown =
    | NullEntry     // an entry of `answers` is null: reading its `_id`
    | MissingAnswer // the delete resolved to the empty object: reading `sub_answers.length`

  function ThrownMessage(t: Thrown): string
  {
    match t
    case NullEntry => NullRead("_id")
    case MissingAnswer => UndefinedRead("length")
  }

  /** The deletes of the inner loop, one per listed sub-answer; missing ones change nothing. */
  function DeleteAll(db: DB, ids: seq<Id>): (r: DB)
    ensures db.Valid() ==> r.Valid()
    ensures r == db.(answers := db.answers - set k | k in ids)
  {
    if ids == [] then
      assert db.answers - {} == db.answers;
      db
    else
      var pre := ids[..|ids| - 1];
      var r := DeleteAll(db, pre).DeleteAnswer(ids[|ids| - 1]).0;
      assert (set k | k in ids) == (set k | k in pre) + {ids[|ids| - 1]};
      assert r.answers == db.answers - set k | k in ids;
      r
  }

  /** The answers a listed entry stands for: the answer itself and its sub-answers. */
  function TargetsOf(answers: map<Id, Answer>, ref: Option<Id>): set<Id>
  {
    if ref.Some? && ref.value in answers then {ref.value} + set k | k in answers[ref.value].subAnswers
    else {}
  }

  /**
    One turn of the outer loop: the error it throws, or `None` after
    deleting the answer and its sub-answers.
   */
  function RemoveOne(db: DB, ref: Option<Id>): (r: (DB, Option<Thrown>))
    ensures db.Valid() ==> r.0.Valid()
    ensures ref.Some? && ref.value in db.answers ==> r == (db.(answers := db.answers - TargetsOf(db.answers, ref)), None)
    ensures ref.None? ==> r == (db, Some(NullEntry))
    ensures ref.Some? && ref.value !in db.answers ==> r == (db, Some(MissingAnswer))
  {
    match ref
    case None => (db, Some(NullEntry))
    case Some(id) =>
      var del := db.DeleteAnswer(id);
      if del.1.None? then
        assert db.answers - {id} == db.answers;
        (db, Some(MissingAnswer))
      else
        var r := DeleteAll(del.0, del.1.value.subAnswers);
        assert r.answers == db.answers - TargetsOf(db.answers, ref);
        (r, None)
  }

  /** The first `n` turns of the outer loop; it stops at the first turn that throws. */
  function RemoveAnswers(db: DB, refs: seq<Option<Id>>, n: nat): (r: (DB, Option<Thrown>))
    requires n <= |refs|
    ensures db.Valid() ==> r.0.Valid()
  {
    if n == 0 then (db, None)
    else
      var prev := RemoveAnswers(db, refs, n - 1);
      if prev.1.Some? then prev else RemoveOne(prev.0, refs[n - 1])
  }

  /** Once a turn has thrown, the later entries change nothing. */
  lemma {:induction false} RemoveAnswersStops(db: DB, refs: seq<Option<Id>>, n: nat, m: nat)
    requires n <= m <= |refs| && RemoveAnswers(db, refs, n).1.Some?
    ensures RemoveAnswers(db, refs, m) == RemoveAnswers(db, refs, n)
    decreases m - n
  {
    if n < m {
      RemoveAnswersStops(db, refs, n, m - 1);
      var prev := RemoveAnswers(db, refs, m - 1);
      assert prev.1.Some?;
      assert RemoveAnswers(db, refs, m) == prev;
    }
  }

  /** `DELETE /loans/:id`, as a function of the store: the new store and the response. */
  function RemoveSpec(db: DB, id: Id): (DB, Result<Loan>)
  {
    var (d0, loan) := db.DeleteLoan(id);
    if loan.None? then (d0, Err(RemoveLoanError, NoLoanMessage))
    else
      var refs := loan.value.answers;
      var (d1, e) := RemoveAnswers(d0, refs, |refs|);
      if e.Some? then (d1, Err(RemoveLoanError, ThrownMessage(e.value))) else (d1, Ok(loan.value))
  }

  // ---- what a removal deletes ----

  /** Everything the first `n` answer entries of `refs` stand for in `answers`. */
  function Targets(answers: map<Id, Answer>, refs: seq<Option<Id>>, n: nat): set<Id>
    requires n <= |refs|
  {
    if n == 0 then {} else Targets(answers, refs, n - 1) + TargetsOf(answers, refs[n - 1])
  }

  /** One of the first `n` entries names an existing answer that is `k` or lists `k` in its `sub_answers`. */
  ghost predicate Named(answers: map<Id, Answer>, refs: seq<Option<Id>>, n: nat, k: Id)
    requires n <= |refs|
  {
    exists i :: 0 <= i < n && refs[i].Some? && refs[i].value in answers
      && (k == refs[i].value || k in answers[refs[i].value].subAnswers)
  }

  /** `Targets` holds exactly the named ids. */
  lemma {:induction false} TargetsNamed(answers: map<Id, Answer>, refs: seq<Option<Id>>, n: nat)
    requires n <= |refs|
    ensures forall k :: k in Targets(answers, refs, n) <==> Named(answers, refs, n, k)
  {
    if n > 0 {
      TargetsNamed(answers, refs, n - 1);
      forall k ensures k in Targets(answers, refs, n) <==> Named(answers, refs, n, k) {
        if Named(answers, refs, n, k) {
          var i :| 0 <= i < n && refs[i].Some? && refs[i].value in answers
            && (k == refs[i].value || k in answers[refs[i].value].subAnswers);
          if i < n - 1 {
            assert Named(answers, refs, n - 1, k);
          } else {
            assert k in TargetsOf(answers, refs[n - 1]);
          }
        }
        if k in TargetsOf(answers, refs[n - 1]) {
          assert Named(answers, refs, n, k) by {
            var i := n - 1;
            assert refs[i].Some? && refs[i].value in answers
              && (k == refs[i].value || k in answers[refs[i].value].subAnswers);
          }
        }
        if Named(answers, refs, n - 1, k) {
          var i :| 0 <= i < n - 1 && refs[i].Some? && refs[i].value in answers
            && (k == refs[i].value || k in answers[refs[i].value].subAnswers);
          assert Named(answers, refs, n, k);
        }
      }
    }
  }

  /**
    Entry `i` of `refs` names an answer that still exists when its turn
    comes: it is not null, it exists, and no earlier entry deleted it.
   */
  ghost predicate Reachable(answers: map<Id, Answer>, refs: seq<Option<Id>>, i: nat)
    requires i < |refs|
  {
    refs[i].Some? && refs[i].value in answers && refs[i].value !in Targets(answers, refs, i)
  }

  /** The first of the first `n` entries that is not reachable in its turn, or `n`. */
  ghost function FirstUnreachable(answers: map<Id, Answer>, refs: seq<Option<Id>>, n: nat): (j: nat)
    requires n <= |refs|
    ensures j <= n
    ensures forall i :: 0 <= i < j ==> Reachable(answers, refs, i)
    ensures j < n ==> !Reachable(answers, refs, j)
  {
    if n == 0 then 0
    else
      var j := FirstUnreachable(answers, refs, n - 1);
      if j < n - 1 || !Reachable(answers, refs, n - 1) then j else n
  }

  /**
    What the first `n` turns come to: the answers the entries before the
    first unreachable one stand for are deleted, and the loop throws at that
    entry, reading `_id` of null when it is null and `length` of undefined
    when the answer it names is gone.
   */
  ghost function Outcome(db: DB, refs: seq<Option<Id>>, n: nat): (DB, Option<Thrown>)
    requires n <= |refs|
  {
    var j := FirstUnreachable(db.answers, refs, n);
    (db.(answers := db.answers - Targets(db.answers, refs, j)),
     if j == n then None else if refs[j].None? then Some(NullEntry) else Some(MissingAnswer))
  }

  /** A reachable entry's turn deletes what it stands for. */
  lemma TurnDeletes(db: DB, refs: seq<Option<Id>>, n: nat)
    requires 0 < n <= |refs| && RemoveAnswers(db, refs, n - 1) == Outcome(db, refs, n - 1)
    requires FirstUnreachable(db.answers, refs, n - 1) == n - 1 && Reachable(db.answers, refs, n - 1)
    ensures RemoveAnswers(db, refs, n) == Outcome(db, refs, n)
  {
    var d := db.(answers := db.answers - Targets(db.answers, refs, n - 1));
    var ref := refs[n - 1];
    assert ref.value in d.answers;
    assert TargetsOf(d.answers, ref) == TargetsOf(db.answers, ref);
    assert d.answers - TargetsOf(d.answers, ref) == db.answers - Targets(db.answers, refs, n);
    assert RemoveAnswers(db, refs, n) == RemoveOne(d, ref);
  }

  /** An unreachable entry's turn throws and changes nothing. */
  lemma TurnThrows(db: DB, refs: seq<Option<Id>>, n: nat)
    requires 0 < n <= |refs| && RemoveAnswers(db, refs, n - 1) == Outcome(db, refs, n - 1)
    requires FirstUnreachable(db.answers, refs, n - 1) == n - 1 && !Reachable(db.answers, refs, n - 1)
    ensures RemoveAnswers(db, refs, n) == Outcome(db, refs, n)
  {
    var d := db.(answers := db.answers - Targets(db.answers, refs, n - 1));
    assert RemoveAnswers(db, refs, n) == RemoveOne(d, refs[n - 1]);
  }

  /** After a turn has thrown, a further turn changes nothing. */
  lemma TurnSkipped(db: DB, refs: seq<Option<Id>>, n: nat)
    requires 0 < n <= |refs| && RemoveAnswers(db, refs, n - 1) == Outcome(db, refs, n - 1)
    requires FirstUnreachable(db.answers, refs, n - 1) < n - 1
    ensures RemoveAnswers(db, refs, n) == Outcome(db, refs, n)
  {
  }

  /** The outer loop comes to `Outcome`. */
  lemma {:induction false} RemoveAnswersClosed(db: DB, refs: seq<Option<Id>>, n: nat)
    requires n <= |refs|
    ensures RemoveAnswers(db, refs, n) == Outcome(db, refs, n)
  {
    if n == 0 {
      assert db.answers - {} == db.answers;
    } else {
      RemoveAnswersClosed(db, refs, n - 1);
      if FirstUnreachable(db.answers, refs, n - 1) < n - 1 {
        TurnSkipped(db, refs, n);
      } else if Reachable(db.answers, refs, n - 1) {
        TurnDeletes(db, refs, n);
      } else {
        TurnThrows(db, refs, n);
      }
    }
  }

  /** A removal of a missing loan writes nothing. */
  lemma RemoveMissing(db: DB, id: Id)
    requires id !in db.loans
    ensures RemoveSpec(db, id) == (db, Err(RemoveLoanError, NoLoanMessage))
  {
    assert db.loans - {id} == db.loans;
  }

  /**
    A removal of an existing loan deletes it whatever happens afterwards and
    touches no other collection than the answers. It answers the deleted
    loan exactly when every answer entry is reachable in its turn, and then
    exactly the answers the entries stand for are gone; otherwise the
    answers of the entries before the first unreachable one are gone and the
    error names the property read at that entry.
   */
  lemma RemoveExisting(db: DB, id: Id)
    requires id in db.loans
    ensures var (d, r) := RemoveSpec(db, id);
      var refs := db.loans[id].answers;
      var j := FirstUnreachable(db.answers, refs, |refs|);
      && d == db.(loans := db.loans - {id}, answers := db.answers - Targets(db.answers, refs, j))
      && (r.Ok? <==> forall i :: 0 <= i < |refs| ==> Reachable(db.answers, refs, i))
      && (r.Ok? ==> r.value == db.loans[id])
      && (r.Err? ==> r == Err(RemoveLoanError, if refs[j].None? then NullRead("_id") else UndefinedRead("length")))
  {
    var (d0, loan) := db.DeleteLoan(id);
    RemoveAnswersClosed(d0, loan.value.answers, |loan.value.answers|);
  }

  // ---- the controller ----

  /** The inner loop: deletes each listed sub-answer, found or not. */
  method DeleteSubAnswers(st: Store, subs: seq<Id>)
    requires st.Valid()
    modifies st
    ensures st.Valid() && st.Db() == DeleteAll(old(st.Db()), subs)
  {
    ghost var db := st.Db();
    var j := 0;
    while j < |subs|
      invariant 0 <= j <= |subs| && st.Valid()
      invariant st.Db() == DeleteAll(db, subs[..j])
    {
      assert subs[..j + 1][..j] == subs[..j];
      var _ := st.DeleteAnswer(subs[j]);
      j := j + 1;
    }
    assert subs[..j] == subs;
  }

  /** One turn of the outer loop. */
  method DeleteAnswer(st: Store, ref: Option<Id>) returns (e: Option<Thrown>)
    requires st.Valid()
    modifies st
    ensures st.Valid() && (st.Db(), e) == RemoveOne(old(st.Db()), ref)
  {
    if ref.None? {
      return Some(NullEntry);
    }
    ghost var db := st.Db();
    var answer := st.DeleteAnswer(ref.value);
    if answer.None? {
      assert db.answers - {ref.value} == db.answers;
      return Some(MissingAnswer);
    }
    DeleteSubAnswers(st, answer.value.subAnswers);
    e := None;
  }

  /** The outer loop; returns the TypeError that ends it, if any. */
  method DeleteAnswers(st: Store, refs: seq<Option<Id>>) returns (e: Option<Thrown>)
    requires st.Valid()
    modifies st
    ensures st.Valid() && (st.Db(), e) == RemoveAnswers(old(st.Db()), refs, |refs|)
  {
    ghost var db := st.Db();
    var i := 0;
    while i < |refs|
      invariant 0 <= i <= |refs| && st.Valid()
      invariant (st.Db(), None) == RemoveAnswers(db, refs, i)
    {
      e := DeleteAnswer(st, refs[i]);
      if e.Some? {
        RemoveAnswersStops(db, refs, i + 1, |refs|);
        return;
      }
      i := i + 1;
    }
    e := None;
  }

  method Remove(st: Store, id: Id) returns (r: Result<Loan>)
    requires st.Valid()
    modifies st
    ensures st.Valid() && (st.Db(), r) == RemoveSpec(old(st.Db()), id)
  {
    var loan := st.DeleteLoan(id);
    if loan.None? {
      return Err(RemoveLoanError, NoLoanMessage);
    }
    var e := DeleteAnswers(st, loan.value.answers);
    if e.Some? {
      return Err(RemoveLoanError, ThrownMessage(e.value));
    }
    r := Ok(loan.value);
  }
}
