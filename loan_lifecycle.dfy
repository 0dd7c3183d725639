/**
  Creation followed by removal. Creation records a parent answer's children
  in its `sub_questions`, while removal deletes what an answer lists in its
  `sub_answers`, which creation leaves empty: removing a freshly created loan
  deletes the loan and its parent answers and leaves every sub-question
  answer in the store.
 */
module LoanLifecycle {
  import opened Records
  import opened Store
  import opened LoanCreate
  import opened LoanRemove

  /** The parents of a created loan are its only named answers: none lists a sub-answer. */
  lemma CreatedNamed(d: DB, refs: seq<Option<Id>>, n: nat, k: Id)
    requires n <= |refs|
    requires forall i :: 0 <= i < |refs| ==> refs[i].Some? && refs[i].value in d.answers && d.answers[refs[i].value].subAnswers == []
    ensures Named(d.answers, refs, n, k) <==> exists i :: 0 <= i < n && refs[i] == Some(k)
  {
    if Named(d.answers, refs, n, k) {
      var i :| 0 <= i < n && refs[i].Some? && refs[i].value in d.answers
        && (k == refs[i].value || k in d.answers[refs[i].value].subAnswers);
      assert refs[i] == Some(k);
    }
    if exists i :: 0 <= i < n && refs[i] == Some(k) {
      var i :| 0 <= i < n && refs[i] == Some(k);
      assert k == refs[i].value;
    }
  }

  /** The ids the entries of `refs` name. */
  function ParentIds(refs: seq<Option<Id>>): (r: set<Id>)
    ensures forall k :: k in r <==> Some(k) in refs
  {
    set i | 0 <= i < |refs| && refs[i].Some? :: refs[i].value
  }

  /**
    Loan `lid` looks as `create` leaves it: each of its entries names an
    existing answer with no `sub_answers`, whose `sub_questions` are the ids
    just below its own; these blocks of ids lie at or above `lo` and in
    increasing order.
   */
  ghost predicate FreshClone(d: DB, lid: Id, lo: Id)
  {
    && lid in d.loans
    && var refs := d.loans[lid].answers;
    && (forall i :: 0 <= i < |refs| ==>
          && refs[i].Some? && refs[i].value in d.answers
          && var a := d.answers[refs[i].value];
          && a.subAnswers == []
          && lo <= refs[i].value - |a.subQuestions|
          && forall j :: 0 <= j < |a.subQuestions| ==>
               a.subQuestions[j] == refs[i].value - |a.subQuestions| + j && a.subQuestions[j] in d.answers)
    && (forall i, j :: 0 <= i < j < |refs| ==>
          refs[i].value < refs[j].value - |d.answers[refs[j].value].subQuestions|)
  }

  /** Removing such a loan succeeds and deletes exactly the loan and its parent answers. */
  lemma RemoveFreshClone(d: DB, lid: Id, lo: Id)
    requires FreshClone(d, lid, lo)
    ensures RemoveSpec(d, lid)
      == (d.(loans := d.loans - {lid}, answers := d.answers - ParentIds(d.loans[lid].answers)), Ok(d.loans[lid]))
  {
    var refs := d.loans[lid].answers;
    var n := |refs|;
    forall i | 0 <= i < n ensures Reachable(d.answers, refs, i) {
      TargetsNamed(d.answers, refs, i);
      CreatedNamed(d, refs, i, refs[i].value);
    }
    var j := FirstUnreachable(d.answers, refs, n);
    assert j == n;
    RemoveExisting(d, lid);
    TargetsNamed(d.answers, refs, n);
    forall k ensures k in Targets(d.answers, refs, n) <==> k in ParentIds(refs) {
      CreatedNamed(d, refs, n, k);
    }
    assert Targets(d.answers, refs, n) == ParentIds(refs);
  }

  /** No sub-question answer of such a loan, and no id below `lo`, is one of its parents. */
  lemma FreshCloneSpares(d: DB, lid: Id, lo: Id)
    requires FreshClone(d, lid, lo)
    ensures var refs := d.loans[lid].answers;
      && (forall i, j :: 0 <= i < |refs| && 0 <= j < |d.answers[refs[i].value].subQuestions| ==>
            d.answers[refs[i].value].subQuestions[j] !in ParentIds(refs))
      && (forall k :: k < lo ==> k !in ParentIds(refs))
  {
    var refs := d.loans[lid].answers;
    forall i, j | 0 <= i < |refs| && 0 <= j < |d.answers[refs[i].value].subQuestions|
      ensures d.answers[refs[i].value].subQuestions[j] !in ParentIds(refs)
    {
      var s := d.answers[refs[i].value].subQuestions[j];
      forall m | 0 <= m < |refs| ensures refs[m] != Some(s) {
        if m < i {
          assert refs[m].value < refs[i].value - |d.answers[refs[i].value].subQuestions|;
        } else if m > i {
          assert refs[i].value < refs[m].value - |d.answers[refs[m].value].subQuestions|;
        }
      }
    }
    forall k | k < lo ensures k !in ParentIds(refs) {
      forall m | 0 <= m < |refs| ensures refs[m] != Some(k) {
        assert lo <= refs[m].value - |d.answers[refs[m].value].subQuestions|;
      }
    }
  }

  /** The loan a successful `create` returns is a fresh clone above the old id counter. */
  lemma CreateMakesFreshClone(db: DB, cid: Id, user: Id)
    requires db.Valid() && Eligible(db, cid)
    ensures var r := CreateSpec(db, Some(cid), user);
      && r.1.Ok? && r.0.loans == db.loans[r.1.value.0 := r.1.value.1] && r.1.value.0 !in db.loans
      && r.0.answers.Keys >= db.answers.Keys && (forall k :: k in db.answers ==> r.0.answers[k] == db.answers[k])
      && FreshClone(r.0, r.1.value.0, db.next)
  {
    CreateSuccess(db, cid, user);
  }

  /**
    Removing a fresh clone `lid` that `d` holds on top of the loans of `d0`
    takes the loans back to those of `d0`, keeps each of the clone's
    sub-question answers and every answer `d0` had.
   */
  lemma RemoveFreshCloneOf(d0: DB, d: DB, lid: Id)
    requires FreshClone(d, lid, d0.next) && d0.Valid()
    requires lid !in d0.loans && d.loans == d0.loans[lid := d.loans[lid]]
    requires forall k :: k in d0.answers ==> k in d.answers && d.answers[k] == d0.answers[k]
    ensures var loan := d.loans[lid];
      && var r := RemoveSpec(d, lid);
      && r.1 == Ok(loan)
      && r.0.loans == d0.loans
      && r.0.answers == d.answers - ParentIds(loan.answers)
      && (forall i, j ::
            (0 <= i < |loan.answers| && loan.answers[i].Some? && loan.answers[i].value in d.answers
             && 0 <= j < |d.answers[loan.answers[i].value].subQuestions|) ==>
            var s := d.answers[loan.answers[i].value].subQuestions[j];
            s in r.0.answers && r.0.answers[s] == d.answers[s])
      && (forall k :: k in d0.answers ==> k in r.0.answers && r.0.answers[k] == d0.answers[k])
  {
    RemoveFreshClone(d, lid, d0.next);
    FreshCloneSpares(d, lid, d0.next);
    assert d.loans - {lid} == d0.loans;
  }

  /**
    Removing the loan `create` has just made succeeds and takes the loans
    back to what they were; it deletes the parent answers only, so every
    sub-question answer created with them stays, as does every answer that
    existed before.
   */
  lemma CreateThenRemove(db: DB, cid: Id, user: Id)
    requires db.Valid() && Eligible(db, cid)
    ensures var c := CreateSpec(db, Some(cid), user);
      && c.1.Ok?
      && var loan := c.1.value.1;
      && var r := RemoveSpec(c.0, c.1.value.0);
      && r.1 == Ok(loan)
      && r.0.loans == db.loans
      && r.0.answers == c.0.answers - ParentIds(loan.answers)
      && (forall i, j ::
            (0 <= i < |loan.answers| && loan.answers[i].Some? && loan.answers[i].value in c.0.answers
             && 0 <= j < |c.0.answers[loan.answers[i].value].subQuestions|) ==>
            var s := c.0.answers[loan.answers[i].value].subQuestions[j];
            s in r.0.answers && r.0.answers[s] == c.0.answers[s])
      && (forall k :: k in db.answers ==> k in r.0.answers && r.0.answers[k] == db.answers[k])
  {
    CreateMakesFreshClone(db, cid, user);
    var c := CreateSpec(db, Some(cid), user);
    RemoveFreshCloneOf(db, c.0, c.1.value.0);
  }
}
