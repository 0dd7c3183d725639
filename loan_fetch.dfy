/**
  The two read-only loan endpoints: `fetchOne` behind the VIEW permission,
  and `updateStatus`, which returns before anything else it contains.
 */
module LoanFetch {
  import opened Records
  import opened Store

  const UsePutMessage := "Use PUT /loans/:id"

  /**
    `GET /loans/:id`. Without VIEW the request is refused; a missing loan
    makes the audit message read `title` of null. The audit record itself is
    not modelled.
   */
  method FetchOne(st: Store, id: Id, canView: bool) returns (r: Result<Loan>)
    requires st.Valid()
    ensures r.Ok? <==> canView && id in st.loans
    ensures r.Ok? ==> r.value == st.loans[id]
    ensures !canView ==> r == Err(LoanStatusUpdateError, PermissionMessage)
    ensures canView && id !in st.loans ==> r == Err(LoanRetrievalError, NullRead("title"))
  {
    if !canView {
      return Err(LoanStatusUpdateError, PermissionMessage);
    }
    var loan := Lookup(st.loans, id);
    if loan.None? {
      return Err(LoanRetrievalError, NullRead("title"));
    }
    r := Ok(loan.value);
  }

  /**
    `PUT /loans/:id/status`: it answers with a pointer to the update endpoint
    and touches nothing, whatever the body and the permissions.
   */
  method UpdateStatus(st: Store, body: LoanBody, canApprove: bool) returns (message: string)
    requires st.Valid()
    ensures message == UsePutMessage
  {
    message := UsePutMessage;
  }
}
