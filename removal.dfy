/** Unassigning a contact from a department (`remove_account`): the
    ongoing-transaction guards, the deletions and the cleared primary
    department. The view opens no savepoint, so each write stands as soon as
    it is made. */
module Removal {
  import opened Util
  import opened Rows

  const ClosedWin: string := "CLOSED_WIN"
  const CanceledByRequestor: string := "CANCELED_BY_REQUESTOR"

  datatype RemoveError =
    | LinkNotFound        // "Contact not found" (404)
    | BadRequest          // any other exception: "Bad Request" (400)
    | Unauthorized        // "Unauthorized" (400)
    | NotListed           // "Contact is not listed in department" (404)
    | OngoingTransaction  // "The contact is currently ongoing transaction" (400)

  datatype RemoveResult = Removed | RemoveFailed(error: RemoveError)

  /** The rows `remove_account` reads but never writes. */
  datatype Records = Records(
    departments: seq<Department>,
    opportunities: seq<Opportunity>,
    transactionApprovals: seq<TransactionApproval>,
    quotations: seq<Quotation>)

  /** The rows `remove_account` may write. */
  datatype RemovalTables = RemovalTables(
    approvals: seq<ApprovalRow>,
    requestors: seq<RequestorRow>,
    links: seq<AccountContact>)

  /** Neither won, nor canceled by the requestor, nor soft-deleted. */
  predicate IsOpen(o: Opportunity)
  {
    o.stage != ClosedWin && o.stage != CanceledByRequestor && !o.deleted
  }

  /** `account__department__id=id`: the link's account owns that department. */
  predicate OwnsDepartment(departments: seq<Department>, account: int, deptId: int)
  {
    CountWhere(departments, (d: Department) => d.id == deptId && d.account == account) > 0
  }

  function LinkMatcher(departments: seq<Department>, contact: int, deptId: int): AccountContact -> bool
  {
    (l: AccountContact) => l.contact == contact && OwnsDepartment(departments, l.account, deptId)
  }

  function IsRequestorRow(contact: int, deptId: int): RequestorRow -> bool
  {
    (x: RequestorRow) => x.contact == contact && x.department == deptId
  }

  function IsApprovalRow(contact: int, deptId: int): ApprovalRow -> bool
  {
    (x: ApprovalRow) => x.contact == contact && x.department == deptId
  }

  /** Open opportunities the contact raised for the department in the link's account. */
  function OpenRequests(opps: seq<Opportunity>, account: int, contact: int, deptId: int): nat
  {
    CountWhere(opps, (o: Opportunity) =>
      o.account == account && o.contact == contact && o.department == deptId && IsOpen(o))
  }

  /** The approver guard: only the contact's first transaction approval, its
      quotation, and that quotation's opportunity are looked at. */
  predicate ApproverBusy(r: Records, account: int, contact: int, deptId: int)
  {
    var isMine := (ta: TransactionApproval) => ta.user == contact;
    if CountWhere(r.transactionApprovals, isMine) == 0 then false
    else
      var ta := r.transactionApprovals[FirstIndex(r.transactionApprovals, isMine)];
      var isQuote := (q: Quotation) => q.id == ta.quotation;
      if CountWhere(r.quotations, isQuote) == 0 then false
      else
        var q := r.quotations[FirstIndex(r.quotations, isQuote)];
        CountWhere(r.opportunities, (o: Opportunity) =>
          o.account == account && o.id == q.opportunity && o.department == deptId && IsOpen(o)) > 0
  }

  /** `remove_account` step by step. `accessible` is the set of accounts the
      caller's token may manage; `adminFalse` is the token's `isAdmin` being
      literally false. */
  function RemoveSpec(r: Records, t: RemovalTables, contact: int, deptId: int,
                      accessible: set<int>, adminFalse: bool): (RemoveResult, RemovalTables)
  {
    var matches := LinkMatcher(r.departments, contact, deptId);
    var n := CountWhere(t.links, matches);
    if n == 0 then (RemoveFailed(LinkNotFound), t)
    else if n > 1 then (RemoveFailed(BadRequest), t)
    else
      var k := FirstIndex(t.links, matches);
      var acc := t.links[k];
      if acc.account !in accessible || adminFalse then (RemoveFailed(Unauthorized), t)
      else
        var isReq := IsRequestorRow(contact, deptId);
        var isApp := IsApprovalRow(contact, deptId);
        var reqCount := CountWhere(t.requestors, isReq);
        var appCount := CountWhere(t.approvals, isApp);
        if reqCount == 0 && appCount == 0 && acc.department != Some(deptId) then (RemoveFailed(NotListed), t)
        else if reqCount > 0 && OpenRequests(r.opportunities, acc.account, contact, deptId) >= 1 then
          (RemoveFailed(OngoingTransaction), t)
        else
          var requestors' := if reqCount > 0 then Filter(t.requestors, (x: RequestorRow) => !isReq(x)) else t.requestors;
          if appCount > 0 && ApproverBusy(r, acc.account, contact, deptId) then
            (RemoveFailed(OngoingTransaction), t.(requestors := requestors'))
          else if appCount > 1 then
            // `department_approval.get()` finds several rows and raises
            (RemoveFailed(BadRequest), t.(requestors := requestors'))
          else
            var approvals' := if appCount > 0 then Filter(t.approvals, (x: ApprovalRow) => !isApp(x)) else t.approvals;
            (Removed, RemovalTables(approvals', requestors', t.links[k := acc.(department := None)]))
  }

  /** A requestor with an open opportunity for the department is not removed,
      and nothing changes. */
  lemma RemoveRequestorGuard(r: Records, t: RemovalTables, contact: int, deptId: int,
                             accessible: set<int>, adminFalse: bool)
    requires CountWhere(t.links, LinkMatcher(r.departments, contact, deptId)) == 1
    requires t.links[FirstIndex(t.links, LinkMatcher(r.departments, contact, deptId))].account in accessible
    requires !adminFalse
    requires exists x :: x in t.requestors && x.contact == contact && x.department == deptId
    requires exists o :: o in r.opportunities && o.contact == contact && o.department == deptId && IsOpen(o)
                      && o.account == t.links[FirstIndex(t.links, LinkMatcher(r.departments, contact, deptId))].account
    ensures RemoveSpec(r, t, contact, deptId, accessible, adminFalse) == (RemoveFailed(OngoingTransaction), t)
  {
    var acc := t.links[FirstIndex(t.links, LinkMatcher(r.departments, contact, deptId))];
    var x :| x in t.requestors && x.contact == contact && x.department == deptId;
    var o :| o in r.opportunities && o.contact == contact && o.department == deptId && IsOpen(o) && o.account == acc.account;
    var i :| 0 <= i < |t.requestors| && t.requestors[i] == x;
    var j :| 0 <= j < |r.opportunities| && r.opportunities[j] == o;
    CountWherePositive(t.requestors, IsRequestorRow(contact, deptId));
    CountWherePositive(r.opportunities, (o: Opportunity) =>
      o.account == acc.account && o.contact == contact && o.department == deptId && IsOpen(o));
  }

  /** A contact who only approves in the department, and whose first
      transaction approval leads to an open opportunity of the department, is
      not removed, and nothing changes. */
  lemma RemoveApproverGuard(r: Records, t: RemovalTables, contact: int, deptId: int,
                            accessible: set<int>, adminFalse: bool)
    requires CountWhere(t.links, LinkMatcher(r.departments, contact, deptId)) == 1
    requires t.links[FirstIndex(t.links, LinkMatcher(r.departments, contact, deptId))].account in accessible
    requires !adminFalse
    requires !exists x :: x in t.requestors && x.contact == contact && x.department == deptId
    requires exists x :: x in t.approvals && x.contact == contact && x.department == deptId
    requires ApproverBusy(r, t.links[FirstIndex(t.links, LinkMatcher(r.departments, contact, deptId))].account,
                          contact, deptId)
    ensures RemoveSpec(r, t, contact, deptId, accessible, adminFalse) == (RemoveFailed(OngoingTransaction), t)
  {
    CountWherePositive(t.requestors, IsRequestorRow(contact, deptId));
    CountWherePositive(t.approvals, IsApprovalRow(contact, deptId));
    var x :| x in t.approvals && x.contact == contact && x.department == deptId;
    var i :| 0 <= i < |t.approvals| && t.approvals[i] == x;
  }

  /** A removal succeeds exactly when one link matches, the caller may manage
      its account, the contact is listed in the department, neither guard
      finds an ongoing transaction, and at most one approval row exists. */
  lemma RemoveSucceedsIff(r: Records, t: RemovalTables, contact: int, deptId: int,
                          accessible: set<int>, adminFalse: bool)
    ensures RemoveSpec(r, t, contact, deptId, accessible, adminFalse).0 == Removed
        <==> (&& CountWhere(t.links, LinkMatcher(r.departments, contact, deptId)) == 1
              && var acc := t.links[FirstIndex(t.links, LinkMatcher(r.departments, contact, deptId))];
                 var reqCount := CountWhere(t.requestors, IsRequestorRow(contact, deptId));
                 var appCount := CountWhere(t.approvals, IsApprovalRow(contact, deptId));
                 && acc.account in accessible && !adminFalse
                 && (reqCount > 0 || appCount > 0 || acc.department == Some(deptId))
                 && !(reqCount > 0 && OpenRequests(r.opportunities, acc.account, contact, deptId) >= 1)
                 && !(appCount > 0 && ApproverBusy(r, acc.account, contact, deptId))
                 && appCount <= 1)
  {
  }

  /** Once every opportunity of the department is won, canceled by the
      requestor or soft-deleted, a listed contact with at most one approval
      row is removed. */
  lemma RemoveSucceedsOnceClosed(r: Records, t: RemovalTables, contact: int, deptId: int, accessible: set<int>)
    requires CountWhere(t.links, LinkMatcher(r.departments, contact, deptId)) == 1
    requires t.links[FirstIndex(t.links, LinkMatcher(r.departments, contact, deptId))].account in accessible
    requires (exists x :: x in t.requestors && x.contact == contact && x.department == deptId)
          || (exists x :: x in t.approvals && x.contact == contact && x.department == deptId)
          || t.links[FirstIndex(t.links, LinkMatcher(r.departments, contact, deptId))].department == Some(deptId)
    requires forall o :: o in r.opportunities && o.department == deptId ==> !IsOpen(o)
    requires CountWhere(t.approvals, IsApprovalRow(contact, deptId)) <= 1
    ensures RemoveSpec(r, t, contact, deptId, accessible, false).0 == Removed
  {
    var acc := t.links[FirstIndex(t.links, LinkMatcher(r.departments, contact, deptId))];
    CountWherePositive(t.requestors, IsRequestorRow(contact, deptId));
    CountWherePositive(t.approvals, IsApprovalRow(contact, deptId));
    CountWherePositive(r.opportunities, (o: Opportunity) =>
      o.account == acc.account && o.contact == contact && o.department == deptId && IsOpen(o));
    var isMine := (ta: TransactionApproval) => ta.user == contact;
    if CountWhere(r.transactionApprovals, isMine) > 0 {
      var ta := r.transactionApprovals[FirstIndex(r.transactionApprovals, isMine)];
      var isQuote := (q: Quotation) => q.id == ta.quotation;
      if CountWhere(r.quotations, isQuote) > 0 {
        var q := r.quotations[FirstIndex(r.quotations, isQuote)];
        CountWherePositive(r.opportunities, (o: Opportunity) =>
          o.account == acc.account && o.id == q.opportunity && o.department == deptId && IsOpen(o));
      }
    }
  }

  /** The records of the example below: contact 7 approves in department 1
      of account 10, its first transaction approval leads to a won
      opportunity and its second to an open one. */
  function SecondRecordExample(): Records
  {
    Records([Department(1, 10, "FIN", "Finance", DEPARTMENT, None, 1)],
            [Opportunity(1000, 10, 3, 1, ClosedWin, false), Opportunity(2000, 10, 3, 1, "OPEN", false)],
            [TransactionApproval(7, 100), TransactionApproval(7, 200)],
            [Quotation(100, 1000), Quotation(200, 2000)])
  }

  lemma SecondRecordNotBusy()
    ensures !ApproverBusy(SecondRecordExample(), 10, 7, 1)
  {
    var r := SecondRecordExample();
    var isMine := (ta: TransactionApproval) => ta.user == 7;
    assert CountWhere(r.transactionApprovals, isMine) > 0 && FirstIndex(r.transactionApprovals, isMine) == 0;
    var isQuote := (q: Quotation) => q.id == 100;
    assert CountWhere(r.quotations, isQuote) > 0 && FirstIndex(r.quotations, isQuote) == 0;
    var isTarget := (o: Opportunity) => o.account == 10 && o.id == 1000 && o.department == 1 && IsOpen(o);
    assert !isTarget(r.opportunities[0]) && !isTarget(r.opportunities[1]);
    assert CountWhere(r.opportunities, isTarget) == 0;
  }

  /** Only the contact's first transaction approval is consulted: an approver
      whose open opportunity is reached through a second approval record is
      removed all the same. */
  lemma SecondApprovalRecordIgnored()
    ensures var r := SecondRecordExample();
      var t := RemovalTables([ApprovalRow(7, 1, 1)], [], [AccountContact(7, 10, Some(1), false)]);
      && IsOpen(r.opportunities[1]) && r.opportunities[1].department == 1
      && r.quotations[1].opportunity == r.opportunities[1].id
      && r.transactionApprovals[1] == TransactionApproval(7, r.quotations[1].id)
      && RemoveSpec(r, t, 7, 1, {10}, false)
         == (Removed, RemovalTables([], [], [AccountContact(7, 10, None, false)]))
  {
    var r := SecondRecordExample();
    var links := [AccountContact(7, 10, Some(1), false)];
    var t := RemovalTables([ApprovalRow(7, 1, 1)], [], links);
    assert OwnsDepartment(r.departments, 10, 1);
    assert CountWhere(links, LinkMatcher(r.departments, 7, 1)) == 1;
    assert FirstIndex(links, LinkMatcher(r.departments, 7, 1)) == 0;
    SecondRecordNotBusy();
    assert CountWhere(t.approvals, IsApprovalRow(7, 1)) == 1;
    assert Filter(t.approvals, (x: ApprovalRow) => !IsApprovalRow(7, 1)(x)) == [];
    assert CountWhere(t.requestors, IsRequestorRow(7, 1)) == 0;
    assert RemoveSpec(r, t, 7, 1, {10}, false).0 == Removed;
    assert RemoveSpec(r, t, 7, 1, {10}, false).1 == RemovalTables([], [], [AccountContact(7, 10, None, false)]);
    assert "OPEN"[0] != ClosedWin[0] && "OPEN"[0] != CanceledByRequestor[0];
  }

  /** After a removal no requestor or approval row links the contact to the
      department, every other row is kept, and only the matched link changes:
      its primary department is cleared. */
  lemma RemoveSucceeded(r: Records, t: RemovalTables, contact: int, deptId: int,
                        accessible: set<int>, adminFalse: bool)
    requires RemoveSpec(r, t, contact, deptId, accessible, adminFalse).0 == Removed
    ensures var t' := RemoveSpec(r, t, contact, deptId, accessible, adminFalse).1;
      && (forall x :: x in t'.requestors <==> x in t.requestors && !(x.contact == contact && x.department == deptId))
      && (forall x :: x in t'.approvals <==> x in t.approvals && !(x.contact == contact && x.department == deptId))
      && |t'.links| == |t.links|
      && exists k :: 0 <= k < |t.links| && t.links[k].contact == contact
           && OwnsDepartment(r.departments, t.links[k].account, deptId)
           && t'.links[k] == t.links[k].(department := None)
           && forall j :: 0 <= j < |t.links| && j != k ==> t'.links[j] == t.links[j]
  {
    var isReq := IsRequestorRow(contact, deptId);
    var isApp := IsApprovalRow(contact, deptId);
    FilterMembers(t.requestors, (x: RequestorRow) => !isReq(x));
    FilterMembers(t.approvals, (x: ApprovalRow) => !isApp(x));
    CountWherePositive(t.requestors, isReq);
    CountWherePositive(t.approvals, isApp);
    var k := FirstIndex(t.links, LinkMatcher(r.departments, contact, deptId));
    assert t.links[k].contact == contact;
  }

  /** When the contact is not both a requestor and an approver of the
      department, a failed removal changes nothing. */
  lemma RemoveFailureChangesNothing(r: Records, t: RemovalTables, contact: int, deptId: int,
                                    accessible: set<int>, adminFalse: bool)
    requires !((exists x :: x in t.requestors && x.contact == contact && x.department == deptId)
               && exists x :: x in t.approvals && x.contact == contact && x.department == deptId)
    requires RemoveSpec(r, t, contact, deptId, accessible, adminFalse).0.RemoveFailed?
    ensures RemoveSpec(r, t, contact, deptId, accessible, adminFalse).1 == t
  {
    CountWherePositive(t.requestors, IsRequestorRow(contact, deptId));
    CountWherePositive(t.approvals, IsApprovalRow(contact, deptId));
  }

  /** Without that, the requestor rows are deleted even though the approver
      guard then refuses the removal. */
  lemma RemoveBothRolesDeletesRequestorFirst(r: Records, t: RemovalTables, contact: int, deptId: int,
                                             accessible: set<int>)
    requires CountWhere(t.links, LinkMatcher(r.departments, contact, deptId)) == 1
    requires t.links[FirstIndex(t.links, LinkMatcher(r.departments, contact, deptId))].account in accessible
    requires CountWhere(t.requestors, IsRequestorRow(contact, deptId)) > 0
    requires CountWhere(t.approvals, IsApprovalRow(contact, deptId)) > 0
    requires OpenRequests(r.opportunities, t.links[FirstIndex(t.links, LinkMatcher(r.departments, contact, deptId))].account,
                          contact, deptId) == 0
    requires ApproverBusy(r, t.links[FirstIndex(t.links, LinkMatcher(r.departments, contact, deptId))].account,
                          contact, deptId)
    ensures var (res, t') := RemoveSpec(r, t, contact, deptId, accessible, false);
      && res == RemoveFailed(OngoingTransaction)
      && t'.approvals == t.approvals && t'.links == t.links
      && t'.requestors != t.requestors
  {
    var isReq := IsRequestorRow(contact, deptId);
    var t' := RemoveSpec(r, t, contact, deptId, accessible, false).1;
    FilterMembers(t.requestors, (x: RequestorRow) => !isReq(x));
    var k := FirstIndex(t.requestors, isReq);
    assert t.requestors[k] !in t'.requestors;
  }

  /** A removal never makes a contact both requestor and approver of a department. */
  lemma RemovePreservesRoles(r: Records, t: RemovalTables, contact: int, deptId: int,
                             accessible: set<int>, adminFalse: bool, e: int)
    requires RolesDisjoint(t.approvals, t.requestors, e)
    ensures var t' := RemoveSpec(r, t, contact, deptId, accessible, adminFalse).1;
      RolesDisjoint(t'.approvals, t'.requestors, e)
  {
    var t' := RemoveSpec(r, t, contact, deptId, accessible, adminFalse).1;
    var isReq := IsRequestorRow(contact, deptId);
    var isApp := IsApprovalRow(contact, deptId);
    FilterMembers(t.requestors, (x: RequestorRow) => !isReq(x));
    FilterMembers(t.approvals, (x: ApprovalRow) => !isApp(x));
    assert forall x :: x in t'.requestors ==> x in t.requestors;
    assert forall x :: x in t'.approvals ==> x in t.approvals;
    assert ApproversOf(t'.approvals, e) <= ApproversOf(t.approvals, e);
    assert RequestorsOf(t'.requestors, e) <= RequestorsOf(t.requestors, e);
  }
}
