/** The department tables as one mutable store, and the three operations of
    the view module that write them: `update_order`, the assignment part of
    `department_invite_contact`, and `remove_account`. Each method is proved
    against the pure description of its operation, and each keeps the store
    free of contacts that are both requestor and approver of one department. */
module Departments {
  import opened Util
  import opened Rows
  import opened ApprovalOrder
  import opened Invite
  import opened Removal

  class Store {
    var approvals: seq<ApprovalRow>
    var requestors: seq<RequestorRow>
    var links: seq<AccountContact>
    var departments: seq<Department>
    var opportunities: seq<Opportunity>
    var transactionApprovals: seq<TransactionApproval>
    var quotations: seq<Quotation>

    constructor (approvals: seq<ApprovalRow>, requestors: seq<RequestorRow>, links: seq<AccountContact>,
                 departments: seq<Department>, opportunities: seq<Opportunity>,
                 transactionApprovals: seq<TransactionApproval>, quotations: seq<Quotation>)
      ensures this.approvals == approvals && this.requestors == requestors && this.links == links
      ensures this.departments == departments && this.opportunities == opportunities
      ensures this.transactionApprovals == transactionApprovals && this.quotations == quotations
    {
      this.approvals := approvals;
      this.requestors := requestors;
      this.links := links;
      this.departments := departments;
      this.opportunities := opportunities;
      this.transactionApprovals := transactionApprovals;
      this.quotations := quotations;
    }

    /** `update_order` for department `dept`, whose stored approval number is
        `existing`, with the request's approval number `requested`. A refused
        request changes nothing; an accepted one either deletes the
        department's approvers (requested 0) or remaps their levels pair by
        pair, each pair applied to the table the previous one left. */
    method UpdateOrder(pairs: seq<LevelPair>, existing: int, requested: int, dept: int)
      returns (err: Option<OrderError>)
      modifies this`approvals
      ensures err == CheckOrder(pairs, existing, requested)
      ensures err.Some? ==> approvals == old(approvals)
      ensures err.None? && requested == 0 ==> approvals == DropDepartment(old(approvals), dept)
      ensures err.None? && requested != 0 ==> approvals == ApplyPairs(old(approvals), dept, pairs)
      ensures old(RolesSeparated(approvals, requestors)) ==> RolesSeparated(approvals, requestors)
    {
      err := CheckOrder(pairs, existing, requested);
      if err.Some? {
        return;
      }
      if requested == 0 {
        approvals := DropDepartment(approvals, dept);
        DropDepartmentApprovers(old(approvals), dept);
        if old(RolesSeparated(approvals, requestors)) {
          forall e ensures RolesDisjoint(approvals, requestors, e) {
            assert old(RolesDisjoint(approvals, requestors, e));
          }
        }
        return;
      }
      var i := 0;
      while i < |pairs|
        invariant 0 <= i <= |pairs|
        invariant ApplyPairs(old(approvals), dept, pairs) == ApplyPairs(approvals, dept, pairs[i..])
      {
        var p := pairs[i];
        assert pairs[i..][0] == p && pairs[i..][1..] == pairs[i + 1..];
        ghost var before := approvals;
        var j := 0;
        while j < |approvals|
          invariant 0 <= j <= |approvals| == |before|
          invariant forall k :: 0 <= k < j ==> approvals[k] == Relevel(before[k], dept, p)
          invariant forall k :: j <= k < |approvals| ==> approvals[k] == before[k]
        {
          if approvals[j].department == dept && approvals[j].order == p.oldLevel {
            approvals := approvals[j := approvals[j].(order := p.newLevel)];
          }
          j := j + 1;
        }
        assert approvals == Remap(before, dept, p);
        i := i + 1;
      }
      assert pairs[i..] == [];
      ApplyPairsKeepsApprovers(old(approvals), dept, pairs);
      if old(RolesSeparated(approvals, requestors)) {
        forall e ensures RolesDisjoint(approvals, requestors, e) {
          assert old(RolesDisjoint(approvals, requestors, e));
        }
      }
    }

    /** `department_invite_contact` for department `deptId` of `account`: the
        requestor list `req` and, one per approval level, the approver groups.
        Every failure, the group-loop ones included, rolls the writes back. */
    method DepartmentInviteContact(deptId: int, account: int, req: seq<int>, groups: seq<ApproverGroup>)
      returns (result: InviteResult)
      modifies this`approvals, this`requestors
      ensures InviteOutcome(result, Tables(approvals, requestors))
           == InviteCorrected(departments, links, old(Tables(approvals, requestors)), deptId, account, req, groups)
      ensures old(RolesSeparated(approvals, requestors)) ==> RolesSeparated(approvals, requestors)
    {
      var found := FindDepartment(departments, deptId, account);
      if found.None? {
        return Failed(DepartmentNotFound);
      }
      var d := found.value;
      var approversExist := ApproversOf(approvals, deptId);
      var requestorsExist := RequestorsOf(requestors, deptId);
      var newApprovers := ApproverNewValues(groups, approversExist);
      var notify := multiset(Elems(req) - requestorsExist) + multiset(newApprovers);
      if |req| != |Elems(req)| {
        return Failed(DuplicateRequestor);
      }
      if |req| > MaxRequestors {
        return Failed(TooManyRequestors);
      }
      if |req| < 1 {
        return Failed(TooFewRequestors);
      }
      var err, newRequestors := RequestorPass(req, approversExist, links, account, deptId, requestors);
      if err.Some? {
        return Failed(err.value);
      }
      if d.approvalNumber == 0 {
        requestors := newRequestors;
        result := Assigned(notify);
      } else {
        if d.approvalNumber != |groups| {
          return Failed(GroupCountMismatch);
        }
        var crossErr := ApproverCrossCheck(groups, requestorsExist + Elems(req));
        if crossErr.Some? {
          return Failed(crossErr.value);
        }
        var e := GroupPass(groups, d.approvalNumber, links, account, deptId, approvals);
        match e
        case Done(rows) =>
          approvals, requestors := rows, newRequestors;
          result := Assigned(notify);
        case Stopped(groupErr, _) =>
          result := Failed(groupErr);
        case Raised(groupErr) =>
          result := Failed(groupErr);
      }
      if result.Assigned? && old(RolesSeparated(approvals, requestors)) {
        ghost var t := old(Tables(approvals, requestors));
        InvitePreservesRoles(departments, links, t, deptId, account, req, groups);
        forall e ensures RolesDisjoint(approvals, requestors, e) {
          assert RolesDisjoint(t.approvals, t.requestors, e);
        }
      }
    }

    /** `remove_account` for contact `contact` and department `deptId`.
        `accessible` holds the accounts the caller may manage, and `adminFalse`
        says that the token's `isAdmin` is literally false. Each deletion is
        written as soon as it is made. */
    method RemoveAccount(contact: int, deptId: int, accessible: set<int>, adminFalse: bool)
      returns (res: RemoveResult)
      modifies this`approvals, this`requestors, this`links
      ensures (res, RemovalTables(approvals, requestors, links))
           == RemoveSpec(Records(departments, opportunities, transactionApprovals, quotations),
                         old(RemovalTables(approvals, requestors, links)), contact, deptId, accessible, adminFalse)
      ensures old(RolesSeparated(approvals, requestors)) ==> RolesSeparated(approvals, requestors)
    {
      ghost var r := Records(departments, opportunities, transactionApprovals, quotations);
      ghost var t := RemovalTables(approvals, requestors, links);
      forall e | old(RolesSeparated(approvals, requestors))
        ensures RolesDisjoint(RemoveSpec(r, t, contact, deptId, accessible, adminFalse).1.approvals,
                              RemoveSpec(r, t, contact, deptId, accessible, adminFalse).1.requestors, e)
      {
        assert RolesDisjoint(t.approvals, t.requestors, e);
        RemovePreservesRoles(r, t, contact, deptId, accessible, adminFalse, e);
      }
      var matches := LinkMatcher(departments, contact, deptId);
      var n := CountWhere(links, matches);
      if n == 0 {
        return RemoveFailed(LinkNotFound);
      }
      if n > 1 {
        return RemoveFailed(BadRequest);
      }
      var k := FirstIndex(links, matches);
      var acc := links[k];
      if acc.account !in accessible || adminFalse {
        return RemoveFailed(Unauthorized);
      }
      var isReq := IsRequestorRow(contact, deptId);
      var isApp := IsApprovalRow(contact, deptId);
      var reqCount := CountWhere(requestors, isReq);
      var appCount := CountWhere(approvals, isApp);
      if reqCount == 0 && appCount == 0 && acc.department != Some(deptId) {
        return RemoveFailed(NotListed);
      }
      if reqCount > 0 {
        if OpenRequests(opportunities, acc.account, contact, deptId) >= 1 {
          return RemoveFailed(OngoingTransaction);
        }
        requestors := Filter(requestors, (x: RequestorRow) => !isReq(x));
      }
      if appCount > 0 {
        if ApproverBusy(Records(departments, opportunities, transactionApprovals, quotations), acc.account, contact, deptId) {
          return RemoveFailed(OngoingTransaction);
        }
        if appCount > 1 {
          return RemoveFailed(BadRequest);
        }
        approvals := Filter(approvals, (x: ApprovalRow) => !isApp(x));
      }
      links := links[k := acc.(department := None)];
      res := Removed;
    }
  }
}
