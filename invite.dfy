/** Assignment of requestors and approver groups to a department
    (`department_invite_contact`): the requestor checks and upserts, the
    approver cross-check, the per-group checks and upserts, and who is
    notified afterwards. */
module Invite {
  import opened Util
  import opened Rows

  /** One entry of the request's `approver` list: the contacts of one approval level. */
  datatype ApproverGroup = ApproverGroup(contacts: seq<int>, order: int)

  datatype InviteError =
    | DepartmentNotFound   // no department with this id in this account
    | DuplicateRequestor   // "Contact duplicate from your requestor list"
    | TooManyRequestors    // "Maximum requestor email is 20"
    | TooFewRequestors     // "Minimum requestor contact is 1"
    | ContactNotFound      // no (active, for requestors) account-contact link
    | RequestorIsApprover  // "Contact from your requestor list already used as approver"
    | GroupCountMismatch   // group count differs from the department's approval number
    | ApproverIsRequestor  // "Contact from your approver list already used as requestor"
    | DuplicateApprover    // "Contact duplicate from your approver list"
    | EmptyGroup           // "Minimum approval contact is 1"
    | OrderOutOfRange      // group order outside [1, approval number]
    | AmbiguousContact     // more than one account-contact link (the generic exception path)

  /** On success, the multiset of contacts an invitation is sent to. */
  datatype InviteResult = Assigned(notified: multiset<int>) | Failed(error: InviteError)

  const MaxRequestors: int := 20

  /** The account-contact filter of the requestor loop: contact, account and not disabled. */
  predicate HasActiveLink(links: seq<AccountContact>, c: int, account: int)
  {
    CountWhere(links, (l: AccountContact) => l.contact == c && l.account == account && !l.disabled) > 0
  }

  /** How many links `AccountContact.objects.get(contact_id, account_id)` finds (disabled ones included). */
  function LinkCount(links: seq<AccountContact>, c: int, account: int): nat
  {
    CountWhere(links, (l: AccountContact) => l.contact == c && l.account == account)
  }

  function FindDepartment(departments: seq<Department>, id: int, account: int): (r: Option<Department>)
    ensures r.Some? ==> r.value in departments && r.value.id == id && r.value.account == account
    ensures r.None? ==> forall d :: d in departments ==> !(d.id == id && d.account == account)
  {
    if departments == [] then None
    else if departments[0].id == id && departments[0].account == account then Some(departments[0])
    else FindDepartment(departments[1..], id, account)
  }

  // ----- requestors -----

  /** The state of the requestor loop: the response it would return (`res`
      once `error` is set) and the requestor table written so far. */
  datatype RequestorPassState = RequestorPassState(err: Option<InviteError>, rows: seq<RequestorRow>)

  /** `update_or_create` of a requestor row: afterwards the row is present. */
  function UpsertRequestor(rows: seq<RequestorRow>, r: RequestorRow): seq<RequestorRow>
  {
    if r in rows then rows else rows + [r]
  }

  /** The requestor loop. A contact without an active link ends the loop; a
      contact that is already an approver only sets the error and ends the
      inner loop, so later contacts are still looked up and written. */
  function RequestorRun(s: RequestorPassState, req: seq<int>, approvers: set<int>,
                        links: seq<AccountContact>, account: int, dept: int): RequestorPassState
    decreases |req|
  {
    if req == [] || s.err == Some(ContactNotFound) then s
    else
      var c := req[0];
      var next :=
        if !HasActiveLink(links, c, account) then RequestorPassState(Some(ContactNotFound), s.rows)
        else if c in approvers then RequestorPassState(Some(RequestorIsApprover), s.rows)
        else RequestorPassState(s.err, UpsertRequestor(s.rows, RequestorRow(c, dept)));
      RequestorRun(next, req[1..], approvers, links, account, dept)
  }

  /** What the requestor loop ends with: not-found exactly when some contact
      lacks an active link (even after an earlier overlap); no error exactly
      when every contact has one and none is an approver; the table only grows,
      and without an error it holds exactly the old rows plus one row per contact. */
  lemma {:induction false} RequestorRunOutcome(s: RequestorPassState, req: seq<int>, approvers: set<int>,
                                               links: seq<AccountContact>, account: int, dept: int)
    requires s.err == None || s.err == Some(RequestorIsApprover)
    ensures var r := RequestorRun(s, req, approvers, links, account, dept);
      && s.rows <= r.rows
      && (r.err == None || r.err == Some(RequestorIsApprover) || r.err == Some(ContactNotFound))
      && (r.err == Some(ContactNotFound) <==> exists i :: 0 <= i < |req| && !HasActiveLink(links, req[i], account))
      && (r.err == None <==> (s.err == None &&
            forall i :: 0 <= i < |req| ==> HasActiveLink(links, req[i], account) && req[i] !in approvers))
      && (r.err == None ==> forall x :: x in r.rows <==> x in s.rows || (x.department == dept && x.contact in req))
    decreases |req|
  {
    if req != [] {
      var c := req[0];
      var tail := req[1..];
      assert forall i :: 0 < i < |req| ==> req[i] == tail[i - 1];
      assert forall k :: 0 <= k < |tail| ==> tail[k] == req[k + 1];
      assert forall x :: x in req <==> x == c || x in tail by {
        assert req == [c] + tail;
      }
      if !HasActiveLink(links, c, account) {
      } else if c in approvers {
        RequestorRunOutcome(RequestorPassState(Some(RequestorIsApprover), s.rows), tail, approvers, links, account, dept);
      } else {
        var next := RequestorPassState(s.err, UpsertRequestor(s.rows, RequestorRow(c, dept)));
        RequestorRunOutcome(next, tail, approvers, links, account, dept);
      }
    }
  }

  /** An approver among the requestors does not stop the scan: a later
      contact without a link turns the error into not-found. */
  lemma OverlapThenMissingLink(a: int, b: int, account: int, dept: int)
    requires a != b
    ensures RequestorRun(RequestorPassState(None, []), [a, b], {a},
                         [AccountContact(a, account, None, false)], account, dept).err
         == Some(ContactNotFound)
  {
    var links := [AccountContact(a, account, None, false)];
    assert !HasActiveLink(links, b, account) by {
      assert CountWhere(links[1..], (l: AccountContact) => l.contact == b && l.account == account && !l.disabled) == 0;
    }
    RequestorRunOutcome(RequestorPassState(None, []), [a, b], {a}, links, account, dept);
    assert [a, b][1] == b;
  }

  // ----- approvers: cross-check -----

  /** All contacts of all groups, in request order. */
  function Flatten(groups: seq<ApproverGroup>): seq<int>
    decreases |groups|
  {
    if groups == [] then [] else groups[0].contacts + Flatten(groups[1..])
  }

  lemma FlattenAt(groups: seq<ApproverGroup>, g: int)
    requires 0 <= g < |groups|
    ensures Flatten(groups[g..]) == groups[g].contacts + Flatten(groups[g + 1..])
  {
  }

  lemma {:induction false} FlattenMembers(groups: seq<ApproverGroup>)
    ensures forall c :: c in Flatten(groups) <==> exists i :: 0 <= i < |groups| && c in groups[i].contacts
    decreases |groups|
  {
    if groups != [] {
      FlattenMembers(groups[1..]);
      assert Flatten(groups) == groups[0].contacts + Flatten(groups[1..]);
      forall c | c in Flatten(groups) ensures exists i :: 0 <= i < |groups| && c in groups[i].contacts {
        if c !in groups[0].contacts {
          var i :| 0 <= i < |groups[1..]| && c in groups[1..][i].contacts;
          assert groups[i + 1] == groups[1..][i];
        }
      }
      forall c, i | 0 <= i < |groups| && c in groups[i].contacts ensures c in Flatten(groups) {
        if i > 0 {
          assert groups[1..][i - 1] == groups[i];
        }
      }
    }
  }

  /** The cross-check loop over all groups' contacts: each one must not be a
      requestor (existing or just added) and must not have been seen before. */
  function CrossRun(flat: seq<int>, requestors: set<int>, seen: set<int>): Option<InviteError>
    decreases |flat|
  {
    if flat == [] then None
    else if flat[0] in requestors then Some(ApproverIsRequestor)
    else if flat[0] in seen then Some(DuplicateApprover)
    else CrossRun(flat[1..], requestors, seen + {flat[0]})
  }

  lemma {:induction false} CrossRunOutcome(flat: seq<int>, requestors: set<int>, seen: set<int>)
    ensures CrossRun(flat, requestors, seen) == None <==>
      (forall i :: 0 <= i < |flat| ==> flat[i] !in requestors && flat[i] !in seen) && NoDup(flat)
    ensures CrossRun(flat, requestors, seen) == Some(ApproverIsRequestor) ==>
      exists i :: 0 <= i < |flat| && flat[i] in requestors
    ensures CrossRun(flat, requestors, seen) == Some(DuplicateApprover) ==>
      !NoDup(flat) || exists i :: 0 <= i < |flat| && flat[i] in seen
    ensures CrossRun(flat, requestors, seen) in {None, Some(ApproverIsRequestor), Some(DuplicateApprover)}
    decreases |flat|
  {
    if flat != [] {
      var x := flat[0];
      var tail := flat[1..];
      assert forall i :: 0 < i < |flat| ==> flat[i] == tail[i - 1];
      if x !in requestors && x !in seen {
        CrossRunOutcome(tail, requestors, seen + {x});
        if CrossRun(tail, requestors, seen + {x}) == None {
          forall i, j | 0 <= i < j < |flat| ensures flat[i] != flat[j] {
            if i > 0 { assert flat[i] == tail[i - 1] && flat[j] == tail[j - 1]; }
          }
        } else {
          if NoDup(flat) {
            forall i, j | 0 <= i < j < |tail| ensures tail[i] != tail[j] {
              assert tail[i] == flat[i + 1] && tail[j] == flat[j + 1];
            }
            forall i | 0 <= i < |tail| ensures tail[i] != x {
              assert tail[i] == flat[i + 1];
            }
          }
          if CrossRun(tail, requestors, seen + {x}) == Some(DuplicateApprover) && NoDup(flat) {
            var i :| 0 <= i < |tail| && tail[i] in seen + {x};
            assert flat[i + 1] == tail[i];
          }
          if CrossRun(tail, requestors, seen + {x}) == Some(ApproverIsRequestor) {
            var i :| 0 <= i < |tail| && tail[i] in requestors;
            assert flat[i + 1] == tail[i];
          }
        }
      }
    }
  }

  // ----- approvers: per group -----

  /** How the group loop ends: completed, left by `break` with an error
      response (no rollback follows), or left by an exception (rolled back). */
  datatype GroupEnd =
    | Done(rows: seq<ApprovalRow>)
    | Stopped(error: InviteError, rows: seq<ApprovalRow>)
    | Raised(error: InviteError)

  /** `update_or_create` of an approval row: afterwards the row is present. */
  function UpsertApproval(rows: seq<ApprovalRow>, r: ApprovalRow): seq<ApprovalRow>
  {
    if r in rows then rows else rows + [r]
  }

  /** The inner loop over one group's contacts: each needs exactly one
      account-contact link, then its row at the group's order is written. */
  function ContactRun(cs: seq<int>, order: int, links: seq<AccountContact>, account: int, dept: int,
                      rows: seq<ApprovalRow>): GroupEnd
    decreases |cs|
  {
    if cs == [] then Done(rows)
    else
      var n := LinkCount(links, cs[0], account);
      if n == 0 then Raised(ContactNotFound)
      else if n > 1 then Raised(AmbiguousContact)
      else ContactRun(cs[1..], order, links, account, dept, UpsertApproval(rows, ApprovalRow(cs[0], dept, order)))
  }

  /** The outer group loop: emptiness, duplicates and order bounds are checked
      before the group's contacts are written. */
  function GroupRun(groups: seq<ApproverGroup>, approvalNumber: int, links: seq<AccountContact>,
                    account: int, dept: int, rows: seq<ApprovalRow>): GroupEnd
    decreases |groups|
  {
    if groups == [] then Done(rows)
    else
      var g := groups[0];
      if |g.contacts| == 0 then Stopped(EmptyGroup, rows)
      else if !AllDistinct(g.contacts) then Stopped(DuplicateApprover, rows)
      else if approvalNumber < g.order || g.order < 1 then Stopped(OrderOutOfRange, rows)
      else
        match ContactRun(g.contacts, g.order, links, account, dept, rows)
        case Done(next) => GroupRun(groups[1..], approvalNumber, links, account, dept, next)
        case Stopped(e, r) => Stopped(e, r)
        case Raised(e) => Raised(e)
  }

  lemma {:induction false} ContactRunOutcome(cs: seq<int>, order: int, links: seq<AccountContact>, account: int,
                                             dept: int, rows: seq<ApprovalRow>)
    ensures var e := ContactRun(cs, order, links, account, dept, rows);
      && !e.Stopped?
      && (e.Done? <==> forall i :: 0 <= i < |cs| ==> LinkCount(links, cs[i], account) == 1)
      && (e.Raised? ==> e.error == ContactNotFound || e.error == AmbiguousContact)
      && (e.Done? ==> (rows <= e.rows &&
            forall x :: x in e.rows <==> x in rows || (x.department == dept && x.order == order && x.contact in cs)))
    decreases |cs|
  {
    if cs != [] {
      var tail := cs[1..];
      assert forall i :: 0 < i < |cs| ==> cs[i] == tail[i - 1];
      assert forall x :: x in cs <==> x == cs[0] || x in tail by {
        assert cs == [cs[0]] + tail;
      }
      var n := LinkCount(links, cs[0], account);
      if n == 1 {
        ContactRunOutcome(tail, order, links, account, dept, UpsertApproval(rows, ApprovalRow(cs[0], dept, order)));
        assert forall i :: 0 <= i < |tail| ==> tail[i] == cs[i + 1];
      }
    }
  }

  lemma NoDupSplit(a: seq<int>, b: seq<int>)
    requires NoDup(a + b)
    ensures NoDup(a) && NoDup(b)
    ensures forall x :: x in a ==> x !in b
  {
    forall i, j | 0 <= i < j < |a| ensures a[i] != a[j] {
      assert a[i] == (a + b)[i] && a[j] == (a + b)[j];
    }
    forall i, j | 0 <= i < j < |b| ensures b[i] != b[j] {
      assert b[i] == (a + b)[|a| + i] && b[j] == (a + b)[|a| + j];
    }
    forall x | x in a ensures x !in b {
      var i :| 0 <= i < |a| && a[i] == x;
      forall j | 0 <= j < |b| ensures b[j] != x {
        assert (a + b)[i] == a[i] && (a + b)[|a| + j] == b[j];
      }
    }
  }

  /** On completion, every row the group loop added is a listed contact's
      row at the order of a group that lists it. */
  lemma {:induction false} GroupRunAdded(groups: seq<ApproverGroup>, approvalNumber: int, links: seq<AccountContact>,
                                         account: int, dept: int, rows: seq<ApprovalRow>)
    ensures var e := GroupRun(groups, approvalNumber, links, account, dept, rows);
      e.Done? ==> forall x :: x in e.rows ==>
        || x in rows
        || (&& x.department == dept
            && exists i :: 0 <= i < |groups| && x.contact in groups[i].contacts && x.order == groups[i].order)
    decreases |groups|
  {
    if groups != [] {
      var g := groups[0];
      var tail := groups[1..];
      if |g.contacts| > 0 && AllDistinct(g.contacts) && 1 <= g.order <= approvalNumber {
        ContactRunOutcome(g.contacts, g.order, links, account, dept, rows);
        var first := ContactRun(g.contacts, g.order, links, account, dept, rows);
        if first.Done? {
          GroupRunAdded(tail, approvalNumber, links, account, dept, first.rows);
          var e := GroupRun(tail, approvalNumber, links, account, dept, first.rows);
          if e.Done? {
            forall x | x in e.rows && x !in rows
              ensures exists i :: 0 <= i < |groups| && x.contact in groups[i].contacts && x.order == groups[i].order
            {
              if x in first.rows {
                assert x.contact in groups[0].contacts && x.order == groups[0].order;
              } else {
                var j :| 0 <= j < |tail| && x.contact in tail[j].contacts && x.order == tail[j].order;
                assert tail[j] == groups[j + 1];
              }
            }
          }
        }
      }
    }
  }

  /** On completion, every listed contact's row at its group's order is
      present, and no earlier row was lost. */
  lemma {:induction false} GroupRunPresent(groups: seq<ApproverGroup>, approvalNumber: int, links: seq<AccountContact>,
                                           account: int, dept: int, rows: seq<ApprovalRow>)
    ensures var e := GroupRun(groups, approvalNumber, links, account, dept, rows);
      e.Done? ==> (rows <= e.rows
        && forall i, c :: 0 <= i < |groups| && c in groups[i].contacts ==>
             ApprovalRow(c, dept, groups[i].order) in e.rows)
    decreases |groups|
  {
    if groups != [] {
      var g := groups[0];
      var tail := groups[1..];
      if |g.contacts| > 0 && AllDistinct(g.contacts) && 1 <= g.order <= approvalNumber {
        ContactRunOutcome(g.contacts, g.order, links, account, dept, rows);
        var first := ContactRun(g.contacts, g.order, links, account, dept, rows);
        if first.Done? {
          GroupRunPresent(tail, approvalNumber, links, account, dept, first.rows);
          var e := GroupRun(tail, approvalNumber, links, account, dept, first.rows);
          if e.Done? {
            forall i, c | 0 <= i < |groups| && c in groups[i].contacts
              ensures ApprovalRow(c, dept, groups[i].order) in e.rows
            {
              if i == 0 {
                assert ApprovalRow(c, dept, g.order) in first.rows;
              } else {
                assert groups[i] == tail[i - 1];
              }
            }
          }
        }
      }
    }
  }

  /** What the group loop ends with. It completes exactly when every group is
      non-empty, free of repeats and in [1, approvalNumber] and every contact
      has exactly one link; then every contact's row at its group's order is
      present, and every row added is a contact's row at the order of a group
      that lists it. A `break` only comes from the group
      checks; an exception only from the link lookup. When the contacts of all
      groups are free of repeats (what the cross-check establishes), the
      per-group duplicate check never fires. */
  lemma {:induction false} GroupRunOutcome(groups: seq<ApproverGroup>, approvalNumber: int, links: seq<AccountContact>,
                                           account: int, dept: int, rows: seq<ApprovalRow>)
    ensures var e := GroupRun(groups, approvalNumber, links, account, dept, rows);
      && (e.Done? <==>
            (forall i :: 0 <= i < |groups| ==>
               |groups[i].contacts| > 0 && AllDistinct(groups[i].contacts)
               && 1 <= groups[i].order <= approvalNumber)
            && forall c :: c in Flatten(groups) ==> LinkCount(links, c, account) == 1)
      && (e.Done? ==> (rows <= e.rows
            && (forall x :: x in e.rows ==>
                  || x in rows
                  || (&& x.department == dept
                      && exists i :: 0 <= i < |groups| && x.contact in groups[i].contacts && x.order == groups[i].order))
            && forall i, c :: 0 <= i < |groups| && c in groups[i].contacts ==>
                 ApprovalRow(c, dept, groups[i].order) in e.rows))
      && (e.Stopped? ==> rows <= e.rows && e.error in {EmptyGroup, DuplicateApprover, OrderOutOfRange})
      && (e.Raised? ==> e.error == ContactNotFound || e.error == AmbiguousContact)
      && (NoDup(Flatten(groups)) ==> !(e.Stopped? && e.error == DuplicateApprover))
    decreases |groups|
  {
    GroupRunAdded(groups, approvalNumber, links, account, dept, rows);
    GroupRunPresent(groups, approvalNumber, links, account, dept, rows);
    if groups != [] {
      var g := groups[0];
      var tail := groups[1..];
      assert Flatten(groups) == g.contacts + Flatten(tail);
      assert forall i :: 0 < i < |groups| ==> groups[i] == tail[i - 1];
      assert forall c :: c in Flatten(groups) <==> c in g.contacts || c in Flatten(tail);
      if NoDup(Flatten(groups)) {
        NoDupSplit(g.contacts, Flatten(tail));
        AllDistinctIff(g.contacts);
      }
      if |g.contacts| > 0 && AllDistinct(g.contacts) && 1 <= g.order <= approvalNumber {
        ContactRunOutcome(g.contacts, g.order, links, account, dept, rows);
        var first := ContactRun(g.contacts, g.order, links, account, dept, rows);
        if first.Done? {
          GroupRunOutcome(tail, approvalNumber, links, account, dept, first.rows);
          assert forall i :: 0 <= i < |tail| ==> tail[i] == groups[i + 1];
        } else {
          var k :| 0 <= k < |g.contacts| && LinkCount(links, g.contacts[k], account) != 1;
          assert g.contacts[k] in Flatten(groups);
        }
      }
    }
  }

  // ----- notification -----

  /** `approver_new_value`: the approver contacts of the request that are not
      yet approvers of the department. */
  function ApproverNewValue(groups: seq<ApproverGroup>, current: set<int>): (r: set<int>)
    ensures forall c :: c in r <==> c in Flatten(groups) && c !in current
  {
    Elems(Flatten(groups)) - current
  }

  /** The loop of `approver_new_value`: the groups' contact lists
      concatenated, then the set difference. */
  method ApproverNewValues(groups: seq<ApproverGroup>, current: set<int>) returns (r: set<int>)
    ensures r == ApproverNewValue(groups, current)
  {
    var data: seq<int> := [];
    var g := 0;
    while g < |groups|
      invariant 0 <= g <= |groups|
      invariant data + Flatten(groups[g..]) == Flatten(groups)
    {
      FlattenAt(groups, g);
      assert data + Flatten(groups[g..]) == (data + groups[g].contacts) + Flatten(groups[g + 1..]);
      data := data + groups[g].contacts;
      g := g + 1;
    }
    assert groups[g..] == [];
    assert data == Flatten(groups);
    r := Elems(data) - current;
  }

  /** `set_requester_new_value + set_approval_new_value`, the list the
      invitation loop walks: a contact in both parts is invited twice. */
  function NotifyTargets(req: seq<int>, groups: seq<ApproverGroup>, requestors: set<int>, approvers: set<int>): multiset<int>
  {
    multiset(Elems(req) - requestors) + multiset(ApproverNewValue(groups, approvers))
  }

  // ----- the whole call -----

  datatype Tables = Tables(approvals: seq<ApprovalRow>, requestors: seq<RequestorRow>)

  /** The response, the tables as the writes inside the savepoint left them,
      and whether those writes persist (true) or are rolled back (false). */
  datatype InviteRun = InviteRun(result: InviteResult, written: Tables, keep: bool)

  datatype InviteOutcome = InviteOutcome(result: InviteResult, tables: Tables)

  /** The validation and upsert steps of `department_invite_contact`, in the
      code's order. */
  function InviteSteps(departments: seq<Department>, links: seq<AccountContact>, t: Tables, deptId: int,
                       account: int, req: seq<int>, groups: seq<ApproverGroup>): InviteRun
  {
    match FindDepartment(departments, deptId, account)
    case None => InviteRun(Failed(DepartmentNotFound), t, false)
    case Some(d) =>
      var approversExist := ApproversOf(t.approvals, deptId);
      var requestorsExist := RequestorsOf(t.requestors, deptId);
      var notify := NotifyTargets(req, groups, requestorsExist, approversExist);
      if !AllDistinct(req) then InviteRun(Failed(DuplicateRequestor), t, false)
      else if |req| > MaxRequestors then InviteRun(Failed(TooManyRequestors), t, false)
      else if |req| < 1 then InviteRun(Failed(TooFewRequestors), t, false)
      else
        var rq := RequestorRun(RequestorPassState(None, t.requestors), req, approversExist, links, account, deptId);
        if rq.err.Some? then InviteRun(Failed(rq.err.value), t, false)
        else if d.approvalNumber == 0 then InviteRun(Assigned(notify), Tables(t.approvals, rq.rows), true)
        else if d.approvalNumber != |groups| then InviteRun(Failed(GroupCountMismatch), t, false)
        else
          match CrossRun(Flatten(groups), requestorsExist + Elems(req), {})
          case Some(e) => InviteRun(Failed(e), t, false)
          case None =>
            match GroupRun(groups, d.approvalNumber, links, account, deptId, t.approvals)
            case Done(rows) => InviteRun(Assigned(notify), Tables(rows, rq.rows), true)
            case Stopped(e, rows) => InviteRun(Failed(e), Tables(rows, rq.rows), true)
            case Raised(e) => InviteRun(Failed(e), t, false)
  }

  /** The call as the code is written: an error reached by `break` in the
      group loop returns without a rollback, so the writes made up to that
      point persist. */
  function InviteAsWritten(departments: seq<Department>, links: seq<AccountContact>, t: Tables, deptId: int,
                           account: int, req: seq<int>, groups: seq<ApproverGroup>): InviteOutcome
  {
    var run := InviteSteps(departments, links, t, deptId, account, req, groups);
    InviteOutcome(run.result, if run.keep then run.written else t)
  }

  /** The call with the rollback the other error paths perform also done on
      the group-loop errors: only a success writes. */
  function InviteCorrected(departments: seq<Department>, links: seq<AccountContact>, t: Tables, deptId: int,
                           account: int, req: seq<int>, groups: seq<ApproverGroup>): InviteOutcome
  {
    var run := InviteSteps(departments, links, t, deptId, account, req, groups);
    InviteOutcome(run.result, if run.result.Assigned? then run.written else t)
  }

  // ----- the loops -----

  /** The requestor loop, writing to a copy of the requestor table. */
  method RequestorPass(req: seq<int>, approvers: set<int>, links: seq<AccountContact>, account: int, dept: int,
                       rows0: seq<RequestorRow>)
    returns (err: Option<InviteError>, rows: seq<RequestorRow>)
    ensures RequestorPassState(err, rows)
         == RequestorRun(RequestorPassState(None, rows0), req, approvers, links, account, dept)
  {
    err, rows := None, rows0;
    var i := 0;
    while i < |req|
      invariant 0 <= i <= |req|
      invariant err != Some(ContactNotFound)
      invariant RequestorRun(RequestorPassState(None, rows0), req, approvers, links, account, dept)
             == RequestorRun(RequestorPassState(err, rows), req[i..], approvers, links, account, dept)
    {
      var c := req[i];
      assert req[i..][0] == c && req[i..][1..] == req[i + 1..];
      if !HasActiveLink(links, c, account) {
        err := Some(ContactNotFound);
        break;
      }
      if c in approvers {
        err := Some(RequestorIsApprover);
      } else {
        var r := RequestorRow(c, dept);
        if r !in rows {
          rows := rows + [r];
        }
      }
      i := i + 1;
    }
  }

  /** The cross-check over all groups' contacts (`temp_contact_id_approver`). */
  method ApproverCrossCheck(groups: seq<ApproverGroup>, requestors: set<int>) returns (err: Option<InviteError>)
    ensures err == CrossRun(Flatten(groups), requestors, {})
  {
    var seen: set<int> := {};
    var g := 0;
    while g < |groups|
      invariant 0 <= g <= |groups|
      invariant CrossRun(Flatten(groups), requestors, {}) == CrossRun(Flatten(groups[g..]), requestors, seen)
    {
      var cs := groups[g].contacts;
      ghost var rest := Flatten(groups[g + 1..]);
      FlattenAt(groups, g);
      var j := 0;
      while j < |cs|
        invariant 0 <= j <= |cs|
        invariant CrossRun(Flatten(groups), requestors, {}) == CrossRun(cs[j..] + rest, requestors, seen)
      {
        var c := cs[j];
        assert (cs[j..] + rest)[0] == c && (cs[j..] + rest)[1..] == cs[j + 1..] + rest;
        if c in requestors {
          return Some(ApproverIsRequestor);
        }
        if c in seen {
          return Some(DuplicateApprover);
        }
        seen := seen + {c};
        j := j + 1;
      }
      assert cs[j..] + rest == rest;
      g := g + 1;
    }
    assert groups[g..] == [];
    err := None;
  }

  /** The group loop, writing to a copy of the approval table. */
  method GroupPass(groups: seq<ApproverGroup>, approvalNumber: int, links: seq<AccountContact>, account: int,
                   dept: int, rows0: seq<ApprovalRow>) returns (e: GroupEnd)
    ensures e == GroupRun(groups, approvalNumber, links, account, dept, rows0)
  {
    var rows := rows0;
    var g := 0;
    while g < |groups|
      invariant 0 <= g <= |groups|
      invariant GroupRun(groups, approvalNumber, links, account, dept, rows0)
             == GroupRun(groups[g..], approvalNumber, links, account, dept, rows)
    {
      var group := groups[g];
      assert groups[g..][0] == group && groups[g..][1..] == groups[g + 1..];
      var cs := group.contacts;
      if |cs| == 0 {
        return Stopped(EmptyGroup, rows);
      }
      if |cs| != |Elems(cs)| {
        return Stopped(DuplicateApprover, rows);
      }
      if approvalNumber < group.order || group.order < 1 {
        return Stopped(OrderOutOfRange, rows);
      }
      ghost var start := rows;
      var j := 0;
      while j < |cs|
        invariant 0 <= j <= |cs|
        invariant ContactRun(cs, group.order, links, account, dept, start)
               == ContactRun(cs[j..], group.order, links, account, dept, rows)
      {
        assert cs[j..][0] == cs[j] && cs[j..][1..] == cs[j + 1..];
        var n := LinkCount(links, cs[j], account);
        if n == 0 {
          return Raised(ContactNotFound);
        }
        if n > 1 {
          return Raised(AmbiguousContact);
        }
        var r := ApprovalRow(cs[j], dept, group.order);
        if r !in rows {
          rows := rows + [r];
        }
        j := j + 1;
      }
      assert cs[j..] == [];
      g := g + 1;
    }
    assert groups[g..] == [];
    e := Done(rows);
  }

  // ----- properties of the whole call -----

  /** The requestor list is checked for repeats, then for more than 20
      entries, then for fewer than 1, then for contacts without an active link
      to the account, then for contacts that are already approvers; each of
      these failures leaves both tables as they were. */
  lemma InviteRequestorChecks(departments: seq<Department>, links: seq<AccountContact>, t: Tables, deptId: int,
                              account: int, req: seq<int>, groups: seq<ApproverGroup>)
    ensures FindDepartment(departments, deptId, account).None? ==>
      InviteAsWritten(departments, links, t, deptId, account, req, groups) == InviteOutcome(Failed(DepartmentNotFound), t)
    ensures FindDepartment(departments, deptId, account).Some? ==>
      var o := InviteAsWritten(departments, links, t, deptId, account, req, groups);
      && (!NoDup(req) ==> o == InviteOutcome(Failed(DuplicateRequestor), t))
      && (NoDup(req) && |req| > 20 ==> o == InviteOutcome(Failed(TooManyRequestors), t))
      && (NoDup(req) && |req| < 1 ==> o == InviteOutcome(Failed(TooFewRequestors), t))
      && ((NoDup(req) && 1 <= |req| <= 20
            && exists i :: 0 <= i < |req| && !HasActiveLink(links, req[i], account))
          ==> o == InviteOutcome(Failed(ContactNotFound), t))
      && ((NoDup(req) && 1 <= |req| <= 20
            && (forall i :: 0 <= i < |req| ==> HasActiveLink(links, req[i], account))
            && exists i :: 0 <= i < |req| && req[i] in ApproversOf(t.approvals, deptId))
          ==> o == InviteOutcome(Failed(RequestorIsApprover), t))
  {
    AllDistinctIff(req);
    RequestorRunOutcome(RequestorPassState(None, t.requestors), req, ApproversOf(t.approvals, deptId),
                        links, account, deptId);
  }

  /** A successful call validated the requestor list and left the requestor
      table holding exactly the old rows plus one row per listed contact. */
  lemma InviteSuccessRequestors(departments: seq<Department>, links: seq<AccountContact>, t: Tables, deptId: int,
                                account: int, req: seq<int>, groups: seq<ApproverGroup>)
    requires InviteAsWritten(departments, links, t, deptId, account, req, groups).result.Assigned?
    ensures FindDepartment(departments, deptId, account).Some?
    ensures NoDup(req) && 1 <= |req| <= 20
    ensures forall i :: 0 <= i < |req| ==>
      HasActiveLink(links, req[i], account) && req[i] !in ApproversOf(t.approvals, deptId)
    ensures var o := InviteAsWritten(departments, links, t, deptId, account, req, groups);
      && t.requestors <= o.tables.requestors
      && forall x :: x in o.tables.requestors <==>
           x in t.requestors || (x.department == deptId && x.contact in req)
  {
    AllDistinctIff(req);
    RequestorRunOutcome(RequestorPassState(None, t.requestors), req, ApproversOf(t.approvals, deptId),
                        links, account, deptId);
  }

  /** A requestor table holding the old rows plus one row of `dept` per
      listed contact has exactly the old requestors and the listed ones. */
  lemma RequestorsAfterRun(before: seq<RequestorRow>, after: seq<RequestorRow>, req: seq<int>, dept: int)
    requires forall x :: x in after <==> x in before || (x.department == dept && x.contact in req)
    ensures RequestorsOf(after, dept) == RequestorsOf(before, dept) + Elems(req)
  {
    forall c | c in RequestorsOf(after, dept) ensures c in RequestorsOf(before, dept) + Elems(req) {
      var x :| x in after && x.department == dept && x.contact == c;
    }
    forall c | c in RequestorsOf(before, dept) + Elems(req) ensures c in RequestorsOf(after, dept) {
      if c in RequestorsOf(before, dept) {
        var x :| x in before && x.department == dept && x.contact == c;
      } else {
        assert RequestorRow(c, dept) in after;
      }
    }
  }

  /** A successful call with a non-zero approval number received one group
      per level, each non-empty with its order in [1, approval number], no
      approver twice and none among the requestors; every approver's row is
      present afterwards, and every row added is an approver's row at the
      order of a group that lists it. With approval number
      zero the approval table is untouched. */
  lemma InviteSuccessApprovers(departments: seq<Department>, links: seq<AccountContact>, t: Tables, deptId: int,
                               account: int, req: seq<int>, groups: seq<ApproverGroup>)
    requires InviteAsWritten(departments, links, t, deptId, account, req, groups).result.Assigned?
    ensures FindDepartment(departments, deptId, account).Some?
    ensures var d := FindDepartment(departments, deptId, account).value;
      var o := InviteAsWritten(departments, links, t, deptId, account, req, groups);
      && (d.approvalNumber == 0 ==> o.tables.approvals == t.approvals)
      && (d.approvalNumber != 0 ==>
            && |groups| == d.approvalNumber
            && NoDup(Flatten(groups))
            && (forall i :: 0 <= i < |groups| ==>
                  |groups[i].contacts| > 0 && 1 <= groups[i].order <= d.approvalNumber)
            && (forall c :: c in Flatten(groups) ==>
                  c !in RequestorsOf(o.tables.requestors, deptId) && LinkCount(links, c, account) == 1)
            && t.approvals <= o.tables.approvals
            && (forall x :: x in o.tables.approvals ==>
                  || x in t.approvals
                  || (&& x.department == deptId
                      && exists i :: 0 <= i < |groups| && x.contact in groups[i].contacts && x.order == groups[i].order))
            && (forall i, c :: 0 <= i < |groups| && c in groups[i].contacts ==>
                  ApprovalRow(c, deptId, groups[i].order) in o.tables.approvals))
  {
    var d := FindDepartment(departments, deptId, account).value;
    var approversExist := ApproversOf(t.approvals, deptId);
    var requestorsExist := RequestorsOf(t.requestors, deptId);
    var rq := RequestorRun(RequestorPassState(None, t.requestors), req, approversExist, links, account, deptId);
    RequestorRunOutcome(RequestorPassState(None, t.requestors), req, approversExist, links, account, deptId);
    if d.approvalNumber != 0 {
      var flat := Flatten(groups);
      CrossRunOutcome(flat, requestorsExist + Elems(req), {});
      GroupRunOutcome(groups, d.approvalNumber, links, account, deptId, t.approvals);
      RequestorsAfterRun(t.requestors, rq.rows, req, deptId);
      var e := GroupRun(groups, d.approvalNumber, links, account, deptId, t.approvals);
      assert e.Done? && InviteAsWritten(departments, links, t, deptId, account, req, groups).tables == Tables(e.rows, rq.rows);
      forall c | c in flat ensures c !in RequestorsOf(rq.rows, deptId) {
        var i :| 0 <= i < |flat| && flat[i] == c;
      }
    }
  }

  /** Contacts free of repeats across all groups are free of repeats within each group. */
  lemma {:induction false} NoDupGroups(groups: seq<ApproverGroup>)
    requires NoDup(Flatten(groups))
    ensures forall i :: 0 <= i < |groups| ==> AllDistinct(groups[i].contacts)
    decreases |groups|
  {
    if groups != [] {
      NoDupSplit(groups[0].contacts, Flatten(groups[1..]));
      AllDistinctIff(groups[0].contacts);
      NoDupGroups(groups[1..]);
      assert forall i :: 0 < i < |groups| ==> groups[i] == groups[1..][i - 1];
    }
  }

  /** A request that passes every check is accepted, and the invitations go to
      the new requestors and new approvers. The requestor list has 1 to 20
      distinct contacts, each linked and none an approver. With approval levels
      there is one group per level, each non-empty with its order in range, no
      approver repeated or among the requestors, and each approver has exactly
      one link. */
  lemma InviteAcceptsValid(departments: seq<Department>, links: seq<AccountContact>, t: Tables, deptId: int,
                           account: int, req: seq<int>, groups: seq<ApproverGroup>)
    requires FindDepartment(departments, deptId, account).Some?
    requires NoDup(req) && 1 <= |req| <= MaxRequestors
    requires forall i :: 0 <= i < |req| ==>
      HasActiveLink(links, req[i], account) && req[i] !in ApproversOf(t.approvals, deptId)
    requires var n := FindDepartment(departments, deptId, account).value.approvalNumber;
      n != 0 ==>
        && |groups| == n
        && NoDup(Flatten(groups))
        && (forall i :: 0 <= i < |groups| ==> |groups[i].contacts| > 0 && 1 <= groups[i].order <= n)
        && (forall c :: c in Flatten(groups) ==>
              c !in RequestorsOf(t.requestors, deptId) && c !in req && LinkCount(links, c, account) == 1)
    ensures InviteAsWritten(departments, links, t, deptId, account, req, groups).result
         == Assigned(NotifyTargets(req, groups, RequestorsOf(t.requestors, deptId), ApproversOf(t.approvals, deptId)))
    ensures InviteCorrected(departments, links, t, deptId, account, req, groups).result
         == InviteAsWritten(departments, links, t, deptId, account, req, groups).result
  {
    var d := FindDepartment(departments, deptId, account).value;
    AllDistinctIff(req);
    RequestorRunOutcome(RequestorPassState(None, t.requestors), req, ApproversOf(t.approvals, deptId),
                        links, account, deptId);
    if d.approvalNumber != 0 {
      var flat := Flatten(groups);
      var requestors := RequestorsOf(t.requestors, deptId) + Elems(req);
      CrossRunOutcome(flat, requestors, {});
      assert forall i :: 0 <= i < |flat| ==> flat[i] in flat;
      NoDupGroups(groups);
      GroupRunOutcome(groups, d.approvalNumber, links, account, deptId, t.approvals);
    }
  }

  /** With approval number 0 the approver groups are neither validated nor
      written: two calls that differ only in their groups get the same tables
      and the same error, and both succeed or both fail. The groups' new
      contacts are still invited on a success. */
  lemma ZeroLevelsIgnoreGroups(departments: seq<Department>, links: seq<AccountContact>, t: Tables, deptId: int,
                               account: int, req: seq<int>, groups: seq<ApproverGroup>, groups': seq<ApproverGroup>)
    requires FindDepartment(departments, deptId, account).Some?
    requires FindDepartment(departments, deptId, account).value.approvalNumber == 0
    ensures var o := InviteAsWritten(departments, links, t, deptId, account, req, groups);
      var o' := InviteAsWritten(departments, links, t, deptId, account, req, groups');
      && o.tables == o'.tables
      && o.tables.approvals == t.approvals
      && (o.result.Assigned? <==> o'.result.Assigned?)
      && (o.result.Failed? ==> o.result == o'.result)
      && (o.result.Assigned? ==>
            o.result.notified == NotifyTargets(req, groups, RequestorsOf(t.requestors, deptId), ApproversOf(t.approvals, deptId)))
  {
  }

  /** What the requestor and approver checks guarantee together: a successful call keeps a
      department free of contacts that are both requestor and approver, and
      leaves the requestors and approvers of every other department as they were. */
  lemma InvitePreservesRoles(departments: seq<Department>, links: seq<AccountContact>, t: Tables, deptId: int,
                             account: int, req: seq<int>, groups: seq<ApproverGroup>)
    requires RolesDisjoint(t.approvals, t.requestors, deptId)
    requires InviteAsWritten(departments, links, t, deptId, account, req, groups).result.Assigned?
    ensures var o := InviteAsWritten(departments, links, t, deptId, account, req, groups);
      && RolesDisjoint(o.tables.approvals, o.tables.requestors, deptId)
      && forall e :: e != deptId ==>
           ApproversOf(o.tables.approvals, e) == ApproversOf(t.approvals, e)
           && RequestorsOf(o.tables.requestors, e) == RequestorsOf(t.requestors, e)
  {
    var o := InviteAsWritten(departments, links, t, deptId, account, req, groups);
    var d := FindDepartment(departments, deptId, account).value;
    InviteSuccessRequestors(departments, links, t, deptId, account, req, groups);
    InviteSuccessApprovers(departments, links, t, deptId, account, req, groups);
    var newReq := RequestorsOf(o.tables.requestors, deptId);
    var oldApp := ApproversOf(t.approvals, deptId);
    assert newReq == RequestorsOf(t.requestors, deptId) + Elems(req) by {
      forall c | c in newReq ensures c in RequestorsOf(t.requestors, deptId) + Elems(req) {
        var x :| x in o.tables.requestors && x.department == deptId && x.contact == c;
      }
      forall c | c in RequestorsOf(t.requestors, deptId) + Elems(req) ensures c in newReq {
        if c in Elems(req) {
          assert RequestorRow(c, deptId) in o.tables.requestors;
        }
      }
    }
    assert oldApp !! Elems(req) by {
      forall c | c in Elems(req) ensures c !in oldApp {
        var i :| 0 <= i < |req| && req[i] == c;
      }
    }
    FlattenMembers(groups);
    forall c | c in ApproversOf(o.tables.approvals, deptId) ensures c !in newReq {
      var x :| x in o.tables.approvals && x.department == deptId && x.contact == c;
      if x in t.approvals {
        assert c in oldApp;
      } else if d.approvalNumber != 0 {
        var i :| 0 <= i < |groups| && c in groups[i].contacts && x.order == groups[i].order;
        assert c in Flatten(groups);
      }
    }
    forall e | e != deptId
      ensures ApproversOf(o.tables.approvals, e) == ApproversOf(t.approvals, e)
      ensures RequestorsOf(o.tables.requestors, e) == RequestorsOf(t.requestors, e)
    {
      forall c | c in ApproversOf(o.tables.approvals, e) ensures c in ApproversOf(t.approvals, e) {
        var x :| x in o.tables.approvals && x.department == e && x.contact == c;
        if d.approvalNumber != 0 {
          assert x in t.approvals;
        }
      }
      forall c | c in ApproversOf(t.approvals, e) ensures c in ApproversOf(o.tables.approvals, e) {
        var x :| x in t.approvals && x.department == e && x.contact == c;
        if d.approvalNumber != 0 {
          assert x in o.tables.approvals by {
            var k :| 0 <= k < |t.approvals| && t.approvals[k] == x;
            assert o.tables.approvals[k] == x;
          }
        }
      }
      forall c | c in RequestorsOf(o.tables.requestors, e) ensures c in RequestorsOf(t.requestors, e) {
        var x :| x in o.tables.requestors && x.department == e && x.contact == c;
      }
      forall c | c in RequestorsOf(t.requestors, e) ensures c in RequestorsOf(o.tables.requestors, e) {
        var x :| x in t.requestors && x.department == e && x.contact == c;
      }
    }
  }

  /** Invitations go to the listed contacts that were not yet requestors and
      the approver contacts that were not yet approvers; after a successful
      call with approval levels no contact is invited twice. */
  lemma InviteNotifications(departments: seq<Department>, links: seq<AccountContact>, t: Tables, deptId: int,
                            account: int, req: seq<int>, groups: seq<ApproverGroup>)
    requires InviteAsWritten(departments, links, t, deptId, account, req, groups).result.Assigned?
    ensures var n := InviteAsWritten(departments, links, t, deptId, account, req, groups).result.notified;
      && (forall c :: c in n <==>
            (c in req && c !in RequestorsOf(t.requestors, deptId))
            || (c in Flatten(groups) && c !in ApproversOf(t.approvals, deptId)))
      && (FindDepartment(departments, deptId, account).value.approvalNumber != 0 ==> forall c :: n[c] <= 1)
  {
    var n := InviteAsWritten(departments, links, t, deptId, account, req, groups).result.notified;
    var reqPart := Elems(req) - RequestorsOf(t.requestors, deptId);
    var appPart := ApproverNewValue(groups, ApproversOf(t.approvals, deptId));
    assert n == multiset(reqPart) + multiset(appPart);
    var d := FindDepartment(departments, deptId, account).value;
    if d.approvalNumber != 0 {
      InviteSuccessApprovers(departments, links, t, deptId, account, req, groups);
      InviteSuccessRequestors(departments, links, t, deptId, account, req, groups);
      var o := InviteAsWritten(departments, links, t, deptId, account, req, groups);
      forall c | c in req ensures c in RequestorsOf(o.tables.requestors, deptId) {
        assert RequestorRow(c, deptId) in o.tables.requestors;
      }
      assert reqPart !! appPart;
    }
  }

  /** As written, every error except the two of the group loop that end in
      `break` after writes (an empty group, an order out of range) leaves
      both tables as they were; the group loop's own duplicate check cannot
      fire because the cross-check has already refused repeats. */
  lemma AsWrittenEarlyFailuresChangeNothing(departments: seq<Department>, links: seq<AccountContact>, t: Tables,
                                            deptId: int, account: int, req: seq<int>, groups: seq<ApproverGroup>)
    requires InviteAsWritten(departments, links, t, deptId, account, req, groups).result.Failed?
    requires InviteAsWritten(departments, links, t, deptId, account, req, groups).result.error !in {EmptyGroup, OrderOutOfRange}
    ensures InviteAsWritten(departments, links, t, deptId, account, req, groups).tables == t
  {
    match FindDepartment(departments, deptId, account)
    case None =>
    case Some(d) =>
      var requestorsExist := RequestorsOf(t.requestors, deptId);
      if d.approvalNumber != 0 && d.approvalNumber == |groups| {
        CrossRunOutcome(Flatten(groups), requestorsExist + Elems(req), {});
        GroupRunOutcome(groups, d.approvalNumber, links, account, deptId, t.approvals);
      }
  }

  /** The code as written: a valid requestor and an empty approver group
      produce the "Minimum approval contact is 1" error while the requestor
      row written before it stays in the table. */
  lemma AsWrittenEmptyGroupKeepsRequestor()
    ensures InviteAsWritten([Department(1, 10, "D1", "Dept", DEPARTMENT, None, 1)],
                            [AccountContact(5, 10, None, false)], Tables([], []), 1, 10, [5],
                            [ApproverGroup([], 1)])
         == InviteOutcome(Failed(EmptyGroup), Tables([], [RequestorRow(5, 1)]))
  {
    var links := [AccountContact(5, 10, None, false)];
    assert HasActiveLink(links, 5, 10);
    assert AllDistinct([5]) by {
      assert Elems([5]) == {5};
    }
    var rq := RequestorRun(RequestorPassState(None, []), [5], {}, links, 10, 1);
    assert [5][1..] == [];
    assert rq == RequestorPassState(None, [RequestorRow(5, 1)]);
    assert ApproversOf([], 1) == {};
    assert Flatten([ApproverGroup([], 1)]) == [] by {
      assert [ApproverGroup([], 1)][1..] == [];
    }
  }

  /** With the rollback added to the group-loop errors, every failure leaves
      both tables as they were, and every success is the same as before. */
  lemma CorrectedFailuresChangeNothing(departments: seq<Department>, links: seq<AccountContact>, t: Tables,
                                       deptId: int, account: int, req: seq<int>, groups: seq<ApproverGroup>)
    ensures var c := InviteCorrected(departments, links, t, deptId, account, req, groups);
      var w := InviteAsWritten(departments, links, t, deptId, account, req, groups);
      && c.result == w.result
      && (c.result.Failed? ==> c.tables == t)
      && (c.result.Assigned? ==> c.tables == w.tables)
  {
  }

  /** The corrected call on the same input as above reports the same error
      and writes nothing. */
  lemma CorrectedEmptyGroupWritesNothing()
    ensures InviteCorrected([Department(1, 10, "D1", "Dept", DEPARTMENT, None, 1)],
                            [AccountContact(5, 10, None, false)], Tables([], []), 1, 10, [5],
                            [ApproverGroup([], 1)])
         == InviteOutcome(Failed(EmptyGroup), Tables([], []))
  {
    AsWrittenEmptyGroupKeepsRequestor();
    CorrectedFailuresChangeNothing([Department(1, 10, "D1", "Dept", DEPARTMENT, None, 1)],
                                   [AccountContact(5, 10, None, false)], Tables([], []), 1, 10, [5],
                                   [ApproverGroup([], 1)]);
  }
}
