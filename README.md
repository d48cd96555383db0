# Department assignment rules, modelled in Dafny

`department.py` is a Django view module. It manages an account's
departments and the contacts attached to them. Most of it is HTTP, ORM and
e-mail plumbing. Its business logic works on three tables:

- approval rows `(contact, department, order)`: a contact approves at one
  approval level of a department;
- requestor rows `(contact, department)`: a contact may raise requests for a
  department;
- account-contact links `(contact, account, department, disabled)`: the
  `department` field is the contact's primary department.

This project models that logic and proves what it guarantees:

- `update_order` remaps the approval levels of a department;
- `department_invite_contact` assigns requestors and approver groups, and
  decides who is invited;
- `remove_account` unassigns a contact;
- `validation`, `structure_json` and the duplicate-code pass of
  `bulk_create` handle department records;
- `get_department_data` lists an account's top-level departments;
- `is_allowed` and `get_account_contact` are the token decisions.

Layout:

| file | module | contents |
|---|---|---|
| `util.dfy` | `Util` | `Option`, `len(filter(...))` as `CountWhere`, `len(set(s))` as `AllDistinct`, queryset filtering and `.first()` |
| `rows.dfy` | `Rows` | the table rows, the approver and requestor contact sets of a department, and the invariant that no contact holds both roles in one department |
| `approval_order.dfy` | `ApprovalOrder` | `update_order`: its checks, the pair-by-pair remapping and the delete-all path |
| `invite.dfy` | `Invite` | `department_invite_contact` and `approver_new_value` |
| `removal.dfy` | `Removal` | `remove_account` |
| `department_fields.dfy` | `DepartmentFields` | `structure_json`, `validation`, and the duplicate pass of `bulk_create` |
| `listing.dfy` | `Listing` | `get_department_data` |
| `access.dfy` | `Access` | `is_allowed` and `get_account_contact` |
| `departments.dfy` | `Departments` | class `Store`, which holds the tables and has the three operations that write them |

Each operation that changes tables is a method of `Store`. `UpdateOrder`
and `RemoveAccount` update the fields step by step, as the view does.
`DepartmentInviteContact` runs its loops on copies of the tables and assigns
them when the call succeeds, which is the commit of the view's savepoint. Each
method's `ensures` clause ties the new
state to a pure function of the old state, such as `CheckOrder`/`ApplyPairs`,
`InviteCorrected` or `RemoveSpec`. The lemmas beside each function state
the properties. Each method also preserves `RolesSeparated`: no contact is
both a requestor and an approver of one department.

The code and its comments disagree in one place. The comment at
department.py:663 says the number of `order` pairs must equal the stored
approval number. The code at department.py:667 only rejects a larger number.
The model follows the code.

Several behaviours of the code are proved as they are:

- A "swap" `[1→2, 2→1]` leaves both levels at 1 (`SwapCollapses`).
- The zero check lets a negative level through (`NegativeLevelPasses`).
- Rows at a level no pair mentions keep that level, even above the new
  approval number (`StaleLevelSurvives`).
- An approver overlap at department.py:829 leaves only the inner loop. A
  later requestor without a link therefore replaces that error with "not
  found" (`OverlapThenMissingLink`).
- The check for duplicates within one group (department.py:876) can never
  fire, because the cross-check at department.py:861 has already refused
  every repeat (`GroupRunOutcome`).
- With approval number 0, `department_invite_contact` skips the approver
  groups at department.py:848 but has already computed their new contacts at
  department.py:794. Those contacts are invited at department.py:910-912
  although no approval row is written for them (`ZeroLevelsIgnoreGroups`).
- `remove_account` opens no savepoint. It deletes a contact's requestor rows
  before it checks the contact's approver transactions. When that check then
  refuses, the requestor rows are already gone
  (`RemoveBothRolesDeletesRequestorFirst`).
- `remove_account`'s approver check looks only at the contact's first
  transaction approval (department.py:1096-1104). An open opportunity reached
  through a later approval record does not stop the removal
  (`SecondApprovalRecordIgnored`).
- `validation` of an item without `accountId` and with a code queries with
  the account `''`. The foreign key cannot convert `''` to an integer, so the
  query raises and the handler at department.py:1586-1590 answers 400 with the
  exception's text. The model counts this as the same verdict as an `int()`
  failure (`ValidationLastFailureWins`).

## Model

| member | source | states |
|---|---|---|
| `ApprovalOrder.CheckOrder` | department.py:664-676 | definition: the four filters and the first refusal among them; its properties are in `CheckOrderOutcome` |
| `ApprovalOrder.DropDepartment` | department.py:678-680 | definition: `approvals_by_department.delete()`; its properties are in `DropDepartmentContents` and `DropDepartmentApprovers` |
| `ApprovalOrder.Relevel` | department.py:682-683 | definition: one row under one pair, moved when it is of the department and at the pair's `old` level |
| `ApprovalOrder.Remap` | department.py:682-683 | definition: one `.filter(order=old).update(order=new)` over the table |
| `ApprovalOrder.ApplyPairs` | department.py:681-683 | definition: the pairs applied one after another; its properties are in `ApplyPairsRowwise` and `ApplyPairsKeepsApprovers` |
| `ApprovalOrder.CheckOrderOutcome` | department.py:664-676 | each of the four refusals and acceptance, stated as an if-and-only-if. The order is: some `old` above the stored approval number; then some `old` or `new` equal to 0; then some `new` above the requested number; then more pairs than the stored number |
| `ApprovalOrder.ZeroRequestedNeedsNegativeTargets` | department.py:664-679 | with requested approval number 0, every pair that passes has a negative `new`. So with non-negative levels only an empty order list reaches the delete |
| `ApprovalOrder.NegativeLevelPasses` | department.py:664-676 | a pair `1 → -1` passes all four checks |
| `ApprovalOrder.DropDepartmentContents` | department.py:678-680 | deleting a department's approvals keeps exactly the rows of other departments |
| `ApprovalOrder.DropDepartmentApprovers` | department.py:678-680 | after the delete the department has no approvers, and every other department keeps its approvers |
| `ApprovalOrder.ApplyPairsRowwise` | department.py:681-683 | the remapping keeps the row count and each row's contact and department. Rows of other departments are untouched. A row of this department ends at `FinalLevel` of its starting level, the pairs applied one after another |
| `ApprovalOrder.ApplyPairsKeepsApprovers` | department.py:681-683 | the remapping leaves every department's set of approvers unchanged |
| `ApprovalOrder.FinalLevelOrigin` | department.py:682-683 | a level ends where it started or at the `new` of some pair |
| `ApprovalOrder.UpdatedLevelsWithinRequested` | department.py:664-683 | after an accepted remapping, every changed level is non-zero and at most the requested approval number |
| `ApprovalOrder.SwapCollapses` | department.py:682-683 | `[a→b, b→a]` sends both `a` and `b` to `a` |
| `ApprovalOrder.SwapScenario` | department.py:682-683 | on a concrete table the swap leaves both approvers at level 1, and another department's row is untouched |
| `ApprovalOrder.StaleLevelSurvives` | department.py:667-683 | lowering the approval number from 3 to 2 with the pair `1→1` is accepted and leaves a row at level 3 |
| `Departments.Store.UpdateOrder` | department.py:659-685 | returns the first failing check. A refusal leaves the table unchanged. Requested 0 deletes the department's rows. Otherwise the nested loop applies the pairs in order. The role invariant is preserved |
| `Invite.FindDepartment` | department.py:779 | the department found has the requested id and account; `None` only when no such department exists |
| `Invite.RequestorRun` | department.py:812-840 | definition: the requestor loop with its inner `break` and per-contact lookup; its properties are in `RequestorRunOutcome` |
| `Invite.CrossRun` | department.py:854-865 | definition: the cross-check over the flattened groups with its early returns; its properties are in `CrossRunOutcome` |
| `Invite.ContactRun` | department.py:888-899 | definition: the per-contact lookup and approval write of one group; its properties are in `ContactRunOutcome` |
| `Invite.GroupRun` | department.py:867-901 | definition: the group loop with its three `break`s and the raising lookup; its properties are in `GroupRunOutcome` |
| `Invite.NotifyTargets` | department.py:793-794 | definition: the new requestors plus `approver_new_value`, as a multiset; its properties are in `InviteNotifications` |
| `Invite.InviteSteps` | department.py:777-936 | definition: the call after the authorization check, returning the response, the tables written and whether they are kept |
| `Invite.InviteAsWritten` | department.py:754-936 | definition: the call as written, keeping the writes on a group-loop `break`; its properties are in `AsWrittenEarlyFailuresChangeNothing` and `AsWrittenEmptyGroupKeepsRequestor` |
| `Invite.InviteCorrected` | department.py:754-936 | definition: the call with every error rolled back; its properties are in `CorrectedFailuresChangeNothing` and the `InviteSuccess*` lemmas |
| `Invite.RequestorRunOutcome` | department.py:812-840 | the requestor loop ends "not found" exactly when some contact has no active link. It ends without error exactly when every contact is linked and none is an approver. Written rows only grow, and on success they are the old rows plus one row per requestor |
| `Invite.OverlapThenMissingLink` | department.py:812-829 | an approver overlap followed by an unlinked contact ends as "not found" |
| `Invite.CrossRunOutcome` | department.py:854-865 | the cross-check passes exactly when no approver is a requestor (existing or new) and no approver appears twice across groups. Each refusal names a witness |
| `Invite.ContactRunOutcome` | department.py:888-899 | per contact, the lookup raises on zero or several links. Otherwise the contact's approval row at the group's order is present afterwards, and only such rows are added |
| `Invite.GroupRunAdded` | department.py:867-901 | on completion of the group loop, every row it added belongs to the department and is a listed contact's row at the order of a group that lists that contact |
| `Invite.GroupRunPresent` | department.py:867-901 | on completion of the group loop, no earlier row is lost and each listed contact's row at its group's order is present |
| `Invite.GroupRunOutcome` | department.py:867-901 | the group loop completes exactly when every group is non-empty, free of repeats and has its order in [1, approval number], and every contact has exactly one link. On completion each listed contact's row at its group's order is present, and every added row is a listed contact's row at the order of a group that lists it. Stopping and raising are also characterised. With no repeats across groups, the in-group duplicate check never fires |
| `Invite.ApproverNewValue` | department.py:939-950 | a contact is new exactly when it is in some group and not a current approver |
| `Invite.ApproverNewValues` | department.py:939-950 | the concatenating loop computes `ApproverNewValue` |
| `Invite.RequestorPass` | department.py:811-840 | the requestor loop computes `RequestorRun` |
| `Invite.ApproverCrossCheck` | department.py:854-865 | the nested cross-check loop computes `CrossRun` over the flattened groups |
| `Invite.GroupPass` | department.py:867-901 | the nested group loop computes `GroupRun` |
| `Invite.InviteRequestorChecks` | department.py:779-844 | checked in this order: missing department, repeated requestor, more than 20, fewer than 1, unlinked contact, contact already an approver. Each ends with both tables unchanged |
| `Invite.InviteSuccessRequestors` | department.py:797-840 | a success had 1 to 20 distinct requestors, each with an active link and none an approver. Afterwards the requestor table is the old one plus exactly these requestors' rows |
| `Invite.InviteSuccessApprovers` | department.py:848-901 | a success with approval number 0 leaves the approvals untouched. Otherwise it had one group per level, each non-empty and in range; no approver repeated or a requestor; each approver with one link. Each approver's row at its group's order is present, and every added row is an approver's row at the order of a group that lists it |
| `Invite.InviteAcceptsValid` | department.py:777-914 | the converse of the success lemmas. A request that passes every check is accepted, and invitations go to the new requestors and new approvers. The checks: 1 to 20 distinct requestors, each linked and none an approver; with approval levels, one group per level, each non-empty and in range, no approver repeated or a requestor, each with one link. The corrected call gives the same response |
| `Invite.ZeroLevelsIgnoreGroups` | department.py:794-914 | with approval number 0 the groups are neither validated nor written. Calls differing only in their groups get the same tables, the same error, and both succeed or both fail. On success the groups' new contacts are still invited |
| `Invite.InvitePreservesRoles` | department.py:826-865 | after a success the department has no contact in both roles, and all other departments keep their approvers and requestors |
| `Invite.InviteNotifications` | department.py:793-794 | those invited are exactly the new requestors and the new approvers. With approval levels, nobody is invited twice |
| `Invite.AsWrittenEarlyFailuresChangeNothing` | department.py:842-865 | as written, every failure except the empty-group and order-range ones leaves both tables unchanged |
| `Invite.AsWrittenEmptyGroupKeepsRequestor` | department.py:871-874 | as written, a valid requestor with an empty approver group gets the empty-group error while its requestor row stays written |
| `Invite.CorrectedFailuresChangeNothing` | department.py:917-934 | with the rollback on every error, each call has the same response as written. A failure leaves both tables unchanged, and a success writes the same tables |
| `Invite.CorrectedEmptyGroupWritesNothing` | department.py:871-874 | the corrected call on the empty-group input writes nothing |
| `Departments.Store.DepartmentInviteContact` | department.py:754-936 | the method's response and its new tables are those of `InviteCorrected` (rollback on every error), and the role invariant is preserved |
| `Removal.OpenRequests` | department.py:1080-1083 | definition: the count of the contact's opportunities of the department that are not won, canceled by the requestor or deleted |
| `Removal.ApproverBusy` | department.py:1096-1104 | definition: the first transaction approval of the contact, its quotation, and whether that quotation's opportunity of the department is open |
| `Removal.RemoveSpec` | department.py:1058-1122 | definition: `remove_account` step by step, returning the response and the written tables; its properties are in the lemmas below |
| `Removal.RemoveSucceedsIff` | department.py:1062-1117 | a removal succeeds exactly when one link matches, the caller may manage its account and is not a non-admin, the contact is listed, neither guard finds an ongoing transaction, and there is at most one approval row |
| `Removal.RemoveSucceedsOnceClosed` | department.py:1078-1117 | once every opportunity of the department is won, canceled by the requestor or soft-deleted, a listed contact with at most one approval row is removed |
| `Removal.RemoveApproverGuard` | department.py:1094-1104 | a contact who only approves, whose first transaction approval leads to an open opportunity of the department, is refused as "ongoing transaction", and nothing changes |
| `Removal.SecondApprovalRecordIgnored` | department.py:1096-1104 | a contact whose second transaction approval leads to an open opportunity of the department, and whose first leads to a won one, is removed |
| `Removal.RemoveRequestorGuard` | department.py:1078-1086 | a requestor with an open opportunity for the department is refused as "ongoing transaction", and nothing changes |
| `Removal.RemoveSucceeded` | department.py:1073-1117 | after a removal no requestor or approval row ties the contact to the department, all other rows stay, and only the matched link changes: its primary department is cleared |
| `Removal.RemoveFailureChangesNothing` | department.py:1058-1122 | a refused removal of a contact who does not hold both roles changes nothing |
| `Removal.RemoveBothRolesDeletesRequestorFirst` | department.py:1078-1104 | for a contact in both roles whose approver transaction is open: refused, approvals and links unchanged, requestor rows deleted |
| `Removal.RemovePreservesRoles` | department.py:1073-1115 | a removal never makes a contact both requestor and approver of a department |
| `Departments.Store.RemoveAccount` | department.py:1058-1122 | the method's response and new tables are those of `RemoveSpec`, and the role invariant is preserved |
| `Access.IsAllowed` | department.py:147-162 | access is granted to any foreign-issuer token. Otherwise it is granted exactly to an administrator whose token account (`childId`, else `accountId`) is the account asked for |
| `Access.GetAccountContact` | department.py:549-565 | an error carries nothing else. "You are not allowed" comes exactly from an own-issuer token of another account. "Contact not found" comes exactly from a plain user of the account without a non-zero contact id. Only such a plain user gets their contact back |
| `Access.AllowedImpliesNoError` | department.py:549-565 | a token `is_allowed` accepts is never refused by `get_account_contact` and gets no contact back |
| `DepartmentFields.Upper` | department.py:1314 | same length, no lower-case ASCII letter left, other characters kept, and lower-case letters mapped to their capitals |
| `DepartmentFields.UpperIdempotent` | department.py:1314 | upper-casing twice equals upper-casing once |
| `DepartmentFields.UpperIgnoresCase` | department.py:1314 | codes differing only in letter case get the same stored code |
| `DepartmentFields.StructureJson` | department.py:1311-1324 | the code is the upper-cased item code (empty when absent), so it keeps its length and has no lower-case letter. The name is copied (empty when absent), the type is always a top-level department, the other fields are copied, and the budget is present exactly when the item has one |
| `DepartmentFields.Validation` | department.py:1552-1590 | definition: the three checks in order, each failure replacing the verdict before it, and an exception ending the call; its properties are in `ValidationLastFailureWins` |
| `DepartmentFields.ValidationLastFailureWins` | department.py:1552-1590 | each verdict as an if-and-only-if. An exception overrides all: a code query without an account, or a limit `int()` cannot read. Then the budget check overrides the limit order, and the limit order overrides a taken code |
| `DepartmentFields.ValidationIgnoresSelf` | department.py:1560-1565 | on update the department's own code is not a conflict, and the same data without `pk` is a conflict |
| `DepartmentFields.DuplicateCheck` | department.py:1597-1620 | definition: `max` of the counts, then one entry per item; its properties are in `DuplicateCheckOutcome` and `DuplicateEntries` |
| `DepartmentFields.DuplicateCheckOutcome` | department.py:1597-1603 | an empty batch fails at `max`. A report is produced exactly when two items share a code |
| `DepartmentFields.DuplicateEntries` | department.py:1604-1620 | the report has one entry per item in input order. An entry is 400 with the prefixed code exactly when another item has the same code, otherwise 200 with the code |
| `DepartmentFields.DuplicateReport` | department.py:1597-1620 | the report loop computes `DuplicateCheck` |
| `Listing.RootOf` | department.py:2020-2037 | definition: the row itself, its parent or its grandparent by type, `None` for a missing parent |
| `Listing.Collect` | department.py:2019-2037 | definition: the loop over the query, skipping a root already in `dept_list` |
| `Listing.DepartmentData` | department.py:2013-2038 | definition: `Collect` from an empty `dept_list` over the account's rows |
| `Listing.FirstYield` | department.py:2019-2037 | the position of the first selected row whose root has a given id: every earlier row yields another id or none |
| `Listing.CollectOrder` | department.py:2019-2037 | the values added come in the order their ids are first reached, each the root of the row that first reaches it, as a `dict` keeps insertion order and `continue` keeps the first value |
| `Listing.CollectOutcome` | department.py:2019-2037 | the loop fails exactly when a selected row's parent chain is missing. Otherwise it extends what it had, ids stay distinct, only roots of selected rows are added, and every selected row's root id is listed |
| `Listing.DepartmentDataOutcome` | department.py:2013-2038 | for the whole query from an empty dictionary: failure exactly on a missing parent; otherwise distinct ids, only roots of selected rows, every selected row's root listed, and the values in first-reached order, each the root of the first row that reaches it |
| `Listing.GetDepartmentData` | department.py:2013-2038 | the loop over the query, with its key set, computes `DepartmentData` |

## Left out

- HTTP request parsing, response envelopes, decorators, pagination and
  e-mail sending are left out. A response is its error kind or verdict; the
  message strings are kept as comments or constants.
- JWT decoding, `check_access_account`, `check_account_for_IDOR` and
  `nonstrict` are not part of this model. Their results are parameters:
  `accessible` and `adminFalse` in `RemoveAccount`, and a decoded `Token`.
- Access.GetAccountContact: its only caller (department.py:514) passes the
  `accountId` query parameter, which is text or `None`. Line 555 compares it
  with `!=` to the token's `childId` or `accountId` claim, and the other views
  compare those claims with serializer values. If the claims are integers, a
  query string never equals them, and every own-issuer token gets "You are not
  allowed". The model treats the argument and the claims as integers of one
  type, so it does not capture that mismatch. The types of the decoded claims
  are not visible in this module.
- The authorization check at the top of `department_invite_contact`
  (department.py:765-769) is left out, because it rests on
  `check_access_account`.
- Serializer validation (`is_valid`) is not visible and is assumed to pass.
- Invite.UpsertApproval, Invite.UpsertRequestor: the serializer's
  `update_or_create` is not visible. The model inserts the exact
  `(contact, department, order)` row when it is absent. A contact re-listed at
  another level therefore keeps its old approval row next to the new one. An
  upsert keyed on `(contact, department)` would move the row instead, and
  `department_approval.get()` in `remove_account` would then see one row. The
  clauses of `ContactRunOutcome`, `GroupRunOutcome` and
  `InviteSuccessApprovers` that say the old rows are kept rest on this
  choice.
- Log activity, `log.error`, budget history and invitation sending are left
  out as side effects. Invitations are modelled as the multiset of
  contacts they go to.
- Savepoints are modelled as committing or discarding a copy of the tables.
  Concurrency and database ordering are left out: query results come in
  table order.
- `approvalNumber` is an integer. A string `"0"` differs from `0` at
  department.py:679 and would take the remapping branch; strings are not
  modelled.
- Request items missing keys or holding ill-typed values are left out:
  - a group dictionary without `contactId`. The cross-check reads
    `cont['contactId']` at department.py:855-856 before the
    `len(cont) != 0` test at department.py:869. Such a group raises
    `KeyError` there, and department.py:931-934 roll the call back as a
    400. So the test at 869 never skips a group;
  - a missing `approver` key, on which `approver_new_value` returns `[]`;
  - non-string codes in `bulk_create`.
- `DepartmentFields.Validation` models each limit as an integer, or as
  "unreadable" when `int()` fails. It models the account as an integer, or as
  absent (the default `''`), which makes a code query raise. An account held
  as other text, the message of the exception, and the raw comparisons with a
  budget of another type are not modelled. That an `''` account raises rests
  on Django's conversion of foreign-key lookups, not on this module's code.
- `DepartmentFields.Upper` covers ASCII letters only. Full Unicode case
  mapping is not modelled.
- `bulk_create` after its duplicate pass (account lookup, saving, budgets) is
  left out as database work.
- `Listing.GetDepartmentData` looks parents up by id in the department table.
  A missing parent is the `AttributeError` of the code, shown as `None`.
- `restructure_json`, the annotated list queries and the other views are
  left out as display and query-engine work.

## Findings

| source | as written | input that shows it | evidently intended | confidence | as-written member | corrected member |
|---|---|---|---|---|---|---|
| department.py:871-886 | the empty-group and order-range errors set `error` and `break`, then fall through to `return res` without `savepoint_rollback`. The requestor rows and earlier approver rows written in the same call stay | department 1 (account 10, approval number 1), active link of contact 5, requestors `[5]`, groups `[{contactId: [], order: 1}]`: the call answers "Minimum approval contact is 1" yet writes requestor row (5, 1) | every error path rolls back, as department.py:842-844, 850, 859, 862 and 917-934 do | medium, not executed | `Invite.AsWrittenEmptyGroupKeepsRequestor` | `Invite.CorrectedFailuresChangeNothing` |
