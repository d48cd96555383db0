/** The records of the department tables that the view module reads and
    writes. Identifiers are the integer primary keys of the rows they name. */
module Rows {
  import opened Util

  /** A contact that approves requests of a department at one approval level. */
  datatype ApprovalRow = ApprovalRow(contact: int, department: int, order: int)

  /** A contact that may raise requests for a department. */
  datatype RequestorRow = RequestorRow(contact: int, department: int)

  /** The link between a contact and an account; `department` is the contact's
      primary department inside that account. */
  datatype AccountContact = AccountContact(contact: int, account: int, department: Option<int>, disabled: bool)

  datatype DeptType = DEPARTMENT | UNIT | SUBUNIT

  /** A department, unit or subunit; `parent` is the enclosing department (of
      a unit) or unit (of a subunit). */
  datatype Department = Department(
    id: int,
    account: int,
    code: string,
    name: string,
    kind: DeptType,
    parent: Option<int>,
    approvalNumber: int)

  /** A purchase opportunity raised by a requestor of a department. */
  datatype Opportunity = Opportunity(id: int, account: int, contact: int, department: int, stage: string, deleted: bool)

  /** A pending approval of a quotation by a user (an approver contact). */
  datatype TransactionApproval = TransactionApproval(user: int, quotation: int)

  datatype Quotation = Quotation(id: int, opportunity: int)

  /** The distinct approver contacts of a department. */
  function ApproversOf(rows: seq<ApprovalRow>, dept: int): set<int>
  {
    set r | r in rows && r.department == dept :: r.contact
  }

  /** The distinct requestor contacts of a department. */
  function RequestorsOf(rows: seq<RequestorRow>, dept: int): set<int>
  {
    set r | r in rows && r.department == dept :: r.contact
  }

  /** No contact is both a requestor and an approver of `dept`. */
  ghost predicate RolesDisjoint(approvals: seq<ApprovalRow>, requestors: seq<RequestorRow>, dept: int)
  {
    ApproversOf(approvals, dept) !! RequestorsOf(requestors, dept)
  }

  /** No contact is both a requestor and an approver of any department. */
  ghost predicate RolesSeparated(approvals: seq<ApprovalRow>, requestors: seq<RequestorRow>)
  {
    forall e :: RolesDisjoint(approvals, requestors, e)
  }
}
