/** `get_department_data`: the top-level departments an account's
    departments, units and subunits belong to, each listed once, in the order
    they are first reached. */
module Listing {
  import opened Util
  import opened Rows

  /** One value of `dept_list`: `deptId` and `deptName`. */
  datatype DeptEntry = DeptEntry(deptId: int, deptName: string)

  /** The row a foreign key points at. */
  function FindById(all: seq<Department>, id: int): (r: Option<Department>)
    ensures r.Some? ==> r.value in all && r.value.id == id
    ensures r.None? ==> forall d :: d in all ==> d.id != id
  {
    if all == [] then None
    else if all[0].id == id then Some(all[0])
    else FindById(all[1..], id)
  }

  function Parent(all: seq<Department>, d: Department): Option<Department>
  {
    if d.parent.None? then None else FindById(all, d.parent.value)
  }

  /** The entry a row contributes: itself for a department, its parent for a
      unit, its grandparent for a subunit. `None` is the `AttributeError` of
      following a missing parent. */
  function RootOf(all: seq<Department>, d: Department): Option<DeptEntry>
  {
    match d.kind
    case DEPARTMENT => Some(DeptEntry(d.id, d.name))
    case UNIT =>
      (match Parent(all, d)
       case None => None
       case Some(p) => Some(DeptEntry(p.id, p.name)))
    case SUBUNIT =>
      (match Parent(all, d)
       case None => None
       case Some(p) =>
         match Parent(all, p)
         case None => None
         case Some(g) => Some(DeptEntry(g.id, g.name)))
  }

  /** The query: the account's rows, restricted to `ids` when that list is not empty. */
  predicate Selected(d: Department, account: int, ids: seq<int>)
  {
    d.account == account && (ids == [] || d.id in ids)
  }

  predicate HasId(entries: seq<DeptEntry>, id: int)
  {
    exists e :: e in entries && e.deptId == id
  }

  ghost predicate DistinctIds(entries: seq<DeptEntry>)
  {
    forall i, j :: 0 <= i < j < |entries| ==> entries[i].deptId != entries[j].deptId
  }

  /** Row `d` is selected and its root has id `id`. */
  predicate Yields(d: Department, all: seq<Department>, account: int, ids: seq<int>, id: int)
  {
    Selected(d, account, ids) && RootOf(all, d).Some? && RootOf(all, d).value.deptId == id
  }

  /** The position of the first row that yields `id`, or `|rows|` when none does. */
  function FirstYield(rows: seq<Department>, all: seq<Department>, account: int, ids: seq<int>, id: int): (k: nat)
    ensures k <= |rows|
    ensures k < |rows| ==> Yields(rows[k], all, account, ids, id)
    ensures forall j :: 0 <= j < k ==> !Yields(rows[j], all, account, ids, id)
  {
    if rows == [] then 0
    else if Yields(rows[0], all, account, ids, id) then 0
    else 1 + FirstYield(rows[1..], all, account, ids, id)
  }

  /** The loop over the remaining `rows`, with `acc` the values listed so far. */
  function Collect(rows: seq<Department>, all: seq<Department>, account: int, ids: seq<int>,
                   acc: seq<DeptEntry>): Option<seq<DeptEntry>>
  {
    if rows == [] then Some(acc)
    else if !Selected(rows[0], account, ids) then Collect(rows[1..], all, account, ids, acc)
    else
      match RootOf(all, rows[0])
      case None => None
      case Some(e) =>
        if HasId(acc, e.deptId) then Collect(rows[1..], all, account, ids, acc)
        else Collect(rows[1..], all, account, ids, acc + [e])
  }

  function DepartmentData(all: seq<Department>, account: int, ids: seq<int>): Option<seq<DeptEntry>>
  {
    Collect(all, all, account, ids, [])
  }

  /** The listing fails exactly when some selected row has a missing parent.
      Otherwise it extends what was listed before, lists each id once, lists
      only roots of selected rows, and lists the root of every selected row. */
  lemma {:induction false} CollectOutcome(rows: seq<Department>, all: seq<Department>, account: int, ids: seq<int>,
                                          acc: seq<DeptEntry>)
    requires DistinctIds(acc)
    ensures Collect(rows, all, account, ids, acc).None?
        <==> exists k :: 0 <= k < |rows| && Selected(rows[k], account, ids) && RootOf(all, rows[k]).None?
    ensures Collect(rows, all, account, ids, acc).Some? ==>
      var out := Collect(rows, all, account, ids, acc).value;
      && acc <= out
      && DistinctIds(out)
      && (forall e :: e in out ==>
            e in acc || exists k :: 0 <= k < |rows| && Selected(rows[k], account, ids) && RootOf(all, rows[k]) == Some(e))
      && (forall k :: 0 <= k < |rows| && Selected(rows[k], account, ids) ==>
            HasId(out, RootOf(all, rows[k]).value.deptId))
  {
    if rows != [] {
      var d := rows[0];
      var tl := rows[1..];
      var next := acc;
      if Selected(d, account, ids) && RootOf(all, d).Some? {
        var e := RootOf(all, d).value;
        if !HasId(acc, e.deptId) {
          next := acc + [e];
          forall i, j | 0 <= i < j < |next| ensures next[i].deptId != next[j].deptId {
            if j == |acc| {
              assert next[i] in acc;
            }
          }
        }
      }
      CollectOutcome(tl, all, account, ids, next);
      forall k | 0 <= k < |tl| ensures tl[k] == rows[k + 1] {}
      if Collect(rows, all, account, ids, acc).None? {
        if !(Selected(d, account, ids) && RootOf(all, d).None?) {
          var k :| 0 <= k < |tl| && Selected(tl[k], account, ids) && RootOf(all, tl[k]).None?;
          assert rows[k + 1] == tl[k];
        }
      } else {
        var out := Collect(rows, all, account, ids, acc).value;
        assert out == Collect(tl, all, account, ids, next).value;
        assert acc <= next;
        forall e | e in out
          ensures e in acc || exists k :: 0 <= k < |rows| && Selected(rows[k], account, ids) && RootOf(all, rows[k]) == Some(e)
        {
          if e !in acc {
            if e in next {
              assert Selected(rows[0], account, ids) && RootOf(all, rows[0]) == Some(e);
            } else {
              var k :| 0 <= k < |tl| && Selected(tl[k], account, ids) && RootOf(all, tl[k]) == Some(e);
              assert rows[k + 1] == tl[k];
            }
          }
        }
        forall k | 0 <= k < |rows| && Selected(rows[k], account, ids)
          ensures HasId(out, RootOf(all, rows[k]).value.deptId)
        {
          if k == 0 {
            var e := RootOf(all, d).value;
            if HasId(acc, e.deptId) {
              var w :| w in acc && w.deptId == e.deptId;
              assert w in out;
            } else {
              assert e in next;
              assert e in out;
            }
          } else {
            assert rows[k] == tl[k - 1];
          }
        }
      }
    }
  }

  /** A row that does not yield `id` moves its first yield one place on. */
  lemma FirstYieldSkip(rows: seq<Department>, all: seq<Department>, account: int, ids: seq<int>, id: int)
    requires rows != [] && !Yields(rows[0], all, account, ids, id)
    ensures FirstYield(rows, all, account, ids, id) == 1 + FirstYield(rows[1..], all, account, ids, id)
  {
  }

  /** The values added after `acc` come in the order in which their ids are
      first yielded, and each is the root of the row that first yields it: a
      later row with the same id neither moves nor replaces it. */
  lemma {:induction false} CollectOrder(rows: seq<Department>, all: seq<Department>, account: int, ids: seq<int>,
                                        acc: seq<DeptEntry>)
    requires DistinctIds(acc)
    ensures Collect(rows, all, account, ids, acc).Some? ==>
      var out := Collect(rows, all, account, ids, acc).value;
      && |acc| <= |out|
      && (forall i :: |acc| <= i < |out| ==>
            && FirstYield(rows, all, account, ids, out[i].deptId) < |rows|
            && RootOf(all, rows[FirstYield(rows, all, account, ids, out[i].deptId)]) == Some(out[i]))
      && (forall i, j :: |acc| <= i < j < |out| ==>
            FirstYield(rows, all, account, ids, out[i].deptId) < FirstYield(rows, all, account, ids, out[j].deptId))
  {
    if rows != [] && Collect(rows, all, account, ids, acc).Some? {
      var d := rows[0];
      var tl := rows[1..];
      var out := Collect(rows, all, account, ids, acc).value;
      CollectOutcome(rows, all, account, ids, acc);
      var next := acc;
      if Selected(d, account, ids) && !HasId(acc, RootOf(all, d).value.deptId) {
        next := acc + [RootOf(all, d).value];
        forall i, j | 0 <= i < j < |next| ensures next[i].deptId != next[j].deptId {
          if j == |acc| {
            assert next[i] in acc;
          }
        }
      }
      assert out == Collect(tl, all, account, ids, next).value;
      CollectOutcome(tl, all, account, ids, next);
      CollectOrder(tl, all, account, ids, next);
      // the ids listed after `next` are not the one row 0 yields
      forall i | |next| <= i < |out|
        ensures FirstYield(rows, all, account, ids, out[i].deptId) == 1 + FirstYield(tl, all, account, ids, out[i].deptId)
      {
        if !Yields(d, all, account, ids, out[i].deptId) {
          FirstYieldSkip(rows, all, account, ids, out[i].deptId);
        }
      }
      if next != acc {
        assert out[|acc|] == next[|acc|];
      }
    }
  }

  /** The same for the whole query, starting from an empty `dept_list`; the
      values come out in insertion order, first-reached root first. */
  lemma DepartmentDataOutcome(all: seq<Department>, account: int, ids: seq<int>)
    ensures DepartmentData(all, account, ids).None?
        <==> exists k :: 0 <= k < |all| && Selected(all[k], account, ids) && RootOf(all, all[k]).None?
    ensures DepartmentData(all, account, ids).Some? ==>
      var out := DepartmentData(all, account, ids).value;
      && DistinctIds(out)
      && (forall e :: e in out ==>
            exists k :: 0 <= k < |all| && Selected(all[k], account, ids) && RootOf(all, all[k]) == Some(e))
      && (forall k :: 0 <= k < |all| && Selected(all[k], account, ids) ==>
            HasId(out, RootOf(all, all[k]).value.deptId))
      && (forall i :: 0 <= i < |out| ==>
            && FirstYield(all, all, account, ids, out[i].deptId) < |all|
            && RootOf(all, all[FirstYield(all, all, account, ids, out[i].deptId)]) == Some(out[i]))
      && (forall i, j :: 0 <= i < j < |out| ==>
            FirstYield(all, all, account, ids, out[i].deptId) < FirstYield(all, all, account, ids, out[j].deptId))
  {
    CollectOutcome(all, all, account, ids, []);
    CollectOrder(all, all, account, ids, []);
  }

  /** The `dict` loop of `get_department_data`, with its key set kept beside
      the values. */
  method GetDepartmentData(all: seq<Department>, account: int, ids: seq<int>) returns (r: Option<seq<DeptEntry>>)
    ensures r == DepartmentData(all, account, ids)
  {
    var values: seq<DeptEntry> := [];
    var keys: set<int> := {};
    var i := 0;
    while i < |all|
      invariant 0 <= i <= |all|
      invariant forall id :: id in keys <==> HasId(values, id)
      invariant DepartmentData(all, account, ids) == Collect(all[i..], all, account, ids, values)
    {
      var d := all[i];
      assert all[i..][0] == d && all[i..][1..] == all[i + 1..];
      if Selected(d, account, ids) {
        var root := RootOf(all, d);
        if root.None? {
          return None;
        }
        var e := root.value;
        if e.deptId !in keys {
          values := values + [e];
          keys := keys + {e.deptId};
        }
      }
      i := i + 1;
    }
    assert all[i..] == [];
    r := Some(values);
  }
}
