/** Remapping of a department's approval levels (`update_order`): the four
    validations, the sequential `old -> new` remapping and the delete-all path. */
module ApprovalOrder {
  import opened Util
  import opened Rows

  /** One `{old, new}` entry of the request's `order` list. */
  datatype LevelPair = LevelPair(oldLevel: int, newLevel: int)

  /** The refusals of `update_order`; each returns the message shown. */
  datatype OrderError =
    | OldLevelTooHigh  // "the old level should not exceed the maximum approval number"
    | ZeroLevel        // "cannot insert 0 value in old and new level"
    | NewLevelTooHigh  // "new level cannot more than approval number inserted"
    | TooManyPairs     // "level length doesn't match with approval number"

  /** The validations of `update_order`, in the order the code tests them.
      `existing` is the department's stored approval number, `requested` the
      approval number of the request. Each count is a `len(filter(...))`. */
  function CheckOrder(pairs: seq<LevelPair>, existing: int, requested: int): Option<OrderError>
  {
    var invalidZero := CountWhere(pairs, (p: LevelPair) => p.oldLevel == 0 || p.newLevel == 0);
    var invalidOld := CountWhere(pairs, (p: LevelPair) => p.oldLevel > existing);
    var newTooHigh := CountWhere(pairs, (p: LevelPair) => p.newLevel > requested);
    var tooMany := |pairs| > existing;
    if invalidOld > 0 then Some(OldLevelTooHigh)
    else if invalidZero > 0 then Some(ZeroLevel)
    else if newTooHigh > 0 then Some(NewLevelTooHigh)
    else if tooMany then Some(TooManyPairs)
    else None
  }

  /** Each check fires exactly when its condition holds and no earlier check fired. */
  lemma CheckOrderOutcome(pairs: seq<LevelPair>, existing: int, requested: int)
    ensures CheckOrder(pairs, existing, requested) == Some(OldLevelTooHigh)
      <==> exists i :: 0 <= i < |pairs| && pairs[i].oldLevel > existing
    ensures CheckOrder(pairs, existing, requested) == Some(ZeroLevel)
      <==> (forall i :: 0 <= i < |pairs| ==> pairs[i].oldLevel <= existing)
           && exists i :: 0 <= i < |pairs| && (pairs[i].oldLevel == 0 || pairs[i].newLevel == 0)
    ensures CheckOrder(pairs, existing, requested) == Some(NewLevelTooHigh)
      <==> (forall i :: 0 <= i < |pairs| ==> pairs[i].oldLevel <= existing && pairs[i].oldLevel != 0 && pairs[i].newLevel != 0)
           && exists i :: 0 <= i < |pairs| && pairs[i].newLevel > requested
    ensures CheckOrder(pairs, existing, requested) == Some(TooManyPairs)
      <==> (forall i :: 0 <= i < |pairs| ==>
              pairs[i].oldLevel <= existing && pairs[i].oldLevel != 0 && pairs[i].newLevel != 0 && pairs[i].newLevel <= requested)
           && |pairs| > existing
    ensures CheckOrder(pairs, existing, requested) == None
      <==> (forall i :: 0 <= i < |pairs| ==>
              pairs[i].oldLevel <= existing && pairs[i].oldLevel != 0 && pairs[i].newLevel != 0 && pairs[i].newLevel <= requested)
           && |pairs| <= existing
  {
    CountWherePositive(pairs, (p: LevelPair) => p.oldLevel == 0 || p.newLevel == 0);
    CountWherePositive(pairs, (p: LevelPair) => p.oldLevel > existing);
    CountWherePositive(pairs, (p: LevelPair) => p.newLevel > requested);
  }

  /** With a requested approval number of 0 (the delete-all path) a pair
      passes only with a negative `new`: 0 is refused and anything above 0
      exceeds the requested number. */
  lemma ZeroRequestedNeedsNegativeTargets(pairs: seq<LevelPair>, existing: int)
    requires CheckOrder(pairs, existing, 0) == None
    ensures forall i :: 0 <= i < |pairs| ==> pairs[i].newLevel < 0
  {
    CheckOrderOutcome(pairs, existing, 0);
  }

  /** The zero check tests `== 0` only: a negative target level passes. */
  lemma NegativeLevelPasses()
    ensures CheckOrder([LevelPair(1, -1)], 2, 2) == None
  {
  }

  /** `.filter(order=old).update(order=new)` applied to one row. */
  function Relevel(r: ApprovalRow, dept: int, p: LevelPair): ApprovalRow
  {
    if r.department == dept && r.order == p.oldLevel then r.(order := p.newLevel) else r
  }

  /** One remapping step over the whole table. */
  function Remap(rows: seq<ApprovalRow>, dept: int, p: LevelPair): (r: seq<ApprovalRow>)
    ensures |r| == |rows|
  {
    seq(|rows|, i requires 0 <= i < |rows| => Relevel(rows[i], dept, p))
  }

  /** The pairs applied one after another, each to the table the previous one left. */
  function ApplyPairs(rows: seq<ApprovalRow>, dept: int, pairs: seq<LevelPair>): seq<ApprovalRow>
    decreases |pairs|
  {
    if pairs == [] then rows else ApplyPairs(Remap(rows, dept, pairs[0]), dept, pairs[1..])
  }

  /** An independent description of the same process for one level: where a
      row that starts at `level` ends up after all the pairs. */
  function FinalLevel(level: int, pairs: seq<LevelPair>): int
    decreases |pairs|
  {
    if pairs == [] then level
    else FinalLevel(if level == pairs[0].oldLevel then pairs[0].newLevel else level, pairs[1..])
  }

  /** `approvals_by_department.delete()`: every row of the department goes. */
  function DropDepartment(rows: seq<ApprovalRow>, dept: int): seq<ApprovalRow>
  {
    if rows == [] then []
    else if rows[0].department == dept then DropDepartment(rows[1..], dept)
    else [rows[0]] + DropDepartment(rows[1..], dept)
  }

  lemma {:induction false} DropDepartmentContents(rows: seq<ApprovalRow>, dept: int)
    ensures forall x :: x in DropDepartment(rows, dept) <==> x in rows && x.department != dept
  {
    if rows != [] {
      DropDepartmentContents(rows[1..], dept);
      assert rows == [rows[0]] + rows[1..];
    }
  }

  /** Remapping works row by row: a row keeps its contact and department, a
      row of another department is untouched, and a row of this department
      moves to `FinalLevel` of its starting level. */
  lemma {:induction false} ApplyPairsRowwise(rows: seq<ApprovalRow>, dept: int, pairs: seq<LevelPair>)
    ensures |ApplyPairs(rows, dept, pairs)| == |rows|
    ensures forall i :: 0 <= i < |rows| ==>
      var r := ApplyPairs(rows, dept, pairs)[i];
      r.contact == rows[i].contact && r.department == rows[i].department
      && r.order == (if rows[i].department == dept then FinalLevel(rows[i].order, pairs) else rows[i].order)
    decreases |pairs|
  {
    if pairs != [] {
      var next := Remap(rows, dept, pairs[0]);
      ApplyPairsRowwise(next, dept, pairs[1..]);
      forall i | 0 <= i < |rows|
        ensures next[i].contact == rows[i].contact && next[i].department == rows[i].department
        ensures rows[i].department == dept ==>
          FinalLevel(next[i].order, pairs[1..]) == FinalLevel(rows[i].order, pairs)
        ensures rows[i].department != dept ==> next[i] == rows[i]
      {
        assert next[i] == Relevel(rows[i], dept, pairs[0]);
      }
    }
  }

  /** Remapping changes levels only: every department keeps the same set of approvers. */
  lemma ApplyPairsKeepsApprovers(rows: seq<ApprovalRow>, dept: int, pairs: seq<LevelPair>)
    ensures forall e :: ApproversOf(ApplyPairs(rows, dept, pairs), e) == ApproversOf(rows, e)
  {
    var out := ApplyPairs(rows, dept, pairs);
    ApplyPairsRowwise(rows, dept, pairs);
    forall e ensures ApproversOf(out, e) == ApproversOf(rows, e) {
      forall c | c in ApproversOf(out, e) ensures c in ApproversOf(rows, e) {
        var r :| r in out && r.department == e && r.contact == c;
        var i :| 0 <= i < |out| && out[i] == r;
        assert rows[i] in rows;
      }
      forall c | c in ApproversOf(rows, e) ensures c in ApproversOf(out, e) {
        var r :| r in rows && r.department == e && r.contact == c;
        var i :| 0 <= i < |rows| && rows[i] == r;
        assert out[i] in out;
      }
    }
  }

  /** Deleting a department's rows leaves it without approvers and every
      other department with the approvers it had. */
  lemma DropDepartmentApprovers(rows: seq<ApprovalRow>, dept: int)
    ensures ApproversOf(DropDepartment(rows, dept), dept) == {}
    ensures forall e :: e != dept ==> ApproversOf(DropDepartment(rows, dept), e) == ApproversOf(rows, e)
  {
    DropDepartmentContents(rows, dept);
    var out := DropDepartment(rows, dept);
    forall e | e != dept ensures ApproversOf(out, e) == ApproversOf(rows, e) {
      forall c | c in ApproversOf(rows, e) ensures c in ApproversOf(out, e) {
        var r :| r in rows && r.department == e && r.contact == c;
        assert r in out;
      }
    }
  }

  /** A level ends either where it started or at the `new` of some pair. */
  lemma {:induction false} FinalLevelOrigin(level: int, pairs: seq<LevelPair>)
    ensures FinalLevel(level, pairs) == level
         || exists k :: 0 <= k < |pairs| && FinalLevel(level, pairs) == pairs[k].newLevel
    decreases |pairs|
  {
    if pairs != [] {
      var l := if level == pairs[0].oldLevel then pairs[0].newLevel else level;
      FinalLevelOrigin(l, pairs[1..]);
      if FinalLevel(l, pairs[1..]) != l {
        var k :| 0 <= k < |pairs[1..]| && FinalLevel(l, pairs[1..]) == pairs[1..][k].newLevel;
        assert pairs[k + 1].newLevel == pairs[1..][k].newLevel;
      }
    }
  }

  /** After a remapping that passed validation with a non-zero requested
      approval number, every row whose level changed is at a level that is
      non-zero and at most the requested approval number. Rows at a level no
      pair mentions keep it, even above the new approval number. */
  lemma UpdatedLevelsWithinRequested(rows: seq<ApprovalRow>, dept: int, pairs: seq<LevelPair>, existing: int, requested: int)
    requires CheckOrder(pairs, existing, requested) == None
    ensures |ApplyPairs(rows, dept, pairs)| == |rows|
    ensures forall i :: 0 <= i < |rows| && ApplyPairs(rows, dept, pairs)[i].order != rows[i].order ==>
      ApplyPairs(rows, dept, pairs)[i].order != 0 && ApplyPairs(rows, dept, pairs)[i].order <= requested
  {
    CheckOrderOutcome(pairs, existing, requested);
    ApplyPairsRowwise(rows, dept, pairs);
    forall i | 0 <= i < |rows| && ApplyPairs(rows, dept, pairs)[i].order != rows[i].order
      ensures ApplyPairs(rows, dept, pairs)[i].order != 0 && ApplyPairs(rows, dept, pairs)[i].order <= requested
    {
      FinalLevelOrigin(rows[i].order, pairs);
    }
  }

  /** A "swap" `[a -> b, b -> a]` does not exchange the two levels: the rows
      of both levels end at level `a`. */
  lemma SwapCollapses(a: int, b: int)
    requires a != b
    ensures FinalLevel(a, [LevelPair(a, b), LevelPair(b, a)]) == a
    ensures FinalLevel(b, [LevelPair(a, b), LevelPair(b, a)]) == a
  {
    assert [LevelPair(a, b), LevelPair(b, a)][1..] == [LevelPair(b, a)];
    assert [LevelPair(b, a)][1..] == [];
    assert FinalLevel(a, [LevelPair(b, a)]) == FinalLevel(a, []) == a;
    assert FinalLevel(b, [LevelPair(b, a)]) == FinalLevel(a, []) == a;
  }

  /** The same on a table: approvers c1 at level 1 and c2 at level 2 of
      department 7 both end at level 1; department 8's row is untouched. */
  lemma SwapScenario()
    ensures ApplyPairs([ApprovalRow(1, 7, 1), ApprovalRow(2, 7, 2), ApprovalRow(3, 8, 1)], 7,
                       [LevelPair(1, 2), LevelPair(2, 1)])
         == [ApprovalRow(1, 7, 1), ApprovalRow(2, 7, 1), ApprovalRow(3, 8, 1)]
  {
  }

  /** Lowering the approval number from 3 to 2 with a single `1 -> 1` pair
      passes validation and leaves a row at level 3. */
  lemma StaleLevelSurvives()
    ensures CheckOrder([LevelPair(1, 1)], 3, 2) == None
    ensures ApplyPairs([ApprovalRow(1, 7, 3)], 7, [LevelPair(1, 1)]) == [ApprovalRow(1, 7, 3)]
  {
  }
}
