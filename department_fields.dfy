/** The pure field handling of department creation: `structure_json`, which
    turns a request item into table fields, `validation`, which checks them,
    and the duplicate-code pass that opens `bulk_create`. */
module DepartmentFields {
  import opened Util
  import opened Rows

  // ----- structure_json -----

  /** A request item; an absent key is `None`. An integer field holding text
      that `int()` cannot read is outside this model. */
  datatype DepartmentPayload = DepartmentPayload(
    accountId: Option<int>,
    code: Option<string>,
    name: Option<string>,
    approvalNumber: Option<int>,
    priceLimit: Option<int>,
    shoppingLimit: Option<int>,
    budget: Option<int>)

  /** The fields `structure_json` builds. An absent integer field takes the
      default `''`, shown here as `None`; an absent budget key stays absent. */
  datatype DepartmentFields = DepartmentFields(
    account: Option<int>,
    code: string,
    name: string,
    approvalNumber: Option<int>,
    priceLimit: Option<int>,
    shoppingLimit: Option<int>,
    kind: DeptType,
    budget: Option<int>)

  predicate IsLower(c: char)
  {
    'a' <= c <= 'z'
  }

  /** `str.upper()` on ASCII letters. */
  function Upper(s: string): (r: string)
    ensures |r| == |s|
    ensures forall i :: 0 <= i < |r| ==> !IsLower(r[i])
    ensures forall i :: 0 <= i < |s| && !IsLower(s[i]) ==> r[i] == s[i]
    ensures forall i :: 0 <= i < |s| && IsLower(s[i]) ==> r[i] as int == s[i] as int - 32
  {
    if s == [] then []
    else [if IsLower(s[0]) then (s[0] as int - 32) as char else s[0]] + Upper(s[1..])
  }

  /** Upper-casing twice changes nothing more. */
  lemma UpperIdempotent(s: string)
    ensures Upper(Upper(s)) == Upper(s)
  {
  }

  /** Two codes that differ only in the case of their ASCII letters become the same code. */
  lemma UpperIgnoresCase(s: string, t: string)
    requires |s| == |t|
    requires forall i :: 0 <= i < |s| ==>
      s[i] == t[i] || (IsLower(s[i]) && t[i] as int == s[i] as int - 32)
    ensures Upper(s) == Upper(t)
  {
  }

  function ValueOr<T>(v: Option<T>, default: T): T
  {
    if v.Some? then v.value else default
  }

  /** `structure_json`: the code upper-cased, the name copied (`''` when
      absent), the type forced to a top-level department, and the budget
      copied only when the item has one. */
  function StructureJson(item: DepartmentPayload): (r: DepartmentFields)
    ensures r.kind == DEPARTMENT
    ensures r.budget == item.budget
    ensures r.account == item.accountId && r.approvalNumber == item.approvalNumber
    ensures r.priceLimit == item.priceLimit && r.shoppingLimit == item.shoppingLimit
    ensures r.code == Upper(ValueOr(item.code, "")) && r.name == ValueOr(item.name, "")
    ensures item.code.None? ==> r.code == ""
    ensures item.code.Some? ==> |r.code| == |item.code.value|
    ensures forall i :: 0 <= i < |r.code| ==> !IsLower(r.code[i])
    ensures r.code == Upper(r.code)
  {
    UpperIdempotent(ValueOr(item.code, ""));
    DepartmentFields(item.accountId, Upper(ValueOr(item.code, "")), ValueOr(item.name, ""),
                     item.approvalNumber, item.priceLimit, item.shoppingLimit, DEPARTMENT, item.budget)
  }

  // ----- validation -----

  /** The response of `validation`: `Success` has code 200, every other verdict 400. */
  datatype Verdict =
    | Success
    | CodeExists        // "Code already exist."
    | LimitOrder        // "Shopping limit must be greater than price limit"
    | BudgetBelowLimit  // "Budget must be greater than Shopping limit or price limit "
    | ConversionError   // a value could not be converted to an integer and the
                        // exception's text is the message: `int()` on a limit,
                        // or the `''` account of an item without `accountId`
                        // in the code query

  /** Another department of the same account already uses the code; on an
      update (`pk` set and non-zero) the department itself does not count. */
  predicate CodeTaken(departments: seq<Department>, data: DepartmentFields, pk: Option<int>)
  {
    CountWhere(departments, (d: Department) =>
      Some(d.account) == data.account && d.code == data.code && !(pk.Some? && pk.value != 0 && d.id == pk.value)) > 0
  }

  /** The code query runs with the default account `''`, which the foreign
      key cannot convert, so the query raises. */
  predicate AccountQueryRaises(data: DepartmentFields)
  {
    data.code != "" && data.account.None?
  }

  /** `validation`: the three checks all run, and each that fails replaces
      the result of the ones before it; an exception in any of them ends the
      call with its message. */
  function Validation(departments: seq<Department>, data: DepartmentFields, pk: Option<int>): Verdict
  {
    var afterCode := if data.code != "" && CodeTaken(departments, data, pk) then CodeExists else Success;
    if AccountQueryRaises(data) || data.priceLimit.None? || data.shoppingLimit.None? then ConversionError
    else
      var price, shopping := data.priceLimit.value, data.shoppingLimit.value;
      var afterLimits := if price > shopping then LimitOrder else afterCode;
      if data.budget.Some? && (price > data.budget.value || shopping > data.budget.value) then BudgetBelowLimit
      else afterLimits
  }

  /** The last failing check decides the verdict; an exception (a code query
      without an account, or a limit `int()` cannot read) overrides
      everything. */
  lemma ValidationLastFailureWins(departments: seq<Department>, data: DepartmentFields, pk: Option<int>)
    ensures var v := Validation(departments, data, pk);
      && (v == ConversionError <==>
            (data.code != "" && data.account.None?) || data.priceLimit.None? || data.shoppingLimit.None?)
      && (v == BudgetBelowLimit <==>
            (&& !(data.code != "" && data.account.None?)
             && data.priceLimit.Some? && data.shoppingLimit.Some? && data.budget.Some?
             && (data.priceLimit.value > data.budget.value || data.shoppingLimit.value > data.budget.value)))
      && (v == LimitOrder <==>
            (&& !(data.code != "" && data.account.None?)
             && data.priceLimit.Some? && data.shoppingLimit.Some?
             && !(data.budget.Some? && (data.priceLimit.value > data.budget.value || data.shoppingLimit.value > data.budget.value))
             && data.priceLimit.value > data.shoppingLimit.value))
      && (v == CodeExists <==>
            (&& data.account.Some?
             && data.priceLimit.Some? && data.shoppingLimit.Some?
             && !(data.budget.Some? && (data.priceLimit.value > data.budget.value || data.shoppingLimit.value > data.budget.value))
             && data.priceLimit.value <= data.shoppingLimit.value
             && data.code != ""
             && exists i :: 0 <= i < |departments| && Some(departments[i].account) == data.account
                  && departments[i].code == data.code
                  && !(pk.Some? && pk.value != 0 && departments[i].id == pk.value)))
  {
    CountWherePositive(departments, (d: Department) =>
      Some(d.account) == data.account && d.code == data.code && !(pk.Some? && pk.value != 0 && d.id == pk.value));
  }

  /** Re-validating a department under its own primary key does not report
      its own code as taken. */
  lemma ValidationIgnoresSelf(d: Department, data: DepartmentFields)
    requires d.id != 0 && data.account == Some(d.account) && data.code == d.code
    requires data.priceLimit.Some? && data.shoppingLimit.Some? && data.priceLimit.value <= data.shoppingLimit.value
    requires data.budget.None?
    ensures Validation([d], data, Some(d.id)) == Success
    ensures data.code != "" ==> Validation([d], data, None) == CodeExists
  {
  }

  // ----- the duplicate-code pass of bulk_create -----

  const DuplicatePrefix: string := "Duplicate code : "

  /** One entry of the report: `codeMessage` and `code`. */
  datatype DupEntry = DupEntry(codeMessage: int, code: string)

  /** `max` of an empty set raises before anything is reported. */
  datatype DupOutcome = EmptyBatch | NoDuplicates | Duplicates(entries: seq<DupEntry>)

  /** `ex_code.count(c)` */
  function Occurrences(codes: seq<string>, c: string): nat
  {
    CountWhere(codes, (x: string) => x == c)
  }

  /** The largest count of the codes in `pool`. */
  function MaxOver(pool: seq<string>, codes: seq<string>): nat
  {
    if pool == [] then 0
    else
      var n, m := Occurrences(codes, pool[0]), MaxOver(pool[1..], codes);
      if n > m then n else m
  }

  lemma {:induction false} MaxOverAboveOne(pool: seq<string>, codes: seq<string>)
    ensures MaxOver(pool, codes) > 1 <==> exists k :: 0 <= k < |pool| && Occurrences(codes, pool[k]) > 1
  {
    if pool != [] {
      MaxOverAboveOne(pool[1..], codes);
      if Occurrences(codes, pool[0]) <= 1 {
        forall k | 0 < k < |pool| ensures pool[k] == pool[1..][k - 1] {}
      }
    }
  }

  function Entry(codes: seq<string>, c: string): DupEntry
  {
    if Occurrences(codes, c) > 1 then DupEntry(400, DuplicatePrefix + c) else DupEntry(200, c)
  }

  function DuplicateCheck(codes: seq<string>): DupOutcome
  {
    if codes == [] then EmptyBatch
    else if MaxOver(codes, codes) > 1 then Duplicates(seq(|codes|, i requires 0 <= i < |codes| => Entry(codes, codes[i])))
    else NoDuplicates
  }

  /** A code occurs more than once exactly when another position holds it. */
  lemma RepeatedAt(codes: seq<string>, i: int)
    requires 0 <= i < |codes|
    ensures Occurrences(codes, codes[i]) > 1 <==> exists j :: 0 <= j < |codes| && j != i && codes[j] == codes[i]
  {
    var c := codes[i];
    CountWhereAtLeastTwo(codes, (x: string) => x == c);
    if Occurrences(codes, c) > 1 {
      var a, b :| 0 <= a < b < |codes| && codes[a] == c && codes[b] == c;
      if a == i { assert codes[b] == c; } else { assert codes[a] == c; }
    }
    if exists j :: 0 <= j < |codes| && j != i && codes[j] == c {
      var j :| 0 <= j < |codes| && j != i && codes[j] == c;
      if j < i { assert codes[j] == c && codes[i] == c; } else { assert codes[i] == c && codes[j] == c; }
    }
  }

  /** An empty batch fails, and a batch is reported exactly when some code
      repeats. */
  lemma DuplicateCheckOutcome(codes: seq<string>)
    ensures DuplicateCheck(codes) == EmptyBatch <==> codes == []
    ensures DuplicateCheck(codes).Duplicates?
        <==> exists i, j :: 0 <= i < j < |codes| && codes[i] == codes[j]
  {
    MaxOverAboveOne(codes, codes);
    if MaxOver(codes, codes) > 1 {
      var k :| 0 <= k < |codes| && Occurrences(codes, codes[k]) > 1;
      RepeatedAt(codes, k);
      var j :| 0 <= j < |codes| && j != k && codes[j] == codes[k];
      if j < k { assert codes[j] == codes[k]; } else { assert codes[k] == codes[j]; }
    }
    if exists i, j :: 0 <= i < j < |codes| && codes[i] == codes[j] {
      var i, j :| 0 <= i < j < |codes| && codes[i] == codes[j];
      RepeatedAt(codes, i);
    }
  }

  /** A report has one entry per item, in input order: 400 with the prefixed
      code when another item has the same code, 200 with the bare code
      otherwise. */
  lemma DuplicateEntries(codes: seq<string>, i: int)
    requires DuplicateCheck(codes).Duplicates?
    requires 0 <= i < |codes|
    ensures var es := DuplicateCheck(codes).entries;
      && |es| == |codes|
      && (es[i].codeMessage == 400 <==> exists j :: 0 <= j < |codes| && j != i && codes[j] == codes[i])
      && (es[i].codeMessage == 400 || es[i].codeMessage == 200)
      && es[i].code == (if es[i].codeMessage == 400 then DuplicatePrefix + codes[i] else codes[i])
  {
    RepeatedAt(codes, i);
  }

  /** The report loop over the batch. */
  method DuplicateReport(codes: seq<string>) returns (out: DupOutcome)
    ensures out == DuplicateCheck(codes)
  {
    if codes == [] {
      return EmptyBatch;
    }
    if MaxOver(codes, codes) <= 1 {
      return NoDuplicates;
    }
    var entries: seq<DupEntry> := [];
    var i := 0;
    while i < |codes|
      invariant 0 <= i <= |codes|
      invariant |entries| == i
      invariant forall k :: 0 <= k < i ==> entries[k] == Entry(codes, codes[k])
    {
      var c := codes[i];
      var item := if Occurrences(codes, c) > 1 then DupEntry(400, DuplicatePrefix + c) else DupEntry(200, c);
      entries := entries + [item];
      i := i + 1;
    }
    out := Duplicates(entries);
  }
}
