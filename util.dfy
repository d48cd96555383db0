/** Small shared vocabulary: an optional value, counting by a predicate,
    and the two ways Python code tests a list for repeated entries. */
module Util {

  datatype Option<+T> = None | Some(value: T)

  /** `len(list(filter(p, s)))` */
  function CountWhere<T>(s: seq<T>, p: T -> bool): (n: nat)
    ensures n <= |s|
  {
    if s == [] then 0 else (if p(s[0]) then 1 else 0) + CountWhere(s[1..], p)
  }

  lemma {:induction false} CountWherePositive<T>(s: seq<T>, p: T -> bool)
    ensures CountWhere(s, p) > 0 <==> exists i :: 0 <= i < |s| && p(s[i])
  {
    if s != [] {
      CountWherePositive(s[1..], p);
      if p(s[0]) {
        assert p(s[0]);
      } else {
        forall i | 0 < i < |s| && p(s[i]) ensures exists k :: 0 <= k < |s[1..]| && p(s[1..][k]) {
          assert s[1..][i - 1] == s[i];
        }
        forall k | 0 <= k < |s[1..]| && p(s[1..][k]) ensures exists i :: 0 <= i < |s| && p(s[i]) {
          assert s[k + 1] == s[1..][k];
        }
      }
    }
  }

  /** More than one element satisfies `p` exactly when two positions do. */
  lemma {:induction false} CountWhereAtLeastTwo<T>(s: seq<T>, p: T -> bool)
    ensures CountWhere(s, p) > 1 <==> exists i, j :: 0 <= i < j < |s| && p(s[i]) && p(s[j])
  {
    if s != [] {
      var t := s[1..];
      CountWhereAtLeastTwo(t, p);
      CountWherePositive(t, p);
      if CountWhere(s, p) > 1 {
        if p(s[0]) {
          var k :| 0 <= k < |t| && p(t[k]);
          assert p(s[0]) && p(s[k + 1]);
        } else {
          var i, j :| 0 <= i < j < |t| && p(t[i]) && p(t[j]);
          assert p(s[i + 1]) && p(s[j + 1]);
        }
      }
      if exists i, j :: 0 <= i < j < |s| && p(s[i]) && p(s[j]) {
        var i, j :| 0 <= i < j < |s| && p(s[i]) && p(s[j]);
        if i == 0 {
          assert p(t[j - 1]);
        } else {
          assert p(t[i - 1]) && p(t[j - 1]);
        }
      }
    }
  }

  /** No element occurs twice. */
  ghost predicate NoDup<T>(s: seq<T>)
  {
    forall i, j :: 0 <= i < j < |s| ==> s[i] != s[j]
  }

  /** `set(s)` */
  function Elems<T>(s: seq<T>): set<T>
  {
    set x | x in s
  }

  /** Python's `len(s) == len(set(s))`. */
  predicate AllDistinct<T(==)>(s: seq<T>)
  {
    |s| == |Elems(s)|
  }

  /** The set of a list is never larger than the list, and has the same size
      exactly when no element repeats. */
  lemma {:induction false} AllDistinctIff<T>(s: seq<T>)
    ensures |Elems(s)| <= |s|
    ensures AllDistinct(s) <==> NoDup(s)
  {
    if s == [] {
      assert Elems(s) == {};
    } else {
      var t := s[1..];
      AllDistinctIff(t);
      assert Elems(s) == {s[0]} + Elems(t) by {
        forall x | x in Elems(s) ensures x in {s[0]} + Elems(t) {
          var i :| 0 <= i < |s| && s[i] == x;
          if i > 0 { assert t[i - 1] == x; }
        }
      }
      if s[0] in t {
        assert Elems(s) == Elems(t);
        var k :| 0 <= k < |t| && t[k] == s[0];
        assert s[0] == s[k + 1];
        assert !NoDup(s);
      } else {
        assert s[0] !in Elems(t);
        assert |Elems(s)| == 1 + |Elems(t)|;
        if NoDup(s) {
          forall i, j | 0 <= i < j < |t| ensures t[i] != t[j] {
            assert t[i] == s[i + 1] && t[j] == s[j + 1];
          }
        }
        if NoDup(t) {
          forall i, j | 0 <= i < j < |s| ensures s[i] != s[j] {
            if i == 0 {
              assert s[j] == t[j - 1];
            } else {
              assert s[i] == t[i - 1] && s[j] == t[j - 1];
            }
          }
        }
      }
    }
  }

  /** The elements of `s` that satisfy `keep`, in order (a queryset `delete()`
      leaves exactly the others). */
  function Filter<T>(s: seq<T>, keep: T -> bool): seq<T>
  {
    if s == [] then [] else (if keep(s[0]) then [s[0]] else []) + Filter(s[1..], keep)
  }

  lemma {:induction false} FilterMembers<T>(s: seq<T>, keep: T -> bool)
    ensures forall x :: x in Filter(s, keep) <==> x in s && keep(x)
  {
    if s != [] {
      FilterMembers(s[1..], keep);
      assert s == [s[0]] + s[1..];
    }
  }

  /** The position of the first element satisfying `p` (an ORM `.first()`). */
  function FirstIndex<T>(s: seq<T>, p: T -> bool): (k: nat)
    requires CountWhere(s, p) > 0
    ensures k < |s| && p(s[k])
    ensures forall j :: 0 <= j < k ==> !p(s[j])
  {
    if p(s[0]) then 0 else 1 + FirstIndex(s[1..], p)
  }
}
