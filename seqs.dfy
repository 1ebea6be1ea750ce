/** Small facts about sequences used as column lists: distinctness, the set of
    elements, removing an element (pandas' `drop`) and appending when absent
    (pandas' column assignment to a new name). */
module Seqs {

  predicate Distinct<T(==)>(s: seq<T>)
  {
    forall i, j :: 0 <= i < j < |s| ==> s[i] != s[j]
  }

  function Elems<T(==)>(s: seq<T>): set<T>
  {
    set x | x in s
  }

  /** The position of `x` in `s`. */
  function IndexOf<T(==)>(s: seq<T>, x: T): (k: nat)
    requires x in s
    ensures k < |s| && s[k] == x
    ensures forall j :: 0 <= j < k ==> s[j] != x
    ensures Distinct(s) ==> forall j :: 0 <= j < |s| && s[j] == x ==> j == k
  {
    if s[0] == x then 0 else 1 + IndexOf(s[1..], x)
  }

  /** `s` without `x`, the order of the rest kept. */
  function Remove<T(==,!new)>(s: seq<T>, x: T): (r: seq<T>)
    ensures Elems(r) == Elems(s) - {x}
    ensures forall y :: y in r <==> y in s && y != x
    ensures |r| <= |s|
    ensures Distinct(s) ==> Distinct(r)
  {
    if s == [] then []
    else
      var rest := Remove(s[1..], x);
      assert Elems(s) == {s[0]} + Elems(s[1..]);
      if s[0] == x then rest
      else
        assert Elems([s[0]] + rest) == {s[0]} + Elems(rest);
        assert Distinct(s) ==> s[0] !in Elems(s[1..]) && s[0] !in Elems(rest);
        [s[0]] + rest
  }

  /** Removing the element at position `k` of a duplicate-free sequence is
      cutting that position out. */
  lemma {:induction false} RemoveAt<T(!new)>(s: seq<T>, k: nat)
    requires Distinct(s) && k < |s|
    ensures Remove(s, s[k]) == s[..k] + s[k + 1..]
  {
    if k == 0 {
      assert s[0] !in s[1..];
      RemoveAbsent(s[1..], s[0]);
    } else {
      RemoveAt(s[1..], k - 1);
      assert s[1..][..k - 1] == s[1..k];
      assert s[1..][k..] == s[k + 1..];
      assert s[..k] == [s[0]] + s[1..k];
    }
  }

  /** Removing an element that is not there changes nothing. */
  lemma {:induction false} RemoveAbsent<T(!new)>(s: seq<T>, x: T)
    requires x !in s
    ensures Remove(s, x) == s
  {
    if s != [] {
      RemoveAbsent(s[1..], x);
      assert s == [s[0]] + s[1..];
    }
  }

  /** Removing an element that only the first part holds. */
  lemma {:induction false} RemoveConcat<T(!new)>(a: seq<T>, b: seq<T>, x: T)
    requires x !in b
    ensures Remove(a + b, x) == Remove(a, x) + b
  {
    if a == [] {
      RemoveAbsent(b, x);
      assert a + b == b;
    } else {
      var ab := a + b;
      assert ab[0] == a[0] && ab[1..] == a[1..] + b;
      RemoveConcat(a[1..], b, x);
      if a[0] != x {
        calc {
          Remove(ab, x);
          [a[0]] + Remove(a[1..] + b, x);
          [a[0]] + (Remove(a[1..], x) + b);
          ([a[0]] + Remove(a[1..], x)) + b;
          Remove(a, x) + b;
        }
      }
    }
  }

  /** The column list after assigning to `x`: unchanged if `x` is already a
      column, otherwise `x` is appended. */
  function Put<T(==,!new)>(s: seq<T>, x: T): (r: seq<T>)
    ensures Elems(r) == Elems(s) + {x}
    ensures forall y :: y in r <==> y in s || y == x
    ensures Distinct(s) ==> Distinct(r)
  {
    if x in s then s else s + [x]
  }
}
