/** Small sequence helpers shared by the entity model: an Option type, the
    "no element twice" predicate, order-preserving erasure (the effect of
    std::vector::erase on a vector without duplicates) and linear search
    (std::find). */
module Util {

  datatype Option<+T> = None | Some(value: T)

  /** No element of s occurs twice. */
  ghost predicate Distinct<T>(s: seq<T>) {
    forall i, j | 0 <= i < j < |s| :: s[i] != s[j]
  }

  /** s with every occurrence of x erased; the other elements keep their
      relative order. */
  function Without<T(==)>(s: seq<T>, x: T): seq<T> {
    if s == [] then []
    else if s[0] == x then Without(s[1..], x)
    else [s[0]] + Without(s[1..], x)
  }

  /** Erasure removes x and nothing else. */
  lemma {:induction false} WithoutMembers<T>(s: seq<T>, x: T)
    ensures forall y :: y in Without(s, x) <==> y in s && y != x
    ensures forall i | 0 <= i < |Without(s, x)| :: Without(s, x)[i] in s && Without(s, x)[i] != x
  {
    if s != [] {
      WithoutMembers(s[1..], x);
      assert s == [s[0]] + s[1..];
    }
  }

  /** The tail of a sequence without duplicates has none either, and does
      not contain the head. */
  lemma DistinctTail<T>(s: seq<T>)
    requires Distinct(s) && s != []
    ensures Distinct(s[1..]) && s[0] !in s[1..]
  {
  }

  /** Putting a new element in front of a sequence without duplicates keeps
      it without duplicates. */
  lemma DistinctCons<T>(x: T, r: seq<T>)
    requires Distinct(r) && x !in r
    ensures Distinct([x] + r)
  {
  }

  /** Erasing from a sequence without duplicates leaves a sequence without
      duplicates, one element shorter when x was present and unchanged
      otherwise. */
  lemma {:induction false} WithoutDistinct<T>(s: seq<T>, x: T)
    requires Distinct(s)
    ensures Distinct(Without(s, x))
    ensures x in s ==> |Without(s, x)| == |s| - 1
    ensures x !in s ==> Without(s, x) == s
  {
    if s != [] {
      DistinctTail(s);
      WithoutDistinct(s[1..], x);
      assert s == [s[0]] + s[1..];
      if s[0] != x {
        WithoutMembers(s[1..], x);
        DistinctCons(s[0], Without(s[1..], x));
      }
    }
  }

  /** Erasing position k of a sequence without duplicates (what
      vector::erase does with the iterator std::find returned) is the same as
      erasing the value s[k]. */
  lemma {:induction false} EraseAt<T>(s: seq<T>, k: nat)
    requires Distinct(s) && k < |s|
    ensures s[..k] + s[k + 1..] == Without(s, s[k])
  {
    DistinctTail(s);
    if k == 0 {
      WithoutDistinct(s[1..], s[0]);
      assert s[..0] + s[1..] == s[1..];
    } else {
      assert s[1..][k - 1] == s[k];
      EraseAt(s[1..], k - 1);
      assert s[0] != s[k];
      calc {
        s[..k] + s[k + 1..];
        [s[0]] + (s[1..][..k - 1] + s[1..][k..]);
        [s[0]] + Without(s[1..], s[k]);
      }
    }
  }

  /** A sequence of distinct naturals all below m has at most m elements
      (the pigeonhole principle). */
  lemma {:induction false} DistinctBelow(s: seq<nat>, m: nat)
    requires Distinct(s)
    requires forall i | 0 <= i < |s| :: s[i] < m
    ensures |s| <= m
    decreases m
  {
    if s != [] {
      assert s[0] < m;
      var r: seq<nat> := Without<nat>(s, m - 1);
      WithoutDistinct<nat>(s, m - 1);
      WithoutMembers<nat>(s, m - 1);
      forall i | 0 <= i < |r| ensures r[i] < m - 1 {
        assert r[i] in s && r[i] != m - 1;
        var j :| 0 <= j < |s| && s[j] == r[i];
      }
      DistinctBelow(r, m - 1);
    }
  }

  /** Linear search, as std::find: the index of the first occurrence of x in
      s, or |s| when x does not occur. */
  method Find<T(==)>(s: seq<T>, x: T) returns (k: nat)
    ensures k <= |s|
    ensures k < |s| ==> s[k] == x
    ensures forall j | 0 <= j < k :: s[j] != x
    ensures k == |s| <==> x !in s
  {
    k := 0;
    while k < |s| && s[k] != x
      invariant k <= |s|
      invariant forall j | 0 <= j < k :: s[j] != x
    {
      k := k + 1;
    }
  }
}
