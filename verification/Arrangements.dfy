/** Facts that do not depend on the order in which elements are listed. */
module Arrangements {

  lemma {:induction false} IndexOf<T>(s: seq<T>, x: T) returns (i: nat)
    requires x in multiset(s)
    ensures i < |s| && s[i] == x
  {
    assert x in s;
    i :| 0 <= i < |s| && s[i] == x;
  }

  function Without<T>(s: seq<T>, i: nat): (rest: seq<T>)
    requires i < |s|
    ensures |rest| == |s| - 1
  {
    s[..i] + s[i + 1..]
  }

  lemma WithoutOne<T>(s: seq<T>, i: nat)
    requires i < |s|
    ensures multiset(Without(s, i)) == multiset(s) - multiset{s[i]}
    ensures multiset(Without(s, i)) + multiset{s[i]} == multiset(s)
  {
    assert s == s[..i] + [s[i]] + s[i + 1..];
  }

  /** No two positions share a key. */
  predicate KeysApart<T, K(==)>(key: T -> K, s: seq<T>) {
    forall i, j :: 0 <= i < j < |s| ==> key(s[i]) != key(s[j])
  }

  lemma {:induction false} KeysApartKept<T, K>(key: T -> K, a: seq<T>, b: seq<T>)
    requires KeysApart(key, a) && multiset(a) == multiset(b)
    ensures KeysApart(key, b)
  {
    hide KeysApart;
    forall i, j | 0 <= i < j < |b| ensures key(b[i]) != key(b[j]) {
      PairApart(key, a, b, i, j);
    }
    AllApart(key, b);
  }

  lemma AllApart<T, K>(key: T -> K, s: seq<T>)
    requires forall i, j :: 0 <= i < j < |s| ==> key(s[i]) != key(s[j])
    ensures KeysApart(key, s)
  {
  }

  lemma PairApart<T, K>(key: T -> K, a: seq<T>, b: seq<T>, i: nat, j: nat)
    requires KeysApart(key, a) && multiset(a) == multiset(b) && i < j < |b|
    ensures key(b[i]) != key(b[j])
  {
    assert b[i] in multiset(b);
    var k := IndexOf(a, b[i]);
    WithoutOne(a, k);
    WithoutOne(b, i);
    assert Without(b, i)[j - 1] == b[j];
    assert b[j] in multiset(Without(b, i));
    var m := IndexOf(Without(a, k), b[j]);
    assert Without(a, k)[m] == a[if m < k then m else m + 1];
  }

  predicate NoRepeats<T(==)>(s: seq<T>) {
    forall i, j :: 0 <= i < j < |s| ==> s[i] != s[j]
  }

  lemma KeysMeanNoRepeats<T, K>(key: T -> K, s: seq<T>)
    requires KeysApart(key, s)
    ensures NoRepeats(s)
  {
  }

  /** Lists without repeats that hold the same elements are rearrangements of each other. */
  lemma {:induction false} SameElements<T>(a: seq<T>, b: seq<T>)
    requires NoRepeats(a) && NoRepeats(b)
    requires forall x :: x in a <==> x in b
    ensures multiset(a) == multiset(b)
  {
    EmptyTogether(a, b);
    if a != [] {
      assert a[0] in b;
      var i :| 0 <= i < |b| && b[i] == a[0];
      WithoutOne(a, 0);
      WithoutOne(b, i);
      SameElementsWithout(a, b, i);
      SameElements(Without(a, 0), Without(b, i));
    }
  }

  lemma EmptyTogether<T>(a: seq<T>, b: seq<T>)
    requires forall x :: x in a <==> x in b
    ensures a == [] <==> b == []
  {
    if a != [] {
      assert a[0] in b;
    }
    if b != [] {
      assert b[0] in a;
    }
  }

  lemma SameElementsWithout<T>(a: seq<T>, b: seq<T>, i: nat)
    requires NoRepeats(a) && NoRepeats(b)
    requires forall x :: x in a <==> x in b
    requires a != [] && i < |b| && b[i] == a[0]
    ensures NoRepeats(Without(a, 0)) && NoRepeats(Without(b, i))
    ensures forall x :: x in Without(a, 0) <==> x in Without(b, i)
  {
    ApartWithout(a, 0);
    ApartWithout(b, i);
  }

  lemma ApartWithout<T>(s: seq<T>, i: nat)
    requires NoRepeats(s) && i < |s|
    ensures NoRepeats(Without(s, i))
    ensures forall x :: x in Without(s, i) <==> x in s && x != s[i]
  {
  }
}
