/**
  Lists without repetitions, and sums that do not depend on the order of a list.
 */
module Counting {

  ghost predicate Distinct<T(!new)>(s: seq<T>) {
    forall i, j :: 0 <= i < j < |s| ==> s[i] != s[j]
  }

  lemma SubsetSize<T>(a: set<T>, b: set<T>)
    requires a <= b
    ensures |a| <= |b| && (|a| == |b| ==> a == b)
  {
    assert b == a + (b - a);
  }

  /** A list that holds all of `s` and is no longer than `s` is an enumeration of it. */
  lemma {:induction false} Enumerates<T(!new)>(list: seq<T>, s: set<T>)
    requires (forall x :: x in s ==> x in list) && |list| <= |s|
    ensures multiset(list) == multiset(s)
    decreases |list|
  {
    if list != [] {
      var first, rest := list[0], list[1..];
      assert list == [first] + rest;
      assert forall x :: x in list <==> x == first || x in rest;
      if first in rest {
        assert |multiset(rest)| == |rest| && |multiset(s)| == |s|;
        Enumerates(rest, s);
        assert false;
      } else {
        Enumerates(rest, s - {first});
        assert first in s;
        assert multiset(s) == multiset(s - {first}) + multiset{first};
      }
    }
  }

  lemma {:induction false} DistinctSize<T(!new)>(list: seq<T>)
    requires Distinct(list)
    ensures |set x | x in list| == |list|
    decreases |list|
  {
    if list == [] {
      assert (set x | x in list) == {};
    } else {
      var first, rest := list[0], list[1..];
      assert list == [first] + rest;
      DistinctSize(rest);
      assert (set x | x in list) == {first} + (set x | x in rest);
    }
  }

  /** A longer list without repetitions, all from `s`, is an enumeration as well. */
  lemma SameElements<T(!new)>(a: seq<T>, b: seq<T>, s: set<T>)
    requires (forall x :: x in s ==> x in a) && |a| <= |b|
    requires Distinct(b) && forall x :: x in b ==> x in s
    ensures multiset(a) == multiset(b) && |a| == |b|
  {
    var elements := set x | x in b;
    DistinctSize(b);
    SubsetSize(elements, s);
    Enumerates(a, s);
    assert |a| == |multiset(a)| == |s|;
    Enumerates(b, s);
  }

  function Sum<T>(f: T -> nat, s: seq<T>): nat {
    if s == [] then 0 else f(s[0]) + Sum(f, s[1..])
  }

  lemma {:induction false} SumWithout<T>(f: T -> nat, s: seq<T>, i: nat)
    requires i < |s|
    ensures Sum(f, s) == f(s[i]) + Sum(f, s[..i] + s[i + 1..])
  {
    if i == 0 {
      assert s[..0] + s[0 + 1..] == s[1..];
    } else {
      SumWithout(f, s[1..], i - 1);
      var less := s[..i] + s[i + 1..];
      assert less[0] == s[0] && less[1..] == s[1..][..i - 1] + s[1..][i..];
    }
  }

  lemma Without<T>(s: seq<T>, i: nat)
    requires i < |s|
    ensures multiset(s) == multiset{s[i]} + multiset(s[..i] + s[i + 1..])
  {
    assert s == s[..i] + [s[i]] + s[i + 1..];
  }

  lemma {:induction false} SumSame<T>(f: T -> nat, a: seq<T>, b: seq<T>)
    requires multiset(a) == multiset(b)
    ensures Sum(f, a) == Sum(f, b)
    decreases |a|
  {
    if a == [] {
      assert |multiset(b)| == |multiset(a)| == 0;
    } else {
      assert a[0] in multiset(a);
      var i :| 0 <= i < |b| && b[i] == a[0];
      SumWithout(f, b, i);
      Without(b, i);
      assert a == [a[0]] + a[1..];
      assert multiset(a[1..]) == multiset(a) - multiset{a[0]};
      assert multiset(b[..i] + b[i + 1..]) == multiset(b) - multiset{a[0]};
      SumSame(f, a[1..], b[..i] + b[i + 1..]);
    }
  }

  /** Sums of terms that compare one by one are equal only if all the terms are. */
  lemma {:induction false} SumsForce<T>(f: T -> nat, a: seq<T>, b: seq<T>)
    requires |a| == |b| && (forall i :: 0 <= i < |a| ==> f(a[i]) <= f(b[i]))
    ensures Sum(f, a) <= Sum(f, b)
    ensures Sum(f, a) == Sum(f, b) ==> forall i :: 0 <= i < |a| ==> f(a[i]) == f(b[i])
  {
    if a != [] {
      SumsForce(f, a[1..], b[1..]);
      if Sum(f, a) == Sum(f, b) {
        forall i | 0 <= i < |a| ensures f(a[i]) == f(b[i]) {
          if i > 0 {
            assert a[i] == a[1..][i - 1] && b[i] == b[1..][i - 1];
          }
        }
      }
    }
  }
}
