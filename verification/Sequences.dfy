/** Facts about sequences. */
module Sequences {

  ghost predicate Distinct<T>(s: seq<T>) {
    forall i, j :: 0 <= i < j < |s| ==> s[i] != s[j]
  }

  ghost function Members<T>(s: seq<T>): set<T> {
    set x | x in s
  }

  lemma NextMember<T>(s: seq<T>, n: nat)
    requires n <= |s|
    ensures n == |s| ==> s[..n] == s
    ensures n < |s| ==> Members(s[..n + 1]) == Members(s[..n]) + {s[n]}
    ensures n < |s| && Distinct(s) ==> s[n] !in Members(s[..n])
  {
    if n < |s| {
      assert s[..n + 1] == s[..n] + [s[n]];
    }
  }

  lemma Prefixes<T>(s: seq<T>, n: nat)
    requires n <= |s|
    ensures s[..0] == [] && s[..|s|] == s
    ensures n < |s| ==> s[..n + 1] == s[..n] + [s[n]]
  {
  }

  /** No element is in both. */
  ghost predicate Apart<T>(a: seq<T>, b: seq<T>) {
    forall x :: x in a ==> x !in b
  }

  lemma SameMembers<T>(a: seq<T>, b: seq<T>)
    requires multiset(a) == multiset(b)
    ensures forall x :: x in a ==> x in b
  {
    forall x | x in a ensures x in b {
      assert x in multiset(a) && x in multiset(b);
    }
  }

  /** The elements of `s` that are in `on`. */
  ghost function Kept<T>(s: seq<T>, on: set<T>): seq<T> {
    if s == [] then [] else Kept(s[..|s| - 1], on) + if s[|s| - 1] in on then [s[|s| - 1]] else []
  }

  lemma KeptSnoc<T>(s: seq<T>, x: T, on: set<T>)
    ensures Kept(s + [x], on) == Kept(s, on) + if x in on then [x] else []
  {
    assert (s + [x])[..|s|] == s;
  }

  lemma {:induction false} KeptCount<T>(s: seq<T>, on: set<T>, x: T)
    ensures multiset(Kept(s, on))[x] == if x in on then multiset(s)[x] else 0
  {
    if s != [] {
      KeptCount(s[..|s| - 1], on, x);
      assert s == s[..|s| - 1] + [s[|s| - 1]];
    }
  }

  lemma {:induction false} KeptOfParts<T>(a: seq<T>, b: seq<T>, on: set<T>)
    ensures Kept(a + b, on) == Kept(a, on) + Kept(b, on)
  {
    if b == [] {
      assert a + b == a;
    } else {
      var n := |b| - 1;
      KeptOfParts(a, b[..n], on);
      assert a + b == (a + b[..n]) + [b[n]];
      KeptSnoc(a + b[..n], b[n], on);
      KeptSnoc(b[..n], b[n], on);
      assert b == b[..n] + [b[n]];
    }
  }

  lemma {:induction false} KeptNone<T>(s: seq<T>, on: set<T>)
    requires forall x :: x in s ==> x !in on
    ensures Kept(s, on) == []
  {
    if s != [] {
      KeptNone(s[..|s| - 1], on);
    }
  }

  /** How often `x` is in the lists of the keys, together. */
  ghost function Occurrences<K, T>(keys: seq<K>, lists: map<K, seq<T>>, x: T): nat
    requires forall k :: k in keys ==> k in lists
  {
    if keys == [] then 0
    else Occurrences(keys[..|keys| - 1], lists, x) + multiset(lists[keys[|keys| - 1]])[x]
  }

  lemma OccurrencesSnoc<K, T>(keys: seq<K>, k: K, lists: map<K, seq<T>>, x: T)
    requires k in lists && forall j :: j in keys ==> j in lists
    ensures Occurrences(keys + [k], lists, x) == Occurrences(keys, lists, x) + multiset(lists[k])[x]
  {
    assert (keys + [k])[..|keys|] == keys;
  }

  lemma {:induction false} OccurrencesMiddle<K, T>(p: seq<K>, k: K, q: seq<K>, lists: map<K, seq<T>>, x: T)
    requires k in lists && forall j :: j in p || j in q ==> j in lists
    ensures Occurrences(p + [k] + q, lists, x) == Occurrences(p + q, lists, x) + multiset(lists[k])[x]
  {
    if q == [] {
      assert p + [k] + q == p + [k] && p + q == p;
      OccurrencesSnoc(p, k, lists, x);
    } else {
      var n := |q| - 1;
      OccurrencesMiddle(p, k, q[..n], lists, x);
      assert p + [k] + q == p + [k] + q[..n] + [q[n]] && p + q == p + q[..n] + [q[n]];
      OccurrencesSnoc(p + [k] + q[..n], q[n], lists, x);
      OccurrencesSnoc(p + q[..n], q[n], lists, x);
    }
  }

  /** Cuts `b`, which has the elements of `rest` and `x`, around an `x`. */
  lemma CutAround<T>(x: T, rest: seq<T>, b: seq<T>) returns (p: seq<T>, q: seq<T>)
    requires multiset(b) == multiset(rest) + multiset{x}
    ensures b == p + [x] + q && multiset(p + q) == multiset(rest)
  {
    assert x in multiset(b);
    var i :| 0 <= i < |b| && b[i] == x;
    p, q := b[..i], b[i + 1..];
    assert b == p + [x] + q;
    assert multiset(b) == multiset(p) + multiset{x} + multiset(q);
    assert multiset(p + q) == multiset(p) + multiset(q);
    assert multiset(p + q) == multiset(b) - multiset{x};
  }

  /** The order of the keys does not matter. */
  lemma {:induction false} OccurrencesPermuted<K, T>(a: seq<K>, b: seq<K>, lists: map<K, seq<T>>, x: T)
    requires multiset(a) == multiset(b)
    requires (forall k :: k in a ==> k in lists) && (forall k :: k in b ==> k in lists)
    ensures Occurrences(a, lists, x) == Occurrences(b, lists, x)
  {
    if a == [] {
      assert |multiset(b)| == 0;
    } else {
      var k, rest := a[|a| - 1], a[..|a| - 1];
      assert a == rest + [k];
      var p, q := CutAround(k, rest, b);
      OccurrencesMiddle(p, k, q, lists, x);
      OccurrencesPermuted(rest, p + q, lists, x);
    }
  }

  lemma {:induction false} OccursNowhere<K, T>(keys: seq<K>, lists: map<K, seq<T>>, x: T)
    requires forall i :: 0 <= i < |keys| ==> keys[i] in lists && x !in lists[keys[i]]
    ensures Occurrences(keys, lists, x) == 0
  {
    if keys != [] {
      OccursNowhere(keys[..|keys| - 1], lists, x);
    }
  }

  /** An element that is once in the list of one key, and in no other, occurs once. */
  lemma {:induction false} OccursOnce<K, T>(keys: seq<K>, lists: map<K, seq<T>>, x: T, k: nat)
    requires k < |keys| && forall i :: 0 <= i < |keys| ==> keys[i] in lists && (i != k ==> x !in lists[keys[i]])
    requires multiset(lists[keys[k]])[x] == 1
    ensures Occurrences(keys, lists, x) == 1
  {
    var n := |keys| - 1;
    if k == n {
      OccursNowhere(keys[..n], lists, x);
    } else {
      OccursOnce(keys[..n], lists, x, k);
      assert keys[n] in lists && x !in lists[keys[n]];
    }
  }

  lemma OnceInDistinct<T>(s: seq<T>, x: T)
    requires Distinct(s) && x in s
    ensures multiset(s)[x] == 1
  {
    var k :| 0 <= k < |s| && s[k] == x;
    assert s == s[..k] + [x] + s[k + 1..];
    assert x !in s[..k] && x !in s[k + 1..];
  }

  lemma SameAsSet<T>(s: seq<T>, on: set<T>)
    requires forall x :: x in s ==> x in on
    requires forall x :: x in on ==> multiset(s)[x] == 1
    ensures multiset(s) == multiset(on)
  {
    forall x ensures multiset(s)[x] == multiset(on)[x] {
      assert x in multiset(s) <==> x in s;
    }
  }
}
