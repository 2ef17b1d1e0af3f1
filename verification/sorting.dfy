/**
  Python's `list.sort(key=...)`, which is stable: elements with equal keys keep
  their original relative order. `reverse=True` keeps that stability, so a
  descending sort is modelled as an ascending sort on the negated key.
 */
module Sorting {

  import opened Seqs

  /** `s` is in ascending order of `key`. */
  ghost predicate SortedBy<T>(key: T -> real, s: seq<T>) {
    forall i, j :: 0 <= i < j < |s| ==> key(s[i]) <= key(s[j])
  }

  /** The elements of `s` whose key is `k`, in their order in `s`. */
  function WithKey<T>(key: T -> real, k: real, s: seq<T>): seq<T>
  {
    if s == [] then [] else (if key(s[0]) == k then [s[0]] else []) + WithKey(key, k, s[1..])
  }

  /** Inserts `x` in front of the first element of `s` whose key is at least `key(x)`. */
  function Insert<T>(key: T -> real, x: T, s: seq<T>): (r: seq<T>)
    ensures |r| == |s| + 1
    ensures multiset(r) == multiset(s) + multiset{x}
  {
    if s == [] || key(x) <= key(s[0]) then
      [x] + s
    else
      assert s == [s[0]] + s[1..];
      [s[0]] + Insert(key, x, s[1..])
  }

  lemma {:induction false} InsertSorted<T>(key: T -> real, x: T, s: seq<T>)
    requires SortedBy(key, s)
    ensures SortedBy(key, Insert(key, x, s))
  {
    if s == [] || key(x) <= key(s[0]) {
      ConsSorted(key, x, s);
    } else {
      var t := Insert(key, x, s[1..]);
      InsertSorted(key, x, s[1..]);
      InsertAbove(key, x, s);
      ConsSorted(key, s[0], t);
    }
  }

  /** Every element inserted behind the head of a sorted `s` has a key no less than the head's. */
  lemma InsertAbove<T>(key: T -> real, x: T, s: seq<T>)
    requires SortedBy(key, s) && s != [] && key(x) > key(s[0])
    ensures forall j :: 0 <= j < |Insert(key, x, s[1..])| ==> key(s[0]) <= key(Insert(key, x, s[1..])[j])
  {
    var t := Insert(key, x, s[1..]);
    forall j | 0 <= j < |t| ensures key(s[0]) <= key(t[j]) {
      assert t[j] in multiset(t);
      if t[j] != x {
        assert t[j] in multiset(s[1..]);
        var m :| 0 <= m < |s[1..]| && s[1..][m] == t[j];
        assert s[m + 1] == t[j];
      }
    }
  }

  /** A head no greater than any element of a sorted tail keeps it sorted. */
  lemma ConsSorted<T>(key: T -> real, h: T, t: seq<T>)
    requires SortedBy(key, t)
    requires t == [] || key(h) <= key(t[0])
    ensures SortedBy(key, [h] + t)
  {
    var r := [h] + t;
    forall i, j | 0 <= i < j < |r| ensures key(r[i]) <= key(r[j]) {
      if i > 0 {
        assert r[i] == t[i - 1] && r[j] == t[j - 1];
      } else {
        assert r[j] == t[j - 1];
      }
    }
  }

  lemma {:induction false} InsertWithKey<T>(key: T -> real, x: T, s: seq<T>, k: real)
    ensures WithKey(key, k, Insert(key, x, s)) == (if key(x) == k then [x] else []) + WithKey(key, k, s)
  {
    if s == [] || key(x) <= key(s[0]) {
      WithKeyCons(key, k, x, s);
    } else {
      WithKeyCons(key, k, s[0], Insert(key, x, s[1..]));
      InsertWithKey(key, x, s[1..], k);
      var hx := if key(x) == k then [x] else [];
      var h0 := if key(s[0]) == k then [s[0]] else [];
      SwapEmpty(h0, hx, WithKey(key, k, s[1..]));
    }
  }

  lemma WithKeyCons<T>(key: T -> real, k: real, h: T, t: seq<T>)
    ensures WithKey(key, k, [h] + t) == (if key(h) == k then [h] else []) + WithKey(key, k, t)
  {
    assert ([h] + t)[0] == h && ([h] + t)[1..] == t;
  }

  /** A stable ascending sort of `s` by `key`. */
  function SortBy<T>(key: T -> real, s: seq<T>): (r: seq<T>)
    ensures |r| == |s|
    ensures SortedBy(key, r)
    ensures multiset(r) == multiset(s)
    ensures forall k {:trigger WithKey(key, k, r)} :: WithKey(key, k, r) == WithKey(key, k, s)
  {
    if s == [] then []
    else
      var t := SortBy(key, s[1..]);
      assert s == [s[0]] + s[1..];
      InsertSorted(key, s[0], t);
      forall k ensures WithKey(key, k, Insert(key, s[0], t)) == WithKey(key, k, s) {
        InsertWithKey(key, s[0], t, k);
      }
      Insert(key, s[0], t)
  }

  /** The first element with key `k` heads WithKey. */
  lemma {:induction false} WithKeyHead<T>(key: T -> real, k: real, s: seq<T>) returns (i: nat)
    requires WithKey(key, k, s) != []
    ensures i < |s| && s[i] == WithKey(key, k, s)[0] && key(s[i]) == k
    ensures forall j :: 0 <= j < i ==> key(s[j]) != k
  {
    if key(s[0]) == k {
      i := 0;
    } else {
      var i' := WithKeyHead(key, k, s[1..]);
      i := i' + 1;
    }
  }

  /** The head of the sorted sequence is the earliest element of `s` with the least key. */
  lemma SortedHead<T>(key: T -> real, s: seq<T>)
    requires |s| > 0
    ensures exists i :: (0 <= i < |s| && SortBy(key, s)[0] == s[i]
      && (forall j :: 0 <= j < |s| ==> key(s[i]) <= key(s[j]))
      && (forall j :: 0 <= j < i ==> key(s[i]) < key(s[j])))
  {
    var r := SortBy(key, s);
    var m := key(r[0]);
    WithKeyFirst(key, r);
    assert WithKey(key, m, s) == WithKey(key, m, r);
    var i := WithKeyHead(key, m, s);
    SortedMin(key, r, s);
    assert key(s[i]) == m;
    assert forall j :: 0 <= j < i ==> key(s[i]) < key(s[j]);
    assert 0 <= i < |s| && r[0] == s[i];
  }

  lemma WithKeyFirst<T>(key: T -> real, r: seq<T>)
    requires r != []
    ensures WithKey(key, key(r[0]), r) != [] && WithKey(key, key(r[0]), r)[0] == r[0]
  {
  }

  /** The head of a sorted reordering of `s` has the least key in `s`. */
  lemma SortedMin<T>(key: T -> real, r: seq<T>, s: seq<T>)
    requires r != [] && SortedBy(key, r) && multiset(r) == multiset(s)
    ensures forall j :: 0 <= j < |s| ==> key(r[0]) <= key(s[j])
  {
    forall j | 0 <= j < |s| ensures key(r[0]) <= key(s[j]) {
      assert s[j] in multiset(r);
      var n :| 0 <= n < |r| && r[n] == s[j];
    }
  }

  lemma {:induction false} WithKeyAppend<T>(key: T -> real, k: real, a: seq<T>, b: seq<T>)
    ensures WithKey(key, k, a + b) == WithKey(key, k, a) + WithKey(key, k, b)
  {
    if a == [] {
      assert a + b == b;
    } else {
      assert (a + b)[0] == a[0] && (a + b)[1..] == a[1..] + b;
      WithKeyAppend(key, k, a[1..], b);
      AppendAssoc(if key(a[0]) == k then [a[0]] else [], WithKey(key, k, a[1..]), WithKey(key, k, b));
    }
  }


  /** Cutting a sorted sequence leaves every element of the front no greater than every element of the back. */
  lemma SortedSplit<T>(key: T -> real, s: seq<T>, n: nat)
    requires SortedBy(key, s) && n <= |s|
    ensures s == s[..n] + s[n..]
    ensures multiset(s[..n]) + multiset(s[n..]) == multiset(s)
    ensures forall a, b :: a in s[..n] && b in s[n..] ==> key(a) <= key(b)
  {
    assert s == s[..n] + s[n..];
    forall a, b | a in s[..n] && b in s[n..] ensures key(a) <= key(b) {
      var i :| 0 <= i < n && s[i] == a;
      var j :| n <= j < |s| && s[j] == b;
    }
  }

}
