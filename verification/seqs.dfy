/** Generic counting and filtering over sequences, and their invariance under reordering. */
module Seqs {

  import opened Options

  /** The number of elements of `s` satisfying `p` (Python's `sum(1 for x in s if p(x))`). */
  function Count<T>(p: T -> bool, s: seq<T>): (n: nat)
    ensures n <= |s|
  {
    if s == [] then 0 else (if p(s[0]) then 1 else 0) + Count(p, s[1..])
  }

  /** The results of `f` on the elements of `s` where it gives one, in order
      (Python's `[y for x in s if (y := f(x)) is not None]`). */
  function FilterMap<A, B>(f: A -> Option<B>, s: seq<A>): (r: seq<B>)
    ensures |r| <= |s|
    ensures forall i :: 0 <= i < |s| && f(s[i]).Some? ==> f(s[i]).value in r
    ensures forall j :: 0 <= j < |r| ==> exists i :: 0 <= i < |s| && f(s[i]) == Some(r[j])
  {
    if s == [] then []
    else (match f(s[0]) case Some(y) => [y] case None => []) + FilterMap(f, s[1..])
  }

  /** Every element passes: the count is the length. */
  lemma {:induction false} CountAll<T>(p: T -> bool, s: seq<T>)
    requires forall i :: 0 <= i < |s| ==> p(s[i])
    ensures Count(p, s) == |s|
  {
    if s != [] {
      CountAll(p, s[1..]);
    }
  }

  /** No element passes: the count is zero. */
  lemma {:induction false} CountNone<T>(p: T -> bool, s: seq<T>)
    requires forall i :: 0 <= i < |s| ==> !p(s[i])
    ensures Count(p, s) == 0
  {
    if s != [] {
      CountNone(p, s[1..]);
    }
  }

  /** FilterMap of a function that gives a result everywhere is the plain map. */
  lemma {:induction false} FilterMapAllSome<A, B>(f: A -> Option<B>, s: seq<A>, r: seq<B>)
    requires |r| == |s| && forall i :: 0 <= i < |s| ==> f(s[i]) == Some(r[i])
    ensures FilterMap(f, s) == r
  {
    if s != [] {
      FilterMapAllSome(f, s[1..], r[1..]);
      assert r == [r[0]] + r[1..];
    }
  }

  /** FilterMap of a function that gives no result anywhere is empty. */
  lemma {:induction false} FilterMapAllNone<A, B>(f: A -> Option<B>, s: seq<A>)
    requires forall i :: 0 <= i < |s| ==> f(s[i]).None?
    ensures FilterMap(f, s) == []
  {
    if s != [] {
      FilterMapAllNone(f, s[1..]);
    }
  }

  /** The set of images of the elements of `s` (Python's `set(f(x) for x in s)`). */
  function Image<A, B>(f: A -> B, s: seq<A>): set<B>
  {
    set i | 0 <= i < |s| :: f(s[i])
  }

  lemma DropAppend<T>(a: seq<T>, b: seq<T>, k: nat)
    requires k <= |a|
    ensures (a + b)[k..] == a[k..] + b
  {
  }

  /** A slice of a sequence whose elements all pass a test passes it too. */
  lemma SliceAll<T>(p: T -> bool, u: seq<T>, i: nat, j: nat)
    requires i <= j <= |u| && forall k :: 0 <= k < |u| ==> p(u[k])
    ensures forall k :: 0 <= k < |u[i..j]| ==> p(u[i..j][k])
  {
    forall k | 0 <= k < |u[i..j]| ensures p(u[i..j][k]) {
      assert u[i..j][k] == u[i + k];
    }
  }

  /** Two parts of which one is empty can trade places. */
  lemma SwapEmpty<T>(a: seq<T>, b: seq<T>, c: seq<T>)
    requires a == [] || b == []
    ensures a + (b + c) == b + (a + c)
  {
    if a == [] {
      assert a + (b + c) == b + c;
      assert a + c == c;
    } else {
      assert b + c == c;
      assert b + (a + c) == a + c;
    }
  }

  lemma AppendAssoc<T>(a: seq<T>, b: seq<T>, c: seq<T>)
    ensures a + (b + c) == a + b + c
  {
  }

  lemma {:induction false} CountAppend<T>(p: T -> bool, a: seq<T>, b: seq<T>)
    ensures Count(p, a + b) == Count(p, a) + Count(p, b)
  {
    if a == [] {
      assert a + b == b;
    } else {
      assert (a + b)[1..] == a[1..] + b;
      CountAppend(p, a[1..], b);
    }
  }

  lemma {:induction false} FilterMapAppend<A, B>(f: A -> Option<B>, a: seq<A>, b: seq<A>)
    ensures FilterMap(f, a + b) == FilterMap(f, a) + FilterMap(f, b)
  {
    if a == [] {
      assert a + b == b;
    } else {
      assert (a + b)[1..] == a[1..] + b;
      FilterMapAppend(f, a[1..], b);
    }
  }

  /** Locates the first element of `a` in a reordering `b` of `a`, and shows what is left over. */
  lemma RemoveFirst<T>(a: seq<T>, b: seq<T>) returns (i: nat)
    requires |a| > 0 && multiset(a) == multiset(b)
    ensures i < |b| && b[i] == a[0]
    ensures b == b[..i] + [a[0]] + b[i + 1..]
    ensures multiset(a[1..]) == multiset(b[..i] + b[i + 1..])
  {
    assert a == [a[0]] + a[1..];
    assert a[0] in multiset(b);
    i :| 0 <= i < |b| && b[i] == a[0];
    Splice(b, i);
    assert multiset(a[1..]) == multiset(a) - multiset{a[0]};
  }

  /** Cutting out the element at `i`. */
  lemma Splice<T>(b: seq<T>, i: nat)
    requires i < |b|
    ensures b == b[..i] + [b[i]] + b[i + 1..]
    ensures multiset(b[..i] + b[i + 1..]) == multiset(b) - multiset{b[i]}
  {
    assert b == b[..i] + [b[i]] + b[i + 1..];
    assert multiset(b) == multiset(b[..i]) + multiset{b[i]} + multiset(b[i + 1..]);
  }

  /** Counting does not depend on the order of the elements. */
  lemma {:induction false} PermCount<T>(p: T -> bool, a: seq<T>, b: seq<T>)
    requires multiset(a) == multiset(b)
    ensures Count(p, a) == Count(p, b)
  {
    if a == [] {
      assert |b| == |multiset(b)| == 0;
    } else {
      var i := RemoveFirst(a, b);
      PermCount(p, a[1..], b[..i] + b[i + 1..]);
      CountMiddle(p, b[..i], a[0], b[i + 1..]);
    }
  }

  lemma CountMiddle<T>(p: T -> bool, x: seq<T>, y: T, z: seq<T>)
    ensures Count(p, x + [y] + z) == (if p(y) then 1 else 0) + Count(p, x + z)
  {
    CountAppend(p, x + [y], z);
    CountAppend(p, x, [y]);
    CountAppend(p, x, z);
    assert Count(p, [y]) == (if p(y) then 1 else 0) + Count(p, []);
  }

  /** Reordering the input reorders the output of FilterMap. */
  lemma {:induction false} PermFilterMap<A, B>(f: A -> Option<B>, a: seq<A>, b: seq<A>)
    requires multiset(a) == multiset(b)
    ensures multiset(FilterMap(f, a)) == multiset(FilterMap(f, b))
  {
    if a == [] {
      assert |b| == |multiset(b)| == 0;
    } else {
      var i := RemoveFirst(a, b);
      PermFilterMap(f, a[1..], b[..i] + b[i + 1..]);
      FilterMapMiddle(f, b[..i], a[0], b[i + 1..]);
      FilterMapCons(f, a);
    }
  }

  /** The `k`-th result of FilterMap comes from some element `s[i]`, and the
      results in front of it are exactly those of the elements in front of `s[i]`. */
  lemma {:induction false} FilterMapIndex<A, B>(f: A -> Option<B>, s: seq<A>, k: nat) returns (i: nat)
    requires k < |FilterMap(f, s)|
    ensures i < |s| && f(s[i]) == Some(FilterMap(f, s)[k])
    ensures FilterMap(f, s[..i]) == FilterMap(f, s)[..k]
    decreases |s|, 1
  {
    if f(s[0]).Some? && k == 0 {
      i := 0;
      IndexAtHead(f, s);
    } else {
      i := IndexInTail(f, s, k);
    }
  }

  /** FilterMapIndex for a result that comes from the tail. */
  lemma {:induction false} IndexInTail<A, B>(f: A -> Option<B>, s: seq<A>, k: nat) returns (i: nat)
    requires s != [] && k < |FilterMap(f, s)| && !(f(s[0]).Some? && k == 0)
    ensures i < |s| && f(s[i]) == Some(FilterMap(f, s)[k])
    ensures FilterMap(f, s[..i]) == FilterMap(f, s)[..k]
    decreases |s|, 0
  {
    var n := TailPosition(f, s, k);
    var i' := FilterMapIndex(f, s[1..], n);
    i := i' + 1;
    IndexStep(f, s, k, i');
  }

  /** Where the `k`-th result sits among the results of the tail. */
  lemma TailPosition<A, B>(f: A -> Option<B>, s: seq<A>, k: nat) returns (n: nat)
    requires s != [] && k < |FilterMap(f, s)| && !(f(s[0]).Some? && k == 0)
    ensures |FilterMap(f, [s[0]])| <= k && n == k - |FilterMap(f, [s[0]])| && n < |FilterMap(f, s[1..])|
  {
    FilterMapSplitHead(f, s);
    n := k - |FilterMap(f, [s[0]])|;
  }

  /** The base case of FilterMapIndex: the head gives the first result. */
  lemma IndexAtHead<A, B>(f: A -> Option<B>, s: seq<A>)
    requires s != [] && f(s[0]).Some?
    ensures |FilterMap(f, s)| > 0 && f(s[0]) == Some(FilterMap(f, s)[0])
    ensures FilterMap(f, s[..0]) == FilterMap(f, s)[..0]
  {
    assert s[..0] == [];
  }

  /** The step of FilterMapIndex: an index into the tail moves one place right. */
  lemma IndexStep<A, B>(f: A -> Option<B>, s: seq<A>, k: nat, i': nat)
    requires s != [] && |FilterMap(f, [s[0]])| <= k
    requires var n := k - |FilterMap(f, [s[0]])|; var t := FilterMap(f, s[1..]);
      n < |t| && i' < |s| - 1 && f(s[1..][i']) == Some(t[n]) && FilterMap(f, s[1..][..i']) == t[..n]
    ensures i' + 1 < |s| && k < |FilterMap(f, s)| && f(s[i' + 1]) == Some(FilterMap(f, s)[k])
    ensures FilterMap(f, s[..i' + 1]) == FilterMap(f, s)[..k]
  {
    var h := FilterMap(f, [s[0]]);
    var t := FilterMap(f, s[1..]);
    FilterMapSplitHead(f, s);
    assert s[1..][i'] == s[i' + 1];
    FilterMapPrefixHead(f, s, i' + 1);
    PrefixAfter(h, t, k);
  }

  /** FilterMap of a single element. */
  lemma FilterMapSingle<A, B>(f: A -> Option<B>, x: A)
    ensures FilterMap(f, [x]) == if f(x).Some? then [f(x).value] else []
  {
    assert [x][1..] == [];
  }

  lemma FilterMapSplitHead<A, B>(f: A -> Option<B>, s: seq<A>)
    requires s != []
    ensures FilterMap(f, s) == FilterMap(f, [s[0]]) + FilterMap(f, s[1..])
    ensures |FilterMap(f, [s[0]])| <= 1 && (FilterMap(f, [s[0]]) != [] <==> f(s[0]).Some?)
  {
    FilterMapSingle(f, s[0]);
  }

  lemma FilterMapPrefixHead<A, B>(f: A -> Option<B>, s: seq<A>, j: nat)
    requires 0 < j <= |s|
    ensures FilterMap(f, s[..j]) == FilterMap(f, [s[0]]) + FilterMap(f, s[1..][..j - 1])
  {
    assert s[..j] == [s[0]] + s[1..][..j - 1];
    FilterMapAppend(f, [s[0]], s[1..][..j - 1]);
  }

  /** Indexing and slicing behind a short head. */
  lemma PrefixAfter<T>(h: seq<T>, t: seq<T>, k: nat)
    requires |h| <= k < |h| + |t|
    ensures (h + t)[k] == t[k - |h|]
    ensures (h + t)[..k] == h + t[..k - |h|]
  {
  }

  lemma FilterMapCons<A, B>(f: A -> Option<B>, a: seq<A>)
    requires a != []
    ensures multiset(FilterMap(f, a)) == multiset(FilterMap(f, [a[0]])) + multiset(FilterMap(f, a[1..]))
  {
    FilterMapAppend(f, [a[0]], a[1..]);
    assert a == [a[0]] + a[1..];
  }

  lemma FilterMapMiddle<A, B>(f: A -> Option<B>, x: seq<A>, y: A, z: seq<A>)
    ensures multiset(FilterMap(f, x + [y] + z)) == multiset(FilterMap(f, [y])) + multiset(FilterMap(f, x + z))
  {
    FilterMapAppend(f, x + [y], z);
    FilterMapAppend(f, x, [y]);
    FilterMapAppend(f, x, z);
  }

  /** The image set depends only on which elements occur. */
  lemma PermImage<A, B>(f: A -> B, a: seq<A>, b: seq<A>)
    requires multiset(a) == multiset(b)
    ensures Image(f, a) == Image(f, b)
  {
    forall y | y in Image(f, a) ensures y in Image(f, b) {
      var i :| 0 <= i < |a| && f(a[i]) == y;
      assert a[i] in multiset(b);
      var j :| 0 <= j < |b| && b[j] == a[i];
    }
    forall y | y in Image(f, b) ensures y in Image(f, a) {
      var j :| 0 <= j < |b| && f(b[j]) == y;
      assert b[j] in multiset(a);
      var i :| 0 <= i < |a| && a[i] == b[j];
    }
  }


  /** Pairwise different images: the image set is as large as the sequence. */
  lemma {:induction false} ImageSize<A, B>(f: A -> B, s: seq<A>)
    requires forall i, j :: 0 <= i < j < |s| ==> f(s[i]) != f(s[j])
    ensures |Image(f, s)| == |s|
  {
    if s != [] {
      var t := s[1..];
      ImageSize(f, t);
      assert Image(f, s) == {f(s[0])} + Image(f, t) by {
        forall y | y in Image(f, s) ensures y in {f(s[0])} + Image(f, t) {
          var i :| 0 <= i < |s| && f(s[i]) == y;
          if i > 0 {
            assert f(t[i - 1]) == y;
          }
        }
        forall y | y in Image(f, t) ensures y in Image(f, s) {
          var i :| 0 <= i < |t| && f(t[i]) == y;
          assert f(s[i + 1]) == y;
        }
      }
      assert f(s[0]) !in Image(f, t) by {
        forall i | 0 <= i < |t| ensures f(t[i]) != f(s[0]) {
          assert t[i] == s[i + 1];
        }
      }
    }
  }

  /** The elements of `s` satisfying `p`, in order (Python's `[x for x in s if p(x)]`). */
  function Filter<T>(p: T -> bool, s: seq<T>): (r: seq<T>)
    ensures |r| <= |s|
    ensures forall i :: 0 <= i < |r| ==> p(r[i])
    ensures forall i :: 0 <= i < |s| && p(s[i]) ==> s[i] in r
    ensures forall i :: 0 <= i < |r| ==> r[i] in s
  {
    if s == [] then [] else (if p(s[0]) then [s[0]] else []) + Filter(p, s[1..])
  }

  lemma {:induction false} FilterAppend<T>(p: T -> bool, a: seq<T>, b: seq<T>)
    ensures Filter(p, a + b) == Filter(p, a) + Filter(p, b)
  {
    if a == [] {
      assert a + b == b;
    } else {
      assert (a + b)[1..] == a[1..] + b;
      FilterAppend(p, a[1..], b);
    }
  }

  /** Filtering keeps a first and a last element that pass the test. */
  lemma {:induction false} FilterEnds<T>(p: T -> bool, s: seq<T>)
    requires s != [] && p(s[0]) && p(s[|s| - 1])
    ensures var f := Filter(p, s); f != [] && f[0] == s[0] && f[|f| - 1] == s[|s| - 1]
  {
    var x := s[|s| - 1];
    assert Filter(p, s) == [s[0]] + Filter(p, s[1..]);
    assert Filter(p, [x]) == [x] by {
      assert [x][1..] == [];
    }
    assert s == s[..|s| - 1] + [x];
    FilterAppend(p, s[..|s| - 1], [x]);
  }

  /** Filtering a concatenation of three parts filters each part. */
  lemma FilterThree<T>(p: T -> bool, a: seq<T>, b: seq<T>, c: seq<T>)
    ensures Filter(p, a + b + c) == Filter(p, a) + Filter(p, b) + Filter(p, c)
  {
    FilterAppend(p, a + b, c);
    FilterAppend(p, a, b);
  }

  /** Filtering keeps everything when every element passes. */
  lemma {:induction false} FilterAll<T>(p: T -> bool, s: seq<T>)
    requires forall i :: 0 <= i < |s| ==> p(s[i])
    ensures Filter(p, s) == s
  {
    if s != [] {
      FilterAll(p, s[1..]);
    }
  }

  /** Filtering drops everything when no element passes. */
  lemma {:induction false} FilterNone<T>(p: T -> bool, s: seq<T>)
    requires forall i :: 0 <= i < |s| ==> !p(s[i])
    ensures Filter(p, s) == []
  {
    if s != [] {
      FilterNone(p, s[1..]);
    }
  }

  /** Filtering by a stronger predicate after a weaker one is filtering by the stronger one. */
  lemma {:induction false} FilterFilter<T>(p: T -> bool, q: T -> bool, s: seq<T>)
    requires forall x :: p(x) ==> q(x)
    ensures Filter(p, Filter(q, s)) == Filter(p, s)
  {
    if s != [] {
      FilterFilter(p, q, s[1..]);
      FilterAppend(p, if q(s[0]) then [s[0]] else [], Filter(q, s[1..]));
    }
  }

  /** A prefix of passing elements in front of a failing one is exactly what DropWhile drops. */
  lemma {:induction false} DropWhileAfter<T>(p: T -> bool, d: seq<T>, t: seq<T>)
    requires forall i :: 0 <= i < |d| ==> p(d[i])
    requires t == [] || !p(t[0])
    ensures DropWhile(p, d + t) == t
  {
    if d == [] {
      assert d + t == t;
    } else {
      assert (d + t)[1..] == d[1..] + t;
      DropWhileAfter(p, d[1..], t);
    }
  }

  /** Once DropWhile stops inside `a`, whatever follows `a` is kept as it is. */
  lemma {:induction false} DropWhileAppend<T>(p: T -> bool, a: seq<T>, x: seq<T>)
    requires DropWhile(p, a) != []
    ensures DropWhile(p, a + x) == DropWhile(p, a) + x
  {
    var c, t := a[0], a[1..];
    assert a == [c] + t;
    assert a + x == [c] + (t + x);
    DropWhileCons(p, c, t);
    DropWhileCons(p, c, t + x);
    if p(c) {
      DropWhileAppend(p, t, x);
    }
  }

  /** One step of DropWhile, on a sequence written as head and tail. */
  lemma DropWhileCons<T>(p: T -> bool, c: T, t: seq<T>)
    ensures DropWhile(p, [c] + t) == if p(c) then DropWhile(p, t) else [c] + t
  {
    assert ([c] + t)[1..] == t;
  }

  /** A suffix of passing elements behind a failing one is exactly what DropLastWhile drops. */
  lemma {:induction false} DropLastWhileBefore<T>(p: T -> bool, t: seq<T>, d: seq<T>)
    requires forall i :: 0 <= i < |d| ==> p(d[i])
    requires t == [] || !p(t[|t| - 1])
    ensures DropLastWhile(p, t + d) == t
  {
    if d == [] {
      assert t + d == t;
    } else {
      assert (t + d)[..|t + d| - 1] == t + d[..|d| - 1];
      DropLastWhileBefore(p, t, d[..|d| - 1]);
    }
  }

  /** A sequence is its TakeWhile followed by its DropWhile. */
  lemma TakeDropParts<T>(p: T -> bool, s: seq<T>)
    ensures s == TakeWhile(p, s) + DropWhile(p, s)
  {
    var n := |TakeWhile(p, s)|;
    assert s == s[..n] + s[n..];
  }

  /** A sequence is its DropLastWhile followed by a suffix all of whose elements pass. */
  lemma DropLastParts<T>(p: T -> bool, s: seq<T>)
    ensures s == DropLastWhile(p, s) + s[|DropLastWhile(p, s)|..]
    ensures forall i :: 0 <= i < |s[|DropLastWhile(p, s)|..]| ==> p(s[|DropLastWhile(p, s)|..][i])
  {
    var n := |DropLastWhile(p, s)|;
    assert s == s[..n] + s[n..];
    forall i | 0 <= i < |s[n..]| ensures p(s[n..][i]) {
      assert s[n..][i] == s[n + i];
    }
  }

  /** The concatenation of a sequence of sequences. */
  function Flatten<T>(ss: seq<seq<T>>): seq<T>
  {
    if ss == [] then [] else ss[0] + Flatten(ss[1..])
  }

  /** The longest prefix of `s` whose elements all satisfy `p`. */
  function TakeWhile<T>(p: T -> bool, s: seq<T>): (r: seq<T>)
    ensures |r| <= |s| && r == s[..|r|]
    ensures forall i :: 0 <= i < |r| ==> p(r[i])
    ensures |r| < |s| ==> !p(s[|r|])
  {
    if s == [] || !p(s[0]) then [] else [s[0]] + TakeWhile(p, s[1..])
  }

  /** A prefix that passes `p` throughout and stops at the end or at a failing element is the TakeWhile. */
  lemma {:induction false} TakeWhileUnique<T>(p: T -> bool, s: seq<T>, w: seq<T>)
    requires |w| <= |s| && w == s[..|w|]
    requires forall i :: 0 <= i < |w| ==> p(w[i])
    requires |w| < |s| ==> !p(s[|w|])
    ensures TakeWhile(p, s) == w
  {
    if s == [] {
    } else if !p(s[0]) {
    } else {
      assert w != [];
      assert w[1..] == s[1..][..|w| - 1];
      TakeWhileUnique(p, s[1..], w[1..]);
      assert w == [s[0]] + w[1..];
    }
  }

  /** `s` without its longest prefix of elements satisfying `p`. */
  function DropWhile<T>(p: T -> bool, s: seq<T>): (r: seq<T>)
    ensures r == s[|TakeWhile(p, s)|..]
  {
    if s == [] || !p(s[0]) then s else DropWhile(p, s[1..])
  }

  /** `s` without its longest suffix of elements satisfying `p`. */
  function DropLastWhile<T>(p: T -> bool, s: seq<T>): (r: seq<T>)
    ensures |r| <= |s| && r == s[..|r|]
    ensures forall i :: |r| <= i < |s| ==> p(s[i])
    ensures r == [] || !p(r[|r| - 1])
  {
    if s == [] || !p(s[|s| - 1]) then s else DropLastWhile(p, s[..|s| - 1])
  }

}
