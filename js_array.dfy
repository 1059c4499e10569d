/** The two `Array.prototype` operations the store's queries use.
    `sort(cmp)` is a stable sort (ECMAScript 2019) driven by a comparator that
    returns a negative, zero or positive number; it is modelled as insertion
    sort, which is stable: an element is placed after every element the
    comparator puts strictly before it. */
module JsArrays {
  import opened Seqs

  /** `s.filter(p)`: the elements satisfying `p`, in their order in `s`. */
  function Filter<T>(s: seq<T>, p: T -> bool): seq<T> {
    if s == [] then []
    else if p(s[0]) then [s[0]] + Filter(s[1..], p)
    else Filter(s[1..], p)
  }

  /** Each element satisfying `p` is kept exactly as often as it occurs in
      `s`, and nothing else is kept. */
  lemma {:induction false} FilterSpec<T>(s: seq<T>, p: T -> bool)
    ensures var r := Filter(s, p);
            && multiset(r) <= multiset(s)
            && (forall x | x in s :: multiset(r)[x] == if p(x) then multiset(s)[x] else 0)
            && (forall x | x in r :: x in s && p(x))
  {
    if s != [] {
      FilterSpec(s[1..], p);
      assert s == [s[0]] + s[1..];
    }
  }

  /** Filtering with a predicate every element satisfies changes nothing. */
  lemma {:induction false} FilterAll<T>(s: seq<T>, p: T -> bool)
    requires forall x | x in s :: p(x)
    ensures Filter(s, p) == s
  {
    if s != [] {
      FilterAll(s[1..], p);
      assert [s[0]] + s[1..] == s;
    }
  }

  /** Filtering distributes over concatenation. */
  lemma {:induction false} FilterAppend<T>(a: seq<T>, b: seq<T>, p: T -> bool)
    ensures Filter(a + b, p) == Filter(a, p) + Filter(b, p)
  {
    if a == [] {
      assert a + b == b;
    } else {
      assert (a + b)[0] == a[0] && (a + b)[1..] == a[1..] + b;
      FilterAppend(a[1..], b, p);
    }
  }

  /** Inserts `x` in front of the first element of `t` that the comparator
      does not put strictly before `x`. */
  function InsertSorted<T>(x: T, t: seq<T>, cmp: (T, T) -> int): (r: seq<T>)
    ensures multiset(r) == multiset(t) + multiset{x}
  {
    if t == [] then [x]
    else if cmp(x, t[0]) <= 0 then [x] + t
    else
      var rest := InsertSorted(x, t[1..], cmp);
      assert t == [t[0]] + t[1..];
      [t[0]] + rest
  }

  /** `s.slice().sort(cmp)`: every element exactly as often as in `s`. */
  function Sort<T>(s: seq<T>, cmp: (T, T) -> int): (r: seq<T>)
    ensures multiset(r) == multiset(s)
  {
    if s == [] then []
    else
      var rest := Sort(s[1..], cmp);
      assert s == [s[0]] + s[1..];
      InsertSorted(s[0], rest, cmp)
  }

  /** On the elements of `s`, `cmp` orders as the integer `key` does: the
      comparator says "a before or with b" exactly when key(a) <= key(b). */
  ghost predicate Agrees<T>(s: seq<T>, cmp: (T, T) -> int, key: T -> int) {
    forall a, b | a in s && b in s :: (cmp(a, b) <= 0) == (key(a) <= key(b))
  }

  ghost predicate SortedBy<T>(s: seq<T>, key: T -> int) {
    forall i, j :: 0 <= i < j < |s| ==> key(s[i]) <= key(s[j])
  }

  /** The elements of `s` whose key is `k`, in their order in `s`. */
  function WithKey<T>(s: seq<T>, key: T -> int, k: int): seq<T> {
    if s == [] then []
    else (if key(s[0]) == k then [s[0]] else []) + WithKey(s[1..], key, k)
  }

  /** Sorting keeps, for every key, the elements with that key in their
      original order: the sort is stable. */
  ghost predicate StableBy<T>(r: seq<T>, s: seq<T>, key: T -> int) {
    forall k :: WithKey(r, key, k) == WithKey(s, key, k)
  }

  /** A sorted sequence's tail is sorted, and its head's key is at most
      every key in the tail. */
  lemma SortedTail<T>(t: seq<T>, key: T -> int)
    requires t != [] && SortedBy(t, key)
    ensures SortedBy(t[1..], key)
    ensures forall b | b in t[1..] :: key(t[0]) <= key(b)
  {
    var t1 := t[1..];
    forall i, j | 0 <= i < j < |t1| ensures key(t1[i]) <= key(t1[j]) {
      assert t1[i] == t[i + 1] && t1[j] == t[j + 1];
    }
    forall b | b in t1 ensures key(t[0]) <= key(b) {
      var m :| 0 <= m < |t1| && t1[m] == b;
      assert t[m + 1] == b;
    }
  }

  /** Putting an element with a key at most every key of a sorted sequence in
      front of it keeps it sorted. */
  lemma SortedCons<T>(x: T, t: seq<T>, key: T -> int)
    requires SortedBy(t, key)
    requires forall b | b in t :: key(x) <= key(b)
    ensures SortedBy([x] + t, key)
  {
    var r := [x] + t;
    forall i, j | 0 <= i < j < |r| ensures key(r[i]) <= key(r[j]) {
      assert r[j] == t[j - 1];
      if i > 0 {
        assert r[i] == t[i - 1];
      } else {
        assert t[j - 1] in t;
      }
    }
  }

  lemma {:induction false} InsertSortedOrdered<T>(x: T, t: seq<T>, cmp: (T, T) -> int, key: T -> int)
    requires SortedBy(t, key)
    requires forall b | b in t :: (cmp(x, b) <= 0) == (key(x) <= key(b))
    ensures SortedBy(InsertSorted(x, t, cmp), key)
  {
    if t == [] {
      assert SortedBy([x], key);
    } else if cmp(x, t[0]) <= 0 {
      assert t[0] in t;
      SortedTail(t, key);
      assert forall b | b in t :: key(x) <= key(b);
      SortedCons(x, t, key);
    } else {
      var t0, t1 := t[0], t[1..];
      assert t0 in t;
      SortedTail(t, key);
      forall b | b in t1 ensures (cmp(x, b) <= 0) == (key(x) <= key(b)) {
        assert b in t;
      }
      InsertSortedOrdered(x, t1, cmp, key);
      var rest := InsertSorted(x, t1, cmp);
      assert InsertSorted(x, t, cmp) == [t0] + rest;
      forall b | b in rest ensures key(t0) <= key(b) {
        assert b in multiset(rest);
        if b != x {
          assert b in multiset(t1);
        }
      }
      SortedCons(t0, rest, key);
    }
  }

  /** `WithKey` on a sequence with a given head. */
  lemma WithKeyCons<T>(x: T, t: seq<T>, key: T -> int, k: int)
    ensures WithKey([x] + t, key, k) == (if key(x) == k then [x] else []) + WithKey(t, key, k)
  {
    var s := [x] + t;
    assert s[0] == x && s[1..] == t;
  }

  lemma {:induction false} InsertSortedStable<T>(x: T, t: seq<T>, cmp: (T, T) -> int, key: T -> int, k: int)
    requires forall b | b in t :: (cmp(x, b) <= 0) == (key(x) <= key(b))
    ensures WithKey(InsertSorted(x, t, cmp), key, k) == WithKey([x] + t, key, k)
  {
    if t != [] && cmp(x, t[0]) > 0 {
      var t0, t1 := t[0], t[1..];
      assert t == [t0] + t1;
      assert key(x) > key(t0) by {
        assert t0 in t;
      }
      forall b | b in t1 ensures (cmp(x, b) <= 0) == (key(x) <= key(b)) {
        assert b in t;
      }
      var rest := InsertSorted(x, t1, cmp);
      assert InsertSorted(x, t, cmp) == [t0] + rest;
      InsertSortedStable(x, t1, cmp, key, k);
      var hx := if key(x) == k then [x] else [];
      var h0 := if key(t0) == k then [t0] else [];
      var w1 := WithKey(t1, key, k);
      WithKeyCons(t0, rest, key, k);
      WithKeyCons(x, t1, key, k);
      assert WithKey([t0] + rest, key, k) == h0 + (hx + w1);
      WithKeyCons(x, t, key, k);
      WithKeyCons(t0, t1, key, k);
      assert WithKey([x] + t, key, k) == hx + (h0 + w1);
      assert hx == [] || h0 == [];
      SwapEmpty(h0, hx, w1);
    }
  }

  /** A comparator that agrees with `key` on `s` agrees with it on `s`'s tail. */
  lemma AgreesTail<T>(s: seq<T>, cmp: (T, T) -> int, key: T -> int)
    requires s != [] && Agrees(s, cmp, key)
    ensures Agrees(s[1..], cmp, key)
  {
    var tail := s[1..];
    forall a, b | a in tail && b in tail ensures (cmp(a, b) <= 0) == (key(a) <= key(b)) {
      assert a in s && b in s;
    }
  }

  /** The comparator agrees with `key` between the head of `s` and any
      rearrangement of its tail. */
  lemma AgreesHead<T>(s: seq<T>, rest: seq<T>, cmp: (T, T) -> int, key: T -> int)
    requires s != [] && Agrees(s, cmp, key)
    requires multiset(rest) == multiset(s[1..])
    ensures forall b | b in rest :: (cmp(s[0], b) <= 0) == (key(s[0]) <= key(b))
  {
    forall b | b in rest ensures (cmp(s[0], b) <= 0) == (key(s[0]) <= key(b)) {
      assert b in multiset(rest);
      assert b in s[1..];
      assert b in s && s[0] in s;
    }
  }

  /** When the comparator agrees with an integer key on the elements being
      sorted, the result is ordered by that key. */
  lemma {:induction false} SortOrdered<T>(s: seq<T>, cmp: (T, T) -> int, key: T -> int)
    requires Agrees(s, cmp, key)
    ensures SortedBy(Sort(s, cmp), key)
  {
    if s != [] {
      var tail := s[1..];
      AgreesTail(s, cmp, key);
      SortOrdered(tail, cmp, key);
      var rest := Sort(tail, cmp);
      AgreesHead(s, rest, cmp, key);
      InsertSortedOrdered(s[0], rest, cmp, key);
    }
  }

  /** ... and the sort is stable: elements with equal keys keep their order. */
  lemma {:induction false} SortStable<T>(s: seq<T>, cmp: (T, T) -> int, key: T -> int)
    requires Agrees(s, cmp, key)
    ensures StableBy(Sort(s, cmp), s, key)
  {
    if s != [] {
      var tail := s[1..];
      AgreesTail(s, cmp, key);
      SortStable(tail, cmp, key);
      var x, rest := s[0], Sort(tail, cmp);
      assert s == [x] + tail;
      assert Sort(s, cmp) == InsertSorted(x, rest, cmp);
      AgreesHead(s, rest, cmp, key);
      forall k ensures WithKey(Sort(s, cmp), key, k) == WithKey(s, key, k) {
        InsertSortedStable(x, rest, cmp, key, k);
        WithKeyCons(x, rest, key, k);
        WithKeyCons(x, tail, key, k);
        assert WithKey(rest, key, k) == WithKey(tail, key, k);
      }
    }
  }

  /** Every element of `s` is related by `R` to every later one. */
  ghost predicate Chain<T>(s: seq<T>, R: (T, T) -> bool) {
    forall i, j :: 0 <= i < j < |s| ==> R(s[i], s[j])
  }

  /** Filtering keeps the relative order of the elements it keeps. */
  lemma {:induction false} FilterChain<T>(s: seq<T>, p: T -> bool, R: (T, T) -> bool)
    requires Chain(s, R)
    ensures Chain(Filter(s, p), R)
  {
    if s != [] {
      var tail := s[1..];
      assert Chain(tail, R) by {
        forall i, j | 0 <= i < j < |tail| ensures R(tail[i], tail[j]) {
          assert tail[i] == s[i + 1] && tail[j] == s[j + 1];
        }
      }
      FilterChain(tail, p, R);
      if p(s[0]) {
        var rest := Filter(tail, p);
        var r := [s[0]] + rest;
        FilterSpec(tail, p);
        forall i, j | 0 <= i < j < |r| ensures R(r[i], r[j]) {
          assert r[j] == rest[j - 1];
          if i == 0 {
            assert rest[j - 1] in rest;
            var m :| 0 <= m < |tail| && tail[m] == rest[j - 1];
            assert s[m + 1] == r[j];
          } else {
            assert r[i] == rest[i - 1];
          }
        }
      }
    }
  }

  /** Elements of `s` with equal keys are related by `R` in the order they occur. */
  ghost predicate ChainWithin<T>(s: seq<T>, key: T -> int, R: (T, T) -> bool) {
    forall i, j :: 0 <= i < j < |s| && key(s[i]) == key(s[j]) ==> R(s[i], s[j])
  }

  lemma ChainWithinTail<T>(s: seq<T>, key: T -> int, R: (T, T) -> bool)
    requires s != [] && ChainWithin(s, key, R)
    ensures ChainWithin(s[1..], key, R)
  {
    var tail := s[1..];
    forall i, j | 0 <= i < j < |tail| && key(tail[i]) == key(tail[j]) ensures R(tail[i], tail[j]) {
      assert tail[i] == s[i + 1] && tail[j] == s[j + 1];
    }
  }

  lemma {:induction false} InsertSortedWithin<T>(x: T, t: seq<T>, cmp: (T, T) -> int, key: T -> int, R: (T, T) -> bool)
    requires ChainWithin(t, key, R)
    requires forall b | b in t :: (cmp(x, b) <= 0) == (key(x) <= key(b))
    requires forall b | b in t && key(b) == key(x) :: R(x, b)
    ensures ChainWithin(InsertSorted(x, t, cmp), key, R)
  {
    if t != [] {
      if cmp(x, t[0]) <= 0 {
        var r := [x] + t;
        forall i, j | 0 <= i < j < |r| && key(r[i]) == key(r[j]) ensures R(r[i], r[j]) {
          assert r[j] == t[j - 1];
          if i > 0 {
            assert r[i] == t[i - 1];
          }
        }
      } else {
        var tail := t[1..];
        ChainWithinTail(t, key, R);
        InsertSortedWithin(x, tail, cmp, key, R);
        var rest := InsertSorted(x, tail, cmp);
        var r := [t[0]] + rest;
        assert key(x) > key(t[0]) by {
          assert t[0] in t;
        }
        forall i, j | 0 <= i < j < |r| && key(r[i]) == key(r[j]) ensures R(r[i], r[j]) {
          assert r[j] == rest[j - 1];
          if i == 0 {
            assert rest[j - 1] in multiset(rest);
            if rest[j - 1] != x {
              assert rest[j - 1] in multiset(tail);
              var m :| 0 <= m < |tail| && tail[m] == rest[j - 1];
              assert t[m + 1] == r[j];
            }
          } else {
            assert r[i] == rest[i - 1];
          }
        }
      }
    }
  }

  /** The sort keeps, among elements with equal keys, any order `R` that
      their original positions respected. */
  lemma {:induction false} SortWithin<T>(s: seq<T>, cmp: (T, T) -> int, key: T -> int, R: (T, T) -> bool)
    requires Agrees(s, cmp, key) && ChainWithin(s, key, R)
    ensures ChainWithin(Sort(s, cmp), key, R)
  {
    if s != [] {
      var tail := s[1..];
      AgreesTail(s, cmp, key);
      ChainWithinTail(s, key, R);
      SortWithin(tail, cmp, key, R);
      var rest := Sort(tail, cmp);
      AgreesHead(s, rest, cmp, key);
      forall b | b in rest && key(b) == key(s[0]) ensures R(s[0], b) {
        assert b in multiset(rest);
        var m :| 0 <= m < |tail| && tail[m] == b;
        assert s[m + 1] == b;
      }
      InsertSortedWithin(s[0], rest, cmp, key, R);
    }
  }
}
