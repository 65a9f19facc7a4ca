/** Python's `list.sort(key=...)` as the scheduler uses it: every element is
    paired with its key once, before sorting, and the pairs are sorted
    stably in ascending key order. The sort itself is library code; it is
    modelled here by a stable insertion sort whose properties are proved. */
module StableSort {
  import opened SeqFacts

  /** Ascending by key. */
  ghost predicate SortedByKey<T>(xs: seq<(T, int)>) {
    forall i, j :: 0 <= i < j < |xs| ==> xs[i].1 <= xs[j].1
  }

  /** The elements of `xs` whose key is `k`, in their order in `xs`. */
  function WithKey<T>(xs: seq<(T, int)>, k: int): (r: seq<(T, int)>)
    ensures |r| <= |xs|
    ensures forall p :: p in r ==> p in xs && p.1 == k
  {
    if xs == [] then []
    else (if xs[0].1 == k then [xs[0]] else []) + WithKey(xs[1..], k)
  }

  /** Drops the keys. */
  function Items<T>(xs: seq<(T, int)>): (r: seq<T>)
    ensures |r| == |xs|
    ensures forall i :: 0 <= i < |xs| ==> r[i] == xs[i].0
  {
    seq(|xs|, i requires 0 <= i < |xs| => xs[i].0)
  }

  /** Puts `x` in front of the first element whose key is not smaller, so that
      `x` precedes the elements of equal key already in `s`. */
  function Insert<T>(x: (T, int), s: seq<(T, int)>): (r: seq<(T, int)>)
    ensures multiset(r) == multiset(s) + multiset{x}
    ensures |r| == |s| + 1
  {
    if s == [] || x.1 <= s[0].1 then [x] + s
    else
      assert s == [s[0]] + s[1..];
      [s[0]] + Insert(x, s[1..])
  }

  function SortByKey<T>(xs: seq<(T, int)>): (r: seq<(T, int)>)
    ensures multiset(r) == multiset(xs)
    ensures |r| == |xs|
  {
    if xs == [] then []
    else
      assert xs == [xs[0]] + xs[1..];
      Insert(xs[0], SortByKey(xs[1..]))
  }

  lemma {:induction false} InsertSorted<T>(x: (T, int), s: seq<(T, int)>)
    requires SortedByKey(s)
    ensures SortedByKey(Insert(x, s))
  {
    if s == [] || x.1 <= s[0].1 {
    } else {
      InsertSorted(x, s[1..]);
      var r := Insert(x, s[1..]);
      assert r[0] == x || r[0] == s[1] by {
        assert r[0] in multiset(r);
      }
      forall i, j | 0 <= i < j < |r| + 1
        ensures ([s[0]] + r)[i].1 <= ([s[0]] + r)[j].1
      {
        if i == 0 {
          var p := r[j - 1];
          assert p in multiset(s[1..]) + multiset{x} by { assert p in multiset(r); }
          if p != x {
            assert p in s[1..];
          }
        }
      }
    }
  }

  /** The sort yields ascending keys. */
  lemma {:induction false} SortByKeySorted<T>(xs: seq<(T, int)>)
    ensures SortedByKey(SortByKey(xs))
  {
    if xs != [] {
      SortByKeySorted(xs[1..]);
      InsertSorted(xs[0], SortByKey(xs[1..]));
    }
  }

  lemma {:induction false} WithKeyAppend<T>(a: seq<(T, int)>, b: seq<(T, int)>, k: int)
    ensures WithKey(a + b, k) == WithKey(a, k) + WithKey(b, k)
  {
    if a == [] {
      assert a + b == b;
    } else {
      assert (a + b)[1..] == a[1..] + b;
      WithKeyAppend(a[1..], b, k);
    }
  }

  lemma {:induction false} InsertWithKey<T>(x: (T, int), s: seq<(T, int)>, k: int)
    ensures WithKey(Insert(x, s), k) == WithKey([x], k) + WithKey(s, k)
  {
    if s == [] || x.1 <= s[0].1 {
      WithKeyAppend([x], s, k);
    } else {
      var rest := Insert(x, s[1..]);
      assert Insert(x, s) == [s[0]] + rest;
      InsertWithKey(x, s[1..], k);
      WithKeyAppend([s[0]], rest, k);
      WithKeyAppend([s[0]], s[1..], k);
      assert [s[0]] + s[1..] == s;
      // x and s[0] have different keys, so at most one of them has key k.
      assert WithKey([s[0]], k) == [] || WithKey([x], k) == [];
    }
  }

  /** Stability: for every key, the elements carrying it keep their relative
      order. Together with SortByKeySorted this fixes the result uniquely. */
  lemma {:induction false} SortByKeyStable<T>(xs: seq<(T, int)>, k: int)
    ensures WithKey(SortByKey(xs), k) == WithKey(xs, k)
  {
    if xs != [] {
      assert SortByKey(xs) == Insert(xs[0], SortByKey(xs[1..]));
      SortByKeyStable(xs[1..], k);
      InsertWithKey(xs[0], SortByKey(xs[1..]), k);
      WithKeyAppend([xs[0]], xs[1..], k);
      assert [xs[0]] + xs[1..] == xs;
    }
  }

  lemma ItemsAppend<T>(a: seq<(T, int)>, b: seq<(T, int)>)
    ensures Items(a + b) == Items(a) + Items(b)
  {
  }

  /** Dropping the keys of two rearrangements of one list gives two
      rearrangements of one list. */
  lemma {:induction false} ItemsPermutation<T>(xs: seq<(T, int)>, ys: seq<(T, int)>)
    requires multiset(xs) == multiset(ys)
    ensures multiset(Items(xs)) == multiset(Items(ys))
    decreases |xs|
  {
    if xs == [] {
      assert |ys| == |multiset(ys)| == 0;
    } else {
      var i, rest := RemoveFirst(xs, ys);
      var x := xs[0];
      ItemsPermutation(xs[1..], rest);
      ItemsAppend(ys[..i], ys[i + 1..]);
      ItemsAppend(ys[..i] + [x], ys[i + 1..]);
      ItemsAppend(ys[..i], [x]);
      ItemsAppend([x], xs[1..]);
    }
  }
}
