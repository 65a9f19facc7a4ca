/** Facts about rearrangements of sequences shared by the sorting and the
    validation models. */
module SeqFacts {

  /** No element occurs twice. */
  predicate Distinct<T(==)>(xs: seq<T>) {
    forall i, j :: 0 <= i < j < |xs| ==> xs[i] != xs[j]
  }

  lemma DistinctCons<T>(x: T, xs: seq<T>)
    requires Distinct(xs) && x !in xs
    ensures Distinct([x] + xs)
  {
    forall i, j | 0 <= i < j < |xs| + 1
      ensures ([x] + xs)[i] != ([x] + xs)[j]
    {
      if i == 0 {
        assert ([x] + xs)[j] == xs[j - 1];
      }
    }
  }

  /** Dropping the head of a list without repeats leaves a list without
      repeats, and one that no longer holds the head. */
  lemma DistinctTail<T>(xs: seq<T>)
    requires Distinct(xs) && xs != []
    ensures Distinct(xs[1..]) && xs[0] !in xs[1..]
  {
    forall i, j | 0 <= i < j < |xs[1..]|
      ensures xs[1..][i] != xs[1..][j]
    {
      assert xs[1..][i] == xs[i + 1] && xs[1..][j] == xs[j + 1];
    }
    forall k | 0 <= k < |xs[1..]|
      ensures xs[1..][k] != xs[0]
    {
      assert xs[1..][k] == xs[k + 1];
    }
  }

  /** In a list without repeats every element occurs at most once. */
  lemma {:induction false} DistinctOnce<T>(xs: seq<T>)
    requires Distinct(xs)
    ensures forall x :: multiset(xs)[x] <= 1
  {
    if xs != [] {
      DistinctTail(xs);
      DistinctOnce(xs[1..]);
      assert xs == [xs[0]] + xs[1..];
      assert multiset(xs) == multiset{xs[0]} + multiset(xs[1..]);
    }
  }

  /** A rearrangement of a list without repeats has no repeats. */
  lemma DistinctPermutation<T>(xs: seq<T>, ys: seq<T>)
    requires Distinct(xs) && multiset(xs) == multiset(ys)
    ensures Distinct(ys)
  {
    DistinctOnce(xs);
    forall i, j | 0 <= i < j < |ys|
      ensures ys[i] != ys[j]
    {
      assert ys == ys[..j] + ys[j..];
      assert multiset(ys) == multiset(ys[..j]) + multiset(ys[j..]);
      assert multiset(ys)[ys[j]] <= 1 by {
        assert multiset(xs)[ys[j]] <= 1;
      }
      assert ys[j..][0] == ys[j];
      assert multiset(ys[j..])[ys[j]] >= 1;
      // ys[j] is already counted once after position j, so it does not
      // occur before it, where ys[i] does.
      assert multiset(ys[..j])[ys[j]] == 0;
      assert ys[i] in ys[..j];
    }
  }

  /** Finds the first element of `xs` in its rearrangement `ys` and removes
      it there; what is left of `ys` is a rearrangement of the rest of `xs`. */
  lemma RemoveFirst<T>(xs: seq<T>, ys: seq<T>) returns (i: nat, rest: seq<T>)
    requires xs != [] && multiset(xs) == multiset(ys)
    ensures i < |ys| && ys[i] == xs[0]
    ensures ys == ys[..i] + [xs[0]] + ys[i + 1..] && xs == [xs[0]] + xs[1..]
    ensures rest == ys[..i] + ys[i + 1..] && multiset(rest) == multiset(xs[1..])
  {
    var x := xs[0];
    assert x in multiset(ys);
    i :| 0 <= i < |ys| && ys[i] == x;
    rest := ys[..i] + ys[i + 1..];
    assert ys == ys[..i] + [x] + ys[i + 1..];
    assert xs == [x] + xs[1..];
    assert multiset(ys) == multiset(ys[..i]) + multiset{x} + multiset(ys[i + 1..]);
    assert multiset(rest) == multiset(ys[..i]) + multiset(ys[i + 1..]);
    assert multiset(rest) == multiset(ys) - multiset{x};
    assert multiset(xs[1..]) == multiset(xs) - multiset{x};
  }
}
