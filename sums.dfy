/** Finite sums of real-valued terms indexed by 0..n-1, the shape of every energy total. */
module Sums {

  /** f(0) + f(1) + ... + f(n-1), accumulated left to right as the source's loops do. */
  function Sum(n: nat, f: nat -> real): real
  {
    if n == 0 then 0.0 else Sum(n - 1, f) + f(n - 1)
  }

  /** Sums of terms that agree on the range are equal. */
  lemma {:induction false} SumExt(n: nat, f: nat -> real, g: nat -> real)
    requires forall i :: 0 <= i < n ==> f(i) == g(i)
    ensures Sum(n, f) == Sum(n, g)
  {
    if n > 0 {
      SumExt(n - 1, f, g);
    }
  }

  /** A sum of term-wise sums splits into two sums. */
  lemma {:induction false} SumAdd(n: nat, f: nat -> real, g: nat -> real, h: nat -> real)
    requires forall i :: 0 <= i < n ==> h(i) == f(i) + g(i)
    ensures Sum(n, h) == Sum(n, f) + Sum(n, g)
  {
    if n > 0 {
      SumAdd(n - 1, f, g, h);
    }
  }

  /** A sum whose terms vanish away from two distinct positions is the sum of those two terms. */
  lemma {:induction false} SumOfTwo(n: nat, f: nat -> real, i: nat, j: nat)
    requires i < n && j < n && i != j
    requires forall k :: 0 <= k < n && k != i && k != j ==> f(k) == 0.0
    ensures Sum(n, f) == f(i) + f(j)
  {
    if n - 1 == i {
      SumOfOne(n - 1, f, j);
    } else if n - 1 == j {
      SumOfOne(n - 1, f, i);
    } else {
      SumOfTwo(n - 1, f, i, j);
    }
  }

  /** A sum whose terms vanish away from one position is that term. */
  lemma {:induction false} SumOfOne(n: nat, f: nat -> real, i: nat)
    requires i < n
    requires forall k :: 0 <= k < n && k != i ==> f(k) == 0.0
    ensures Sum(n, f) == f(i)
  {
    if n - 1 == i {
      SumZero(n - 1, f);
    } else {
      SumOfOne(n - 1, f, i);
    }
  }

  /** A sum of vanishing terms is zero. */
  lemma {:induction false} SumZero(n: nat, f: nat -> real)
    requires forall k :: 0 <= k < n ==> f(k) == 0.0
    ensures Sum(n, f) == 0.0
  {
    if n > 0 {
      SumZero(n - 1, f);
    }
  }

  /** Row i of a double-indexed family of terms. */
  function Row(F: (nat, nat) -> real, i: nat): nat -> real
  {
    (a: nat) => F(i, a)
  }

  /** Column a of a double-indexed family of terms. */
  function Col(F: (nat, nat) -> real, a: nat): nat -> real
  {
    (i: nat) => F(i, a)
  }

  /** The sums of the first m terms of each row. */
  function RowSums(F: (nat, nat) -> real, m: nat): nat -> real
  {
    (i: nat) => Sum(m, Row(F, i))
  }

  /** The sums of the first n terms of each column. */
  function ColSums(F: (nat, nat) -> real, n: nat): nat -> real
  {
    (a: nat) => Sum(n, Col(F, a))
  }

  /** The order of summation of a finite double sum does not matter. */
  lemma {:induction false} SumSwap(n: nat, m: nat, F: (nat, nat) -> real)
    ensures Sum(n, RowSums(F, m)) == Sum(m, ColSums(F, n))
  {
    if n > 0 {
      SumSwap(n - 1, m, F);
      forall a: nat | a < m ensures ColSums(F, n)(a) == ColSums(F, n - 1)(a) + Row(F, n - 1)(a) {
      }
      SumAdd(m, ColSums(F, n - 1), Row(F, n - 1), ColSums(F, n));
      assert RowSums(F, m)(n - 1) == Sum(m, Row(F, n - 1));
      assert Sum(n, RowSums(F, m)) == Sum(n - 1, RowSums(F, m)) + RowSums(F, m)(n - 1);
    } else {
      SumZero(m, ColSums(F, 0));
    }
  }

  /** Double sums add pointwise. */
  lemma SumAdd2(n: nat, m: nat, F: (nat, nat) -> real, G: (nat, nat) -> real, H: (nat, nat) -> real)
    requires forall i, a :: 0 <= i < n && 0 <= a < m ==> H(i, a) == F(i, a) + G(i, a)
    ensures Sum(n, RowSums(H, m)) == Sum(n, RowSums(F, m)) + Sum(n, RowSums(G, m))
  {
    forall i: nat | i < n
      ensures RowSums(H, m)(i) == RowSums(F, m)(i) + RowSums(G, m)(i)
    {
      SumAdd(m, Row(F, i), Row(G, i), Row(H, i));
    }
    SumAdd(n, RowSums(F, m), RowSums(G, m), RowSums(H, m));
  }

  /** Double sums of pointwise equal terms are equal. */
  lemma SumExt2(n: nat, m: nat, F: (nat, nat) -> real, G: (nat, nat) -> real)
    requires forall i, a :: 0 <= i < n && 0 <= a < m ==> F(i, a) == G(i, a)
    ensures Sum(n, RowSums(F, m)) == Sum(n, RowSums(G, m))
  {
    forall i: nat | i < n
      ensures RowSums(F, m)(i) == RowSums(G, m)(i)
    {
      SumExt(m, Row(F, i), Row(G, i));
    }
    SumExt(n, RowSums(F, m), RowSums(G, m));
  }

  // ---------------------------------------------------------------- sums over a list

  /** Left fold of f over xs. */
  function SeqSum<T>(xs: seq<T>, f: T -> real): real
  {
    if xs == [] then 0.0 else SeqSum(xs[..|xs| - 1], f) + f(xs[|xs| - 1])
  }

  lemma {:induction false} SeqSumAppend<T>(xs: seq<T>, ys: seq<T>, f: T -> real)
    ensures SeqSum(xs + ys, f) == SeqSum(xs, f) + SeqSum(ys, f)
  {
    if ys == [] {
      assert xs + ys == xs;
    } else {
      assert (xs + ys)[..|xs + ys| - 1] == xs + ys[..|ys| - 1];
      SeqSumAppend(xs, ys[..|ys| - 1], f);
    }
  }

  lemma SeqSumOne<T>(x: T, f: T -> real)
    ensures SeqSum([x], f) == f(x)
  {
    assert [x][..0] == [];
  }

  lemma {:induction false} SeqSumRemove<T>(xs: seq<T>, j: nat, f: T -> real)
    requires j < |xs|
    ensures SeqSum(xs, f) == SeqSum(xs[..j] + xs[j + 1..], f) + f(xs[j])
  {
    var a, b := xs[..j], xs[j + 1..];
    assert xs == a + ([xs[j]] + b);
    SeqSumAppend(a, [xs[j]] + b, f);
    SeqSumAppend([xs[j]], b, f);
    SeqSumAppend(a, b, f);
    SeqSumOne(xs[j], f);
  }

  lemma MultisetRemove<T>(ys: seq<T>, j: nat)
    requires j < |ys|
    ensures multiset(ys[..j] + ys[j + 1..]) == multiset(ys) - multiset{ys[j]}
  {
    assert ys == ys[..j] + [ys[j]] + ys[j + 1..];
  }

  /** The sum does not depend on the order of the list. */
  lemma {:induction false} SeqSumPermutation<T>(xs: seq<T>, ys: seq<T>, f: T -> real)
    requires multiset(xs) == multiset(ys)
    ensures SeqSum(xs, f) == SeqSum(ys, f)
  {
    if xs == [] {
      assert |ys| == |multiset(ys)| == 0;
    } else {
      var init, x := xs[..|xs| - 1], xs[|xs| - 1];
      assert x in multiset(ys) by {
        assert xs == init + [x];
      }
      var j :| 0 <= j < |ys| && ys[j] == x;
      MultisetRemove(ys, j);
      MultisetRemove(xs, |xs| - 1);
      assert xs[..|xs| - 1] + xs[|xs|..] == init;
      SeqSumPermutation(init, ys[..j] + ys[j + 1..], f);
      SeqSumRemove(ys, j, f);
    }
  }
}
