/**
  Generic atoms with N species (atoms.rs). An atom is a transparent byte; a concentration (Concrete) is N
  non-negative weights normalised in place to sum to one. A random atom is drawn uniformly from 0..N, or by
  the weighted index of the concentration. Floating point numbers are modelled as reals, and each random
  draw is a parameter: the integer drawn from a range, or the real drawn uniformly below the total weight.
*/
module Atoms {
  import opened Options
  import opened Modular

  /** Atom<N>: one byte, the species number. */
  datatype Atom = Atom(b: Byte)

  /** Deref: the byte behind an atom. */
  function Deref(a: Atom): Byte
  {
    a.b
  }

  /** Concrete<N>: the weights of the N species. */
  datatype Concrete = Concrete(cs: seq<real>)

  /** The sum of the weights, added from the first to the last (iter().sum()). */
  function Total(ns: seq<real>): real
  {
    if ns == [] then 0.0 else Total(ns[..|ns| - 1]) + ns[|ns| - 1]
  }

  /** Every weight divided by the total. */
  function Normalized(ns: seq<real>): seq<real>
    requires ns != [] ==> Total(ns) != 0.0
  {
    seq(|ns|, (i: int) requires 0 <= i < |ns| => ns[i] / Total(ns))
  }

  /** Concrete::new: the total is computed first, then each component of a copy of the weights is divided
      by it in place. A zero total of a non-empty list is a division by zero (a NaN component in f64). */
  method ConcreteNew(ns: seq<real>) returns (c: Concrete)
    requires ns != [] ==> Total(ns) != 0.0
    ensures c.cs == Normalized(ns)
  {
    var nTot := Total(ns);
    var cs := new real[|ns|](i requires 0 <= i < |ns| => ns[i]);
    var i := 0;
    while i < cs.Length
      invariant 0 <= i <= cs.Length
      invariant forall j :: 0 <= j < i ==> cs[j] == ns[j] / nTot
      invariant forall j :: i <= j < cs.Length ==> cs[j] == ns[j]
    {
      cs[i] := cs[i] / nTot;
      i := i + 1;
    }
    c := Concrete(cs[..]);
  }

  /** Concrete::uniform: new applied to N weights of one, so every component is 1/N. */
  method ConcreteUniform(n: nat) returns (c: Concrete)
    ensures |c.cs| == n
    ensures forall i :: 0 <= i < n ==> c.cs[i] == 1.0 / (n as real)
  {
    TotalOnes(n);
    c := ConcreteNew(seq(n, _ => 1.0));
  }

  lemma {:induction false} TotalOnes(n: nat)
    ensures Total(seq(n, _ => 1.0)) == n as real
  {
    if n > 0 {
      TotalOnes(n - 1);
      assert seq(n, _ => 1.0)[..n - 1] == seq(n - 1, _ => 1.0);
    }
  }

  /** Dividing every weight by d divides the total by d. */
  lemma {:induction false} TotalScaled(ns: seq<real>, d: real)
    requires d != 0.0
    ensures Total(seq(|ns|, (i: int) requires 0 <= i < |ns| => ns[i] / d)) == Total(ns) / d
  {
    var s := seq(|ns|, (i: int) requires 0 <= i < |ns| => ns[i] / d);
    if ns != [] {
      var m := |ns| - 1;
      TotalScaled(ns[..m], d);
      assert s[..m] == seq(m, (i: int) requires 0 <= i < m => ns[..m][i] / d);
      DivAdd(Total(ns[..m]), ns[m], d);
    }
  }

  lemma DivAdd(a: real, b: real, d: real)
    requires d != 0.0
    ensures a / d + b / d == (a + b) / d
  {
  }

  lemma DivInUnit(a: real, s: real)
    requires 0.0 <= a <= s && s > 0.0
    ensures 0.0 <= a / s <= 1.0
  {
  }

  /** The components of a concentration add up to one. */
  lemma NormalizedSumsToOne(ns: seq<real>)
    requires ns != [] && Total(ns) != 0.0
    ensures Total(Normalized(ns)) == 1.0
  {
    var t := Total(ns);
    TotalScaled(ns, t);
    assert Normalized(ns) == seq(|ns|, (i: int) requires 0 <= i < |ns| => ns[i] / t);
    assert t / t == 1.0;
  }

  /** Normalising keeps the ratio of any two weights. */
  lemma NormalizedRatios(ns: seq<real>, i: nat, j: nat)
    requires ns != [] ==> Total(ns) != 0.0
    requires i < |ns| && j < |ns| && ns[j] != 0.0
    ensures Normalized(ns)[j] != 0.0
    ensures Normalized(ns)[i] / Normalized(ns)[j] == ns[i] / ns[j]
  {
    var t := Total(ns);
    assert Normalized(ns)[i] == ns[i] / t && Normalized(ns)[j] == ns[j] / t;
    RatioOfQuotients(ns[i], ns[j], t);
  }

  lemma RatioOfQuotients(a: real, b: real, t: real)
    requires b != 0.0 && t != 0.0
    ensures b / t != 0.0 && (a / t) / (b / t) == a / b
  {
  }

  /** Non-negative weights with a positive total give components between zero and one. */
  lemma NormalizedInUnit(ns: seq<real>, i: nat)
    requires forall j :: 0 <= j < |ns| ==> ns[j] >= 0.0
    requires i < |ns| && Total(ns) > 0.0
    ensures 0.0 <= Normalized(ns)[i] <= 1.0
  {
    TotalAtLeastPart(ns, i);
    assert Normalized(ns)[i] == ns[i] / Total(ns);
    DivInUnit(ns[i], Total(ns));
  }

  lemma {:induction false} TotalAtLeastPart(ns: seq<real>, i: nat)
    requires forall j :: 0 <= j < |ns| ==> ns[j] >= 0.0
    requires i < |ns|
    ensures ns[i] <= Total(ns)
  {
    var m := |ns| - 1;
    TotalNonNegative(ns[..m]);
    if i < m {
      TotalAtLeastPart(ns[..m], i);
    }
  }

  lemma {:induction false} TotalNonNegative(ns: seq<real>)
    requires forall j :: 0 <= j < |ns| ==> ns[j] >= 0.0
    ensures Total(ns) >= 0.0
  {
    if ns != [] {
      TotalNonNegative(ns[..|ns| - 1]);
    }
  }

  // ---------------------------------------------------------------- drawing an atom

  /** Atom::uniform: the species drawn from 0..(N as u8); the cast keeps N modulo 256. */
  function AtomUniform(n: nat, draw: nat): (a: Atom)
    requires draw < n % 256
    ensures a.b as int == draw && (a.b as int) < n
  {
    assert draw < 256 && draw < n;
    Atom(draw as Byte)
  }

  /** Rng::gen_bool(p) with its uniform draw u in [0, 1): true when u falls below p. A p outside [0, 1]
      (a NaN included) is a panic. */
  function GenBool(p: real, u: real): (r: Option<bool>)
    requires 0.0 <= u < 1.0
    ensures r.Some? <==> 0.0 <= p <= 1.0
    ensures p == 0.0 ==> r == Some(false)
    ensures p == 1.0 ==> r == Some(true)
    ensures r.Some? ==> (r.value <==> u < p)
  {
    if 0.0 <= p <= 1.0 then Some(u < p) else None
  }

  /** WeightedIndex::new succeeds on a non-empty list of non-negative weights that are not all zero. */
  predicate WeightsValid(cs: seq<real>)
  {
    cs != [] && (forall j :: 0 <= j < |cs| ==> cs[j] >= 0.0) && Total(cs) > 0.0
  }

  /** The weighted index of a draw u in [0, total): the index whose slice [cumulative weight before it,
      cumulative weight through it) holds u. */
  function Pick(cs: seq<real>, u: real): (i: nat)
    requires 0.0 <= u < Total(cs)
    ensures i < |cs| && Total(cs[..i]) <= u < Total(cs[..i]) + cs[i]
    decreases |cs|
  {
    var m := |cs| - 1;
    if u < Total(cs[..m]) then
      var i := Pick(cs[..m], u);
      assert cs[..m][..i] == cs[..i];
      i
    else
      assert cs[..|cs|] == cs;
      m
  }

  /** A weight of zero is never picked. */
  lemma PickPositive(cs: seq<real>, u: real)
    requires 0.0 <= u < Total(cs)
    ensures cs[Pick(cs, u)] > 0.0
  {
  }

  /** Atom::with_concentration: the weighted index of the draw, cast to a byte. WeightedIndex::new
      rejecting the weights is a panic (unwrap), None here. */
  function AtomWithConcentration(c: Concrete, u: real): (r: Option<Atom>)
    requires WeightsValid(c.cs) ==> 0.0 <= u < Total(c.cs)
    ensures r.Some? <==> WeightsValid(c.cs)
    ensures r.Some? && |c.cs| <= 256 ==> (r.value.b as int) < |c.cs| && c.cs[r.value.b] > 0.0
    ensures r.Some? && |c.cs| <= 256 ==> r.value.b as int == Pick(c.cs, u)
  {
    if WeightsValid(c.cs) then Some(Atom((Pick(c.cs, u) % 256) as Byte)) else None
  }

  // ---------------------------------------------------------------- the byte view

  /** size_of::<Atom<N>>(): one byte. */
  const AtomSize: nat := 1

  /** From<&ModularArray<Atom<N>, W, H>> for &[u8]: the buffer read as len · size_of bytes. */
  function AtomBytes(m: Grid<Atom>): (bs: seq<Byte>)
    ensures |bs| == |m.cells| * AtomSize
    ensures forall i :: 0 <= i < |m.cells| ==> bs[i] == Deref(m.cells[i])
  {
    seq(|m.cells|, (i: int) requires 0 <= i < |m.cells| => Deref(m.cells[i]))
  }
}
