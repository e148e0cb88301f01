/**
  Two-species atoms (binary.rs): the enum A | B stored as its u8 discriminant, the concentration pair
  (c_a, c_b), and the two ways of drawing an atom. Random draws are parameters: the fair coin of
  Rng::gen and the uniform real behind Rng::gen_bool.
*/
module BinaryAtoms {
  import opened Options
  import opened Modular
  import opened Atoms

  /** BinAtoms; A is the default. */
  datatype BinAtom = A | B

  /** #[repr(u8)]: the discriminants 0 and 1. */
  function BinDiscriminant(a: BinAtom): Byte
  {
    match a
    case A => 0
    case B => 1
  }

  /** The atom a byte of the view stands for; only 0 and 1 are valid. */
  function BinFromByte(b: Byte): (r: Option<BinAtom>)
    ensures r.Some? <==> b < 2
    ensures r.Some? ==> BinDiscriminant(r.value) == b
  {
    if b == 0 then Some(A) else if b == 1 then Some(B) else None
  }

  /** Reading back the discriminant of an atom gives the atom. */
  lemma BinDiscriminantRoundTrip(a: BinAtom)
    ensures BinDiscriminant(a) < 2
    ensures BinFromByte(BinDiscriminant(a)) == Some(a)
  {
  }

  datatype BinConcentration = BinConcentration(cA: real, cB: real)

  /** BinConcentration::new as written: c_b is computed from n_a, the same as c_a. A zero total is
      excluded (NaN in f64). */
  function BinNewAsWritten(nA: real, nB: real): (c: BinConcentration)
    requires nA + nB != 0.0
    ensures c.cA * (nA + nB) == nA && c.cB * (nA + nB) == nA
  {
    BinConcentration(nA / (nA + nB), nA / (nA + nB))
  }

  /** With one A to three B the written c_b is a quarter, the share of A, instead of three quarters,
      and the two concentrations add up to one half instead of one. */
  lemma BinNewAsWrittenLosesB()
    ensures BinNewAsWritten(1.0, 3.0).cA + BinNewAsWritten(1.0, 3.0).cB == 0.5
    ensures BinNewAsWritten(1.0, 3.0).cB != 0.75
  {
    assert BinNewAsWritten(1.0, 3.0) == BinConcentration(0.25, 0.25);
  }

  /** BinConcentration::new as intended: each species' share of the total, the shares adding to one. */
  function BinNew(nA: real, nB: real): (c: BinConcentration)
    requires nA + nB != 0.0
    ensures c.cA * (nA + nB) == nA && c.cB * (nA + nB) == nB
    ensures c.cA + c.cB == 1.0
  {
    var t := nA + nB;
    assert nA / t + nB / t == 1.0 by { DivAdd(nA, nB, t); }
    BinConcentration(nA / t, nB / t)
  }

  /** The written and the intended constructor agree on c_a, and on c_b only when there are as many A as B. */
  lemma BinNewAgreement(nA: real, nB: real)
    requires nA + nB != 0.0
    ensures BinNewAsWritten(nA, nB).cA == BinNew(nA, nB).cA
    ensures BinNewAsWritten(nA, nB).cB == BinNew(nA, nB).cB <==> nA == nB
  {
    var t := nA + nB;
    assert BinNewAsWritten(nA, nB).cB * t == nA && BinNew(nA, nB).cB * t == nB;
  }

  /** Concentration::uniform: new(1, 1), one half each; here the written constructor gives the same. */
  function BinUniformConcentration(): (c: BinConcentration)
    ensures c.cA == 0.5 && c.cB == 0.5
    ensures c == BinNewAsWritten(1.0, 1.0)
  {
    BinNew(1.0, 1.0)
  }

  /** Non-negative counts with a positive total give a c_a that gen_bool accepts. */
  lemma BinNewInUnit(nA: real, nB: real)
    requires nA >= 0.0 && nB >= 0.0 && nA + nB > 0.0
    ensures 0.0 <= BinNew(nA, nB).cA <= 1.0 && 0.0 <= BinNew(nA, nB).cB <= 1.0
  {
  }

  /** RandAtom::uniform: A on heads, B on tails. */
  function BinUniform(heads: bool): (a: BinAtom)
    ensures a == A <==> heads
  {
    if heads then A else B
  }

  /** RandAtom::with_concentration: A when gen_bool(c_a) comes up true, B otherwise; a c_a outside
      [0, 1] is a panic. */
  function BinWithConcentration(c: BinConcentration, u: real): (r: Option<BinAtom>)
    requires 0.0 <= u < 1.0
    ensures r.Some? <==> 0.0 <= c.cA <= 1.0
    ensures r == Some(A) <==> 0.0 <= c.cA <= 1.0 && u < c.cA
  {
    match GenBool(c.cA, u)
    case None => None
    case Some(true) => Some(A)
    case Some(false) => Some(B)
  }

  /** Drawing from the concentration of non-negative counts never panics, and it draws A exactly below
      the share of A: a draw is A with probability n_a / (n_a + n_b). */
  lemma BinDrawFromCounts(nA: real, nB: real, u: real)
    requires nA >= 0.0 && nB >= 0.0 && nA + nB > 0.0
    requires 0.0 <= u < 1.0
    ensures BinWithConcentration(BinNew(nA, nB), u).Some?
    ensures BinWithConcentration(BinNew(nA, nB), u) == Some(A) <==> u < nA / (nA + nB)
  {
    BinNewInUnit(nA, nB);
  }

  /** From<&ModularArray<BinAtoms, W, H>> for &[u8]: one discriminant byte per cell, in buffer order. */
  function BinBytes(m: Grid<BinAtom>): (bs: seq<Byte>)
    ensures |bs| == |m.cells|
    ensures forall i :: 0 <= i < |m.cells| ==> BinFromByte(bs[i]) == Some(m.cells[i])
  {
    seq(|m.cells|, (i: int) requires 0 <= i < |m.cells| => BinDiscriminant(m.cells[i]))
  }
}
