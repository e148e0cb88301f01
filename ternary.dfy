/**
  Three-species atoms (ternary.rs): the enum A | B | C stored as its u8 discriminant, the concentration
  (c_a, c_b, c_c, c_b_without_a) and the two ways of drawing an atom. A weighted draw is a chain of two
  Bernoulli draws: A with probability c_a, otherwise B with probability c_b_without_a, otherwise C.
  Random draws are parameters: the integer drawn from 0..3 and the uniform reals behind gen_bool.
*/
module TernaryAtoms {
  import opened Options
  import opened Modular
  import opened Atoms

  /** TerAtoms; A is the default. */
  datatype TerAtom = A | B | C

  /** #[repr(u8)]: the discriminants 0, 1 and 2. */
  function TerDiscriminant(a: TerAtom): Byte
  {
    match a
    case A => 0
    case B => 1
    case C => 2
  }

  /** The atom a byte of the view stands for; only 0, 1 and 2 are valid. */
  function TerFromByte(b: Byte): (r: Option<TerAtom>)
    ensures r.Some? <==> b < 3
    ensures r.Some? ==> TerDiscriminant(r.value) == b
  {
    if b == 0 then Some(A) else if b == 1 then Some(B) else if b == 2 then Some(C) else None
  }

  /** Reading back the discriminant of an atom gives the atom. */
  lemma TerDiscriminantRoundTrip(a: TerAtom)
    ensures TerDiscriminant(a) < 3
    ensures TerFromByte(TerDiscriminant(a)) == Some(a)
  {
  }

  /** c_b_without_a is the share of B among the atoms that are not A; None stands for the NaN of
      0 / 0 when there are neither B nor C. */
  datatype TerConcentration = TerConcentration(cA: real, cB: real, cC: real, cBWithoutA: Option<real>)

  /** TerConcentration::new: each species' share of the total, and the share of B among B and C. A zero
      total is excluded (NaN in f64). */
  function TerNew(nA: real, nB: real, nC: real): (c: TerConcentration)
    requires nA + nB + nC != 0.0
    ensures c.cA * (nA + nB + nC) == nA && c.cB * (nA + nB + nC) == nB && c.cC * (nA + nB + nC) == nC
    ensures c.cA + c.cB + c.cC == 1.0
    ensures c.cBWithoutA.Some? <==> nB + nC != 0.0
    ensures c.cBWithoutA.Some? ==> c.cBWithoutA.value * (nB + nC) == nB
  {
    var t := nA + nB + nC;
    assert nA / t + nB / t + nC / t == 1.0 by {
      DivAdd(nA, nB, t);
      DivAdd(nA + nB, nC, t);
    }
    TerConcentration(nA / t, nB / t, nC / t, if nB + nC != 0.0 then Some(nB / (nB + nC)) else None)
  }

  /** Concentration::uniform: new(1, 1, 1), a third each, and one half of the non-A atoms are B. */
  function TerUniformConcentration(): (c: TerConcentration)
    ensures c.cA == 1.0 / 3.0 && c.cB == 1.0 / 3.0 && c.cC == 1.0 / 3.0
    ensures c.cBWithoutA == Some(0.5)
  {
    TerNew(1.0, 1.0, 1.0)
  }

  /** The chain of draws reproduces the concentration: skipping A (probability 1 - c_a) and then taking
      B gives c_b, skipping both gives c_c. */
  lemma TerChainShares(nA: real, nB: real, nC: real)
    requires nA + nB + nC != 0.0 && nB + nC != 0.0
    ensures (1.0 - TerNew(nA, nB, nC).cA) * TerNew(nA, nB, nC).cBWithoutA.value == TerNew(nA, nB, nC).cB
    ensures (1.0 - TerNew(nA, nB, nC).cA) * (1.0 - TerNew(nA, nB, nC).cBWithoutA.value) == TerNew(nA, nB, nC).cC
  {
    var t, s := nA + nB + nC, nB + nC;
    var c := TerNew(nA, nB, nC);
    var w := c.cBWithoutA.value;
    assert 1.0 - c.cA == s / t by {
      assert c.cA == nA / t && t / t == 1.0;
      DivAdd(nA, s, t);
    }
    ChainStep(nB, s, t);
    ChainStep(nC, s, t);
    assert 1.0 - w == nC / s by {
      assert w == nB / s && s / s == 1.0;
      DivAdd(nB, nC, s);
    }
  }

  /** (s / t) · (x / s) = x / t. */
  lemma ChainStep(x: real, s: real, t: real)
    requires s != 0.0 && t != 0.0
    ensures (s / t) * (x / s) == x / t
  {
  }

  /** RandAtom::uniform: the integer drawn from 0..3 is the discriminant of the atom; any other integer
      is unreachable. */
  function TerUniform(k: nat): (a: TerAtom)
    requires k < 3
    ensures TerDiscriminant(a) as int == k
  {
    if k == 0 then A else if k == 1 then B else C
  }

  /** RandAtom::with_concentration: A when gen_bool(c_a) comes up true, else B when
      gen_bool(c_b_without_a) does, else C. A probability outside [0, 1], or the NaN, is a panic, but the
      second draw is only made when the first comes up false. */
  function TerWithConcentration(c: TerConcentration, u1: real, u2: real): (r: Option<TerAtom>)
    requires 0.0 <= u1 < 1.0 && 0.0 <= u2 < 1.0
    ensures r == Some(A) <==> 0.0 <= c.cA <= 1.0 && u1 < c.cA
    ensures r == Some(B) <==> (0.0 <= c.cA <= 1.0 && c.cA <= u1 && c.cBWithoutA.Some?
                               && 0.0 <= c.cBWithoutA.value <= 1.0 && u2 < c.cBWithoutA.value)
    ensures r == Some(C) <==> (0.0 <= c.cA <= 1.0 && c.cA <= u1 && c.cBWithoutA.Some?
                               && 0.0 <= c.cBWithoutA.value <= 1.0 && c.cBWithoutA.value <= u2)
  {
    match GenBool(c.cA, u1)
    case None => None
    case Some(true) => Some(A)
    case Some(false) =>
      if c.cBWithoutA.None? then None
      else
        match GenBool(c.cBWithoutA.value, u2)
        case None => None
        case Some(true) => Some(B)
        case Some(false) => Some(C)
  }

  /** Drawing from the concentration of non-negative counts never panics, not even when there are
      neither B nor C: c_a is then one and the first draw always gives A. */
  lemma TerDrawFromCountsTotal(nA: real, nB: real, nC: real, u1: real, u2: real)
    requires nA >= 0.0 && nB >= 0.0 && nC >= 0.0 && nA + nB + nC > 0.0
    requires 0.0 <= u1 < 1.0 && 0.0 <= u2 < 1.0
    ensures TerWithConcentration(TerNew(nA, nB, nC), u1, u2).Some?
  {
    var c := TerNew(nA, nB, nC);
    var t := nA + nB + nC;
    assert 0.0 <= c.cA <= 1.0 && 0.0 <= c.cB && 0.0 <= c.cC;
    if nB + nC == 0.0 {
      assert c.cA == 1.0;
    } else {
      DivInUnit(nB, nB + nC);
    }
  }

  /** From<&ModularArray<TerAtoms, W, H>> for &[u8]: one discriminant byte per cell, in buffer order. */
  function TerBytes(m: Grid<TerAtom>): (bs: seq<Byte>)
    ensures |bs| == |m.cells|
    ensures forall i :: 0 <= i < |m.cells| ==> TerFromByte(bs[i]) == Some(m.cells[i])
  {
    seq(|m.cells|, (i: int) requires 0 <= i < |m.cells| => TerDiscriminant(m.cells[i]))
  }
}
