/**
  Three-species atoms over a ModularGrid (trinary.rs): the enum A | B | C stored as its u8 discriminant,
  and a concentration given as the pair (share of A, share of B). A weighted draw is a chain of two
  Bernoulli draws: A with probability c.0, otherwise B with probability c.1 / (1 - c.0), otherwise C.
  Random draws are parameters: the integer drawn from 0..3 and the uniform reals behind gen_bool.
*/
module TrinaryAtoms {
  import opened Options
  import opened Modular
  import opened Atoms

  /** TriAtoms; A is the default. */
  datatype TriAtom = A | B | C

  /** #[repr(u8)]: the discriminants 0, 1 and 2. */
  function TriDiscriminant(a: TriAtom): Byte
  {
    match a
    case A => 0
    case B => 1
    case C => 2
  }

  /** The atom a byte of the view stands for; only 0, 1 and 2 are valid. */
  function TriFromByte(b: Byte): (r: Option<TriAtom>)
    ensures r.Some? <==> b < 3
    ensures r.Some? ==> TriDiscriminant(r.value) == b
  {
    if b == 0 then Some(A) else if b == 1 then Some(B) else if b == 2 then Some(C) else None
  }

  /** Reading back the discriminant of an atom gives the atom. */
  lemma TriDiscriminantRoundTrip(a: TriAtom)
    ensures TriDiscriminant(a) < 3
    ensures TriFromByte(TriDiscriminant(a)) == Some(a)
  {
  }

  /** The conditional probability of B once A was rejected, c.1 / (1 - c.0); None stands for the
      infinity or NaN of a division by zero when c.0 is one. */
  function TriSecondOdds(c: (real, real)): (r: Option<real>)
    ensures r.Some? <==> c.0 != 1.0
    ensures r.Some? ==> r.value * (1.0 - c.0) == c.1
  {
    if c.0 != 1.0 then Some(c.1 / (1.0 - c.0)) else None
  }

  /** RandAtom::uniform: the integer drawn from 0..3 is the discriminant of the atom; any other integer
      is unreachable. */
  function TriUniform(k: nat): (a: TriAtom)
    requires k < 3
    ensures TriDiscriminant(a) as int == k
  {
    if k == 0 then A else if k == 1 then B else C
  }

  /** RandAtom::with_concentration: A when gen_bool(c.0) comes up true, else B when
      gen_bool(c.1 / (1 - c.0)) does, else C. A probability outside [0, 1] is a panic, but the second draw
      is only made when the first comes up false. */
  function TriWithConcentration(c: (real, real), u1: real, u2: real): (r: Option<TriAtom>)
    requires 0.0 <= u1 < 1.0 && 0.0 <= u2 < 1.0
    ensures r == Some(A) <==> 0.0 <= c.0 <= 1.0 && u1 < c.0
    ensures r == Some(B) <==> (0.0 <= c.0 < 1.0 && c.0 <= u1
                               && 0.0 <= c.1 / (1.0 - c.0) <= 1.0 && u2 < c.1 / (1.0 - c.0))
    ensures r == Some(C) <==> (0.0 <= c.0 < 1.0 && c.0 <= u1
                               && 0.0 <= c.1 / (1.0 - c.0) <= 1.0 && c.1 / (1.0 - c.0) <= u2)
  {
    match GenBool(c.0, u1)
    case None => None
    case Some(true) => Some(A)
    case Some(false) =>
      match TriSecondOdds(c)
      case None => None
      case Some(p) =>
        match GenBool(p, u2)
        case None => None
        case Some(true) => Some(B)
        case Some(false) => Some(C)
  }

  /** A concentration of non-negative shares adding up to at most one never panics, not even when c.0 is
      one: the first draw then always gives A. */
  lemma TriDrawTotal(c: (real, real), u1: real, u2: real)
    requires 0.0 <= c.0 && 0.0 <= c.1 && c.0 + c.1 <= 1.0
    requires 0.0 <= u1 < 1.0 && 0.0 <= u2 < 1.0
    ensures TriWithConcentration(c, u1, u2).Some?
  {
    if c.0 < 1.0 {
      DivInUnit(c.1, 1.0 - c.0);
    }
  }

  /** The chain of draws reproduces the concentration: rejecting A (probability 1 - c.0) and then taking
      B gives c.1, rejecting both gives the rest, 1 - c.0 - c.1. */
  lemma TriChainShares(c: (real, real))
    requires c.0 != 1.0
    ensures (1.0 - c.0) * TriSecondOdds(c).value == c.1
    ensures (1.0 - c.0) * (1.0 - TriSecondOdds(c).value) == 1.0 - c.0 - c.1
  {
  }

  /** From<&ModularGrid<TriAtoms>> for &[u8]: one discriminant byte per cell, in buffer order. */
  function TriBytes(m: Grid<TriAtom>): (bs: seq<Byte>)
    ensures |bs| == |m.cells|
    ensures forall i :: 0 <= i < |m.cells| ==> TriFromByte(bs[i]) == Some(m.cells[i])
  {
    seq(|m.cells|, (i: int) requires 0 <= i < |m.cells| => TriDiscriminant(m.cells[i]))
  }
}
