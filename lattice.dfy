/**
  The lattice interface shared by every storage backing: a fixed set of sites 0..size-1 (the cells of the
  flat buffer), the order in which the backing's loops visit them, and its axes. Along each axis a site s
  has a bond partner, partner[s], the site the bond enumeration pairs it with (one step back for Array2d
  and Array3d, one step forward for FastArray), and rev[s], the site whose partner s is. A backing is an
  instance of this interface when it supplies these tables. The energy bookkeeping of the engines is
  proved here once, for every instance.
*/
module Lattice {
  import opened Arith
  import opened Sums

  datatype Axis = Axis(partner: seq<nat>, rev: seq<nat>)

  datatype Topology = Topology(size: nat, order: seq<nat>, position: seq<nat>, axes: seq<Axis>)

  /** Every table has one entry per site and names a site. */
  ghost predicate Tabled(t: Topology)
  {
    && |t.order| == t.size && |t.position| == t.size
    && (forall i :: 0 <= i < t.size ==> t.order[i] < t.size)
    && (forall i :: 0 <= i < t.size ==> t.position[i] < t.size)
    && (forall a :: 0 <= a < |t.axes| ==> |t.axes[a].partner| == t.size && |t.axes[a].rev| == t.size)
    && (forall a, s :: 0 <= a < |t.axes| && 0 <= s < t.size ==> t.axes[a].partner[s] < t.size)
    && (forall a, s :: 0 <= a < |t.axes| && 0 <= s < t.size ==> t.axes[a].rev[s] < t.size)
  }

  /** The two tables of an axis undo each other. */
  ghost predicate AxisInverse(ax: Axis, n: nat)
    requires |ax.partner| == n && |ax.rev| == n
    requires forall s :: 0 <= s < n ==> ax.partner[s] < n
    requires forall s :: 0 <= s < n ==> ax.rev[s] < n
  {
    && (forall s :: 0 <= s < n ==> ax.rev[ax.partner[s]] == s)
    && (forall s :: 0 <= s < n ==> ax.partner[ax.rev[s]] == s)
  }

  /** The visiting order is a permutation of the sites with inverse position, and along every axis
      the partner table and its reverse are permutations that undo each other. */
  ghost predicate WellFormed(t: Topology)
  {
    && Tabled(t)
    && (forall i :: 0 <= i < t.size ==> t.position[t.order[i]] == i)
    && (forall s :: 0 <= s < t.size ==> t.order[t.position[s]] == s)
    && (forall a :: 0 <= a < |t.axes| ==> AxisInverse(t.axes[a], t.size))
  }

  /** No site is its own neighbour (every axis of the torus has length at least two). */
  ghost predicate Simple(t: Topology)
  {
    && WellFormed(t)
    && forall a, s :: 0 <= a < |t.axes| && 0 <= s < t.size ==> t.axes[a].partner[s] != s
  }

  /** A simple topology is well formed and tabled. */
  lemma SimpleTabled(t: Topology)
    requires Simple(t)
    ensures WellFormed(t) && Tabled(t)
  {
  }

  /** The bond energy is the same for both orders of a pair. */
  ghost predicate Symmetric<A(!new)>(bond: (A, A) -> real)
  {
    forall x, y :: bond(x, y) == bond(y, x)
  }

  // ---------------------------------------------------------------- neighbours (all_neighbours_to)

  /** The neighbour list of p over the first k axes: the reverse partner, then the partner, axis by axis. */
  function NeighboursUpTo(t: Topology, p: nat, k: nat): (ns: seq<nat>)
    requires Tabled(t) && p < t.size && k <= |t.axes|
    ensures |ns| == 2 * k
    ensures forall j :: 0 <= j < |ns| ==> ns[j] < t.size
  {
    if k == 0 then []
    else NeighboursUpTo(t, p, k - 1) + [t.axes[k - 1].rev[p], t.axes[k - 1].partner[p]]
  }

  /** The 2·(number of axes) neighbours of p, the shape of a backing's all_neighbours_to. */
  function Neighbours(t: Topology, p: nat): (ns: seq<nat>)
    requires Tabled(t) && p < t.size
    ensures |ns| == 2 * |t.axes|
    ensures forall j :: 0 <= j < |ns| ==> ns[j] < t.size
  {
    NeighboursUpTo(t, p, |t.axes|)
  }

  /** Sum of bond(center, g[r]) over the sites r of ns, folded left to right (energies_around). */
  function Around<A>(g: seq<A>, bond: (A, A) -> real, center: A, ns: seq<nat>): real
    requires forall j :: 0 <= j < |ns| ==> ns[j] < |g|
  {
    SeqSum(ns, CellBond(g, bond, center))
  }

  /** The bond of the center atom with the atom at site r. */
  function CellBond<A>(g: seq<A>, bond: (A, A) -> real, center: A): nat -> real
  {
    (r: nat) => if r < |g| then bond(center, g[r]) else 0.0
  }

  /** A fold over four neighbours is the sum of the four bonds, in order. */
  lemma Around4<A>(g: seq<A>, bond: (A, A) -> real, c: A, ns: seq<nat>)
    requires |ns| == 4 && forall j :: 0 <= j < 4 ==> ns[j] < |g|
    ensures Around(g, bond, c, ns) == bond(c, g[ns[0]]) + bond(c, g[ns[1]]) + bond(c, g[ns[2]]) + bond(c, g[ns[3]])
  {
    var f := CellBond(g, bond, c);
    assert ns[..3][..2] == ns[..2] && ns[..2][..1] == ns[..1] && ns[..1][..0] == [];
    assert SeqSum(ns[..1], f) == f(ns[0]);
    assert SeqSum(ns[..2], f) == f(ns[0]) + f(ns[1]);
    assert SeqSum(ns[..3], f) == f(ns[0]) + f(ns[1]) + f(ns[2]);
    assert ns[..4] == ns;
  }

  /** A fold over six neighbours is the sum of the six bonds, in order. */
  lemma Around6<A>(g: seq<A>, bond: (A, A) -> real, c: A, ns: seq<nat>)
    requires |ns| == 6 && forall j :: 0 <= j < 6 ==> ns[j] < |g|
    ensures Around(g, bond, c, ns) == bond(c, g[ns[0]]) + bond(c, g[ns[1]]) + bond(c, g[ns[2]])
                                    + bond(c, g[ns[3]]) + bond(c, g[ns[4]]) + bond(c, g[ns[5]])
  {
    Around4(g, bond, c, ns[..4]);
    assert ns[..4] + [ns[4]] == ns[..5] && ns[..5] + [ns[5]] == ns;
    AroundSnoc(g, bond, c, ns[..4], ns[4]);
    AroundSnoc(g, bond, c, ns[..5], ns[5]);
  }

  /** The local energy of the atom at p with its neighbours. */
  function Local<A>(t: Topology, g: seq<A>, bond: (A, A) -> real, p: nat): real
    requires Tabled(t) && |g| == t.size && p < t.size
  {
    Around(g, bond, g[p], Neighbours(t, p))
  }

  // ---------------------------------------------------------------- bonds (all_neighbours)

  /** The pairs contributed by the i-th visited site along the first k axes: (its atom, its partner's atom). */
  function RowPairs<A>(t: Topology, g: seq<A>, i: nat, k: nat): (r: seq<(A, A)>)
    requires Tabled(t) && |g| == t.size && i < t.size && k <= |t.axes|
    ensures |r| == k
  {
    if k == 0 then []
    else RowPairs(t, g, i, k - 1) + [(g[t.order[i]], g[t.axes[k - 1].partner[t.order[i]]])]
  }

  /** The pairs of the first m visited sites, in visiting order. */
  function PairsUpTo<A>(t: Topology, g: seq<A>, m: nat): seq<(A, A)>
    requires Tabled(t) && |g| == t.size && m <= t.size
  {
    if m == 0 then [] else PairsUpTo(t, g, m - 1) + RowPairs(t, g, m - 1, |t.axes|)
  }

  /** Every bond of the lattice exactly once, as an ordered pair of atoms (all_neighbours). */
  function Pairs<A>(t: Topology, g: seq<A>): seq<(A, A)>
    requires Tabled(t) && |g| == t.size
  {
    PairsUpTo(t, g, t.size)
  }

  /** One pair per site and axis: the 2·W·H (or 3·W·H·D) bonds of the torus. */
  lemma {:induction false} PairsLength<A>(t: Topology, g: seq<A>, m: nat)
    requires Tabled(t) && |g| == t.size && m <= t.size
    ensures |PairsUpTo(t, g, m)| == m * |t.axes|
  {
    if m > 0 {
      PairsLength(t, g, m - 1);
      assert m * |t.axes| == (m - 1) * |t.axes| + |t.axes|;
    }
  }

  /** The bond list of a well-formed lattice has one pair per site and axis. */
  lemma ListLength<A>(t: Topology, g: seq<A>)
    requires WellFormed(t) && |g| == t.size
    ensures |Pairs(t, g)| == t.size * |t.axes|
  {
    PairsLength(t, g, t.size);
  }

  /** On a lattice with two axes the m-th visited site o contributes (g[o], g[partner o]) per axis. */
  lemma PairsStep2<A>(t: Topology, g: seq<A>, m: nat)
    requires Tabled(t) && |g| == t.size && m < t.size && |t.axes| == 2
    ensures PairsUpTo(t, g, m + 1) == PairsUpTo(t, g, m)
      + [(g[t.order[m]], g[t.axes[0].partner[t.order[m]]]), (g[t.order[m]], g[t.axes[1].partner[t.order[m]]])]
  {
    assert RowPairs(t, g, m, 1) == [(g[t.order[m]], g[t.axes[0].partner[t.order[m]]])];
  }

  /** On a lattice with three axes the m-th visited site o contributes (g[o], g[partner o]) per axis. */
  lemma PairsStep3<A>(t: Topology, g: seq<A>, m: nat)
    requires Tabled(t) && |g| == t.size && m < t.size && |t.axes| == 3
    ensures PairsUpTo(t, g, m + 1) == PairsUpTo(t, g, m)
      + [(g[t.order[m]], g[t.axes[0].partner[t.order[m]]]), (g[t.order[m]], g[t.axes[1].partner[t.order[m]]]),
         (g[t.order[m]], g[t.axes[2].partner[t.order[m]]])]
  {
    assert RowPairs(t, g, m, 1) == [(g[t.order[m]], g[t.axes[0].partner[t.order[m]]])];
    assert RowPairs(t, g, m, 2) == RowPairs(t, g, m, 1) + [(g[t.order[m]], g[t.axes[1].partner[t.order[m]]])];
  }

  /** On a lattice with two axes the neighbours of p are rev and partner along the first, then the second. */
  lemma NeighboursOf2(t: Topology, p: nat)
    requires Tabled(t) && p < t.size && |t.axes| == 2
    ensures Neighbours(t, p) == [t.axes[0].rev[p], t.axes[0].partner[p], t.axes[1].rev[p], t.axes[1].partner[p]]
  {
    assert NeighboursUpTo(t, p, 1) == [t.axes[0].rev[p], t.axes[0].partner[p]];
  }

  /** On a lattice with three axes the neighbours of p are rev and partner along each axis in turn. */
  lemma NeighboursOf3(t: Topology, p: nat)
    requires Tabled(t) && p < t.size && |t.axes| == 3
    ensures Neighbours(t, p) == [t.axes[0].rev[p], t.axes[0].partner[p], t.axes[1].rev[p], t.axes[1].partner[p],
                                 t.axes[2].rev[p], t.axes[2].partner[p]]
  {
    assert NeighboursUpTo(t, p, 1) == [t.axes[0].rev[p], t.axes[0].partner[p]];
    assert NeighboursUpTo(t, p, 2) == NeighboursUpTo(t, p, 1) + [t.axes[1].rev[p], t.axes[1].partner[p]];
  }

  /** Left fold of the bond energies of a list of pairs. */
  function Fold<A>(ps: seq<(A, A)>, bond: (A, A) -> real): real
  {
    SeqSum(ps, PairBond(bond))
  }

  function PairBond<A>(bond: (A, A) -> real): ((A, A)) -> real
  {
    (e: (A, A)) => bond(e.0, e.1)
  }

  /** The total energy: the sum of the bond energies of every bond of the lattice. */
  function Energy<A>(t: Topology, g: seq<A>, bond: (A, A) -> real): real
    requires Tabled(t) && |g| == t.size
  {
    Fold(Pairs(t, g), bond)
  }

  // ---------------------------------------------------------------- the same energy as a double sum

  /** The bond of the i-th visited site along axis a; zero outside the lattice. */
  function Bond<A>(t: Topology, g: seq<A>, bond: (A, A) -> real, i: nat, a: nat): real
  {
    if i < |t.order| && t.order[i] < |g| && a < |t.axes| && t.order[i] < |t.axes[a].partner|
       && t.axes[a].partner[t.order[i]] < |g|
    then bond(g[t.order[i]], g[t.axes[a].partner[t.order[i]]])
    else 0.0
  }

  /** Does the bond of the i-th visited site along axis a have p as an end? */
  predicate Touches(t: Topology, i: nat, a: nat, p: nat)
  {
    i < |t.order| && a < |t.axes| && t.order[i] < |t.axes[a].partner|
    && (t.order[i] == p || t.axes[a].partner[t.order[i]] == p)
  }

  function BondF<A>(t: Topology, g: seq<A>, bond: (A, A) -> real): (nat, nat) -> real
  {
    (i: nat, a: nat) => Bond(t, g, bond, i, a)
  }

  function TouchF<A>(t: Topology, g: seq<A>, bond: (A, A) -> real, p: nat): (nat, nat) -> real
  {
    (i: nat, a: nat) => if Touches(t, i, a, p) then Bond(t, g, bond, i, a) else 0.0
  }

  function AwayF<A>(t: Topology, g: seq<A>, bond: (A, A) -> real, p: nat): (nat, nat) -> real
  {
    (i: nat, a: nat) => if Touches(t, i, a, p) then 0.0 else Bond(t, g, bond, i, a)
  }

  /** The energy of the bonds that do not have p as an end. */
  function Away<A>(t: Topology, g: seq<A>, bond: (A, A) -> real, p: nat): real
  {
    Sum(t.size, RowSums(AwayF(t, g, bond, p), |t.axes|))
  }

  /** The fold of the bond list is the double sum of the bonds, visited site by visited site. */
  lemma {:induction false} EnergyIsSum<A>(t: Topology, g: seq<A>, bond: (A, A) -> real)
    requires Tabled(t) && |g| == t.size
    ensures Energy(t, g, bond) == Sum(t.size, RowSums(BondF(t, g, bond), |t.axes|))
  {
    PairsUpToIsSum(t, g, bond, t.size);
  }

  lemma {:induction false} PairsUpToIsSum<A>(t: Topology, g: seq<A>, bond: (A, A) -> real, m: nat)
    requires Tabled(t) && |g| == t.size && m <= t.size
    ensures Fold(PairsUpTo(t, g, m), bond) == Sum(m, RowSums(BondF(t, g, bond), |t.axes|))
  {
    hide Bond, RowPairs, Tabled;
    if m > 0 {
      PairsUpToIsSum(t, g, bond, m - 1);
      FoldAppend(PairsUpTo(t, g, m - 1), RowPairs(t, g, m - 1, |t.axes|), bond);
      RowPairsIsSum(t, g, bond, m - 1, |t.axes|);
    }
  }

  lemma {:induction false} RowPairsIsSum<A>(t: Topology, g: seq<A>, bond: (A, A) -> real, i: nat, k: nat)
    requires Tabled(t) && |g| == t.size && i < t.size && k <= |t.axes|
    ensures Fold(RowPairs(t, g, i, k), bond) == Sum(k, Row(BondF(t, g, bond), i))
  {
    if k > 0 {
      RowPairsIsSum(t, g, bond, i, k - 1);
      var r := RowPairs(t, g, i, k);
      assert r[..|r| - 1] == RowPairs(t, g, i, k - 1);
    }
  }

  lemma {:induction false} FoldAppend<A>(xs: seq<(A, A)>, ys: seq<(A, A)>, bond: (A, A) -> real)
    ensures Fold(xs + ys, bond) == Fold(xs, bond) + Fold(ys, bond)
  {
    SeqSumAppend(xs, ys, PairBond(bond));
  }

  /** Appending two pairs adds their two bond energies, in order. */
  lemma FoldTwo<A>(xs: seq<(A, A)>, a: (A, A), b: (A, A), bond: (A, A) -> real)
    ensures Fold(xs + [a, b], bond) == Fold(xs, bond) + bond(a.0, a.1) + bond(b.0, b.1)
  {
    FoldAppend(xs, [a, b], bond);
    assert [a, b][..1] == [a];
    SeqSumOne(a, PairBond(bond));
  }

  // ---------------------------------------------------------------- the local energy and the rest

  /** The energy of a center atom c with the two neighbours of site p along axis a. */
  function PairF<A>(t: Topology, g: seq<A>, bond: (A, A) -> real, c: A, p: nat): nat -> real
  {
    (a: nat) =>
      if a < |t.axes| && p < |t.axes[a].rev| && p < |t.axes[a].partner|
         && t.axes[a].rev[p] < |g| && t.axes[a].partner[p] < |g|
      then bond(c, g[t.axes[a].rev[p]]) + bond(c, g[t.axes[a].partner[p]])
      else 0.0
  }

  lemma {:induction false} AroundSnoc<A>(g: seq<A>, bond: (A, A) -> real, c: A, ns: seq<nat>, r: nat)
    requires forall j :: 0 <= j < |ns| ==> ns[j] < |g|
    requires r < |g|
    ensures Around(g, bond, c, ns + [r]) == Around(g, bond, c, ns) + bond(c, g[r])
  {
    assert (ns + [r])[..|ns|] == ns;
  }

  /** The fold over the neighbour list is the sum, axis by axis, of the two bonds along that axis. */
  lemma {:induction false} AroundNeighbours<A>(t: Topology, g: seq<A>, bond: (A, A) -> real, c: A, p: nat, k: nat)
    requires Tabled(t) && |g| == t.size && p < t.size && k <= |t.axes|
    ensures Around(g, bond, c, NeighboursUpTo(t, p, k)) == Sum(k, PairF(t, g, bond, c, p))
  {
    if k > 0 {
      var prev := NeighboursUpTo(t, p, k - 1);
      var u, v := t.axes[k - 1].rev[p], t.axes[k - 1].partner[p];
      AroundNeighbours(t, g, bond, c, p, k - 1);
      AroundSnoc(g, bond, c, prev, u);
      assert NeighboursUpTo(t, p, k) == (prev + [u]) + [v];
      AroundSnoc(g, bond, c, prev + [u], v);
    }
  }

  /** Along axis a, a bond not at one of the two visit positions below does not have p as an end. */
  lemma TouchOnlyTwo<A>(t: Topology, g: seq<A>, bond: (A, A) -> real, p: nat, a: nat, k: nat)
    requires WellFormed(t) && |g| == t.size && p < t.size && a < |t.axes| && k < t.size
    requires k != t.position[p] && k != t.position[t.axes[a].rev[p]]
    ensures Col(TouchF(t, g, bond, p), a)(k) == 0.0
  {
    var ax := t.axes[a];
    assert AxisInverse(ax, t.size);
    var s := t.order[k];
    assert t.position[s] == k;
    assert ax.rev[ax.partner[s]] == s;
  }

  lemma TouchZeros<A>(t: Topology, g: seq<A>, bond: (A, A) -> real, p: nat, a: nat)
    requires WellFormed(t) && |g| == t.size && p < t.size && a < |t.axes|
    ensures forall k :: 0 <= k < t.size && k != t.position[p] && k != t.position[t.axes[a].rev[p]] ==>
      Col(TouchF(t, g, bond, p), a)(k) == 0.0
  {
    forall k | 0 <= k < t.size && k != t.position[p] && k != t.position[t.axes[a].rev[p]]
      ensures Col(TouchF(t, g, bond, p), a)(k) == 0.0
    {
      TouchOnlyTwo(t, g, bond, p, a, k);
    }
  }

  /** The two bonds along axis a that have p as an end, and their energies. */
  lemma TouchEnds<A(!new)>(t: Topology, g: seq<A>, bond: (A, A) -> real, p: nat, a: nat)
    requires Simple(t) && Symmetric(bond) && |g| == t.size && p < t.size && a < |t.axes|
    ensures t.position[p] != t.position[t.axes[a].rev[p]]
    ensures Col(TouchF(t, g, bond, p), a)(t.position[p]) == bond(g[p], g[t.axes[a].partner[p]])
    ensures Col(TouchF(t, g, bond, p), a)(t.position[t.axes[a].rev[p]]) == bond(g[p], g[t.axes[a].rev[p]])
  {
    var ax := t.axes[a];
    var q := ax.rev[p];
    assert AxisInverse(ax, t.size);
    assert ax.partner[q] == p;
    assert t.order[t.position[p]] == p && t.order[t.position[q]] == q;
  }

  /** Along axis a, exactly two bonds have p as an end: p's own bond and the bond of the site whose partner p is. */
  lemma TouchColumn<A(!new)>(t: Topology, g: seq<A>, bond: (A, A) -> real, p: nat, a: nat)
    requires Simple(t) && Symmetric(bond) && |g| == t.size && p < t.size && a < |t.axes|
    ensures Sum(t.size, Col(TouchF(t, g, bond, p), a))
         == bond(g[p], g[t.axes[a].partner[p]]) + bond(g[p], g[t.axes[a].rev[p]])
  {
    TouchEnds(t, g, bond, p, a);
    TouchZeros(t, g, bond, p, a);
    SumOfTwo(t.size, Col(TouchF(t, g, bond, p), a), t.position[p], t.position[t.axes[a].rev[p]]);
  }

  /** The bonds with p as an end add up to the local energy of p. */
  lemma TouchSum<A(!new)>(t: Topology, g: seq<A>, bond: (A, A) -> real, p: nat)
    requires Simple(t) && Symmetric(bond) && |g| == t.size && p < t.size
    ensures Sum(t.size, RowSums(TouchF(t, g, bond, p), |t.axes|)) == Local(t, g, bond, p)
  {
    var n, m, T := t.size, |t.axes|, TouchF(t, g, bond, p);
    SumSwap(n, m, T);
    forall a: nat | a < m
      ensures ColSums(T, n)(a) == PairF(t, g, bond, g[p], p)(a)
    {
      TouchColumn(t, g, bond, p, a);
    }
    SumExt(m, ColSums(T, n), PairF(t, g, bond, g[p], p));
    AroundNeighbours(t, g, bond, g[p], p, m);
  }

  /** Split of the total energy at a site: the bonds away from p plus the local energy of p. */
  lemma TouchSplit<A(!new)>(t: Topology, g: seq<A>, bond: (A, A) -> real, p: nat)
    requires Simple(t) && Symmetric(bond) && |g| == t.size && p < t.size
    ensures Energy(t, g, bond) == Away(t, g, bond, p) + Local(t, g, bond, p)
  {
    EnergyIsSum(t, g, bond);
    SumAdd2(t.size, |t.axes|, TouchF(t, g, bond, p), AwayF(t, g, bond, p), BondF(t, g, bond));
    TouchSum(t, g, bond, p);
  }

  /** Changing the atom at p does not change the bonds away from p. */
  lemma AwayIgnoresSite<A>(t: Topology, g: seq<A>, bond: (A, A) -> real, p: nat, v: A)
    requires Tabled(t) && |g| == t.size && p < t.size
    ensures Away(t, g[p := v], bond, p) == Away(t, g, bond, p)
  {
    forall i, a | 0 <= i < t.size && 0 <= a < |t.axes|
      ensures AwayF(t, g[p := v], bond, p)(i, a) == AwayF(t, g, bond, p)(i, a)
    {
    }
    SumExt2(t.size, |t.axes|, AwayF(t, g[p := v], bond, p), AwayF(t, g, bond, p));
  }

  /** Changing one atom changes the total energy by the change of that site's local energy. */
  lemma PointUpdate<A(!new)>(t: Topology, g: seq<A>, bond: (A, A) -> real, p: nat, v: A)
    requires Simple(t) && Symmetric(bond) && |g| == t.size && p < t.size
    ensures Energy(t, g[p := v], bond) - Energy(t, g, bond) == Local(t, g[p := v], bond, p) - Local(t, g, bond, p)
  {
    TouchSplit(t, g, bond, p);
    TouchSplit(t, g[p := v], bond, p);
    AwayIgnoresSite(t, g, bond, p, v);
  }

  // ---------------------------------------------------------------- counting neighbours

  /** How often q occurs in ns. */
  function Count(ns: seq<nat>, q: nat): nat
  {
    if ns == [] then 0 else Count(ns[..|ns| - 1], q) + (if ns[|ns| - 1] == q then 1 else 0)
  }

  lemma CountPair(ns: seq<nat>, u: nat, v: nat, q: nat)
    ensures Count(ns + [u, v], q) == Count(ns, q) + (if u == q then 1 else 0) + (if v == q then 1 else 0)
  {
    assert (ns + [u, v])[..|ns| + 1] == ns + [u];
    assert (ns + [u])[..|ns|] == ns;
  }

  lemma CountStep(ps: seq<nat>, qs: seq<nat>, u1: nat, v1: nat, u2: nat, v2: nat, p: nat, q: nat)
    requires Count(ps, q) == Count(qs, p)
    requires (u1 == q) == (v2 == p) && (v1 == q) == (u2 == p)
    ensures Count(ps + [u1, v1], q) == Count(qs + [u2, v2], p)
  {
    CountPair(ps, u1, v1, q);
    CountPair(qs, u2, v2, p);
  }

  /** An element of ns is counted. */
  lemma {:induction false} CountMember(ns: seq<nat>, j: nat)
    requires j < |ns|
    ensures Count(ns, ns[j]) > 0
  {
    if j < |ns| - 1 {
      CountMember(ns[..|ns| - 1], j);
    }
  }

  /** q is as often a neighbour of p as p is of q. */
  lemma {:induction false} NeighbourCountSymmetric(t: Topology, p: nat, q: nat, k: nat)
    requires WellFormed(t) && p < t.size && q < t.size && k <= |t.axes|
    ensures Count(NeighboursUpTo(t, p, k), q) == Count(NeighboursUpTo(t, q, k), p)
  {
    if k > 0 {
      NeighbourCountSymmetric(t, p, q, k - 1);
      var ax := t.axes[k - 1];
      assert AxisInverse(ax, t.size);
      assert ax.rev[p] == q <==> ax.partner[q] == p;
      assert ax.partner[p] == q <==> ax.rev[q] == p;
      CountStep(NeighboursUpTo(t, p, k - 1), NeighboursUpTo(t, q, k - 1), ax.rev[p], ax.partner[p], ax.rev[q], ax.partner[q], p, q);
    }
  }

  lemma NeighboursSymmetric(t: Topology, p: nat, q: nat)
    requires WellFormed(t) && p < t.size && q < t.size
    ensures Count(Neighbours(t, p), q) == Count(Neighbours(t, q), p)
  {
    NeighbourCountSymmetric(t, p, q, |t.axes|);
  }

  /** No site is its own neighbour. */
  lemma {:induction false} NotOwnNeighbour(t: Topology, p: nat, k: nat)
    requires Simple(t) && p < t.size && k <= |t.axes|
    ensures Count(NeighboursUpTo(t, p, k), p) == 0
  {
    if k > 0 {
      NotOwnNeighbour(t, p, k - 1);
      var ax := t.axes[k - 1];
      assert AxisInverse(ax, t.size);
      assert ax.partner[p] != p;
      assert ax.partner[ax.rev[p]] != ax.rev[p];
      CountPair(NeighboursUpTo(t, p, k - 1), ax.rev[p], ax.partner[p], p);
    }
  }

  /** n copies of x added up. */
  function Times(n: nat, x: real): real
  {
    (n as real) * x
  }

  /** A positive number of copies of a non-zero number is non-zero. */
  lemma TimesNonZero(n: nat, x: real)
    requires n > 0 && x != 0.0
    ensures Times(n, x) != 0.0
  {
    RealNonZero(n as real, x);
  }

  /** Changing the atom at q changes a neighbour fold by the count of q times the change of its bond. */
  lemma {:induction false} AroundUpdate<A>(g: seq<A>, bond: (A, A) -> real, c: A, ns: seq<nat>, q: nat, v: A)
    requires forall j :: 0 <= j < |ns| ==> ns[j] < |g|
    requires q < |g|
    ensures Around(g[q := v], bond, c, ns) - Around(g, bond, c, ns)
         == Times(Count(ns, q), bond(c, v) - bond(c, g[q]))
  {
    if ns != [] {
      var init := ns[..|ns| - 1];
      AroundUpdate(g, bond, c, init, q, v);
      var d := bond(c, v) - bond(c, g[q]);
      if ns[|ns| - 1] == q {
        assert Times(Count(ns, q), d) == Times(Count(init, q), d) + d;
      }
    }
  }

  /** The local energy a hypothetical atom c would have at p is the fold around p with center c. */
  lemma Hypothetical<A>(t: Topology, g: seq<A>, bond: (A, A) -> real, p: nat, c: A)
    requires Simple(t) && |g| == t.size && p < t.size
    ensures Around(g, bond, c, Neighbours(t, p)) == Local(t, g[p := c], bond, p)
  {
    NotOwnNeighbour(t, p, |t.axes|);
    AroundUpdate(g, bond, c, Neighbours(t, p), p, c);
  }

  // ---------------------------------------------------------------- swapping two cells

  /** The atoms with the cells p and q exchanged. */
  function SwapSeq<A>(g: seq<A>, p: nat, q: nat): (r: seq<A>)
    requires p < |g| && q < |g|
    ensures |r| == |g| && r[p] == g[q] && r[q] == g[p]
    ensures forall k :: 0 <= k < |g| && k != p && k != q ==> r[k] == g[k]
  {
    g[p := g[q]][q := g[p]]
  }

  /** A swap keeps the multiset of species. */
  lemma SwapKeepsSpecies<A>(g: seq<A>, p: nat, q: nat)
    requires p < |g| && q < |g|
    ensures multiset(SwapSeq(g, p, q)) == multiset(g)
  {
  }

  /** Swapping the same two cells twice restores the atoms. */
  lemma SwapTwice<A>(g: seq<A>, p: nat, q: nat)
    requires p < |g| && q < |g|
    ensures SwapSeq(SwapSeq(g, p, q), p, q) == g
  {
  }

  /** In-place exchange of two cells (swap_idxs on the flat buffer). */
  method Swap<A>(a: array<A>, p: nat, q: nat)
    requires p < a.Length && q < a.Length
    modifies a
    ensures a[..] == SwapSeq(old(a[..]), p, q)
  {
    a[p], a[q] := a[q], a[p];
  }

  /** After the first half of a swap (p already holds b), writing a at q changes the local energy of p by
      the number of times q neighbours p times the change of the bond with q. */
  lemma SwapLocalFirst<A>(t: Topology, g: seq<A>, bond: (A, A) -> real, p: nat, q: nat)
    requires Tabled(t) && |g| == t.size && p < t.size && q < t.size && p != q
    ensures Local(t, SwapSeq(g, p, q), bond, p) - Local(t, g[p := g[q]], bond, p)
         == Times(Count(Neighbours(t, p), q), bond(g[q], g[p]) - bond(g[q], g[q]))
  {
    var g1 := g[p := g[q]];
    assert SwapSeq(g, p, q) == g1[q := g[p]];
    AroundUpdate(g1, bond, g[q], Neighbours(t, p), q, g[p]);
  }

  /** Writing b = g[q] at p changes the local energy of q by the number of times p neighbours q times the
      change of the bond with p. */
  lemma SwapLocalSecond<A>(t: Topology, g: seq<A>, bond: (A, A) -> real, p: nat, q: nat)
    requires Tabled(t) && |g| == t.size && p < t.size && q < t.size && p != q
    ensures Local(t, g[p := g[q]], bond, q) - Local(t, g, bond, q)
         == -Times(Count(Neighbours(t, q), p), bond(g[q], g[p]) - bond(g[q], g[q]))
  {
    AroundUpdate(g, bond, g[q], Neighbours(t, q), p, g[q]);
    var c, x := Count(Neighbours(t, q), p), bond(g[q], g[p]) - bond(g[q], g[q]);
    assert Times(c, bond(g[q], g[q]) - bond(g[q], g[p])) == -Times(c, x);
  }

  lemma CountScale(t: Topology, p: nat, q: nat, x: real)
    requires WellFormed(t) && p < t.size && q < t.size
    ensures Times(Count(Neighbours(t, q), p), x) == Times(Count(Neighbours(t, p), q), x)
  {
    NeighboursSymmetric(t, p, q);
  }

  /** The two intermediate changes of the local energies during a swap cancel: the shared bond of p and q
      (if any) is what changes in both, by opposite amounts. */
  lemma SwapLocalsCancel<A>(t: Topology, g: seq<A>, bond: (A, A) -> real, p: nat, q: nat)
    requires WellFormed(t) && |g| == t.size && p < t.size && q < t.size && p != q
    ensures (Local(t, SwapSeq(g, p, q), bond, p) - Local(t, g[p := g[q]], bond, p))
          + (Local(t, g[p := g[q]], bond, q) - Local(t, g, bond, q)) == 0.0
  {
    hide Local, SwapSeq;
    SwapLocalFirst(t, g, bond, p, q);
    SwapLocalSecond(t, g, bond, p, q);
    CountScale(t, p, q, bond(g[q], g[p]) - bond(g[q], g[q]));
  }

  /** The change of the total energy under a swap is the change of the two local energies: when p and q
      are neighbours their shared bond is counted in both sums, before and after, and cancels. */
  lemma SwapDelta<A(!new)>(t: Topology, g: seq<A>, bond: (A, A) -> real, p: nat, q: nat)
    requires Simple(t) && Symmetric(bond) && |g| == t.size && p < t.size && q < t.size && p != q
    ensures Energy(t, SwapSeq(g, p, q), bond) - Energy(t, g, bond)
         == (Local(t, SwapSeq(g, p, q), bond, p) + Local(t, SwapSeq(g, p, q), bond, q))
          - (Local(t, g, bond, p) + Local(t, g, bond, q))
  {
    var g1, g2 := g[p := g[q]], SwapSeq(g, p, q);
    assert g2 == g1[q := g[p]];
    PointUpdate(t, g, bond, p, g[q]);
    PointUpdate(t, g1, bond, q, g[p]);
    SwapLocalsCancel(t, g, bond, p, q);
  }

  /** The change of the local energies of p and q that swapping their atoms causes; each local energy is
      taken in the lattice it belongs to (before, then after the swap). */
  function SwapLocalDelta<A>(t: Topology, g: seq<A>, bond: (A, A) -> real, p: nat, q: nat): real
    requires Tabled(t) && |g| == t.size && p < t.size && q < t.size
  {
    (Local(t, SwapSeq(g, p, q), bond, p) + Local(t, SwapSeq(g, p, q), bond, q))
    - (Local(t, g, bond, p) + Local(t, g, bond, q))
  }

  /** The neighbours of p differ from p. */
  lemma NeighbourDiffers(t: Topology, p: nat, j: nat)
    requires Simple(t) && p < t.size && j < 2 * |t.axes|
    ensures Neighbours(t, p)[j] != p
  {
    NotOwnNeighbour(t, p, |t.axes|);
    CountMember(Neighbours(t, p), j);
  }

  /** The change a vacancy move from v to its neighbour number j is charged with: the local energy of the
      moved atom at its new site v minus its local energy at its old site. */
  function VacancyDelta<A>(t: Topology, g: seq<A>, bond: (A, A) -> real, v: nat, j: nat): real
    requires Tabled(t) && |g| == t.size && v < t.size && j < 2 * |t.axes|
  {
    var w := Neighbours(t, v)[j];
    Local(t, SwapSeq(g, v, w), bond, v) - Local(t, g, bond, w)
  }

  /** Moving the vacancy from v to its neighbour w: the bonds away from the vacancy change by the local
      energy of the moved atom at its new site minus its local energy at its old site. */
  lemma VacancyStep<A(!new)>(t: Topology, g: seq<A>, bond: (A, A) -> real, v: nat, j: nat)
    requires Simple(t) && Symmetric(bond) && |g| == t.size && v < t.size && j < 2 * |t.axes|
    ensures Neighbours(t, v)[j] != v
    ensures Away(t, SwapSeq(g, v, Neighbours(t, v)[j]), bond, Neighbours(t, v)[j]) - Away(t, g, bond, v)
         == VacancyDelta(t, g, bond, v, j)
  {
    var w := Neighbours(t, v)[j];
    NeighbourDiffers(t, v, j);
    var g2 := SwapSeq(g, v, w);
    SwapDelta(t, g, bond, v, w);
    TouchSplit(t, g, bond, v);
    TouchSplit(t, g2, bond, w);
  }

  // ---------------------------------------------------------------- bonds with multiplicity

  /** The energy of a list of (pair, multiplicity) entries: the sum of bond(pair) * multiplicity. */
  function Weighted<A>(es: seq<((A, A), nat)>, bond: (A, A) -> real): real
  {
    SeqSum(es, CountedBond(bond))
  }

  function CountedBond<A>(bond: (A, A) -> real): (((A, A), nat)) -> real
  {
    (e: ((A, A), nat)) => bond(e.0.0, e.0.1) * (e.1 as real)
  }

  /** Every pair of the list with multiplicity one. */
  function Unit<A>(ps: seq<(A, A)>): (es: seq<((A, A), nat)>)
    ensures |es| == |ps|
    ensures forall i :: 0 <= i < |ps| ==> es[i] == (ps[i], 1)
  {
    if ps == [] then [] else Unit(ps[..|ps| - 1]) + [(ps[|ps| - 1], 1)]
  }

  /** The bond list of the lattice as (pair, multiplicity) entries, the form the engine folds. */
  function Entries<A>(t: Topology, g: seq<A>): seq<((A, A), nat)>
    requires Tabled(t) && |g| == t.size
  {
    Unit(Pairs(t, g))
  }

  lemma {:induction false} WeightedUnit<A>(ps: seq<(A, A)>, bond: (A, A) -> real)
    ensures Weighted(Unit(ps), bond) == Fold(ps, bond)
  {
    if ps != [] {
      WeightedUnit(ps[..|ps| - 1], bond);
      var es := Unit(ps);
      assert es[..|es| - 1] == Unit(ps[..|ps| - 1]);
    }
  }

  /** Folding the entries with their multiplicities gives the total energy. */
  lemma EntriesEnergy<A>(t: Topology, g: seq<A>, bond: (A, A) -> real)
    requires Tabled(t) && |g| == t.size
    ensures Weighted(Entries(t, g), bond) == Energy(t, g, bond)
  {
    WeightedUnit(Pairs(t, g), bond);
  }
}
