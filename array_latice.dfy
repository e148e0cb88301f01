/**
  The older 2-D engine ArrayLatice<A, WIDTH, HEIGHT> (two copies of the same code): atoms on a ModularArray,
  a bond-energy function and a lazily cached total energy. A swap move computes the energy the two atoms
  would have at each other's sites without moving them (energies_around with a hypothetical atom), and it
  keeps drawing pairs until that difference is not positive, then commits the swap. Random draws are
  parameters: the atoms of the initial fill in the order they are drawn, and the candidate index pairs in
  the order they are drawn.
*/
module ArrayLaticeEngine {
  import opened Options
  import opened Arith
  import opened Lattice
  import opened Torus
  import opened Array2dGrid

  /** The difference the source computes for swapping the atoms of p and q: each atom's bonds summed
      around the other's site in the lattice as it is, minus the two local energies. */
  function HypotheticalDelta<A>(t: Topology, g: seq<A>, bond: (A, A) -> real, p: nat, q: nat): real
    requires Tabled(t) && |g| == t.size && p < t.size && q < t.size
  {
    (Around(g, bond, g[q], Neighbours(t, p)) + Around(g, bond, g[p], Neighbours(t, q)))
    - (Local(t, g, bond, p) + Local(t, g, bond, q))
  }

  /** energies_around does not look at the site itself: on a lattice where no site neighbours itself, the
      hypothetical sum is blind to the atom at that site. */
  lemma AroundIgnoresSite<A>(t: Topology, g: seq<A>, bond: (A, A) -> real, p: nat, c: A, v: A)
    requires Simple(t) && |g| == t.size && p < t.size
    ensures Around(g[p := v], bond, c, Neighbours(t, p)) == Around(g, bond, c, Neighbours(t, p))
  {
    NotOwnNeighbour(t, p, |t.axes|);
    AroundUpdate(g, bond, c, Neighbours(t, p), p, v);
  }

  /** 2·bond(a, b) - bond(a, a) - bond(b, b): what exchanging a and b across a bond between them changes. */
  function Bracket<A>(bond: (A, A) -> real, a: A, b: A): real
  {
    2.0 * bond(a, b) - bond(a, a) - bond(b, b)
  }

  /** The gap between the hypothetical difference and the true change of the two local energies: it is the
      number of bonds between p and q times 2·bond(a, b) - bond(a, a) - bond(b, b), so the two agree for
      sites that are not neighbours and differ for neighbours unless that bracket vanishes. */
  lemma HypotheticalGap<A(!new)>(t: Topology, g: seq<A>, bond: (A, A) -> real, p: nat, q: nat)
    requires Simple(t) && Symmetric(bond) && |g| == t.size && p < t.size && q < t.size && p != q
    ensures SwapLocalDelta(t, g, bond, p, q) - HypotheticalDelta(t, g, bond, p, q)
         == Times(Count(Neighbours(t, p), q), Bracket(bond, g[p], g[q]))
  {
    hide *;
    SimpleTabled(t);
    GapAt(t, g, bond, p, q);
    GapAtSecond(t, g, bond, p, q);
    GapAlgebra(Local(t, SwapSeq(g, p, q), bond, p), Local(t, SwapSeq(g, p, q), bond, q),
               Around(g, bond, g[q], Neighbours(t, p)), Around(g, bond, g[p], Neighbours(t, q)),
               Count(Neighbours(t, p), q), bond, g[p], g[q]);
    DeltasDiffer(t, g, bond, p, q);
  }

  /** The arithmetic that closes the gap: two per-site gaps with the same multiplicity add up. */
  lemma GapAlgebra<A(!new)>(l1p: real, l1q: real, ap: real, aq: real, k: nat, bond: (A, A) -> real, a: A, b: A)
    requires l1p - ap == Times(k, bond(b, a) - bond(b, b)) && l1q - aq == Times(k, bond(a, b) - bond(a, a))
    requires Symmetric(bond)
    ensures (l1p + l1q) - (ap + aq) == Times(k, Bracket(bond, a, b))
  {
    RealDistrib(k as real, bond(a, b) - bond(b, b), bond(a, b) - bond(a, a));
  }

  /** After the swap, the local energy at p less the hypothetical sum of q's atom around p: only the bond
      with q itself differs, once per time q neighbours p. */
  lemma GapAt<A>(t: Topology, g: seq<A>, bond: (A, A) -> real, p: nat, q: nat)
    requires Simple(t) && |g| == t.size && p < t.size && q < t.size && p != q
    ensures Local(t, SwapSeq(g, p, q), bond, p) - Around(g, bond, g[q], Neighbours(t, p))
         == Times(Count(Neighbours(t, p), q), bond(g[q], g[p]) - bond(g[q], g[q]))
  {
    hide Local, Around, SwapSeq, Neighbours, Count;
    Hypothetical(t, g, bond, p, g[q]);
    SwapLocalFirst(t, g, bond, p, q);
  }

  /** The same at q, with the multiplicity counted from p's side. */
  lemma GapAtSecond<A>(t: Topology, g: seq<A>, bond: (A, A) -> real, p: nat, q: nat)
    requires Simple(t) && |g| == t.size && p < t.size && q < t.size && p != q
    ensures Local(t, SwapSeq(g, p, q), bond, q) - Around(g, bond, g[p], Neighbours(t, q))
         == Times(Count(Neighbours(t, p), q), bond(g[p], g[q]) - bond(g[p], g[p]))
  {
    hide *;
    SimpleTabled(t);
    GapAt(t, g, bond, q, p);
    SwapFlip(g, p, q);
    CountScale(t, p, q, bond(g[p], g[q]) - bond(g[p], g[p]));
  }

  /** The source's difference and the true change of the two local energies share their subtracted part. */
  lemma DeltasDiffer<A>(t: Topology, g: seq<A>, bond: (A, A) -> real, p: nat, q: nat)
    requires Tabled(t) && |g| == t.size && p < t.size && q < t.size
    ensures SwapLocalDelta(t, g, bond, p, q) - HypotheticalDelta(t, g, bond, p, q)
         == (Local(t, SwapSeq(g, p, q), bond, p) + Local(t, SwapSeq(g, p, q), bond, q))
          - (Around(g, bond, g[q], Neighbours(t, p)) + Around(g, bond, g[p], Neighbours(t, q)))
  {
  }

  lemma DeltasUnfold<A>(t: Topology, g: seq<A>, bond: (A, A) -> real, p: nat, q: nat)
    requires Tabled(t) && |g| == t.size && p < t.size && q < t.size
    ensures SwapLocalDelta(t, g, bond, p, q)
         == (Local(t, SwapSeq(g, p, q), bond, p) + Local(t, SwapSeq(g, p, q), bond, q)) - (Local(t, g, bond, p) + Local(t, g, bond, q))
    ensures HypotheticalDelta(t, g, bond, p, q)
         == (Around(g, bond, g[q], Neighbours(t, p)) + Around(g, bond, g[p], Neighbours(t, q))) - (Local(t, g, bond, p) + Local(t, g, bond, q))
  {
  }

  lemma SwapFlip<A>(g: seq<A>, p: nat, q: nat)
    requires p < |g| && q < |g| && p != q
    ensures SwapSeq(g, q, p) == SwapSeq(g, p, q)
  {
  }

  /** For sites that are not neighbours the hypothetical difference is the change of the total energy. */
  lemma HypotheticalApart<A(!new)>(t: Topology, g: seq<A>, bond: (A, A) -> real, p: nat, q: nat)
    requires Simple(t) && Symmetric(bond) && |g| == t.size && p < t.size && q < t.size && p != q
    requires Count(Neighbours(t, p), q) == 0
    ensures HypotheticalDelta(t, g, bond, p, q) == Energy(t, SwapSeq(g, p, q), bond) - Energy(t, g, bond)
  {
    HypotheticalGap(t, g, bond, p, q);
    SwapDelta(t, g, bond, p, q);
  }

  /** For neighbours whose bracket does not vanish the hypothetical difference is not the change of the
      total energy: the swap is judged on a wrong number. */
  lemma HypotheticalAdjacentWrong<A(!new)>(t: Topology, g: seq<A>, bond: (A, A) -> real, p: nat, q: nat)
    requires Simple(t) && Symmetric(bond) && |g| == t.size && p < t.size && q < t.size && p != q
    requires Count(Neighbours(t, p), q) > 0
    requires Bracket(bond, g[p], g[q]) != 0.0
    ensures HypotheticalDelta(t, g, bond, p, q) != Energy(t, SwapSeq(g, p, q), bond) - Energy(t, g, bond)
  {
    hide *;
    SimpleTabled(t);
    HypotheticalGap(t, g, bond, p, q);
    SwapDelta(t, g, bond, p, q);
    DeltasUnfold(t, g, bond, p, q);
    TimesNonZero(Count(Neighbours(t, p), q), Bracket(bond, g[p], g[q]));
  }

  /** The bond table of the binary drivers, [-4, 3, 3, -1] indexed by 2·a1 + a2, on atoms 0 and 1. */
  function DriverBond(a1: nat, a2: nat): real
  {
    if a1 == 0 && a2 == 0 then -4.0 else if a1 == 1 && a2 == 1 then -1.0 else 3.0
  }

  /** With that table the bracket of an A–B pair is 11, so a neighbouring A–B swap is misjudged by 11. */
  lemma DriverBondBracket()
    ensures Symmetric(DriverBond)
    ensures Bracket(DriverBond, 0, 1) == 11.0
  {
  }

  class ArrayLatice<A(==,!new)> {
    const bond: (A, A) -> real
    const width: nat
    const height: nat
    const grid: array<A>
    var totEnergy: Option<real>

    ghost predicate Valid()
    {
      width > 0 && height > 0 && grid.Length == width * height
    }

    /** The lattice the engine works on: sites y·W + x, bonds to x - 1 and y - 1, visited x outer. */
    function Topo(): (t: Topology)
      requires Valid()
      ensures WellFormed(t) && t.size == grid.Length
    {
      Topology2d(width, height)
    }

    /** The cache is absent or holds the total energy of the grid. */
    ghost predicate Coherent()
      reads this, grid
      requires Valid()
    {
      totEnergy.Some? ==> totEnergy.value == Energy(Topo(), grid[..], bond)
    }

    /** Symmetric bonds and at least two columns and two rows. */
    ghost predicate Exact()
    {
      width >= 2 && height >= 2 && Symmetric(bond)
    }

    /** new: the k-th atom drawn (uniform, or with the given concentration) fills cell (k / H, k % H), the
        loops running x outer and y inner; the energy is not cached. */
    constructor New(bond: (A, A) -> real, width: nat, height: nat, draw: nat -> A)
      requires width > 0 && height > 0
      ensures Valid() && this.bond == bond && this.width == width && this.height == height && fresh(grid)
      ensures forall x: nat, y: nat :: x < width && y < height ==> grid[At2(x, y, width, height)] == draw(Mix(x, y, height))
      ensures totEnergy == None
    {
      this.bond := bond;
      this.width := width;
      this.height := height;
      grid := new A[width * height](_ => draw(0));
      totEnergy := None;
      new;
      var x: nat := 0;
      while x < width
        invariant x <= width && totEnergy == None
        invariant forall x': nat, y': nat :: x' < x && y' < height ==>
          grid[At2(x', y', width, height)] == draw(Mix(x', y', height))
      {
        var y: nat := 0;
        while y < height
          invariant y <= height && totEnergy == None
          invariant forall x': nat, y': nat :: x' < x && y' < height ==>
            grid[At2(x', y', width, height)] == draw(Mix(x', y', height))
          invariant forall y': nat :: y' < y ==> grid[At2(x, y', width, height)] == draw(Mix(x, y', height))
        {
          At2Separates(x, y, width, height);
          At2InRange(x, y, width, height);
          grid[y * width + x] := draw(Mix(x, y, height));
          y := y + 1;
        }
        x := x + 1;
      }
    }

    /** new_from_grid: the given grid as it is, with no cached energy. */
    constructor NewFromGrid(cells: seq<A>, bond: (A, A) -> real, width: nat, height: nat)
      requires width > 0 && height > 0 && |cells| == width * height
      ensures Valid() && this.bond == bond && this.width == width && this.height == height && fresh(grid)
      ensures grid[..] == cells && totEnergy == None
    {
      this.bond := bond;
      this.width := width;
      this.height := height;
      grid := new A[|cells|](i requires 0 <= i < |cells| => cells[i]);
      totEnergy := None;
      new;
      assert grid[..] == cells;
    }

    /** tot_energy: the cached value if there is one; otherwise the sum, x outer and y inner, of the bonds
        of every site with its neighbours at x - 1 and y - 1, which is then cached. */
    method TotEnergy() returns (e: real)
      requires Valid()
      modifies this
      ensures old(totEnergy).Some? ==> e == old(totEnergy).value
      ensures old(totEnergy).None? ==> e == Energy(Topo(), grid[..], bond)
      ensures totEnergy == Some(e)
    {
      if totEnergy.Some? {
        return totEnergy.value;
      }
      e := BondSum(width, height, grid[..], bond);
      totEnergy := Some(e);
    }

    /** energies_around(idx, atom): the bonds of a hypothetical atom at idx with the four atoms around idx,
        at x + 1, x - 1, y + 1 and y - 1. */
    function EnergiesAround(x: int, y: int, atom: A): (r: real)
      reads grid
      requires Valid()
      ensures r == Around(grid[..], bond, atom, Neighbours(Topo(), At2(x, y, width, height)))
    {
      var w, h := width, height;
      NeighboursToSites(w, h, x, y);
      Around4(grid[..], bond, atom, [At2(x + 1, y, w, h), At2(x - 1, y, w, h), At2(x, y + 1, w, h), At2(x, y - 1, w, h)]);
      bond(atom, grid[At2(x + 1, y, w, h)]) + bond(atom, grid[At2(x - 1, y, w, h)])
      + bond(atom, grid[At2(x, y + 1, w, h)]) + bond(atom, grid[At2(x, y - 1, w, h)])
    }

    /** update_energy as written: the cache plus delta_e when there is a cache; otherwise the cache is
        filled from the grid as it is now, and delta_e is dropped. */
    method UpdateEnergy(delta: real)
      requires Valid()
      modifies this
      ensures old(totEnergy).Some? ==> totEnergy == Some(old(totEnergy).value + delta)
      ensures old(totEnergy).None? ==> totEnergy == Some(Energy(Topo(), grid[..], bond))
    {
      if totEnergy.Some? {
        totEnergy := Some(totEnergy.value + delta);
      } else {
        var _ := TotEnergy();
      }
    }

    /** The loop of swap_uniform, swap_rand and swap_dist_distr: the first candidate pair whose hypothetical
        difference is not positive is committed; update_energy is called with that difference before the
        two cells are exchanged. */
    method SwapFirstDownhill(cands: seq<((int, int), (int, int))>) returns (k: nat)
      requires Valid()
      requires exists j :: 0 <= j < |cands| && PairDelta(grid[..], cands[j]) <= 0.0
      modifies this, grid
      ensures Valid()
      ensures k < |cands| && PairDelta(old(grid[..]), cands[k]) <= 0.0
      ensures forall j :: 0 <= j < k ==> PairDelta(old(grid[..]), cands[j]) > 0.0
      ensures grid[..] == SwapSeq(old(grid[..]), Site(cands[k].0), Site(cands[k].1))
      ensures old(totEnergy).Some? ==> totEnergy == Some(old(totEnergy).value + PairDelta(old(grid[..]), cands[k]))
      ensures old(totEnergy).None? ==> totEnergy == Some(Energy(Topo(), old(grid[..]), bond))
    {
      hide PairDelta, HypotheticalDelta, Topology2d, Energy, At2;
      ghost var g := grid[..];
      ghost var w :| 0 <= w < |cands| && PairDelta(g, cands[w]) <= 0.0;
      k := 0;
      while true
        invariant k <= w && grid[..] == g && totEnergy == old(totEnergy)
        invariant forall j :: 0 <= j < k ==> PairDelta(g, cands[j]) > 0.0
        decreases w - k
      {
        var delta := ProposalDelta(cands[k]);
        if delta <= 0.0 {
          UpdateEnergy(delta);
          Swap(grid, Site(cands[k].0), Site(cands[k].1));
          return;
        }
        k := k + 1;
      }
    }

    /** e_1 - e_0 of a candidate pair: each atom's energies_around at the other's index, minus each atom's
        energies_around at its own index. */
    function ProposalDelta(c: ((int, int), (int, int))): (r: real)
      reads grid
      requires Valid()
      ensures r == PairDelta(grid[..], c)
    {
      var (i1, i2) := c;
      var e0 := EnergiesAround(i1.0, i1.1, grid[Site(i1)]) + EnergiesAround(i2.0, i2.1, grid[Site(i2)]);
      var e1 := EnergiesAround(i1.0, i1.1, grid[Site(i2)]) + EnergiesAround(i2.0, i2.1, grid[Site(i1)]);
      e1 - e0
    }

    /** The site an index names. */
    function Site(i: (int, int)): (s: nat)
      requires Valid()
      ensures s < grid.Length
    {
      At2(i.0, i.1, width, height)
    }

    /** The hypothetical difference of a candidate index pair. */
    ghost function PairDelta(g: seq<A>, c: ((int, int), (int, int))): real
      requires Valid() && |g| == grid.Length
    {
      HypotheticalDelta(Topo(), g, bond, Site(c.0), Site(c.1))
    }

    /** swap_uniform (and swap_rand, its earlier copy): both indexes of every candidate drawn uniformly in
        the grid. */
    method SwapUniform(cands: seq<((int, int), (int, int))>) returns (k: nat)
      requires Valid()
      requires forall j :: 0 <= j < |cands| ==> InGrid(cands[j].0) && InGrid(cands[j].1)
      requires exists j :: 0 <= j < |cands| && PairDelta(grid[..], cands[j]) <= 0.0
      modifies this, grid
      ensures Valid()
      ensures k < |cands| && PairDelta(old(grid[..]), cands[k]) <= 0.0
      ensures forall j :: 0 <= j < k ==> PairDelta(old(grid[..]), cands[j]) > 0.0
      ensures grid[..] == SwapSeq(old(grid[..]), Site(cands[k].0), Site(cands[k].1))
      ensures old(totEnergy).Some? ==> totEnergy == Some(old(totEnergy).value + PairDelta(old(grid[..]), cands[k]))
      ensures old(totEnergy).None? ==> totEnergy == Some(Energy(Topo(), old(grid[..]), bond))
    {
      k := SwapFirstDownhill(cands);
    }

    predicate InGrid(i: (int, int))
    {
      0 <= i.0 < width && 0 <= i.1 < height
    }

    /** swap_dist_distr: the first index drawn uniformly, the second at the drawn offset from it, possibly
        outside the grid and wrapped by the modular index. */
    method SwapDistDistr(draws: seq<((int, int), (int, int))>) returns (k: nat)
      requires Valid()
      requires forall j :: 0 <= j < |draws| ==> InGrid(draws[j].0)
      requires exists j :: 0 <= j < |draws| && PairDelta(grid[..], ChooseWithOffset(draws[j].0, draws[j].1)) <= 0.0
      modifies this, grid
      ensures Valid()
      ensures k < |draws|
      ensures var c := ChooseWithOffset(draws[k].0, draws[k].1);
        && PairDelta(old(grid[..]), c) <= 0.0
        && grid[..] == SwapSeq(old(grid[..]), Site(c.0), Site(c.1))
        && (old(totEnergy).Some? ==> totEnergy == Some(old(totEnergy).value + PairDelta(old(grid[..]), c)))
        && (old(totEnergy).None? ==> totEnergy == Some(Energy(Topo(), old(grid[..]), bond)))
      ensures forall j :: 0 <= j < k ==> PairDelta(old(grid[..]), ChooseWithOffset(draws[j].0, draws[j].1)) > 0.0
    {
      hide PairDelta, Energy, Topo;
      var cands := seq(|draws|, (j: int) requires 0 <= j < |draws| => ChooseWithOffset(draws[j].0, draws[j].1));
      ghost var w :| 0 <= w < |draws| && PairDelta(grid[..], ChooseWithOffset(draws[w].0, draws[w].1)) <= 0.0;
      assert cands[w] == ChooseWithOffset(draws[w].0, draws[w].1);
      k := SwapFirstDownhill(cands);
      assert cands[k] == ChooseWithOffset(draws[k].0, draws[k].1);
      forall j | 0 <= j < k
        ensures PairDelta(old(grid[..]), ChooseWithOffset(draws[j].0, draws[j].1)) > 0.0
      {
        assert cands[j] == ChooseWithOffset(draws[j].0, draws[j].1);
      }
    }

    /** update_energy as evidently intended: the cache moves by delta_e when present and otherwise stays
        absent, to be computed on demand from the grid as it then is. */
    method UpdateEnergyCorrected(delta: real)
      modifies this
      ensures totEnergy == if old(totEnergy).Some? then Some(old(totEnergy).value + delta) else None
    {
      if totEnergy.Some? {
        totEnergy := Some(totEnergy.value + delta);
      }
    }

    /** The swap loop with both corrections: the difference is the change of the two local energies taken
        after a trial swap (undone when rejected), and the cache is only moved when present. With symmetric
        bonds the cache then stays coherent with the grid. */
    method SwapFirstDownhillCorrected(cands: seq<(nat, nat)>) returns (k: nat)
      requires Valid()
      requires forall j :: 0 <= j < |cands| ==> cands[j].0 < grid.Length && cands[j].1 < grid.Length
      requires exists j :: 0 <= j < |cands| && SwapLocalDelta(Topo(), grid[..], bond, cands[j].0, cands[j].1) <= 0.0
      modifies this, grid
      ensures Valid()
      ensures k < |cands| && SwapLocalDelta(Topo(), old(grid[..]), bond, cands[k].0, cands[k].1) <= 0.0
      ensures forall j :: 0 <= j < k ==> SwapLocalDelta(Topo(), old(grid[..]), bond, cands[j].0, cands[j].1) > 0.0
      ensures grid[..] == SwapSeq(old(grid[..]), cands[k].0, cands[k].1)
      ensures old(totEnergy).Some? ==>
        totEnergy == Some(old(totEnergy).value + SwapLocalDelta(Topo(), old(grid[..]), bond, cands[k].0, cands[k].1))
      ensures old(totEnergy).None? ==> totEnergy == None
      ensures old(Coherent()) && Exact() ==> Coherent()
    {
      hide SwapLocalDelta, Energy, Local, Symmetric, LocalAt, EnergiesAround;
      ghost var g := grid[..];
      ghost var w :| 0 <= w < |cands| && SwapLocalDelta(Topo(), g, bond, cands[w].0, cands[w].1) <= 0.0;
      k := 0;
      while true
        invariant k <= w && grid[..] == g && totEnergy == old(totEnergy)
        invariant forall j :: 0 <= j < k ==> SwapLocalDelta(Topo(), g, bond, cands[j].0, cands[j].1) > 0.0
        decreases w - k
      {
        var p, q := cands[k].0, cands[k].1;
        var e0 := LocalAt(p) + LocalAt(q);
        Swap(grid, p, q);
        var e1 := LocalAt(p) + LocalAt(q);
        var delta := e1 - e0;
        assert delta == SwapLocalDelta(Topo(), g, bond, p, q) by {
          DeltasUnfold(Topo(), g, bond, p, q);
        }
        if delta <= 0.0 {
          UpdateEnergyCorrected(delta);
          if Exact() {
            Topology2dSimple(width, height);
            SwapEnergy(Topo(), g, bond, p, q);
          }
          return;
        }
        Swap(grid, p, q);
        SwapTwice(g, p, q);
        k := k + 1;
      }
    }

    /** energies_around(idx, grid[idx]) for the site s = y·W + x, the form in which each exchanged atom's
        energy is taken: the bonds of the atom at (x, y) with the four atoms around it, which is its local
        energy (Local2d gives the four bonds written out). */
    function LocalAt(s: nat): (r: real)
      reads grid
      requires Valid() && s < grid.Length
      ensures r == Local(Topo(), grid[..], bond, s)
    {
      var x, y := s % width, s / width;
      Split(s, height, width);
      At2InRange(x, y, width, height);
      EnergiesAround(x, y, grid[s])
    }
  }

  /** The nested loop of tot_energy: x outer, y inner, adding at each site its bonds to x - 1 and y - 1 in
      that order. */
  method BondSum<A>(w: nat, h: nat, g: seq<A>, bond: (A, A) -> real) returns (e: real)
    requires w > 0 && h > 0 && |g| == w * h
    ensures e == Energy(Topology2d(w, h), g, bond)
  {
    hide *;
    BondSumEnds(w, h, g, bond);
    e := 0.0;
    var x: nat := 0;
    while x < w
      invariant x <= w
      invariant e == Fold(Bonds2d(w, h, g, x, 0), bond)
    {
      var y: nat := 0;
      while y < h
        invariant y <= h
        invariant e == Fold(Bonds2d(w, h, g, x, y), bond)
      {
        BondSumStep(w, h, g, bond, x, y);
        e := e + bond(g[At2(x, y, w, h)], g[At2(x - 1, y, w, h)]);
        e := e + bond(g[At2(x, y, w, h)], g[At2(x, y - 1, w, h)]);
        y := y + 1;
      }
      Bonds2dCarry(w, h, g, x + 1);
      x := x + 1;
    }
  }

  /** The sum starts at zero with no bonds and ends, after the last column, at the total energy. */
  lemma BondSumEnds<A>(w: nat, h: nat, g: seq<A>, bond: (A, A) -> real)
    requires w > 0 && h > 0 && |g| == w * h
    ensures Fold(Bonds2d(w, h, g, 0, 0), bond) == 0.0
    ensures Energy(Topology2d(w, h), g, bond) == Fold(Bonds2d(w, h, g, w, 0), bond)
  {
    Bonds2dCarry(w, h, g, 0);
    AllBonds2d(w, h, g);
  }

  /** One site of the loop adds its two bonds to the running sum. */
  lemma BondSumStep<A>(w: nat, h: nat, g: seq<A>, bond: (A, A) -> real, x: nat, y: nat)
    requires w > 0 && h > 0 && |g| == w * h && y < h
    ensures Fold(Bonds2d(w, h, g, x, y + 1), bond)
      == Fold(Bonds2d(w, h, g, x, y), bond) + bond(g[At2(x, y, w, h)], g[At2(x - 1, y, w, h)])
         + bond(g[At2(x, y, w, h)], g[At2(x, y - 1, w, h)])
  {
    Bonds2dNext(w, h, g, x, y);
    FoldTwo(Bonds2d(w, h, g, x, y), (g[At2(x, y, w, h)], g[At2(x - 1, y, w, h)]),
            (g[At2(x, y, w, h)], g[At2(x, y - 1, w, h)]), bond);
  }

  /** A swap of any two sites, equal or not, changes the total energy by the change of their local
      energies. */
  lemma SwapEnergy<A(!new)>(t: Topology, g: seq<A>, bond: (A, A) -> real, p: nat, q: nat)
    requires Simple(t) && Symmetric(bond) && |g| == t.size && p < t.size && q < t.size
    ensures Energy(t, SwapSeq(g, p, q), bond) == Energy(t, g, bond) + SwapLocalDelta(t, g, bond, p, q)
  {
    if p == q {
      assert SwapSeq(g, p, q) == g;
    } else {
      SwapDelta(t, g, bond, p, q);
    }
  }

  /** As written, a lattice with no cached energy fills the cache before the swap is made: for any
      committed swap of sites that are not neighbours and whose difference is negative, the energy it
      caches is not the energy of the lattice after the swap. */
  lemma StaleCache<A(!new)>(t: Topology, g: seq<A>, bond: (A, A) -> real, p: nat, q: nat)
    requires Simple(t) && Symmetric(bond) && |g| == t.size && p < t.size && q < t.size && p != q
    requires Count(Neighbours(t, p), q) == 0 && HypotheticalDelta(t, g, bond, p, q) < 0.0
    ensures Energy(t, g, bond) != Energy(t, SwapSeq(g, p, q), bond)
  {
    HypotheticalApart(t, g, bond, p, q);
  }
}
