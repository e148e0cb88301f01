/**
  The simulation engine (System): a lattice of atoms stored in a flat buffer, a bond-energy function, a
  lazily cached total energy and an optional vacancy site. Every Monte Carlo move takes the local energy
  before, swaps in place, takes the local energy after, and then either accepts (adding the difference to
  the cache) or swaps back. Random draws are parameters: the candidate site pairs in the order they were
  drawn, the outcome of the Metropolis draw (consulted only when the energy would rise), the site drawn
  for a new vacancy and the index of the chosen neighbour.
*/
module Engine {
  import opened Options
  import opened Lattice

  class System<A(==,!new), C> {
    const bond: (A, A) -> real
    const concentration: C
    const topology: Topology
    const storage: array<A>
    var internalEnergy: Option<real>
    var vacancy: Option<nat>

    /** The storage fits the lattice and the vacancy, if any, is a site of it. */
    ghost predicate Valid()
      reads this
    {
      && WellFormed(topology)
      && storage.Length == topology.size
      && (vacancy.Some? ==> vacancy.value < topology.size)
    }

    /** The cache holds the total energy of the current lattice. */
    ghost predicate Consistent()
      reads this, storage
      requires Valid()
    {
      internalEnergy == Some(Energy(topology, storage[..], bond))
    }

    /** The symmetric-bond, at-least-two-sites-per-axis setting in which the local deltas are exact. */
    ghost predicate Exact()
      reads this
    {
      Simple(topology) && Symmetric(bond)
    }

    /** System::new: the lattice holds the given atoms (one draw per site), the energy is computed and
        cached, and there is no vacancy. */
    constructor (bond: (A, A) -> real, topology: Topology, atoms: seq<A>, concentration: C)
      requires WellFormed(topology) && |atoms| == topology.size
      ensures Valid() && fresh(storage)
      ensures this.bond == bond && this.topology == topology && this.concentration == concentration
      ensures storage[..] == atoms && vacancy == None
      ensures internalEnergy == Some(Energy(topology, atoms, bond))
    {
      this.bond := bond;
      this.topology := topology;
      this.concentration := concentration;
      storage := new A[|atoms|](i requires 0 <= i < |atoms| => atoms[i]);
      internalEnergy := None;
      vacancy := None;
      new;
      assert storage[..] == atoms;
      var _ := InternalEnergy();
    }

    /** The total energy: the cached value if there is one, else the fold of bond * multiplicity over the
        lattice's bond entries, which is then cached. */
    method InternalEnergy() returns (e: real)
      requires Valid()
      modifies this
      ensures Valid() && vacancy == old(vacancy)
      ensures old(internalEnergy).Some? ==> e == old(internalEnergy).value
      ensures old(internalEnergy).None? ==> e == Energy(topology, storage[..], bond)
      ensures internalEnergy == Some(e)
    {
      if internalEnergy.Some? {
        return internalEnergy.value;
      }
      var es := Entries(topology, storage[..]);
      e := 0.0;
      var i := 0;
      while i < |es|
        invariant 0 <= i <= |es|
        invariant e == Weighted(es[..i], bond)
      {
        e := e + bond(es[i].0.0, es[i].0.1) * (es[i].1 as real);
        assert es[..i + 1][..i] == es[..i];
        i := i + 1;
      }
      assert es[..|es|] == es;
      EntriesEnergy(topology, storage[..], bond);
      internalEnergy := Some(e);
    }

    /** Adds delta_e to the cache, which must be present. */
    method UpdateEnergy(delta: real)
      requires internalEnergy.Some?
      modifies this
      ensures internalEnergy == Some(old(internalEnergy).value + delta)
      ensures vacancy == old(vacancy)
    {
      internalEnergy := Some(internalEnergy.value + delta);
    }

    /** The shared tail of every swap move: local energies before, swap, local energies after, then accept
        when the energy does not rise or the Metropolis draw succeeded, else swap back. */
    method Propose(p: nat, q: nat, luck: bool) returns (accepted: bool)
      requires Valid() && internalEnergy.Some? && p < topology.size && q < topology.size
      modifies this, storage
      ensures Valid() && internalEnergy.Some? && vacancy == old(vacancy)
      ensures accepted == (SwapLocalDelta(topology, old(storage[..]), bond, p, q) <= 0.0 || luck)
      ensures accepted ==> storage[..] == SwapSeq(old(storage[..]), p, q)
      ensures accepted ==>
        internalEnergy.value == old(internalEnergy).value + SwapLocalDelta(topology, old(storage[..]), bond, p, q)
      ensures !accepted ==> storage[..] == old(storage[..]) && internalEnergy == old(internalEnergy)
    {
      var e0 := Local(topology, storage[..], bond, p) + Local(topology, storage[..], bond, q);
      Swap(storage, p, q);
      var e1 := Local(topology, storage[..], bond, p) + Local(topology, storage[..], bond, q);
      var delta := e1 - e0;
      if delta <= 0.0 || luck {
        UpdateEnergy(delta);
        accepted := true;
      } else {
        Swap(storage, p, q);
        SwapTwice(old(storage[..]), p, q);
        accepted := false;
      }
    }

    /** The retry loop: the first drawn pair whose sites hold different species. */
    method ChooseDistinct(cands: seq<(nat, nat)>) returns (k: nat)
      requires Valid()
      requires forall j :: 0 <= j < |cands| ==> cands[j].0 < topology.size && cands[j].1 < topology.size
      requires exists j :: 0 <= j < |cands| && storage[cands[j].0] != storage[cands[j].1]
      ensures k < |cands| && storage[cands[k].0] != storage[cands[k].1]
      ensures forall j :: 0 <= j < k ==> storage[cands[j].0] == storage[cands[j].1]
    {
      k := 0;
      ghost var w :| 0 <= w < |cands| && storage[cands[w].0] != storage[cands[w].1];
      while storage[cands[k].0] == storage[cands[k].1]
        invariant k <= w
        invariant forall j :: 0 <= j < k ==> storage[cands[j].0] == storage[cands[j].1]
        decreases w - k
      {
        k := k + 1;
      }
    }

    /** monte_carlo_swap and monte_carlo_swap_distr, which differ only in how the candidate pairs are drawn:
        the first pair of different species is proposed and accepted when the local delta is not positive
        or the Metropolis draw succeeded. */
    method MonteCarloSwap(cands: seq<(nat, nat)>, luck: bool) returns (accepted: bool, k: nat)
      requires Valid() && internalEnergy.Some?
      requires forall j :: 0 <= j < |cands| ==> cands[j].0 < topology.size && cands[j].1 < topology.size
      requires exists j :: 0 <= j < |cands| && storage[cands[j].0] != storage[cands[j].1]
      modifies this, storage
      ensures Valid() && internalEnergy.Some? && vacancy == old(vacancy)
      ensures k < |cands| && cands[k].0 != cands[k].1
      ensures old(storage[cands[k].0]) != old(storage[cands[k].1])
      ensures forall j :: 0 <= j < k ==> old(storage[cands[j].0]) == old(storage[cands[j].1])
      ensures accepted == (SwapLocalDelta(topology, old(storage[..]), bond, cands[k].0, cands[k].1) <= 0.0 || luck)
      ensures accepted ==> storage[..] == SwapSeq(old(storage[..]), cands[k].0, cands[k].1)
      ensures accepted ==> (internalEnergy.value
        == old(internalEnergy).value + SwapLocalDelta(topology, old(storage[..]), bond, cands[k].0, cands[k].1))
      ensures !accepted ==> storage[..] == old(storage[..]) && internalEnergy == old(internalEnergy)
      ensures old(Consistent()) && Exact() ==> Consistent()
    {
      k := ChooseDistinct(cands);
      var p, q := cands[k].0, cands[k].1;
      ghost var g := storage[..];
      accepted := Propose(p, q, luck);
      if accepted && Exact() {
        SwapDelta(topology, g, bond, p, q);
      }
    }

    /** swap_uniform and swap_distr: as MonteCarloSwap, but only a proposal that does not raise the
        energy is accepted. */
    method SwapGreedy(cands: seq<(nat, nat)>) returns (accepted: bool, k: nat)
      requires Valid() && internalEnergy.Some?
      requires forall j :: 0 <= j < |cands| ==> cands[j].0 < topology.size && cands[j].1 < topology.size
      requires exists j :: 0 <= j < |cands| && storage[cands[j].0] != storage[cands[j].1]
      modifies this, storage
      ensures Valid() && internalEnergy.Some? && vacancy == old(vacancy)
      ensures k < |cands| && cands[k].0 != cands[k].1
      ensures old(storage[cands[k].0]) != old(storage[cands[k].1])
      ensures forall j :: 0 <= j < k ==> old(storage[cands[j].0]) == old(storage[cands[j].1])
      ensures accepted == (SwapLocalDelta(topology, old(storage[..]), bond, cands[k].0, cands[k].1) <= 0.0)
      ensures accepted ==> storage[..] == SwapSeq(old(storage[..]), cands[k].0, cands[k].1)
      ensures accepted ==> (internalEnergy.value
        == old(internalEnergy).value + SwapLocalDelta(topology, old(storage[..]), bond, cands[k].0, cands[k].1))
      ensures !accepted ==> storage[..] == old(storage[..]) && internalEnergy == old(internalEnergy)
      ensures old(Consistent()) && Exact() ==> Consistent()
    {
      accepted, k := MonteCarloSwap(cands, false);
    }

    /** move_vacancy: a lattice without a vacancy first gets one at the drawn site `start` (the recursive
        call then finds it present); the vacancy then trades places with its neighbour number `choice`. */
    method MoveVacancy(luck: bool, start: nat, choice: nat) returns (accepted: bool)
      requires Valid() && internalEnergy.Some?
      requires start < topology.size && choice < 2 * |topology.axes|
      modifies this, storage
      ensures Valid() && internalEnergy.Some? && vacancy.Some?
      ensures var v := if old(vacancy).Some? then old(vacancy).value else start;
        && accepted == (VacancyDelta(topology, old(storage[..]), bond, v, choice) <= 0.0 || luck)
        && (accepted ==> vacancy == Some(Neighbours(topology, v)[choice])
                         && storage[..] == SwapSeq(old(storage[..]), v, Neighbours(topology, v)[choice])
                         && internalEnergy.value == old(internalEnergy).value + VacancyDelta(topology, old(storage[..]), bond, v, choice))
        && (!accepted ==> vacancy == Some(v) && storage[..] == old(storage[..]) && internalEnergy == old(internalEnergy))
      ensures multiset(storage[..]) == multiset(old(storage[..]))
      ensures Exact() ==>
        var v := if old(vacancy).Some? then old(vacancy).value else start;
        internalEnergy.value - Away(topology, storage[..], bond, vacancy.value)
        == old(internalEnergy).value - Away(topology, old(storage[..]), bond, v)
    {
      if vacancy.None? {
        vacancy := Some(start);
      }
      accepted := HopVacancy(luck, choice);
    }

    /** The branch of move_vacancy with a vacancy at v: the delta is the local energy of the moved atom at
        its new site v minus that at its old site (its neighbour number `choice`); on acceptance the vacancy
        moves there, otherwise the swap is undone. */
    method HopVacancy(luck: bool, choice: nat) returns (accepted: bool)
      requires Valid() && internalEnergy.Some? && vacancy.Some? && choice < 2 * |topology.axes|
      modifies this, storage
      ensures Valid() && internalEnergy.Some? && vacancy.Some?
      ensures var v := old(vacancy).value;
        && accepted == (VacancyDelta(topology, old(storage[..]), bond, v, choice) <= 0.0 || luck)
        && (accepted ==> vacancy == Some(Neighbours(topology, v)[choice])
                         && storage[..] == SwapSeq(old(storage[..]), v, Neighbours(topology, v)[choice])
                         && internalEnergy.value == old(internalEnergy).value + VacancyDelta(topology, old(storage[..]), bond, v, choice))
        && (!accepted ==> vacancy == Some(v) && storage[..] == old(storage[..]) && internalEnergy == old(internalEnergy))
      ensures multiset(storage[..]) == multiset(old(storage[..]))
      ensures Exact() ==>
        internalEnergy.value - Away(topology, storage[..], bond, vacancy.value)
        == old(internalEnergy).value - Away(topology, old(storage[..]), bond, old(vacancy).value)
    {
      var v := vacancy.value;
      var w := Neighbours(topology, v)[choice];
      ghost var g := storage[..];
      hide Away, Energy, Symmetric, Simple;
      var e0 := Local(topology, storage[..], bond, w);
      Swap(storage, v, w);
      var e1 := Local(topology, storage[..], bond, v);
      var delta := e1 - e0;
      SwapKeepsSpecies(g, v, w);
      if delta <= 0.0 || luck {
        UpdateEnergy(delta);
        vacancy := Some(w);
        accepted := true;
        if Exact() {
          VacancyStep(topology, g, bond, v, choice);
        }
      } else {
        Swap(storage, v, w);
        SwapTwice(g, v, w);
        accepted := false;
      }
    }

    /** as_bytes: one byte per site, in flat order; the vacancy is not marked. */
    function AsBytes(byteOf: A -> Byte): (bs: seq<Byte>)
      reads this, storage
      ensures |bs| == storage.Length
      ensures forall i :: 0 <= i < storage.Length ==> bs[i] == byteOf(storage[i])
    {
      seq(storage.Length, (i: int) reads storage requires 0 <= i < storage.Length => byteOf(storage[i]))
    }
  }
}
