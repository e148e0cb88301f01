/**
  FastArray<T, SIDE, POW>: a SIDE × SIDE grid, SIDE = 2^POW, stored row by row (the cell (x, y) is
  element y·SIDE + x of the flat slice). Indexes are machine words (usize) reduced by a bit mask that
  keeps the low POW bits, which wraps every coordinate onto the torus. Its bond list pairs every site with
  the site one step ahead along x and along y, and is returned as a multiplicity map.
*/
module FastArrayGrid {
  import opened Arith
  import opened Sums
  import opened Lattice
  import opened Torus

  /** The number of values of a usize on a 64-bit target. */
  function Usize(): nat
  {
    Pow2(64)
  }

  /** `i & MASK` with MASK = !(usize::MAX << POW): the low POW bits of i. */
  function Mask(i: nat, pow: nat): (r: nat)
    ensures r < Pow2(pow)
    ensures i < Pow2(pow) ==> r == i
  {
    DivModOf(0, if i < Pow2(pow) then i else 0, Pow2(pow));
    i % Pow2(pow)
  }

  /** usize::wrapping_add and wrapping_add_signed: the sum modulo 2^64. */
  function WrappingAdd(i: nat, d: int): (r: nat)
    ensures r < Usize()
  {
    (i + d) % Usize()
  }

  /** The flat offset of the cell that the index (x, y) names. */
  function Cell(x: nat, y: nat, pow: nat): (s: nat)
    ensures s < Pow2(pow) * Pow2(pow)
  {
    MixDigits(Mask(y, pow), Mask(x, pow), Pow2(pow), Pow2(pow));
    Mix(Mask(y, pow), Mask(x, pow), Pow2(pow))
  }

  /** Masking a machine word is the toroidal wrap of the grid. */
  lemma CellIsAt2(x: nat, y: nat, pow: nat)
    ensures Cell(x, y, pow) == At2(x, y, Pow2(pow), Pow2(pow))
  {
  }

  /** A wrapping step of a usize coordinate, then the mask, is the toroidal step: the mask keeps fewer
      bits than the word, so the word's own wrap-around is invisible to it. */
  lemma MaskWrappingAdd(i: nat, d: int, pow: nat)
    requires pow <= 64
    ensures Mask(WrappingAdd(i, d), pow) == Wrap(i + d, Pow2(pow))
  {
    hide Pow2;
    Pow2Add(pow, 64 - pow);
    ModOfMod(i + d, Pow2(pow), Pow2(64 - pow));
  }

  // ---------------------------------------------------------------- the topology

  /** The tables of a FastArray of side s: the identity visit order (y outer, x inner, so the k-th
      visited site is site k) and bonds one step ahead along x and along y. */
  function TablesFast(s: nat): (t: Topology)
    requires s > 0
  {
    Topology(s * s,
             seq(s * s, (i: int) requires 0 <= i => i),
             seq(s * s, (i: int) requires 0 <= i => i),
             [GridAxis(s * s, 1, s, 1), GridAxis(s * s, s, s, 1)])
  }

  lemma TablesFastWellFormed(s: nat)
    requires s > 0
    ensures WellFormed(TablesFast(s))
  {
    assert s * s == 1 * s * s && s * s == s * s * 1;
    GridAxisInverse(s * s, 1, s, s, 1);
    GridAxisInverse(s * s, s, s, 1, 1);
  }

  /** The topology of a FastArray of side s. */
  function TopologyFast(s: nat): (t: Topology)
    requires s > 0
    ensures WellFormed(t) && t.size == s * s && |t.axes| == 2
  {
    TablesFastWellFormed(s);
    TablesFast(s)
  }

  /** With a side of at least two no site is its own neighbour. */
  lemma TopologyFastSimple(s: nat)
    requires s >= 2
    ensures Simple(TopologyFast(s))
  {
    GridAxisMoves(s * s, 1, s, 1);
    GridAxisMoves(s * s, s, s, 1);
  }

  /** The k-th visited site, k = y * s + x, is (x, y). */
  lemma VisitFast(s: nat, x: nat, y: nat)
    requires x < s && y < s
    ensures Mix(y, x, s) < s * s
    ensures TopologyFast(s).order[Mix(y, x, s)] == At2(x, y, s, s)
  {
    MixDigits(y, x, s, s);
    At2InRange(x, y, s, s);
  }

  /** The bond partners of a site are the sites one step ahead along x and along y. */
  lemma PartnersFast(s: nat, x: int, y: int)
    requires s > 0
    ensures TopologyFast(s).axes[0].partner[At2(x, y, s, s)] == At2(x + 1, y, s, s)
    ensures TopologyFast(s).axes[1].partner[At2(x, y, s, s)] == At2(x, y + 1, s, s)
  {
    At2StepX(x, y, s, s, 1);
    At2StepY(x, y, s, s, 1);
  }

  /** The reverse partners of a site are the sites one step back along x and along y. */
  lemma RevsFast(s: nat, x: int, y: int)
    requires s > 0
    ensures TopologyFast(s).axes[0].rev[At2(x, y, s, s)] == At2(x - 1, y, s, s)
    ensures TopologyFast(s).axes[1].rev[At2(x, y, s, s)] == At2(x, y - 1, s, s)
  {
    At2StepX(x, y, s, s, -1);
    At2StepY(x, y, s, s, -1);
  }

  // ---------------------------------------------------------------- all_neighbors_to

  /** all_neighbors_to: (x + 1, y), (x, y + 1), (x - 1, y), (x, y - 1), each by a wrapping usize step. */
  function NeighborsTo(x: nat, y: nat): (ns: seq<(nat, nat)>)
    ensures |ns| == 4
  {
    [(WrappingAdd(x, 1), y), (x, WrappingAdd(y, 1)), (WrappingAdd(x, -1), y), (x, WrappingAdd(y, -1))]
  }

  /** The cells of the four neighbour indexes: the toroidal steps, even at x = 0 or y = 0 where the
      usize step wraps to usize::MAX. */
  lemma NeighborsToCells(x: nat, y: nat, pow: nat)
    requires pow <= 64
    ensures var ns, s := NeighborsTo(x, y), Pow2(pow);
      seq(4, (j: int) requires 0 <= j < 4 => Cell(ns[j].0, ns[j].1, pow))
      == [At2(x + 1, y, s, s), At2(x, y + 1, s, s), At2(x - 1, y, s, s), At2(x, y - 1, s, s)]
  {
    hide Pow2;
    MaskWrappingAdd(x, 1, pow);
    MaskWrappingAdd(y, 1, pow);
    MaskWrappingAdd(x, -1, pow);
    MaskWrappingAdd(y, -1, pow);
  }

  /** The neighbour cells are the topology's neighbour list in another order, so the local energy that
      folds over them is the lattice's local energy. */
  lemma LocalFast<A>(pow: nat, g: seq<A>, bond: (A, A) -> real, x: nat, y: nat)
    requires pow <= 64 && |g| == Pow2(pow) * Pow2(pow)
    ensures var ns, p := NeighborsTo(x, y), Cell(x, y, pow);
      Around(g, bond, g[p], seq(4, (j: int) requires 0 <= j < 4 => Cell(ns[j].0, ns[j].1, pow)))
      == Local(TopologyFast(Pow2(pow)), g, bond, p)
  {
    hide At2, Cell, Mask, WrappingAdd, TopologyFast, Pow2, NeighborsTo, Neighbours;
    var s := Pow2(pow);
    NeighborsToCells(x, y, pow);
    CellIsAt2(x, y, pow);
    NeighboursFast(s, x, y);
    var mine := [At2(x + 1, y, s, s), At2(x, y + 1, s, s), At2(x - 1, y, s, s), At2(x, y - 1, s, s)];
    Around4(g, bond, g[Cell(x, y, pow)], mine);
    Around4(g, bond, g[Cell(x, y, pow)], [mine[2], mine[0], mine[3], mine[1]]);
  }

  /** The topology's neighbour list of (x, y): back and ahead along x, then back and ahead along y. */
  lemma NeighboursFast(s: nat, x: int, y: int)
    requires s > 0
    ensures Neighbours(TopologyFast(s), At2(x, y, s, s))
      == [At2(x - 1, y, s, s), At2(x + 1, y, s, s), At2(x, y - 1, s, s), At2(x, y + 1, s, s)]
  {
    hide At2, TopologyFast;
    NeighboursOf2(TopologyFast(s), At2(x, y, s, s));
    PartnersFast(s, x, y);
    RevsFast(s, x, y);
  }

  // ---------------------------------------------------------------- all_neighbors as a multiplicity map

  /** The two bonds of the site (x, y): to x + 1 and to y + 1. */
  function SitePairsFast<T>(s: nat, g: seq<T>, x: int, y: int): seq<(T, T)>
    requires s > 0 && |g| == s * s
  {
    [(g[At2(x, y, s, s)], g[At2(x + 1, y, s, s)]), (g[At2(x, y, s, s)], g[At2(x, y + 1, s, s)])]
  }

  /** The two bonds of (x, y) read through the masked index, as all_neighbors reads them. */
  lemma SitePairsCells<T>(s: nat, pow: nat, g: seq<T>, x: nat, y: nat)
    requires pow <= 64 && s == Pow2(pow) && |g| == s * s
    ensures SitePairsFast(s, g, x, y)
      == [(g[Cell(x, y, pow)], g[Cell(x + 1, y, pow)]), (g[Cell(x, y, pow)], g[Cell(x, y + 1, pow)])]
  {
    hide *;
    CellIsAt2(x, y, pow);
    CellIsAt2(x + 1, y, pow);
    CellIsAt2(x, y + 1, pow);
    SitePairsBody(s, g, x, y);
  }

  lemma SitePairsBody<T>(s: nat, g: seq<T>, x: int, y: int)
    requires s > 0 && |g| == s * s
    ensures SitePairsFast(s, g, x, y)
      == [(g[At2(x, y, s, s)], g[At2(x + 1, y, s, s)]), (g[At2(x, y, s, s)], g[At2(x, y + 1, s, s)])]
  {
  }

  /** The bonds the loops of all_neighbors have met once they reach row y, column x. */
  function BondsFast<T>(s: nat, g: seq<T>, y: nat, x: nat): seq<(T, T)>
    requires s > 0 && |g| == s * s && x <= s
    decreases y, x
  {
    if x == 0 then (if y == 0 then [] else BondsFast(s, g, y - 1, s))
    else BondsFast(s, g, y, x - 1) + SitePairsFast(s, g, x - 1, y)
  }

  lemma BondsFastNext<T>(s: nat, g: seq<T>, y: nat, x: nat)
    requires s > 0 && |g| == s * s && x < s
    ensures BondsFast(s, g, y, x + 1) == BondsFast(s, g, y, x) + SitePairsFast(s, g, x, y)
  {
  }

  lemma BondsFastCarry<T>(s: nat, g: seq<T>, y: nat)
    requires s > 0 && |g| == s * s
    ensures BondsFast(s, g, y, 0) == if y == 0 then [] else BondsFast(s, g, y - 1, s)
    ensures y == 0 ==> Mix(y, 0, s) == 0 && PairsUpTo(TopologyFast(s), g, 0) == []
  {
  }

  /** One step of the loops: visiting (x, y) appends its two bonds. */
  lemma BondsStepFast<T>(s: nat, g: seq<T>, x: nat, y: nat, k: nat)
    requires x < s && y < s && |g| == s * s && k == Mix(y, x, s)
    ensures k < s * s
    ensures PairsUpTo(TopologyFast(s), g, k + 1) == PairsUpTo(TopologyFast(s), g, k) + SitePairsFast(s, g, x, y)
  {
    hide At2, TopologyFast;
    VisitFast(s, x, y);
    PartnersFast(s, x, y);
    PairsStep2(TopologyFast(s), g, k);
  }

  /** After row y, column x the loops have met exactly the topology's first y * s + x bond groups. */
  lemma {:induction false} BondsFastArePairs<T>(s: nat, g: seq<T>, y: nat, x: nat)
    requires s > 0 && |g| == s * s && ((y < s && x <= s) || (y <= s && x == 0))
    ensures Mix(y, x, s) <= s * s
    ensures BondsFast(s, g, y, x) == PairsUpTo(TopologyFast(s), g, Mix(y, x, s))
    decreases y, x
  {
    hide *;
    MixAtMost(y, x, s, s);
    BondsFastCarry(s, g, y);
    if x > 0 {
      BondsFastArePairs(s, g, y, x - 1);
      MixNext(y, x - 1, s);
      BondsStepFast(s, g, x - 1, y, Mix(y, x - 1, s));
      BondsFastNext(s, g, y, x - 1);
    } else if y > 0 {
      BondsFastArePairs(s, g, y - 1, s);
      MixCarry(y - 1, s);
    }
  }

  /** The bonds met by the finished loops are the topology's bond list. */
  lemma AllBondsFast<T>(s: nat, g: seq<T>)
    requires s > 0 && |g| == s * s
    ensures BondsFast(s, g, s, 0) == Pairs(TopologyFast(s), g)
  {
    BondsFastArePairs(s, g, s, 0);
  }

  /** entry(k).and_modify(|e| *e += 1).or_insert(1). */
  function Bump<K>(m: map<K, nat>, k: K): (r: map<K, nat>)
    ensures k in r && r[k] == if k in m then m[k] + 1 else 1
  {
    m[k := if k in m then m[k] + 1 else 1]
  }

  /** Bumping k adds k to the keys, if it is new, and leaves the count of every other key alone. */
  lemma BumpKeeps<K>(m: map<K, nat>, k: K, j: K)
    ensures Bump(m, k).Keys == m.Keys + {k}
    ensures j in m && j != k ==> Bump(m, k)[j] == m[j]
  {
  }

  /** The multiplicity map of a list of pairs, built in list order. */
  function Tally<K>(ps: seq<K>): map<K, nat>
  {
    if ps == [] then map[] else Bump(Tally(ps[..|ps| - 1]), ps[|ps| - 1])
  }

  lemma TallyPair<K>(ps: seq<K>, a: K, b: K)
    ensures Tally(ps + [a, b]) == Bump(Bump(Tally(ps), a), b)
  {
    assert (ps + [a, b])[..|ps| + 1] == ps + [a];
    assert (ps + [a])[..|ps|] == ps;
  }

  /** The map holds exactly the pairs of the list, each with the number of times it occurs. */
  lemma {:induction false} TallyCounts<K>(ps: seq<K>)
    ensures forall k :: k in Tally(ps) <==> k in multiset(ps)
    ensures forall k :: k in Tally(ps) ==> Tally(ps)[k] == multiset(ps)[k]
  {
    if ps != [] {
      var init, last := ps[..|ps| - 1], ps[|ps| - 1];
      TallyCounts(init);
      assert ps == init + [last];
      assert multiset(ps) == multiset(init) + multiset{last};
    }
  }

  /** es enumerates the map m: every entry is an item of m, every key of m appears, no key twice.
      The iteration order of a HashMap is not specified, so any such es is a possible one. */
  ghost predicate Enumerates<K>(es: seq<(K, nat)>, m: map<K, nat>)
  {
    && (forall i :: 0 <= i < |es| ==> es[i].0 in m && m[es[i].0] == es[i].1)
    && (forall k :: k in m ==> exists i :: 0 <= i < |es| && es[i].0 == k)
    && (forall i, j :: 0 <= i < j < |es| ==> es[i].0 != es[j].0)
  }

  /** Removing the entry at j from an enumeration of m enumerates m without that key. */
  lemma EnumeratesRemove<K>(es: seq<(K, nat)>, m: map<K, nat>, j: nat)
    requires Enumerates(es, m) && j < |es|
    ensures Enumerates(es[..j] + es[j + 1..], m - {es[j].0})
  {
    var rest, m1 := es[..j] + es[j + 1..], m - {es[j].0};
    forall i | 0 <= i < |rest|
      ensures rest[i] == es[Skip(i, j)]
    {
    }
    forall i | 0 <= i < |rest|
      ensures rest[i].0 in m1 && m1[rest[i].0] == rest[i].1
    {
      var i1 := Skip(i, j);
      assert es[i1].0 != es[j].0 by {
        if i1 < j { assert es[i1].0 != es[j].0; } else { assert es[j].0 != es[i1].0; }
      }
    }
    forall k | k in m1
      ensures exists i :: 0 <= i < |rest| && rest[i].0 == k
    {
      var i :| 0 <= i < |es| && es[i].0 == k;
      assert i != j;
      if i < j {
        assert rest[i].0 == k;
      } else {
        assert rest[i - 1].0 == k;
      }
    }
    forall a, b | 0 <= a < b < |rest|
      ensures rest[a].0 != rest[b].0
    {
      assert Skip(a, j) < Skip(b, j);
    }
  }

  /** The index in es of entry i of es with entry j removed. */
  function Skip(i: nat, j: nat): (r: nat)
    ensures r != j && (i < j ==> r == i) && (i >= j ==> r == i + 1)
  {
    if i < j then i else i + 1
  }

  /** Taking one occurrence of k out of the map: the enumeration without k's entry, plus an entry
      with the lowered count when k still occurs. */
  lemma EnumeratesLower<K>(es: seq<(K, nat)>, m: map<K, nat>, m0: map<K, nat>, j: nat)
    requires Enumerates(es, m) && j < |es| && m == Bump(m0, es[j].0)
    ensures var k, rest := es[j].0, es[..j] + es[j + 1..];
      Enumerates(if k in m0 then rest + [(k, m0[k])] else rest, m0)
  {
    var k, rest := es[j].0, es[..j] + es[j + 1..];
    EnumeratesRemove(es, m, j);
    assert m - {k} == m0 - {k};
    if k in m0 {
      var es0 := rest + [(k, m0[k])];
      forall i | 0 <= i < |rest| ensures rest[i].0 != k {
      }
      forall c | c in m0 ensures exists i :: 0 <= i < |es0| && es0[i].0 == c {
        if c == k {
          assert es0[|rest|].0 == c;
        } else {
          assert c in m - {k};
          var i :| 0 <= i < |rest| && rest[i].0 == c;
          assert es0[i].0 == c;
        }
      }
    } else {
      assert m0 == m - {k};
    }
  }

  /** Only the empty list enumerates the empty map. */
  lemma EnumeratesEmpty<K>(es: seq<(K, nat)>)
    requires Enumerates(es, map[])
    ensures es == []
  {
    if es != [] {
      EnumeratesHead(es, map[]);
      assert false;
    }
  }

  /** The first entry of an enumeration is an entry of the map. */
  lemma EnumeratesHead<K>(es: seq<(K, nat)>, m: map<K, nat>)
    requires Enumerates(es, m) && es != []
    ensures es[0].0 in m && m[es[0].0] == es[0].1
  {
  }

  /** Every key of the map is the key of some entry of an enumeration, which carries its value. */
  lemma EnumeratesKey<K>(es: seq<(K, nat)>, m: map<K, nat>, k: K)
    requires Enumerates(es, m) && k in m
    ensures exists i :: 0 <= i < |es| && es[i].0 == k && es[i].1 == m[k]
  {
  }

  /** The last pair of the list is a key of its map, which is the map of the rest bumped at it. */
  lemma TallyLast<K>(ps: seq<K>)
    requires ps != []
    ensures ps[|ps| - 1] in Tally(ps) && Tally(ps) == Bump(Tally(ps[..|ps| - 1]), ps[|ps| - 1])
  {
  }

  /** The weighted sum with one entry's count lowered by one, or the entry dropped at count one. */
  lemma WeightedLower<A>(es: seq<((A, A), nat)>, j: nat, m0: map<(A, A), nat>, bond: (A, A) -> real)
    requires j < |es| && es[j].1 == (if es[j].0 in m0 then m0[es[j].0] + 1 else 1)
    ensures var k, rest := es[j].0, es[..j] + es[j + 1..];
      Weighted(es, bond) == Weighted(if k in m0 then rest + [(k, m0[k])] else rest, bond) + bond(k.0, k.1)
  {
    hide SeqSum;
    var k, rest := es[j].0, es[..j] + es[j + 1..];
    SeqSumRemove(es, j, CountedBond(bond));
    if k in m0 {
      SeqSumAppend(rest, [(k, m0[k])], CountedBond(bond));
      SeqSumOne((k, m0[k]), CountedBond(bond));
      CountedStep(bond(k.0, k.1), m0[k]);
    }
  }

  /** One more occurrence adds one more bond. */
  lemma CountedStep(b: real, n: nat)
    ensures b * ((n + 1) as real) == b * (n as real) + b
  {
  }

  /** Folding any enumeration of the multiplicity map with bond * multiplicity gives the fold of the
      list itself: the energy does not depend on the order in which the map yields its entries. */
  lemma {:induction false} TallyWeighted<A>(ps: seq<(A, A)>, es: seq<((A, A), nat)>, bond: (A, A) -> real)
    requires Enumerates(es, Tally(ps))
    ensures Weighted(es, bond) == Fold(ps, bond)
    decreases |ps|
  {
    if ps == [] {
      EnumeratesEmpty(es);
    } else {
      var init, p := ps[..|ps| - 1], ps[|ps| - 1];
      hide *;
      var es0 := TallyPeel(ps, es, bond);
      TallyWeighted(init, es0, bond);
      FoldSnoc(init, p, bond);
      assert ps == init + [p];
    }
  }

  /** Taking the last pair p off the list: an enumeration of the list's map gives one of the shorter list's
      map, whose weighted sum is smaller by one bond of p. */
  lemma TallyPeel<A>(ps: seq<(A, A)>, es: seq<((A, A), nat)>, bond: (A, A) -> real)
      returns (es0: seq<((A, A), nat)>)
    requires ps != [] && Enumerates(es, Tally(ps))
    ensures Enumerates(es0, Tally(ps[..|ps| - 1]))
    ensures Weighted(es, bond) == Weighted(es0, bond) + bond(ps[|ps| - 1].0, ps[|ps| - 1].1)
  {
    hide *;
    var init, p := ps[..|ps| - 1], ps[|ps| - 1];
    var m0, m := Tally(init), Tally(ps);
    TallyLast(ps);
    EnumeratesKey(es, m, p);
    var j :| 0 <= j < |es| && es[j].0 == p && es[j].1 == m[p];
    var rest := es[..j] + es[j + 1..];
    es0 := if p in m0 then rest + [(p, m0[p])] else rest;
    EnumeratesLower(es, m, m0, j);
    WeightedLower(es, j, m0, bond);
  }

  /** Any enumeration of the map all_neighbors returns, weighted by multiplicity, is the lattice energy. */
  lemma MapEnergy<A>(s: nat, g: seq<A>, es: seq<((A, A), nat)>, bond: (A, A) -> real)
    requires s > 0 && |g| == s * s
    requires Enumerates(es, Tally(Pairs(TopologyFast(s), g)))
    ensures Weighted(es, bond) == Energy(TopologyFast(s), g, bond)
  {
    TallyWeighted(Pairs(TopologyFast(s), g), es, bond);
  }

  /** The counts of the map add up to 2 * SIDE * SIDE: two bonds per site. */
  lemma MapCounts<A>(s: nat, g: seq<A>, es: seq<((A, A), nat)>)
    requires s > 0 && |g| == s * s
    requires Enumerates(es, Tally(Pairs(TopologyFast(s), g)))
    ensures Weighted(es, (a: A, b: A) => 1.0) == (2 * s * s) as real
  {
    hide TopologyFast, Tally, Enumerates, Weighted, Fold, PairsUpTo;
    var t := TopologyFast(s);
    var ps := Pairs(t, g);
    TallyWeighted(ps, es, (a: A, b: A) => 1.0);
    FoldOnes(ps);
    PairsLength(t, g, s * s);
    assert s * s * 2 == 2 * s * s;
  }

  /** Folding the constant bond 1 counts the pairs. */
  lemma {:induction false} FoldOnes<A>(ps: seq<(A, A)>)
    ensures Fold(ps, (a: A, b: A) => 1.0) == |ps| as real
  {
    if ps != [] {
      FoldOnes(ps[..|ps| - 1]);
    }
  }

  lemma FoldSnoc<A>(ps: seq<(A, A)>, p: (A, A), bond: (A, A) -> real)
    ensures Fold(ps + [p], bond) == Fold(ps, bond) + bond(p.0, p.1)
  {
    assert (ps + [p])[..|ps|] == ps;
  }

  // ---------------------------------------------------------------- reduce_index

  /** reduce_index as the source writes it: the masked first coordinate, twice. */
  function ReduceIndexAsWritten(x: nat, y: nat, pow: nat): (r: (nat, nat))
    ensures r.0 < Pow2(pow) && r.1 == r.0
    ensures x < Pow2(pow) ==> r.0 == x
  {
    (Mask(x, pow), Mask(x, pow))
  }

  /** With SIDE = 2 the index (0, 1) is reduced to (0, 0), a different cell. */
  lemma ReduceIndexAsWrittenMovesCell()
    ensures ReduceIndexAsWritten(0, 1, 1) == (0, 0)
    ensures Cell(0, 0, 1) != Cell(0, 1, 1)
  {
    assert Pow2(1) == 2;
    assert Mask(0, 1) == 0 && Mask(1, 1) == 1;
  }

  /** reduce_index as intended: both coordinates masked. The result is inside the grid, names the same
      cell, and is the index itself exactly when that is inside the grid already. */
  function ReduceIndex(x: nat, y: nat, pow: nat): (r: (nat, nat))
    ensures r.0 < Pow2(pow) && r.1 < Pow2(pow)
    ensures Cell(r.0, r.1, pow) == Cell(x, y, pow)
    ensures r == (x, y) <==> x < Pow2(pow) && y < Pow2(pow)
  {
    (Mask(x, pow), Mask(y, pow))
  }

  // ---------------------------------------------------------------- the grid

  class FastArray<T(==)> {
    const pow: nat
    const side: nat
    const grid: array<T>

    ghost predicate Valid()
      reads this
    {
      pow < 64 && side == Pow2(pow) && grid.Length == side * side
    }

    /** Index<(usize, usize)>: the atom at the masked coordinate, in row y of the [[T; SIDE]; SIDE]
        buffer; inside the grid the index is the offset y · SIDE + x itself. */
    function Get(x: nat, y: nat): (r: T)
      reads this, grid
      requires Valid()
      ensures Cell(x, y, pow) == Mask(y, pow) * side + Mask(x, pow)
      ensures r == grid[Mask(y, pow) * side + Mask(x, pow)]
      ensures x < side && y < side ==> r == grid[y * side + x]
    {
      grid[Cell(x, y, pow)]
    }

    /** IndexMut<(usize, usize)>: writes the masked cell and no other. */
    method Set(x: nat, y: nat, v: T)
      requires Valid()
      modifies grid
      ensures grid[..] == old(grid[..])[Cell(x, y, pow) := v]
    {
      grid[Cell(x, y, pow)] := v;
    }

    /** In range, the index (x, y) reads element y * SIDE + x of the flat slice (as_flat_slice). */
    lemma FlatLayout(x: nat, y: nat)
      requires Valid() && x < side && y < side
      ensures Cell(x, y, pow) == y * side + x
    {
    }

    /** fill_value (and new, with the default atom): every cell holds val. */
    constructor FillValue(pow: nat, val: T)
      requires pow < 64
      ensures Valid() && this.pow == pow && fresh(grid)
      ensures forall s :: 0 <= s < grid.Length ==> grid[s] == val
    {
      this.pow := pow;
      side := Pow2(pow);
      grid := new T[Pow2(pow) * Pow2(pow)](_ => val);
    }

    /** fill_with_fn: the closure is called once per cell, y outer and x inner; its k-th call, at (x, y),
        is modelled as func(k, x, y). */
    constructor FillWithFn(pow: nat, default: T, func: (nat, nat, nat) -> T)
      requires pow < 64
      ensures Valid() && this.pow == pow && fresh(grid)
      ensures forall x: nat, y: nat :: x < side && y < side ==> grid[At2(x, y, side, side)] == func(Mix(y, x, side), x, y)
    {
      this.pow := pow;
      side := Pow2(pow);
      grid := new T[Pow2(pow) * Pow2(pow)](_ => default);
      new;
      var s := side;
      var y: nat := 0;
      while y < s
        invariant y <= s
        invariant forall x': nat, y': nat :: x' < s && y' < y ==> grid[At2(x', y', s, s)] == func(Mix(y', x', s), x', y')
      {
        var x: nat := 0;
        while x < s
          invariant x <= s
          invariant forall x': nat, y': nat :: x' < s && y' < y ==> grid[At2(x', y', s, s)] == func(Mix(y', x', s), x', y')
          invariant forall x': nat :: x' < x ==> grid[At2(x', y, s, s)] == func(Mix(y, x', s), x', y)
        {
          At2Separates(x, y, s, s);
          grid[At2(x, y, s, s)] := func(Mix(y, x, s), x, y);
          x := x + 1;
        }
        y := y + 1;
      }
    }

    /** all_neighbors: for every site, y outer and x inner, the pair with the site at x + 1 and the pair
        with the site at y + 1, counted into a map. */
    method AllNeighbors() returns (out: map<(T, T), nat>)
      requires Valid()
      ensures out == Tally(BondsFast(side, grid[..], side, 0))
      ensures out == Tally(Pairs(TopologyFast(side), grid[..]))
    {
      hide At2, BondsFast, TopologyFast, Pairs, Bump, Mix, Mask;
      out := map[];
      BondsFastCarry(side, grid[..], 0);
      var y: nat := 0;
      while y < side
        invariant y <= side
        invariant out == Tally(BondsFast(side, grid[..], y, 0))
      {
        var x: nat := 0;
        while x < side
          invariant x <= side
          invariant out == Tally(BondsFast(side, grid[..], y, x))
        {
          var c := grid[Cell(x, y, pow)];
          var a, b := (c, grid[Cell(x + 1, y, pow)]), (c, grid[Cell(x, y + 1, pow)]);
          SitePairsCells(side, pow, grid[..], x, y);
          BondsFastNext(side, grid[..], y, x);
          TallyPair(BondsFast(side, grid[..], y, x), a, b);
          out := Bump(out, a);
          out := Bump(out, b);
          x := x + 1;
        }
        BondsFastCarry(side, grid[..], y + 1);
        y := y + 1;
      }
      AllBondsFast(side, grid[..]);
    }

    /** all_idxs: every index once, y outer and x inner. */
    method AllIdxs() returns (out: seq<(nat, nat)>)
      requires Valid()
      ensures |out| == side * side
      ensures forall k :: 0 <= k < |out| ==> out[k] == (k % side, k / side)
      ensures forall k :: 0 <= k < |out| ==> out[k].0 < side && out[k].1 < side && Mix(out[k].1, out[k].0, side) == k
    {
      var s := side;
      out := [];
      var y: nat := 0;
      while y < s
        invariant y <= s
        invariant |out| == y * s
        invariant forall k :: 0 <= k < |out| ==> out[k] == (k % s, k / s)
      {
        var x: nat := 0;
        while x < s
          invariant x <= s
          invariant |out| == y * s + x
          invariant forall k :: 0 <= k < |out| ==> out[k] == (k % s, k / s)
        {
          MixDigits(y, x, s, s);
          out := out + [(x, y)];
          x := x + 1;
        }
        y := y + 1;
      }
      forall k | 0 <= k < |out|
        ensures out[k].0 < s && out[k].1 < s && Mix(out[k].1, out[k].0, s) == k
      {
        MixOfDigits(k, s, s);
      }
    }

    /** tot_sites: SIDE * SIDE. */
    function TotSites(): (n: nat)
      reads this, grid
      requires Valid()
      ensures n == grid.Length
    {
      side * side
    }
  }
}
