# phases: a verified model of a lattice-gas Monte Carlo core

`phases` simulates alloys and lattice gases. It places atoms of a few species on a periodic (toroidal) grid,
scores the grid by summing a bond energy over every bond between neighbouring sites, and lowers that energy
by random moves. A move is one of three kinds:

- a swap of two sites, accepted when the energy does not rise;
- the same swap under a Metropolis test;
- a step of a single vacancy.

This project models that core in Dafny and proves what the core promises about it.

## The model

- **Engine (`System`) and bookkeeping.** The engine's energy bookkeeping is proved once, in `Lattice`, for
  an abstract lattice. The abstract lattice has sites `0..size-1`, the order in which the storage loops visit
  them, and one axis per grid dimension. Each axis gives every site the partner that the bond list pairs it
  with, and the site whose partner it is. On this lattice the model proves:
  - the fold over the bond list is the total energy;
  - the total splits at any site into the local energy of that site plus the bonds away from it;
  - a swap changes the total by exactly the change of the two local energies (`SwapDelta`), including for
    neighbouring sites, whose shared bond cancels;
  - a vacancy step changes the bonds away from the vacancy by exactly the charged difference.

- **Storage backings.** Each backing supplies the abstract lattice's tables and is proved to be an instance
  of it:
  - `Array2d` and `Array3d`: `rem_euclid`-wrapped coordinates, bonds to the sites one step back;
  - `FastArray`: a power-of-two side, coordinates masked, bonds to the sites one step ahead, and a bond list
    that is a multiplicity map.

  Each backing's buffer is a Dafny `array`, and its Rust loops are Dafny loops. Each loop has invariants that
  tie it to the abstract lattice. For example, `Array2d.AllNeighbours` returns exactly `Pairs` of
  `Topology2d`, and `Array2d.FillWithFn` calls the closure once per cell in `x`-outer order.

- **`ModularArray` and `ModularGrid`.** These are one value type with two ways in: a signed index that wraps
  and an unsigned index that does not.

- **Engine state.** `System` and the older `ArrayLatice` engine each become a class. The fields are:
  - the buffer (an `array`);
  - the cached total energy (`Option<real>`);
  - for `System`, the vacancy.

  Each move is a method. Its `ensures` states:
  - the first candidate that is accepted;
  - the new buffer, as `SwapSeq` of the old one;
  - the new cache.

  What the cache keeps depends on the move:
  - `System.Propose`, `System.MonteCarloSwap`, `System.SwapGreedy` and
    `ArrayLatice.SwapFirstDownhillCorrected` keep the cache equal to the energy of the buffer. This holds
    for symmetric bonds on a lattice with at least two sites per axis.
  - `System.MoveVacancy` and `System.HopVacancy` keep the cache minus the energy of the bonds away from the
    vacancy unchanged. They do not keep the cache equal to the energy of the buffer.
  - The `ArrayLatice` moves as written (`SwapFirstDownhill`, `SwapUniform` and `SwapDistDistr`) do not keep
    the cache correct. `ArrayLaticeEngine.StaleCache` shows a stale cache, and
    `ArrayLaticeEngine.HypotheticalAdjacentWrong` shows a wrong difference.

- **Atoms and concentrations.** The atom species (`Atom<N>`, `BinAtoms`, `TerAtoms`, `TriAtoms`) are
  datatypes with their byte views. Their concentrations are datatypes too. Drawing an atom is a function of
  the uniform numbers the random generator would supply.

- **Floating point and randomness.**
  - Floating point values (`f32`, `f64`) are modelled as exact reals.
  - Every random draw is a parameter:
    - the index pairs a retry loop draws, in order;
    - the outcome of a Metropolis test;
    - the site first chosen for the vacancy;
    - the neighbour it moves to;
    - the uniform number behind `gen_bool` and `WeightedIndex`.

  The vacancy's draw is an index into the lattice's neighbour list. For `Array2d` and `Array3d` that list
  has the order of `all_neighbours_to` (`Array2dGrid.NeighboursToSites`, `Array3dGrid.NeighboursToSites3`).
  For `FastArray` it is ordered `[x−1, x+1, y−1, y+1]`, while `all_neighbors_to` gives `[x+1, y+1, x−1, y−1]`
  (`FastArrayGrid.NeighboursFast`, `FastArrayGrid.NeighborsTo`). So the same draw index can pick a different
  neighbour there. The two orders differ by a fixed permutation and the draw is uniform, so the moves that
  can happen, and their probabilities, are the same.

  A retry loop that draws "until it succeeds" takes the finite list of candidates it would draw, one of which
  succeeds.

`move_vacancy` has no sentinel: the vacancy's site keeps
its atom. The difference charged is that atom's local energy at the new site minus its local energy at the old
one. `Lattice.VacancyStep` proves that this equals the change in the energy of the bonds away from the
vacancy, which is what the source's comment (`src/system.rs:212-216`) argues.

## Model

| member | source | states |
|---|---|---|
| Torus.Wrap | src/array_2d.rs:40-41 | `rem_euclid` by a positive modulus lands in `[0, n)` and is the identity there |
| Torus.WrapPeriodic | src/array_2d.rs:40-41 | moving a coordinate by whole periods does not change its wrapped value |
| Torus.WrapIdempotent | src/array_2d.rs:123-128 | wrapping twice is wrapping once (`reduce_index` of a reduced index changes nothing) |
| Torus.At2 | src/array_2d.rs:38-43 | the flat offset `y·W + x` of the wrapped coordinate is inside the `W·H` buffer |
| Torus.At2InRange | src/array_2d.rs:38-43 | inside the grid the index is `y·W + x` itself |
| Torus.At2Periodic | src/array_2d.rs:38-43 | coordinates that differ by whole periods name the same cell (the torus) |
| Torus.At2Injective | src/array_2d.rs:38-43 | two in-grid coordinates name the same cell only when they are equal |
| Torus.At2Same | src/array_2d.rs:38-43 | two coordinates name the same cell exactly when their wrapped coordinates agree |
| Torus.At3 | src/array_3d.rs:39-46 | the corrected 3-D offset `(z·H + y)·W + x` of the wrapped coordinate is inside the `W·H·D` buffer |
| Torus.At3InRange | src/array_3d.rs:39-46 | inside the grid the corrected offset is the mixed-radix number of `(z, y, x)` |
| Torus.At3Injective | src/array_3d.rs:39-46 | two in-grid 3-D coordinates name the same cell only when they are equal |
| Torus.At3Same | src/array_3d.rs:39-46 | two 3-D coordinates name the same cell exactly when all three wrapped coordinates agree |
| Modular.New | src/modular_grid.rs:11-20 | `width·height` cells, every one the default |
| Modular.Modularize | src/modular_grid.rs:22-34 | succeeds exactly when the buffer has `width·height` cells, and then adopts it unchanged; otherwise the assert panics (`None`) |
| Modular.WrappedOffset | src/modular_array.rs:36-41 | the signed index always addresses a cell of the buffer |
| Modular.GetWrapped | src/modular_array.rs:36-41 | a signed read takes the cell `y·W + x` of the coordinates reduced with `rem_euclid`; inside the grid that is the plain row-major cell |
| Modular.SetWrapped | src/modular_array.rs:49-54 | a signed write keeps the shape of the grid |
| Modular.GetDirect | src/modular_array.rs:64-67 | the unsigned index reads `y·W + x` and is out of bounds (a panic) exactly when that offset is past the end |
| Modular.SetDirect | src/modular_array.rs:75-78 | the unsigned write fails exactly when the offset is past the end, and otherwise keeps the shape |
| Modular.WrappedPeriodic | src/modular_grid.rs:40-45 | signed indexes that differ by whole periods read the same cell |
| Modular.WrappedSame | src/modular_grid.rs:40-45 | two signed indexes address one cell exactly when their wrapped coordinates agree |
| Modular.DirectAgrees | src/modular_grid.rs:59-62 | on in-grid coordinates the unsigned index reads what the signed index reads |
| Modular.DirectSpills | src/modular_grid.rs:59-62 | the unsigned index does not wrap: `x = W + r` reads `(r, y + 1)`, while the signed index reads `(r, y)` |
| Modular.WrappedReadAfterWrite | src/modular_grid.rs:48-53 | a signed write is read back at every index naming that cell and leaves every other cell alone |
| Modular.DirectReadAfterWrite | src/modular_grid.rs:66-69 | an unsigned write changes exactly the cell at its offset |
| Modular.WritesAgree | src/modular_array.rs:49-78 | signed and unsigned writes to an in-grid coordinate give the same grid |
| Lattice.Neighbours | src/system.rs:75-82 | each site has `2·(number of axes)` neighbours, all of them sites of the lattice |
| Lattice.ListLength | src/array_2d.rs:89-98 | the bond list has one pair per site and axis |
| Lattice.EntriesEnergy | src/system.rs:58-72 | folding `bond · multiplicity` over the bond entries gives the total energy |
| Lattice.TouchSplit | src/system.rs:202-216 | the total energy is the energy of the bonds away from a site plus that site's local energy |
| Lattice.AwayIgnoresSite | src/system.rs:202-216 | changing the atom at a site does not change the bonds away from it |
| Lattice.PointUpdate | src/system.rs:113-116 | changing one atom changes the total energy by the change of that site's local energy |
| Lattice.NeighboursSymmetric | src/array_2d.rs:100-107 | `q` neighbours `p` as often as `p` neighbours `q` |
| Lattice.NotOwnNeighbour | src/array_2d.rs:100-107 | with at least two sites per axis no site is its own neighbour |
| Lattice.AroundUpdate | src/system.rs:75-82 | changing the atom at `q` changes a neighbour fold by (times `q` occurs) · (change of its bond) |
| Lattice.Hypothetical | src/lib.rs:118-123 | the fold around `p` with a hypothetical centre `c` is the local energy `c` would have at `p` |
| Lattice.SwapSeq | src/array_2d.rs:130-134 | the two cells exchange their atoms and every other cell is unchanged |
| Lattice.SwapKeepsSpecies | src/array_2d.rs:130-134 | a swap keeps the multiset of atoms |
| Lattice.SwapTwice | src/system.rs:117-122 | swapping back restores the lattice (a rejected move leaves it as it was) |
| Lattice.Swap | src/array_2d.rs:130-134 | the in-place exchange leaves the buffer equal to `SwapSeq` of the old buffer |
| Lattice.SwapDelta | src/system.rs:113-116 | a swap changes the total energy by exactly the change of the two local energies, neighbours included |
| Lattice.VacancyStep | src/system.rs:206-221 | a vacancy step changes the bonds away from the vacancy by exactly the difference `move_vacancy` charges, and the chosen neighbour is another site |
| Array2dGrid.Topology2d | src/array_2d.rs:89-107 | the tables of an `Array2d` form a well-formed lattice of `W·H` sites with two axes |
| Array2dGrid.Topology2dSimple | src/array_2d.rs:89-107 | with `W, H ≥ 2` no site of an `Array2d` bonds with itself |
| Array2dGrid.Visit2d | src/array_2d.rs:91-92 | the loops visit `(x, y)` at step `x·H + y` |
| Array2dGrid.Partners2d | src/array_2d.rs:93-94 | the bond partners of `(x, y)` are `(x - 1, y)` and `(x, y - 1)` |
| Array2dGrid.Revs2d | src/array_2d.rs:93-94 | the sites whose partner `(x, y)` is are `(x + 1, y)` and `(x, y + 1)` |
| Array2dGrid.NeighboursTo | src/array_2d.rs:100-107 | `all_neighbours_to` yields four indexes |
| Array2dGrid.NeighboursToSites | src/array_2d.rs:100-107 | the four indexes name the lattice's neighbours of `(x, y)`, in the source's order |
| Array2dGrid.Local2d | src/system.rs:75-82 | `energies_around` over the four indexes is the site's local energy |
| Array2dGrid.Bonds2dArePairs | src/array_2d.rs:89-98 | the pairs met by the loops so far are the first ones of the bond list |
| Array2dGrid.AllBonds2d | src/array_2d.rs:89-98 | the finished loops give the lattice's bond list |
| Array2dGrid.Bonds2dCount | src/array_2d.rs:90 | the bond list has `2·W·H` pairs, the capacity reserved |
| Array2dGrid.ReduceIndex | src/array_2d.rs:123-128 | the reduced index is inside the grid, names the same cell, and equals the index exactly when that was inside already |
| Array2dGrid.ChooseWithOffset | src/array_2d.rs:109-117 | the second index is the first plus the drawn offset |
| Array2dGrid.OffsetPeriodic | src/array_2d.rs:109-117 | offsets that differ by whole periods pick the same cell |
| Array2dGrid.Array2d.Get | src/array_2d.rs:38-43 | a read takes the cell `y·W + x` of the coordinates reduced with `rem_euclid`; inside the grid that is the plain row-major cell |
| Array2dGrid.Array2d.Set | src/array_2d.rs:50-55 | a write changes the wrapped cell and no other |
| Array2dGrid.Array2d.FillValue | src/array_2d.rs:75-77 | every cell holds the value |
| Array2dGrid.Array2d.FillWithFn | src/array_2d.rs:79-87 | cell `(x, y)` holds the closure's result at `(x, y)`, called as the `(x·H + y)`-th call |
| Array2dGrid.Array2d.AllNeighbours | src/array_2d.rs:89-98 | the returned list is the lattice's bond list |
| Array2dGrid.Array2d.SwapIdxs | src/array_2d.rs:130-134 | the two wrapped cells exchange their atoms, everything else unchanged |
| Array3dGrid.Topology3d | src/array_3d.rs:100-123 | the tables of an `Array3d` form a well-formed lattice of `W·H·D` sites with three axes |
| Array3dGrid.Topology3dSimple | src/array_3d.rs:100-123 | with every side `≥ 2` no site bonds with itself |
| Array3dGrid.Visit3d | src/array_3d.rs:100-104 | the loops visit `(x, y, z)` at step `(x·H + y)·D + z` |
| Array3dGrid.Partners3d | src/array_3d.rs:105-107 | the bond partners of `(x, y, z)` are one step back along `x`, `y` and `z` |
| Array3dGrid.Revs3d | src/array_3d.rs:105-107 | the sites whose partner `(x, y, z)` is are one step ahead along each axis |
| Array3dGrid.NeighboursTo3 | src/array_3d.rs:114-123 | `all_neighbours_to` yields six indexes |
| Array3dGrid.NeighboursToSites3 | src/array_3d.rs:114-123 | the six indexes name the lattice's neighbours, in the source's order |
| Array3dGrid.Local3d | src/system.rs:75-82 | `energies_around` over the six indexes is the site's local energy |
| Array3dGrid.Bonds3dArePairs | src/array_3d.rs:100-112 | the pairs met by the loops so far are the first ones of the bond list |
| Array3dGrid.AllBonds3d | src/array_3d.rs:100-112 | the finished loops give the lattice's bond list |
| Array3dGrid.Bonds3dCount | src/array_3d.rs:100-112 | the bond list has `3·W·H·D` pairs |
| Array3dGrid.ReduceIndex3 | src/array_3d.rs:146-152 | the reduced index is inside the grid, names the same cell, and equals the index exactly when that was inside already |
| Array3dGrid.ChooseWithOffset3 | src/array_3d.rs:125-136 | the second index is the first plus the drawn offset |
| Array3dGrid.OffsetAsWritten | src/array_3d.rs:44-45 | the source's offset has the wrapped `x` as its digit below `W` and `z·D + y` as its row, so a layer spans `D` rows where the buffer's layers span `H` |
| Array3dGrid.OffsetAsWrittenCollides | src/array_3d.rs:44-45 | with `2 ≤ D < H` the source's offset sends two different cells to one slot |
| Array3dGrid.OffsetAsWrittenOverflows | src/array_3d.rs:44-45 | with `D > H` the source's offset runs past the end of the buffer |
| Array3dGrid.OffsetAgreesWhenCube | src/array_3d.rs:44-45 | when `D = H` the source's offset is the corrected one |
| Array3dGrid.Array3d.Get | src/array_3d.rs:39-46 | a read takes the wrapped cell of the corrected layout, `(z·H + y)·W + x`; when `D = H` it is exactly the cell of the source's offset `z·D·W + y·W + x` |
| Array3dGrid.Array3d.Set | src/array_3d.rs:54-61 | a write changes the wrapped cell of the corrected layout and no other; when `D = H` that is the cell the source's offset names |
| Array3dGrid.Array3d.FillValue | src/array_3d.rs:82-86 | every cell holds the value |
| Array3dGrid.Array3d.FillWithFn | src/array_3d.rs:88-98 | cell `(x, y, z)` of the corrected layout holds the closure's result, called in `x`-outer, `z`-inner order |
| Array3dGrid.Array3d.FillColumn | src/array_3d.rs:90-96 | the inner loops fill column `x` of the corrected layout and change no other column |
| Array3dGrid.Array3d.AllNeighbours | src/array_3d.rs:100-112 | the returned list is the lattice's bond list |
| Array3dGrid.Array3d.SwapIdxs | src/array_3d.rs:154-158 | the two wrapped cells of the corrected layout exchange their atoms, everything else unchanged |
| FastArrayGrid.Mask | src/fast_array.rs:16 | `i & MASK` is below `2^POW`, and is `i` when `i` already is |
| FastArrayGrid.WrappingAdd | src/fast_array.rs:111-114 | a wrapping `usize` step stays a 64-bit word |
| FastArrayGrid.Cell | src/fast_array.rs:39-46 | the masked index addresses a cell of the `SIDE·SIDE` buffer |
| FastArrayGrid.CellIsAt2 | src/fast_array.rs:39-46 | masking is the toroidal wrap of a side-`2^POW` grid |
| FastArrayGrid.MaskWrappingAdd | src/fast_array.rs:107-116 | a wrapping `usize` step followed by the mask is the toroidal step, even at `0 - 1` |
| FastArrayGrid.TopologyFast | src/fast_array.rs:88-116 | the tables of a `FastArray` form a well-formed lattice of `SIDE²` sites with two axes |
| FastArrayGrid.TopologyFastSimple | src/fast_array.rs:88-116 | with `SIDE ≥ 2` no site bonds with itself |
| FastArrayGrid.VisitFast | src/fast_array.rs:90-91 | the loops visit `(x, y)` at step `y·SIDE + x` |
| FastArrayGrid.PartnersFast | src/fast_array.rs:94-98 | the bond partners of `(x, y)` are `(x + 1, y)` and `(x, y + 1)` |
| FastArrayGrid.RevsFast | src/fast_array.rs:94-98 | the sites whose partner `(x, y)` is are `(x - 1, y)` and `(x, y - 1)` |
| FastArrayGrid.NeighborsTo | src/fast_array.rs:107-116 | `all_neighbors_to` yields four indexes |
| FastArrayGrid.NeighborsToCells | src/fast_array.rs:107-116 | the four indexes address the toroidal neighbours of `(x, y)` |
| FastArrayGrid.LocalFast | src/system.rs:75-82 | `energies_around` over the four indexes is the site's local energy |
| FastArrayGrid.NeighboursFast | src/fast_array.rs:107-116 | the lattice's neighbour list of `(x, y)` in axis order |
| FastArrayGrid.AllBondsFast | src/fast_array.rs:88-105 | the pairs met by the loops are the lattice's bond list |
| FastArrayGrid.Bump | src/fast_array.rs:94-96 | `entry().and_modify().or_insert(1)`: the key's count goes up by one, or the key enters with count one |
| FastArrayGrid.BumpKeeps | src/fast_array.rs:94-96 | bumping one key leaves every other key's count alone |
| FastArrayGrid.TallyCounts | src/fast_array.rs:94-100 | the map holds exactly the pairs of the list, each with its number of occurrences |
| FastArrayGrid.TallyWeighted | src/system.rs:62-68 | any enumeration of the map, weighted by its counts, folds to the fold of the list |
| FastArrayGrid.MapEnergy | src/system.rs:62-68 | any enumeration of the map that `all_neighbors` returns folds to the lattice energy |
| FastArrayGrid.MapCounts | src/fast_array.rs:88-105 | the counts of the map add up to `2·SIDE²` |
| FastArrayGrid.ReduceIndexAsWritten | src/fast_array.rs:148-150 | as written, both coordinates of the result are the masked `x`, in range; `y` is never read |
| FastArrayGrid.ReduceIndexAsWrittenMovesCell | src/fast_array.rs:148-150 | as written, with `SIDE = 2` the index `(0, 1)` is reduced to `(0, 0)`, another cell |
| FastArrayGrid.ReduceIndex | src/fast_array.rs:148-150 | the corrected reduction is inside the grid, names the same cell, and equals the index exactly when that was inside already |
| FastArrayGrid.FastArray.Get | src/fast_array.rs:39-46 | a read takes row `y & MASK`, column `x & MASK` of the buffer; inside the grid that is flat element `y·SIDE + x` |
| FastArrayGrid.FastArray.Set | src/fast_array.rs:51-57 | a write changes the masked cell and no other |
| FastArrayGrid.FastArray.FlatLayout | src/fast_array.rs:132-136 | the in-grid index `(x, y)` is element `y·SIDE + x` of the flat slice |
| FastArrayGrid.FastArray.FillValue | src/fast_array.rs:73-75 | every cell holds the value |
| FastArrayGrid.FastArray.FillWithFn | src/fast_array.rs:77-86 | cell `(x, y)` holds the closure's result, called in `y`-outer, `x`-inner order |
| FastArrayGrid.FastArray.AllNeighbors | src/fast_array.rs:88-105 | the returned map is the multiplicity map of the lattice's bond list |
| FastArrayGrid.FastArray.AllIdxs | src/fast_array.rs:118-126 | every index once, the `k`-th being `(k mod SIDE, k div SIDE)` |
| FastArrayGrid.FastArray.TotSites | src/fast_array.rs:128-130 | the number of sites is the length of the buffer |
| Engine.System.constructor | src/system.rs:18-51 | the lattice holds the drawn atoms, the cache holds their total energy, and there is no vacancy |
| Engine.System.InternalEnergy | src/system.rs:58-72 | returns the cache if present, else the fold of `bond · count` over the bond entries, which is the total energy and is then cached |
| Engine.System.UpdateEnergy | src/system.rs:86-93 | adds the difference to the cache, which must be present (else the source panics) |
| Engine.System.Propose | src/system.rs:113-123 | accepted exactly when the local difference is not positive or the Metropolis draw succeeds; accepted means swapped and cache moved by that difference, rejected means nothing changed |
| Engine.System.ChooseDistinct | src/system.rs:107-112 | the first drawn pair whose cells hold different species |
| Engine.System.MonteCarloSwap | src/system.rs:155-200 | the proposed pair is the first of different species; acceptance, new lattice and new cache as for `Propose`; with symmetric bonds the cache stays equal to the lattice energy |
| Engine.System.SwapGreedy | src/system.rs:106-152 | as `MonteCarloSwap`, accepting only moves that do not raise the energy |
| Engine.System.MoveVacancy | src/system.rs:202-234 | the vacancy, drawn first if absent, trades places with the chosen neighbour under the same acceptance rule; species kept; with symmetric bonds the cache minus the bonds away from the vacancy stays put |
| Engine.System.HopVacancy | src/system.rs:206-229 | with a vacancy present: the delta is the moved atom's local energy at the vacancy site minus that at its own site; on acceptance the vacancy and the atom trade places and the cache grows by the delta, otherwise nothing changes; species kept; with symmetric bonds the cache minus the bonds away from the vacancy stays put |
| Engine.System.AsBytes | src/system.rs:238-244 | one byte per site in buffer order; the vacancy is not marked |
| ArrayLaticeEngine.AroundIgnoresSite | src/lib.rs:118-123 | `energies_around` does not read the site itself |
| ArrayLaticeEngine.HypotheticalGap | src/lib.rs:152-156 | the source's hypothetical difference misses the true local change by (times `p`, `q` neighbour) · `(2·bond(a, b) - bond(a, a) - bond(b, b))` |
| ArrayLaticeEngine.HypotheticalApart | src/lib.rs:152-156 | for non-neighbours the source's difference is the change of the total energy |
| ArrayLaticeEngine.HypotheticalAdjacentWrong | src/lib.rs:152-156 | for neighbours with a non-zero bracket it is not |
| ArrayLaticeEngine.DriverBondBracket | examples/b_2_t.rs:121-123 | the drivers' bond table is symmetric and its A–B bracket is 11 |
| ArrayLaticeEngine.SwapEnergy | src/lib.rs:157-163 | a committed swap of any two sites changes the energy by the change of their local energies |
| ArrayLaticeEngine.StaleCache | src/lib.rs:125-132 | as written, an empty cache is filled before the swap, so the cached energy is not the energy after it |
| ArrayLaticeEngine.ArrayLatice.New | src/lib.rs:43-77 | the `k`-th drawn atom fills cell `(k div H, k mod H)`; no cached energy |
| ArrayLaticeEngine.ArrayLatice.NewFromGrid | src/lib.rs:79-95 | the given grid as it is, no cached energy |
| ArrayLaticeEngine.ArrayLatice.TotEnergy | src/lib.rs:102-116 | returns the cache if present, else the loops' sum, which is the total energy and is then cached |
| ArrayLaticeEngine.BondSum | src/lib.rs:107-112 | the nested loop, `x` outer and `y` inner, adding each site's bonds to `x - 1` and `y - 1`, sums to the total energy |
| ArrayLaticeEngine.ArrayLatice.EnergiesAround | src/lib.rs:118-123 | the four bonds of a hypothetical atom with the neighbours of the index |
| ArrayLaticeEngine.ArrayLatice.UpdateEnergy | src/lib.rs:125-132 | adds the difference when cached; otherwise fills the cache from the grid as it is and drops the difference |
| ArrayLaticeEngine.ArrayLatice.SwapFirstDownhill | src/lib.rs:143-165 | commits the first candidate whose hypothetical difference is not positive: grid swapped, cache as `UpdateEnergy` leaves it |
| ArrayLaticeEngine.ArrayLatice.ProposalDelta | src/lib.rs:152-156 | `e_1 - e_0` is the hypothetical difference of the pair |
| ArrayLaticeEngine.ArrayLatice.SwapUniform | src/const_latice.rs:92-115 | `swap_uniform` and `swap_rand`: the committed candidate, new grid and cache, both indexes drawn in the grid |
| ArrayLaticeEngine.ArrayLatice.SwapDistDistr | src/lib.rs:171-200 | the same with the second index at the drawn offset from the first |
| ArrayLaticeEngine.ArrayLatice.UpdateEnergyCorrected | src/lib.rs:125-132 | the corrected update moves a present cache and leaves an absent one absent |
| ArrayLaticeEngine.ArrayLatice.SwapFirstDownhillCorrected | src/lib.rs:143-165 | the first candidate whose true local difference (taken after a trial swap) is not positive is swapped; a present cache moves by that difference and an absent one stays absent; with symmetric bonds on at least 2×2 the cache stays equal to the energy of the grid |
| ArrayLaticeEngine.ArrayLatice.LocalAt | src/lib.rs:118-123 | `energies_around` at the coordinates `(s mod W, s div W)` of site `s` with the site's own atom is that atom's local energy |
| Atoms.ConcreteNew | src/atoms.rs:69-76 | every component is the weight divided by the total of the weights |
| Atoms.ConcreteUniform | src/atoms.rs:78-81 | `N` components of `1/N` each |
| Atoms.NormalizedSumsToOne | src/atoms.rs:69-76 | the components of a concentration add up to one |
| Atoms.NormalizedRatios | src/atoms.rs:69-76 | normalising keeps the ratio of any two weights |
| Atoms.NormalizedInUnit | src/atoms.rs:69-76 | non-negative weights give components in `[0, 1]` |
| Atoms.AtomUniform | src/atoms.rs:88-91 | the atom is the integer drawn below `N` (`N as u8`) |
| Atoms.GenBool | src/binary.rs:52 | `gen_bool(p)` panics exactly when `p` is outside `[0, 1]`, and otherwise is true exactly when the uniform draw is below `p` |
| Atoms.Pick | src/atoms.rs:94-95 | the weighted index is the one whose cumulative slice holds the draw |
| Atoms.PickPositive | src/atoms.rs:94-95 | a weight of zero is never picked |
| Atoms.AtomWithConcentration | src/atoms.rs:93-96 | panics exactly when `WeightedIndex` rejects the weights; otherwise the atom drawn is the cumulative bucket `Pick` that holds the draw, an index of non-zero weight below `N` |
| Atoms.AtomBytes | src/atoms.rs:99-111 | the view has `len · size_of` bytes, one per cell, each the atom's byte |
| BinaryAtoms.BinFromByte | src/binary.rs:6-12 | only the bytes 0 and 1 are atoms, and they read back as their discriminants |
| BinaryAtoms.BinDiscriminantRoundTrip | src/binary.rs:6-12 | an atom's discriminant reads back as the atom |
| BinaryAtoms.BinNewAsWritten | src/binary.rs:21-27 | as written both fields are the share of A |
| BinaryAtoms.BinNewAsWrittenLosesB | src/binary.rs:25 | `new(1, 3)` as written gives `c_b = 1/4`, not `3/4`, and the fields add up to `1/2` |
| BinaryAtoms.BinNew | src/binary.rs:21-27 | corrected: each field is that species' share and the two add up to one |
| BinaryAtoms.BinNewAgreement | src/binary.rs:21-27 | written and corrected agree on `c_a`, and on `c_b` exactly when `n_a = n_b` |
| BinaryAtoms.BinUniformConcentration | src/binary.rs:31-33 | `uniform` is one half each, the same under both constructors |
| BinaryAtoms.BinNewInUnit | src/binary.rs:21-27 | non-negative counts give shares in `[0, 1]` |
| BinaryAtoms.BinUniform | src/binary.rs:43-49 | A exactly on heads |
| BinaryAtoms.BinWithConcentration | src/binary.rs:51-57 | panics exactly when `c_a` is outside `[0, 1]`; A exactly when the draw is below `c_a` |
| BinaryAtoms.BinDrawFromCounts | src/binary.rs:51-57 | drawing from counts never panics and gives A exactly below `n_a / (n_a + n_b)` |
| BinaryAtoms.BinBytes | src/binary.rs:60-73 | one byte per cell, each reading back as the cell's atom |
| TernaryAtoms.TerFromByte | src/ternary.rs:6-13 | only the bytes 0, 1 and 2 are atoms, and they read back as their discriminants |
| TernaryAtoms.TerDiscriminantRoundTrip | src/ternary.rs:6-13 | an atom's discriminant reads back as the atom |
| TernaryAtoms.TerNew | src/ternary.rs:24-32 | each share times the total is the count, the shares add up to one, and the share of B among B and C is defined exactly when there are any |
| TernaryAtoms.TerUniformConcentration | src/ternary.rs:36-38 | a third each, and half of the non-A atoms are B |
| TernaryAtoms.TerChainShares | src/ternary.rs:57-65 | rejecting A and then taking B has probability `c_b`, and rejecting both has `c_c` |
| TernaryAtoms.TerUniform | src/ternary.rs:48-55 | the atom drawn from `0..3` has that discriminant |
| TernaryAtoms.TerWithConcentration | src/ternary.rs:57-65 | A, B or C exactly on the stated draws; a probability outside `[0, 1]` is a panic |
| TernaryAtoms.TerDrawFromCountsTotal | src/ternary.rs:24-65 | a concentration from non-negative counts never panics, even with neither B nor C |
| TernaryAtoms.TerBytes | src/ternary.rs:68-81 | one byte per cell, each reading back as the cell's atom |
| TrinaryAtoms.TriFromByte | src/trinary.rs:17-24 | only the bytes 0, 1 and 2 are atoms, and they read back as their discriminants |
| TrinaryAtoms.TriDiscriminantRoundTrip | src/trinary.rs:17-24 | an atom's discriminant reads back as the atom |
| TrinaryAtoms.TriSecondOdds | src/trinary.rs:41 | `c.1 / (1 - c.0)` is defined exactly when `c.0 ≠ 1`, and scales back to `c.1` |
| TrinaryAtoms.TriUniform | src/trinary.rs:29-36 | the atom drawn from `0..3` has that discriminant |
| TrinaryAtoms.TriWithConcentration | src/trinary.rs:38-46 | A, B or C exactly on the stated draws; a probability outside `[0, 1]` is a panic |
| TrinaryAtoms.TriDrawTotal | src/trinary.rs:38-46 | shares that are non-negative and add up to at most one never panic |
| TrinaryAtoms.TriChainShares | src/trinary.rs:38-46 | rejecting A and then taking B has probability `c.1`, and rejecting both has `1 - c.0 - c.1` |
| TrinaryAtoms.TriBytes | src/trinary.rs:6-15 | one byte per cell, each reading back as the cell's atom |

## Left out

- **I/O and tooling.** Plots, animations, logs, the binaries under `src/main.rs` and `examples/`, and the
  Python scripts are not part of this model. They read or write files and draw images.
- **The random generator.** Seeding and the generator (`Pcg64`, `Seeder`) are left out. Each draw it would
  make is a parameter of the operation that makes it. No probability distribution is modelled.
  - `random_idx` and `choose_idxs_uniformly` are therefore the candidate indexes given to a move.
  - `Bernoulli` (`gen_bool`) and `WeightedIndex` are modelled by their decision on one uniform draw. Their
    rounding is not modelled.
- **Metropolis test.** `System.MonteCarloSwap` and `System.MoveVacancy` do not compute
  `rng.gen::<f32>() < exp(-β·ΔE)`. Floating-point `exp` is outside the model, so the test's outcome is a
  boolean parameter. `System.SwapGreedy` is the same move with that parameter false.
- **Floating point.** `f32` and `f64` (energies, concentrations) are exact reals. Rounding, NaN and infinities
  are not modelled.
  - A division by a zero total is excluded by a `requires`: `ConcreteNew`, `BinNewAsWritten`, `BinNew` and
    `TerNew`.
  - A division that can be zero on a valid input becomes `None`: `TriSecondOdds`, and the share of B in
    `TerNew`.
- **Entropy.** `max_entropy` (`ln`) is left out: it needs the real logarithm.
- **Retry loops.** A loop that draws until it succeeds is modelled on the finite list of its draws. The list
  must contain an accepting draw (`requires exists …`). A run that loops forever is not modelled. This
  applies to:
  - `System.ChooseDistinct`, `System.MonteCarloSwap`, `System.SwapGreedy`;
  - `ArrayLatice.SwapFirstDownhill`, `ArrayLatice.SwapUniform`, `ArrayLatice.SwapDistDistr`,
    `ArrayLatice.SwapFirstDownhillCorrected`.
- **Traits.** The `Lattice`, `Atom`/`NumAtom`, `ATrait`, `CTrait` and `Concentration` traits are not part of
  this model: their declarations are not available. Each backing is modelled with the members it implements.
  The engines run on their abstract lattice (`Lattice.Topology`).
- **The two `ArrayLatice` copies.** `src/const_latice.rs` duplicates `src/lib.rs`, so both are modelled once.
  `swap_rand` is `ArrayLatice.SwapUniform`. `ArrayLatice.New` takes its atoms as a function of the draw
  number, which covers both the uniform branch and the concentration branch.
- **Machine integers.** `usize` and `isize` have no overflow in `y·W + x` and the other offsets: the grids
  are taken to be small enough. `FastArray`'s `usize` steps (`wrapping_add`) do wrap modulo `2^64`, and `MASK`
  is the low `POW` bits (`i mod 2^POW`). `SIDE = 2^POW` is an invariant of `FastArray`: the source only checks
  it with a `debug_assert`.
- **Byte views.** The unsafe reinterpretation of the buffer as `&[u8]` is a sequence of bytes, one
  discriminant per cell. A datatype's layout is not modelled.
- **Casts.** `Atoms.AtomUniform`: the `N as u8` cast is modelled as `N mod 256`. A range of width zero makes
  the source panic. No draw can meet that `requires`, since no draw lies in an empty range.
- **Zero-sized grids.** Every grid has at least one cell per axis: `rem_euclid` by zero panics.
- **Getters and defaults.** `get_cs`, `Deref for Atom<N>` (`Atoms.Deref`, the atom's byte), the `Default` impls, `FastArray::new` beyond `FillValue`, `gif` frames
  and `as_flat_slice_mut` carry no further behaviour. They are not modelled.
- **Other code.** Region or cluster counting and streaming statistics are not part of the core files and are
  not part of this model.
- `Array3dGrid.Array3d`: the class stores its cells in the corrected layout `(z·H + y)·W + x` for every
  shape. For `2 ≤ D < H` the source's offset `z·D·W + y·W + x` makes two cells share a slot, and for `D > H`
  it indexes past the buffer and panics; the class reproduces neither. The two layouts coincide exactly when
  `D = H` (`Array3dGrid.OffsetAgreesWhenCube`, and the second `ensures` of `Array3dGrid.Array3d.Get`), the
  shape of every driver. `Array3dGrid.OffsetAsWritten` and its two lemmas model the offset as written.
- `Engine.System.constructor`: the atoms drawn by `fill_with_fn` are given as a sequence. The concentration is
  stored as it is given.
- `ArrayLaticeEngine.ArrayLatice.SwapFirstDownhillCorrected`: besides its own guarantees, it keeps the cache
  coherent only for a symmetric bond table on a grid of at least 2×2. Those are the settings where the total
  energy counts every bond once.

## Findings

| source | as written | input that shows it | evidently intended | confidence | as-written member | corrected member |
|---|---|---|---|---|---|---|
| src/array_3d.rs:44-45 | offset `z·D·W + y·W + x` | `W = 1, H = 3, D = 2`: cells `(0, 2, 0)` and `(0, 0, 1)` both land in slot 2; `W = H = 1, D = 2`: cell `(0, 0, 1)` lands past the 2-cell buffer | `(z·H + y)·W + x` (the row stride of a layer is `H·W`) | high, not executed | Array3dGrid.OffsetAsWrittenCollides | Torus.At3Same |
| src/fast_array.rs:149 | `(idx.0 & MASK, idx.0 & MASK)` | `SIDE = 2`, index `(0, 1)` is reduced to `(0, 0)` | `(idx.0 & MASK, idx.1 & MASK)` | high, not executed | FastArrayGrid.ReduceIndexAsWrittenMovesCell | FastArrayGrid.ReduceIndex |
| src/lib.rs:152-156 | `e_1` sums each atom's bonds around the other's site without moving them, so a bond between the two sites is charged against the wrong atoms | bond table `[-4, 3, 3, -1]` of `examples/b_2_t.rs`; an A next to a B: the difference is off by 11 | the change of the total energy, measured after a trial swap as in `src/system.rs:113-116` | medium, not executed | ArrayLaticeEngine.HypotheticalAdjacentWrong | ArrayLaticeEngine.ArrayLatice.SwapFirstDownhillCorrected |
| src/lib.rs:125-132 | `update_energy` with no cache computes `tot_energy` before the swap is made and drops `delta_e` | a fresh `ArrayLatice` (no cache), first committed swap of two non-neighbouring sites with a negative difference: the cache holds the energy before the swap | move a present cache; leave an absent one to be computed later | high, not executed | ArrayLaticeEngine.StaleCache | ArrayLaticeEngine.ArrayLatice.UpdateEnergyCorrected |
| src/binary.rs:25 | `c_b: n_a / n_tot` | `new(1, 3)`: `c_b = 0.25` instead of `0.75` | `c_b: n_b / n_tot` | high, not executed | BinaryAtoms.BinNewAsWrittenLosesB | BinaryAtoms.BinNew |
