/**
  Array2d<T, W, H>: a W·H buffer addressed by (x, y) with both coordinates wrapping (rem_euclid), site
  y·W + x. Its loops visit x outer and y inner, and its bond list pairs every site with the site one step
  back along x and along y.
*/
module Array2dGrid {
  import opened Arith
  import opened Lattice
  import opened Torus

  /** The tables of an Array2d of width w and height h. */
  function Tables2d(w: nat, h: nat): (t: Topology)
    requires w > 0 && h > 0
  {
    Topology(w * h,
             seq(w * h, (i: int) requires 0 <= i => Tr(i, w, h)),
             seq(w * h, (s: int) requires 0 <= s => Tr(s, h, w)),
             [GridAxis(w * h, 1, w, -1), GridAxis(w * h, w, h, -1)])
  }

  /** The visit order and the bond tables of an Array2d are permutations with their inverses. */
  lemma Tables2dWellFormed(w: nat, h: nat)
    requires w > 0 && h > 0
    ensures WellFormed(Tables2d(w, h))
  {
    var t := Tables2d(w, h);
    GridAxisInverse(w * h, 1, w, h, -1);
    GridAxisInverse(w * h, w, h, 1, -1);
    forall i | 0 <= i < w * h
      ensures t.order[i] < w * h && t.position[t.order[i]] == i
    {
      TrBack(i, w, h);
    }
    forall s | 0 <= s < w * h
      ensures t.position[s] < w * h && t.order[t.position[s]] == s
    {
      TrBack(s, h, w);
    }
  }

  /** The topology of an Array2d: sites y * w + x, visited x outer and y inner, bonded to x - 1 and y - 1. */
  function Topology2d(w: nat, h: nat): (t: Topology)
    requires w > 0 && h > 0
    ensures WellFormed(t) && t.size == w * h && |t.axes| == 2
  {
    Tables2dWellFormed(w, h);
    Tables2d(w, h)
  }

  /** With at least two columns and two rows no site is its own neighbour. */
  lemma Topology2dSimple(w: nat, h: nat)
    requires w >= 2 && h >= 2
    ensures Simple(Topology2d(w, h))
  {
    GridAxisMoves(w * h, 1, w, -1);
    GridAxisMoves(w * h, w, h, -1);
  }

  /** The k-th visited site is (k / h, k % h). */
  lemma Visit2d(w: nat, h: nat, x: nat, y: nat)
    requires x < w && y < h
    ensures Mix(x, y, h) < w * h
    ensures Topology2d(w, h).order[Mix(x, y, h)] == At2(x, y, w, h)
  {
    MixDigits(x, y, w, h);
  }

  /** The bond partners of a site are the sites one step back along x and along y. */
  lemma Partners2d(w: nat, h: nat, x: int, y: int)
    requires w > 0 && h > 0
    ensures Topology2d(w, h).axes[0].partner[At2(x, y, w, h)] == At2(x - 1, y, w, h)
    ensures Topology2d(w, h).axes[1].partner[At2(x, y, w, h)] == At2(x, y - 1, w, h)
  {
    At2StepX(x, y, w, h, -1);
    At2StepY(x, y, w, h, -1);
  }

  /** The reverse partners of a site are the sites one step ahead along x and along y. */
  lemma Revs2d(w: nat, h: nat, x: int, y: int)
    requires w > 0 && h > 0
    ensures Topology2d(w, h).axes[0].rev[At2(x, y, w, h)] == At2(x + 1, y, w, h)
    ensures Topology2d(w, h).axes[1].rev[At2(x, y, w, h)] == At2(x, y + 1, w, h)
  {
    At2StepX(x, y, w, h, 1);
    At2StepY(x, y, w, h, 1);
  }

  /** all_neighbours_to: its four neighbours, as coordinates (x+1, y), (x-1, y), (x, y+1), (x, y-1). */
  function NeighboursTo(x: int, y: int): (ns: seq<(int, int)>)
    ensures |ns| == 4
  {
    [(x + 1, y), (x - 1, y), (x, y + 1), (x, y - 1)]
  }

  /** One step of the bond loop: visiting (x, y) appends the bonds to (x - 1, y) and (x, y - 1). */
  lemma BondsStep2d<T>(w: nat, h: nat, g: seq<T>, x: nat, y: nat, k: nat)
    requires x < w && y < h && |g| == w * h && k == Mix(x, y, h)
    ensures k < w * h
    ensures PairsUpTo(Topology2d(w, h), g, k + 1) == PairsUpTo(Topology2d(w, h), g, k)
      + [(g[At2(x, y, w, h)], g[At2(x - 1, y, w, h)]), (g[At2(x, y, w, h)], g[At2(x, y - 1, w, h)])]
  {
    Visit2d(w, h, x, y);
    Partners2d(w, h, x, y);
    PairsStep2(Topology2d(w, h), g, k);
  }

  /** The bonds all_neighbours has produced once its loops reach column x, row y: the columns before x,
      then rows 0..y-1 of column x, each site contributing its bonds to (x - 1, y) and (x, y - 1). */
  function Bonds2d<T>(w: nat, h: nat, g: seq<T>, x: nat, y: nat): seq<(T, T)>
    requires w > 0 && h > 0 && |g| == w * h && y <= h
    decreases x, y
  {
    if y == 0 then
      (if x == 0 then [] else Bonds2d(w, h, g, x - 1, h))
    else
      Bonds2d(w, h, g, x, y - 1)
        + [(g[At2(x, y - 1, w, h)], g[At2(x - 1, y - 1, w, h)]), (g[At2(x, y - 1, w, h)], g[At2(x, y - 2, w, h)])]
  }

  /** One more row of column x appends the two bonds of (x, y). */
  lemma Bonds2dNext<T>(w: nat, h: nat, g: seq<T>, x: nat, y: nat)
    requires w > 0 && h > 0 && |g| == w * h && y < h
    ensures Bonds2d(w, h, g, x, y + 1) == Bonds2d(w, h, g, x, y)
      + [(g[At2(x, y, w, h)], g[At2(x - 1, y, w, h)]), (g[At2(x, y, w, h)], g[At2(x, y - 1, w, h)])]
  {
  }

  /** Row 0 of column x continues where column x - 1 ended; nothing precedes column 0. */
  lemma Bonds2dCarry<T>(w: nat, h: nat, g: seq<T>, x: nat)
    requires w > 0 && h > 0 && |g| == w * h
    ensures Bonds2d(w, h, g, x, 0) == if x == 0 then [] else Bonds2d(w, h, g, x - 1, h)
    ensures x == 0 ==> Mix(x, 0, h) == 0 && PairsUpTo(Topology2d(w, h), g, 0) == []
  {
  }

  /** After column x row y the loops have produced exactly the topology's first x * h + y bond groups. */
  lemma {:induction false} Bonds2dArePairs<T>(w: nat, h: nat, g: seq<T>, x: nat, y: nat)
    requires w > 0 && h > 0 && |g| == w * h && ((x < w && y <= h) || (x <= w && y == 0))
    ensures Mix(x, y, h) <= w * h
    ensures Bonds2d(w, h, g, x, y) == PairsUpTo(Topology2d(w, h), g, Mix(x, y, h))
    decreases x, y
  {
    hide *;
    MixAtMost(x, y, w, h);
    Bonds2dCarry(w, h, g, x);
    if y > 0 {
      Bonds2dArePairs(w, h, g, x, y - 1);
      MixNext(x, y - 1, h);
      BondsStep2d(w, h, g, x, y - 1, Mix(x, y - 1, h));
      Bonds2dNext(w, h, g, x, y - 1);
    } else if x > 0 {
      Bonds2dArePairs(w, h, g, x - 1, h);
      MixCarry(x - 1, h);
    }
  }

  /** all_neighbours yields 2 · W · H pairs: one per site and axis. */
  lemma Bonds2dCount<T>(w: nat, h: nat, g: seq<T>)
    requires w > 0 && h > 0 && |g| == w * h
    ensures |Pairs(Topology2d(w, h), g)| == 2 * w * h
  {
    hide *;
    var t := Topology2d(w, h);
    ListLength(t, g);
    assert t.size * |t.axes| == 2 * w * h by {
      assert t.size == w * h && |t.axes| == 2;
    }
  }

  /** The finished loops produce the topology's bond list, so the list folds to the lattice energy. */
  lemma AllBonds2d<T>(w: nat, h: nat, g: seq<T>)
    requires w > 0 && h > 0 && |g| == w * h
    ensures Bonds2d(w, h, g, w, 0) == Pairs(Topology2d(w, h), g)
  {
    Bonds2dArePairs(w, h, g, w, 0);
  }

  /** The four neighbour coordinates name exactly the sites of the topology's neighbour list, in order. */
  lemma NeighboursToSites(w: nat, h: nat, x: int, y: int)
    requires w > 0 && h > 0
    ensures Neighbours(Topology2d(w, h), At2(x, y, w, h))
         == [At2(x + 1, y, w, h), At2(x - 1, y, w, h), At2(x, y + 1, w, h), At2(x, y - 1, w, h)]
  {
    NeighboursOf2(Topology2d(w, h), At2(x, y, w, h));
    Partners2d(w, h, x, y);
    Revs2d(w, h, x, y);
  }

  /** energies_around at (x, y): the bonds of its atom with the atoms at x + 1, x - 1, y + 1 and y - 1,
      accumulated in that order. */
  lemma Local2d<A>(w: nat, h: nat, g: seq<A>, bond: (A, A) -> real, x: int, y: int)
    requires w > 0 && h > 0 && |g| == w * h
    ensures var c := g[At2(x, y, w, h)];
      Local(Topology2d(w, h), g, bond, At2(x, y, w, h))
      == bond(c, g[At2(x + 1, y, w, h)]) + bond(c, g[At2(x - 1, y, w, h)])
       + bond(c, g[At2(x, y + 1, w, h)]) + bond(c, g[At2(x, y - 1, w, h)])
  {
    var c := g[At2(x, y, w, h)];
    var ns := [At2(x + 1, y, w, h), At2(x - 1, y, w, h), At2(x, y + 1, w, h), At2(x, y - 1, w, h)];
    NeighboursToSites(w, h, x, y);
    Around4(g, bond, c, ns);
  }

  /** reduce_index: both coordinates wrapped into the grid; it names the same cell as the index itself. */
  function ReduceIndex(x: int, y: int, w: nat, h: nat): (r: (int, int))
    requires w > 0 && h > 0
    ensures 0 <= r.0 < w && 0 <= r.1 < h
    ensures At2(r.0, r.1, w, h) == At2(x, y, w, h)
    ensures r == (x, y) <==> 0 <= x < w && 0 <= y < h
  {
    (Wrap(x, w), Wrap(y, h))
  }

  /** choose_idxs_with_distribution: the first index drawn uniformly, the second offset from it. */
  function ChooseWithOffset(first: (int, int), offset: (int, int)): (r: ((int, int), (int, int)))
    ensures r.0 == first && r.1.0 - r.0.0 == offset.0 && r.1.1 - r.0.1 == offset.1
  {
    (first, (first.0 + offset.0, first.1 + offset.1))
  }

  /** The offsets are read modulo the grid: offsets that differ by whole periods pick the same cell. */
  lemma OffsetPeriodic(w: nat, h: nat, first: (int, int), offset: (int, int), k: int, j: int)
    requires w > 0 && h > 0
    ensures var a := ChooseWithOffset(first, offset).1;
            var b := ChooseWithOffset(first, (offset.0 + k * w, offset.1 + j * h)).1;
            At2(a.0, a.1, w, h) == At2(b.0, b.1, w, h)
  {
    WrapPeriodic(first.0 + offset.0, k, w);
    WrapPeriodic(first.1 + offset.1, j, h);
    assert first.0 + (offset.0 + k * w) == first.0 + offset.0 + k * w;
    assert first.1 + (offset.1 + j * h) == first.1 + offset.1 + j * h;
  }

  class Array2d<T> {
    const width: nat
    const height: nat
    const grid: array<T>

    ghost predicate Valid()
      reads this
    {
      width > 0 && height > 0 && grid.Length == width * height
    }

    /** Index<(isize, isize)>: the atom at the wrapped coordinate, row-major; inside the grid the index is
        the offset y · W + x itself. */
    function Get(x: int, y: int): (r: T)
      reads this, grid
      requires Valid()
      ensures At2(x, y, width, height) == Wrap(y, height) * width + Wrap(x, width)
      ensures r == grid[Wrap(y, height) * width + Wrap(x, width)]
      ensures 0 <= x < width && 0 <= y < height ==> r == grid[y * width + x]
    {
      grid[At2(x, y, width, height)]
    }

    /** IndexMut<(isize, isize)>: writes the wrapped cell and no other. */
    method Set(x: int, y: int, v: T)
      requires Valid()
      modifies grid
      ensures grid[..] == old(grid[..])[At2(x, y, width, height) := v]
    {
      grid[At2(x, y, width, height)] := v;
    }

    /** fill_value: every cell holds val. */
    constructor FillValue(width: nat, height: nat, val: T)
      requires width > 0 && height > 0
      ensures Valid() && this.width == width && this.height == height && fresh(grid)
      ensures forall s :: 0 <= s < grid.Length ==> grid[s] == val
    {
      this.width := width;
      this.height := height;
      grid := new T[width * height](_ => val);
    }

    /** fill_with_fn: the closure is called once per cell, x outer and y inner; its k-th call, at (x, y),
        is modelled as func(k, x, y), so a closure that draws random atoms is covered. */
    constructor FillWithFn(width: nat, height: nat, default: T, func: (nat, int, int) -> T)
      requires width > 0 && height > 0
      ensures Valid() && this.width == width && this.height == height && fresh(grid)
      ensures forall x: nat, y: nat :: x < width && y < height ==>
        grid[At2(x, y, width, height)] == func(Mix(x, y, height), x, y)
    {
      this.width := width;
      this.height := height;
      grid := new T[width * height](_ => default);
      new;
      var x: nat := 0;
      while x < width
        invariant x <= width
        invariant forall x': nat, y': nat :: x' < x && y' < height ==>
          grid[At2(x', y', width, height)] == func(Mix(x', y', height), x', y')
      {
        var y: nat := 0;
        while y < height
          invariant y <= height
          invariant forall x': nat, y': nat :: x' < x && y' < height ==>
            grid[At2(x', y', width, height)] == func(Mix(x', y', height), x', y')
          invariant forall y': nat :: y' < y ==> grid[At2(x, y', width, height)] == func(Mix(x, y', height), x, y')
        {
          At2Separates(x, y, width, height);
          grid[At2(x, y, width, height)] := func(Mix(x, y, height), x, y);
          y := y + 1;
        }
        x := x + 1;
      }
    }

    /** all_neighbours: for every site, x outer and y inner, the pair with the site at x - 1 and the pair
        with the site at y - 1; this is the bond list of the topology, so it folds to the energy. */
    method AllNeighbours() returns (out: seq<(T, T)>)
      requires Valid()
      ensures out == Bonds2d(width, height, grid[..], width, 0)
      ensures out == Pairs(Topology2d(width, height), grid[..])
    {
      hide At2, Topology2d;
      out := [];
      var x: nat := 0;
      while x < width
        invariant x <= width
        invariant out == Bonds2d(width, height, grid[..], x, 0)
      {
        var y: nat := 0;
        while y < height
          invariant y <= height
          invariant out == Bonds2d(width, height, grid[..], x, y)
        {
          out := out + [(Get(x, y), Get(x - 1, y)), (Get(x, y), Get(x, y - 1))];
          y := y + 1;
        }
        x := x + 1;
      }
      AllBonds2d(width, height, grid[..]);
    }

    /** swap_idxs: the two wrapped cells exchange their atoms. */
    method SwapIdxs(x1: int, y1: int, x2: int, y2: int)
      requires Valid()
      modifies grid
      ensures grid[..] == SwapSeq(old(grid[..]), At2(x1, y1, width, height), At2(x2, y2, width, height))
    {
      Swap(grid, At2(x1, y1, width, height), At2(x2, y2, width, height));
    }
  }
}
