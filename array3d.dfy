/**
  Array3d<T, W, H, D>: a W·H·D buffer addressed by (x, y, z) with all three coordinates wrapping
  (rem_euclid). Its loops visit x outer, y in the middle and z inner, and its bond list pairs every site
  with the sites one step back along x, y and z.

  The model stores the cell (x, y, z) at (z·H + y)·W + x (At3). The offset the source computes is
  z·D·W + y·W + x (OffsetAsWritten below), which is the same only when D == H.
*/
module Array3dGrid {
  import opened Arith
  import opened Lattice
  import opened Torus

  /** The tables of an Array3d of width w, height h and depth d. */
  function Tables3d(w: nat, h: nat, d: nat): (t: Topology)
    requires w > 0 && h > 0 && d > 0
  {
    Topology(w * h * d,
             seq(w * h * d, (i: int) requires 0 <= i => Rev3(i, w, h, d)),
             seq(w * h * d, (s: int) requires 0 <= s => Rev3(s, d, h, w)),
             [GridAxis(w * h * d, 1, w, -1), GridAxis(w * h * d, w, h, -1), GridAxis(w * h * d, w * h, d, -1)])
  }

  /** The visit order of an Array3d is a permutation with its inverse. */
  lemma Order3dInverse(w: nat, h: nat, d: nat)
    requires w > 0 && h > 0 && d > 0
    ensures var t := Tables3d(w, h, d);
      && (forall i :: 0 <= i < t.size ==> t.order[i] < t.size && t.position[t.order[i]] == i)
      && (forall s :: 0 <= s < t.size ==> t.position[s] < t.size && t.order[t.position[s]] == s)
  {
    var t := Tables3d(w, h, d);
    var n := w * h * d;
    assert d * h * w == n;
    hide Rev3;
    forall i | 0 <= i < n
      ensures t.order[i] < n && t.position[t.order[i]] == i
    {
      Rev3Back(i, w, h, d);
    }
    forall s | 0 <= s < n
      ensures t.position[s] < n && t.order[t.position[s]] == s
    {
      Rev3Back(s, d, h, w);
    }
  }

  /** The visit order and the bond tables of an Array3d are permutations with their inverses. */
  lemma Tables3dWellFormed(w: nat, h: nat, d: nat)
    requires w > 0 && h > 0 && d > 0
    ensures WellFormed(Tables3d(w, h, d))
  {
    var n := w * h * d;
    assert n == 1 * w * (h * d) && n == (w * h) * d * 1;
    GridAxisInverse(n, 1, w, h * d, -1);
    GridAxisInverse(n, w, h, d, -1);
    GridAxisInverse(n, w * h, d, 1, -1);
    Order3dInverse(w, h, d);
  }

  /** The topology of an Array3d: sites (z * h + y) * w + x, visited x outer, y middle and z inner,
      bonded to x - 1, y - 1 and z - 1. */
  function Topology3d(w: nat, h: nat, d: nat): (t: Topology)
    requires w > 0 && h > 0 && d > 0
    ensures WellFormed(t) && t.size == w * h * d && |t.axes| == 3
  {
    Tables3dWellFormed(w, h, d);
    Tables3d(w, h, d)
  }

  /** With every side at least two no site is its own neighbour. */
  lemma Topology3dSimple(w: nat, h: nat, d: nat)
    requires w >= 2 && h >= 2 && d >= 2
    ensures Simple(Topology3d(w, h, d))
  {
    GridAxisMoves(w * h * d, 1, w, -1);
    GridAxisMoves(w * h * d, w, h, -1);
    GridAxisMoves(w * h * d, w * h, d, -1);
  }

  /** The k-th visited site, k = (x * h + y) * d + z, is (x, y, z). */
  lemma Visit3d(w: nat, h: nat, d: nat, x: nat, y: nat, z: nat)
    requires x < w && y < h && z < d
    ensures Mix(Mix(x, y, h), z, d) < w * h * d
    ensures Topology3d(w, h, d).order[Mix(Mix(x, y, h), z, d)] == At3(x, y, z, w, h, d)
  {
    Digits3Of(x, y, z, w, h, d);
    At3InRange(x, y, z, w, h, d);
  }

  /** The bond partners of a site are the sites one step back along x, y and z. */
  lemma Partners3d(w: nat, h: nat, d: nat, x: int, y: int, z: int)
    requires w > 0 && h > 0 && d > 0
    ensures Topology3d(w, h, d).axes[0].partner[At3(x, y, z, w, h, d)] == At3(x - 1, y, z, w, h, d)
    ensures Topology3d(w, h, d).axes[1].partner[At3(x, y, z, w, h, d)] == At3(x, y - 1, z, w, h, d)
    ensures Topology3d(w, h, d).axes[2].partner[At3(x, y, z, w, h, d)] == At3(x, y, z - 1, w, h, d)
  {
    At3StepX(x, y, z, w, h, d, -1);
    At3StepY(x, y, z, w, h, d, -1);
    At3StepZ(x, y, z, w, h, d, -1);
  }

  /** The reverse partners of a site are the sites one step ahead along x, y and z. */
  lemma Revs3d(w: nat, h: nat, d: nat, x: int, y: int, z: int)
    requires w > 0 && h > 0 && d > 0
    ensures Topology3d(w, h, d).axes[0].rev[At3(x, y, z, w, h, d)] == At3(x + 1, y, z, w, h, d)
    ensures Topology3d(w, h, d).axes[1].rev[At3(x, y, z, w, h, d)] == At3(x, y + 1, z, w, h, d)
    ensures Topology3d(w, h, d).axes[2].rev[At3(x, y, z, w, h, d)] == At3(x, y, z + 1, w, h, d)
  {
    At3StepX(x, y, z, w, h, d, 1);
    At3StepY(x, y, z, w, h, d, 1);
    At3StepZ(x, y, z, w, h, d, 1);
  }

  /** all_neighbours_to: the six neighbour coordinates, x first, then y, then z, each ahead then back. */
  function NeighboursTo3(x: int, y: int, z: int): (ns: seq<(int, int, int)>)
    ensures |ns| == 6
  {
    [(x + 1, y, z), (x - 1, y, z), (x, y + 1, z), (x, y - 1, z), (x, y, z + 1), (x, y, z - 1)]
  }

  /** The six neighbour coordinates name exactly the sites of the topology's neighbour list, in order. */
  lemma NeighboursToSites3(w: nat, h: nat, d: nat, x: int, y: int, z: int)
    requires w > 0 && h > 0 && d > 0
    ensures var ns := NeighboursTo3(x, y, z);
      Neighbours(Topology3d(w, h, d), At3(x, y, z, w, h, d))
      == seq(6, (j: int) requires 0 <= j < 6 => At3(ns[j].0, ns[j].1, ns[j].2, w, h, d))
  {
    NeighboursOf3(Topology3d(w, h, d), At3(x, y, z, w, h, d));
    Partners3d(w, h, d, x, y, z);
    Revs3d(w, h, d, x, y, z);
  }

  /** energies_around at (x, y, z): the bonds of its atom with the atoms of its six neighbours, in the
      order of all_neighbours_to. */
  lemma Local3d<A>(w: nat, h: nat, d: nat, g: seq<A>, bond: (A, A) -> real, x: int, y: int, z: int)
    requires w > 0 && h > 0 && d > 0 && |g| == w * h * d
    ensures var c := g[At3(x, y, z, w, h, d)];
      Local(Topology3d(w, h, d), g, bond, At3(x, y, z, w, h, d))
      == bond(c, g[At3(x + 1, y, z, w, h, d)]) + bond(c, g[At3(x - 1, y, z, w, h, d)])
       + bond(c, g[At3(x, y + 1, z, w, h, d)]) + bond(c, g[At3(x, y - 1, z, w, h, d)])
       + bond(c, g[At3(x, y, z + 1, w, h, d)]) + bond(c, g[At3(x, y, z - 1, w, h, d)])
  {
    var c := g[At3(x, y, z, w, h, d)];
    NeighboursToSites3(w, h, d, x, y, z);
    Around6(g, bond, c, Neighbours(Topology3d(w, h, d), At3(x, y, z, w, h, d)));
  }

  /** The three bonds of the site (x, y, z): to x - 1, y - 1 and z - 1. */
  function SiteBonds3d<T>(w: nat, h: nat, d: nat, g: seq<T>, x: int, y: int, z: int): (r: seq<(T, T)>)
    requires w > 0 && h > 0 && d > 0 && |g| == w * h * d
    ensures |r| == 3
  {
    var c := g[At3(x, y, z, w, h, d)];
    [(c, g[At3(x - 1, y, z, w, h, d)]), (c, g[At3(x, y - 1, z, w, h, d)]), (c, g[At3(x, y, z - 1, w, h, d)])]
  }

  /** One step of the bond loop: visiting (x, y, z) appends its three bonds. */
  lemma BondsStep3d<T>(w: nat, h: nat, d: nat, g: seq<T>, x: nat, y: nat, z: nat, k: nat)
    requires x < w && y < h && z < d && |g| == w * h * d && k == Mix(Mix(x, y, h), z, d)
    ensures k < w * h * d
    ensures PairsUpTo(Topology3d(w, h, d), g, k + 1)
         == PairsUpTo(Topology3d(w, h, d), g, k) + SiteBonds3d(w, h, d, g, x, y, z)
  {
    hide At3, Topology3d;
    Visit3d(w, h, d, x, y, z);
    Partners3d(w, h, d, x, y, z);
    PairsStep3(Topology3d(w, h, d), g, k);
  }

  /** The bonds all_neighbours has produced once its loops reach (x, y, z): the columns before x, the
      rows before y of column x, then the sites 0..z-1 of row y. */
  function Bonds3d<T>(w: nat, h: nat, d: nat, g: seq<T>, x: nat, y: nat, z: nat): seq<(T, T)>
    requires w > 0 && h > 0 && d > 0 && |g| == w * h * d && y <= h && z <= d
    decreases x, y, z
  {
    if z == 0 then
      if y == 0 then (if x == 0 then [] else Bonds3d(w, h, d, g, x - 1, h, 0))
      else Bonds3d(w, h, d, g, x, y - 1, d)
    else
      Bonds3d(w, h, d, g, x, y, z - 1) + SiteBonds3d(w, h, d, g, x, y, z - 1)
  }

  /** One more site of the innermost loop appends its three bonds. */
  lemma Bonds3dNext<T>(w: nat, h: nat, d: nat, g: seq<T>, x: nat, y: nat, z: nat)
    requires w > 0 && h > 0 && d > 0 && |g| == w * h * d && y <= h && z < d
    ensures Bonds3d(w, h, d, g, x, y, z + 1) == Bonds3d(w, h, d, g, x, y, z) + SiteBonds3d(w, h, d, g, x, y, z)
  {
  }

  /** The start of a row continues where the row before (or the column before) ended. */
  lemma Bonds3dCarry<T>(w: nat, h: nat, d: nat, g: seq<T>, x: nat, y: nat)
    requires w > 0 && h > 0 && d > 0 && |g| == w * h * d && y <= h
    ensures Bonds3d(w, h, d, g, x, y, 0)
         == if y > 0 then Bonds3d(w, h, d, g, x, y - 1, d)
            else if x > 0 then Bonds3d(w, h, d, g, x - 1, h, 0)
            else []
    ensures x == 0 && y == 0 ==> Mix(Mix(x, y, h), 0, d) == 0 && PairsUpTo(Topology3d(w, h, d), g, 0) == []
  {
  }

  /** Where the loops stand, as a count of visited sites, is within the grid. */
  lemma Mix3AtMost(w: nat, h: nat, d: nat, x: nat, y: nat, z: nat)
    requires (x < w && y < h && z <= d) || (x < w && y <= h && z == 0) || (x <= w && y == 0 && z == 0)
    ensures Mix(Mix(x, y, h), z, d) <= w * h * d
  {
    if z == 0 {
      MixAtMost(x, y, w, h);
      MixAtMost(Mix(x, y, h), 0, w * h, d);
    } else {
      MixDigits(x, y, w, h);
      MixAtMost(Mix(x, y, h), z, w * h, d);
    }
  }

  /** After (x, y, z) the loops have produced exactly the topology's first (x * h + y) * d + z bond
      groups. */
  lemma {:induction false} Bonds3dArePairs<T>(w: nat, h: nat, d: nat, g: seq<T>, x: nat, y: nat, z: nat)
    requires w > 0 && h > 0 && d > 0 && |g| == w * h * d
    requires (x < w && y < h && z <= d) || (x < w && y <= h && z == 0) || (x <= w && y == 0 && z == 0)
    ensures Mix(Mix(x, y, h), z, d) <= w * h * d
    ensures Bonds3d(w, h, d, g, x, y, z) == PairsUpTo(Topology3d(w, h, d), g, Mix(Mix(x, y, h), z, d))
    decreases x, y, z
  {
    hide *;
    Mix3AtMost(w, h, d, x, y, z);
    Bonds3dCarry(w, h, d, g, x, y);
    if z > 0 {
      Bonds3dArePairs(w, h, d, g, x, y, z - 1);
      MixNext(Mix(x, y, h), z - 1, d);
      BondsStep3d(w, h, d, g, x, y, z - 1, Mix(Mix(x, y, h), z - 1, d));
      Bonds3dNext(w, h, d, g, x, y, z - 1);
    } else if y > 0 {
      Bonds3dArePairs(w, h, d, g, x, y - 1, d);
      MixCarry(Mix(x, y - 1, h), d);
      MixNext(x, y - 1, h);
    } else if x > 0 {
      Bonds3dArePairs(w, h, d, g, x - 1, h, 0);
      MixCarry(x - 1, h);
    }
  }

  /** all_neighbours yields 3 · W · H · D pairs: one per site and axis. */
  lemma Bonds3dCount<T>(w: nat, h: nat, d: nat, g: seq<T>)
    requires w > 0 && h > 0 && d > 0 && |g| == w * h * d
    ensures |Pairs(Topology3d(w, h, d), g)| == 3 * w * h * d
  {
    hide *;
    var t := Topology3d(w, h, d);
    ListLength(t, g);
    assert t.size * |t.axes| == 3 * w * h * d by {
      assert t.size == w * h * d && |t.axes| == 3;
    }
  }

  /** The finished loops produce the topology's bond list, so the list folds to the lattice energy. */
  lemma AllBonds3d<T>(w: nat, h: nat, d: nat, g: seq<T>)
    requires w > 0 && h > 0 && d > 0 && |g| == w * h * d
    ensures Bonds3d(w, h, d, g, w, 0, 0) == Pairs(Topology3d(w, h, d), g)
  {
    Bonds3dArePairs(w, h, d, g, w, 0, 0);
  }

  /** reduce_index: every coordinate wrapped into the grid; it names the same cell as the index itself. */
  function ReduceIndex3(x: int, y: int, z: int, w: nat, h: nat, d: nat): (r: (int, int, int))
    requires w > 0 && h > 0 && d > 0
    ensures 0 <= r.0 < w && 0 <= r.1 < h && 0 <= r.2 < d
    ensures At3(r.0, r.1, r.2, w, h, d) == At3(x, y, z, w, h, d)
    ensures r == (x, y, z) <==> 0 <= x < w && 0 <= y < h && 0 <= z < d
  {
    WrapIdempotent(x, w);
    WrapIdempotent(y, h);
    WrapIdempotent(z, d);
    (Wrap(x, w), Wrap(y, h), Wrap(z, d))
  }

  /** choose_idxs_with_distribution: the first index drawn uniformly, the second offset from it. */
  function ChooseWithOffset3(first: (int, int, int), offset: (int, int, int)): (r: ((int, int, int), (int, int, int)))
    ensures r.0 == first
    ensures r.1.0 - r.0.0 == offset.0 && r.1.1 - r.0.1 == offset.1 && r.1.2 - r.0.2 == offset.2
  {
    (first, (first.0 + offset.0, first.1 + offset.1, first.2 + offset.2))
  }

  // ---------------------------------------------------------------- the offset as the source writes it

  /** The source's offset of a wrapped coordinate, z * D * W + y * W + x: x is its digit below W and the
      row above it is z * D + y, so a layer is D rows long where the buffer's layers are H rows long. */
  function OffsetAsWritten(x: int, y: int, z: int, w: nat, h: nat, d: nat): (r: nat)
    requires w > 0 && h > 0 && d > 0
    ensures r % w == Wrap(x, w) && r / w == Wrap(z, d) * d + Wrap(y, h)
  {
    var X, Y, Z := Wrap(x, w), Wrap(y, h), Wrap(z, d);
    assert Z * d * w + Y * w + X == (Z * d + Y) * w + X;
    DivModOf(Z * d + Y, X, w);
    Z * d * w + Y * w + X
  }

  /** With a depth of at least two below the height, the cells (0, D, 0) and (0, 0, 1) share an offset:
      writing one overwrites the other, although At3 keeps them apart (W = 1, H = 3, D = 2 gives 2). */
  lemma OffsetAsWrittenCollides(w: nat, h: nat, d: nat)
    requires w > 0 && 2 <= d < h
    ensures OffsetAsWritten(0, d, 0, w, h, d) == OffsetAsWritten(0, 0, 1, w, h, d) == d * w
    ensures At3(0, d, 0, w, h, d) != At3(0, 0, 1, w, h, d)
  {
    assert Wrap(0, w) == 0 && Wrap(d, h) == d && Wrap(0, d) == 0 && Wrap(0, h) == 0 && Wrap(1, d) == 1;
    At3InRange(0, d, 0, w, h, d);
    At3InRange(0, 0, 1, w, h, d);
    MulMono(d + 1, h, w);
  }

  /** With a depth above the height, the cell (0, 0, D - 1) gets an offset past the end of the buffer
      (W = 1, H = 1, D = 2 gives offset 2 in a 2-cell buffer). */
  lemma OffsetAsWrittenOverflows(w: nat, h: nat, d: nat)
    requires w > 0 && 0 < h < d
    ensures OffsetAsWritten(0, 0, d - 1, w, h, d) >= w * h * d
  {
    assert Wrap(0, w) == 0 && Wrap(0, h) == 0 && Wrap(d - 1, d) == d - 1;
    MulMono(h, d - 1, d * w);
    assert (d - 1) * d * w == (d - 1) * (d * w) && w * h * d == h * (d * w);
  }

  /** When the depth equals the height the source's offset is the corrected one. */
  lemma OffsetAgreesWhenCube(x: int, y: int, z: int, w: nat, h: nat, d: nat)
    requires w > 0 && h > 0 && d == h
    ensures OffsetAsWritten(x, y, z, w, h, d) == At3(x, y, z, w, h, d)
  {
    var X, Y, Z := Wrap(x, w), Wrap(y, h), Wrap(z, d);
    assert Z * d * w + Y * w + X == (Z * h + Y) * w + X;
  }

  // ---------------------------------------------------------------- the buffer

  class Array3d<T> {
    const width: nat
    const height: nat
    const depth: nat
    const grid: array<T>

    ghost predicate Valid()
      reads this
    {
      width > 0 && height > 0 && depth > 0 && grid.Length == width * height * depth
    }

    /** Index<(isize, isize, isize)>: the atom at the wrapped coordinate, in the corrected layout with x
        fastest and a layer stride of H · W; when D = H this is the cell the source's offset names. */
    function Get(x: int, y: int, z: int): (r: T)
      reads this, grid
      requires Valid()
      ensures At3(x, y, z, width, height, depth) == (Wrap(z, depth) * height + Wrap(y, height)) * width + Wrap(x, width)
      ensures r == grid[(Wrap(z, depth) * height + Wrap(y, height)) * width + Wrap(x, width)]
      ensures depth == height ==> r == grid[OffsetAsWritten(x, y, z, width, height, depth)]
    {
      if depth == height then
        OffsetAgreesWhenCube(x, y, z, width, height, depth);
        grid[At3(x, y, z, width, height, depth)]
      else
        grid[At3(x, y, z, width, height, depth)]
    }

    /** IndexMut<(isize, isize, isize)>: writes the wrapped cell and no other. */
    method Set(x: int, y: int, z: int, v: T)
      requires Valid()
      modifies grid
      ensures grid[..] == old(grid[..])[At3(x, y, z, width, height, depth) := v]
    {
      grid[At3(x, y, z, width, height, depth)] := v;
    }

    /** fill_value: every cell holds val. */
    constructor FillValue(width: nat, height: nat, depth: nat, val: T)
      requires width > 0 && height > 0 && depth > 0
      ensures Valid() && this.width == width && this.height == height && this.depth == depth && fresh(grid)
      ensures forall s :: 0 <= s < grid.Length ==> grid[s] == val
    {
      this.width := width;
      this.height := height;
      this.depth := depth;
      grid := new T[width * height * depth](_ => val);
    }

    /** fill_with_fn: the closure is called once per cell, x outer, y middle and z inner; its k-th call,
        at (x, y, z), is modelled as func(k, x, y, z). */
    constructor FillWithFn(width: nat, height: nat, depth: nat, default: T, func: (nat, int, int, int) -> T)
      requires width > 0 && height > 0 && depth > 0
      ensures Valid() && this.width == width && this.height == height && this.depth == depth && fresh(grid)
      ensures forall x: nat, y: nat, z: nat :: x < width && y < height && z < depth ==>
        grid[At3(x, y, z, width, height, depth)] == func(Mix(Mix(x, y, height), z, depth), x, y, z)
    {
      this.width := width;
      this.height := height;
      this.depth := depth;
      grid := new T[width * height * depth](_ => default);
      new;
      var x: nat := 0;
      while x < width
        invariant x <= width
        invariant forall x': nat, y': nat, z': nat :: x' < x && y' < height && z' < depth ==>
          grid[At3(x', y', z', width, height, depth)] == func(Mix(Mix(x', y', height), z', depth), x', y', z')
      {
        FillColumn(x, func);
        x := x + 1;
      }
    }

    /** The middle and inner loops of fill_with_fn, for column x: only that column's cells change. */
    method FillColumn(x: nat, func: (nat, int, int, int) -> T)
      requires Valid() && x < width
      modifies grid
      ensures forall x': nat, y': nat, z': nat :: x' < width && x' != x && y' < height && z' < depth ==>
        grid[At3(x', y', z', width, height, depth)] == old(grid[At3(x', y', z', width, height, depth)])
      ensures forall y': nat, z': nat :: y' < height && z' < depth ==>
        grid[At3(x, y', z', width, height, depth)] == func(Mix(Mix(x, y', height), z', depth), x, y', z')
    {
      var y: nat := 0;
      while y < height
        invariant y <= height
        invariant forall x': nat, y': nat, z': nat :: x' < width && x' != x && y' < height && z' < depth ==>
          grid[At3(x', y', z', width, height, depth)] == old(grid[At3(x', y', z', width, height, depth)])
        invariant forall y': nat, z': nat :: y' < y && z' < depth ==>
          grid[At3(x, y', z', width, height, depth)] == func(Mix(Mix(x, y', height), z', depth), x, y', z')
      {
        var z: nat := 0;
        while z < depth
          invariant z <= depth
          invariant forall x': nat, y': nat, z': nat :: x' < width && x' != x && y' < height && z' < depth ==>
            grid[At3(x', y', z', width, height, depth)] == old(grid[At3(x', y', z', width, height, depth)])
          invariant forall y': nat, z': nat :: y' < y && z' < depth ==>
            grid[At3(x, y', z', width, height, depth)] == func(Mix(Mix(x, y', height), z', depth), x, y', z')
          invariant forall z': nat :: z' < z ==>
            grid[At3(x, y, z', width, height, depth)] == func(Mix(Mix(x, y, height), z', depth), x, y, z')
        {
          At3Separates(x, y, z, width, height, depth);
          grid[At3(x, y, z, width, height, depth)] := func(Mix(Mix(x, y, height), z, depth), x, y, z);
          z := z + 1;
        }
        y := y + 1;
      }
    }

    /** all_neighbours: for every site, x outer, y middle and z inner, the pairs with the sites at x - 1,
        y - 1 and z - 1; this is the bond list of the topology, so it folds to the energy. */
    method AllNeighbours() returns (out: seq<(T, T)>)
      requires Valid()
      ensures out == Bonds3d(width, height, depth, grid[..], width, 0, 0)
      ensures out == Pairs(Topology3d(width, height, depth), grid[..])
    {
      hide At3, Topology3d;
      out := [];
      var x: nat := 0;
      while x < width
        invariant x <= width
        invariant out == Bonds3d(width, height, depth, grid[..], x, 0, 0)
      {
        var y: nat := 0;
        while y < height
          invariant y <= height
          invariant out == Bonds3d(width, height, depth, grid[..], x, y, 0)
        {
          var z: nat := 0;
          while z < depth
            invariant z <= depth
            invariant out == Bonds3d(width, height, depth, grid[..], x, y, z)
          {
            out := out + [(Get(x, y, z), Get(x - 1, y, z)), (Get(x, y, z), Get(x, y - 1, z)),
                          (Get(x, y, z), Get(x, y, z - 1))];
            z := z + 1;
          }
          y := y + 1;
        }
        x := x + 1;
      }
      AllBonds3d(width, height, depth, grid[..]);
    }

    /** swap_idxs: the two wrapped cells exchange their atoms. */
    method SwapIdxs(x1: int, y1: int, z1: int, x2: int, y2: int, z2: int)
      requires Valid()
      modifies grid
      ensures grid[..] == SwapSeq(old(grid[..]), At3(x1, y1, z1, width, height, depth),
                                  At3(x2, y2, z2, width, height, depth))
    {
      Swap(grid, At3(x1, y1, z1, width, height, depth), At3(x2, y2, z2, width, height, depth));
    }
  }
}
