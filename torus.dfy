/**
  Toroidal coordinates shared by every grid backing: the Euclidean wrap of a coordinate (rem_euclid), a
  flat site written in mixed radix (x fastest, then y, then z), the step of one site along one axis with
  wrap-around, and the topologies (visit order and bond partners) of the concrete grids.
*/
module Torus {
  import opened Arith
  import opened Lattice

  /** rem_euclid for a positive modulus: always in [0, n), and the identity on [0, n). */
  function Wrap(x: int, n: nat): (r: nat)
    requires n > 0
    ensures r < n
    ensures 0 <= x < n ==> r == x
  {
    DivModOf(0, if 0 <= x < n then x else 0, n);
    x % n
  }

  /** Wrapping is periodic: moving a coordinate by whole periods does not change the cell it names. */
  lemma WrapPeriodic(x: int, k: int, n: nat)
    requires n > 0
    ensures Wrap(x + k * n, n) == Wrap(x, n)
  {
    ModPeriodic(x, k, n);
  }

  /** Wrapping twice is wrapping once (reduce_index is idempotent). */
  lemma WrapIdempotent(x: int, n: nat)
    requires n > 0
    ensures Wrap(Wrap(x, n), n) == Wrap(x, n)
  {
  }

  /** The flat offset of a mixed-radix coordinate: q * b + r, for the digit r < b below q. */
  function Mix(q: nat, r: nat, b: nat): nat
  {
    q * b + r
  }

  /** A mixed-radix coordinate in range gives an offset in range, and its digits back. */
  lemma MixDigits(q: nat, r: nat, n: nat, b: nat)
    requires q < n && r < b
    ensures Mix(q, r, b) < n * b
    ensures Mix(q, r, b) / b == q && Mix(q, r, b) % b == r
  {
    MixedBound(q, r, n, b);
    DivModOf(q, r, b);
  }

  /** A coordinate whose last digit may have reached its radix is still at most n * b. */
  lemma MixAtMost(q: nat, r: nat, n: nat, b: nat)
    requires (q < n && r <= b) || (q <= n && r == 0)
    ensures Mix(q, r, b) <= n * b
  {
    if r == 0 {
      MulMono(q, n, b);
    } else {
      MulMono(q + 1, n, b);
    }
  }

  /** The next value of the last digit is the next offset. */
  lemma MixNext(q: nat, r: nat, b: nat)
    ensures Mix(q, r, b) + 1 == Mix(q, r + 1, b)
  {
  }

  /** The last digit rolls over into the next one. */
  lemma MixCarry(q: nat, b: nat)
    ensures Mix(q, b, b) == Mix(q + 1, 0, b)
  {
  }

  /** Every offset in [0, n*b) is the mixed-radix coordinate of its own digits. */
  lemma MixOfDigits(s: nat, n: nat, b: nat)
    requires b > 0 && s < n * b
    ensures s / b < n && s == Mix(s / b, s % b, b)
  {
    Split(s, n, b);
  }

  // ---------------------------------------------------------------- steps along an axis

  /** The site d steps along the axis with stride lo and period n, wrapping at the edge of that axis;
      the digits below (s % lo) and above (s / lo / n) the axis are kept. */
  function Shift(s: nat, lo: nat, n: nat, d: int): nat
    requires lo > 0 && n > 0
  {
    Mix(Mix(s / lo / n, Wrap(s / lo % n + d, n), n), s % lo, lo)
  }

  /** The digits of a shifted site: the axis digit moved by d (wrapped), the others unchanged. */
  lemma ShiftDigits(s: nat, lo: nat, n: nat, d: int)
    requires lo > 0 && n > 0
    ensures Shift(s, lo, n, d) % lo == s % lo
    ensures Shift(s, lo, n, d) / lo % n == Wrap(s / lo % n + d, n)
    ensures Shift(s, lo, n, d) / lo / n == s / lo / n
  {
    var h, c := s / lo / n, Wrap(s / lo % n + d, n);
    DivModOf(Mix(h, c, n), s % lo, lo);
    DivModOf(h, c, n);
  }

  /** A site is determined by its three digits around an axis. */
  lemma DigitsDetermine(s: nat, t: nat, lo: nat, n: nat)
    requires lo > 0 && n > 0
    requires s % lo == t % lo && s / lo % n == t / lo % n && s / lo / n == t / lo / n
    ensures s == t
  {
    DivModOf(s / lo, s % lo, lo);
    assert s == (s / lo) * lo + s % lo;
    assert s / lo == (s / lo / n) * n + s / lo % n;
    assert t == (t / lo) * lo + t % lo;
    assert t / lo == (t / lo / n) * n + t / lo % n;
  }

  /** A shifted site stays on the grid. */
  lemma ShiftRange(s: nat, lo: nat, n: nat, hi: nat, d: int)
    requires lo > 0 && n > 0 && s < lo * n * hi
    ensures Shift(s, lo, n, d) < lo * n * hi
  {
    hide Wrap;
    assert lo * n * hi == (hi * n) * lo;
    Split(s, hi * n, lo);
    Split(s / lo, hi, n);
    var h, c := s / lo / n, Wrap(s / lo % n + d, n);
    MixDigits(h, c, hi, n);
    MixDigits(Mix(h, c, n), s % lo, hi * n, lo);
  }

  /** Stepping d and then -d along the same axis returns to the start. */
  lemma ShiftBack(s: nat, lo: nat, n: nat, d: int)
    requires lo > 0 && n > 0
    ensures Shift(Shift(s, lo, n, d), lo, n, -d) == s
  {
    var t := Shift(s, lo, n, d);
    var c := s / lo % n;
    hide Shift, Mix;
    ShiftDigits(s, lo, n, d);
    ShiftDigits(t, lo, n, -d);
    WrapShift(c + d, -d, n);
    DigitsDetermine(Shift(t, lo, n, -d), s, lo, n);
  }

  /** On an axis of period at least two, a unit step always leaves the site. */
  lemma ShiftMoves(s: nat, lo: nat, n: nat, d: int)
    requires lo > 0 && n >= 2 && (d == 1 || d == -1)
    ensures Shift(s, lo, n, d) != s
  {
    ShiftDigits(s, lo, n, d);
    ModStep(s / lo % n, n);
    ModIdempotent(s / lo, n);
  }

  // ---------------------------------------------------------------- grid axes

  /** The axis of a grid with `size` sites whose bond partner is d steps along the stride-lo, period-n
      coordinate; its inverse table steps -d. */
  function GridAxis(size: nat, lo: nat, n: nat, d: int): (ax: Axis)
    requires lo > 0 && n > 0
    ensures |ax.partner| == size && |ax.rev| == size
  {
    Axis(seq(size, (s: int) requires 0 <= s => Shift(s, lo, n, d)),
         seq(size, (s: int) requires 0 <= s => Shift(s, lo, n, -d)))
  }

  /** The two tables of a grid axis stay on the grid, site by site. */
  lemma GridAxisRange(size: nat, lo: nat, n: nat, hi: nat, d: int, s: nat)
    requires lo > 0 && n > 0 && size == lo * n * hi && s < size
    ensures GridAxis(size, lo, n, d).partner[s] < size && GridAxis(size, lo, n, d).rev[s] < size
  {
    ShiftRange(s, lo, n, hi, d);
    ShiftRange(s, lo, n, hi, -d);
  }

  /** A grid axis is a pair of mutually inverse tables on the grid's sites. */
  lemma GridAxisInverse(size: nat, lo: nat, n: nat, hi: nat, d: int)
    requires lo > 0 && n > 0 && size == lo * n * hi
    ensures forall s :: 0 <= s < size ==> GridAxis(size, lo, n, d).partner[s] < size
    ensures forall s :: 0 <= s < size ==> GridAxis(size, lo, n, d).rev[s] < size
    ensures AxisInverse(GridAxis(size, lo, n, d), size)
  {
    var ax := GridAxis(size, lo, n, d);
    forall s | 0 <= s < size
      ensures ax.partner[s] < size && ax.rev[s] < size
    {
      GridAxisRange(size, lo, n, hi, d, s);
    }
    forall s | 0 <= s < size
      ensures ax.rev[ax.partner[s]] == s && ax.partner[ax.rev[s]] == s
    {
      ShiftBack(s, lo, n, d);
      ShiftBack(s, lo, n, -d);
    }
  }

  /** A grid axis of period at least two has no site bonded to itself. */
  lemma GridAxisMoves(size: nat, lo: nat, n: nat, d: int)
    requires lo > 0 && n >= 2 && (d == 1 || d == -1)
    ensures forall s :: 0 <= s < size ==> GridAxis(size, lo, n, d).partner[s] != s
  {
    forall s | 0 <= s < size
      ensures GridAxis(size, lo, n, d).partner[s] != s
    {
      ShiftMoves(s, lo, n, d);
    }
  }

  // ---------------------------------------------------------------- coordinates of the grids

  /** Wrapping after a step equals stepping and then wrapping. */
  lemma WrapShift(x: int, d: int, n: nat)
    requires n > 0
    ensures Wrap(Wrap(x, n) + d, n) == Wrap(x + d, n)
  {
    var k := x / n;
    assert x + d == (Wrap(x, n) + d) + k * n;
    WrapPeriodic(Wrap(x, n) + d, k, n);
  }

  /** The flat site of a wrapped 2d coordinate, rows of width w: y * w + x after rem_euclid. */
  function At2(x: int, y: int, w: nat, h: nat): (s: nat)
    requires w > 0 && h > 0
    ensures s < h * w
  {
    MixDigits(Wrap(y, h), Wrap(x, w), h, w);
    Mix(Wrap(y, h), Wrap(x, w), w)
  }

  /** In range, the site is y * w + x itself; the wrap only acts outside the grid. */
  lemma At2InRange(x: int, y: int, w: nat, h: nat)
    requires 0 <= x < w && 0 <= y < h
    ensures At2(x, y, w, h) == y * w + x
  {
    assert Wrap(x, w) == x && Wrap(y, h) == y;
  }

  /** Coordinates that differ by whole periods name the same site (the torus). */
  lemma At2Periodic(x: int, y: int, w: nat, h: nat, k: int, j: int)
    requires w > 0 && h > 0
    ensures At2(x + k * w, y + j * h, w, h) == At2(x, y, w, h)
  {
    WrapPeriodic(x, k, w);
    WrapPeriodic(y, j, h);
  }

  /** Two coordinates inside the grid name the same site only if they are equal. */
  lemma At2Injective(x: int, y: int, x2: int, y2: int, w: nat, h: nat)
    requires 0 <= x < w && 0 <= y < h && 0 <= x2 < w && 0 <= y2 < h
    requires At2(x, y, w, h) == At2(x2, y2, w, h)
    ensures x == x2 && y == y2
  {
    At2Digits(x, y, w, h);
    At2Digits(x2, y2, w, h);
  }

  /** A site inside the grid is named by no other coordinate inside the grid. */
  lemma At2Separates(x: int, y: int, w: nat, h: nat)
    requires 0 <= x < w && 0 <= y < h
    ensures forall x2: int, y2: int :: 0 <= x2 < w && 0 <= y2 < h && (x2 != x || y2 != y) ==>
      At2(x2, y2, w, h) != At2(x, y, w, h)
  {
    forall x2: int, y2: int | 0 <= x2 < w && 0 <= y2 < h && At2(x2, y2, w, h) == At2(x, y, w, h)
      ensures x2 == x && y2 == y
    {
      At2Injective(x2, y2, x, y, w, h);
    }
  }

  /** The digits of a 2d site are its wrapped coordinates. */
  lemma At2Digits(x: int, y: int, w: nat, h: nat)
    requires w > 0 && h > 0
    ensures At2(x, y, w, h) % w == Wrap(x, w) && At2(x, y, w, h) / w == Wrap(y, h)
    ensures At2(x, y, w, h) / w % h == Wrap(y, h) && At2(x, y, w, h) / w / h == 0
  {
    MixDigits(Wrap(y, h), Wrap(x, w), h, w);
    MixDigits(0, Wrap(y, h), 1, h);
  }

  /** Two coordinates name the same site exactly when their wrapped coordinates agree. */
  lemma At2Same(x: int, y: int, x2: int, y2: int, w: nat, h: nat)
    requires w > 0 && h > 0
    ensures At2(x, y, w, h) == At2(x2, y2, w, h) <==> Wrap(x, w) == Wrap(x2, w) && Wrap(y, h) == Wrap(y2, h)
  {
    At2Digits(x, y, w, h);
    At2Digits(x2, y2, w, h);
  }

  /** Dividing by one changes nothing. */
  lemma DivOne(s: nat)
    ensures s / 1 == s && s % 1 == 0
  {
    DivModOf(s, 0, 1);
  }

  /** A step along the x axis of a 2d grid moves the x coordinate. */
  lemma At2StepX(x: int, y: int, w: nat, h: nat, d: int)
    requires w > 0 && h > 0
    ensures Shift(At2(x, y, w, h), 1, w, d) == At2(x + d, y, w, h)
  {
    var s := At2(x, y, w, h);
    DivOne(s);
    At2Digits(x, y, w, h);
    WrapShift(x, d, w);
    DivOne(Mix(Mix(s / w, Wrap(s % w + d, w), w), 0, 1));
  }

  /** A step along the y axis of a 2d grid moves the y coordinate. */
  lemma At2StepY(x: int, y: int, w: nat, h: nat, d: int)
    requires w > 0 && h > 0
    ensures Shift(At2(x, y, w, h), w, h, d) == At2(x, y + d, w, h)
  {
    At2Digits(x, y, w, h);
    WrapShift(y, d, h);
  }

  /** Mixed radix is associative: (a, b, c) in radices (h, w) is (a, b * w + c) in radices (h * w). */
  lemma MixAssoc(a: nat, b: nat, c: nat, h: nat, w: nat)
    ensures Mix(Mix(a, b, h), c, w) == Mix(a, Mix(b, c, w), h * w)
  {
    assert (a * h + b) * w == a * (h * w) + b * w;
  }

  /** The flat site of a wrapped 3d coordinate, layers of h rows of width w: (z * h + y) * w + x. */
  function At3(x: int, y: int, z: int, w: nat, h: nat, d: nat): (s: nat)
    requires w > 0 && h > 0 && d > 0
    ensures s < w * h * d
  {
    Mix3Bound(Wrap(x, w), Wrap(y, h), Wrap(z, d), w, h, d);
    Mix(Mix(Wrap(z, d), Wrap(y, h), h), Wrap(x, w), w)
  }

  /** A 3d coordinate inside the grid has its offset inside the grid. */
  lemma Mix3Bound(x: nat, y: nat, z: nat, w: nat, h: nat, d: nat)
    requires x < w && y < h && z < d
    ensures Mix(Mix(z, y, h), x, w) < w * h * d
  {
    Digits3Of(z, y, x, d, h, w);
    assert d * h * w == w * h * d;
  }

  /** The digits of a 3d site around each of its axes. */
  lemma At3Digits(x: int, y: int, z: int, w: nat, h: nat, d: nat)
    requires w > 0 && h > 0 && d > 0
    ensures At3(x, y, z, w, h, d) % w == Wrap(x, w)
    ensures At3(x, y, z, w, h, d) / w == Mix(Wrap(z, d), Wrap(y, h), h)
    ensures At3(x, y, z, w, h, d) / w % h == Wrap(y, h)
    ensures At3(x, y, z, w, h, d) / w / h == Wrap(z, d)
    ensures At3(x, y, z, w, h, d) % (w * h) == Mix(Wrap(y, h), Wrap(x, w), w)
    ensures At3(x, y, z, w, h, d) / (w * h) % d == Wrap(z, d)
    ensures At3(x, y, z, w, h, d) / (w * h) / d == 0
  {
    var s := At3(x, y, z, w, h, d);
    var X, Y, Z := Wrap(x, w), Wrap(y, h), Wrap(z, d);
    MixDigits(Mix(Z, Y, h), X, d * h, w);
    MixDigits(Z, Y, d, h);
    MixAssoc(Z, Y, X, h, w);
    MixDigits(Y, X, h, w);
    assert h * w == w * h;
    MixDigits(Z, Mix(Y, X, w), d, w * h);
    MixDigits(0, Z, 1, d);
  }

  /** A step along the x axis of a 3d grid moves the x coordinate. */
  lemma At3StepX(x: int, y: int, z: int, w: nat, h: nat, d: nat, e: int)
    requires w > 0 && h > 0 && d > 0
    ensures Shift(At3(x, y, z, w, h, d), 1, w, e) == At3(x + e, y, z, w, h, d)
  {
    var s, u := At3(x, y, z, w, h, d), At3(x + e, y, z, w, h, d);
    var t := Shift(s, 1, w, e);
    hide *;
    ShiftDigits(s, 1, w, e);
    DivOne(s);
    DivOne(t);
    DivOne(u);
    At3Digits(x, y, z, w, h, d);
    At3Digits(x + e, y, z, w, h, d);
    WrapShift(x, e, w);
    DigitsDetermine(t, u, 1, w);
  }

  /** A step along the y axis of a 3d grid moves the y coordinate. */
  lemma At3StepY(x: int, y: int, z: int, w: nat, h: nat, d: nat, e: int)
    requires w > 0 && h > 0 && d > 0
    ensures Shift(At3(x, y, z, w, h, d), w, h, e) == At3(x, y + e, z, w, h, d)
  {
    At3Digits(x, y, z, w, h, d);
    WrapShift(y, e, h);
  }

  /** A step along the z axis of a 3d grid moves the z coordinate. */
  lemma At3StepZ(x: int, y: int, z: int, w: nat, h: nat, d: nat, e: int)
    requires w > 0 && h > 0 && d > 0
    ensures Shift(At3(x, y, z, w, h, d), w * h, d, e) == At3(x, y, z + e, w, h, d)
  {
    At3Digits(x, y, z, w, h, d);
    At3Digits(x, y, z + e, w, h, d);
    WrapShift(z, e, d);
    MixAssoc(Wrap(z + e, d), Wrap(y, h), Wrap(x, w), h, w);
    assert h * w == w * h;
  }

  // ---------------------------------------------------------------- visit orders

  /** Transposition of a two-digit offset: i = q * b + r (q < a) becomes r * a + q. */
  function Tr(i: nat, a: nat, b: nat): nat
    requires b > 0
  {
    Mix(i % b, i / b, a)
  }

  /** Transposing twice, with the radices exchanged, is the identity; a transposed offset stays in range. */
  lemma TrBack(i: nat, a: nat, b: nat)
    requires a > 0 && b > 0 && i < a * b
    ensures Tr(i, a, b) < a * b
    ensures Tr(Tr(i, a, b), b, a) == i
  {
    MixOfDigits(i, a, b);
    MixDigits(i % b, i / b, b, a);
  }
  /** The three digits of an offset i < a * b * c in radices (a, b, c), lowest digit in radix c. */
  lemma Digits3(i: nat, a: nat, b: nat, c: nat)
    requires b > 0 && c > 0 && i < a * b * c
    ensures 0 <= i / c / b < a && 0 <= i / c % b
    ensures i == Mix(Mix(i / c / b, i / c % b, b), i % c, c)
  {
    assert a * b * c == (a * b) * c;
    MixOfDigits(i, a * b, c);
    MixOfDigits(i / c, a, b);
  }

  /** A three-digit offset in range gives its digits back. */
  lemma Digits3Of(p: nat, q: nat, r: nat, a: nat, b: nat, c: nat)
    requires p < a && q < b && r < c
    ensures Mix(Mix(p, q, b), r, c) < a * b * c
    ensures Mix(Mix(p, q, b), r, c) % c == r && Mix(Mix(p, q, b), r, c) / c % b == q
    ensures Mix(Mix(p, q, b), r, c) / c / b == p
  {
    MixDigits(p, q, a, b);
    MixDigits(Mix(p, q, b), r, a * b, c);
    assert (a * b) * c == a * b * c;
  }

  /** Reversal of a three-digit offset: digits (p, q, r) in radices (a, b, c) become (r, q, p) in (c, b, a). */
  function Rev3(i: nat, a: nat, b: nat, c: nat): nat
    requires b > 0 && c > 0
  {
    var j: nat := i / c;
    Mix(Mix(i % c, j % b, b), j / b, a)
  }

  /** Reversing twice, with the radices reversed, is the identity; a reversed offset stays in range. */
  lemma Rev3Back(i: nat, a: nat, b: nat, c: nat)
    requires a > 0 && b > 0 && c > 0 && i < a * b * c
    ensures Rev3(i, a, b, c) < a * b * c
    ensures Rev3(Rev3(i, a, b, c), c, b, a) == i
  {
    Digits3(i, a, b, c);
    Digits3Of(i % c, i / c % b, i / c / b, c, b, a);
    assert c * b * a == a * b * c;
  }

  /** In range, the 3d site is (z * h + y) * w + x itself. */
  lemma At3InRange(x: int, y: int, z: int, w: nat, h: nat, d: nat)
    requires 0 <= x < w && 0 <= y < h && 0 <= z < d
    ensures At3(x, y, z, w, h, d) == Mix(Mix(z, y, h), x, w)
  {
    assert Wrap(x, w) == x && Wrap(y, h) == y && Wrap(z, d) == z;
  }

  /** Two coordinates inside the 3d grid name the same site only if they are equal. */
  lemma At3Injective(x: int, y: int, z: int, x2: int, y2: int, z2: int, w: nat, h: nat, d: nat)
    requires 0 <= x < w && 0 <= y < h && 0 <= z < d && 0 <= x2 < w && 0 <= y2 < h && 0 <= z2 < d
    requires At3(x, y, z, w, h, d) == At3(x2, y2, z2, w, h, d)
    ensures x == x2 && y == y2 && z == z2
  {
    At3Digits(x, y, z, w, h, d);
    At3Digits(x2, y2, z2, w, h, d);
  }

  /** A site inside the 3d grid is named by no other coordinate inside the grid. */
  lemma At3Separates(x: int, y: int, z: int, w: nat, h: nat, d: nat)
    requires 0 <= x < w && 0 <= y < h && 0 <= z < d
    ensures forall x2: int, y2: int, z2: int ::
      (0 <= x2 < w && 0 <= y2 < h && 0 <= z2 < d && (x2 != x || y2 != y || z2 != z)) ==>
        At3(x2, y2, z2, w, h, d) != At3(x, y, z, w, h, d)
  {
    forall x2: int, y2: int, z2: int | 0 <= x2 < w && 0 <= y2 < h && 0 <= z2 < d
      && At3(x2, y2, z2, w, h, d) == At3(x, y, z, w, h, d)
      ensures x2 == x && y2 == y && z2 == z
    {
      At3Injective(x2, y2, z2, x, y, z, w, h, d);
    }
  }

  /** Two coordinates name the same 3d site exactly when their wrapped coordinates agree. */
  lemma At3Same(x: int, y: int, z: int, x2: int, y2: int, z2: int, w: nat, h: nat, d: nat)
    requires w > 0 && h > 0 && d > 0
    ensures At3(x, y, z, w, h, d) == At3(x2, y2, z2, w, h, d)
        <==> Wrap(x, w) == Wrap(x2, w) && Wrap(y, h) == Wrap(y2, h) && Wrap(z, d) == Wrap(z2, d)
  {
    At3Digits(x, y, z, w, h, d);
    At3Digits(x2, y2, z2, w, h, d);
  }
}
