/**
  ModularArray<T, W, H> (sizes fixed at compile time) and ModularGrid<T> (sizes chosen at run time): a
  row-major buffer of width · height cells with two ways in. A signed (isize) index wraps each coordinate
  with rem_euclid and addresses cell y · width + x; an unsigned (usize) index addresses y · width + x
  directly, with no wrap, and panics when that offset is past the end of the buffer. Both types behave
  alike, so one value type models both; only ModularGrid has modularize.
*/
module Modular {
  import opened Torus
  import opened Options

  datatype Grid<T> = Grid(width: nat, height: nat, cells: seq<T>)

  /** The buffer has one cell per coordinate pair. */
  predicate Valid<T>(m: Grid<T>)
  {
    m.width > 0 && m.height > 0 && |m.cells| == m.width * m.height
  }

  /** new: width · height default cells. */
  function New<T>(width: nat, height: nat, default: T): (m: Grid<T>)
    ensures m.width == width && m.height == height && |m.cells| == width * height
    ensures forall s :: 0 <= s < |m.cells| ==> m.cells[s] == default
  {
    Grid(width, height, seq(width * height, _ => default))
  }

  /** modularize: adopts the buffer as given when its length is width · height, and panics otherwise. */
  function Modularize<T>(width: nat, height: nat, cells: seq<T>): (r: Option<Grid<T>>)
    ensures r.Some? <==> |cells| == width * height
    ensures r.Some? ==> r.value.cells == cells && r.value.width == width && r.value.height == height
  {
    if |cells| == width * height then Some(Grid(width, height, cells)) else None
  }

  /** The offset of a signed index: each coordinate reduced with rem_euclid. */
  function WrappedOffset<T>(m: Grid<T>, x: int, y: int): (s: nat)
    requires Valid(m)
    ensures s < |m.cells|
  {
    At2(x, y, m.width, m.height)
  }

  /** Index<(isize, isize)>: the cell y · width + x of the coordinates reduced with rem_euclid. */
  function GetWrapped<T>(m: Grid<T>, x: int, y: int): (r: T)
    requires Valid(m)
    ensures WrappedOffset(m, x, y) == Wrap(y, m.height) * m.width + Wrap(x, m.width)
    ensures r == m.cells[Wrap(y, m.height) * m.width + Wrap(x, m.width)]
    ensures 0 <= x < m.width && 0 <= y < m.height ==> r == m.cells[y * m.width + x]
  {
    m.cells[WrappedOffset(m, x, y)]
  }

  /** IndexMut<(isize, isize)>, followed by a store into the returned place. */
  function SetWrapped<T>(m: Grid<T>, x: int, y: int, v: T): (r: Grid<T>)
    requires Valid(m)
    ensures Valid(r) && r.width == m.width && r.height == m.height
  {
    m.(cells := m.cells[WrappedOffset(m, x, y) := v])
  }

  /** Index<(usize, usize)>: the offset y · width + x, out of bounds (a panic) past the end. */
  function GetDirect<T>(m: Grid<T>, x: nat, y: nat): (r: Option<T>)
    ensures r.Some? <==> y * m.width + x < |m.cells|
  {
    if y * m.width + x < |m.cells| then Some(m.cells[y * m.width + x]) else None
  }

  /** IndexMut<(usize, usize)>, followed by a store into the returned place. */
  function SetDirect<T>(m: Grid<T>, x: nat, y: nat, v: T): (r: Option<Grid<T>>)
    ensures r.Some? <==> y * m.width + x < |m.cells|
    ensures r.Some? ==> r.value.width == m.width && r.value.height == m.height && |r.value.cells| == |m.cells|
  {
    if y * m.width + x < |m.cells| then Some(m.(cells := m.cells[y * m.width + x := v])) else None
  }

  // ---------------------------------------------------------------- properties

  /** Signed indexes that differ by whole periods address the same cell. */
  lemma WrappedPeriodic<T>(m: Grid<T>, x: int, y: int, k: int, j: int)
    requires Valid(m)
    ensures GetWrapped(m, x + k * m.width, y + j * m.height) == GetWrapped(m, x, y)
  {
    At2Periodic(x, y, m.width, m.height, k, j);
  }

  /** Two signed indexes address the same cell exactly when their wrapped coordinates agree. */
  lemma WrappedSame<T>(m: Grid<T>, x: int, y: int, x2: int, y2: int)
    requires Valid(m)
    ensures WrappedOffset(m, x, y) == WrappedOffset(m, x2, y2)
      <==> Wrap(x, m.width) == Wrap(x2, m.width) && Wrap(y, m.height) == Wrap(y2, m.height)
  {
    At2Same(x, y, x2, y2, m.width, m.height);
  }

  /** On coordinates inside the grid the direct index reads what the signed index reads. */
  lemma DirectAgrees<T>(m: Grid<T>, x: nat, y: nat)
    requires Valid(m) && x < m.width && y < m.height
    ensures GetDirect(m, x, y) == Some(GetWrapped(m, x, y))
  {
    At2InRange(x, y, m.width, m.height);
  }

  /** The direct index does not wrap: x = width + r reads (r, y + 1), the first cells of the next row. */
  lemma DirectSpills<T>(m: Grid<T>, r: nat, y: nat)
    requires Valid(m) && r < m.width && y + 1 < m.height
    ensures GetDirect(m, m.width + r, y) == Some(GetWrapped(m, r, y + 1))
    ensures GetWrapped(m, m.width + r, y) == GetWrapped(m, r, y)
  {
    At2InRange(r, y + 1, m.width, m.height);
    assert y * m.width + (m.width + r) == (y + 1) * m.width + r;
    WrappedPeriodic(m, r, y, 1, 0);
  }

  /** A signed write is read back at every index naming the same cell and leaves every other cell alone. */
  lemma WrappedReadAfterWrite<T>(m: Grid<T>, x: int, y: int, v: T, x2: int, y2: int)
    requires Valid(m)
    ensures GetWrapped(SetWrapped(m, x, y, v), x2, y2)
      == if Wrap(x, m.width) == Wrap(x2, m.width) && Wrap(y, m.height) == Wrap(y2, m.height)
         then v else GetWrapped(m, x2, y2)
  {
    At2Same(x, y, x2, y2, m.width, m.height);
  }

  /** A direct write changes exactly the cell at its offset. */
  lemma DirectReadAfterWrite<T>(m: Grid<T>, x: nat, y: nat, v: T, s: nat)
    requires y * m.width + x < |m.cells| && s < |m.cells|
    ensures SetDirect(m, x, y, v).Some?
    ensures SetDirect(m, x, y, v).value.cells[s] == if s == y * m.width + x then v else m.cells[s]
  {
  }

  /** Signed and direct writes to an in-range coordinate give the same grid. */
  lemma WritesAgree<T>(m: Grid<T>, x: nat, y: nat, v: T)
    requires Valid(m) && x < m.width && y < m.height
    ensures SetDirect(m, x, y, v) == Some(SetWrapped(m, x, y, v))
  {
    At2InRange(x, y, m.width, m.height);
  }
}
