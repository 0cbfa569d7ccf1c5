/** `GameOfLife::Neighbours`: the eight items around a coordinate of a grid
    whose rows and columns wrap around. The Ruby code finds them by tripling
    the rows and the columns and cutting a 3-by-3 window out of the result;
    this module models that construction as written and proves it equal to
    the modular description `((row + dr + size) % size, (col + dc + size) % size)`. */
module Neighbourhood {
  import opened Wrappers
  import Grids

  /** `Neighbours.new(coordinates: [row, column], grid:)`. */
  datatype Neighbours<T> = Neighbours(row: int, column: int, grid: Grids.Grid<T>)

  /** A non-empty grid and a coordinate inside it. */
  ghost predicate Valid<T>(nb: Neighbours<T>) {
    Grids.Valid(nb.grid) && Grids.InRange(nb.grid.size, nb.row, nb.column)
  }

  // ---------------------------------------------------------------------
  // Arithmetic of the wrap-around
  // ---------------------------------------------------------------------

  /** Reducing a number below `3 * n` modulo `n` removes whole copies of `n`. */
  lemma ModBelowThreeCopies(k: int, n: int)
    requires n > 0 && 0 <= k < 3 * n
    ensures k % n == (if k < n then k else if k < 2 * n then k - n else k - 2 * n)
  {
    var q := if k < n then 0 else if k < 2 * n then 1 else 2;
    var r := k - q * n;
    var d := k / n - q;
    assert d * n == r - k % n;
    if d >= 1 {
      Grids.MulNonNegative(d - 1, n);
    } else if d <= -1 {
      Grids.MulNonNegative(-d - 1, n);
    }
  }

  /** The modular reference form of a neighbour coordinate: `x` moved by `d`
      and wrapped into `[0, n)`. The tripling and slicing below is proved to
      land on exactly this index. */
  function Wrap(n: int, x: int, d: int): (w: int)
    requires n > 0
    ensures 0 <= w < n
  {
    (x + d + n) % n
  }

  /** Moving one step off either edge lands on the opposite edge; any other
      step stays where plain addition puts it. */
  lemma WrapAroundEdges(n: int, x: int, d: int)
    requires n > 0 && 0 <= x < n && -1 <= d <= 1
    ensures x + d == -1 ==> Wrap(n, x, d) == n - 1
    ensures x + d == n ==> Wrap(n, x, d) == 0
    ensures 0 <= x + d < n ==> Wrap(n, x, d) == x + d
  {
    ModBelowThreeCopies(x + d + n, n);
  }

  /** On a grid of size 3 or more, different offsets of the same coordinate
      wrap to different coordinates. */
  lemma WrapInjective(n: int, x: int, d1: int, d2: int)
    requires n >= 3 && 0 <= x < n && -1 <= d1 <= 1 && -1 <= d2 <= 1
    ensures Wrap(n, x, d1) == Wrap(n, x, d2) ==> d1 == d2
  {
    WrapAroundEdges(n, x, d1);
    WrapAroundEdges(n, x, d2);
  }

  // ---------------------------------------------------------------------
  // The slicing construction of the Ruby code
  // ---------------------------------------------------------------------

  /** Reading the tripled array one step before, at, or after the middle
      copy's index `x` is reading `a` at the wrapped index. */
  lemma TripledWraps<T>(a: seq<T>, x: int, d: int)
    requires 0 <= x < |a| && -1 <= d <= 1
    ensures 0 <= |a| + (x - 1) + (d + 1) < 3 * |a|
    ensures Tripled(a)[|a| + (x - 1) + (d + 1)] == a[Wrap(|a|, x, d)]
  {
    var k := |a| + (x - 1) + (d + 1);
    assert k == x + d + |a|;
    assert Tripled(a)[k] == a[k % |a|];
  }

  lemma TripledIndex<T>(a: seq<T>)
    ensures forall k :: 0 <= k < 3 * |a| ==> (a + a + a)[k] == a[k % |a|]
  {
    forall k | 0 <= k < 3 * |a|
      ensures (a + a + a)[k] == a[k % |a|]
    {
      ModBelowThreeCopies(k, |a|);
    }
  }

  /** `a * 3`: item `k` of the tripled array is item `k mod |a|` of `a`. */
  function Tripled<T>(a: seq<T>): (t: seq<T>)
    ensures |t| == 3 * |a|
    ensures forall k :: 0 <= k < |t| ==> t[k] == a[k % |a|]
  {
    TripledIndex(a);
    a + a + a
  }

  /** `a[start, len]` for a window that lies inside `a`. */
  function Slice<T>(a: seq<T>, start: int, len: int): (s: seq<T>)
    requires 0 <= start && 0 <= len && start + len <= |a|
    ensures |s| == len
    ensures forall i :: 0 <= i < len ==> s[i] == a[start + i]
  {
    a[start..start + len]
  }

  /** `row_before`: where the window of rows starts in the tripled rows.
      For an in-range coordinate the 3-row window lies inside them. */
  function RowBefore<T>(nb: Neighbours<T>): (r: int)
    ensures Valid(nb) ==> 0 <= r && r + 3 <= 3 * nb.grid.size
  {
    nb.grid.size + (nb.row - 1)
  }

  /** `column_before`: where the window starts in each tripled row. For an
      in-range coordinate the 3-item window lies inside the row. */
  function ColumnBefore<T>(nb: Neighbours<T>): (c: int)
    ensures Valid(nb) ==> 0 <= c && c + 3 <= 3 * nb.grid.size
  {
    nb.grid.size + (nb.column - 1)
  }

  /** The `flat_map` of `local_group`: the 3-wide window of every tripled row,
      concatenated. Item `m` is item `m mod 3` of the window of row `m / 3`. */
  function FlatMapWindows<T>(rows: seq<seq<T>>, start: int): (r: seq<T>)
    requires 0 <= start
    requires forall i :: 0 <= i < |rows| ==> start + 3 <= 3 * |rows[i]|
    ensures |r| == 3 * |rows|
    ensures forall m :: 0 <= m < |r| ==> r[m] == Tripled(rows[m / 3])[start + m % 3]
    decreases |rows|
  {
    if |rows| == 0 then []
    else
      var head := Slice(Tripled(rows[0]), start, 3);
      var rest := FlatMapWindows(rows[1..], start);
      WindowsConcatenate(rows, start, head, rest);
      head + rest
  }

  /** Putting the first row's window in front of the others' shifts each
      of their items by one row. */
  lemma WindowsConcatenate<T>(rows: seq<seq<T>>, start: int, head: seq<T>, rest: seq<T>)
    requires |rows| > 0 && 0 <= start
    requires forall i :: 0 <= i < |rows| ==> start + 3 <= 3 * |rows[i]|
    requires |head| == 3 && forall j :: 0 <= j < 3 ==> head[j] == Tripled(rows[0])[start + j]
    requires |rest| == 3 * (|rows| - 1)
    requires forall m :: 0 <= m < |rest| ==> rest[m] == Tripled(rows[1..][m / 3])[start + m % 3]
    ensures forall m :: 0 <= m < |head + rest| ==> (head + rest)[m] == Tripled(rows[m / 3])[start + m % 3]
  {
    forall m | 0 <= m < |head + rest|
      ensures (head + rest)[m] == Tripled(rows[m / 3])[start + m % 3]
    {
      if m >= 3 {
        assert (m - 3) / 3 == m / 3 - 1 && (m - 3) % 3 == m % 3;
        assert rows[1..][(m - 3) / 3] == rows[m / 3];
        assert (head + rest)[m] == rest[m - 3];
      }
    }
  }

  /** `local_group`: the 3-by-3 block centred on the coordinate, row by row.
      Item `m` is the item at offset `BlockOffset(m)`, wrapped. */
  function LocalGroup<T>(nb: Neighbours<T>): (group: seq<Option<T>>)
    requires Valid(nb)
    ensures |group| == 9
    ensures forall m :: 0 <= m < 9 ==>
      group[m] == Grids.At(nb.grid, Wrap(nb.grid.size, nb.row, BlockOffset(m).0),
                                    Wrap(nb.grid.size, nb.column, BlockOffset(m).1))
  {
    var table := Grids.ToA(nb.grid);
    var rows := Slice(Tripled(table), RowBefore(nb), 3);
    var group := FlatMapWindows(rows, ColumnBefore(nb));
    LocalGroupWraps(nb, table, rows, group);
    group
  }

  /** Each item of the window is the grid item at the wrapped offset. */
  lemma LocalGroupWraps<T>(nb: Neighbours<T>, table: seq<seq<Option<T>>>, rows: seq<seq<Option<T>>>, group: seq<Option<T>>)
    requires Valid(nb) && table == Grids.ToA(nb.grid)
    requires rows == Slice(Tripled(table), RowBefore(nb), 3)
    requires group == FlatMapWindows(rows, ColumnBefore(nb))
    ensures |group| == 9
    ensures forall m :: 0 <= m < 9 ==>
      group[m] == Grids.At(nb.grid, Wrap(nb.grid.size, nb.row, BlockOffset(m).0),
                                    Wrap(nb.grid.size, nb.column, BlockOffset(m).1))
  {
    forall m | 0 <= m < 9
      ensures group[m] == Grids.At(nb.grid, Wrap(nb.grid.size, nb.row, BlockOffset(m).0),
                                            Wrap(nb.grid.size, nb.column, BlockOffset(m).1))
    {
      LocalGroupItem(nb, table, rows, group, m);
    }
  }

  /** One item of the window, read back through `to_a`. */
  lemma LocalGroupItem<T>(nb: Neighbours<T>, table: seq<seq<Option<T>>>, rows: seq<seq<Option<T>>>, group: seq<Option<T>>, m: int)
    requires Valid(nb) && table == Grids.ToA(nb.grid)
    requires rows == Slice(Tripled(table), RowBefore(nb), 3)
    requires group == FlatMapWindows(rows, ColumnBefore(nb))
    requires 0 <= m < 9
    ensures group[m] == Grids.At(nb.grid, Wrap(nb.grid.size, nb.row, BlockOffset(m).0),
                                          Wrap(nb.grid.size, nb.column, BlockOffset(m).1))
  {
    var n := nb.grid.size;
    assert |table| == n;
    WindowItem(table, nb.row, nb.column, RowBefore(nb), ColumnBefore(nb), rows, group, m);
    var r, c := Wrap(n, nb.row, m / 3 - 1), Wrap(n, nb.column, m % 3 - 1);
    assert Grids.InRange(n, r, c);
    assert group[m] == table[r][c];
  }

  /** Item `m` of the 3-by-3 window cut out of a square table at
      `(row, col)` is the table entry at the wrapped offset
      `(m / 3 - 1, m % 3 - 1)`. */
  lemma WindowItem<X>(table: seq<seq<X>>, row: int, col: int, rowStart: int, colStart: int,
                      rows: seq<seq<X>>, group: seq<X>, m: int)
    requires forall i :: 0 <= i < |table| ==> |table[i]| == |table|
    requires 0 <= row < |table| && 0 <= col < |table|
    requires rowStart == |table| + (row - 1) && colStart == |table| + (col - 1)
    requires rows == Slice(Tripled(table), rowStart, 3)
    requires group == FlatMapWindows(rows, colStart)
    requires 0 <= m < 9
    ensures group[m] == table[Wrap(|table|, row, m / 3 - 1)][Wrap(|table|, col, m % 3 - 1)]
  {
    var n := |table|;
    var i := m / 3;
    WindowRow(table, row, rowStart, rows, i);
    var r := Wrap(n, row, i - 1);
    TripledWraps(table[r], col, m % 3 - 1);
    assert |group| == 9;
    assert group[m] == Tripled(rows[m / 3])[colStart + m % 3];
  }

  /** Row `i` of the three rows cut out of the tripled table at `row_before`
      is the table row at the wrapped offset `i - 1`. */
  lemma WindowRow<X>(table: seq<seq<X>>, row: int, rowStart: int, rows: seq<seq<X>>, i: int)
    requires 0 <= row < |table| && rowStart == |table| + (row - 1)
    requires rows == Slice(Tripled(table), rowStart, 3)
    requires 0 <= i < 3
    ensures rows[i] == table[Wrap(|table|, row, i - 1)]
  {
    TripledWraps(table, row, i - 1);
  }

  /** `reject.with_index { |_, i| i == i0 }`: everything but position `i0`. */
  function RejectIndex<T>(s: seq<T>, i0: int): (r: seq<T>)
    requires 0 <= i0 < |s|
    ensures |r| == |s| - 1
    ensures forall k :: 0 <= k < |r| ==> r[k] == (if k < i0 then s[k] else s[k + 1])
  {
    s[..i0] + s[i0 + 1..]
  }

  // ---------------------------------------------------------------------
  // The modular description, and `to_a` / `count`
  // ---------------------------------------------------------------------

  /** The `(dr, dc)` offset of position `m` of the 3-by-3 block, which
      `local_group` visits row by row. */
  function BlockOffset(m: int): (int, int) {
    (m / 3 - 1, m % 3 - 1)
  }

  /** The eight `(dr, dc)` neighbour offsets in row-major order. */
  const Offsets: seq<(int, int)> := [(-1, -1), (-1, 0), (-1, 1), (0, -1), (0, 1), (1, -1), (1, 0), (1, 1)]

  /** The offsets are the 3-by-3 block visited row by row with its centre,
      position 4, skipped: the order in which `to_a` yields the neighbours. */
  lemma OffsetsSkipCentre()
    ensures forall k :: 0 <= k < 8 ==> Offsets[k] == BlockOffset(if k < 4 then k else k + 1)
  {
    forall k | 0 <= k < 8
      ensures Offsets[k] == BlockOffset(if k < 4 then k else k + 1)
    {
      if k == 0 {} else if k == 1 {} else if k == 2 {} else if k == 3 {}
      else if k == 4 {} else if k == 5 {} else if k == 6 {} else {}
    }
  }

  /** No offset is listed twice. */
  lemma OffsetsDistinct()
    ensures forall k1, k2 :: 0 <= k1 < k2 < 8 ==> Offsets[k1] != Offsets[k2]
  {
  }

  /** `Offsets` are exactly the eight non-zero moves to an adjacent square. */
  lemma OffsetsAreTheEightDirections()
    ensures forall dr, dc :: (dr, dc) in Offsets <==> -1 <= dr <= 1 && -1 <= dc <= 1 && (dr, dc) != (0, 0)
  {
    forall dr, dc | -1 <= dr <= 1 && -1 <= dc <= 1 && (dr, dc) != (0, 0)
      ensures (dr, dc) in Offsets
    {
      var k := 3 * (dr + 1) + (dc + 1);
      var k' := if k < 4 then k else k - 1;
      assert Offsets[k'] == (dr, dc);
    }
  }

  /** The coordinates of the eight neighbours of `(row, col)` on an n-by-n
      torus, in the order of `Offsets`. */
  function Coordinates(n: int, row: int, col: int): (cs: seq<(int, int)>)
    requires n > 0
    ensures |cs| == 8
    ensures forall k :: 0 <= k < 8 ==> Grids.InRange(n, cs[k].0, cs[k].1)
  {
    seq(8, (k: int) requires 0 <= k < 8 => (Wrap(n, row, Offsets[k].0), Wrap(n, col, Offsets[k].1)))
  }

  /** `Neighbours#to_a`: the local group without its centre. Item `k` is the
      grid item at the `k`-th wrapped neighbour coordinate. */
  function ToA<T>(nb: Neighbours<T>): (items: seq<Option<T>>)
    requires Valid(nb)
    ensures |items| == 8
    ensures forall k :: 0 <= k < 8 ==>
      var p := Coordinates(nb.grid.size, nb.row, nb.column)[k];
      items[k] == Grids.At(nb.grid, p.0, p.1)
  {
    var group := LocalGroup(nb);
    var items := RejectIndex(group, 4);
    CentreRemoved(nb, group, items);
    items
  }

  /** Dropping position 4 of the local group leaves the items at the eight
      wrapped neighbour coordinates, in the order of `Offsets`. */
  lemma CentreRemoved<T>(nb: Neighbours<T>, group: seq<Option<T>>, items: seq<Option<T>>)
    requires Valid(nb) && group == LocalGroup(nb) && items == RejectIndex(group, 4)
    ensures forall k :: 0 <= k < 8 ==>
      var p := Coordinates(nb.grid.size, nb.row, nb.column)[k];
      items[k] == Grids.At(nb.grid, p.0, p.1)
  {
    var cs := Coordinates(nb.grid.size, nb.row, nb.column);
    forall k | 0 <= k < 8
      ensures items[k] == Grids.At(nb.grid, cs[k].0, cs[k].1)
    {
      CentreRemovedAt(nb, group, items, k);
    }
  }

  lemma CentreRemovedAt<T>(nb: Neighbours<T>, group: seq<Option<T>>, items: seq<Option<T>>, k: int)
    requires Valid(nb) && group == LocalGroup(nb) && items == RejectIndex(group, 4)
    requires 0 <= k < 8
    ensures var p := Coordinates(nb.grid.size, nb.row, nb.column)[k];
      items[k] == Grids.At(nb.grid, p.0, p.1)
  {
    OffsetsSkipCentre();
    var m := if k < 4 then k else k + 1;
    assert items[k] == group[m];
  }

  /** `Neighbours#count`: the length of `to_a`. It accepts no predicate, so
      a block given to it is dropped and the answer is always 8. */
  function Count<T>(nb: Neighbours<T>): (k: nat)
    requires Valid(nb)
    ensures k == 8
  {
    |ToA(nb)|
  }

  /** The centre is removed by position: on a 1-by-1 grid the only item is
      its own neighbour eight times over. */
  lemma SizeOneSeesItselfEightTimes<T>(nb: Neighbours<T>)
    requires Valid(nb) && nb.grid.size == 1
    ensures ToA(nb) == seq(8, _ => Grids.At(nb.grid, 0, 0))
  {
    var items := ToA(nb);
    forall k | 0 <= k < 8
      ensures items[k] == Grids.At(nb.grid, 0, 0)
    {
      var p := Coordinates(1, nb.row, nb.column)[k];
      assert p.0 == 0 && p.1 == 0;
    }
  }

  /** On a 2-by-2 grid the other row and the other column are reached both by
      stepping back and by stepping forward, so coordinates repeat. */
  lemma SizeTwoKeepsDuplicates(row: int, col: int)
    requires Grids.InRange(2, row, col)
    ensures var r, c := 1 - row, 1 - col;
      Coordinates(2, row, col) == [(r, c), (r, col), (r, c), (row, c), (row, c), (r, c), (r, col), (r, c)]
  {
    assert row == 0 || row == 1;
    assert col == 0 || col == 1;
  }

  /** From size 3 upwards the eight coordinates are distinct and none of them
      is the centre. */
  lemma {:induction false} DistinctFromSizeThree(n: int, row: int, col: int)
    requires n >= 3 && Grids.InRange(n, row, col)
    ensures forall k1, k2 :: 0 <= k1 < k2 < 8 ==> Coordinates(n, row, col)[k1] != Coordinates(n, row, col)[k2]
    ensures forall k :: 0 <= k < 8 ==> Coordinates(n, row, col)[k] != (row, col)
  {
    var cs := Coordinates(n, row, col);
    OffsetsDistinct();
    forall k1, k2 | 0 <= k1 < k2 < 8
      ensures cs[k1] != cs[k2]
    {
      WrapInjective(n, row, Offsets[k1].0, Offsets[k2].0);
      WrapInjective(n, col, Offsets[k1].1, Offsets[k2].1);
    }
    forall k | 0 <= k < 8
      ensures cs[k] != (row, col)
    {
      WrapInjective(n, row, Offsets[k].0, 0);
      WrapInjective(n, col, Offsets[k].1, 0);
      WrapAroundEdges(n, row, 0);
      WrapAroundEdges(n, col, 0);
    }
  }

  /** The grid whose item at every position is that position. */
  function CoordinateGrid(n: nat): (g: Grids.Grid<(int, int)>)
    ensures g.size == n && Grids.Valid(g)
    ensures forall row, col :: Grids.InRange(n, row, col) ==> Grids.At(g, row, col) == Some((row, col))
  {
    var block := (row: int, col: int) => (row, col);
    var g := Grids.Grid(n, Some(block));
    assert forall row, col :: Grids.InRange(n, row, col) ==>
      Grids.At(g, row, col) == Some(block(row, col)) && block(row, col) == (row, col);
    g
  }

  /** Run on a grid of coordinates, the slicing construction yields exactly
      the wrapped coordinates of the modular description. */
  lemma SlicingFindsWrappedCoordinates(n: nat, row: int, col: int)
    requires n > 0 && Grids.InRange(n, row, col)
    ensures ToA(Neighbours(row, col, CoordinateGrid(n))) ==
      seq(8, (k: int) requires 0 <= k < 8 => Some(Coordinates(n, row, col)[k]))
  {
  }

  /** The coordinate (3, 0) of a 4-by-4 grid wraps to the last column and the
      first row. */
  lemma ExampleBottomLeftOfFour()
    ensures ToA(Neighbours(3, 0, CoordinateGrid(4))) ==
      [Some((2, 3)), Some((2, 0)), Some((2, 1)), Some((3, 3)),
       Some((3, 1)), Some((0, 3)), Some((0, 0)), Some((0, 1))]
  {
    SlicingFindsWrappedCoordinates(4, 3, 0);
  }

  /** The coordinate (0, 3) of a 4-by-4 grid wraps to the last row and the
      first column. */
  lemma ExampleTopRightOfFour()
    ensures ToA(Neighbours(0, 3, CoordinateGrid(4))) ==
      [Some((3, 2)), Some((3, 3)), Some((3, 0)), Some((0, 2)),
       Some((0, 0)), Some((1, 2)), Some((1, 3)), Some((1, 0))]
  {
    SlicingFindsWrappedCoordinates(4, 0, 3);
  }
}
