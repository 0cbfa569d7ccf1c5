/** `GameOfLife::Grid`: a size-by-size snapshot whose item at `(row, col)` is
    whatever the generator block returns for those coordinates. */
module Grids {
  import opened Wrappers
  import opened States
  import opened Cells

  /** A grid remembers its size and the block it was built with; `to_a`
      materialises the rows. Without a block every item is `nil`. */
  datatype Grid<T> = Grid(size: nat, block: Option<(int, int) --> T>)

  predicate InRange(n: int, row: int, col: int) {
    0 <= row < n && 0 <= col < n
  }

  /** The block, if any, can be called at every coordinate of an n-by-n grid. */
  ghost predicate Covers<T>(n: nat, block: Option<(int, int) --> T>) {
    block.Some? ==> forall row, col :: InRange(n, row, col) ==> block.value.requires(row, col)
  }

  ghost predicate Valid<T>(g: Grid<T>) {
    Covers(g.size, g.block)
  }

  /** `to_a`: `size` rows of `size` items, built row by row. */
  function ToA<T>(g: Grid<T>): (rows: seq<seq<Option<T>>>)
    requires Valid(g)
    ensures |rows| == g.size
    ensures forall row :: 0 <= row < |rows| ==> |rows[row]| == g.size
    ensures forall row, col :: InRange(g.size, row, col) ==>
      (g.block.None? ==> rows[row][col] == None) &&
      (g.block.Some? ==> rows[row][col] == Some(g.block.value(row, col)))
    ensures forall row, col :: InRange(g.size, row, col) ==> rows[row][col] == At(g, row, col)
  {
    seq(g.size, (row: int) requires 0 <= row < g.size =>
      seq(g.size, (col: int) requires 0 <= col < g.size => At(g, row, col)))
  }

  /** The item at `(row, col)`, i.e. `to_a[row][col]`: `block&.call(row, col)`,
      the block's value or `nil` without a block. */
  function At<T>(g: Grid<T>, row: int, col: int): (item: Option<T>)
    requires Valid(g) && InRange(g.size, row, col)
    ensures item.None? <==> g.block.None?
  {
    match g.block
    case None => None
    case Some(f) => Some(f(row, col))
  }

  // ---------------------------------------------------------------------
  // The reverse index `to_h` and `coordinates_of`
  // ---------------------------------------------------------------------

  /** Position of `(row, col)` in row-major order. */
  function RowMajor(n: int, row: int, col: int): int {
    row * n + col
  }

  /** `(row2, col2)` comes after `(row1, col1)` in row-major order. */
  predicate After(row2: int, col2: int, row1: int, col1: int) {
    row2 > row1 || (row2 == row1 && col2 > col1)
  }

  lemma RowMajorMonotonic(n: int, row1: int, col1: int, row2: int, col2: int)
    requires InRange(n, row1, col1) && InRange(n, row2, col2)
    requires After(row2, col2, row1, col1)
    ensures RowMajor(n, row1, col1) < RowMajor(n, row2, col2)
  {
    if row2 > row1 {
      MulNonNegative(row2 - row1 - 1, n);
      assert row2 * n == row1 * n + n + (row2 - row1 - 1) * n;
    }
  }

  lemma MulNonNegative(a: int, b: int)
    requires a >= 0 && b >= 0
    ensures a * b >= 0
  {
  }

  /** One row of `to_a.flat_map.with_index`: each item paired with its
      coordinates, i.e. the one-entry hashes `{ item => [row, col] }`. */
  function RowEntries<T>(row: seq<Option<T>>, rowIndex: int): (es: seq<(Option<T>, (int, int))>)
    ensures |es| == |row|
    ensures forall col :: 0 <= col < |row| ==> es[col] == (row[col], (rowIndex, col))
  {
    seq(|row|, (col: int) requires 0 <= col < |row| => (row[col], (rowIndex, col)))
  }

  /** The `flat_map.with_index` over the rows, starting at row `rowIndex`.
      Every entry carries the index of one of these rows. */
  function FlatMapRows<T>(rows: seq<seq<Option<T>>>, rowIndex: int): (es: seq<(Option<T>, (int, int))>)
    ensures forall i :: 0 <= i < |es| ==> rowIndex <= es[i].1.0 < rowIndex + |rows|
    decreases |rows|
  {
    if |rows| == 0 then []
    else RowEntries(rows[0], rowIndex) + FlatMapRows(rows[1..], rowIndex + 1)
  }

  /** Rows of width `n` flatten to `|rows| * n` entries. */
  lemma {:induction false} FlatMapRowsLength<T>(rows: seq<seq<Option<T>>>, first: int, n: nat)
    requires forall row :: 0 <= row < |rows| ==> |rows[row]| == n
    ensures |FlatMapRows(rows, first)| == |rows| * n
    decreases |rows|
  {
    if |rows| > 0 {
      FlatMapRowsLength(rows[1..], first + 1, n);
      assert |rows| * n == n + (|rows| - 1) * n;
    }
  }

  /** Entry `row * n + col` pairs `rows[row][col]` with its coordinates
      (rows numbered from `first`). */
  lemma {:induction false} FlatMapRowsForward<T>(rows: seq<seq<Option<T>>>, first: int, n: nat, row: int, col: int)
    requires forall r :: 0 <= r < |rows| ==> |rows[r]| == n
    requires 0 <= row < |rows| && 0 <= col < n
    ensures RowMajor(n, row, col) < |FlatMapRows(rows, first)|
    ensures FlatMapRows(rows, first)[RowMajor(n, row, col)] == (rows[row][col], (first + row, col))
    decreases |rows|
  {
    FlatMapRowsLength(rows, first, n);
    var head := RowEntries(rows[0], first);
    var tail := FlatMapRows(rows[1..], first + 1);
    assert FlatMapRows(rows, first) == head + tail;
    if row > 0 {
      FlatMapRowsForward(rows[1..], first + 1, n, row - 1, col);
      assert RowMajor(n, row, col) == n + RowMajor(n, row - 1, col);
      assert rows[1..][row - 1] == rows[row];
    }
  }

  /** Every entry is some in-range item paired with its own coordinates, at
      its row-major position. */
  lemma {:induction false} FlatMapRowsBackward<T>(rows: seq<seq<Option<T>>>, first: int, n: nat, j: int)
    requires forall r :: 0 <= r < |rows| ==> |rows[r]| == n
    requires 0 <= j < |FlatMapRows(rows, first)|
    ensures var e := FlatMapRows(rows, first)[j];
      0 <= e.1.0 - first < |rows| && 0 <= e.1.1 < n &&
      e.0 == rows[e.1.0 - first][e.1.1] &&
      RowMajor(n, e.1.0 - first, e.1.1) == j
    decreases |rows|
  {
    var head := RowEntries(rows[0], first);
    var tail := FlatMapRows(rows[1..], first + 1);
    assert FlatMapRows(rows, first) == head + tail;
    if j >= n {
      FlatMapRowsBackward(rows[1..], first + 1, n, j - n);
      var e := tail[j - n];
      assert (head + tail)[j] == e;
      assert rows[1..][e.1.0 - (first + 1)] == rows[e.1.0 - first];
      assert RowMajor(n, e.1.0 - first, e.1.1) == n + RowMajor(n, e.1.0 - (first + 1), e.1.1);
    }
  }

  /** The flattened `(item, [row, col])` entries of `to_h`, row-major. */
  function Entries<T>(g: Grid<T>): seq<(Option<T>, (int, int))>
    requires Valid(g)
  {
    FlatMapRows(ToA(g), 0)
  }

  /** A one-entry hash `{ key => value }`. */
  function OneEntry<K, V>(e: (K, V)): map<K, V> {
    map[e.0 := e.1]
  }

  /** `reduce(&:merge)` over one-entry hashes: a left fold in which each later
      hash overrides the earlier ones (`((h0.merge h1).merge h2)…`). */
  function MergeAll<K, V>(es: seq<(K, V)>): (m: map<K, V>)
    requires |es| > 0
    ensures es[|es| - 1].0 in m && m[es[|es| - 1].0] == es[|es| - 1].1
    decreases |es|
  {
    if |es| == 1 then OneEntry(es[0])
    else MergeAll(es[..|es| - 1]) + OneEntry(es[|es| - 1])
  }

  /** A key is in the merged hash exactly when some entry carries it. */
  lemma {:induction false} MergeAllKeys<K, V>(es: seq<(K, V)>)
    requires |es| > 0
    ensures forall k :: k in MergeAll(es) <==> exists i :: 0 <= i < |es| && es[i].0 == k
    decreases |es|
  {
    if |es| > 1 {
      var front := es[..|es| - 1];
      var last := es[|es| - 1];
      MergeAllKeys(front);
      var m := MergeAll(es);
      assert m == MergeAll(front) + OneEntry(last);
      forall k
        ensures k in m <==> exists i :: 0 <= i < |es| && es[i].0 == k
      {
        if k in m && k != last.0 {
          var i :| 0 <= i < |front| && front[i].0 == k;
          assert es[i].0 == k;
        }
        if k !in m {
          forall i | 0 <= i < |es|
            ensures es[i].0 != k
          {
            if i < |front| {
              assert front[i] == es[i];
            }
          }
        }
      }
    }
  }

  /** The value the merged hash keeps for a key is the one carried by the
      LAST entry with that key. */
  lemma {:induction false} MergeAllLastWins<K, V>(es: seq<(K, V)>, k: K)
    requires |es| > 0 && k in MergeAll(es)
    ensures exists j :: 0 <= j < |es| && es[j] == (k, MergeAll(es)[k]) &&
                        (forall i :: j < i < |es| ==> es[i].0 != k)
    decreases |es|
  {
    var m := MergeAll(es);
    if |es| == 1 {
      assert es[0] == (k, m[k]);
    } else {
      var front := es[..|es| - 1];
      var last := es[|es| - 1];
      assert m == MergeAll(front) + OneEntry(last);
      if k == last.0 {
        assert es[|es| - 1] == (k, m[k]);
      } else {
        MergeAllLastWins(front, k);
        var j :| 0 <= j < |front| && front[j] == (k, MergeAll(front)[k]) &&
          forall i :: j < i < |front| ==> front[i].0 != k;
        assert es[j] == (k, m[k]);
        forall i | j < i < |es|
          ensures es[i].0 != k
        {
          if i < |front| {
            assert front[i] == es[i];
          }
        }
      }
    }
  }

  /** The index of the entry whose value the merged hash keeps for `k`. */
  lemma LastEntry<K, V>(es: seq<(K, V)>, k: K) returns (j: int)
    requires |es| > 0 && k in MergeAll(es)
    ensures 0 <= j < |es| && es[j] == (k, MergeAll(es)[k])
    ensures forall i :: j < i < |es| ==> es[i].0 != k
  {
    MergeAllLastWins(es, k);
    j :| 0 <= j < |es| && es[j] == (k, MergeAll(es)[k]) &&
      forall i :: j < i < |es| ==> es[i].0 != k;
  }

  /** `to_h`: every item mapped to its coordinates; `nil` for an empty grid,
      where `reduce` has nothing to fold. */
  function ToH<T(==)>(g: Grid<T>): (h: Option<map<Option<T>, (int, int)>>)
    requires Valid(g)
    ensures h.Some? <==> g.size > 0
  {
    FlatMapRowsLength(ToA(g), 0, g.size);
    var es := Entries(g);
    if |es| == 0 then None else Some(MergeAll(es))
  }

  /** `coordinates_of(item)`: `to_h[item]`. It finds the item when the grid
      holds it, answers `nil` otherwise, and when the item occurs several
      times it answers its last position in row-major order. */
  function CoordinatesOf<T(==)>(g: Grid<T>, item: Option<T>): (pos: Option<(int, int)>)
    requires Valid(g) && g.size > 0
    ensures pos.None? <==> forall row, col :: InRange(g.size, row, col) ==> At(g, row, col) != item
    ensures pos.Some? ==>
      InRange(g.size, pos.value.0, pos.value.1) &&
      At(g, pos.value.0, pos.value.1) == item &&
      forall row, col :: InRange(g.size, row, col) && After(row, col, pos.value.0, pos.value.1) ==>
        At(g, row, col) != item
  {
    var h := ToH(g).value;
    if item in h then
      LookupPresent(g, item, h);
      Some(h[item])
    else
      LookupAbsent(g, item, h);
      None
  }

  /** A key found in the merged entries sits at an in-range position that
      holds the item, and no later position holds it. */
  lemma LookupPresent<T>(g: Grid<T>, item: Option<T>, h: map<Option<T>, (int, int)>)
    requires Valid(g) && g.size > 0
    requires h == MergeAll(Entries(g)) && item in h
    ensures InRange(g.size, h[item].0, h[item].1)
    ensures At(g, h[item].0, h[item].1) == item
    ensures forall row, col :: InRange(g.size, row, col) && After(row, col, h[item].0, h[item].1) ==>
      At(g, row, col) != item
  {
    var es := Entries(g);
    var rows := ToA(g);
    var n := g.size;
    var j := LastEntry(es, item);
    FlatMapRowsBackward(rows, 0, n, j);
    NothingAfter(g, item, j);
  }

  /** If no entry after index `j` carries `item`, no position after entry
      `j`'s coordinates holds it. */
  lemma NothingAfter<T>(g: Grid<T>, item: Option<T>, j: int)
    requires Valid(g) && 0 <= j < |Entries(g)|
    requires forall i :: j < i < |Entries(g)| ==> Entries(g)[i].0 != item
    requires var p := Entries(g)[j].1; InRange(g.size, p.0, p.1) && RowMajor(g.size, p.0, p.1) == j
    ensures var p := Entries(g)[j].1;
      forall row, col :: InRange(g.size, row, col) && After(row, col, p.0, p.1) ==> At(g, row, col) != item
  {
    var p := Entries(g)[j].1;
    forall row, col | InRange(g.size, row, col) && After(row, col, p.0, p.1)
      ensures At(g, row, col) != item
    {
      RowMajorMonotonic(g.size, p.0, p.1, row, col);
      FlatMapRowsForward(ToA(g), 0, g.size, row, col);
    }
  }

  /** A key missing from the merged entries is held by no position. */
  lemma LookupAbsent<T>(g: Grid<T>, item: Option<T>, h: map<Option<T>, (int, int)>)
    requires Valid(g) && g.size > 0
    requires h == MergeAll(Entries(g)) && item !in h
    ensures forall row, col :: InRange(g.size, row, col) ==> At(g, row, col) != item
  {
    AbsentKeyNotCarried(Entries(g), item);
    forall row, col | InRange(g.size, row, col)
      ensures At(g, row, col) != item
    {
      NotCarriedNotHeld(g, ToA(g), Entries(g), item, row, col);
    }
  }

  /** An item that no entry carries is held at no position. */
  lemma NotCarriedNotHeld<T>(g: Grid<T>, rows: seq<seq<Option<T>>>, es: seq<(Option<T>, (int, int))>,
                             item: Option<T>, row: int, col: int)
    requires Valid(g) && InRange(g.size, row, col)
    requires rows == ToA(g) && es == FlatMapRows(rows, 0)
    requires forall i :: 0 <= i < |es| ==> es[i].0 != item
    ensures At(g, row, col) != item
  {
    FlatMapRowsForward(rows, 0, g.size, row, col);
  }

  /** A key missing from the merged hash is carried by no entry. */
  lemma AbsentKeyNotCarried<K, V>(es: seq<(K, V)>, k: K)
    requires |es| > 0 && k !in MergeAll(es)
    ensures forall i :: 0 <= i < |es| ==> es[i].0 != k
  {
    MergeAllKeys(es);
  }

  /** No item occurs at two different coordinates. */
  ghost predicate Distinct<T>(g: Grid<T>)
    requires Valid(g)
  {
    forall r1, c1, r2, c2 ::
      (InRange(g.size, r1, c1) && InRange(g.size, r2, c2) && At(g, r1, c1) == At(g, r2, c2))
      ==> r1 == r2 && c1 == c2
  }

  /** With pairwise-distinct items the reverse index inverts `to_a`. */
  lemma DistinctRoundTrip<T>(g: Grid<T>, row: int, col: int)
    requires Valid(g) && Distinct(g) && InRange(g.size, row, col)
    ensures CoordinatesOf(g, At(g, row, col)) == Some((row, col))
  {
  }

  /** An item at two positions is never reported at the earlier one. */
  lemma DuplicateReportsLater<T>(g: Grid<T>, r1: int, c1: int, r2: int, c2: int)
    requires Valid(g) && InRange(g.size, r1, c1) && InRange(g.size, r2, c2)
    requires After(r2, c2, r1, c1) && At(g, r1, c1) == At(g, r2, c2)
    ensures CoordinatesOf(g, At(g, r1, c1)) != Some((r1, c1))
  {
  }

  /** When every position holds the same item, `coordinates_of` reports it
      at the last cell. */
  lemma UniformGridLookup<T>(g: Grid<T>, item: Option<T>)
    requires Valid(g) && g.size > 0
    requires forall row, col :: InRange(g.size, row, col) ==> At(g, row, col) == item
    ensures CoordinatesOf(g, item) == Some((g.size - 1, g.size - 1))
  {
    var n := g.size;
    var pos := CoordinatesOf(g, item);
    assert At(g, n - 1, n - 1) == item;
    var p := pos.value;
    assert After(n - 1, n - 1, p.0, p.1) || (p.0 == n - 1 && p.1 == n - 1);
    assert p == (p.0, p.1);
  }

  /** On a grid without a block every item is `nil`, so `coordinates_of(nil)`
      is the last cell. */
  lemma NilGridLookup<T>(g: Grid<T>)
    requires g.size > 0 && g.block.None?
    ensures CoordinatesOf(g, None) == Some((g.size - 1, g.size - 1))
  {
    UniformGridLookup(g, None);
  }

  /** Compared by value, cells come in only two kinds, so from size 2 on a
      grid of cells always repeats an item: `Distinct` cannot hold. */
  lemma CellGridsRepeat(g: Grid<Cell>)
    requires Valid(g) && g.size >= 2
    ensures !Distinct(g)
  {
    TwoOfFourAgree(At(g, 0, 0), At(g, 0, 1), At(g, 1, 0), At(g, 1, 1));
  }

  /** Four items of a grid of cells cannot all differ. */
  lemma TwoOfFourAgree(a: Option<Cell>, b: Option<Cell>, c: Option<Cell>, d: Option<Cell>)
    ensures a == b || a == c || a == d || b == c || b == d || c == d
  {
    ThreeKindsOfItem(a);
    ThreeKindsOfItem(b);
    ThreeKindsOfItem(c);
    ThreeKindsOfItem(d);
  }

  /** An item of a grid of cells is `nil`, a live cell or a dead cell. */
  lemma ThreeKindsOfItem(o: Option<Cell>)
    ensures o == None || o == Some(Cell(Alive)) || o == Some(Cell(Dead))
  {
    match o
    case None =>
    case Some(cell) =>
      if cell.state == Alive {
        assert cell == Cell(Alive);
      } else {
        assert cell == Cell(Dead);
      }
  }

  // ---------------------------------------------------------------------
  // Constructors
  // ---------------------------------------------------------------------

  /** `Grid.new_random(size:)`: every item is a fresh cell with a random
      state; `draws(row, col)` is the random number consumed there. */
  function NewRandom(size: nat, draws: (int, int) -> nat): (g: Grid<Cell>)
    ensures g.size == size && Valid(g)
    ensures forall row, col :: InRange(size, row, col) ==>
      At(g, row, col).Some? && At(g, row, col) == Some(NewWithRandomState(draws(row, col)))
  {
    var block := (row: int, col: int) => NewWithRandomState(draws(row, col));
    var g := Grid(size, Some(block));
    assert forall row, col :: InRange(size, row, col) ==>
      At(g, row, col) == Some(block(row, col)) && block(row, col) == NewWithRandomState(draws(row, col));
    g
  }

  /** Any pattern of states is a possible random grid: some draws produce it. */
  lemma NewRandomCanDrawAnyPattern(size: nat, pattern: (int, int) -> State) returns (draws: (int, int) -> nat)
    ensures forall row, col :: InRange(size, row, col) ==>
      At(NewRandom(size, draws), row, col) == Some(Cell(pattern(row, col)))
  {
    draws := (row: int, col: int) => if pattern(row, col) == Alive then 0 else 1;
    var g := NewRandom(size, draws);
    forall row, col | InRange(size, row, col)
      ensures At(g, row, col) == Some(Cell(pattern(row, col)))
    {
      assert At(g, row, col) == Some(NewWithRandomState(draws(row, col)));
    }
  }

  /** `Grid.new_from(grid:, &block)` as written: a grid of the same size built
      from the block, and WITHOUT a block a grid with no block at all, whose
      items are all `nil`, not a copy of `grid`. */
  function NewFrom<S, T>(grid: Grid<S>, block: Option<(int, int) --> T>): (g: Grid<T>)
    requires Covers(grid.size, block)
    ensures g.size == grid.size && Valid(g)
    ensures forall row, col :: InRange(g.size, row, col) ==>
      (block.None? ==> At(g, row, col) == None) &&
      (block.Some? ==> At(g, row, col) == Some(block.value(row, col)))
  {
    if block.None? then Grid(grid.size, None)
    else Grid(grid.size, block)
  }

  /** `new_from` as its comment describes it: the block is optional and,
      without one, each item is kept as it is in `grid`. */
  function NewFromKeeping<T>(grid: Grid<T>, block: Option<(int, int) --> T>): (g: Grid<T>)
    requires Valid(grid) && Covers(grid.size, block)
    ensures g.size == grid.size && Valid(g)
    ensures forall row, col :: InRange(g.size, row, col) ==>
      (block.None? ==> At(g, row, col) == At(grid, row, col)) &&
      (block.Some? ==> At(g, row, col) == Some(block.value(row, col)))
  {
    if block.None? then Grid(grid.size, grid.block)
    else Grid(grid.size, block)
  }

  /** The two agree whenever a block is given, which is how the viewer calls
      `new_from`; without a block they differ on a non-empty grid whose
      block yields a non-nil item at (0, 0). */
  lemma NewFromDiffersOnlyWithoutBlock<T>(grid: Grid<T>, block: Option<(int, int) --> T>)
    requires Valid(grid) && Covers(grid.size, block)
    ensures block.Some? ==> ToA(NewFrom(grid, block)) == ToA(NewFromKeeping(grid, block))
    ensures block.None? && grid.size > 0 && grid.block.Some? ==>
      At(NewFrom(grid, block), 0, 0) != At(NewFromKeeping(grid, block), 0, 0)
  {
  }
}
