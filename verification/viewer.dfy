/** The generation step wired in `game_of_life_viewer.rb`: the next grid is
    built with `Grid.new_from` from a block that, at each coordinate, asks the
    old cell for its subsequent state given the neighbours of that
    coordinate in the old grid. */
module Generation {
  import opened Wrappers
  import opened States
  import opened Cells
  import Grids
  import Neighbourhood

  /** Every item of the grid is a cell; none is `nil`. */
  ghost predicate AllCells(g: Grids.Grid<Cell>) {
    Grids.Valid(g) && forall row, col :: Grids.InRange(g.size, row, col) ==> Grids.At(g, row, col).Some?
  }

  /** `old_grid.to_a[row][col]` */
  function CellAt(g: Grids.Grid<Cell>, row: int, col: int): Cell
    requires AllCells(g) && Grids.InRange(g.size, row, col)
  {
    Grids.At(g, row, col).value
  }

  /** The cells at the eight wrapped neighbour coordinates, taken straight
      from the modular description. */
  function WrappedNeighbourCells(g: Grids.Grid<Cell>, row: int, col: int): seq<Cell>
    requires AllCells(g) && Grids.InRange(g.size, row, col)
  {
    var cs := Neighbourhood.Coordinates(g.size, row, col);
    seq(8, (k: int) requires 0 <= k < 8 => CellAt(g, cs[k].0, cs[k].1))
  }

  /** How many of the eight wrapped neighbours are alive. */
  function LiveAround(g: Grids.Grid<Cell>, row: int, col: int): nat
    requires AllCells(g) && Grids.InRange(g.size, row, col)
  {
    CountAlive(WrappedNeighbourCells(g, row, col))
  }

  /** `Neighbours.new(coordinates: [row, col], grid: g).to_a`, as cells: the
      array the rule is meant to receive. */
  function NeighbourCells(g: Grids.Grid<Cell>, row: int, col: int): (cells: seq<Cell>)
    requires AllCells(g) && Grids.InRange(g.size, row, col)
    ensures cells == WrappedNeighbourCells(g, row, col)
  {
    var items := Neighbourhood.ToA(Neighbourhood.Neighbours(row, col, g));
    seq(8, (k: int) requires 0 <= k < 8 => items[k].value)
  }

  /** One generation, as intended: every cell of the new grid is the old
      cell's subsequent state given the array of its eight neighbours in the
      OLD grid, so all cells change at once. The result is Conway's rule
      applied to the live count of the wrapped neighbourhood. */
  function Step(g: Grids.Grid<Cell>): (next: Grids.Grid<Cell>)
    requires AllCells(g)
    ensures next.size == g.size && AllCells(next)
    ensures forall row, col :: Grids.InRange(g.size, row, col) ==>
      (IsAlive(CellAt(next, row, col)) <==>
        LiveAround(g, row, col) == 3 || (IsAlive(CellAt(g, row, col)) && LiveAround(g, row, col) == 2))
  {
    var block := (row: int, col: int) requires AllCells(g) && Grids.InRange(g.size, row, col) =>
      SubsequentState(CellAt(g, row, col), NeighbourCells(g, row, col));
    Grids.NewFrom(g, Some(block))
  }

  /** `subsequent_state` as the viewer calls it: `neighbours` is a
      `Neighbours` object, and its `count` drops the `&:alive?` block and
      answers the number of neighbours, 8, whatever their states. */
  function SubsequentStateAsWired(c: Cell, nb: Neighbourhood.Neighbours<Cell>): (next: Cell)
    requires Neighbourhood.Valid(nb)
    ensures IsDead(next)
  {
    Subsequent(c, Neighbourhood.Count(nb))
  }

  /** One generation exactly as the viewer wires it: every cell of the next
      grid is dead, whatever the old grid held. */
  function StepAsWired(g: Grids.Grid<Cell>): (next: Grids.Grid<Cell>)
    requires AllCells(g)
    ensures next.size == g.size && AllCells(next)
    ensures forall row, col :: Grids.InRange(g.size, row, col) ==> CellAt(next, row, col) == Cell(Dead)
  {
    var block := (row: int, col: int) requires AllCells(g) && Grids.InRange(g.size, row, col) =>
      SubsequentStateAsWired(CellAt(g, row, col), Neighbourhood.Neighbours(row, col, g));
    Grids.NewFrom(g, Some(block))
  }

  /** A 3-by-3 grid whose top row is alive. */
  function TopRowAlive(): (g: Grids.Grid<Cell>)
    ensures g.size == 3 && AllCells(g)
    ensures forall row, col :: Grids.InRange(3, row, col) ==> CellAt(g, row, col) == Cell(if row == 0 then Alive else Dead)
  {
    var block := (row: int, col: int) => Cell(if row == 0 then Alive else Dead);
    var g := Grids.Grid(3, Some(block));
    assert forall row, col :: Grids.InRange(3, row, col) ==> Grids.At(g, row, col) == Some(block(row, col));
    g
  }

  /** On the 3-by-3 torus every cell touches all eight others, so with three
      live cells each dead cell is born and each live cell survives; the
      step as wired kills the centre all the same. */
  lemma AsWiredDiffersFromConway()
    ensures IsAlive(CellAt(Step(TopRowAlive()), 1, 1))
    ensures IsDead(CellAt(StepAsWired(TopRowAlive()), 1, 1))
  {
    var g := TopRowAlive();
    var cs := Neighbourhood.Coordinates(3, 1, 1);
    assert cs == [(0, 0), (0, 1), (0, 2), (1, 0), (1, 2), (2, 0), (2, 1), (2, 2)];
    var ns := WrappedNeighbourCells(g, 1, 1);
    assert ns == [Cell(Alive), Cell(Alive), Cell(Alive), Cell(Dead), Cell(Dead), Cell(Dead), Cell(Dead), Cell(Dead)];
    CountAliveIsMultiplicity(ns);
    assert multiset(ns)[Cell(Alive)] == 3;
  }
}
