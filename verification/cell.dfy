/** `GameOfLife::Cell`: a cell that knows its own state and can compute the
    cell that replaces it in the next generation. */
module Cells {
  import opened States

  /** A cell wraps exactly one state. */
  datatype Cell = Cell(state: State)

  /** `alive?` */
  predicate IsAlive(c: Cell) {
    c.state == States.Alive
  }

  /** `dead?` */
  predicate IsDead(c: Cell) {
    c.state == States.Dead
  }

  /** `alive?` and `dead?` are mutually exclusive and together exhaustive. */
  lemma AliveXorDead(c: Cell)
    ensures IsAlive(c) <==> !IsDead(c)
  {
  }

  /** `Cell.new_with_random_state`, with the random draw as a parameter. */
  function NewWithRandomState(draw: nat): (c: Cell)
    ensures c.state in STATES
  {
    Cell(Random(draw))
  }

  /** A random cell can come out in either state. */
  lemma NewWithRandomStateReachesEveryState(s: State)
    ensures exists draw: nat :: NewWithRandomState(draw).state == s
  {
    if s == Alive {
      assert NewWithRandomState(0).state == s;
    } else {
      assert NewWithRandomState(1).state == s;
    }
  }

  /** `neighbours.count(&:alive?)` on an array of cells. */
  function CountAlive(neighbours: seq<Cell>): (k: nat)
    ensures k <= |neighbours|
  {
    if |neighbours| == 0 then 0
    else
      CountAlive(neighbours[..|neighbours| - 1])
      + (if IsAlive(neighbours[|neighbours| - 1]) then 1 else 0)
  }

  /** The live count is the multiplicity of the live cell in the multiset of
      neighbours: it does not depend on their order. */
  lemma {:induction false} CountAliveIsMultiplicity(neighbours: seq<Cell>)
    ensures CountAlive(neighbours) == multiset(neighbours)[Cell(Alive)]
  {
    if |neighbours| > 0 {
      var front := neighbours[..|neighbours| - 1];
      CountAliveIsMultiplicity(front);
      assert neighbours == front + [neighbours[|neighbours| - 1]];
    }
  }

  /** The body of `subsequent_state` once the live neighbours are counted:
      survival, then birth, else death, in the order the Ruby code tests them. Its contract is
      Conway's rule B3/S23 written as a single table. */
  function Subsequent(c: Cell, aliveNeighbours: int): (next: Cell)
    ensures IsAlive(next) <==> aliveNeighbours == 3 || (IsAlive(c) && aliveNeighbours == 2)
    ensures IsDead(next) <==> !IsAlive(next)
  {
    if IsAlive(c) && aliveNeighbours >= 2 && aliveNeighbours <= 3 then
      Cell(Alive)
    else if aliveNeighbours == 3 && IsDead(c) then
      Cell(Alive)
    else
      Cell(Dead)
  }

  /** `subsequent_state(neighbours:)` given an array of neighbour cells. The
      result is a fresh cell; neither the receiver nor the neighbours change. */
  function SubsequentState(c: Cell, neighbours: seq<Cell>): (next: Cell)
    ensures var live := multiset(neighbours)[Cell(Alive)];
      IsAlive(next) <==> live == 3 || (IsAlive(c) && live == 2)
  {
    CountAliveIsMultiplicity(neighbours);
    Subsequent(c, CountAlive(neighbours))
  }

  /** The four rules as the comments in the Ruby code state them. */
  lemma ConwayRules(c: Cell, k: int)
    ensures IsAlive(c) && 2 <= k <= 3 ==> IsAlive(Subsequent(c, k))
    ensures IsDead(c) && k == 3 ==> IsAlive(Subsequent(c, k))
    ensures IsAlive(c) && (k < 2 || k > 3) ==> IsDead(Subsequent(c, k))
    ensures IsDead(c) && k != 3 ==> IsDead(Subsequent(c, k))
  {
  }

  /** Two neighbour lists with the same number of live cells, whatever their
      order and length, give the same next cell. */
  lemma SubsequentStateDependsOnLiveCountOnly(c: Cell, ns1: seq<Cell>, ns2: seq<Cell>)
    requires multiset(ns1)[Cell(Alive)] == multiset(ns2)[Cell(Alive)]
    ensures SubsequentState(c, ns1) == SubsequentState(c, ns2)
  {
  }
}
