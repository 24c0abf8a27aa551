/** The cleaning agent (`AgenteLimpieza`). */
module Agents {
  import opened Lists
  import opened Space
  import opened Grid

  class AgenteLimpieza {
    const uniqueId: int
    var pos: Pos
    /** `movimientos`: how many moves the agent has made. */
    var movimientos: nat

    /** A new agent, already placed at `pos`, that has not moved yet. */
    constructor (uniqueId: int, pos: Pos)
      ensures this.uniqueId == uniqueId && this.pos == pos
      ensures movimientos == 0
    {
      this.uniqueId := uniqueId;
      this.pos := pos;
      movimientos := 0;
    }

    /** One activation: clean the current cell if it is dirty, then move to the
        neighbour that `random.choice` picks (`pick`, reduced modulo the size of
        the neighbourhood) and count the move. When the neighbourhood is empty
        `random.choice` raises; the step then stops after the cleaning and
        `moved` is false. */
    method Step(grid: MultiGridConSuciedad, pick: nat) returns (moved: bool)
      requires !grid.torus
      modifies this, grid
      ensures grid.celdasSucias == RemoveFirst(old(grid.celdasSucias), old(pos))
      ensures old(grid.Valid()) ==> grid.Valid() && !grid.IsCellDirty(old(pos))
      ensures forall q :: q != old(pos) ==> (grid.IsCellDirty(q) <==> q in old(grid.celdasSucias))
      ensures var nb := Neighbourhood(grid.width, grid.height, old(pos));
              && moved == (|nb| > 0)
              && (moved ==> pos == nb[pick % |nb|] && movimientos == old(movimientos) + 1)
              && (!moved ==> pos == old(pos) && movimientos == old(movimientos))
      ensures moved ==> InBounds(grid.width, grid.height, pos) && Chebyshev(old(pos), pos) == 1
    {
      if grid.IsCellDirty(pos) {
        grid.CleanCell(pos);
      }
      var posiblesMovimientos := Neighbourhood(grid.width, grid.height, pos);
      NeighbourhoodSpec(grid.width, grid.height, pos);
      if |posiblesMovimientos| == 0 {
        moved := false;
        return;
      }
      pos := posiblesMovimientos[pick % |posiblesMovimientos|];
      assert pos in posiblesMovimientos;
      movimientos := movimientos + 1;
      moved := true;
    }
  }
}
