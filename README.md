# Cleaning-agent simulation, modelled in Dafny

The system is a small agent-based simulation built on Mesa. A rectangular,
non-toroidal grid keeps a list of dirty cells (`MultiGridConSuciedad`). The
model (`ModeloLimpieza`) places `num_agentes` cleaning agents
(`AgenteLimpieza`) at random cells. It then marks each cell dirty when a random
draw falls below `porc_suciedad`.

Each tick runs three steps:

1. The data collector samples the clean-cell percentage and every agent's
   move counter.
2. The random scheduler activates every agent once. An agent cleans the cell it
   stands on, moves to a random cell of its Moore neighbourhood (the centre is
   excluded) and counts the move.
3. The model adds the sum of all move counters to `movimientos_totales`.

The project has five modules, one per concern:

- `Lists` (`lists.dfy`): the Python list operations the dirt store uses with set
  semantics. These are `list.remove` (`RemoveFirst`), duplicate-freedom and
  `sum`.
- `Space` (`space.dfy`): Mesa's bounded-grid geometry. It covers the Moore
  neighbourhood without its centre on a grid built with `torus=False`, and the
  order in which `coord_iter` visits the cells.
- `Grid` (`grid.dfy`): the class `MultiGridConSuciedad`. It holds the
  dimensions and the dirty list, a `seq` that the methods reassign.
- `Agents` (`agents.dfy`): the class `AgenteLimpieza`, with its position and
  its `movimientos` counter.
- `Simulation` (`simulation.dfy`): the class `ModeloLimpieza`. It covers
  construction, the tick, the schedule's activation loop, the statistics and the
  clean-cell percentage. It also holds the pure functions that specify them:
  - `InitialDirt`: the dirty list that construction leaves.
  - `AccumulatedMoves`: the movement total after `k` ticks.
  - `Done` and `Cleaned`: the agents that have acted so far and the cells they
    have cleaned.

Every random decision is an explicit parameter:

- The placement coordinates `xs` and `ys` stand for the two `randrange`
  results per agent.
- The dirt draws `draws` are the `random()` results, one per cell, in
  `coord_iter` order.
- A permutation `order` is the activation order of `RandomActivation` for one
  tick.
- One `pick` per activation stands for `random.choice`. The chosen neighbour is
  `nb[pick % |nb|]`.

On every tick the code adds the cumulative sum of the move counters to
`movimientos_totales`, so the total is a running total of running totals.
`movimientos_totales` is therefore not the number of moves made. That number,
`Sum(Counters())`, grows by `num_agentes` per tick. With `n` agents the total
after `k` ticks is `n * k * (k + 1) / 2` (`TotalInClosedForm`).

## Model

| member | source | states |
|---|---|---|
| Lists.RemoveFirst | grid_con_suciedad.py:57-58 | `list.remove` on a list that holds `x` drops one element. A list without `x` is unchanged. Every other value keeps its membership. The result of a duplicate-free list is duplicate-free and no longer holds `x`. |
| Lists.RemoveFirstAt | grid_con_suciedad.py:58 | The removal cuts the list exactly at the first occurrence of `x` (`s[..i] + s[i+1..]`), so the rest keep their relative order. |
| Lists.Sum | modelo_limpieza.py:60 | Python's `sum` over the move counters, as a fold from the left. What the total needs of it is proved in `SumIncrement` and `SumConstant`. |
| Lists.SumIncrement | modelo_limpieza.py:60 | When every counter goes up by one, their `sum` grows by the number of counters. |
| Lists.SumConstant | modelo_limpieza.py:60 | `n` counters that all read `k` sum to `n * k`. |
| Space.ShiftsInBoundsSpec | agente_limpieza.py:39-41 | Shifting a cell by a list of offsets keeps exactly the in-bounds results, each coming from one of the offsets. When the offsets are sorted, so is the result. |
| Space.Neighbourhood | agente_limpieza.py:39-41 | `get_neighborhood(pos, moore=True, include_center=False)` on a bounded grid returns at most eight cells. Its exact contents are proved in `NeighbourhoodSpec`. |
| Space.NeighbourhoodSpec | agente_limpieza.py:39-41 | `get_neighborhood(moore=True, include_center=False)` on a bounded grid holds exactly the in-bounds cells at king-move distance 1, sorted and without duplicates. |
| Space.NeighbourhoodEmptyIff | agente_limpieza.py:39-44 | An in-bounds cell has no neighbour exactly when the grid is 1x1. That is the only case in which `random.choice` has nothing to pick. |
| Space.NeighbourhoodNotEmpty | agente_limpieza.py:39-44 | On a grid with more than one cell, every in-bounds cell has a neighbour. |
| Space.CoordIter | modelo_limpieza.py:43-44 | `coord_iter` visits exactly the in-bounds cells, each once. |
| Space.CoordIterLength | modelo_limpieza.py:43 | `coord_iter` visits `width * height` cells. |
| Space.CoordIterAt | modelo_limpieza.py:43-44 | Cell `(x, y)` is the `x * height + y`-th cell visited (x outer, y inner). |
| Space.CellCountBound | modelo_limpieza.py:69-70 | A duplicate-free list of in-bounds cells has at most `width * height` entries, so the clean-cell count is never negative. |
| Grid.MarkDirty | grid_con_suciedad.py:32-34 | After `set_cell_dirty(p)` on the list, `p` is in it and every other cell keeps its status. An already-dirty `p` leaves the list unchanged. The list grows by at most one, at the end, and stays duplicate-free. |
| Grid.MultiGridConSuciedad.constructor | grid_con_suciedad.py:13-23 | A new grid has the given dimensions and an empty, hence duplicate-free, dirty list. |
| Grid.MultiGridConSuciedad.IsCellDirty | grid_con_suciedad.py:36-47 | `is_cell_dirty(p)`, the membership test the dirt store's contracts are stated in. `SetCellDirty` makes it true for `p`. `CleanCell` makes it false for `p` on a duplicate-free list. Both leave every other cell's answer unchanged. As a function it changes no state. |
| Grid.MultiGridConSuciedad.SetCellDirty | grid_con_suciedad.py:25-34 | Afterwards `p` is dirty and every other cell is as it was. An already-dirty `p` leaves the list unchanged. The no-duplicates invariant is kept. |
| Grid.MultiGridConSuciedad.CleanCell | grid_con_suciedad.py:49-58 | The list becomes `list.remove(p)` of the old one, or stays as it was when `p` was clean. When the list had no duplicates, `p` is clean afterwards. Every other cell is as it was. A dirty `p` shrinks the list by exactly one. The no-duplicates invariant is kept. |
| Agents.AgenteLimpieza.constructor | agente_limpieza.py:15-24 | A new agent carries its id and its placement and starts with `movimientos == 0`. |
| Agents.AgenteLimpieza.Step | agente_limpieza.py:26-46 | The starting cell is cleaned (`list.remove`) and no other cell changes status. The agent moves to the picked cell of its neighbourhood, which is in bounds, at king-move distance 1 and hence different from the start. `movimientos` rises by exactly one. When the neighbourhood is empty (the `random.choice` error), the agent neither moves nor counts. |
| Simulation.CleanPercentage | modelo_limpieza.py:62-72 | `100 * (W*H - dirty) / (W*H)` lies in [0, 100] for a valid dirty count. It is 100 exactly when no cell is dirty and 0 exactly when every cell is. |
| Simulation.CleanPercentageAntitone | modelo_limpieza.py:69-72 | Fewer dirty cells never give a lower percentage. |
| Simulation.CleanlinessNeverDrops | modelo_limpieza.py:59 | Suppose every cell dirty after a tick was dirty before it, and the list stays duplicate-free (what `Step` ensures). Then the clean-cell percentage after the tick is at least the one before it. |
| Simulation.InitialDirt | modelo_limpieza.py:43-46 | The dirty list the dirt loop builds, specified by the `InitialDirt*` lemmas below. It never has more entries than there are visited cells. |
| Simulation.InitialDirtNoDup | modelo_limpieza.py:43-46 | The dirty list after construction has no duplicates. |
| Simulation.InitialDirtWithin | modelo_limpieza.py:43-46 | Only visited cells are marked dirty. |
| Simulation.InitialDirtIff | modelo_limpieza.py:43-46 | When the visited cells are distinct, each one is dirty after construction exactly when its own draw is below `porc_suciedad`. |
| Simulation.InitialDirtIffAt | modelo_limpieza.py:43-46 | The same fact for the `k`-th visited cell. |
| Simulation.InitialDirtNone | modelo_limpieza.py:45-46 | With every draw at or above `porc_suciedad`, no cell is dirty. |
| Simulation.InitialDirtAll | modelo_limpieza.py:45-46 | With every draw below `porc_suciedad`, every cell is dirty, listed in visiting order. |
| Simulation.InitialDirtInGrid | modelo_limpieza.py:43-46 | The dirty list that construction leaves is duplicate-free and lies inside the grid. |
| Simulation.InitialDirtAtCell | modelo_limpieza.py:43-46 | After construction, cell `(x, y)` is dirty exactly when draw number `x * height + y`, its own, is below `porc_suciedad`. |
| Simulation.CreateAgents | modelo_limpieza.py:35-40 | The placement loop creates exactly one fresh agent per index `i`. Agent `i` has id `i`, zero moves and position `(xs[i], ys[i])`. |
| Simulation.ScatterDirt | modelo_limpieza.py:43-46 | The dirt loop leaves exactly `InitialDirt` of the visited cells and their draws. |
| Simulation.TimesIsProduct | modelo_limpieza.py:60 | The repeated addition `Times(n, k)`, which the closed form of the total adds once per tick, equals `n * k`. |
| Simulation.AccumulatedMoves | modelo_limpieza.py:60 | `movimientos_totales` after `k` ticks: tick `t` adds `n` counters that all read `t`. Its closed form is proved in `AccumulatedMovesClosedForm`. |
| Simulation.AccumulatedMovesClosedForm | modelo_limpieza.py:60 | The running total of running totals after `k` ticks with `n` agents is `n * k * (k + 1) / 2`. |
| Simulation.TickTotals | modelo_limpieza.py:59-60 | Suppose every counter reads `s` and the total is right for `s` ticks. When every counter goes up by one, their sum grows by `n`. Adding the new sum gives the right total for `s + 1` ticks. |
| Simulation.MovedBy | agente_limpieza.py:39-45 | `random.choice` followed by `move_agent`: the agent lands on the neighbour at index `pick % len(nb)` of a non-empty neighbourhood. Where that cell lies is proved in `Agents.AgenteLimpieza.Step` and `NeighbourhoodSpec`. |
| Simulation.PermutationCovers | modelo_limpieza.py:59 | An activation order contains every agent index. |
| Simulation.DoneFresh | modelo_limpieza.py:59 | An agent that is activated later has not acted yet. |
| Simulation.DoneHasActed | modelo_limpieza.py:59 | After `j` activations, the agents that have acted are exactly the first `j` entries of the order: each of them is in `Done`, and every member of `Done` is in `order[..j]`. |
| Simulation.DoneExactly | modelo_limpieza.py:59 | After the whole order has run, exactly the agents below `num_agentes` have acted. The order is a permutation, so it lists each of them once. |
| Simulation.CleanedHasActed | agente_limpieza.py:33-34 | The cells cleaned in the first `j` activations are exactly the start cells of `order[0]`, ..., `order[j-1]`: each of them is cleaned, and every cleaned cell is one of them. |
| Simulation.CleanedExactly | agente_limpieza.py:33-34 | After the whole order has run, the cleaned cells are exactly the start cells of all agents. |
| Simulation.ModeloLimpieza.Counters | modelo_limpieza.py:51 | The agent column "Movimientos": the counter of agent `i` at index `i`, one per agent. |
| Simulation.ModeloLimpieza.CalcularPorcentajeLimpio | modelo_limpieza.py:62-72 | `calcular_porcentaje_limpio()` is `CleanPercentage(width * height, len(celdas_sucias))`. It is 100 exactly when the dirty list is empty, and it lies in [0, 100] in a valid model (`PercentageInRange`). |
| Simulation.ModeloLimpieza.PercentageInRange | modelo_limpieza.py:69-72 | In a valid model, `calcular_porcentaje_limpio()` lies in [0, 100]. |
| Simulation.ModeloLimpieza.IsFinished | simulacion.py:53 | The driver's stop test (empty dirty list) holds exactly when the percentage is 100. |
| Simulation.ModeloLimpieza.constructor | modelo_limpieza.py:17-52 | Construction creates `num_agentes` agents with ids `0..n-1`, placed at the given in-bounds cells. It takes one dirt draw per cell, `width * height` in all, which is the length of `coord_iter`. The grid has the given dimensions and `torus=False`. The dirty list is `InitialDirt` in `coord_iter` order, duplicate-free and in bounds. `movimientos_totales` and the tick count are 0, and both sample columns are empty. |
| Simulation.ModeloLimpieza.Step | modelo_limpieza.py:54-60 | The pre-tick percentage and counters are appended as this tick's samples. Every agent's counter rises by exactly one, so their sum rises by `num_agentes`. The total grows by the new sum. Agent `order[k]` ends on the neighbour its pick selects from its starting cell. A cell is dirty afterwards exactly when it was dirty and no agent started on it, so the dirty count never grows. The model stays valid. |
| Simulation.ModeloLimpieza.Record | modelo_limpieza.py:58-60 | The end-of-tick bookkeeping advances the tick count, stores the sample columns, and adds the sum of the counters (each one above its pre-tick value) to the total. The statistics stay consistent. |
| Simulation.ModeloLimpieza.TotalInClosedForm | modelo_limpieza.py:60 | After `k` ticks with `n` agents, `2 * movimientos_totales == n * k * (k + 1)`. |
| Simulation.ModeloLimpieza.Activate | agente_limpieza.py:26-46 | One agent's `step` inside the model: its starting cell is removed from the dirty list and it moves as its pick says. No other agent changes. |
| Simulation.ModeloLimpieza.ActivateNth | modelo_limpieza.py:59 | Activation `j` takes the tick's progress from `j` agents having acted to `j + 1`. |
| Simulation.ModeloLimpieza.RunActivations | modelo_limpieza.py:59 | The activation loop takes the tick from no agent having acted to all of them having acted. |
| Simulation.ModeloLimpieza.RunSchedule | modelo_limpieza.py:59 | `schedule.step()` activates every agent exactly once. Each counts one move and moves from its starting cell as picked. Exactly the starting cells become clean, and the dirty count never grows. |
| Simulation.ModeloLimpieza.ScheduleComplete | modelo_limpieza.py:59 | Once all activations have run: every counter is one above its start, the dirty cells are the old ones minus the starting cells, and the list is no longer. |

## Left out

- Rendering, wall-clock pacing and the driver loop of `simulacion.py` are input, output and timing. Only its stop test is modelled, as `IsFinished`.
- Mesa's `MultiGrid`, `RandomActivation`, `DataCollector` and `Model.random` are library code.
  - Only the agents' `pos` fields are modelled, not the grid's occupancy lists that `place_agent` and `move_agent` maintain.
  - The shuffle and every random result are parameters, so seed reproducibility is not modelled. Each state is a function of the inputs.
  - The collector's columns are append-only sequences rather than string-keyed tables.
- The draws and the percentage are `real`, not binary floating point.
- Toroidal wrap-around is left out: the model always builds the grid with `torus=False`.
- The debug `print` in the agent's step is left out.
- `tuple(pos)` in the dirt store's methods is left out, because positions are already pairs.
- `list.remove` raising `ValueError` on a missing element is unreachable here: every caller tests membership first.
- Agents.AgenteLimpieza.constructor: Mesa's `place_agent` call, which follows construction, is folded into the constructor. The back-reference to the model is not kept; the step receives the grid instead.
- Agents.AgenteLimpieza.Step: the neighbourhood is taken in lexicographic order. The neighbour actually chosen is arbitrary through `pick`, so the order does not restrict what the model covers.
- Simulation.ModeloLimpieza.Step requires a grid with more than one cell whenever there are agents. On a 1x1 grid `random.choice` raises, and the Python tick aborts after the first agent. `Agents.AgenteLimpieza.Step` models that case (`moved == false`), but the tick is not modelled as interrupted.
- Simulation.ModeloLimpieza.Step states that the clean-cell percentage cannot drop as "the dirty list never grows". `CleanlinessNeverDrops` turns Step's dirt postcondition into the statement about the percentage, because the grid's dimensions are constants.
- Simulation.ModeloLimpieza.constructor requires positive dimensions. With a zero dimension the source either fails in `randrange` or divides by zero in the first sample.
- Simulation.ModeloLimpieza.Record folds the collector's sampling at the start of the tick into the end-of-tick bookkeeping. `Step` takes the samples before the schedule runs and hands them on, so the order of observation is the source's.
