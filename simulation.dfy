/** The simulation model (`ModeloLimpieza`): it builds the grid and the agents,
    advances them one tick at a time and aggregates the statistics. Every
    random decision is an explicit parameter: the placement coordinates, the
    dirt draws, the activation order of each tick and each agent's neighbour
    pick. */
module Simulation {
  import opened Lists
  import opened Space
  import opened Grid
  import opened Agents

  /** `calcular_porcentaje_limpio` on the two numbers it reads: the share of
      clean cells, as a percentage. */
  function CleanPercentage(totalCells: int, dirtyCount: int): (r: real)
    requires totalCells > 0
    ensures 0 <= dirtyCount <= totalCells ==> 0.0 <= r <= 100.0
    ensures r == 100.0 <==> dirtyCount == 0
    ensures r == 0.0 <==> dirtyCount == totalCells
  {
    ((totalCells - dirtyCount) as real / totalCells as real) * 100.0
  }

  /** Fewer dirty cells never means a lower percentage. */
  lemma CleanPercentageAntitone(totalCells: int, fewer: int, more: int)
    requires totalCells > 0 && fewer <= more
    ensures CleanPercentage(totalCells, more) <= CleanPercentage(totalCells, fewer)
  {
    var t := totalCells as real;
    assert (totalCells - more) as real <= (totalCells - fewer) as real;
    assert (totalCells - more) as real / t <= (totalCells - fewer) as real / t;
  }

  /** The dirty list that the construction loop leaves: the cells are visited in
      order and `set_cell_dirty` is called on each one whose draw is below
      `porcSuciedad`. */
  function InitialDirt(cells: seq<Pos>, draws: seq<real>, porcSuciedad: real): (r: seq<Pos>)
    requires |cells| == |draws|
    ensures |r| <= |cells|
  {
    if cells == [] then []
    else
      var prev := InitialDirt(cells[..|cells| - 1], draws[..|draws| - 1], porcSuciedad);
      if draws[|draws| - 1] < porcSuciedad then MarkDirty(prev, cells[|cells| - 1]) else prev
  }

  /** No cell is listed twice: `set_cell_dirty` never appends a dirty cell. */
  lemma {:induction false} InitialDirtNoDup(cells: seq<Pos>, draws: seq<real>, porcSuciedad: real)
    requires |cells| == |draws|
    ensures NoDup(InitialDirt(cells, draws, porcSuciedad))
  {
    if cells != [] {
      InitialDirtNoDup(cells[..|cells| - 1], draws[..|draws| - 1], porcSuciedad);
    }
  }

  /** Only visited cells are marked. */
  lemma {:induction false} InitialDirtWithin(cells: seq<Pos>, draws: seq<real>, porcSuciedad: real)
    requires |cells| == |draws|
    ensures forall q :: q in InitialDirt(cells, draws, porcSuciedad) ==> q in cells
  {
    if cells != [] {
      var n := |cells| - 1;
      InitialDirtWithin(cells[..n], draws[..n], porcSuciedad);
      forall q | q in InitialDirt(cells, draws, porcSuciedad) ensures q in cells {
        if q != cells[n] {
          assert q in cells[..n];
          var k :| 0 <= k < n && cells[..n][k] == q;
          assert cells[k] == q;
        }
      }
    }
  }

  /** When the visited cells are distinct, a cell ends up dirty exactly when its
      own draw is below `porcSuciedad`. */
  lemma {:induction false} InitialDirtIff(cells: seq<Pos>, draws: seq<real>, porcSuciedad: real)
    requires |cells| == |draws| && NoDup(cells)
    ensures forall i :: 0 <= i < |cells| ==>
              (cells[i] in InitialDirt(cells, draws, porcSuciedad) <==> draws[i] < porcSuciedad)
  {
    if cells != [] {
      var n := |cells| - 1;
      var cs, ds := cells[..n], draws[..n];
      NoDupPrefix(cells, n);
      InitialDirtIff(cs, ds, porcSuciedad);
      var prev := InitialDirt(cs, ds, porcSuciedad);
      var r := InitialDirt(cells, draws, porcSuciedad);
      assert r == if draws[n] < porcSuciedad then MarkDirty(prev, cells[n]) else prev;
      InitialDirtWithin(cs, ds, porcSuciedad);
      assert cells[n] !in cs by {
        forall i | 0 <= i < n ensures cs[i] != cells[n] {
          assert cs[i] == cells[i];
        }
      }
      forall i | 0 <= i < n ensures cells[i] in r <==> draws[i] < porcSuciedad {
        assert cs[i] == cells[i] && ds[i] == draws[i];
        assert cells[i] != cells[n];
      }
    }
  }

  /** `InitialDirtIff` for the `k`-th visited cell. */
  lemma InitialDirtIffAt(cells: seq<Pos>, draws: seq<real>, porcSuciedad: real, k: nat)
    requires |cells| == |draws| && NoDup(cells) && k < |cells|
    ensures cells[k] in InitialDirt(cells, draws, porcSuciedad) <==> draws[k] < porcSuciedad
  {
    InitialDirtIff(cells, draws, porcSuciedad);
  }

  /** With every draw at or above `porcSuciedad` (in particular `porcSuciedad`
      zero and draws from `random()`, which are never negative) no cell is dirty. */
  lemma {:induction false} InitialDirtNone(cells: seq<Pos>, draws: seq<real>, porcSuciedad: real)
    requires |cells| == |draws|
    requires forall i :: 0 <= i < |draws| ==> draws[i] >= porcSuciedad
    ensures InitialDirt(cells, draws, porcSuciedad) == []
  {
    if cells != [] {
      InitialDirtNone(cells[..|cells| - 1], draws[..|draws| - 1], porcSuciedad);
    }
  }

  /** With every draw below `porcSuciedad` (for instance `porcSuciedad` 1.0) every
      cell is dirty, listed in the order it was visited. */
  lemma {:induction false} InitialDirtAll(cells: seq<Pos>, draws: seq<real>, porcSuciedad: real)
    requires |cells| == |draws| && NoDup(cells)
    requires forall i :: 0 <= i < |draws| ==> draws[i] < porcSuciedad
    ensures InitialDirt(cells, draws, porcSuciedad) == cells
  {
    if cells != [] {
      var n := |cells| - 1;
      var cs, ds := cells[..n], draws[..n];
      NoDupPrefix(cells, n);
      assert forall i :: 0 <= i < n ==> ds[i] == draws[i];
      InitialDirtAll(cs, ds, porcSuciedad);
      assert cells[n] !in cs by {
        forall i | 0 <= i < n ensures cs[i] != cells[n] {
          assert cs[i] == cells[i];
        }
      }
      assert InitialDirt(cells, draws, porcSuciedad) == cs + [cells[n]];
      assert cells[..n] + [cells[n]] == cells;
    }
  }

  /** Over one tick the clean-cell percentage cannot drop: when every cell dirty
      after the tick was dirty before it (and the list stays duplicate-free),
      the dirty list is no longer, so the percentage is no lower. */
  lemma CleanlinessNeverDrops(width: int, height: int, before: seq<Pos>, after: seq<Pos>, start: seq<Pos>)
    requires width > 0 && height > 0 && NoDup(after)
    requires forall q :: q in after <==> q in before && q !in start
    ensures width * height > 0
    ensures CleanPercentage(width * height, |before|) <= CleanPercentage(width * height, |after|)
  {
    DistinctSubsetLength(after, before);
    var total := width * height;
    assert total > 0;
    CleanPercentageAntitone(total, |after|, |before|);
  }

  /** `k` added up `n` times: what `n` counters that all read `k` sum to. */
  function Times(n: nat, k: nat): nat
  {
    if n == 0 then 0 else Times(n - 1, k) + k
  }

  lemma {:induction false} TimesIsProduct(n: nat, k: nat)
    ensures Times(n, k) == n * k
  {
    if n > 0 {
      TimesIsProduct(n - 1, k);
      assert (n - 1) * k + k == n * k;
    }
  }

  /** `movimientos_totales` after `k` ticks of a model with `n` agents: tick `t`
      adds the sum of the `n` counters, which all read `t` by then. */
  function AccumulatedMoves(n: nat, k: nat): nat
  {
    if k == 0 then 0 else AccumulatedMoves(n, k - 1) + Times(n, k)
  }

  /** The running total of running totals in closed form: `n * k * (k + 1) / 2`. */
  lemma {:induction false} AccumulatedMovesClosedForm(n: nat, k: nat)
    ensures 2 * AccumulatedMoves(n, k) == n * k * (k + 1)
  {
    if k > 0 {
      AccumulatedMovesClosedForm(n, k - 1);
      TimesIsProduct(n, k);
      TriangleStep(n, k);
    }
  }

  lemma TriangleStep(n: nat, k: nat)
    requires k > 0
    ensures n * (k - 1) * k + 2 * (n * k) == n * k * (k + 1)
  {
  }

  /** The statistics after `s` ticks of a model with `n` agents: every one of
      the `n` counters reads `s`, and `total` is the running total of running
      totals. */
  predicate TalliedAfter(counters: seq<nat>, n: nat, s: nat, total: nat)
  {
    && |counters| == n
    && (forall i :: 0 <= i < n ==> counters[i] == s)
    && total == AccumulatedMoves(n, s)
  }

  /** One tick seen through the counters: each of the `n` counters goes from `s`
      to `s + 1`, so their sum grows by `n`, and adding the new sum to
      `movimientos_totales` gives its value after `s + 1` ticks. */
  lemma TickTotals(before: seq<nat>, after: seq<nat>, n: nat, s: nat, total: nat)
    requires TalliedAfter(before, n, s, total)
    requires |after| == n && forall i :: 0 <= i < n ==> after[i] == before[i] + 1
    ensures Sum(after) == Sum(before) + n
    ensures TalliedAfter(after, n, s + 1, total + Sum(after))
  {
    SumIncrement(before, after);
    SumConstant(after, s + 1);
    TimesIsProduct(n, s + 1);
  }

  /** An activation order of `RandomActivation`: each agent index below `n`
      exactly once. */
  predicate IsPermutation(order: seq<nat>, n: nat)
  {
    |order| == n && (forall k :: 0 <= k < n ==> order[k] < n) && NoDup(order)
  }

  /** Every agent index occurs in an activation order. */
  lemma PermutationCovers(order: seq<nat>, n: nat)
    requires IsPermutation(order, n)
    ensures forall i :: 0 <= i < n ==> i in order
  {
    var all := seq(n, j => j);
    forall i | 0 <= i < n ensures i in order {
      if i !in order {
        assert all[i] == i;
        var others := RemoveFirst(all, i);
        forall q | q in order ensures q in others {
          var k :| 0 <= k < |order| && order[k] == q;
          assert all[q] == q;
        }
        DistinctSubsetLength(order, others);
        assert false;
      }
    }
  }

  /** `to` is the neighbour of `from` that `random.choice` returns for `pick`
      (which exists: the neighbourhood is not empty). */
  predicate MovedBy(width: int, height: int, from: Pos, pick: nat, to: Pos)
  {
    var nb := Neighbourhood(width, height, from);
    |nb| > 0 && to == nb[pick % |nb|]
  }

  /** The agents that have acted after the first `j` activations of `order`. */
  function Done(order: seq<nat>, j: nat): set<nat>
    requires j <= |order|
  {
    if j == 0 then {} else Done(order, j - 1) + {order[j - 1]}
  }

  /** An agent that acts later has not acted yet. */
  lemma {:induction false} DoneFresh(order: seq<nat>, j: nat, m: nat)
    requires NoDup(order) && j <= m < |order|
    ensures order[m] !in Done(order, j)
  {
    if j > 0 {
      DoneFresh(order, j - 1, m);
    }
  }

  /** The first `j` entries of `order` have acted, and every agent that has
      acted is one of them. */
  lemma {:induction false} DoneHasActed(order: seq<nat>, j: nat)
    requires j <= |order|
    ensures forall k :: 0 <= k < j ==> order[k] in Done(order, j)
    ensures forall i :: i in Done(order, j) ==> i in order[..j]
  {
    if j > 0 {
      DoneHasActed(order, j - 1);
      forall i | i in Done(order, j) ensures i in order[..j] {
        if i != order[j - 1] {
          var k :| 0 <= k < j - 1 && order[..j - 1][k] == i;
          assert order[..j][k] == i;
        } else {
          assert order[..j][j - 1] == i;
        }
      }
    }
  }

  /** Once the whole order has run, exactly the agents below `n` have acted. */
  lemma DoneExactly(order: seq<nat>, n: nat)
    requires IsPermutation(order, n)
    ensures forall i: nat :: i in Done(order, n) <==> i < n
  {
    DoneHasActed(order, n);
    assert order[..n] == order;
    PermutationCovers(order, n);
    forall i | i in Done(order, n) ensures i < n {
      assert i in order;
      var k :| 0 <= k < |order| && order[k] == i;
    }
    forall i: nat | i < n ensures i in Done(order, n) {
      assert i in order;
      var k :| 0 <= k < |order| && order[k] == i;
    }
  }

  /** The starting cells of the first `j` agents to act: the cells they clean. */
  function Cleaned(start: seq<Pos>, order: seq<nat>, j: nat): set<Pos>
    requires j <= |order| && forall k :: 0 <= k < |order| ==> order[k] < |start|
  {
    if j == 0 then {} else Cleaned(start, order, j - 1) + {start[order[j - 1]]}
  }

  /** The cells cleaned in the first `j` activations are exactly the start
      cells of the agents `order[0]`, ..., `order[j - 1]`. */
  lemma {:induction false} CleanedHasActed(start: seq<Pos>, order: seq<nat>, j: nat)
    requires j <= |order| && forall k :: 0 <= k < |order| ==> order[k] < |start|
    ensures forall k :: 0 <= k < j ==> start[order[k]] in Cleaned(start, order, j)
    ensures forall q :: q in Cleaned(start, order, j) ==> exists k :: 0 <= k < j && q == start[order[k]]
  {
    if j > 0 {
      CleanedHasActed(start, order, j - 1);
    }
  }

  /** Once the whole order has run, the cleaned cells are exactly the start cells. */
  lemma CleanedExactly(start: seq<Pos>, order: seq<nat>)
    requires IsPermutation(order, |start|)
    ensures forall q :: q in Cleaned(start, order, |order|) <==> q in start
  {
    CleanedHasActed(start, order, |order|);
    PermutationCovers(order, |start|);
    forall q | q in Cleaned(start, order, |order|) ensures q in start {
      var k :| 0 <= k < |order| && q == start[order[k]];
    }
    forall q | q in start ensures q in Cleaned(start, order, |order|) {
      var i :| 0 <= i < |start| && start[i] == q;
      assert i in order;
      var k :| 0 <= k < |order| && order[k] == i;
    }
  }

  class ModeloLimpieza {
    const numAgents: nat
    const porcSuciedad: real
    const grid: MultiGridConSuciedad
    /** `schedule.agents`, in creation order. */
    const agents: seq<AgenteLimpieza>
    /** `schedule.steps`: the number of ticks so far. */
    var steps: nat
    var movimientosTotales: nat
    /** The data collector's model column "Porcentaje Limpio", one sample per tick. */
    var porcentajeLimpioSamples: seq<real>
    /** The data collector's agent column "Movimientos": every agent's counter, one
        row per tick, indexed by agent id. */
    var movimientosSamples: seq<seq<nat>>

    ghost predicate Valid()
      reads this, grid, agents
    {
      Placed() && Tallied()
    }

    /** The statistics agree with the tick counter: every agent has made one move
        per tick, `movimientosTotales` is the running total of running totals, and
        each column holds one sample per tick. */
    ghost predicate Tallied()
      reads this, agents
    {
      && TalliedAfter(Counters(), numAgents, steps, movimientosTotales)
      && |porcentajeLimpioSamples| == steps
      && |movimientosSamples| == steps
    }

    /** The move counters of the first `n` agents, by agent id. */
    function CountersUpTo(n: nat): (r: seq<nat>)
      requires n <= |agents|
      reads agents
      ensures |r| == n && forall i :: 0 <= i < n ==> r[i] == agents[i].movimientos
    {
      if n == 0 then [] else CountersUpTo(n - 1) + [agents[n - 1].movimientos]
    }

    /** Every agent's move counter, by agent id. */
    function Counters(): (r: seq<nat>)
      reads agents
      ensures |r| == |agents| && forall i :: 0 <= i < |agents| ==> r[i] == agents[i].movimientos
    {
      CountersUpTo(|agents|)
    }

    /** The positions of the first `n` agents, by agent id. */
    function PositionsUpTo(n: nat): (r: seq<Pos>)
      requires n <= |agents|
      reads agents
      ensures |r| == n && forall i :: 0 <= i < n ==> r[i] == agents[i].pos
    {
      if n == 0 then [] else PositionsUpTo(n - 1) + [agents[n - 1].pos]
    }

    /** Every agent's position, by agent id. */
    function Positions(): (r: seq<Pos>)
      reads agents
      ensures |r| == |agents| && forall i :: 0 <= i < |agents| ==> r[i] == agents[i].pos
    {
      PositionsUpTo(|agents|)
    }

    /** `calcular_porcentaje_limpio`. */
    function CalcularPorcentajeLimpio(): (r: real)
      reads grid
      requires grid.width > 0 && grid.height > 0
      ensures r == 100.0 <==> grid.celdasSucias == []
    {
      var totalCeldas := grid.width * grid.height;
      assert totalCeldas > 0;
      CleanPercentage(totalCeldas, |grid.celdasSucias|)
    }

    /** In a valid model the percentage lies in [0, 100]: the dirty list has no
        duplicates and lies inside the grid, so it has at most `width * height`
        entries. */
    lemma PercentageInRange()
      requires Valid()
      ensures 0.0 <= CalcularPorcentajeLimpio() <= 100.0
    {
      CellCountBound(grid.width, grid.height, grid.celdasSucias);
    }

    /** The driver's stop test: no dirty cell is left. */
    function IsFinished(): (r: bool)
      reads grid
      requires grid.width > 0 && grid.height > 0
      ensures r <==> CalcularPorcentajeLimpio() == 100.0
    {
      grid.celdasSucias == []
    }

    /** `ModeloLimpieza(width, height, num_agentes, porc_suciedad)`. Agent `i` is
        placed at `(xs[i], ys[i])`, the two `randrange` results; `draws[k]` is the
        `random()` result for the `k`-th cell of `coord_iter`, one per cell. */
    constructor (width: int, height: int, numAgentes: nat, porcSuciedad: real,
                 xs: seq<int>, ys: seq<int>, draws: seq<real>)
      requires width > 0 && height > 0
      requires |xs| == numAgentes && |ys| == numAgentes
      requires forall i :: 0 <= i < numAgentes ==> 0 <= xs[i] < width && 0 <= ys[i] < height
      requires |draws| == width * height
      ensures |draws| == |CoordIter(width, height)|
      ensures Valid()
      ensures numAgents == numAgentes && this.porcSuciedad == porcSuciedad
      ensures grid.width == width && grid.height == height
      ensures forall i :: 0 <= i < numAgentes ==> agents[i].pos == (xs[i], ys[i])
      ensures grid.celdasSucias == InitialDirt(CoordIter(width, height), draws, porcSuciedad)
      ensures steps == 0 && movimientosTotales == 0
      ensures porcentajeLimpioSamples == [] && movimientosSamples == []
      ensures fresh(grid) && forall i :: 0 <= i < numAgentes ==> fresh(agents[i])
    {
      CoordIterLength(width, height);
      var g := new MultiGridConSuciedad(width, height, false);
      ScatterDirt(g, CoordIter(width, height), draws, porcSuciedad);
      InitialDirtInGrid(width, height, draws, porcSuciedad);
      var created := CreateAgents(xs, ys);
      this.numAgents := numAgentes;
      this.porcSuciedad := porcSuciedad;
      grid := g;
      agents := created;
      steps := 0;
      movimientosTotales := 0;
      porcentajeLimpioSamples := [];
      movimientosSamples := [];
      new;
      assert Placed();
      NothingTallied();
    }

    /** Before the first tick no agent has moved and nothing is recorded, which
        is what `Tallied` asks after zero ticks. */
    lemma NothingTallied()
      requires |agents| == numAgents
      requires forall i :: 0 <= i < numAgents ==> agents[i].movimientos == 0
      requires steps == 0 && movimientosTotales == 0
      requires porcentajeLimpioSamples == [] && movimientosSamples == []
      ensures Tallied()
    {
    }

    /** One tick, `step()`: record the pre-tick samples, let the schedule activate
        every agent once (agent `order[k]` acts `k`-th and picks with `picks[k]`),
        then add the sum of all move counters to `movimientosTotales`. */
    method Step(order: seq<nat>, picks: seq<nat>)
      requires Valid()
      requires IsPermutation(order, numAgents)
      requires |picks| == numAgents
      requires numAgents == 0 || grid.width > 1 || grid.height > 1
      modifies this, grid, agents
      ensures Valid()
      ensures steps == old(steps) + 1
      ensures porcentajeLimpioSamples == old(porcentajeLimpioSamples) + [old(CalcularPorcentajeLimpio())]
      ensures movimientosSamples == old(movimientosSamples) + [old(Counters())]
      ensures forall i :: 0 <= i < numAgents ==> agents[i].movimientos == old(agents[i].movimientos) + 1
      ensures Sum(Counters()) == old(Sum(Counters())) + numAgents
      ensures movimientosTotales == old(movimientosTotales) + Sum(Counters())
      ensures forall k :: 0 <= k < numAgents ==>
                MovedBy(grid.width, grid.height, old(Positions())[order[k]], picks[k], agents[order[k]].pos)
      ensures forall q :: q in grid.celdasSucias <==> q in old(grid.celdasSucias) && q !in old(Positions())
      ensures |grid.celdasSucias| <= old(|grid.celdasSucias|)
    {
      // datacollector.collect(self) samples the state before any agent acts
      var porcentaje := CalcularPorcentajeLimpio();
      var counters := Counters();
      var ticks, total := steps, movimientosTotales;
      var samplesLimpio, samplesMovimientos := porcentajeLimpioSamples, movimientosSamples;
      RunSchedule(order, picks);
      ghost var moved, dirt := Positions(), grid.celdasSucias;
      Record(ticks, total, samplesLimpio + [porcentaje], samplesMovimientos + [counters], counters);
      assert Positions() == moved && grid.celdasSucias == dirt;
    }

    /** The bookkeeping at the end of a tick that started after `ticks` ticks
        with total `total`, counters `before` and sample columns `samplesLimpio`,
        `samplesMovimientos` (which already hold this tick's samples): the
        schedule's tick counter advances and the sum of the counters, `before`
        plus one each, is added to the total. */
    method Record(ticks: nat, total: nat, samplesLimpio: seq<real>,
                  samplesMovimientos: seq<seq<nat>>, before: seq<nat>)
      requires TalliedAfter(before, numAgents, ticks, total)
      requires |agents| == numAgents
      requires forall i :: 0 <= i < numAgents ==> agents[i].movimientos == before[i] + 1
      requires |samplesLimpio| == ticks + 1 && |samplesMovimientos| == ticks + 1
      modifies this`steps, this`movimientosTotales, this`porcentajeLimpioSamples, this`movimientosSamples
      ensures Tallied()
      ensures steps == ticks + 1
      ensures porcentajeLimpioSamples == samplesLimpio && movimientosSamples == samplesMovimientos
      ensures movimientosTotales == total + Sum(Counters())
      ensures Sum(Counters()) == Sum(before) + numAgents
    {
      var after := Counters();
      TickTotals(before, after, numAgents, ticks, total);
      steps, movimientosTotales, porcentajeLimpioSamples, movimientosSamples :=
        ticks + 1, total + Sum(after), samplesLimpio, samplesMovimientos;
      assert Counters() == after;
    }

    /** `movimientos_totales` in closed form: after `k` ticks with `n` agents
        it is `n * k * (k + 1) / 2`. */
    lemma TotalInClosedForm()
      requires Valid()
      ensures 2 * movimientosTotales == numAgents * steps * (steps + 1)
    {
      AccumulatedMovesClosedForm(numAgents, steps);
    }

    /** The structural half of `Valid`: what the schedule needs and keeps. */
    ghost predicate Placed()
      reads grid, agents
    {
      && grid.width > 0 && grid.height > 0 && !grid.torus
      && |agents| == numAgents
      && (forall i :: 0 <= i < |agents| ==> agents[i].uniqueId == i)
      && (forall i :: 0 <= i < |agents| ==> InBounds(grid.width, grid.height, agents[i].pos))
      && grid.Valid()
      && (forall q :: q in grid.celdasSucias ==> InBounds(grid.width, grid.height, q))
    }

    /** Agent `a`'s `step`: it cleans the cell it stands on and moves to the
        neighbour its pick selects; no other agent changes. */
    method Activate(a: nat, pick: nat)
      requires Placed() && a < numAgents && (grid.width > 1 || grid.height > 1)
      modifies grid, agents[a]
      ensures Placed()
      ensures grid.celdasSucias == RemoveFirst(old(grid.celdasSucias), old(agents[a].pos))
      ensures MovedBy(grid.width, grid.height, old(agents[a].pos), pick, agents[a].pos)
      ensures agents[a].movimientos == old(agents[a].movimientos) + 1
      ensures forall i :: 0 <= i < numAgents && i != a ==>
                agents[i].pos == old(agents[i].pos) && agents[i].movimientos == old(agents[i].movimientos)
    {
      var agente := agents[a];
      NeighbourhoodEmptyIff(grid.width, grid.height, agente.pos);
      var moved := agente.Step(grid, pick);
    }

    /** The state after the first `j` activations of a tick that started with
        positions `start`, dirty list `startDirt` and counters `startCounters`:
        the agents that have acted counted one move more and moved as picked,
        the others are where they were, and the cells the acting agents started
        on are clean. */
    ghost predicate Progress(order: seq<nat>, picks: seq<nat>, j: nat, start: seq<Pos>,
                             startDirt: seq<Pos>, startCounters: seq<nat>)
      reads grid, agents
      requires IsPermutation(order, numAgents) && |picks| == numAgents && j <= numAgents
      requires |agents| == numAgents && |start| == numAgents && |startCounters| == numAgents
    {
      && (forall i :: 0 <= i < numAgents ==>
            if i in Done(order, j) then agents[i].movimientos == startCounters[i] + 1
            else agents[i].movimientos == startCounters[i] && agents[i].pos == start[i])
      && (forall k :: 0 <= k < j ==>
            MovedBy(grid.width, grid.height, start[order[k]], picks[k], agents[order[k]].pos))
      && (forall q :: q in grid.celdasSucias <==> q in startDirt && q !in Cleaned(start, order, j))
    }

    /** Activation `j`: agent `order[j]` acts, taking the tick from its state
        after `j` activations to its state after `j + 1`. */
    method ActivateNth(order: seq<nat>, picks: seq<nat>, j: nat, ghost start: seq<Pos>,
                       ghost startDirt: seq<Pos>, ghost startCounters: seq<nat>)
      requires Placed()
      requires IsPermutation(order, numAgents) && |picks| == numAgents && j < numAgents
      requires grid.width > 1 || grid.height > 1
      requires |start| == numAgents && |startCounters| == numAgents
      requires Progress(order, picks, j, start, startDirt, startCounters)
      modifies grid, agents[order[j]]
      ensures Placed()
      ensures Progress(order, picks, j + 1, start, startDirt, startCounters)
    {
      DoneFresh(order, j, j);
      ghost var before := Positions();
      Activate(order[j], picks[j]);
      forall k | 0 <= k < j + 1
        ensures MovedBy(grid.width, grid.height, start[order[k]], picks[k], agents[order[k]].pos)
      {
        if k < j {
          assert order[k] != order[j];
          assert agents[order[k]].pos == before[order[k]];
        }
      }
    }

    /** `RandomActivation.step()`: run `step` of every agent exactly once, in the
        order `order`. Each agent cleans the cell it stood on when the tick began
        and moves to the neighbour of that cell chosen by its pick. */
    method RunSchedule(order: seq<nat>, picks: seq<nat>)
      requires Placed()
      requires IsPermutation(order, numAgents)
      requires |picks| == numAgents
      requires numAgents == 0 || grid.width > 1 || grid.height > 1
      modifies grid, agents
      ensures Placed()
      ensures forall i :: 0 <= i < numAgents ==> agents[i].movimientos == old(agents[i].movimientos) + 1
      ensures forall k :: 0 <= k < numAgents ==>
                MovedBy(grid.width, grid.height, old(Positions())[order[k]], picks[k], agents[order[k]].pos)
      ensures forall q :: q in grid.celdasSucias <==> q in old(grid.celdasSucias) && q !in old(Positions())
      ensures |grid.celdasSucias| <= old(|grid.celdasSucias|)
    {
      ghost var start := Positions();
      ghost var startDirt := grid.celdasSucias;
      ghost var startCounters := Counters();
      RunActivations(order, picks, start, startDirt, startCounters);
      ScheduleComplete(order, picks, start, startDirt, startCounters);
    }

    /** The activation loop of `RandomActivation.step()`: activation `j` lets
        agent `order[j]` act, with pick `picks[j]`. */
    method RunActivations(order: seq<nat>, picks: seq<nat>, ghost start: seq<Pos>,
                          ghost startDirt: seq<Pos>, ghost startCounters: seq<nat>)
      requires Placed()
      requires IsPermutation(order, numAgents) && |picks| == numAgents
      requires numAgents == 0 || grid.width > 1 || grid.height > 1
      requires |start| == numAgents && |startCounters| == numAgents
      requires Progress(order, picks, 0, start, startDirt, startCounters)
      modifies grid, agents
      ensures Placed()
      ensures Progress(order, picks, numAgents, start, startDirt, startCounters)
    {
      var j := 0;
      while j < |order|
        invariant 0 <= j <= numAgents
        invariant Placed()
        invariant Progress(order, picks, j, start, startDirt, startCounters)
      {
        ActivateNth(order, picks, j, start, startDirt, startCounters);
        j := j + 1;
      }
    }

    /** Once every activation of the tick has run, every agent has acted: each
        counted one move, each moved from its starting cell as its pick says,
        and exactly the starting cells are clean. */
    lemma ScheduleComplete(order: seq<nat>, picks: seq<nat>, start: seq<Pos>,
                           startDirt: seq<Pos>, startCounters: seq<nat>)
      requires Placed() && NoDup(startDirt)
      requires IsPermutation(order, numAgents) && |picks| == numAgents
      requires |start| == numAgents && |startCounters| == numAgents
      requires Progress(order, picks, numAgents, start, startDirt, startCounters)
      ensures forall i :: 0 <= i < numAgents ==> agents[i].movimientos == startCounters[i] + 1
      ensures forall q :: q in grid.celdasSucias <==> q in startDirt && q !in start
      ensures |grid.celdasSucias| <= |startDirt|
    {
      DoneExactly(order, numAgents);
      CleanedExactly(start, order);
      DistinctSubsetLength(grid.celdasSucias, startDirt);
    }
  }

  /** The placement loop of the constructor: agent `i` gets id `i`, starts with
      no moves and is placed at `(xs[i], ys[i])`. */
  method CreateAgents(xs: seq<int>, ys: seq<int>) returns (created: seq<AgenteLimpieza>)
    requires |xs| == |ys|
    ensures |created| == |xs|
    ensures forall k :: 0 <= k < |xs| ==>
              && fresh(created[k]) && created[k].uniqueId == k
              && created[k].pos == (xs[k], ys[k]) && created[k].movimientos == 0
  {
    created := [];
    var i := 0;
    while i < |xs|
      invariant 0 <= i <= |xs| && |created| == i
      invariant forall k :: 0 <= k < i ==>
                  && fresh(created[k]) && created[k].uniqueId == k
                  && created[k].pos == (xs[k], ys[k]) && created[k].movimientos == 0
    {
      var agente := new AgenteLimpieza(i, (xs[i], ys[i]));
      created := created + [agente];
      i := i + 1;
    }
  }

  /** The dirt loop of the constructor: `set_cell_dirty` on every cell of
      `cells` (the cells of `coord_iter`, in order) whose draw is below
      `porcSuciedad`. */
  method ScatterDirt(g: MultiGridConSuciedad, cells: seq<Pos>, draws: seq<real>, porcSuciedad: real)
    requires |cells| == |draws|
    requires g.celdasSucias == []
    modifies g
    ensures g.celdasSucias == InitialDirt(cells, draws, porcSuciedad)
  {
    var j := 0;
    while j < |cells|
      invariant 0 <= j <= |cells|
      invariant g.celdasSucias == InitialDirt(cells[..j], draws[..j], porcSuciedad)
    {
      var (x, y) := cells[j];
      if draws[j] < porcSuciedad {
        g.SetCellDirty((x, y));
      }
      assert cells[..j + 1][..j] == cells[..j] && draws[..j + 1][..j] == draws[..j];
      j := j + 1;
    }
    assert cells[..j] == cells && draws[..j] == draws;
  }

  /** The dirty list that construction leaves is duplicate-free and lies inside
      the grid. */
  lemma InitialDirtInGrid(width: nat, height: nat, draws: seq<real>, porcSuciedad: real)
    requires |draws| == |CoordIter(width, height)|
    ensures NoDup(InitialDirt(CoordIter(width, height), draws, porcSuciedad))
    ensures forall q :: q in InitialDirt(CoordIter(width, height), draws, porcSuciedad) ==>
              InBounds(width, height, q)
  {
    InitialDirtNoDup(CoordIter(width, height), draws, porcSuciedad);
    InitialDirtWithin(CoordIter(width, height), draws, porcSuciedad);
  }

  /** After construction cell (x, y) is dirty exactly when its own draw, the
      `x * height + y`-th, is below `porcSuciedad`. */
  lemma InitialDirtAtCell(width: nat, height: nat, draws: seq<real>, porcSuciedad: real, x: int, y: int)
    requires |draws| == |CoordIter(width, height)|
    requires InBounds(width, height, (x, y))
    ensures x * height + y < |draws|
    ensures ((x, y) in InitialDirt(CoordIter(width, height), draws, porcSuciedad)
             <==> draws[x * height + y] < porcSuciedad)
  {
    var cells := CoordIter(width, height);
    var k := x * height + y;
    CoordIterAt(width, height, x, y);
    InitialDirtIffAt(cells, draws, porcSuciedad, k);
  }
}
