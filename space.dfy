/** The geometry of Mesa's bounded grid (`torus=False`) that the simulation uses:
    coordinates, the Moore neighbourhood without its centre, and the order in
    which `coord_iter` visits the cells. */
module Space {
  import opened Lists

  /** A cell coordinate (x, y). */
  type Pos = (int, int)

  predicate InBounds(width: int, height: int, p: Pos)
  {
    0 <= p.0 < width && 0 <= p.1 < height
  }

  function Abs(n: int): nat
  {
    if n < 0 then -n else n
  }

  /** King-move distance: the larger of the two coordinate differences. */
  function Chebyshev(p: Pos, q: Pos): nat
  {
    var dx, dy := Abs(p.0 - q.0), Abs(p.1 - q.1);
    if dx < dy then dy else dx
  }

  /** Strict lexicographic order on coordinates (Python's tuple order). */
  predicate LexLess(p: Pos, q: Pos)
  {
    p.0 < q.0 || (p.0 == q.0 && p.1 < q.1)
  }

  predicate LexSorted(s: seq<Pos>)
  {
    forall i, j :: 0 <= i < j < |s| ==> LexLess(s[i], s[j])
  }

  function Shift(p: Pos, d: Pos): Pos
  {
    (p.0 + d.0, p.1 + d.1)
  }

  /** The eight offsets of the Moore neighbourhood, centre excluded, in
      lexicographic order. */
  const MooreOffsets: seq<Pos> :=
    [(-1, -1), (-1, 0), (-1, 1), (0, -1), (0, 1), (1, -1), (1, 0), (1, 1)]

  /** The cells `p + d` for the offsets `d` in order, skipping those that fall
      outside the grid (what a non-toroidal grid does with them). */
  function ShiftsInBounds(width: int, height: int, p: Pos, offsets: seq<Pos>): (r: seq<Pos>)
    ensures |r| <= |offsets|
  {
    if offsets == [] then []
    else
      var rest := ShiftsInBounds(width, height, p, offsets[1..]);
      var q := Shift(p, offsets[0]);
      if InBounds(width, height, q) then [q] + rest else rest
  }

  /** `ShiftsInBounds` keeps exactly the in-bounds shifts, and when the offsets
      are sorted, so is the result. */
  lemma {:induction false} ShiftsInBoundsSpec(width: int, height: int, p: Pos, offsets: seq<Pos>)
    ensures forall q :: q in ShiftsInBounds(width, height, p, offsets) ==> InBounds(width, height, q)
    ensures forall q :: q in ShiftsInBounds(width, height, p, offsets) ==>
              exists d :: d in offsets && q == Shift(p, d)
    ensures forall d :: d in offsets && InBounds(width, height, Shift(p, d)) ==>
              Shift(p, d) in ShiftsInBounds(width, height, p, offsets)
    ensures LexSorted(offsets) ==> LexSorted(ShiftsInBounds(width, height, p, offsets))
  {
    if offsets != [] {
      var rest := ShiftsInBounds(width, height, p, offsets[1..]);
      ShiftsInBoundsSpec(width, height, p, offsets[1..]);
      var q := Shift(p, offsets[0]);
      assert forall d :: d in offsets[1..] ==> d in offsets;
      if LexSorted(offsets) {
        forall k | 0 <= k < |rest| ensures LexLess(q, rest[k]) {
          assert rest[k] in rest;
          var d :| d in offsets[1..] && rest[k] == Shift(p, d);
          var m :| 0 <= m < |offsets[1..]| && offsets[1..][m] == d;
          assert LexLess(offsets[0], offsets[m + 1]);
        }
        assert LexSorted(offsets[1..]) by {
          forall i, j | 0 <= i < j < |offsets[1..]| ensures LexLess(offsets[1..][i], offsets[1..][j]) {
            assert LexLess(offsets[i + 1], offsets[j + 1]);
          }
        }
      }
    }
  }

  /** Mesa's `get_neighborhood(p, moore=True, include_center=False)` on a grid
      built with `torus=False`: the in-bounds shifts of `p` by the eight Moore
      offsets, in sorted order. */
  function Neighbourhood(width: int, height: int, p: Pos): (r: seq<Pos>)
    ensures |r| <= 8
  {
    ShiftsInBounds(width, height, p, MooreOffsets)
  }

  /** The neighbourhood is sorted and holds exactly the in-bounds cells at
      king-move distance one, each once. */
  lemma NeighbourhoodSpec(width: int, height: int, p: Pos)
    ensures LexSorted(Neighbourhood(width, height, p))
    ensures NoDup(Neighbourhood(width, height, p))
    ensures forall q :: q in Neighbourhood(width, height, p) <==>
              InBounds(width, height, q) && Chebyshev(p, q) == 1
  {
    MooreOffsetsSorted();
    var r := Neighbourhood(width, height, p);
    ShiftsInBoundsSpec(width, height, p, MooreOffsets);
    forall q ensures q in r <==> InBounds(width, height, q) && Chebyshev(p, q) == 1 {
      var d := (q.0 - p.0, q.1 - p.1);
      assert q == Shift(p, d);
      MooreOffsetsExact(d);
      if q in r {
        var d' :| d' in MooreOffsets && q == Shift(p, d');
        assert d' == d;
      }
    }
    SortedNoDup(r);
  }

  lemma MooreOffsetsSorted()
    ensures LexSorted(MooreOffsets)
  {
  }

  /** The offsets are exactly the non-zero ones with both components in -1..1. */
  lemma MooreOffsetsExact(d: Pos)
    ensures d in MooreOffsets <==> Abs(d.0) <= 1 && Abs(d.1) <= 1 && d != (0, 0)
  {
  }

  /** A sorted list has no duplicates. */
  lemma SortedNoDup(s: seq<Pos>)
    requires LexSorted(s)
    ensures NoDup(s)
  {
  }

  /** On a bounded grid an in-bounds cell has a neighbour exactly when the grid
      has more than one cell; a 1x1 grid leaves `random.choice` nothing to pick. */
  lemma NeighbourhoodEmptyIff(width: int, height: int, p: Pos)
    requires InBounds(width, height, p)
    ensures |Neighbourhood(width, height, p)| == 0 <==> width == 1 && height == 1
  {
    if width > 1 || height > 1 {
      NeighbourhoodNotEmpty(width, height, p);
    } else {
      assert p == (0, 0);
      assert Neighbourhood(1, 1, (0, 0)) == [];
    }
  }

  /** On a grid of more than one cell some neighbour is in bounds. */
  lemma NeighbourhoodNotEmpty(width: int, height: int, p: Pos)
    requires InBounds(width, height, p) && (width > 1 || height > 1)
    ensures |Neighbourhood(width, height, p)| > 0
  {
    NeighbourhoodSpec(width, height, p);
    var q := if width == 1 then (p.0, if p.1 + 1 < height then p.1 + 1 else p.1 - 1)
             else (if p.0 + 1 < width then p.0 + 1 else p.0 - 1, p.1);
    assert Chebyshev(p, q) == 1;
    assert q in Neighbourhood(width, height, p);
  }

  /** One column of `coord_iter`: the cells (x, 0), ..., (x, height-1). */
  function Column(x: int, height: nat): (r: seq<Pos>)
    ensures |r| == height
    ensures forall y :: 0 <= y < height ==> r[y] == (x, y)
  {
    seq(height, y => (x, y))
  }

  /** The cells in the order Mesa's `coord_iter` yields them: x in the outer
      loop, y in the inner one. */
  function CoordIter(width: nat, height: nat): (r: seq<Pos>)
    ensures forall q :: q in r <==> InBounds(width, height, q)
    ensures NoDup(r)
  {
    if width == 0 then []
    else
      var prev := CoordIter(width - 1, height);
      var col := Column(width - 1, height);
      forall q | InBounds(width, height, q) ensures q in prev + col {
        if q.0 == width - 1 {
          assert col[q.1] == q;
        } else {
          assert q in prev;
        }
      }
      assert NoDup(prev + col) by {
        forall i, j | 0 <= i < j < |prev + col| ensures (prev + col)[i] != (prev + col)[j] {
          if j >= |prev| && i < |prev| {
            assert prev[i] in prev;
          }
        }
      }
      prev + col
  }

  /** `coord_iter` visits `width * height` cells. */
  lemma {:induction false} CoordIterLength(width: nat, height: nat)
    ensures |CoordIter(width, height)| == width * height
  {
    if width > 0 {
      CoordIterLength(width - 1, height);
      assert (width - 1) * height + height == width * height;
    }
  }

  /** Cell (x, y) is the `x * height + y`-th cell that `coord_iter` visits, so its
      dirt draw is the one at that index. */
  lemma {:induction false} CoordIterAt(width: nat, height: nat, x: int, y: int)
    requires InBounds(width, height, (x, y))
    ensures x * height + y < |CoordIter(width, height)|
    ensures CoordIter(width, height)[x * height + y] == (x, y)
  {
    CoordIterLength(width - 1, height);
    var prev := CoordIter(width - 1, height);
    assert CoordIter(width, height) == prev + Column(width - 1, height);
    if x == width - 1 {
      assert x * height + y == |prev| + y;
    } else {
      CoordIterAt(width - 1, height, x, y);
    }
  }

  /** A duplicate-free list of in-bounds cells has at most `width * height` entries. */
  lemma CellCountBound(width: nat, height: nat, s: seq<Pos>)
    requires NoDup(s)
    requires forall q :: q in s ==> InBounds(width, height, q)
    ensures |s| <= width * height
  {
    CoordIterLength(width, height);
    DistinctSubsetLength(s, CoordIter(width, height));
  }
}
