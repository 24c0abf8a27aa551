/** The dirt store: Mesa's bounded multi-grid extended with a list of dirty
    cells (`MultiGridConSuciedad`). Only its dimensions and its dirty list are
    modelled; the occupancy bookkeeping of the Mesa base class is not. */
module Grid {
  import opened Lists
  import opened Space

  /** `set_cell_dirty` on the dirty list: append `p` unless it is already there. */
  function MarkDirty(s: seq<Pos>, p: Pos): (r: seq<Pos>)
    ensures p in r
    ensures forall q :: q != p ==> (q in r <==> q in s)
    ensures p in s ==> r == s
    ensures |s| <= |r| <= |s| + 1 && r[..|s|] == s
    ensures NoDup(s) ==> NoDup(r)
  {
    if p !in s then s + [p] else s
  }

  class MultiGridConSuciedad {
    const width: int
    const height: int
    const torus: bool
    /** `celdas_sucias`: the dirty cells, a Python list used as a set. */
    var celdasSucias: seq<Pos>

    /** The list never holds a cell twice. */
    ghost predicate Valid()
      reads this
    {
      NoDup(celdasSucias)
    }

    constructor (width: int, height: int, torus: bool)
      ensures this.width == width && this.height == height && this.torus == torus
      ensures celdasSucias == []
      ensures Valid()
    {
      this.width := width;
      this.height := height;
      this.torus := torus;
      celdasSucias := [];
    }

    /** `is_cell_dirty`: a membership test on the dirty list. The mutators'
        contracts below are stated in terms of it. */
    function IsCellDirty(p: Pos): bool
      reads this
    {
      p in celdasSucias
    }

    /** `set_cell_dirty`: afterwards `p` is dirty, every other cell is as it was,
        and a cell that was already dirty leaves the list unchanged. */
    method SetCellDirty(p: Pos)
      modifies this
      ensures celdasSucias == MarkDirty(old(celdasSucias), p)
      ensures IsCellDirty(p)
      ensures forall q :: q != p ==> (IsCellDirty(q) <==> q in old(celdasSucias))
      ensures old(IsCellDirty(p)) ==> celdasSucias == old(celdasSucias)
      ensures old(Valid()) ==> Valid()
    {
      if p !in celdasSucias {
        celdasSucias := celdasSucias + [p];
      }
    }

    /** `clean_cell`: drops `p` from the list when it is there (Python's
        `list.remove`, which keeps the order of the rest); afterwards `p` is
        clean as long as the list had no duplicates, every other cell is as it
        was, and a clean cell leaves the list unchanged. */
    method CleanCell(p: Pos)
      modifies this
      ensures celdasSucias == RemoveFirst(old(celdasSucias), p)
      ensures old(Valid()) ==> Valid() && !IsCellDirty(p)
      ensures forall q :: q != p ==> (IsCellDirty(q) <==> q in old(celdasSucias))
      ensures !old(IsCellDirty(p)) ==> celdasSucias == old(celdasSucias)
      ensures old(IsCellDirty(p)) ==> |celdasSucias| == old(|celdasSucias|) - 1
    {
      if p in celdasSucias {
        celdasSucias := RemoveFirst(celdasSucias, p);
      }
    }
  }
}
