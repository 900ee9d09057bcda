/** The sparse grid object: live set, count index and the two pending buffers, updated in place. */
module SparseGrid {
  import opened Cells
  import opened CountMap
  import opened LifeSpec

  class Grid {
    /** The live cells. */
    var field: set<Cell>
    /** Cell to number of live neighbours; a missing key means zero. */
    var counts: Counts
    /** Cells queued to become live at the next application of the buffers. */
    var toSet: seq<Cell>
    /** Cells queued to become dead at the next application of the buffers. */
    var toReset: seq<Cell>

    /** The live set and count index as a value. */
    function State(): Board
      reads this
    {
      Board(field, counts)
    }

    /** The count index agrees with the live set. */
    ghost predicate Valid()
      reads this
    {
      Consistent(State())
    }

    constructor ()
      ensures field == {} && counts == map[]
      ensures toSet == [] && toReset == []
      ensures Valid()
    {
      field := {};
      counts := map[];
      toSet := [];
      toReset := [];
      EmptyConsistent();
    }

    /** Add one to the count of c, a missing key counting as zero. */
    method Increase(c: Cell)
      modifies this`counts
      ensures counts == Inc(old(counts), c)
    {
      var n := if c in counts then counts[c] else 0;
      counts := counts[c := n + 1];
    }

    /** Subtract one from the count of c, dropping the key instead of storing zero. */
    method Decrease(c: Cell)
      modifies this`counts
      ensures counts == Dec(old(counts), c)
    {
      var n := (if c in counts then counts[c] else 0) - 1;
      if n != 0 {
        counts := counts[c := n];
      } else {
        counts := counts - {c};
      }
    }

    /**
     * Make c live: increase each neighbour's count, then add c to the live set.
     * Nothing stops a call on a live cell, which counts c a second time.
     */
    method Set(c: Cell)
      modifies this`field, this`counts
      ensures State() == SetCell(old(State()), c)
      ensures old(Valid()) ==> (Valid() <==> c !in old(field))
    {
      ghost var b := State();
      var ns := Neighbours(c);
      for i := 0 to |ns|
        invariant field == b.field
        invariant IncAll(counts, ns[i..]) == IncAll(b.counts, ns)
      {
        IncAllStep(counts, ns, i);
        Increase(ns[i]);
      }
      field := field + {c};
      assert State() == SetCell(b, c);
      SetCellKeeps(b, c);
    }

    /**
     * Make c dead: decrease each neighbour's count, then remove c from the live set.
     * When c is not live the removal fails (ok is false) after the counts were already
     * decreased, and the live set is left as it was.
     */
    method Reset(c: Cell) returns (ok: bool)
      modifies this`field, this`counts
      ensures ok <==> c in old(field)
      ensures State() == ResetCell(old(State()), c)
      ensures old(Valid()) ==> (Valid() <==> ok)
    {
      ghost var b := State();
      var ns := Neighbours(c);
      for i := 0 to |ns|
        invariant field == b.field
        invariant DecAll(counts, ns[i..]) == DecAll(b.counts, ns)
      {
        DecAllStep(counts, ns, i);
        Decrease(ns[i]);
      }
      ok := c in field;
      if ok {
        field := field - {c};
      }
      assert State() == ResetCell(b, c);
      ResetCellKeeps(b, c);
    }

    /**
     * Reset every queued cell in order, then set every queued cell in order, then empty
     * both buffers. A failing reset ends the call at once (ok is false): the remaining
     * resets and all sets are skipped and both buffers are kept.
     */
    method ApplyBuffers() returns (ok: bool)
      modifies this
      ensures ok == ResetSeq(old(State()), old(toReset)).Completed?
      ensures ok ==> State() == SetSeq(ResetSeq(old(State()), old(toReset)).board, old(toSet))
      ensures ok ==> toSet == [] && toReset == []
      ensures !ok ==> State() == ResetSeq(old(State()), old(toReset)).board
      ensures !ok ==> toSet == old(toSet) && toReset == old(toReset)
    {
      ghost var b := State();
      ok := true;
      for i := 0 to |toReset|
        invariant toSet == old(toSet) && toReset == old(toReset)
        invariant ResetSeq(State(), toReset[i..]) == ResetSeq(b, toReset)
      {
        assert toReset[i..][1..] == toReset[i + 1..];
        ok := Reset(toReset[i]);
        if !ok {
          return;
        }
      }
      ghost var mid := State();
      for i := 0 to |toSet|
        invariant toSet == old(toSet) && toReset == old(toReset)
        invariant SetSeq(State(), toSet[i..]) == SetSeq(mid, toSet)
      {
        assert toSet[i..][1..] == toSet[i + 1..];
        Set(toSet[i]);
      }
      toSet := [];
      toReset := [];
    }
  }
}
