/** The cellular automaton: one Game of Life generation over the sparse grid, and the single-cell toggle. */
module Automaton {
  import opened Cells
  import opened CountMap
  import opened LifeSpec
  import opened SparseGrid

  class CellularAutomaton {
    var grid: Grid

    /** Between calls the grid's index is consistent and both buffers are empty. */
    ghost predicate Valid()
      reads this, grid
    {
      grid.Valid() && grid.toSet == [] && grid.toReset == []
    }

    constructor ()
      ensures Valid() && fresh(grid)
      ensures grid.field == {}
    {
      grid := new Grid();
    }

    /**
     * One generation under the standard rules: queue every live cell whose count is not
     * 2 or 3 for removal and every dead key of the index whose count is 3 for birth,
     * both decided against the same snapshot, then apply the two queues as one batch.
     */
    method Update()
      requires Valid()
      modifies grid
      ensures Valid()
      ensures grid.field == NextField(old(grid.State()))
      ensures forall c :: c in grid.field <==> LivesNext(old(grid.field), c)
    {
      var g := grid;
      ghost var b := g.State();

      var live := g.field;
      ghost var seen: set<Cell> := {};
      while live != {}
        invariant g.State() == b && g.toSet == []
        invariant live + seen == b.field && live !! seen
        invariant Distinct(g.toReset)
        invariant forall x :: x in g.toReset <==> x in seen && Dies(b, x)
        decreases live
      {
        var c :| c in live;
        var n := Get(g.counts, c);
        if n == 0 || n < 2 || n > 3 {
          DistinctAppend(g.toReset, c);
          g.toReset := g.toReset + [c];
        }
        live := live - {c};
        seen := seen + {c};
      }

      var keys := g.counts.Keys;
      ghost var seenKeys: set<Cell> := {};
      while keys != {}
        invariant g.State() == b
        invariant forall x :: x in g.toReset <==> x in b.field && Dies(b, x)
        invariant Distinct(g.toReset)
        invariant keys + seenKeys == b.counts.Keys && keys !! seenKeys
        invariant Distinct(g.toSet)
        invariant forall x :: x in g.toSet <==> x in seenKeys && Born(b, x)
        decreases keys
      {
        var c :| c in keys;
        if Get(g.counts, c) == 3 && c !in g.field {
          DistinctAppend(g.toSet, c);
          g.toSet := g.toSet + [c];
        }
        keys := keys - {c};
        seenKeys := seenKeys + {c};
      }

      GenerationBatch(b, g.toReset, g.toSet);
      var ok := g.ApplyBuffers();
      assert ok;
      forall c ensures c in g.field <==> LivesNext(b.field, c) {
        ConwayRule(b, c);
      }
    }

    /**
     * The toggle of a clicked cell, already converted to grid coordinates: a live cell
     * is reset, a dead one is set.
     */
    method Pressed(px: int, py: int)
      requires Valid()
      modifies grid
      ensures Valid()
      ensures grid.State() == Toggle(old(grid.State()), (px, py))
      ensures (px, py) in grid.field <==> (px, py) !in old(grid.field)
      ensures forall d :: d != (px, py) ==> (d in grid.field <==> d in old(grid.field))
    {
      var c := (px, py);
      ToggleFlips(grid.State(), c);
      if c in grid.field {
        var ok := grid.Reset(c);
      } else {
        grid.Set(c);
      }
    }
  }
}
