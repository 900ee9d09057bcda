/**
 * Known patterns under the generation rule: the 2x2 block is a still life and the
 * three-cell blinker flips between its horizontal and vertical forms.
 */
module Patterns {
  import opened Cells
  import opened LifeSpec
  import opened SparseGrid
  import opened Automaton

  const Block: set<Cell> := {(0, 0), (0, 1), (1, 0), (1, 1)}
  const BlinkerH: set<Cell> := {(0, 0), (1, 0), (2, 0)}
  const BlinkerV: set<Cell> := {(1, -1), (1, 0), (1, 1)}

  function B(p: bool): nat
  {
    if p then 1 else 0
  }

  lemma CountInFirst(s: seq<Cell>, f: set<Cell>)
    requires s != []
    ensures CountIn(s, f) == B(s[0] in f) + CountIn(s[1..], f)
  {
  }

  /** The live-neighbour count written out as the eight membership tests. */
  lemma NCountExpanded(f: set<Cell>, c: Cell)
    ensures NCount(f, c) ==
      B((c.0 - 1, c.1 - 1) in f) + B((c.0 - 1, c.1) in f) + B((c.0 - 1, c.1 + 1) in f) +
      B((c.0, c.1 - 1) in f) + B((c.0, c.1 + 1) in f) +
      B((c.0 + 1, c.1 - 1) in f) + B((c.0 + 1, c.1) in f) + B((c.0 + 1, c.1 + 1) in f)
  {
    var s := Neighbours(c);
    var t1 := s[1..]; CountInFirst(s, f);
    var t2 := t1[1..]; CountInFirst(t1, f);
    var t3 := t2[1..]; CountInFirst(t2, f);
    var t4 := t3[1..]; CountInFirst(t3, f);
    var t5 := t4[1..]; CountInFirst(t4, f);
    var t6 := t5[1..]; CountInFirst(t5, f);
    var t7 := t6[1..]; CountInFirst(t6, f);
    CountInFirst(t7, f);
    assert t7[1..] == [];
  }

  /** A dead cell with no live cell around it stays dead. */
  lemma Isolated(h: set<Cell>, c: Cell)
    requires c !in h
    requires forall d :: d in h ==> !Adjacent(c, d)
    ensures !LivesNext(h, c)
  {
    NCountZero(h, c);
  }

  /** Cells around the block, row y = -1. */
  lemma BlockRowMinus1(h: set<Cell>, x: int)
    requires h == {(0, 0), (0, 1), (1, 0), (1, 1)}
    requires -1 <= x <= 2
    ensures LivesNext(h, (x, -1)) <==> (x, -1) in {(0, 0), (0, 1), (1, 0), (1, 1)}
  {
    NCountExpanded(h, (x, -1));
    if x == -1 {} else if x == 0 {} else if x == 1 {} else {}
  }

  /** Cells around the block, row y = 0. */
  lemma BlockRow0(h: set<Cell>, x: int)
    requires h == {(0, 0), (0, 1), (1, 0), (1, 1)}
    requires -1 <= x <= 2
    ensures LivesNext(h, (x, 0)) <==> (x, 0) in {(0, 0), (0, 1), (1, 0), (1, 1)}
  {
    NCountExpanded(h, (x, 0));
    if x == -1 {} else if x == 0 {} else if x == 1 {} else {}
  }

  /** Cells around the block, row y = 1. */
  lemma BlockRow1(h: set<Cell>, x: int)
    requires h == {(0, 0), (0, 1), (1, 0), (1, 1)}
    requires -1 <= x <= 2
    ensures LivesNext(h, (x, 1)) <==> (x, 1) in {(0, 0), (0, 1), (1, 0), (1, 1)}
  {
    NCountExpanded(h, (x, 1));
    if x == -1 {} else if x == 0 {} else if x == 1 {} else {}
  }

  /** Cells around the block, row y = 2. */
  lemma BlockRow2(h: set<Cell>, x: int)
    requires h == {(0, 0), (0, 1), (1, 0), (1, 1)}
    requires -1 <= x <= 2
    ensures LivesNext(h, (x, 2)) <==> (x, 2) in {(0, 0), (0, 1), (1, 0), (1, 1)}
  {
    NCountExpanded(h, (x, 2));
    if x == -1 {} else if x == 0 {} else if x == 1 {} else {}
  }

  /** Cells around the horizontal blinker, row y = -1. */
  lemma BlinkerHRowMinus1(h: set<Cell>, x: int)
    requires h == {(0, 0), (1, 0), (2, 0)}
    requires -1 <= x <= 3
    ensures LivesNext(h, (x, -1)) <==> (x, -1) in {(1, -1), (1, 0), (1, 1)}
  {
    NCountExpanded(h, (x, -1));
    if x == -1 {} else if x == 0 {} else if x == 1 {} else if x == 2 {} else {}
  }

  /** Cells around the horizontal blinker, row y = 0. */
  lemma BlinkerHRow0(h: set<Cell>, x: int)
    requires h == {(0, 0), (1, 0), (2, 0)}
    requires -1 <= x <= 3
    ensures LivesNext(h, (x, 0)) <==> (x, 0) in {(1, -1), (1, 0), (1, 1)}
  {
    NCountExpanded(h, (x, 0));
    if x == -1 {} else if x == 0 {} else if x == 1 {} else if x == 2 {} else {}
  }

  /** Cells around the horizontal blinker, row y = 1. */
  lemma BlinkerHRow1(h: set<Cell>, x: int)
    requires h == {(0, 0), (1, 0), (2, 0)}
    requires -1 <= x <= 3
    ensures LivesNext(h, (x, 1)) <==> (x, 1) in {(1, -1), (1, 0), (1, 1)}
  {
    NCountExpanded(h, (x, 1));
    if x == -1 {} else if x == 0 {} else if x == 1 {} else if x == 2 {} else {}
  }

  /** Cells around the vertical blinker, row y = -2. */
  lemma BlinkerVRowMinus2(h: set<Cell>, x: int)
    requires h == {(1, -1), (1, 0), (1, 1)}
    requires 0 <= x <= 2
    ensures LivesNext(h, (x, -2)) <==> (x, -2) in {(0, 0), (1, 0), (2, 0)}
  {
    NCountExpanded(h, (x, -2));
    if x == 0 {} else if x == 1 {} else {}
  }

  /** Cells around the vertical blinker, row y = -1. */
  lemma BlinkerVRowMinus1(h: set<Cell>, x: int)
    requires h == {(1, -1), (1, 0), (1, 1)}
    requires 0 <= x <= 2
    ensures LivesNext(h, (x, -1)) <==> (x, -1) in {(0, 0), (1, 0), (2, 0)}
  {
    NCountExpanded(h, (x, -1));
    if x == 0 {} else if x == 1 {} else {}
  }

  /** Cells around the vertical blinker, row y = 0. */
  lemma BlinkerVRow0(h: set<Cell>, x: int)
    requires h == {(1, -1), (1, 0), (1, 1)}
    requires 0 <= x <= 2
    ensures LivesNext(h, (x, 0)) <==> (x, 0) in {(0, 0), (1, 0), (2, 0)}
  {
    NCountExpanded(h, (x, 0));
    if x == 0 {} else if x == 1 {} else {}
  }

  /** Cells around the vertical blinker, row y = 1. */
  lemma BlinkerVRow1(h: set<Cell>, x: int)
    requires h == {(1, -1), (1, 0), (1, 1)}
    requires 0 <= x <= 2
    ensures LivesNext(h, (x, 1)) <==> (x, 1) in {(0, 0), (1, 0), (2, 0)}
  {
    NCountExpanded(h, (x, 1));
    if x == 0 {} else if x == 1 {} else {}
  }

  /** Cells around the vertical blinker, row y = 2. */
  lemma BlinkerVRow2(h: set<Cell>, x: int)
    requires h == {(1, -1), (1, 0), (1, 1)}
    requires 0 <= x <= 2
    ensures LivesNext(h, (x, 2)) <==> (x, 2) in {(0, 0), (1, 0), (2, 0)}
  {
    NCountExpanded(h, (x, 2));
    if x == 0 {} else if x == 1 {} else {}
  }

  /** The block is a still life: after one generation exactly the same cells are live. */
  lemma BlockStillLife()
    ensures forall c :: LivesNext(Block, c) <==> c in Block
  {
    forall c ensures LivesNext(Block, c) <==> c in Block {
      var (x, y) := c;
      if -1 <= x <= 2 && y == -1 {
        BlockRowMinus1(Block, x);
      } else if -1 <= x <= 2 && y == 0 {
        BlockRow0(Block, x);
      } else if -1 <= x <= 2 && y == 1 {
        BlockRow1(Block, x);
      } else if -1 <= x <= 2 && y == 2 {
        BlockRow2(Block, x);
      } else {
        Isolated(Block, c);
      }
    }
  }

  /** The horizontal blinker becomes the vertical one. */
  lemma BlinkerHorizontalStep()
    ensures forall c :: LivesNext(BlinkerH, c) <==> c in BlinkerV
  {
    forall c ensures LivesNext(BlinkerH, c) <==> c in BlinkerV {
      var (x, y) := c;
      if -1 <= x <= 3 && y == -1 {
        BlinkerHRowMinus1(BlinkerH, x);
      } else if -1 <= x <= 3 && y == 0 {
        BlinkerHRow0(BlinkerH, x);
      } else if -1 <= x <= 3 && y == 1 {
        BlinkerHRow1(BlinkerH, x);
      } else {
        Isolated(BlinkerH, c);
      }
    }
  }

  /** The vertical blinker becomes the horizontal one. */
  lemma BlinkerVerticalStep()
    ensures forall c :: LivesNext(BlinkerV, c) <==> c in BlinkerH
  {
    forall c ensures LivesNext(BlinkerV, c) <==> c in BlinkerH {
      var (x, y) := c;
      if 0 <= x <= 2 && y == -2 {
        BlinkerVRowMinus2(BlinkerV, x);
      } else if 0 <= x <= 2 && y == -1 {
        BlinkerVRowMinus1(BlinkerV, x);
      } else if 0 <= x <= 2 && y == 0 {
        BlinkerVRow0(BlinkerV, x);
      } else if 0 <= x <= 2 && y == 1 {
        BlinkerVRow1(BlinkerV, x);
      } else if 0 <= x <= 2 && y == 2 {
        BlinkerVRow2(BlinkerV, x);
      } else {
        Isolated(BlinkerV, c);
      }
    }
  }

  /** Whatever set follows the horizontal blinker under the rule is the vertical blinker, and back. */
  lemma BlinkerNext(f: set<Cell>, g: set<Cell>)
    requires forall c :: c in g <==> LivesNext(f, c)
    ensures f == BlinkerH ==> g == BlinkerV
    ensures f == BlinkerV ==> g == BlinkerH
  {
    if f == BlinkerH {
      BlinkerHorizontalStep();
    } else if f == BlinkerV {
      BlinkerVerticalStep();
    }
  }

  /** Whatever set follows the block under the rule is the block again. */
  lemma BlockNext(f: set<Cell>, g: set<Cell>)
    requires forall c :: c in g <==> LivesNext(f, c)
    requires f == Block
    ensures g == Block
  {
    BlockStillLife();
  }

  /** Toggling the block into an empty automaton and stepping once leaves it in place. */
  method BlockScenario()
  {
    var a := new CellularAutomaton();
    a.Pressed(0, 0);
    assert a.grid.field == {(0, 0)};
    a.Pressed(0, 1);
    assert a.grid.field == {(0, 0), (0, 1)};
    a.Pressed(1, 0);
    assert a.grid.field == {(0, 0), (0, 1), (1, 0)};
    a.Pressed(1, 1);
    assert a.grid.field == Block;
    ghost var before := a.grid.field;
    a.Update();
    BlockNext(before, a.grid.field);
    assert a.grid.field == Block;
  }

  /** Toggling the horizontal blinker into an empty automaton and stepping twice returns it. */
  method BlinkerScenario()
  {
    var a := new CellularAutomaton();
    a.Pressed(0, 0);
    assert a.grid.field == {(0, 0)};
    a.Pressed(1, 0);
    assert a.grid.field == {(0, 0), (1, 0)};
    a.Pressed(2, 0);
    assert a.grid.field == BlinkerH;
    ghost var before := a.grid.field;
    a.Update();
    BlinkerNext(before, a.grid.field);
    assert a.grid.field == BlinkerV;
    before := a.grid.field;
    a.Update();
    BlinkerNext(before, a.grid.field);
    assert a.grid.field == BlinkerH;
  }
}
