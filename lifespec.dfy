/**
 * The sparse grid as a value: the live set, the derived neighbour-count index,
 * the point mutations and batched application over it, and one Conway generation.
 */
module LifeSpec {
  import opened Cells
  import opened CountMap

  /** The grid's live cells together with its neighbour-count dictionary. */
  datatype Board = Board(field: set<Cell>, counts: Counts)

  /** What a run of resets left behind: all of them ran, or the reset of a dead cell raised. */
  datatype Outcome = Completed(board: Board) | Raised(board: Board)

  /**
   * The count index agrees with the live set: every cell reads its number of live
   * neighbours (absent meaning zero) and only positive counts are stored.
   */
  ghost predicate Consistent(b: Board)
  {
    && Positive(b.counts)
    && forall c :: Get(b.counts, c) == NCount(b.field, c)
  }

  /** The empty grid is consistent. */
  lemma EmptyConsistent()
    ensures Consistent(Board({}, map[]))
  {
    forall c ensures Get(map[], c) == NCount({}, c) {
      NCountZero({}, c);
    }
  }

  /** Under consistency the count index is determined by the live set alone. */
  lemma ConsistentUnique(f: set<Cell>, m1: Counts, m2: Counts)
    requires Consistent(Board(f, m1)) && Consistent(Board(f, m2))
    ensures m1 == m2
  {
    forall k ensures k in m1 <==> k in m2 {
      assert Get(m1, k) == NCount(f, k) == Get(m2, k);
    }
    assert m1.Keys == m2.Keys;
    forall k | k in m1 ensures m1[k] == m2[k] {
      assert Get(m1, k) == NCount(f, k) == Get(m2, k);
    }
  }

  /** Make c live: raise each neighbour's count, then add c (adding a live cell again changes nothing in the set). */
  function SetCell(b: Board, c: Cell): Board
  {
    Board(b.field + {c}, IncAll(b.counts, Neighbours(c)))
  }

  /** Make c dead: lower each neighbour's count, then take c out of the set. */
  function ResetCell(b: Board, c: Cell): Board
  {
    Board(b.field - {c}, DecAll(b.counts, Neighbours(c)))
  }

  /** Setting a dead cell moves each cell's stored count exactly as its live-neighbour count moves. */
  lemma SetCellAt(b: Board, c: Cell, d: Cell)
    requires c !in b.field
    requires Get(b.counts, d) == NCount(b.field, d)
    ensures Get(SetCell(b, c).counts, d) == NCount(SetCell(b, c).field, d)
  {
    IncAllAt(b.counts, Neighbours(c), d);
    NCountInsert(b.field, c, d);
    NeighbourOccurrences(c, d);
    NeighboursSymmetric(c, d);
  }

  /** Resetting a live cell moves each cell's stored count exactly as its live-neighbour count moves. */
  lemma ResetCellAt(b: Board, c: Cell, d: Cell)
    requires c in b.field
    requires Get(b.counts, d) == NCount(b.field, d)
    ensures Get(ResetCell(b, c).counts, d) == NCount(ResetCell(b, c).field, d)
  {
    DecAllAt(b.counts, Neighbours(c), d);
    NCountRemove(b.field, c, d);
    NeighbourOccurrences(c, d);
    NeighboursComplete(c, d);
    NeighboursComplete(d, c);
  }

  /** Setting keeps the index consistent exactly when the cell was dead; on a live cell it double-counts. */
  lemma SetCellConsistent(b: Board, c: Cell)
    requires Consistent(b)
    ensures Consistent(SetCell(b, c)) <==> c !in b.field
  {
    var ns := Neighbours(c);
    var r := SetCell(b, c);
    if c !in b.field {
      IncAllPositive(b.counts, ns);
      forall d ensures Get(r.counts, d) == NCount(r.field, d) {
        SetCellAt(b, c, d);
      }
    } else {
      var d := ns[0];
      assert Get(r.counts, d) != NCount(r.field, d) by {
        IncAllAt(b.counts, ns, d);
        NeighbourOccurrences(c, d);
        assert Get(r.counts, d) == Get(b.counts, d) + 1;
        assert Get(b.counts, d) == NCount(b.field, d);
        assert r.field == b.field;
      }
    }
  }

  /** Resetting keeps the index consistent exactly when the cell was live; on a dead cell it corrupts the counts. */
  lemma ResetCellConsistent(b: Board, c: Cell)
    requires Consistent(b)
    ensures Consistent(ResetCell(b, c)) <==> c in b.field
  {
    var ns := Neighbours(c);
    var r := ResetCell(b, c);
    if c in b.field {
      forall d ensures Get(r.counts, d) == NCount(r.field, d) {
        ResetCellAt(b, c, d);
      }
      assert NoZero(b.counts);
      DecAllNoZero(b.counts, ns);
      forall k | k in r.counts ensures r.counts[k] > 0 {
        assert Get(r.counts, k) == NCount(r.field, k);
      }
    } else {
      var d := ns[0];
      DecAllAt(b.counts, ns, d);
      NeighbourOccurrences(c, d);
      assert Get(r.counts, d) == Get(b.counts, d) - 1;
      assert Get(b.counts, d) == NCount(b.field, d);
      assert r.field == b.field;
    }
  }

  /** The implication form of SetCellConsistent, for callers that do not know whether the board is consistent. */
  lemma SetCellKeeps(b: Board, c: Cell)
    ensures Consistent(b) ==> (Consistent(SetCell(b, c)) <==> c !in b.field)
  {
    if Consistent(b) {
      SetCellConsistent(b, c);
    }
  }

  /** The implication form of ResetCellConsistent, for callers that do not know whether the board is consistent. */
  lemma ResetCellKeeps(b: Board, c: Cell)
    ensures Consistent(b) ==> (Consistent(ResetCell(b, c)) <==> c in b.field)
  {
    if Consistent(b) {
      ResetCellConsistent(b, c);
    }
  }

  /** Setting a dead cell and resetting it again restores the live set and the count index exactly. */
  lemma SetThenReset(b: Board, c: Cell)
    requires c !in b.field
    requires NoZero(b.counts)
    ensures ResetCell(SetCell(b, c), c) == b
  {
    IncAllDecAll(b.counts, Neighbours(c));
    assert (b.field + {c}) - {c} == b.field;
  }

  /** Resetting a live cell of a consistent board and setting it again restores the board exactly. */
  lemma ResetThenSet(b: Board, c: Cell)
    requires Consistent(b)
    requires c in b.field
    ensures SetCell(ResetCell(b, c), c) == b
  {
    var ns := Neighbours(c);
    forall k | k in ns ensures k in b.counts {
      NeighboursComplete(c, k);
      NCountZero(b.field, k);
      assert Adjacent(k, c);
      assert Get(b.counts, k) == NCount(b.field, k);
    }
    DecAllIncAll(b.counts, ns);
    assert (b.field - {c}) + {c} == b.field;
  }

  /** The toggle of a cell: reset it when live, set it when dead. */
  function Toggle(b: Board, c: Cell): (r: Board)
    ensures c in r.field <==> c !in b.field
    ensures r.field - {c} == b.field - {c}
  {
    if c in b.field then ResetCell(b, c) else SetCell(b, c)
  }

  /**
   * On a consistent board the toggle flips c alone, keeps the board consistent, and a
   * second toggle of the same cell restores the board exactly.
   */
  lemma ToggleFlips(b: Board, c: Cell)
    requires Consistent(b)
    ensures Consistent(Toggle(b, c))
    ensures c in Toggle(b, c).field <==> c !in b.field
    ensures forall d :: d != c ==> (d in Toggle(b, c).field <==> d in b.field)
    ensures Toggle(Toggle(b, c), c) == b
  {
    if c in b.field {
      ResetCellConsistent(b, c);
      ResetThenSet(b, c);
    } else {
      SetCellConsistent(b, c);
      SetThenReset(b, c);
    }
  }

  /** Reset each cell in order; the first reset of a dead cell raises and ends the run. */
  function ResetSeq(b: Board, cells: seq<Cell>): (r: Outcome)
    ensures r.board.field <= b.field
    decreases |cells|
  {
    if cells == [] then Completed(b)
    else
      var b' := ResetCell(b, cells[0]);
      if cells[0] in b.field then ResetSeq(b', cells[1..]) else Raised(b')
  }

  /** Set each cell in order. */
  function SetSeq(b: Board, cells: seq<Cell>): (r: Board)
    ensures b.field <= r.field
    decreases |cells|
  {
    if cells == [] then b else SetSeq(SetCell(b, cells[0]), cells[1..])
  }

  /** A run of resets completes exactly when every listed cell is live and none is listed twice. */
  lemma {:induction false} ResetSeqCompletes(b: Board, cells: seq<Cell>)
    ensures ResetSeq(b, cells).Completed? <==>
      Distinct(cells) && forall i :: 0 <= i < |cells| ==> cells[i] in b.field
    decreases |cells|
  {
    if cells != [] {
      var c := cells[0];
      var rest := cells[1..];
      var b' := ResetCell(b, c);
      if c in b.field {
        ResetSeqCompletes(b', rest);
        assert Distinct(cells) <==> Distinct(rest) && c !in rest by {
          if Distinct(cells) {
            forall i, j | 0 <= i < j < |rest| ensures rest[i] != rest[j] {
              assert rest[i] == cells[i + 1] && rest[j] == cells[j + 1];
            }
            forall i | 0 <= i < |rest| ensures rest[i] != c {
              assert rest[i] == cells[i + 1];
            }
          }
          if Distinct(rest) && c !in rest {
            forall i, j | 0 <= i < j < |cells| ensures cells[i] != cells[j] {
              assert cells[j] == rest[j - 1];
              if i > 0 {
                assert cells[i] == rest[i - 1];
              }
            }
          }
        }
        assert (forall i :: 0 <= i < |rest| ==> rest[i] in b'.field) <==>
          (c !in rest && forall i :: 0 <= i < |cells| ==> cells[i] in b.field) by {
          assert forall i :: 0 <= i < |rest| ==> rest[i] == cells[i + 1];
          assert forall i :: 0 < i < |cells| ==> cells[i] == rest[i - 1];
        }
      }
    }
  }

  /** Distinct live cells reset without raising, leave the index consistent and drop exactly those cells. */
  lemma {:induction false} ResetSeqLive(b: Board, cells: seq<Cell>)
    requires Consistent(b)
    requires Distinct(cells)
    requires forall i :: 0 <= i < |cells| ==> cells[i] in b.field
    ensures ResetSeq(b, cells).Completed?
    ensures Consistent(ResetSeq(b, cells).board)
    ensures forall x :: x in ResetSeq(b, cells).board.field <==> x in b.field && x !in cells
    decreases |cells|
  {
    if cells != [] {
      var c := cells[0];
      var rest := cells[1..];
      var b' := ResetCell(b, c);
      ResetCellConsistent(b, c);
      assert cells == [c] + rest;
      assert Distinct(rest) by {
        forall i, j | 0 <= i < j < |rest| ensures rest[i] != rest[j] {
          assert rest[i] == cells[i + 1] && rest[j] == cells[j + 1];
        }
      }
      assert c !in rest by {
        forall i | 0 <= i < |rest| ensures rest[i] != c {
          assert rest[i] == cells[i + 1];
        }
      }
      forall i | 0 <= i < |rest| ensures rest[i] in b'.field {
        assert rest[i] == cells[i + 1];
      }
      assert ResetSeq(b, cells) == ResetSeq(b', rest);
      ResetSeqLive(b', rest);
    }
  }

  /** Distinct dead cells set in order leave the index consistent and add exactly those cells. */
  lemma {:induction false} SetSeqDead(b: Board, cells: seq<Cell>)
    requires Consistent(b)
    requires Distinct(cells)
    requires forall i :: 0 <= i < |cells| ==> cells[i] !in b.field
    ensures Consistent(SetSeq(b, cells))
    ensures forall x :: x in SetSeq(b, cells).field <==> x in b.field || x in cells
    decreases |cells|
  {
    if cells != [] {
      var c := cells[0];
      var rest := cells[1..];
      var b' := SetCell(b, c);
      SetCellConsistent(b, c);
      assert cells == [c] + rest;
      assert Distinct(rest) by {
        forall i, j | 0 <= i < j < |rest| ensures rest[i] != rest[j] {
          assert rest[i] == cells[i + 1] && rest[j] == cells[j + 1];
        }
      }
      assert c !in rest by {
        forall i | 0 <= i < |rest| ensures rest[i] != c {
          assert rest[i] == cells[i + 1];
        }
      }
      forall i | 0 <= i < |rest| ensures rest[i] !in b'.field {
        assert rest[i] == cells[i + 1];
      }
      assert SetSeq(b, cells) == SetSeq(b', rest);
      SetSeqDead(b', rest);
    }
  }

  /** A live cell whose stored count is not 2 or 3 dies (the program also tests 0, which is below 2). */
  predicate Dies(b: Board, c: Cell)
  {
    var n := Get(b.counts, c);
    n == 0 || n < 2 || n > 3
  }

  /** A dead cell stored with count exactly 3 is born. */
  predicate Born(b: Board, c: Cell)
  {
    c !in b.field && Get(b.counts, c) == 3
  }

  /** The live set after one generation decided against b: survivors plus births among the stored keys. */
  function NextField(b: Board): (r: set<Cell>)
    ensures r <= b.field + b.counts.Keys
  {
    (set c | c in b.field && !Dies(b, c)) + (set c | c in b.counts && Born(b, c))
  }

  /** Conway's rule read off the live set: a live cell with 2 or 3 live neighbours survives, a dead one with exactly 3 is born. */
  ghost predicate LivesNext(f: set<Cell>, c: Cell)
  {
    var n := NCount(f, c);
    (c in f && (n == 2 || n == 3)) || (c !in f && n == 3)
  }

  /**
   * On a consistent board the next live set follows Conway's rule for every cell of
   * the plane, although only live cells and stored keys were looked at.
   */
  lemma ConwayRule(b: Board, c: Cell)
    requires Consistent(b)
    ensures c in NextField(b) <==> LivesNext(b.field, c)
  {
    assert Get(b.counts, c) == NCount(b.field, c);
  }

  /** Setting distinct dead cells in order, no set meets a cell that is already live at its turn. */
  lemma SetSeqNeverHitsLive(mid: Board, births: seq<Cell>)
    requires Consistent(mid)
    requires Distinct(births)
    requires forall i :: 0 <= i < |births| ==> births[i] !in mid.field
    ensures forall i :: 0 <= i < |births| ==> births[i] !in SetSeq(mid, births[..i]).field
  {
    forall i | 0 <= i < |births| ensures births[i] !in SetSeq(mid, births[..i]).field {
      var pre := births[..i];
      assert Distinct(pre) by {
        forall j, k | 0 <= j < k < |pre| ensures pre[j] != pre[k] {
          assert pre[j] == births[j] && pre[k] == births[k];
        }
      }
      forall j | 0 <= j < |pre| ensures pre[j] !in mid.field {
        assert pre[j] == births[j];
      }
      SetSeqDead(mid, pre);
      assert births[i] !in pre by {
        forall j | 0 <= j < |pre| ensures pre[j] != births[i] {
          assert pre[j] == births[j];
        }
      }
    }
  }

  /**
   * The batch a generation queues is always legal and lands on the next generation:
   * resetting the distinct dying live cells never raises, setting the distinct births then
   * never meets a live cell, and the result is consistent with live set NextField(b).
   */
  lemma {:induction false} GenerationBatch(b: Board, deaths: seq<Cell>, births: seq<Cell>)
    requires Consistent(b)
    requires Distinct(deaths) && Distinct(births)
    requires forall x :: x in deaths <==> x in b.field && Dies(b, x)
    requires forall x :: x in births <==> x in b.counts && Born(b, x)
    ensures ResetSeq(b, deaths).Completed?
    ensures Consistent(SetSeq(ResetSeq(b, deaths).board, births))
    ensures SetSeq(ResetSeq(b, deaths).board, births).field == NextField(b)
    ensures forall i :: 0 <= i < |births| ==>
      births[i] !in SetSeq(ResetSeq(b, deaths).board, births[..i]).field
  {
    forall i | 0 <= i < |deaths| ensures deaths[i] in b.field {
      assert deaths[i] in deaths;
    }
    ResetSeqLive(b, deaths);
    var mid := ResetSeq(b, deaths).board;
    forall i | 0 <= i < |births| ensures births[i] !in mid.field {
      assert births[i] in births;
    }
    SetSeqDead(mid, births);
    SetSeqNeverHitsLive(mid, births);
    var r := SetSeq(mid, births);
    forall x ensures x in r.field <==> x in NextField(b) {
      assert x in r.field <==> x in mid.field || x in births;
      assert x in mid.field <==> x in b.field && x !in deaths;
      assert x in deaths <==> x in b.field && Dies(b, x);
      assert x in births <==> x in b.counts && Born(b, x);
    }
  }

  /** Every cell adjacent to some live cell of f, the only cells that can hold a count. */
  function Halo(f: set<Cell>): set<Cell>
  {
    set c, i | c in f && 0 <= i < 8 :: Neighbours(c)[i]
  }

  /** Every set of cells has at most one element per list entry. */
  lemma {:induction false} SeqSetBound(s: seq<Cell>)
    ensures |set i | 0 <= i < |s| :: s[i]| <= |s|
    decreases |s|
  {
    if s != [] {
      var t := s[..|s| - 1];
      SeqSetBound(t);
      assert (set i | 0 <= i < |s| :: s[i]) == (set i | 0 <= i < |t| :: t[i]) + {s[|s| - 1]};
    }
  }

  /** The halo of f has at most eight cells per live cell. */
  lemma {:induction false} HaloBound(f: set<Cell>)
    ensures |Halo(f)| <= 8 * |f|
    decreases |f|
  {
    if f != {} {
      var c :| c in f;
      var ns := Neighbours(c);
      HaloBound(f - {c});
      assert Halo(f) == Halo(f - {c}) + (set i | 0 <= i < |ns| :: ns[i]);
      SeqSetBound(ns);
    }
  }

  /** Under consistency every stored key has a live neighbour, so the index holds at most 8 entries per live cell. */
  lemma CountsBound(b: Board)
    requires Consistent(b)
    ensures b.counts.Keys <= Halo(b.field)
    ensures |b.counts| <= 8 * |b.field|
  {
    forall k | k in b.counts ensures k in Halo(b.field) {
      assert NCount(b.field, k) != 0 by { assert Get(b.counts, k) == NCount(b.field, k); }
      NCountZero(b.field, k);
      var d :| Adjacent(k, d) && d in b.field;
      NeighboursComplete(d, k);
      var i :| 0 <= i < 8 && Neighbours(d)[i] == k;
    }
    HaloBound(b.field);
    assert |b.counts.Keys| <= |Halo(b.field)| by {
      SubsetCard(b.counts.Keys, Halo(b.field));
    }
  }

  lemma {:induction false} SubsetCard(a: set<Cell>, h: set<Cell>)
    requires a <= h
    ensures |a| <= |h|
    decreases |h|
  {
    if a != {} {
      var x :| x in a;
      SubsetCard(a - {x}, h - {x});
    }
  }
}
