/** Cells of the unbounded plane and their Moore neighbourhoods. */
module Cells {

  /** One cell of the infinite grid: an (x, y) pair of unbounded integers. */
  type Cell = (int, int)

  function Abs(n: int): nat
  {
    if n < 0 then -n else n
  }

  /** a and b are distinct cells at Chebyshev distance 1: each is a Moore neighbour of the other. */
  predicate Adjacent(a: Cell, b: Cell)
  {
    a != b && Abs(a.0 - b.0) <= 1 && Abs(a.1 - b.1) <= 1
  }

  /** No element of s occurs twice. */
  predicate Distinct(s: seq<Cell>)
  {
    forall i, j :: 0 <= i < j < |s| ==> s[i] != s[j]
  }

  /** Appending a cell the list does not hold keeps it free of repetitions. */
  lemma DistinctAppend(s: seq<Cell>, c: Cell)
    requires Distinct(s) && c !in s
    ensures Distinct(s + [c])
  {
    forall i, j | 0 <= i < j < |s + [c]| ensures (s + [c])[i] != (s + [c])[j] {
      if j == |s| {
        assert (s + [c])[i] == s[i];
      } else {
        assert (s + [c])[i] == s[i] && (s + [c])[j] == s[j];
      }
    }
  }

  /** The eight Moore neighbours of c, in the order the program lists them. */
  function Neighbours(c: Cell): (r: seq<Cell>)
    ensures |r| == 8
    ensures Distinct(r)
    ensures forall i :: 0 <= i < |r| ==> Adjacent(c, r[i])
    ensures c !in r
  {
    var (x, y) := c;
    [(x - 1, y - 1), (x - 1, y), (x - 1, y + 1),
     (x, y - 1), (x, y + 1),
     (x + 1, y - 1), (x + 1, y), (x + 1, y + 1)]
  }

  /** The list is complete: every cell at Chebyshev distance 1 from c is listed. */
  lemma NeighboursComplete(c: Cell, d: Cell)
    ensures d in Neighbours(c) <==> Adjacent(c, d)
  {
    var ns := Neighbours(c);
    if Adjacent(c, d) {
      var dx, dy := d.0 - c.0, d.1 - c.1;
      assert dx == -1 || dx == 0 || dx == 1;
      assert dy == -1 || dy == 0 || dy == 1;
      if dx == -1 {
        if dy == -1 { assert d == ns[0]; } else if dy == 0 { assert d == ns[1]; } else { assert d == ns[2]; }
      } else if dx == 0 {
        if dy == -1 { assert d == ns[3]; } else { assert dy == 1; assert d == ns[4]; }
      } else {
        if dy == -1 { assert d == ns[5]; } else if dy == 0 { assert d == ns[6]; } else { assert d == ns[7]; }
      }
    }
  }

  /** Adjacency is symmetric, so d lists c exactly when c lists d. */
  lemma NeighboursSymmetric(c: Cell, d: Cell)
    ensures d in Neighbours(c) <==> c in Neighbours(d)
  {
    NeighboursComplete(c, d);
    NeighboursComplete(d, c);
  }

  /** Number of positions of s holding c. */
  function Occurrences(s: seq<Cell>, c: Cell): (n: nat)
    ensures n <= |s|
    ensures n == 0 <==> c !in s
  {
    if s == [] then 0 else (if s[0] == c then 1 else 0) + Occurrences(s[1..], c)
  }

  /** In a list without repetitions a cell occurs once or not at all. */
  lemma {:induction false} OccurrencesDistinct(s: seq<Cell>, c: Cell)
    requires Distinct(s)
    ensures Occurrences(s, c) == if c in s then 1 else 0
  {
    if s != [] {
      assert Distinct(s[1..]) by {
        forall i, j | 0 <= i < j < |s[1..]| ensures s[1..][i] != s[1..][j] {
          assert s[1..][i] == s[i + 1] && s[1..][j] == s[j + 1];
        }
      }
      OccurrencesDistinct(s[1..], c);
      if s[0] == c {
        assert c !in s[1..] by {
          forall i | 0 <= i < |s[1..]| ensures s[1..][i] != c {
            assert s[1..][i] == s[i + 1];
          }
        }
      } else {
        assert c in s <==> c in s[1..] by {
          assert s == [s[0]] + s[1..];
        }
      }
    }
  }

  /** An adjacent cell occurs exactly once among the neighbours, any other cell not at all. */
  lemma NeighbourOccurrences(c: Cell, d: Cell)
    ensures Occurrences(Neighbours(c), d) == if Adjacent(c, d) then 1 else 0
  {
    OccurrencesDistinct(Neighbours(c), d);
    NeighboursComplete(c, d);
  }

  /** Number of entries of s (counted with repetition) that lie in f. */
  function CountIn(s: seq<Cell>, f: set<Cell>): (n: nat)
    ensures n <= |s|
  {
    if s == [] then 0 else (if s[0] in f then 1 else 0) + CountIn(s[1..], f)
  }

  /** The count is zero exactly when no entry of s lies in f. */
  lemma {:induction false} CountInZero(s: seq<Cell>, f: set<Cell>)
    ensures CountIn(s, f) == 0 <==> forall i :: 0 <= i < |s| ==> s[i] !in f
  {
    if s != [] {
      CountInZero(s[1..], f);
      assert forall i :: 1 <= i < |s| ==> s[i] == s[1..][i - 1];
    }
  }

  /** Adding a dead cell c to f adds one for each time s lists c. */
  lemma {:induction false} CountInInsert(s: seq<Cell>, f: set<Cell>, c: Cell)
    requires c !in f
    ensures CountIn(s, f + {c}) == CountIn(s, f) + Occurrences(s, c)
  {
    if s != [] {
      CountInInsert(s[1..], f, c);
    }
  }

  /** Removing a live cell c from f subtracts one for each time s lists c. */
  lemma {:induction false} CountInRemove(s: seq<Cell>, f: set<Cell>, c: Cell)
    requires c in f
    ensures CountIn(s, f - {c}) == CountIn(s, f) - Occurrences(s, c)
  {
    if s != [] {
      CountInRemove(s[1..], f, c);
    }
  }

  /** The live-neighbour count of c: how many of its eight neighbours are in f. */
  function NCount(f: set<Cell>, c: Cell): (n: nat)
    ensures n <= 8
  {
    CountIn(Neighbours(c), f)
  }

  /** A cell has live-neighbour count zero exactly when no cell adjacent to it is live. */
  lemma NCountZero(f: set<Cell>, c: Cell)
    ensures NCount(f, c) == 0 <==> forall d :: Adjacent(c, d) ==> d !in f
  {
    var ns := Neighbours(c);
    CountInZero(ns, f);
    forall d | Adjacent(c, d) ensures d in ns { NeighboursComplete(c, d); }
  }

  /** Making c live raises the count of exactly its eight neighbours, by one each. */
  lemma NCountInsert(f: set<Cell>, c: Cell, d: Cell)
    requires c !in f
    ensures NCount(f + {c}, d) == NCount(f, d) + (if Adjacent(d, c) then 1 else 0)
  {
    CountInInsert(Neighbours(d), f, c);
    NeighbourOccurrences(d, c);
  }

  /** Making c dead lowers the count of exactly its eight neighbours, by one each. */
  lemma NCountRemove(f: set<Cell>, c: Cell, d: Cell)
    requires c in f
    ensures NCount(f - {c}, d) == NCount(f, d) - (if Adjacent(d, c) then 1 else 0)
  {
    CountInRemove(Neighbours(d), f, c);
    NeighbourOccurrences(d, c);
  }
}
