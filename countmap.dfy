/** The sparse neighbour-count dictionary and its get-or-zero update primitives. */
module CountMap {
  import opened Cells

  /** Coordinate to stored count; a missing key reads as zero. */
  type Counts = map<Cell, int>

  /** The value stored for k, or 0 when k is absent (the dictionary's get with default 0). */
  function Get(m: Counts, k: Cell): int
  {
    if k in m then m[k] else 0
  }

  /** Every stored count is positive. */
  predicate Positive(m: Counts)
  {
    forall k :: k in m ==> m[k] > 0
  }

  /** No stored count is zero. */
  predicate NoZero(m: Counts)
  {
    forall k :: k in m ==> m[k] != 0
  }

  /** The increment of one entry: k ends up stored with one more than before, other keys untouched. */
  function Inc(m: Counts, k: Cell): (r: Counts)
    ensures k in r && Get(r, k) == Get(m, k) + 1
    ensures forall j :: j != k ==> (j in r <==> j in m) && Get(r, j) == Get(m, j)
  {
    m[k := Get(m, k) + 1]
  }

  /** The decrement of one entry: k reads one less than before and is dropped when that is zero. */
  function Dec(m: Counts, k: Cell): (r: Counts)
    ensures Get(r, k) == Get(m, k) - 1
    ensures k in r <==> Get(m, k) - 1 != 0
    ensures forall j :: j != k ==> (j in r <==> j in m) && Get(r, j) == Get(m, j)
  {
    var v := Get(m, k) - 1;
    if v != 0 then m[k := v] else m - {k}
  }

  /** Increment the entry of each element of ns in turn. */
  function IncAll(m: Counts, ns: seq<Cell>): Counts
    decreases |ns|
  {
    if ns == [] then m else IncAll(Inc(m, ns[0]), ns[1..])
  }

  /** Decrement the entry of each element of ns in turn. */
  function DecAll(m: Counts, ns: seq<Cell>): Counts
    decreases |ns|
  {
    if ns == [] then m else DecAll(Dec(m, ns[0]), ns[1..])
  }

  /** After IncAll each key reads its old value plus the times ns lists it, and is present iff it was or is listed. */
  lemma {:induction false} IncAllAt(m: Counts, ns: seq<Cell>, k: Cell)
    ensures Get(IncAll(m, ns), k) == Get(m, k) + Occurrences(ns, k)
    ensures k in IncAll(m, ns) <==> k in m || k in ns
    decreases |ns|
  {
    if ns != [] {
      IncAllAt(Inc(m, ns[0]), ns[1..], k);
      assert k in ns <==> k == ns[0] || k in ns[1..] by {
        assert ns == [ns[0]] + ns[1..];
      }
    }
  }

  /**
   * After DecAll each key reads its old value less the times ns lists it; a listed key is
   * present iff it reads non-zero, an unlisted key is present iff it was.
   */
  lemma {:induction false} DecAllAt(m: Counts, ns: seq<Cell>, k: Cell)
    ensures Get(DecAll(m, ns), k) == Get(m, k) - Occurrences(ns, k)
    ensures k !in ns ==> (k in DecAll(m, ns) <==> k in m)
    ensures k in ns ==> (k in DecAll(m, ns) <==> Get(DecAll(m, ns), k) != 0)
    decreases |ns|
  {
    if ns != [] {
      DecAllAt(Dec(m, ns[0]), ns[1..], k);
      assert k in ns <==> k == ns[0] || k in ns[1..] by {
        assert ns == [ns[0]] + ns[1..];
      }
    }
  }

  /** Incrementing never makes a positive (or absent) entry non-positive. */
  lemma {:induction false} IncAllPositive(m: Counts, ns: seq<Cell>)
    requires Positive(m)
    ensures Positive(IncAll(m, ns))
  {
    var r := IncAll(m, ns);
    forall k | k in r ensures r[k] > 0 {
      IncAllAt(m, ns, k);
      if k !in m {
        assert k in ns;
      }
    }
  }

  /** Decrementing drops every entry that reaches zero, so no zero is ever stored. */
  lemma DecAllNoZero(m: Counts, ns: seq<Cell>)
    requires NoZero(m)
    ensures NoZero(DecAll(m, ns))
  {
    var r := DecAll(m, ns);
    forall k | k in r ensures r[k] != 0 {
      DecAllAt(m, ns, k);
      if k !in ns {
        assert Get(r, k) == Get(m, k);
      }
    }
  }

  /** Decrementing the same list just incremented restores the map exactly, given no stored zero. */
  lemma IncAllDecAll(m: Counts, ns: seq<Cell>)
    requires NoZero(m)
    ensures DecAll(IncAll(m, ns), ns) == m
  {
    var up := IncAll(m, ns);
    var r := DecAll(up, ns);
    forall k ensures Get(r, k) == Get(m, k) && (k in r <==> k in m) {
      IncAllAt(m, ns, k);
      DecAllAt(up, ns, k);
      if k in ns {
        assert k in r <==> Get(r, k) != 0;
        assert Get(r, k) == Get(m, k);
      } else {
        assert k in r <==> k in up;
        assert k in up <==> k in m;
      }
    }
    assert r.Keys == m.Keys;
    forall k | k in m ensures r[k] == m[k] {
      assert Get(r, k) == Get(m, k);
    }
  }

  /** Incrementing the same list just decremented restores the map exactly, given every listed key was stored. */
  lemma DecAllIncAll(m: Counts, ns: seq<Cell>)
    requires forall k :: k in ns ==> k in m
    ensures IncAll(DecAll(m, ns), ns) == m
  {
    var down := DecAll(m, ns);
    var r := IncAll(down, ns);
    forall k ensures Get(r, k) == Get(m, k) && (k in r <==> k in m) {
      DecAllAt(m, ns, k);
      IncAllAt(down, ns, k);
      if k !in ns {
        assert k in down <==> k in m;
      }
    }
    assert r.Keys == m.Keys;
    forall k | k in m ensures r[k] == m[k] {
      assert Get(r, k) == Get(m, k);
    }
  }

  /** One step of a left-to-right pass over ns: the rest of IncAll after handling ns[i]. */
  lemma IncAllStep(m: Counts, ns: seq<Cell>, i: nat)
    requires i < |ns|
    ensures IncAll(m, ns[i..]) == IncAll(Inc(m, ns[i]), ns[i + 1..])
  {
    assert ns[i..][1..] == ns[i + 1..];
  }

  /** One step of a left-to-right pass over ns: the rest of DecAll after handling ns[i]. */
  lemma DecAllStep(m: Counts, ns: seq<Cell>, i: nat)
    requires i < |ns|
    ensures DecAll(m, ns[i..]) == DecAll(Dec(m, ns[i]), ns[i + 1..])
  {
    assert ns[i..][1..] == ns[i + 1..];
  }
}
