/** The playing field: a square grid of integer cells, and the counting facts
    that guarantee a free cell for the food while the snake leaves room. */
module Board {

  /** Side of the square grid. */
  const GridSize: int := 20

  /** Number of cells on the grid. */
  const CellCount: int := GridSize * GridSize

  /** A grid cell as an (x, y) pair; y grows downwards. */
  type Cell = (int, int)

  predicate InBounds(c: Cell) {
    0 <= c.0 < GridSize && 0 <= c.1 < GridSize
  }

  /** Every cell of `s` lies on the grid. */
  predicate InGrid(s: seq<Cell>) {
    forall c :: c in s ==> InBounds(c)
  }

  /** No cell occurs twice in `s`. */
  predicate Distinct(s: seq<Cell>) {
    forall i, j :: 0 <= i < j < |s| ==> s[i] != s[j]
  }

  /** Two cells share a side. */
  predicate Adjacent(a: Cell, b: Cell) {
    (a.0 == b.0 && (a.1 - b.1 == 1 || b.1 - a.1 == 1)) ||
    (a.1 == b.1 && (a.0 - b.0 == 1 || b.0 - a.0 == 1))
  }

  /** Consecutive cells of `s` share a side: `s` is a path on the grid. */
  predicate Connected(s: seq<Cell>) {
    forall i :: 0 <= i < |s| - 1 ==> Adjacent(s[i], s[i + 1])
  }

  lemma DistinctPrepend(h: Cell, s: seq<Cell>)
    requires Distinct(s) && h !in s
    ensures Distinct([h] + s)
  {
    forall i, j | 0 <= i < j < |[h] + s|
      ensures ([h] + s)[i] != ([h] + s)[j]
    {
      assert ([h] + s)[j] == s[j - 1];
      if i > 0 {
        assert ([h] + s)[i] == s[i - 1];
      }
    }
  }

  /** The set of cells a sequence occupies. */
  function Occupied(s: seq<Cell>): (r: set<Cell>)
    ensures forall c :: c in r <==> c in s
  {
    if s == [] then {} else {s[0]} + Occupied(s[1..])
  }

  lemma {:induction false} OccupiedCard(s: seq<Cell>)
    requires Distinct(s)
    ensures |Occupied(s)| == |s|
  {
    if s != [] {
      assert Distinct(s[1..]) by {
        forall i, j | 0 <= i < j < |s[1..]|
          ensures s[1..][i] != s[1..][j]
        {
          assert s[1..][i] == s[i + 1] && s[1..][j] == s[j + 1];
        }
      }
      OccupiedCard(s[1..]);
      assert s[0] !in s[1..] by {
        forall k | 0 <= k < |s[1..]|
          ensures s[1..][k] != s[0]
        {
          assert s[1..][k] == s[k + 1];
        }
      }
    }
  }

  /** The first `w` cells of row `y`. */
  function Row(w: nat, y: int): set<Cell> {
    if w == 0 then {} else Row(w - 1, y) + {(w - 1, y)}
  }

  lemma {:induction false} RowMembers(w: nat, y: int)
    ensures forall c :: c in Row(w, y) <==> c.1 == y && 0 <= c.0 < w
  {
    if w > 0 {
      RowMembers(w - 1, y);
    }
  }

  lemma {:induction false} RowCard(w: nat, y: int)
    ensures |Row(w, y)| == w
  {
    if w > 0 {
      RowCard(w - 1, y);
      RowMembers(w - 1, y);
      assert (w - 1, y) !in Row(w - 1, y);
    }
  }

  /** The first `h` full rows of the grid. */
  function Rows(h: nat): set<Cell> {
    if h == 0 then {} else Rows(h - 1) + Row(GridSize, h - 1)
  }

  lemma {:induction false} RowsMembers(h: nat)
    ensures forall c :: c in Rows(h) <==> 0 <= c.0 < GridSize && 0 <= c.1 < h
  {
    if h > 0 {
      RowsMembers(h - 1);
      RowMembers(GridSize, h - 1);
    }
  }

  lemma DisjointUnionCard<T>(a: set<T>, b: set<T>)
    requires a * b == {}
    ensures |a + b| == |a| + |b|
  {
  }

  lemma {:induction false} RowsCard(h: nat)
    ensures |Rows(h)| == GridSize * h
  {
    if h > 0 {
      RowsCard(h - 1);
      RowCard(GridSize, h - 1);
      assert Rows(h - 1) * Row(GridSize, h - 1) == {} by {
        RowsMembers(h - 1);
        RowMembers(GridSize, h - 1);
      }
      DisjointUnionCard(Rows(h - 1), Row(GridSize, h - 1));
    }
  }

  /** The grid holds exactly CellCount cells. */
  lemma GridCard()
    ensures |Rows(GridSize)| == CellCount
    ensures forall c :: c in Rows(GridSize) <==> InBounds(c)
  {
    RowsCard(GridSize);
    RowsMembers(GridSize);
  }

  /** A subset's complement has the difference of the sizes. */
  lemma SubsetCard<T>(a: set<T>, b: set<T>)
    requires a <= b
    ensures |b - a| == |b| - |a|
  {
    assert b == a + (b - a);
    assert a * (b - a) == {};
  }

  /** The cells of a sequence on the grid form a subset of the grid. */
  lemma OccupiedInGrid(s: seq<Cell>)
    requires InGrid(s)
    ensures Occupied(s) <= Rows(GridSize)
  {
    GridCard();
  }

  /** A sequence of distinct cells on the grid is no longer than the grid. */
  lemma {:induction false} OccupancyBound(s: seq<Cell>)
    requires InGrid(s) && Distinct(s)
    ensures |s| <= CellCount
  {
    GridCard();
    OccupiedCard(s);
    OccupiedInGrid(s);
    SubsetCard(Occupied(s), Rows(GridSize));
  }

  /** While distinct on-grid cells leave room, some grid cell is free. */
  lemma {:induction false} FreeCellExists(s: seq<Cell>)
    requires InGrid(s) && Distinct(s) && |s| < CellCount
    ensures exists c :: InBounds(c) && c !in s
  {
    GridCard();
    OccupiedCard(s);
    OccupiedInGrid(s);
    var free := Rows(GridSize) - Occupied(s);
    SubsetCard(Occupied(s), Rows(GridSize));
    assert |free| > 0;
    var c :| c in free;
    assert InBounds(c) && c !in s;
  }

  /** A free on-grid cell beside distinct on-grid cells means the grid is not full. */
  lemma {:induction false} RoomLeft(s: seq<Cell>, c: Cell)
    requires InGrid(s) && Distinct(s) && InBounds(c) && c !in s
    ensures |s| < CellCount
  {
    DistinctPrepend(c, s);
    assert InGrid([c] + s);
    OccupancyBound([c] + s);
  }
}
