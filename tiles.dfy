/**
  Tile states, the random tile draw, and grid values: a grid is the content
  of the generator's `map` as a sequence of columns, `g[x][y]`.
*/
module Tiles {

  /** GROUND is open floor, DYNAMIC a random (soft) obstruction, STATIC a
      room or corridor centreline, FLOOR the ledge tile set by Correction. */
  datatype TileType = Ground | Dynamic | Static | Floor

  /** A draw of `Random.Range(0, 100)`. */
  type Percent = d: int | 0 <= d < 100

  /** GetRandomTile with its draw made explicit: only the two soft states. */
  function GetRandomTile(d: Percent): (t: TileType)
    ensures t == Dynamic || t == Ground
  {
    if d >= 45 then Dynamic else Ground
  }

  /** The integers lo, lo + 1, ..., hi - 1. */
  function Interval(lo: int, hi: int): (s: set<int>)
    ensures forall d :: d in s <==> lo <= d < hi
    ensures lo <= hi ==> |s| == hi - lo
    decreases hi - lo
  {
    if lo >= hi then {} else {lo} + Interval(lo + 1, hi)
  }

  lemma IntervalOf(lo: int, hi: int) returns (s: set<int>)
    requires lo <= hi
    ensures forall d :: d in s <==> lo <= d < hi
    ensures |s| == hi - lo
  {
    s := Interval(lo, hi);
  }

  /** Of the 100 possible draws, 55 give DYNAMIC and 45 give GROUND. */
  lemma DynamicShare()
    ensures |set d: Percent | GetRandomTile(d) == Dynamic| == 55
    ensures |set d: Percent | GetRandomTile(d) == Ground| == 45
  {
    var high := IntervalOf(45, 100);
    var low := IntervalOf(0, 45);
    assert (set d: Percent | GetRandomTile(d) == Dynamic) == high;
    assert (set d: Percent | GetRandomTile(d) == Ground) == low;
  }

  type Grid = seq<seq<TileType>>

  function Height(g: Grid): nat
  {
    if |g| == 0 then 0 else |g[0]|
  }

  /** Every column has the same height. */
  predicate WellFormed(g: Grid)
  {
    forall x :: 0 <= x < |g| ==> |g[x]| == Height(g)
  }

  predicate InGrid(g: Grid, x: int, y: int)
  {
    0 <= x < |g| && 0 <= y < Height(g)
  }

  /** Cell (a, b) is in the grid and holds `t`. */
  predicate Is(g: Grid, a: int, b: int, t: TileType)
    requires WellFormed(g)
  {
    InGrid(g, a, b) && g[a][b] == t
  }

  /** The in-bounds 8-neighbours of (x, y) holding `t`. */
  ghost function Neighbours(g: Grid, x: int, y: int, t: TileType): set<(int, int)>
    requires WellFormed(g)
  {
    set a: int, b: int | x - 1 <= a <= x + 1 && y - 1 <= b <= y + 1 && (a != x || b != y) &&
      Is(g, a, b, t) :: (a, b)
  }

  /** The in-bounds 4-neighbours of (x, y) holding GROUND. */
  ghost function CrossNeighbours(g: Grid, x: int, y: int): set<(int, int)>
    requires WellFormed(g)
  {
    set a: int, b: int | x - 1 <= a <= x + 1 && y - 1 <= b <= y + 1 && (a == x) != (b == y) &&
      Is(g, a, b, Ground) :: (a, b)
  }

  function Ind(c: bool): nat
  {
    if c then 1 else 0
  }

  function Opt(c: bool, p: (int, int)): set<(int, int)>
  {
    if c then {p} else {}
  }

  lemma DisjointSize(a: set<(int, int)>, b: set<(int, int)>)
    requires a !! b
    ensures |a + b| == |a| + |b|
  {
  }

  /** Up to three cells of row y, at columns x - 1, x and x + 1. */
  function Row(x: int, y: int, ca: bool, cb: bool, cc: bool): set<(int, int)>
  {
    Opt(ca, (x - 1, y)) + Opt(cb, (x, y)) + Opt(cc, (x + 1, y))
  }

  lemma RowSize(x: int, y: int, ca: bool, cb: bool, cc: bool)
    ensures |Row(x, y, ca, cb, cc)| == Ind(ca) + Ind(cb) + Ind(cc)
  {
    var a, b, c := Opt(ca, (x - 1, y)), Opt(cb, (x, y)), Opt(cc, (x + 1, y));
    assert |a| == Ind(ca) && |b| == Ind(cb) && |c| == Ind(cc);
    assert a !! b;
    DisjointSize(a, b);
    assert (a + b) !! c;
    DisjointSize(a + b, c);
  }

  lemma RowsApart(x: int, y: int, ca: bool, cb: bool, cc: bool, y': int, da: bool, db: bool, dc: bool)
    requires y != y'
    ensures Row(x, y, ca, cb, cc) !! Row(x, y', da, db, dc)
  {
  }

  lemma BandSize(x: int, y: int, c1: bool, c2: bool, c3: bool, c4: bool, c5: bool, c6: bool, c7: bool, c8: bool)
    ensures |Row(x, y + 1, c1, c2, c3) + Row(x, y, c4, false, c5) + Row(x, y - 1, c6, c7, c8)| ==
      Ind(c1) + Ind(c2) + Ind(c3) + Ind(c4) + Ind(c5) + Ind(c6) + Ind(c7) + Ind(c8)
  {
    var a, b, c := Row(x, y + 1, c1, c2, c3), Row(x, y, c4, false, c5), Row(x, y - 1, c6, c7, c8);
    RowSize(x, y + 1, c1, c2, c3);
    RowSize(x, y, c4, false, c5);
    RowSize(x, y - 1, c6, c7, c8);
    RowsApart(x, y + 1, c1, c2, c3, y, c4, false, c5);
    RowsApart(x, y + 1, c1, c2, c3, y - 1, c6, c7, c8);
    RowsApart(x, y, c4, false, c5, y - 1, c6, c7, c8);
    DisjointSize(a, b);
    DisjointSize(a + b, c);
  }

  /** The 8-neighbourhood of (x, y) holding `t`, row by row from the top. */
  function Ring(g: Grid, x: int, y: int, t: TileType): set<(int, int)>
    requires WellFormed(g)
  {
    Row(x, y + 1, Is(g, x - 1, y + 1, t), Is(g, x, y + 1, t), Is(g, x + 1, y + 1, t)) +
    Row(x, y, Is(g, x - 1, y, t), false, Is(g, x + 1, y, t)) +
    Row(x, y - 1, Is(g, x - 1, y - 1, t), Is(g, x, y - 1, t), Is(g, x + 1, y - 1, t))
  }

  /** The 4-neighbourhood of (x, y) holding GROUND, row by row from the top. */
  function Cross(g: Grid, x: int, y: int): set<(int, int)>
    requires WellFormed(g)
  {
    Row(x, y + 1, false, Is(g, x, y + 1, Ground), false) +
    Row(x, y, Is(g, x - 1, y, Ground), false, Is(g, x + 1, y, Ground)) +
    Row(x, y - 1, false, Is(g, x, y - 1, Ground), false)
  }

  lemma NeighboursAreRing(g: Grid, x: int, y: int, t: TileType)
    requires WellFormed(g)
    ensures Neighbours(g, x, y, t) == Ring(g, x, y, t)
  {
    forall p | p in Neighbours(g, x, y, t) ensures p in Ring(g, x, y, t) {
      var (a, b) := p;
      assert a == x - 1 || a == x || a == x + 1;
      assert b == y - 1 || b == y || b == y + 1;
    }
    RingInNeighbours(g, x, y, t);
  }

  lemma RingInNeighbours(g: Grid, x: int, y: int, t: TileType)
    requires WellFormed(g)
    ensures Ring(g, x, y, t) <= Neighbours(g, x, y, t)
  {
    forall p | p in Ring(g, x, y, t) ensures p in Neighbours(g, x, y, t) {
      var (a, b) := p;
      assert x - 1 <= a <= x + 1 && y - 1 <= b <= y + 1 && (a != x || b != y) && Is(g, a, b, t);
    }
  }

  lemma CrossNeighboursAreCross(g: Grid, x: int, y: int)
    requires WellFormed(g)
    ensures CrossNeighbours(g, x, y) == Cross(g, x, y)
  {
    forall p | p in CrossNeighbours(g, x, y) ensures p in Cross(g, x, y) {
      var (a, b) := p;
      assert a == x - 1 || a == x || a == x + 1;
      assert b == y - 1 || b == y || b == y + 1;
    }
    forall p | p in Cross(g, x, y) ensures p in CrossNeighbours(g, x, y) {
      var (a, b) := p;
      assert x - 1 <= a <= x + 1 && y - 1 <= b <= y + 1 && (a == x) != (b == y) && Is(g, a, b, Ground);
    }
  }

  /** The number of in-bounds 8-neighbours holding `t`, tested in the order
      GetNeighborCount tests them (upper row first, left to right). */
  lemma {:induction false} NeighbourTally(g: Grid, x: int, y: int, t: TileType)
    requires WellFormed(g)
    ensures |Neighbours(g, x, y, t)| ==
      Ind(Is(g, x - 1, y + 1, t)) + Ind(Is(g, x, y + 1, t)) + Ind(Is(g, x + 1, y + 1, t)) +
      Ind(Is(g, x - 1, y, t)) + Ind(Is(g, x + 1, y, t)) +
      Ind(Is(g, x - 1, y - 1, t)) + Ind(Is(g, x, y - 1, t)) + Ind(Is(g, x + 1, y - 1, t))
    ensures |Neighbours(g, x, y, t)| <= 8
  {
    NeighboursAreRing(g, x, y, t);
    BandSize(x, y, Is(g, x - 1, y + 1, t), Is(g, x, y + 1, t), Is(g, x + 1, y + 1, t),
      Is(g, x - 1, y, t), Is(g, x + 1, y, t),
      Is(g, x - 1, y - 1, t), Is(g, x, y - 1, t), Is(g, x + 1, y - 1, t));
  }

  /** The number of in-bounds 4-neighbours holding GROUND, tested in the
      order GetCrossCount tests them (up, left, right, down). */
  lemma {:induction false} CrossTally(g: Grid, x: int, y: int)
    requires WellFormed(g)
    ensures |CrossNeighbours(g, x, y)| ==
      Ind(Is(g, x, y + 1, Ground)) + Ind(Is(g, x - 1, y, Ground)) +
      Ind(Is(g, x + 1, y, Ground)) + Ind(Is(g, x, y - 1, Ground))
    ensures |CrossNeighbours(g, x, y)| <= 4
  {
    CrossNeighboursAreCross(g, x, y);
    BandSize(x, y, false, Is(g, x, y + 1, Ground), false,
      Is(g, x - 1, y, Ground), Is(g, x + 1, y, Ground),
      false, Is(g, x, y - 1, Ground), false);
  }
}
