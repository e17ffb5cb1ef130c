/**
  The two refinement passes, Absorption and Correction, as functions on grid
  values. Both passes rewrite the map in place, visiting x = 0, 1, ... in the
  outer loop and y = 0, 1, ... in the inner loop, so a cell's new value is
  computed on a grid in which every cell visited before it already holds its
  new value. `Swept(p, g, i, k)` is that grid: `g` after pass `p` has
  visited every cell before (i, k).
*/
module Refine {
  import opened Tiles

  /** The three sweeps: Absorption, and the two sweeps of Correction. */
  datatype Pass = AbsorptionPass | CrossPass | FloorPass

  /** The occupancy density Absorption tests: DYNAMIC plus STATIC neighbours. */
  ghost function Density(g: Grid, x: int, y: int): nat
    requires WellFormed(g)
  {
    |Neighbours(g, x, y, Dynamic)| + |Neighbours(g, x, y, Static)|
  }

  /** The value pass `p` gives cell (i, k) when its turn comes and the grid is `g`. */
  ghost function NewTile(p: Pass, g: Grid, i: int, k: int): TileType
    requires WellFormed(g) && InGrid(g, i, k)
  {
    var c := g[i][k];
    match p
    case AbsorptionPass =>
      if c == Dynamic && Density(g, i, k) >= 4 then Dynamic
      else if c == Ground && Density(g, i, k) >= 5 then Dynamic
      else if c == Ground || c == Dynamic then Ground
      else c
    case CrossPass =>
      if c == Dynamic && |CrossNeighbours(g, i, k)| >= 3 then Ground else c
    case FloorPass =>
      if c != Ground then c
      else if k + 1 < Height(g) && (g[i][k + 1] == Dynamic || g[i][k + 1] == Static) &&
              k - 1 >= 0 && g[i][k - 1] == Ground then Floor
      else c
  }

  /** Visiting cell (i, k): only that cell changes. */
  ghost function Step(p: Pass, g: Grid, i: int, k: int): (g': Grid)
    requires WellFormed(g) && InGrid(g, i, k)
    ensures WellFormed(g') && |g'| == |g| && Height(g') == Height(g)
  {
    assert |g[i][k := NewTile(p, g, i, k)]| == Height(g);
    g[i := g[i][k := NewTile(p, g, i, k)]]
  }

  /** (a, b) is visited before (i, k): x-major, then y. */
  predicate Before(a: int, b: int, i: int, k: int)
  {
    a < i || (a == i && b < k)
  }

  /** A sweep position: a cell, or the end of the grid. */
  predicate Position(g: Grid, i: int, k: int)
  {
    0 <= i <= |g| && 0 <= k <= Height(g) && (i == |g| ==> k == 0)
  }

  /** `g` after pass `p` has visited every cell before (i, k). */
  ghost function Swept(p: Pass, g: Grid, i: int, k: int): (s: Grid)
    requires WellFormed(g) && Position(g, i, k)
    ensures WellFormed(s) && |s| == |g| && Height(s) == Height(g)
    decreases i, k
  {
    if k > 0 then Step(p, Swept(p, g, i, k - 1), i, k - 1)
    else if i > 0 then Swept(p, g, i - 1, Height(g))
    else g
  }

  /** The grid after the whole sweep. */
  ghost function Run(p: Pass, g: Grid): Grid
    requires WellFormed(g)
  {
    Swept(p, g, |g|, 0)
  }

  /** Correction: first the cross sweep, then the FLOOR sweep. */
  ghost function Correction(g: Grid): Grid
    requires WellFormed(g)
  {
    Run(FloorPass, Run(CrossPass, g))
  }

  /** Before its turn a cell still holds its original value; once visited it
      holds the value given by the rule on the grid as it stood at its turn. */
  lemma {:induction false} SweptCell(p: Pass, g: Grid, i: int, k: int, a: int, b: int)
    requires WellFormed(g) && Position(g, i, k) && InGrid(g, a, b)
    ensures !Before(a, b, i, k) ==> Swept(p, g, i, k)[a][b] == g[a][b]
    ensures Before(a, b, i, k) ==> Swept(p, g, i, k)[a][b] == NewTile(p, Swept(p, g, a, b), a, b)
    decreases i, k
  {
    if k > 0 {
      SweptCell(p, g, i, k - 1, a, b);
    } else if i > 0 {
      SweptCell(p, g, i - 1, Height(g), a, b);
    }
  }

  /** Each cell ends with the rule's value on the grid at its turn, and at
      its turn the cell itself is not yet rewritten. */
  lemma RunCell(p: Pass, g: Grid, a: int, b: int)
    requires WellFormed(g) && InGrid(g, a, b)
    ensures |Run(p, g)| == |g| && Height(Run(p, g)) == Height(g)
    ensures Run(p, g)[a][b] == NewTile(p, Swept(p, g, a, b), a, b)
    ensures Swept(p, g, a, b)[a][b] == g[a][b]
  {
    SweptCell(p, g, |g|, 0, a, b);
    SweptCell(p, g, a, b, a, b);
  }

  /** The in-place hazard made exact: at the turn of (a, b), every cell
      visited earlier already holds its final value and every other cell
      its original value. */
  lemma TurnView(p: Pass, g: Grid, a: int, b: int, c: int, d: int)
    requires WellFormed(g) && InGrid(g, a, b) && InGrid(g, c, d)
    ensures Swept(p, g, a, b)[c][d] == if Before(c, d, a, b) then Run(p, g)[c][d] else g[c][d]
  {
    SweptCell(p, g, a, b, c, d);
    SweptCell(p, g, |g|, 0, c, d);
  }

  /** Absorption: STATIC and FLOOR cells keep their value, no cell becomes
      STATIC or FLOOR, and a DYNAMIC (GROUND) cell ends DYNAMIC exactly when
      its density at its turn is at least 4 (5), and GROUND otherwise. */
  lemma AbsorptionCell(g: Grid, a: int, b: int)
    requires WellFormed(g) && InGrid(g, a, b)
    ensures var r := Run(AbsorptionPass, g)[a][b];
      var density := Density(Swept(AbsorptionPass, g, a, b), a, b);
      (g[a][b] == Static || g[a][b] == Floor ==> r == g[a][b]) &&
      (r == Static || r == Floor ==> r == g[a][b]) &&
      (g[a][b] == Dynamic ==> (r == Dynamic <==> density >= 4) && (r == Ground <==> density < 4)) &&
      (g[a][b] == Ground ==> (r == Dynamic <==> density >= 5) && (r == Ground <==> density < 5))
  {
    RunCell(AbsorptionPass, g, a, b);
  }

  /** The cross sweep only turns DYNAMIC into GROUND, and does so exactly
      when at least three 4-neighbours are GROUND at the cell's turn. */
  lemma CrossCell(g: Grid, a: int, b: int)
    requires WellFormed(g) && InGrid(g, a, b)
    ensures var r := Run(CrossPass, g)[a][b];
      (r != g[a][b] ==> g[a][b] == Dynamic && r == Ground) &&
      (g[a][b] == Dynamic ==>
        (r == Ground <==> |CrossNeighbours(Swept(CrossPass, g, a, b), a, b)| >= 3))
  {
    RunCell(CrossPass, g, a, b);
  }

  /** The FLOOR sweep in closed form: a cell becomes FLOOR exactly when it is
      GROUND, the cell above it is DYNAMIC or STATIC, and the cell below it
      exists and is still GROUND after the sweep has passed it; nothing else
      changes. */
  lemma {:induction false} FloorCell(g: Grid, a: int, b: int)
    requires WellFormed(g) && InGrid(g, a, b)
    ensures var out := Run(FloorPass, g);
      |out| == |g| && Height(out) == Height(g) &&
      (out[a][b] != g[a][b] ==> g[a][b] == Ground && out[a][b] == Floor) &&
      (out[a][b] == Floor && g[a][b] != Floor <==>
        g[a][b] == Ground && 1 <= b && b + 1 < Height(g) &&
        (g[a][b + 1] == Dynamic || g[a][b + 1] == Static) && out[a][b - 1] == Ground)
  {
    RunCell(FloorPass, g, a, b);
    if 1 <= b && b + 1 < Height(g) {
      TurnView(FloorPass, g, a, b, a, b + 1);
      TurnView(FloorPass, g, a, b, a, b - 1);
    }
  }

  /** Correction leaves STATIC alone, only demotes DYNAMIC (to GROUND, or on
      to FLOOR) and relabels GROUND as FLOOR, and never creates FLOOR in the
      bottom row or the top row. */
  lemma {:induction false} CorrectionCell(g: Grid, a: int, b: int)
    requires WellFormed(g) && InGrid(g, a, b)
    ensures var r := Correction(g)[a][b];
      (g[a][b] == Static <==> r == Static) &&
      (r != g[a][b] ==> (g[a][b] == Dynamic && (r == Ground || r == Floor)) ||
                        (g[a][b] == Ground && r == Floor)) &&
      (r == Floor && g[a][b] != Floor ==> 1 <= b < Height(g) - 1)
  {
    var mid := Run(CrossPass, g);
    RunCell(CrossPass, g, a, b);
    FloorCell(mid, a, b);
  }

  /** Both refiners together: a cell is STATIC afterwards exactly when it was
      STATIC before. */
  lemma {:induction false} RefinersKeepStatic(g: Grid, a: int, b: int)
    requires WellFormed(g) && InGrid(g, a, b)
    ensures Correction(Run(AbsorptionPass, g))[a][b] == Static <==> g[a][b] == Static
  {
    AbsorptionCell(g, a, b);
    RunCell(AbsorptionPass, g, a, b);
    CorrectionCell(Run(AbsorptionPass, g), a, b);
  }

  /** On a map with no FLOOR yet, every FLOOR cell after both refiners is a
      ledge: it stays off the bottom and top rows, the cell above it is a
      wall (DYNAMIC or STATIC) and the cell below it is GROUND. */
  lemma {:induction false} FloorsOnLedges(g: Grid, a: int, b: int)
    requires WellFormed(g) && InGrid(g, a, b) && g[a][b] != Floor
    ensures var out := Correction(Run(AbsorptionPass, g));
      out[a][b] == Floor ==>
        1 <= b < Height(g) - 1 &&
        (out[a][b + 1] == Dynamic || out[a][b + 1] == Static) && out[a][b - 1] == Ground
  {
    var absorbed := Run(AbsorptionPass, g);
    var mid := Run(CrossPass, absorbed);
    AbsorptionCell(g, a, b);
    RunCell(AbsorptionPass, g, a, b);
    CrossCell(absorbed, a, b);
    RunCell(CrossPass, absorbed, a, b);
    FloorCell(mid, a, b);
    if Run(FloorPass, mid)[a][b] == Floor {
      FloorCell(mid, a, b + 1);
    }
  }
}
