/**
  The generator itself: the partition tree as linked TreeNode objects and
  the DungeonGenerator whose methods build the tree, write rooms and bridges
  into the tile map, refine the map in place and choose the tile to paint
  for each cell. Every random draw comes from a `Draws` value, and every
  method is proved against the reference functions of Partition and
  Refine.
*/
module Generator {
  import opened Rects
  import opened Tiles
  import Refine
  import opened Partition

  /** A node of the partition tree. */
  class TreeNode {
    var leftTree: TreeNode?
    var rightTree: TreeNode?
    var parentTree: TreeNode?
    var treeSize: RectInt
    var dungeonSize: RectInt
    ghost var Repr: set<TreeNode>

    /** Both children or neither; the subtrees are disjoint, acyclic, and
        point back to this node as their parent. */
    ghost predicate Valid()
      reads this, Repr
      decreases Repr
    {
      this in Repr &&
      (leftTree == null <==> rightTree == null) &&
      (leftTree != null ==>
        leftTree in Repr && rightTree in Repr &&
        leftTree.Repr <= Repr && rightTree.Repr <= Repr &&
        this !in leftTree.Repr && this !in rightTree.Repr &&
        leftTree.Repr !! rightTree.Repr &&
        leftTree.parentTree == this && rightTree.parentTree == this &&
        leftTree.Valid() && rightTree.Valid())
    }

    /** The subtree rooted here, as a value. */
    ghost function Shape(): Tree
      requires Valid()
      reads this, Repr
      decreases Repr
    {
      if leftTree == null then Leaf(treeSize, dungeonSize)
      else Node(treeSize, dungeonSize, leftTree.Shape(), rightTree.Shape())
    }

    lemma ShapeTop()
      requires Valid()
      ensures Shape().treeSize == treeSize && Shape().dungeonSize == dungeonSize
      ensures Shape().Node? <==> leftTree != null
    {
    }

    /** A fresh leaf covering the given rectangle, with no room yet. */
    constructor (x: int, y: int, width: int, height: int)
      ensures Valid() && Repr == {this} && parentTree == null
      ensures Shape() == Leaf(RectInt(x, y, width, height), Unset)
    {
      leftTree := null;
      rightTree := null;
      parentTree := null;
      treeSize := RectInt(x, y, width, height);
      dungeonSize := Unset;
      Repr := {this};
    }
  }

  /** What DrawMap paints at a cell: nothing, the rule tile used for walls, or
      one of the three bottom tiles used for a ledge. */
  datatype Paint = NoTile | RuleTile | LeftBottom | CenterBottom | RightBottom

  /** The tile DrawMap paints for cell (i, k) of the refined map `g`. */
  function PaintFor(g: Grid, i: int, k: int): (t: Paint)
    requires WellFormed(g) && InGrid(g, i, k)
    ensures t == NoTile <==> g[i][k] == Ground
    ensures t == RuleTile <==> g[i][k] == Static || g[i][k] == Dynamic
    ensures t == LeftBottom <==> g[i][k] == Floor && Is(g, i - 1, k, Ground)
    ensures t == RightBottom <==> g[i][k] == Floor && !Is(g, i - 1, k, Ground) && Is(g, i + 1, k, Ground)
  {
    match g[i][k]
    case Ground => NoTile
    case Static => RuleTile
    case Dynamic => RuleTile
    case Floor =>
      if i - 1 >= 0 && g[i - 1][k] == Ground then LeftBottom
      else if i + 1 < |g| && g[i + 1][k] == Ground then RightBottom
      else CenterBottom
  }

  /** The map each generation leaves behind: carved, absorbed, corrected. */
  ghost function Generated(w: nat, h: nat, maxNode: int, rng: Draws, spread: int -> int): (g: Grid)
    ensures |g| == w && WellFormed(g) && (w > 0 ==> Height(g) == h)
  {
    var carved := Carved(w, h, maxNode, rng, spread);
    Refine.Correction(Refine.Run(Refine.AbsorptionPass, carved))
  }

  /** On the final map a cell is STATIC exactly when carving left it STATIC,
      and every FLOOR cell is a ledge: off the top and bottom rows, under a
      wall (DYNAMIC or STATIC) and above GROUND. */
  lemma GeneratedCell(w: nat, h: nat, maxNode: int, rng: Draws, spread: int -> int, i: int, j: int)
    requires 0 <= i < w && 0 <= j < h
    ensures var g := Generated(w, h, maxNode, rng, spread);
      (g[i][j] == Static <==> Carved(w, h, maxNode, rng, spread)[i][j] == Static) &&
      (g[i][j] == Floor ==> 1 <= j < h - 1 && (g[i][j + 1] == Dynamic || g[i][j + 1] == Static) && g[i][j - 1] == Ground)
  {
    var carved := Carved(w, h, maxNode, rng, spread);
    CarvedNoFloor(w, h, maxNode, rng, spread, i, j);
    Refine.RefinersKeepStatic(carved, i, j);
    Refine.FloorsOnLedges(carved, i, j);
  }

  /** With the draws the source can produce, a room cell that no bridge comes
      near is STATIC on the final map: the refiners never remove a room. */
  lemma RoomsSurvive(w: nat, h: nat, maxNode: int, rng: Draws, spread: int -> int, i: int, j: int)
    requires 0 <= i < w && 0 <= j < h
    requires SplitsInRange(RectInt(0, 0, w, h), 0, maxNode, rng, [])
    requires SizesInRange(Root(w, h, maxNode, rng), rng, spread, [])
    requires InSomeRoom(Root(w, h, maxNode, rng), rng, [], i, j)
    requires !NearBridge(Furnished(Root(w, h, maxNode, rng), rng, []), w, h, i, j)
    ensures Generated(w, h, maxNode, rng, spread)[i][j] == Static
  {
    CarvedCell(w, h, maxNode, rng, spread, i, j);
    GeneratedCell(w, h, maxNode, rng, spread, i, j);
  }

  /** What DrawMap paints on the final map: nothing exactly on GROUND, the
      rule tile on every cell carving left STATIC, and a bottom tile only on
      a ledge, off the top and bottom rows, with a wall above and GROUND below. */
  lemma PaintedCell(w: nat, h: nat, maxNode: int, rng: Draws, spread: int -> int, i: int, k: int)
    requires 0 <= i < w && 0 <= k < h
    ensures var g := Generated(w, h, maxNode, rng, spread);
      var t := PaintFor(g, i, k);
      (t == NoTile <==> g[i][k] == Ground) &&
      (Carved(w, h, maxNode, rng, spread)[i][k] == Static ==> t == RuleTile) &&
      (t == LeftBottom || t == CenterBottom || t == RightBottom ==>
        1 <= k < h - 1 && (g[i][k + 1] == Dynamic || g[i][k + 1] == Static) && g[i][k - 1] == Ground)
  {
    GeneratedCell(w, h, maxNode, rng, spread, i, k);
  }

  class DungeonGenerator {
    const mapSizeX: nat
    const mapSizeY: nat
    const maxNode: int
    /** `spread(s)` is `(int)(s * 1.8f)`, the size of the seeded area around a
        room side of length s. */
    const spread: int -> int
    /** The tile map (`map` in the source). */
    var tiles: array2<TileType>

    ghost predicate Valid()
      reads this
    {
      tiles.Length0 == mapSizeX && tiles.Length1 == mapSizeY
    }

    /** The generator before Awake: its settings, and no map yet. */
    constructor (sizeX: nat, sizeY: nat, depth: int, seedSize: int -> int)
      ensures mapSizeX == sizeX && mapSizeY == sizeY && maxNode == depth && spread == seedSize
      ensures tiles.Length0 == 0 && tiles.Length1 == 0
    {
      mapSizeX := sizeX;
      mapSizeY := sizeY;
      maxNode := depth;
      spread := seedSize;
      tiles := new TileType[0, 0];
    }

    /** The map as a grid value. */
    ghost function Cells(): (g: Grid)
      reads this, tiles
      ensures |g| == tiles.Length0 && forall i :: 0 <= i < |g| ==> |g[i]| == tiles.Length1
      ensures forall i, j :: 0 <= i < tiles.Length0 && 0 <= j < tiles.Length1 ==> g[i][j] == tiles[i, j]
    {
      var a := tiles;
      seq(a.Length0, i requires 0 <= i < a.Length0 reads a =>
        seq(a.Length1, j requires 0 <= j < a.Length1 reads a => a[i, j]))
    }

    /** The map holds grid `g`. */
    ghost predicate Holds(g: Grid)
      reads this, tiles
    {
      |g| == tiles.Length0 && (forall i :: 0 <= i < |g| ==> |g[i]| == tiles.Length1) && WellFormed(g) &&
      forall i, j :: 0 <= i < tiles.Length0 && 0 <= j < tiles.Length1 ==> tiles[i, j] == g[i][j]
    }

    lemma HoldsCells(g: Grid)
      requires Holds(g)
      ensures Cells() == g && WellFormed(g) && (|g| > 0 ==> Height(g) == tiles.Length1)
    {
      var c := Cells();
      forall i | 0 <= i < |g| ensures c[i] == g[i] {
        assert |c[i]| == |g[i]|;
        forall j | 0 <= j < |g[i]| ensures c[i][j] == g[i][j] {
        }
      }
    }

    // ----------------------------------------------------------------
    // DivideTree
    // ----------------------------------------------------------------

    /** Splits the leaf `node` recursively until depth maxNode; `p` is its
        position in the tree. */
    method DivideTree(node: TreeNode, n: int, rng: Draws, p: Path)
      requires node.Valid() && node.leftTree == null
      modifies node
      ensures node.Valid() && fresh(node.Repr - old(node.Repr))
      ensures node.parentTree == old(node.parentTree)
      ensures node.Shape() == Divided(old(node.treeSize), old(node.dungeonSize), n, maxNode, rng, p)
      decreases maxNode - n
    {
      if n < maxNode {
        var l, r := Split(node, rng.split(p), rng.coin(p));
        ghost var halves := Children(node.treeSize, rng.split(p), rng.coin(p));
        DivideTree(l, n + 1, rng, p + [false]);
        ghost var shapeL := l.Shape();
        assert r.Valid() && r.Shape() == Leaf(halves.1, Unset);
        DivideTree(r, n + 1, rng, p + [true]);
        assert l.Valid() && l.Shape() == shapeL;
        node.Repr := {node} + l.Repr + r.Repr;
        assert node.Valid();
        assert node.Shape() == Node(node.treeSize, node.dungeonSize, shapeL, r.Shape());
      }
    }

    /** One split of DivideTree: cuts the leaf `node` at offset `split`
        along its long side and hangs the halves under it in the order the
        coin gives. */
    method Split(node: TreeNode, split: int, coin: int) returns (l: TreeNode, r: TreeNode)
      requires node.Valid() && node.leftTree == null
      modifies node
      ensures fresh(l) && fresh(r) && l != r
      ensures node.leftTree == l && node.rightTree == r && node.Repr == old(node.Repr)
      ensures unchanged(node`treeSize, node`dungeonSize, node`parentTree)
      ensures l.Valid() && l.Repr == {l} && l.parentTree == node
      ensures r.Valid() && r.Repr == {r} && r.parentTree == node
      ensures (l.Shape(), r.Shape()) ==
        var (a, b) := Children(node.treeSize, split, coin);
        (Leaf(a, Unset), Leaf(b, Unset))
    {
      var size := node.treeSize;
      var node1, node2;
      if size.width >= size.height {
        node1 := new TreeNode(size.x, size.y, split, size.height);
        node2 := new TreeNode(size.x + split, size.y, size.width - split, size.height);
        var rand := coin;
        node.leftTree := if rand == 0 then node2 else node1;
        node.rightTree := if rand == 0 then node1 else node2;
      } else {
        node1 := new TreeNode(size.x, size.y, size.width, split);
        node2 := new TreeNode(size.x, size.y + split, size.width, size.height - split);
        var rand := coin;
        node.leftTree := if rand == 0 then node1 else node2;
        node.rightTree := if rand == 0 then node2 else node1;
      }
      l, r := node.leftTree, node.rightTree;
      l.parentTree := node;
      r.parentTree := node;
    }

    // ----------------------------------------------------------------
    // GenerateDungeon
    // ----------------------------------------------------------------

    /** Seeds the area of size spread(width) x spread(height) centred on the
        room at (x, y) with random tiles, drawing `draw(i, j)` for cell (i, j). */
    method SpreadToRoom(x: int, y: int, width: int, height: int, draw: (int, int) -> Percent)
      requires Valid()
      requires InsideMap(SeedRect(RectInt(x, y, width, height), spread(width), spread(height)), mapSizeX, mapSizeY)
      modifies tiles
      ensures forall i, j :: 0 <= i < mapSizeX && 0 <= j < mapSizeY ==>
        tiles[i, j] == if Contains(SeedRect(RectInt(x, y, width, height), spread(width), spread(height)), i, j)
                       then GetRandomTile(draw(i, j)) else old(tiles[i, j])
    {
      var seed := SeedRect(RectInt(x, y, width, height), spread(width), spread(height));
      var sw := spread(width);
      var sh := spread(height);
      var sx := x - Half(sw - width);
      var sy := y - Half(sh - height);
      assert seed == RectInt(sx, sy, sw, sh);
      var i := sx;
      while i < sx + sw
        invariant sx <= i && (i <= sx + sw || i == sx)
        invariant forall a, b :: 0 <= a < mapSizeX && 0 <= b < mapSizeY ==>
          tiles[a, b] == if sx <= a < i && sy <= b < sy + sh then GetRandomTile(draw(a, b)) else old(tiles[a, b])
      {
        var j := sy;
        while j < sy + sh
          invariant sy <= j && (j <= sy + sh || j == sy)
          invariant forall a, b :: 0 <= a < mapSizeX && 0 <= b < mapSizeY ==>
            tiles[a, b] == if (sx <= a < i && sy <= b < sy + sh) || (a == i && sy <= b < j)
                           then GetRandomTile(draw(a, b)) else old(tiles[a, b])
        {
          tiles[i, j] := GetRandomTile(draw(i, j));
          j := j + 1;
        }
        i := i + 1;
      }
    }

    /** Writes the room at (x, y) as STATIC. */
    method OnDrawDungeon(x: int, y: int, width: int, height: int)
      requires Valid() && InsideMap(RectInt(x, y, width, height), mapSizeX, mapSizeY)
      modifies tiles
      ensures forall a, b :: 0 <= a < mapSizeX && 0 <= b < mapSizeY ==>
        tiles[a, b] == if Contains(RectInt(x, y, width, height), a, b) then Static else old(tiles[a, b])
    {
      var i := x;
      while i < x + width
        invariant x <= i && (i <= x + width || i == x)
        invariant forall a, b :: 0 <= a < mapSizeX && 0 <= b < mapSizeY ==>
          tiles[a, b] == if x <= a < i && y <= b < y + height then Static else old(tiles[a, b])
      {
        var j := y;
        while j < y + height
          invariant y <= j && (j <= y + height || j == y)
          invariant forall a, b :: 0 <= a < mapSizeX && 0 <= b < mapSizeY ==>
            tiles[a, b] == if (x <= a < i && y <= b < y + height) || (a == i && y <= b < j)
                           then Static else old(tiles[a, b])
        {
          tiles[i, j] := Static;
          j := j + 1;
        }
        i := i + 1;
      }
    }

    /** Places a room in every leaf below `node` (at depth n, position p),
        storing in each node below it the room of its leftmost leaf, and
        returns the room of `node`'s leftmost leaf. */
    method GenerateDungeon(node: TreeNode, n: int, rng: Draws, p: Path) returns (room: RectInt)
      requires Valid() && node.Valid() && Complete(node.Shape(), maxNode - n)
      requires RoomsFit(node.Shape(), rng, spread, p, mapSizeX, mapSizeY)
      modifies node.Repr`dungeonSize, tiles
      ensures node.Valid() && node.Shape() == Furnished(old(node.Shape()), rng, p)
      ensures room == RoomOf(old(node.Shape()), rng, p)
      ensures forall i, j :: 0 <= i < mapSizeX && 0 <= j < mapSizeY ==>
        tiles[i, j] == RoomsAt(old(node.Shape()), rng, spread, p, i, j, old(tiles[i, j]))
      decreases maxNode - n, 0
    {
      if n == maxNode {
        room := PlaceLeafRoom(node, rng, p);
        return;
      }
      var l, r := node.leftTree, node.rightTree;
      ghost var shape := node.Shape();
      var pl, pr := p + [false], p + [true];
      var a := FurnishChild(l, n + 1, rng, pl);
      label Between:
      var b := FurnishChild(r, n + 1, rng, pr);
      forall i, j | 0 <= i < mapSizeX && 0 <= j < mapSizeY
        ensures tiles[i, j] == RoomsAt(shape, rng, spread, p, i, j, old(tiles[i, j]))
      {
        assert tiles[i, j] == RoomsAt(shape.right, rng, spread, pr, i, j, old@Between(tiles[i, j]));
      }
      return l.dungeonSize;
    }

    /** `child.dungeonSize = GenerateDungeon(child, n)`: furnishes the
        subtree and stores the returned room in its top node. */
    method FurnishChild(child: TreeNode, n: int, rng: Draws, p: Path) returns (room: RectInt)
      requires Valid() && child.Valid() && Complete(child.Shape(), maxNode - n)
      requires RoomsFit(child.Shape(), rng, spread, p, mapSizeX, mapSizeY)
      modifies child.Repr`dungeonSize, tiles
      ensures child.Valid() && room == RoomOf(old(child.Shape()), rng, p)
      ensures child.Shape() == Furnished(old(child.Shape()), rng, p).(dungeonSize := room)
      ensures forall i, j :: 0 <= i < mapSizeX && 0 <= j < mapSizeY ==>
        tiles[i, j] == RoomsAt(old(child.Shape()), rng, spread, p, i, j, old(tiles[i, j]))
      decreases maxNode - n, 1
    {
      room := GenerateDungeon(child, n, rng, p);
      SetRoom(child, room);
    }

    /** GenerateDungeon at a leaf: draws the room size, centres the room in
        the leaf, seeds the area around it and then writes the room. */
    method PlaceLeafRoom(node: TreeNode, rng: Draws, p: Path) returns (room: RectInt)
      requires Valid() && node.Valid() && node.leftTree == null
      requires RoomsFit(node.Shape(), rng, spread, p, mapSizeX, mapSizeY)
      modifies tiles
      ensures room == LeafRoom(node.treeSize, rng, p)
      ensures forall i, j :: 0 <= i < mapSizeX && 0 <= j < mapSizeY ==>
        tiles[i, j] == RoomsAt(node.Shape(), rng, spread, p, i, j, old(tiles[i, j]))
    {
      var size := node.treeSize;
      var width := rng.roomWidth(p);
      var height := rng.roomHeight(p);
      var x := node.treeSize.x + Half(size.width - width);
      var y := node.treeSize.y + Half(size.height - height);
      SpreadToRoom(x, y, width, height, (i, j) => rng.seed(p, i, j));
      OnDrawDungeon(x, y, width, height);
      room := RectInt(x, y, width, height);
    }

    /** `node.dungeonSize := room`, which changes only the top of its shape. */
    method SetRoom(node: TreeNode, room: RectInt)
      requires node.Valid()
      modifies node`dungeonSize
      ensures node.Valid() && node.Shape() == old(node.Shape()).(dungeonSize := room)
    {
      ghost var before := node.Shape();
      node.dungeonSize := room;
      if node.leftTree != null {
        assert node.leftTree.Shape() == before.left;
        assert node.rightTree.Shape() == before.right;
      }
    }

    // ----------------------------------------------------------------
    // Neighbour counts
    // ----------------------------------------------------------------

    /** The number of in-map 8-neighbours of (x, y) holding `t`. */
    function GetNeighborCount(x: int, y: int, t: TileType): (count: int)
      requires Valid() && 0 <= x < mapSizeX && 0 <= y < mapSizeY
      reads this, tiles
      ensures count == |Neighbours(Cells(), x, y, t)|
      ensures 0 <= count <= 8
    {
      NeighbourTally(Cells(), x, y, t);
      Ind(x - 1 >= 0 && y + 1 < mapSizeY && tiles[x - 1, y + 1] == t) +
      Ind(y + 1 < mapSizeY && tiles[x, y + 1] == t) +
      Ind(x + 1 < mapSizeX && y + 1 < mapSizeY && tiles[x + 1, y + 1] == t) +
      Ind(x - 1 >= 0 && tiles[x - 1, y] == t) +
      Ind(x + 1 < mapSizeX && tiles[x + 1, y] == t) +
      Ind(x - 1 >= 0 && y - 1 >= 0 && tiles[x - 1, y - 1] == t) +
      Ind(y - 1 >= 0 && tiles[x, y - 1] == t) +
      Ind(x + 1 < mapSizeX && y - 1 >= 0 && tiles[x + 1, y - 1] == t)
    }

    /** The number of in-map 4-neighbours of (x, y) holding GROUND. */
    function GetCrossCount(x: int, y: int): (count: int)
      requires Valid() && 0 <= x < mapSizeX && 0 <= y < mapSizeY
      reads this, tiles
      ensures count == |CrossNeighbours(Cells(), x, y)|
      ensures 0 <= count <= 4
    {
      CrossTally(Cells(), x, y);
      Ind(y + 1 < mapSizeY && tiles[x, y + 1] == Ground) +
      Ind(x - 1 >= 0 && tiles[x - 1, y] == Ground) +
      Ind(x + 1 < mapSizeX && tiles[x + 1, y] == Ground) +
      Ind(y - 1 >= 0 && tiles[x, y - 1] == Ground)
    }
  
    // ----------------------------------------------------------------
    // GenerateRoad
    // ----------------------------------------------------------------

    /** Carves the bridges between the rooms stored in the children of every
        internal node below `node`: first this node's own pair, then the left
        subtree, then the right one. */
    method GenerateRoad(node: TreeNode, n: int, rng: Draws, p: Path)
      requires Valid() && node.Valid() && Complete(node.Shape(), maxNode - n)
      requires BridgesFit(node.Shape(), mapSizeX, mapSizeY)
      modifies tiles
      ensures forall i, j :: 0 <= i < mapSizeX && 0 <= j < mapSizeY ==>
        tiles[i, j] == RoadsAt(node.Shape(), rng, p, mapSizeX, mapSizeY, i, j, old(tiles[i, j]))
      decreases maxNode - n
    {
      if n == maxNode {
        return;
      }
      ghost var shape := node.Shape();
      node.leftTree.ShapeTop();
      node.rightTree.ShapeTop();
      CarveBridges(node.leftTree.dungeonSize, node.rightTree.dungeonSize, rng, p);
      label Bridged:
      GenerateRoad(node.leftTree, n + 1, rng, p + [false]);
      label Left:
      GenerateRoad(node.rightTree, n + 1, rng, p + [true]);
      forall i, j | 0 <= i < mapSizeX && 0 <= j < mapSizeY
        ensures tiles[i, j] == RoadsAt(shape, rng, p, mapSizeX, mapSizeY, i, j, old(tiles[i, j]))
      {
        assert tiles[i, j] == RoadsAt(shape.right, rng, p + [true], mapSizeX, mapSizeY, i, j, old@Left(tiles[i, j]));
      }
    }

    /** The two bridge loops of GenerateRoad between the rooms `a` and `b`
        of a node's children, at position `p`. */
    method CarveBridges(a: RectInt, b: RectInt, rng: Draws, p: Path)
      requires Valid() && BridgeFits(a, b, mapSizeX, mapSizeY)
      modifies tiles
      ensures forall i, j :: 0 <= i < mapSizeX && 0 <= j < mapSizeY ==>
        tiles[i, j] == BridgeAt(a, b, rng, p, mapSizeX, mapSizeY, i, j, old(tiles[i, j]))
    {
      var x1 := GetCenterX(a);
      var x2 := GetCenterX(b);
      var y1 := GetCenterY(a);
      var y2 := GetCenterY(b);
      HorizontalBridge(x1, x2, y1, (i, j) => rng.across(p, i, j));
      VerticalBridge(y1, y2, x2, (i, j) => rng.along(p, i, j));
    }

    /** The horizontal bridge: for every column from x1 to x2, a STATIC cell
        on row y1 with random tiles on the three rows above and below it that
        lie in the map. */
    method HorizontalBridge(x1: int, x2: int, y1: int, draw: (int, int) -> Percent)
      requires Valid() && 0 <= Min(x1, x2) && Max(x1, x2) < mapSizeX && 0 <= y1 < mapSizeY
      modifies tiles
      ensures forall a, b :: 0 <= a < mapSizeX && 0 <= b < mapSizeY ==>
        tiles[a, b] == if Min(x1, x2) <= a <= Max(x1, x2) && y1 - Reach <= b <= y1 + Reach
                       then (if b == y1 then Static else GetRandomTile(draw(a, b)))
                       else old(tiles[a, b])
    {
      var x := Min(x1, x2);
      while x <= Max(x1, x2)
        invariant Min(x1, x2) <= x <= Max(x1, x2) + 1
        invariant forall a, b :: 0 <= a < mapSizeX && 0 <= b < mapSizeY ==>
          tiles[a, b] == if Min(x1, x2) <= a < x && y1 - Reach <= b <= y1 + Reach
                         then (if b == y1 then Static else GetRandomTile(draw(a, b)))
                         else old(tiles[a, b])
      {
        AcrossSlice(x, y1, draw);
        x := x + 1;
      }
    }

    /** The vertical bridge: for every row from y1 to y2, a STATIC cell in
        column x2 with random tiles in the three columns left and right of it
        that lie in the map. */
    method VerticalBridge(y1: int, y2: int, x2: int, draw: (int, int) -> Percent)
      requires Valid() && 0 <= Min(y1, y2) && Max(y1, y2) < mapSizeY && 0 <= x2 < mapSizeX
      modifies tiles
      ensures forall a, b :: 0 <= a < mapSizeX && 0 <= b < mapSizeY ==>
        tiles[a, b] == if Min(y1, y2) <= b <= Max(y1, y2) && x2 - Reach <= a <= x2 + Reach
                       then (if a == x2 then Static else GetRandomTile(draw(a, b)))
                       else old(tiles[a, b])
    {
      var y := Min(y1, y2);
      while y <= Max(y1, y2)
        invariant Min(y1, y2) <= y <= Max(y1, y2) + 1
        invariant forall a, b :: 0 <= a < mapSizeX && 0 <= b < mapSizeY ==>
          tiles[a, b] == if Min(y1, y2) <= b < y && x2 - Reach <= a <= x2 + Reach
                         then (if a == x2 then Static else GetRandomTile(draw(a, b)))
                         else old(tiles[a, b])
      {
        AlongSlice(y, x2, draw);
        y := y + 1;
      }
    }
  
    /** One column of the horizontal bridge: STATIC at (x, y1), random tiles
        at the in-map cells up to three rows above and below. */
    method AcrossSlice(x: int, y1: int, draw: (int, int) -> Percent)
      requires Valid() && 0 <= x < mapSizeX && 0 <= y1 < mapSizeY
      modifies tiles
      ensures forall a, b :: 0 <= a < mapSizeX && 0 <= b < mapSizeY ==>
        tiles[a, b] == if a == x && y1 - Reach <= b <= y1 + Reach
                       then (if b == y1 then Static else GetRandomTile(draw(a, b)))
                       else old(tiles[a, b])
    {
      PutRandomIf(y1 + 3 < mapSizeY, x, y1 + 3, draw);
      PutRandomIf(y1 + 2 < mapSizeY, x, y1 + 2, draw);
      PutRandomIf(y1 + 1 < mapSizeY, x, y1 + 1, draw);
      tiles[x, y1] := Static;
      PutRandomIf(y1 - 1 >= 0, x, y1 - 1, draw);
      PutRandomIf(y1 - 2 >= 0, x, y1 - 2, draw);
      PutRandomIf(y1 - 3 >= 0, x, y1 - 3, draw);
    }

    /** One row of the vertical bridge: STATIC at (x2, y), random tiles at the
        in-map cells up to three columns left and right. */
    method AlongSlice(y: int, x2: int, draw: (int, int) -> Percent)
      requires Valid() && 0 <= y < mapSizeY && 0 <= x2 < mapSizeX
      modifies tiles
      ensures forall a, b :: 0 <= a < mapSizeX && 0 <= b < mapSizeY ==>
        tiles[a, b] == if b == y && x2 - Reach <= a <= x2 + Reach
                       then (if a == x2 then Static else GetRandomTile(draw(a, b)))
                       else old(tiles[a, b])
    {
      PutRandomIf(x2 - 3 >= 0, x2 - 3, y, draw);
      PutRandomIf(x2 - 2 >= 0, x2 - 2, y, draw);
      PutRandomIf(x2 - 1 >= 0, x2 - 1, y, draw);
      tiles[x2, y] := Static;
      PutRandomIf(x2 + 1 < mapSizeX, x2 + 1, y, draw);
      PutRandomIf(x2 + 2 < mapSizeX, x2 + 2, y, draw);
      PutRandomIf(x2 + 3 < mapSizeX, x2 + 3, y, draw);
    }
  
    /** `if (guard) map[a, b] = GetRandomTile();` */
    method PutRandomIf(guard: bool, a: int, b: int, draw: (int, int) -> Percent)
      requires Valid() && (guard ==> 0 <= a < mapSizeX && 0 <= b < mapSizeY)
      modifies tiles
      ensures forall i, j :: 0 <= i < mapSizeX && 0 <= j < mapSizeY ==>
        tiles[i, j] == if guard && i == a && j == b then GetRandomTile(draw(i, j)) else old(tiles[i, j])
    {
      if guard {
        tiles[a, b] := GetRandomTile(draw(a, b));
      }
    }
  
    // ----------------------------------------------------------------
    // Refinement and painting
    // ----------------------------------------------------------------

    /** Absorption: one in-place sweep. */
    method Absorption(ghost g0: Grid)
      requires Valid() && Holds(g0)
      modifies tiles
      ensures Holds(Refine.Run(Refine.AbsorptionPass, g0))
    {
      Sweep(Refine.AbsorptionPass, g0);
    }

    /** Correction: the cross sweep, then the FLOOR sweep. */
    method Correction(ghost g0: Grid)
      requires Valid() && Holds(g0)
      modifies tiles
      ensures Holds(Refine.Correction(g0))
    {
      HoldsCells(g0);
      Sweep(Refine.CrossPass, g0);
      Sweep(Refine.FloorPass, Refine.Run(Refine.CrossPass, g0));
    }

    /** The double loop shared by the three sweeps: x-major, then y, each cell
        decided on the map as already rewritten by the cells before it. */
    method Sweep(pass: Refine.Pass, ghost g0: Grid)
      requires Valid() && Holds(g0)
      modifies tiles
      ensures Holds(Refine.Run(pass, g0))
    {
      HoldsCells(g0);
      var i := 0;
      while i < tiles.Length0
        invariant 0 <= i <= tiles.Length0
        invariant Holds(Refine.Swept(pass, g0, i, 0))
      {
        SweepColumn(pass, i, g0);
        i := i + 1;
      }
    }

    /** The inner loop of a sweep: column i, from y = 0 up. */
    method SweepColumn(pass: Refine.Pass, i: int, ghost g0: Grid)
      requires Valid() && WellFormed(g0) && 0 <= i < |g0| && Holds(Refine.Swept(pass, g0, i, 0))
      modifies tiles
      ensures Holds(Refine.Swept(pass, g0, i + 1, 0))
    {
      HoldsCells(Refine.Swept(pass, g0, i, 0));
      var k := 0;
      while k < tiles.Length1
        invariant 0 <= k <= tiles.Length1
        invariant Holds(Refine.Swept(pass, g0, i, k))
      {
        HoldsCells(Refine.Swept(pass, g0, i, k));
        Visit(pass, i, k, Refine.Swept(pass, g0, i, k));
        k := k + 1;
      }
    }

    /** The loop body of each sweep at cell (i, k). */
    method Visit(pass: Refine.Pass, i: int, k: int, ghost g: Grid)
      requires Valid() && Holds(g) && InGrid(g, i, k)
      modifies tiles
      ensures Holds(Refine.Step(pass, g, i, k))
    {
      HoldsCells(g);
      match pass
      case AbsorptionPass => AbsorbAt(i, k, g);
      case CrossPass => CrossAt(i, k, g);
      case FloorPass => FloorAt(i, k, g);
    }

    method AbsorbAt(i: int, k: int, ghost g: Grid)
      requires Valid() && Holds(g) && InGrid(g, i, k)
      modifies tiles
      ensures Holds(Refine.Step(Refine.AbsorptionPass, g, i, k))
    {
      HoldsCells(g);
      if tiles[i, k] == Dynamic && GetNeighborCount(i, k, Dynamic) + GetNeighborCount(i, k, Static) >= 4 {
        tiles[i, k] := Dynamic;
      } else if tiles[i, k] == Ground && GetNeighborCount(i, k, Dynamic) + GetNeighborCount(i, k, Static) >= 5 {
        tiles[i, k] := Dynamic;
      } else if tiles[i, k] == Ground || tiles[i, k] == Dynamic {
        tiles[i, k] := Ground;
      }
    }

    method CrossAt(i: int, k: int, ghost g: Grid)
      requires Valid() && Holds(g) && InGrid(g, i, k)
      modifies tiles
      ensures Holds(Refine.Step(Refine.CrossPass, g, i, k))
    {
      HoldsCells(g);
      if tiles[i, k] == Dynamic && GetCrossCount(i, k) >= 3 {
        tiles[i, k] := Ground;
      }
    }

    method FloorAt(i: int, k: int, ghost g: Grid)
      requires Valid() && Holds(g) && InGrid(g, i, k)
      modifies tiles
      ensures Holds(Refine.Step(Refine.FloorPass, g, i, k))
    {
      HoldsCells(g);
      if tiles[i, k] != Ground {
        return;
      }
      if k + 1 < mapSizeY && (tiles[i, k + 1] == Dynamic || tiles[i, k + 1] == Static) &&
         k - 1 >= 0 && tiles[i, k - 1] == Ground {
        tiles[i, k] := Floor;
      }
    }

    /** Refines the map and chooses the tile painted for every cell;
        `NoTile` marks a cell whose tilemap entry DrawMap leaves alone. */
    method DrawMap(ghost g0: Grid) returns (painted: array2<Paint>)
      requires Valid() && Holds(g0)
      modifies tiles
      ensures Holds(Refine.Correction(Refine.Run(Refine.AbsorptionPass, g0)))
      ensures fresh(painted) && painted.Length0 == mapSizeX && painted.Length1 == mapSizeY
      ensures forall i, k :: 0 <= i < mapSizeX && 0 <= k < mapSizeY ==>
        painted[i, k] == PaintFor(Refine.Correction(Refine.Run(Refine.AbsorptionPass, g0)), i, k)
    {
      HoldsCells(g0);
      Absorption(g0);
      Correction(Refine.Run(Refine.AbsorptionPass, g0));
      painted := PaintMap(Refine.Correction(Refine.Run(Refine.AbsorptionPass, g0)));
    }

    /** The painting loop of DrawMap on the refined map `g`. */
    method PaintMap(ghost g: Grid) returns (painted: array2<Paint>)
      requires Valid() && Holds(g)
      ensures fresh(painted) && painted.Length0 == mapSizeX && painted.Length1 == mapSizeY
      ensures forall i, k :: InGrid(g, i, k) ==> painted[i, k] == PaintFor(g, i, k)
    {
      HoldsCells(g);
      painted := new Paint[mapSizeX, mapSizeY]((i, k) => NoTile);
      var i := 0;
      while i < tiles.Length0
        invariant 0 <= i <= tiles.Length0
        invariant forall a, b :: 0 <= a < mapSizeX && 0 <= b < mapSizeY ==>
          painted[a, b] == if a < i then PaintFor(g, a, b) else NoTile
      {
        var k := 0;
        while k < tiles.Length1
          invariant 0 <= k <= tiles.Length1
          invariant forall a, b :: 0 <= a < mapSizeX && 0 <= b < mapSizeY ==>
            painted[a, b] == if a < i || (a == i && b < k) then PaintFor(g, a, b) else NoTile
        {
          if tiles[i, k] == Static {
            painted[i, k] := RuleTile;
          }
          if tiles[i, k] == Dynamic {
            painted[i, k] := RuleTile;
          }
          if tiles[i, k] == Floor {
            if i - 1 >= 0 && tiles[i - 1, k] == Ground {
              painted[i, k] := LeftBottom;
            } else if i + 1 < mapSizeX && tiles[i + 1, k] == Ground {
              painted[i, k] := RightBottom;
            } else {
              painted[i, k] := CenterBottom;
            }
          }
          k := k + 1;
        }
        i := i + 1;
      }
    }

    // ----------------------------------------------------------------
    // Awake
    // ----------------------------------------------------------------

    /** One whole generation: a fresh all-GROUND map, the tree, the rooms,
        the bridges, and DrawMap. The source crashes on a negative maxNode
        and on an out-of-map room, seeded area or bridge centreline; these
        are the preconditions. */
    method Awake(rng: Draws) returns (painted: array2<Paint>)
      requires maxNode >= 0
      requires RoomsFit(Root(mapSizeX, mapSizeY, maxNode, rng), rng, spread, [], mapSizeX, mapSizeY)
      requires BridgesFit(Furnished(Root(mapSizeX, mapSizeY, maxNode, rng), rng, []), mapSizeX, mapSizeY)
      modifies this
      ensures Valid() && fresh(tiles) && fresh(painted)
      ensures Holds(Generated(mapSizeX, mapSizeY, maxNode, rng, spread))
      ensures painted.Length0 == mapSizeX && painted.Length1 == mapSizeY
      ensures forall i, k :: 0 <= i < mapSizeX && 0 <= k < mapSizeY ==>
        painted[i, k] == PaintFor(Generated(mapSizeX, mapSizeY, maxNode, rng, spread), i, k)
    {
      tiles := new TileType[mapSizeX, mapSizeY]((i, j) => Ground);
      var rootNode := new TreeNode(0, 0, mapSizeX, mapSizeY);
      DivideTree(rootNode, 0, rng, []);
      Carve(rootNode, rng);
      painted := DrawMap(Carved(mapSizeX, mapSizeY, maxNode, rng, spread));
    }

    /** GenerateDungeon and then GenerateRoad over the divided tree, on an
        all-GROUND map: the map ends as `Carved`. */
    method Carve(rootNode: TreeNode, rng: Draws)
      requires Valid() && maxNode >= 0 && rootNode.Valid()
      requires rootNode.Shape() == Root(mapSizeX, mapSizeY, maxNode, rng)
      requires RoomsFit(Root(mapSizeX, mapSizeY, maxNode, rng), rng, spread, [], mapSizeX, mapSizeY)
      requires BridgesFit(Furnished(Root(mapSizeX, mapSizeY, maxNode, rng), rng, []), mapSizeX, mapSizeY)
      requires forall i, j :: 0 <= i < mapSizeX && 0 <= j < mapSizeY ==> tiles[i, j] == Ground
      modifies rootNode.Repr`dungeonSize, tiles
      ensures Holds(Carved(mapSizeX, mapSizeY, maxNode, rng, spread))
    {
      ghost var t := Root(mapSizeX, mapSizeY, maxNode, rng);
      PlaceRooms(rootNode, rng);
      label Rooms:
      GenerateRoad(rootNode, 0, rng, []);
      ghost var carved := Carved(mapSizeX, mapSizeY, maxNode, rng, spread);
      forall i, j | 0 <= i < mapSizeX && 0 <= j < mapSizeY
        ensures tiles[i, j] == carved[i][j]
      {
        assert old@Rooms(tiles[i, j]) == RoomsAt(t, rng, spread, [], i, j, Ground);
      }
    }

    /** The room phase of Carve: GenerateDungeon from the root. */
    method PlaceRooms(rootNode: TreeNode, rng: Draws)
      requires Valid() && maxNode >= 0 && rootNode.Valid()
      requires rootNode.Shape() == Root(mapSizeX, mapSizeY, maxNode, rng)
      requires RoomsFit(Root(mapSizeX, mapSizeY, maxNode, rng), rng, spread, [], mapSizeX, mapSizeY)
      requires forall i, j :: 0 <= i < mapSizeX && 0 <= j < mapSizeY ==> tiles[i, j] == Ground
      modifies rootNode.Repr`dungeonSize, tiles
      ensures rootNode.Valid() && rootNode.Shape() == Furnished(Root(mapSizeX, mapSizeY, maxNode, rng), rng, [])
      ensures Complete(rootNode.Shape(), maxNode)
      ensures forall i, j :: 0 <= i < mapSizeX && 0 <= j < mapSizeY ==>
        tiles[i, j] == RoomsAt(Root(mapSizeX, mapSizeY, maxNode, rng), rng, spread, [], i, j, Ground)
    {
      ghost var t := Root(mapSizeX, mapSizeY, maxNode, rng);
      DividedComplete(RectInt(0, 0, mapSizeX, mapSizeY), Unset, 0, maxNode, rng, []);
      FurnishedShape(t, rng, [], maxNode);
      var _ := GenerateDungeon(rootNode, 0, rng, []);
    }

    /** Reset clears the line renderers and the tilemap and then repeats
        Awake's generation on the same settings. */
    method Reset(rng: Draws) returns (painted: array2<Paint>)
      requires maxNode >= 0
      requires RoomsFit(Root(mapSizeX, mapSizeY, maxNode, rng), rng, spread, [], mapSizeX, mapSizeY)
      requires BridgesFit(Furnished(Root(mapSizeX, mapSizeY, maxNode, rng), rng, []), mapSizeX, mapSizeY)
      modifies this
      ensures Valid() && fresh(tiles) && fresh(painted)
      ensures Holds(Generated(mapSizeX, mapSizeY, maxNode, rng, spread))
      ensures painted.Length0 == mapSizeX && painted.Length1 == mapSizeY
      ensures forall i, k :: 0 <= i < mapSizeX && 0 <= k < mapSizeY ==>
        painted[i, k] == PaintFor(Generated(mapSizeX, mapSizeY, maxNode, rng, spread), i, k)
    {
      painted := Awake(rng);
    }
  }
}
