/**
  The partition tree as a value, and the reference definition of the three
  recursive passes over it: DivideTree (the tree it builds), GenerateDungeon
  (the rooms it places and records) and GenerateRoad (the bridges it
  carves). The passes that write the map are specified cell by cell: each
  function gives a cell's value after the pass from its value before.
*/
module Partition {
  import opened Rects
  import opened Tiles

  /** A node's position: the turns leftTree (false) and rightTree (true)
      taken from the root. */
  type Path = seq<bool>

  /** Every random draw of one generation, indexed by the node whose call
      makes it and, for tile draws, by the cell drawn for. */
  datatype Draws = Draws(
    split: Path -> int,                  // DivideTree: the rounded split offset
    coin: Path -> int,                   // DivideTree: Random.Range(0, 2)
    roomWidth: Path -> int,              // GenerateDungeon: the truncated width draw
    roomHeight: Path -> int,             // GenerateDungeon: the truncated height draw
    seed: (Path, int, int) -> Percent,   // SpreadToRoom: the draw for each seeded cell
    across: (Path, int, int) -> Percent, // GenerateRoad: side cells of the horizontal bridge
    along: (Path, int, int) -> Percent)  // GenerateRoad: side cells of the vertical bridge

  /** A TreeNode's treeSize and dungeonSize, and its subtrees. */
  datatype Tree =
    | Leaf(treeSize: RectInt, dungeonSize: RectInt)
    | Node(treeSize: RectInt, dungeonSize: RectInt, left: Tree, right: Tree)

  function Pow2(d: nat): nat
  {
    if d == 0 then 1 else 2 * Pow2(d - 1)
  }

  function NumLeaves(t: Tree): nat
  {
    match t
    case Leaf(_, _) => 1
    case Node(_, _, l, r) => NumLeaves(l) + NumLeaves(r)
  }

  function NumInternal(t: Tree): nat
  {
    match t
    case Leaf(_, _) => 0
    case Node(_, _, l, r) => 1 + NumInternal(l) + NumInternal(r)
  }

  /** Every leaf of `t` lies at depth exactly `d`. */
  predicate Complete(t: Tree, d: int)
  {
    match t
    case Leaf(_, _) => d == 0
    case Node(_, _, l, r) => d > 0 && Complete(l, d - 1) && Complete(r, d - 1)
  }

  /** A tree whose leaves all lie at depth d has 2^d leaves and 2^d - 1
      internal nodes. */
  lemma {:induction false} CompleteCounts(t: Tree, d: int)
    requires Complete(t, d)
    ensures d >= 0 && NumLeaves(t) == Pow2(d) && NumInternal(t) == Pow2(d) - 1
  {
    match t
    case Leaf(_, _) =>
    case Node(_, _, l, r) =>
      CompleteCounts(l, d - 1);
      CompleteCounts(r, d - 1);
  }

  // ------------------------------------------------------------------
  // DivideTree
  // ------------------------------------------------------------------

  /** (leftTree, rightTree) of a split node: the coin decides which half is
      left, and the halves are swapped the other way round for a vertical
      split. */
  function Children(size: RectInt, split: int, coin: int): (RectInt, RectInt)
  {
    var (node1, node2) := SplitRect(size, split);
    if SplitsWidth(size) then (if coin == 0 then (node2, node1) else (node1, node2))
    else (if coin == 0 then (node1, node2) else (node2, node1))
  }

  /** Whichever half is on the left, the children tile the parent. */
  lemma ChildrenTile(size: RectInt, split: int, coin: int, px: int, py: int)
    requires SplitInRange(size, split)
    ensures var (l, r) := Children(size, split, coin);
      (Contains(size, px, py) <==> Contains(l, px, py) || Contains(r, px, py)) &&
      !(Contains(l, px, py) && Contains(r, px, py)) &&
      Area(l) + Area(r) == Area(size)
  {
    SplitTiles(size, split, px, py);
    SplitAreas(size, split);
  }

  /** The tree DivideTree builds from a leaf with rectangle `size` and room
      field `room`, at depth `n`, at position `p`. Fresh nodes carry an
      unset room. */
  function Divided(size: RectInt, room: RectInt, n: int, maxNode: int, rng: Draws, p: Path): Tree
    decreases maxNode - n
  {
    if n < maxNode then
      var (l, r) := Children(size, rng.split(p), rng.coin(p));
      Node(size, room, Divided(l, Unset, n + 1, maxNode, rng, p + [false]),
                       Divided(r, Unset, n + 1, maxNode, rng, p + [true]))
    else
      Leaf(size, room)
  }

  /** A node is split exactly when n < maxNode, so from depth n <= maxNode
      every leaf lies at depth maxNode. */
  lemma {:induction false} DividedComplete(size: RectInt, room: RectInt, n: int, maxNode: int, rng: Draws, p: Path)
    requires n <= maxNode
    ensures Complete(Divided(size, room, n, maxNode, rng, p), maxNode - n)
    decreases maxNode - n
  {
    if n < maxNode {
      var (l, r) := Children(size, rng.split(p), rng.coin(p));
      DividedComplete(l, Unset, n + 1, maxNode, rng, p + [false]);
      DividedComplete(r, Unset, n + 1, maxNode, rng, p + [true]);
    }
  }

  /** The division from the root at depth 0 has 2^maxNode leaves and
      2^maxNode - 1 internal nodes. */
  lemma DividedCounts(size: RectInt, room: RectInt, maxNode: nat, rng: Draws)
    ensures NumLeaves(Divided(size, room, 0, maxNode, rng, [])) == Pow2(maxNode)
    ensures NumInternal(Divided(size, room, 0, maxNode, rng, [])) == Pow2(maxNode) - 1
  {
    DividedComplete(size, room, 0, maxNode, rng, []);
    CompleteCounts(Divided(size, room, 0, maxNode, rng, []), maxNode);
  }

  /** Every split offset drawn lies on its node's split axis (the source
      draws it between two fractions of the long side). */
  ghost predicate SplitsInRange(size: RectInt, n: int, maxNode: int, rng: Draws, p: Path)
    decreases maxNode - n
  {
    n < maxNode ==>
      SplitInRange(size, rng.split(p)) &&
      var (l, r) := Children(size, rng.split(p), rng.coin(p));
      SplitsInRange(l, n + 1, maxNode, rng, p + [false]) &&
      SplitsInRange(r, n + 1, maxNode, rng, p + [true])
  }

  /** Each internal node's children tile it. */
  ghost predicate Tiled(t: Tree)
  {
    match t
    case Leaf(_, _) => true
    case Node(size, _, l, r) =>
      (forall px, py :: Contains(size, px, py) <==> Contains(l.treeSize, px, py) || Contains(r.treeSize, px, py)) &&
      (forall px, py :: !(Contains(l.treeSize, px, py) && Contains(r.treeSize, px, py))) &&
      Tiled(l) && Tiled(r)
  }

  lemma {:induction false} DividedTiled(size: RectInt, room: RectInt, n: int, maxNode: int, rng: Draws, p: Path)
    requires SplitsInRange(size, n, maxNode, rng, p)
    ensures Tiled(Divided(size, room, n, maxNode, rng, p))
    ensures Divided(size, room, n, maxNode, rng, p).treeSize == size
    decreases maxNode - n
  {
    if n < maxNode {
      var (l, r) := Children(size, rng.split(p), rng.coin(p));
      DividedTiled(l, Unset, n + 1, maxNode, rng, p + [false]);
      DividedTiled(r, Unset, n + 1, maxNode, rng, p + [true]);
      forall px, py ensures
        (Contains(size, px, py) <==> Contains(l, px, py) || Contains(r, px, py)) &&
        !(Contains(l, px, py) && Contains(r, px, py))
      {
        ChildrenTile(size, rng.split(p), rng.coin(p), px, py);
      }
    }
  }

  /** The number of leaves of `t` whose rectangle holds cell (px, py). */
  function LeafHits(t: Tree, px: int, py: int): nat
  {
    match t
    case Leaf(size, _) => Ind(Contains(size, px, py))
    case Node(_, _, l, r) => LeafHits(l, px, py) + LeafHits(r, px, py)
  }

  /** In a tiled tree each cell of the root lies in exactly one leaf and no
      other cell lies in any leaf. */
  lemma {:induction false} TiledExact(t: Tree, px: int, py: int)
    requires Tiled(t)
    ensures LeafHits(t, px, py) == Ind(Contains(t.treeSize, px, py))
  {
    match t
    case Leaf(_, _) =>
    case Node(_, _, l, r) =>
      TiledExact(l, px, py);
      TiledExact(r, px, py);
  }

  function LeafArea(t: Tree): int
  {
    match t
    case Leaf(size, _) => Area(size)
    case Node(_, _, l, r) => LeafArea(l) + LeafArea(r)
  }

  /** The leaves' areas add up to the root's, whatever the draws. */
  lemma {:induction false} DividedArea(size: RectInt, room: RectInt, n: int, maxNode: int, rng: Draws, p: Path)
    ensures LeafArea(Divided(size, room, n, maxNode, rng, p)) == Area(size)
    decreases maxNode - n
  {
    if n < maxNode {
      var (l, r) := Children(size, rng.split(p), rng.coin(p));
      DividedArea(l, Unset, n + 1, maxNode, rng, p + [false]);
      DividedArea(r, Unset, n + 1, maxNode, rng, p + [true]);
      SplitAreas(size, rng.split(p));
    }
  }

  /** The partition is exact: with the offsets in range, every cell of the
      map rectangle lies in exactly one leaf. */
  lemma DividedPartition(size: RectInt, room: RectInt, n: int, maxNode: int, rng: Draws, p: Path, px: int, py: int)
    requires SplitsInRange(size, n, maxNode, rng, p)
    ensures LeafHits(Divided(size, room, n, maxNode, rng, p), px, py) == Ind(Contains(size, px, py))
  {
    DividedTiled(size, room, n, maxNode, rng, p);
    TiledExact(Divided(size, room, n, maxNode, rng, p), px, py);
  }

  // ------------------------------------------------------------------
  // GenerateDungeon
  // ------------------------------------------------------------------

  /** The room GenerateDungeon places in the leaf at `p`. */
  function LeafRoom(leaf: RectInt, rng: Draws, p: Path): RectInt
  {
    PlaceRoom(leaf, rng.roomWidth(p), rng.roomHeight(p))
  }

  /** The area SpreadToRoom seeds around that room; `spread(s)` is the
      truncated product of a size and the seeding ratio. */
  function LeafSeed(leaf: RectInt, rng: Draws, spread: int -> int, p: Path): RectInt
  {
    var room := LeafRoom(leaf, rng, p);
    SeedRect(room, spread(room.width), spread(room.height))
  }

  /** The rectangle GenerateDungeon returns for the subtree `t`: its leftmost
      leaf's room. */
  function RoomOf(t: Tree, rng: Draws, p: Path): RectInt
  {
    match t
    case Leaf(size, _) => LeafRoom(size, rng, p)
    case Node(_, _, l, _) => RoomOf(l, rng, p + [false])
  }

  /** `t` after GenerateDungeon: every node below the top stores the
      rectangle returned for it; the top node's own field is untouched. */
  function Furnished(t: Tree, rng: Draws, p: Path): Tree
  {
    match t
    case Leaf(_, _) => t
    case Node(size, room, l, r) =>
      Node(size, room,
           Furnished(l, rng, p + [false]).(dungeonSize := RoomOf(l, rng, p + [false])),
           Furnished(r, rng, p + [true]).(dungeonSize := RoomOf(r, rng, p + [true])))
  }

  /** Placing rooms changes only room fields. */
  lemma {:induction false} FurnishedShape(t: Tree, rng: Draws, p: Path, d: int)
    ensures Furnished(t, rng, p).treeSize == t.treeSize && Furnished(t, rng, p).dungeonSize == t.dungeonSize
    ensures Complete(t, d) ==> Complete(Furnished(t, rng, p), d)
    ensures Tiled(t) ==> Tiled(Furnished(t, rng, p))
  {
    match t
    case Leaf(_, _) =>
    case Node(_, _, l, r) =>
      FurnishedShape(l, rng, p + [false], d - 1);
      FurnishedShape(r, rng, p + [true], d - 1);
  }

  /** Below the top, each internal node stores exactly the rectangle stored by
      its left child, and each leaf stores its own room. */
  ghost predicate InheritsLeft(t: Tree, rng: Draws, p: Path)
  {
    match t
    case Leaf(size, room) => room == LeafRoom(size, rng, p)
    case Node(_, room, l, r) => room == l.dungeonSize && InheritsLeft(l, rng, p + [false]) && InheritsLeft(r, rng, p + [true])
  }

  lemma {:induction false} FurnishedInherits(t: Tree, rng: Draws, p: Path)
    requires t.Node?
    ensures InheritsLeft(Furnished(t, rng, p).left, rng, p + [false])
    ensures InheritsLeft(Furnished(t, rng, p).right, rng, p + [true])
  {
    ChildInherits(t.left, rng, p + [false]);
    ChildInherits(t.right, rng, p + [true]);
  }

  lemma {:induction false} ChildInherits(t: Tree, rng: Draws, p: Path)
    ensures InheritsLeft(Furnished(t, rng, p).(dungeonSize := RoomOf(t, rng, p)), rng, p)
  {
    match t
    case Leaf(_, _) =>
    case Node(_, _, l, r) =>
      ChildInherits(l, rng, p + [false]);
      ChildInherits(r, rng, p + [true]);
  }

  /** Cell (i, j)'s value after GenerateDungeon on `t`, from its value
      `prev` before: each leaf in turn seeds its area and then writes its room. */
  function RoomsAt(t: Tree, rng: Draws, spread: int -> int, p: Path, i: int, j: int, prev: TileType): TileType
  {
    match t
    case Leaf(size, _) =>
      if Contains(LeafRoom(size, rng, p), i, j) then Static
      else if Contains(LeafSeed(size, rng, spread, p), i, j) then GetRandomTile(rng.seed(p, i, j))
      else prev
    case Node(_, _, l, r) =>
      RoomsAt(r, rng, spread, p + [true], i, j, RoomsAt(l, rng, spread, p + [false], i, j, prev))
  }

  /** Every room and seeded area of `t` lies in the map (the writes of
      SpreadToRoom and OnDrawDungeon are not bounds-checked). */
  ghost predicate RoomsFit(t: Tree, rng: Draws, spread: int -> int, p: Path, w: int, h: int)
  {
    match t
    case Leaf(size, _) => InsideMap(LeafRoom(size, rng, p), w, h) && InsideMap(LeafSeed(size, rng, spread, p), w, h)
    case Node(_, _, l, r) => RoomsFit(l, rng, spread, p + [false], w, h) && RoomsFit(r, rng, spread, p + [true], w, h)
  }

  /** Every room and seeded area of `t` lies in its own leaf. */
  ghost predicate RoomsInLeaves(t: Tree, rng: Draws, spread: int -> int, p: Path)
  {
    match t
    case Leaf(size, _) => Within(LeafRoom(size, rng, p), size) && Within(LeafSeed(size, rng, spread, p), size)
    case Node(_, _, l, r) => RoomsInLeaves(l, rng, spread, p + [false]) && RoomsInLeaves(r, rng, spread, p + [true])
  }

  /** The draws the source can produce: a room no wider than its leaf, and a
      seeded area at least as large as the room yet no larger than the leaf. */
  ghost predicate SizesInRange(t: Tree, rng: Draws, spread: int -> int, p: Path)
  {
    match t
    case Leaf(size, _) =>
      var w, h := rng.roomWidth(p), rng.roomHeight(p);
      0 <= w <= spread(w) <= size.width && 0 <= h <= spread(h) <= size.height
    case Node(_, _, l, r) => SizesInRange(l, rng, spread, p + [false]) && SizesInRange(r, rng, spread, p + [true])
  }

  lemma {:induction false} SizesGiveRoomsInLeaves(t: Tree, rng: Draws, spread: int -> int, p: Path)
    requires SizesInRange(t, rng, spread, p)
    ensures RoomsInLeaves(t, rng, spread, p)
  {
    match t
    case Leaf(size, _) =>
      var w, h := rng.roomWidth(p), rng.roomHeight(p);
      RoomInLeaf(size, w, h);
      SeedInLeaf(size, w, h, spread(w), spread(h));
    case Node(_, _, l, r) =>
      SizesGiveRoomsInLeaves(l, rng, spread, p + [false]);
      SizesGiveRoomsInLeaves(r, rng, spread, p + [true]);
  }

  /** Some leaf's room holds the cell. */
  predicate InSomeRoom(t: Tree, rng: Draws, p: Path, i: int, j: int)
  {
    match t
    case Leaf(size, _) => Contains(LeafRoom(size, rng, p), i, j)
    case Node(_, _, l, r) => InSomeRoom(l, rng, p + [false], i, j) || InSomeRoom(r, rng, p + [true], i, j)
  }

  /** Some leaf's room or seeded area holds the cell. */
  predicate InSomeFootprint(t: Tree, rng: Draws, spread: int -> int, p: Path, i: int, j: int)
  {
    match t
    case Leaf(size, _) => Contains(LeafRoom(size, rng, p), i, j) || Contains(LeafSeed(size, rng, spread, p), i, j)
    case Node(_, _, l, r) => InSomeFootprint(l, rng, spread, p + [false], i, j) || InSomeFootprint(r, rng, spread, p + [true], i, j)
  }

  /** GenerateDungeon leaves every cell outside all rooms and seeded areas as it was. */
  lemma {:induction false} RoomsElsewhere(t: Tree, rng: Draws, spread: int -> int, p: Path, i: int, j: int, prev: TileType)
    requires !InSomeFootprint(t, rng, spread, p, i, j)
    ensures RoomsAt(t, rng, spread, p, i, j, prev) == prev
  {
    match t
    case Leaf(_, _) =>
    case Node(_, _, l, r) =>
      RoomsElsewhere(l, rng, spread, p + [false], i, j, prev);
      RoomsElsewhere(r, rng, spread, p + [true], i, j, prev);
  }

  lemma {:induction false} FootprintInside(t: Tree, rng: Draws, spread: int -> int, p: Path, i: int, j: int)
    requires Tiled(t) && RoomsInLeaves(t, rng, spread, p) && InSomeFootprint(t, rng, spread, p, i, j)
    ensures Contains(t.treeSize, i, j)
  {
    match t
    case Leaf(size, _) =>
      if Contains(LeafRoom(size, rng, p), i, j) {
        WithinContains(LeafRoom(size, rng, p), size, i, j);
      } else {
        WithinContains(LeafSeed(size, rng, spread, p), size, i, j);
      }
    case Node(_, _, l, r) =>
      if InSomeFootprint(l, rng, spread, p + [false], i, j) {
        FootprintInside(l, rng, spread, p + [false], i, j);
      } else {
        FootprintInside(r, rng, spread, p + [true], i, j);
      }
  }

  /** With the partition exact and every room and seeded area inside its own
      leaf, every cell of every room is STATIC after GenerateDungeon: no later
      leaf's seeding reaches it. */
  lemma {:induction false} RoomsStatic(t: Tree, rng: Draws, spread: int -> int, p: Path, i: int, j: int, prev: TileType)
    requires Tiled(t) && RoomsInLeaves(t, rng, spread, p) && InSomeRoom(t, rng, p, i, j)
    ensures RoomsAt(t, rng, spread, p, i, j, prev) == Static
  {
    match t
    case Leaf(_, _) =>
    case Node(_, _, l, r) =>
      var pl, pr := p + [false], p + [true];
      if InSomeRoom(l, rng, pl, i, j) {
        RoomsStatic(l, rng, spread, pl, i, j, prev);
        RoomInside(l, rng, spread, pl, i, j);
        if InSomeFootprint(r, rng, spread, pr, i, j) {
          FootprintInside(r, rng, spread, pr, i, j);
          assert false;
        }
        RoomsElsewhere(r, rng, spread, pr, i, j, Static);
      } else {
        RoomsStatic(r, rng, spread, pr, i, j, RoomsAt(l, rng, spread, pl, i, j, prev));
      }
  }

  lemma {:induction false} RoomInside(t: Tree, rng: Draws, spread: int -> int, p: Path, i: int, j: int)
    requires Tiled(t) && RoomsInLeaves(t, rng, spread, p) && InSomeRoom(t, rng, p, i, j)
    ensures Contains(t.treeSize, i, j)
  {
    RoomIsFootprint(t, rng, spread, p, i, j);
    FootprintInside(t, rng, spread, p, i, j);
  }

  lemma {:induction false} RoomIsFootprint(t: Tree, rng: Draws, spread: int -> int, p: Path, i: int, j: int)
    requires InSomeRoom(t, rng, p, i, j)
    ensures InSomeFootprint(t, rng, spread, p, i, j)
  {
    match t
    case Leaf(_, _) =>
    case Node(_, _, l, r) =>
      if InSomeRoom(l, rng, p + [false], i, j) {
        RoomIsFootprint(l, rng, spread, p + [false], i, j);
      } else {
        RoomIsFootprint(r, rng, spread, p + [true], i, j);
      }
  }

  // ------------------------------------------------------------------
  // GenerateRoad
  // ------------------------------------------------------------------

  function Min(a: int, b: int): int { if a <= b then a else b }
  function Max(a: int, b: int): int { if a <= b then b else a }

  /** The bridge thickness on each side of a centreline. */
  const Reach := 3

  /** Cell (i, j) after the two bridge loops of the node at `p`, whose
      children store rooms `a` (left) and `b` (right): the horizontal band
      on the row of a's centre, then the vertical band on the column of b's
      centre. Side cells past the map's edge are skipped. */
  function BridgeAt(a: RectInt, b: RectInt, rng: Draws, p: Path, w: int, h: int, i: int, j: int, prev: TileType): TileType
  {
    var x1, y1, x2, y2 := GetCenterX(a), GetCenterY(a), GetCenterX(b), GetCenterY(b);
    var across :=
      if Min(x1, x2) <= i <= Max(x1, x2) && y1 - Reach <= j <= y1 + Reach && 0 <= j < h then
        (if j == y1 then Static else GetRandomTile(rng.across(p, i, j)))
      else prev;
    if Min(y1, y2) <= j <= Max(y1, y2) && x2 - Reach <= i <= x2 + Reach && 0 <= i < w then
      (if i == x2 then Static else GetRandomTile(rng.along(p, i, j)))
    else across
  }

  /** The unguarded writes of the two loops, the centrelines, stay in the map. */
  predicate BridgeFits(a: RectInt, b: RectInt, w: int, h: int)
  {
    var x1, y1, x2, y2 := GetCenterX(a), GetCenterY(a), GetCenterX(b), GetCenterY(b);
    0 <= Min(x1, x2) && Max(x1, x2) < w && 0 <= y1 < h &&
    0 <= x2 < w && 0 <= Min(y1, y2) && Max(y1, y2) < h
  }

  ghost predicate BridgesFit(t: Tree, w: int, h: int)
  {
    match t
    case Leaf(_, _) => true
    case Node(_, _, l, r) => BridgeFits(l.dungeonSize, r.dungeonSize, w, h) && BridgesFit(l, w, h) && BridgesFit(r, w, h)
  }

  /** Right after a node's bridges are carved, the vertical centreline is
      STATIC from one centre row to the other, and the horizontal centreline
      is STATIC except where the vertical band's side cells overwrite it. */
  lemma BridgeCentrelines(a: RectInt, b: RectInt, rng: Draws, p: Path, w: int, h: int, i: int, j: int, prev: TileType)
    requires BridgeFits(a, b, w, h)
    ensures var x1, y1, x2, y2 := GetCenterX(a), GetCenterY(a), GetCenterX(b), GetCenterY(b);
      (i == x2 && Min(y1, y2) <= j <= Max(y1, y2) ==> BridgeAt(a, b, rng, p, w, h, i, j, prev) == Static) &&
      (j == y1 && Min(x1, x2) <= i <= Max(x1, x2) && (i < x2 - Reach || x2 + Reach < i) ==>
         BridgeAt(a, b, rng, p, w, h, i, j, prev) == Static)
  {
  }

  /** Only cells within Reach of a centreline, inside the map, are written. */
  lemma BridgeLocal(a: RectInt, b: RectInt, rng: Draws, p: Path, w: int, h: int, i: int, j: int, prev: TileType)
    requires BridgeFits(a, b, w, h)
    requires BridgeAt(a, b, rng, p, w, h, i, j, prev) != prev
    ensures 0 <= i < w && 0 <= j < h
    ensures var x1, y1, x2, y2 := GetCenterX(a), GetCenterY(a), GetCenterX(b), GetCenterY(b);
      (Min(x1, x2) <= i <= Max(x1, x2) && y1 - Reach <= j <= y1 + Reach) ||
      (Min(y1, y2) <= j <= Max(y1, y2) && x2 - Reach <= i <= x2 + Reach)
  {
  }

  /** Cell (i, j) after GenerateRoad on `t`, from its value `prev` before:
      a node carves its own bridges, then recurses left, then right; a leaf
      carves nothing. */
  function RoadsAt(t: Tree, rng: Draws, p: Path, w: int, h: int, i: int, j: int, prev: TileType): TileType
  {
    match t
    case Leaf(_, _) => prev
    case Node(_, _, l, r) =>
      var here := BridgeAt(l.dungeonSize, r.dungeonSize, rng, p, w, h, i, j, prev);
      RoadsAt(r, rng, p + [true], w, h, i, j, RoadsAt(l, rng, p + [false], w, h, i, j, here))
  }

  /** Some internal node's bridges come within Reach of the cell. */
  predicate NearBridge(t: Tree, w: int, h: int, i: int, j: int)
  {
    match t
    case Leaf(_, _) => false
    case Node(_, _, l, r) =>
      var x1, y1 := GetCenterX(l.dungeonSize), GetCenterY(l.dungeonSize);
      var x2, y2 := GetCenterX(r.dungeonSize), GetCenterY(r.dungeonSize);
      (Min(x1, x2) <= i <= Max(x1, x2) && y1 - Reach <= j <= y1 + Reach) ||
      (Min(y1, y2) <= j <= Max(y1, y2) && x2 - Reach <= i <= x2 + Reach) ||
      NearBridge(l, w, h, i, j) || NearBridge(r, w, h, i, j)
  }

  /** GenerateRoad changes only in-map cells near some bridge. */
  lemma {:induction false} RoadsLocal(t: Tree, rng: Draws, p: Path, w: int, h: int, i: int, j: int, prev: TileType)
    requires BridgesFit(t, w, h)
    requires RoadsAt(t, rng, p, w, h, i, j, prev) != prev
    ensures 0 <= i < w && 0 <= j < h && NearBridge(t, w, h, i, j)
  {
    match t
    case Leaf(_, _) =>
    case Node(_, _, l, r) =>
      var here := BridgeAt(l.dungeonSize, r.dungeonSize, rng, p, w, h, i, j, prev);
      var mid := RoadsAt(l, rng, p + [false], w, h, i, j, here);
      if here != prev {
        BridgeLocal(l.dungeonSize, r.dungeonSize, rng, p, w, h, i, j, prev);
      } else if mid != here {
        RoadsLocal(l, rng, p + [false], w, h, i, j, here);
      } else {
        RoadsLocal(r, rng, p + [true], w, h, i, j, mid);
      }
  }

  /** Away from every bridge GenerateRoad changes nothing. */
  lemma {:induction false} RoadsElsewhere(t: Tree, rng: Draws, p: Path, w: int, h: int, i: int, j: int, prev: TileType)
    requires !NearBridge(t, w, h, i, j)
    ensures RoadsAt(t, rng, p, w, h, i, j, prev) == prev
  {
    match t
    case Leaf(_, _) =>
    case Node(_, _, l, r) =>
      RoadsElsewhere(l, rng, p + [false], w, h, i, j, prev);
      RoadsElsewhere(r, rng, p + [true], w, h, i, j, prev);
  }

  // ------------------------------------------------------------------
  // The whole layout
  // ------------------------------------------------------------------

  /** The tree Awake divides: the whole map, from depth 0. */
  function Root(w: int, h: int, maxNode: int, rng: Draws): Tree
  {
    Divided(RectInt(0, 0, w, h), Unset, 0, maxNode, rng, [])
  }

  /** The map after DivideTree, GenerateDungeon and GenerateRoad, starting from
      an all-GROUND map. */
  function Carved(w: nat, h: nat, maxNode: int, rng: Draws, spread: int -> int): (g: Grid)
    ensures |g| == w && WellFormed(g) && (w > 0 ==> Height(g) == h)
  {
    var t := Root(w, h, maxNode, rng);
    seq(w, i => seq(h, j => RoadsAt(Furnished(t, rng, []), rng, [], w, h, i, j, RoomsAt(t, rng, spread, [], i, j, Ground))))
  }

  /** A rectangle inside a rectangle whose cells all lie in the map lies in the map. */
  lemma InsideMapVia(inner: RectInt, outer: RectInt, w: int, h: int)
    requires Within(inner, outer)
    requires forall px, py :: Contains(outer, px, py) ==> Contains(RectInt(0, 0, w, h), px, py)
    ensures InsideMap(inner, w, h)
  {
    if !IsEmpty(inner) {
      assert Contains(outer, inner.x, inner.y);
      assert Contains(outer, inner.x + inner.width - 1, inner.y + inner.height - 1);
    }
  }

  lemma {:induction false} LeavesHoldRooms(t: Tree, rng: Draws, spread: int -> int, p: Path, w: int, h: int)
    requires Tiled(t) && RoomsInLeaves(t, rng, spread, p)
    requires forall px, py :: Contains(t.treeSize, px, py) ==> Contains(RectInt(0, 0, w, h), px, py)
    ensures RoomsFit(t, rng, spread, p, w, h)
  {
    match t
    case Leaf(size, _) =>
      InsideMapVia(LeafRoom(size, rng, p), size, w, h);
      InsideMapVia(LeafSeed(size, rng, spread, p), size, w, h);
    case Node(size, _, l, r) =>
      LeavesHoldRooms(l, rng, spread, p + [false], w, h);
      LeavesHoldRooms(r, rng, spread, p + [true], w, h);
  }

  /** With the split offsets on their axes and room and seeding sizes no
      larger than their leaves, every unguarded write of GenerateDungeon
      stays in the map. */
  lemma SizesGiveRoomsFit(w: int, h: int, maxNode: int, rng: Draws, spread: int -> int)
    requires SplitsInRange(RectInt(0, 0, w, h), 0, maxNode, rng, [])
    requires SizesInRange(Root(w, h, maxNode, rng), rng, spread, [])
    ensures RoomsFit(Root(w, h, maxNode, rng), rng, spread, [], w, h)
  {
    DividedTiled(RectInt(0, 0, w, h), Unset, 0, maxNode, rng, []);
    SizesGiveRoomsInLeaves(Root(w, h, maxNode, rng), rng, spread, []);
    LeavesHoldRooms(Root(w, h, maxNode, rng), rng, spread, [], w, h);
  }

  /** Every leaf draws a room of positive width and height. */
  ghost predicate RoomsNonEmpty(t: Tree, rng: Draws, p: Path)
  {
    match t
    case Leaf(_, _) => rng.roomWidth(p) > 0 && rng.roomHeight(p) > 0
    case Node(_, _, l, r) => RoomsNonEmpty(l, rng, p + [false]) && RoomsNonEmpty(r, rng, p + [true])
  }

  /** The room GenerateDungeon returns for a subtree is one of its leaves'
      rooms, so it is non-empty and in the map when they all are. */
  lemma {:induction false} RoomOfFits(t: Tree, rng: Draws, spread: int -> int, p: Path, w: int, h: int)
    requires RoomsFit(t, rng, spread, p, w, h) && RoomsNonEmpty(t, rng, p)
    ensures InsideMap(RoomOf(t, rng, p), w, h) && !IsEmpty(RoomOf(t, rng, p))
  {
    match t
    case Leaf(_, _) =>
    case Node(_, _, l, _) => RoomOfFits(l, rng, spread, p + [false], w, h);
  }

  /** Bridges depend only on the children's rooms, not on the top's own. */
  lemma BridgesFitTop(t: Tree, room: RectInt, w: int, h: int)
    ensures BridgesFit(t.(dungeonSize := room), w, h) == BridgesFit(t, w, h)
  {
  }

  /** Non-empty rooms in the map put every centreline the bridges write in
      the map: the only unguarded writes of GenerateRoad stay in bounds. */
  lemma {:induction false} RoomsGiveBridgesFit(t: Tree, rng: Draws, spread: int -> int, p: Path, w: int, h: int)
    requires RoomsFit(t, rng, spread, p, w, h) && RoomsNonEmpty(t, rng, p)
    ensures BridgesFit(Furnished(t, rng, p), w, h)
  {
    match t
    case Leaf(_, _) =>
    case Node(_, _, l, r) =>
      var pl, pr := p + [false], p + [true];
      RoomOfFits(l, rng, spread, pl, w, h);
      RoomOfFits(r, rng, spread, pr, w, h);
      RoomsGiveBridgesFit(l, rng, spread, pl, w, h);
      RoomsGiveBridgesFit(r, rng, spread, pr, w, h);
      BridgesFitTop(Furnished(l, rng, pl), RoomOf(l, rng, pl), w, h);
      BridgesFitTop(Furnished(r, rng, pr), RoomOf(r, rng, pr), w, h);
  }

  /** Carving writes only GROUND, DYNAMIC and STATIC. */
  lemma {:induction false} RoomsNoFloor(t: Tree, rng: Draws, spread: int -> int, p: Path, i: int, j: int, prev: TileType)
    requires prev != Floor
    ensures RoomsAt(t, rng, spread, p, i, j, prev) != Floor
  {
    match t
    case Leaf(_, _) =>
    case Node(_, _, l, r) =>
      RoomsNoFloor(l, rng, spread, p + [false], i, j, prev);
      RoomsNoFloor(r, rng, spread, p + [true], i, j, RoomsAt(l, rng, spread, p + [false], i, j, prev));
  }

  lemma {:induction false} RoadsNoFloor(t: Tree, rng: Draws, p: Path, w: int, h: int, i: int, j: int, prev: TileType)
    requires prev != Floor
    ensures RoadsAt(t, rng, p, w, h, i, j, prev) != Floor
  {
    match t
    case Leaf(_, _) =>
    case Node(_, _, l, r) =>
      var here := BridgeAt(l.dungeonSize, r.dungeonSize, rng, p, w, h, i, j, prev);
      RoadsNoFloor(l, rng, p + [false], w, h, i, j, here);
      RoadsNoFloor(r, rng, p + [true], w, h, i, j, RoadsAt(l, rng, p + [false], w, h, i, j, here));
  }

  lemma CarvedNoFloor(w: nat, h: nat, maxNode: int, rng: Draws, spread: int -> int, i: int, j: int)
    requires 0 <= i < w && 0 <= j < h
    ensures Carved(w, h, maxNode, rng, spread)[i][j] != Floor
  {
    var t := Root(w, h, maxNode, rng);
    RoomsNoFloor(t, rng, spread, [], i, j, Ground);
    RoadsNoFloor(Furnished(t, rng, []), rng, [], w, h, i, j, RoomsAt(t, rng, spread, [], i, j, Ground));
  }

  /** With the partition exact and the room sizes the source draws, a room
      cell that no bridge comes near is STATIC in the carved map, and a cell
      outside every room, seeded area and bridge is still GROUND. */
  lemma CarvedCell(w: nat, h: nat, maxNode: int, rng: Draws, spread: int -> int, i: int, j: int)
    requires 0 <= i < w && 0 <= j < h
    requires SplitsInRange(RectInt(0, 0, w, h), 0, maxNode, rng, [])
    requires SizesInRange(Root(w, h, maxNode, rng), rng, spread, [])
    ensures var t := Root(w, h, maxNode, rng);
      !NearBridge(Furnished(t, rng, []), w, h, i, j) ==>
        (InSomeRoom(t, rng, [], i, j) ==> Carved(w, h, maxNode, rng, spread)[i][j] == Static) &&
        (!InSomeFootprint(t, rng, spread, [], i, j) ==> Carved(w, h, maxNode, rng, spread)[i][j] == Ground)
  {
    var t := Root(w, h, maxNode, rng);
    var rooms := RoomsAt(t, rng, spread, [], i, j, Ground);
    DividedTiled(RectInt(0, 0, w, h), Unset, 0, maxNode, rng, []);
    SizesGiveRoomsInLeaves(t, rng, spread, []);
    if !NearBridge(Furnished(t, rng, []), w, h, i, j) {
      RoadsElsewhere(Furnished(t, rng, []), rng, [], w, h, i, j, rooms);
      if InSomeRoom(t, rng, [], i, j) {
        RoomsStatic(t, rng, spread, [], i, j, Ground);
      }
      if !InSomeFootprint(t, rng, spread, [], i, j) {
        RoomsElsewhere(t, rng, spread, [], i, j, Ground);
      }
    }
  }
}
