/**
  Integer rectangles (Unity's RectInt) and the integer arithmetic the
  generator performs on them: splitting a partition, centring a room in a
  leaf, enlarging a room into its seeding area, and finding a room's centre.
*/
module Rects {

  /** C#'s `a / 2` on `int`, which truncates toward zero. It is also the value
      of `(int)(a * 0.5f)`, whose product is exact in single precision for the
      grid sizes involved. */
  function Half(a: int): (h: int)
    ensures 0 <= a ==> 0 <= h && h + h <= a <= h + h + 1
    ensures a < 0 ==> h <= 0 && h + h - 1 <= a <= h + h
  {
    if a >= 0 then a / 2 else -((-a) / 2)
  }

  lemma HalfMonotone(a: int, b: int)
    requires 0 <= a <= b
    ensures Half(a) <= Half(b) && a - Half(a) <= b - Half(b)
  {
  }

  datatype RectInt = RectInt(x: int, y: int, width: int, height: int)

  /** The value of a RectInt field nobody has assigned yet. */
  const Unset := RectInt(0, 0, 0, 0)

  predicate Contains(r: RectInt, px: int, py: int)
  {
    r.x <= px < r.x + r.width && r.y <= py < r.y + r.height
  }

  function Area(r: RectInt): int
  {
    r.width * r.height
  }

  predicate IsEmpty(r: RectInt)
  {
    r.width <= 0 || r.height <= 0
  }

  /** `inner` is empty or lies in `outer`. */
  predicate Within(inner: RectInt, outer: RectInt)
  {
    IsEmpty(inner) ||
    (outer.x <= inner.x && inner.x + inner.width <= outer.x + outer.width &&
     outer.y <= inner.y && inner.y + inner.height <= outer.y + outer.height)
  }

  lemma WithinContains(inner: RectInt, outer: RectInt, px: int, py: int)
    requires Within(inner, outer) && Contains(inner, px, py)
    ensures Contains(outer, px, py)
  {
  }

  /** The whole map [0, w) x [0, h) viewed as a rectangle. */
  predicate InsideMap(r: RectInt, w: int, h: int)
  {
    Within(r, RectInt(0, 0, w, h))
  }

  // ------------------------------------------------------------------
  // Partitioning (DivideTree)
  // ------------------------------------------------------------------

  /** The longer side, used as the split axis; width wins ties. */
  function LongSide(size: RectInt): (length: int)
    ensures length >= size.width && length >= size.height
    ensures length == size.width || length == size.height
  {
    if size.width >= size.height then size.width else size.height
  }

  /** A split is horizontal (cuts the width) iff width >= height. */
  predicate SplitsWidth(size: RectInt)
  {
    size.width >= size.height
  }

  /** The two rectangles `node1` and `node2` that DivideTree cuts `size` into
      at offset `split`, in the order the source constructs them. */
  function SplitRect(size: RectInt, split: int): (halves: (RectInt, RectInt))
    ensures SplitsWidth(size) ==>
      halves.0.height == size.height && halves.1.height == size.height &&
      halves.0.y == size.y && halves.1.y == size.y &&
      halves.0.width == split && halves.0.width + halves.1.width == size.width &&
      halves.0.x == size.x && halves.1.x == size.x + halves.0.width
    ensures !SplitsWidth(size) ==>
      halves.0.width == size.width && halves.1.width == size.width &&
      halves.0.x == size.x && halves.1.x == size.x &&
      halves.0.height == split && halves.0.height + halves.1.height == size.height &&
      halves.0.y == size.y && halves.1.y == size.y + halves.0.height
  {
    if size.width >= size.height then
      (RectInt(size.x, size.y, split, size.height),
       RectInt(size.x + split, size.y, size.width - split, size.height))
    else
      (RectInt(size.x, size.y, size.width, split),
       RectInt(size.x, size.y + split, size.width, size.height - split))
  }

  /** The offset lies on the split axis. */
  predicate SplitInRange(size: RectInt, split: int)
  {
    0 <= split <= LongSide(size)
  }

  /** The halves' areas always add up to the parent's. */
  lemma SplitAreas(size: RectInt, split: int)
    ensures Area(SplitRect(size, split).0) + Area(SplitRect(size, split).1) == Area(size)
  {
  }

  /** With the offset on the split axis, every cell of the parent lies in
      exactly one half, and no cell outside the parent lies in either. */
  lemma SplitTiles(size: RectInt, split: int, px: int, py: int)
    requires SplitInRange(size, split)
    ensures var (a, b) := SplitRect(size, split);
      (Contains(size, px, py) <==> Contains(a, px, py) || Contains(b, px, py)) &&
      !(Contains(a, px, py) && Contains(b, px, py))
  {
  }

  lemma SplitWithin(size: RectInt, split: int)
    requires SplitInRange(size, split)
    ensures Within(SplitRect(size, split).0, size) && Within(SplitRect(size, split).1, size)
  {
  }

  // ------------------------------------------------------------------
  // Room placement (GenerateDungeon, SpreadToRoom)
  // ------------------------------------------------------------------

  /** The room of size width x height that GenerateDungeon centres in `leaf`. */
  function PlaceRoom(leaf: RectInt, width: int, height: int): (room: RectInt)
    ensures room.width == width && room.height == height
    ensures 0 <= width <= leaf.width ==>
      var left := room.x - leaf.x;
      var right := leaf.x + leaf.width - (room.x + width);
      0 <= left <= right <= left + 1
    ensures 0 <= height <= leaf.height ==>
      var below := room.y - leaf.y;
      var above := leaf.y + leaf.height - (room.y + height);
      0 <= below <= above <= below + 1
  {
    RectInt(leaf.x + Half(leaf.width - width), leaf.y + Half(leaf.height - height), width, height)
  }

  lemma RoomInLeaf(leaf: RectInt, width: int, height: int)
    requires 0 <= width <= leaf.width && 0 <= height <= leaf.height
    ensures Within(PlaceRoom(leaf, width, height), leaf)
  {
  }

  /** The enlarged rectangle, of size seedWidth x seedHeight and centred on
      `room`, that SpreadToRoom seeds with random tiles. */
  function SeedRect(room: RectInt, seedWidth: int, seedHeight: int): (seed: RectInt)
    ensures seed.width == seedWidth && seed.height == seedHeight
    ensures room.width <= seedWidth ==>
      var left := room.x - seed.x;
      var right := seed.x + seedWidth - (room.x + room.width);
      0 <= left <= right <= left + 1
    ensures room.height <= seedHeight ==>
      var below := room.y - seed.y;
      var above := seed.y + seedHeight - (room.y + room.height);
      0 <= below <= above <= below + 1
  {
    RectInt(room.x - Half(seedWidth - room.width), room.y - Half(seedHeight - room.height),
            seedWidth, seedHeight)
  }

  /** The seeded area contains the room whenever it is at least as large. */
  lemma SeedContainsRoom(room: RectInt, seedWidth: int, seedHeight: int)
    requires room.width <= seedWidth && room.height <= seedHeight
    ensures Within(room, SeedRect(room, seedWidth, seedHeight))
  {
  }

  /** A room centred in its leaf, enlarged to a size that still fits the leaf,
      seeds only cells of that leaf. */
  lemma {:induction false} SeedInLeaf(leaf: RectInt, width: int, height: int, seedWidth: int, seedHeight: int)
    requires 0 <= width <= seedWidth <= leaf.width
    requires 0 <= height <= seedHeight <= leaf.height
    ensures Within(SeedRect(PlaceRoom(leaf, width, height), seedWidth, seedHeight), leaf)
  {
    HalfMonotone(seedWidth - width, leaf.width - width);
    HalfMonotone(seedHeight - height, leaf.height - height);
  }

  // ------------------------------------------------------------------
  // Corridor anchors (GetCenterX, GetCenterY)
  // ------------------------------------------------------------------

  /** The centre column: it splits a non-empty room into a left part and a
      right part of equal length, the left one longer by one when the width is
      even. */
  function GetCenterX(size: RectInt): (cx: int)
    ensures size.width > 0 ==>
      size.x <= cx < size.x + size.width &&
      var left := cx - size.x;
      var right := size.x + size.width - 1 - cx;
      right <= left <= right + 1
    ensures size.width <= 0 ==> size.x + size.width <= cx <= size.x
  {
    size.x + Half(size.width)
  }

  /** The centre row, likewise. */
  function GetCenterY(size: RectInt): (cy: int)
    ensures size.height > 0 ==>
      size.y <= cy < size.y + size.height &&
      var below := cy - size.y;
      var above := size.y + size.height - 1 - cy;
      above <= below <= above + 1
    ensures size.height <= 0 ==> size.y + size.height <= cy <= size.y
  {
    size.y + Half(size.height)
  }
}
