# Binary-space-partitioning dungeon generator, modelled in Dafny

This project models the generation pipeline of the Unity component
`DungeonGenerator` (one C# file, `Assets/Scripts/DungeonGenerator.cs`). For
one generation it:

1. allocates a `TileType[,]` map;
2. builds a binary tree of `TreeNode` rectangles (`DivideTree`). Each split
   cuts along the longer side, and width wins ties;
3. places one room in every leaf (`GenerateDungeon`). It seeds an enlarged
   area around the room with random `DYNAMIC`/`GROUND` tiles (`SpreadToRoom`),
   then writes the room as `STATIC` (`OnDrawDungeon`). It also propagates
   each subtree's leftmost room up the tree;
4. connects the rooms of every internal node's children with two 7-cell
   thick bands (`GenerateRoad`, `GetCenterX`, `GetCenterY`);
5. refines the map in place (`Absorption`, `Correction`, `GetNeighborCount`,
   `GetCrossCount`) and chooses a tile for each cell (`DrawMap`).

## Project layout

- `rects.dfy` (module `Rects`): `RectInt` and the integer arithmetic done
  on it. This covers the split halves, room centring, the seeded area and
  the room centre.
- `tiles.dfy` (module `Tiles`): `TileType`, `GetRandomTile`, and grid
  values (`seq<seq<TileType>>`, indexed `g[x][y]`). It also holds the
  neighbour sets and their tallies in the order the source tests them.
- `refine.dfy` (module `Refine`): the refiners as functions on grid values.
  `Swept(p, g, i, k)` is the grid just before the sweep visits cell (i, k),
  so the in-place, x-then-y visiting order is part of the model.
- `partition.dfy` (module `Partition`): the partition tree as the value
  `Tree`, and a reference definition of what each recursive operation
  computes:
  - `Divided`: the tree `DivideTree` builds;
  - `Furnished`: the tree after `GenerateDungeon` has stored the rooms;
  - `RoomsAt` and `RoadsAt`: one cell's value after room placement or
    road carving, given its value before;
  - `Carved`: the whole map after both.
- `generator.dfy` (module `Generator`): the imperative model.
  - `TreeNode` is a class with the source's fields. `DungeonGenerator` is a
    class whose map is an `array2<TileType>` field, named `tiles` because
    `map` is a Dafny keyword.
  - Every core method that writes the map or the tree is a method over
    that state, with the source's loops. Each is proved against the reference functions above.

Every call of `Random.Range` becomes an explicit input, collected in a
`Draws` value inside `Partition`. A tree node is identified by its path
from the root (`false` = `leftTree`). A tile draw is also identified by its
cell. The draws are:

- `split` and `coin` for `DivideTree`;
- `roomWidth` and `roomHeight` for `GenerateDungeon`;
- `seed` for `SpreadToRoom`;
- `across` and `along` for the bands of `GenerateRoad`.

Each tile draw is a `Percent` in `[0, 100)`, and `GetRandomTile` returns
`DYNAMIC` exactly when the draw is at least 45.

The product `(int)(s * 1.8f)` that `SpreadToRoom` uses for the seeded size
is the generator's constant function `spread`. Every `/ 2` and
`(int)(n * 0.5f)` is C#'s truncating halving (`Rects.Half`).

### Behaviour of the code worth knowing

- **Bounds checks.** Only the side cells of the corridor bands are guarded
  (lines 142-150 and 156-164).
  - The room and seeded-area writes are not guarded (lines 185 and 199).
    Neither are the band centrelines (lines 146 and 160).
  - The model therefore requires them to be in the map: `RoomsFit` and
    `BridgesFit` are preconditions of `Awake`.
  - `SizesGiveRoomsFit` shows that `RoomsFit` follows from split offsets on
    their axes and room and seeding sizes no larger than their leaves.
  - `RoomsGiveBridgesFit` derives `BridgesFit` only under the further
    hypothesis `RoomsNonEmpty`, which the source does not ensure. In a leaf
    1 or 2 cells wide the drawn width can be 0 (lines 115-116). A width-0
    leaf on the right edge (split equal to the long side, lines 76 and 80)
    puts its room's centre column at `mapSize.x`, so the unguarded write
    at line 146 is out of range.
- **Refinement order.** The refiners rewrite the map in place, so a cell
  sees the new values of the cells visited before it (lines 211-254). The
  model keeps the x-then-y order: `Swept`, and `Refine.TurnView`.
- **Room size.** Room sizes have no lower bound: `Mathf.Max` of a single
  value is that value (lines 115-116). The model lets the drawn room size be
  any integer. Where a proof needs positive sizes, they are named as a
  hypothesis (`RoomsNonEmpty`).
- **Corridor order.** Carving is pre-order: a node's own bands are carved
  first, then the left subtree, then the right one (lines 140-168).
- **`STATIC` survival.** Band side cells overwrite earlier rooms and
  centrelines during carving (lines 142-164).
  - Only the two refiners preserve `STATIC`: `Refine.RefinersKeepStatic`,
    `Generator.GeneratedCell`.
  - A room cell that no band comes near does stay `STATIC`:
    `Generator.RoomsSurvive`.

## Model

| member | source | states |
|---|---|---|
| Rects.Half | Assets/Scripts/DungeonGenerator.cs:115-119 | truncating `/ 2`: for a >= 0, 2h <= a <= 2h + 1; for a < 0, h <= 0 and 2h - 1 <= a <= 2h |
| Rects.LongSide | Assets/Scripts/DungeonGenerator.cs:74-75 | the split axis length is the larger of width and height |
| Rects.SplitRect | Assets/Scripts/DungeonGenerator.cs:77-96 | when width >= height the halves are (x, y, split, h) and (x + split, y, w - split, h); otherwise (x, y, w, split) and (x, y + split, w, h - split) |
| Rects.SplitAreas | Assets/Scripts/DungeonGenerator.cs:79-80 | the halves' areas add up to the parent's for every offset |
| Rects.SplitTiles | Assets/Scripts/DungeonGenerator.cs:79-80 | with the offset on the split axis, a cell is in the parent iff it is in one half, and never in both |
| Rects.SplitWithin | Assets/Scripts/DungeonGenerator.cs:79-80 | both halves lie within the parent |
| Rects.PlaceRoom | Assets/Scripts/DungeonGenerator.cs:118-119 | the room has the drawn size and, when it fits, is centred in the leaf with the spare column/row on the far side |
| Rects.RoomInLeaf | Assets/Scripts/DungeonGenerator.cs:118-119 | a room no larger than its leaf lies within the leaf |
| Rects.SeedRect | Assets/Scripts/DungeonGenerator.cs:191-194 | the seeded area has the spread size and is centred on the room whenever it is at least as large |
| Rects.SeedContainsRoom | Assets/Scripts/DungeonGenerator.cs:191-194 | a seeded area at least as large as the room contains it |
| Rects.SeedInLeaf | Assets/Scripts/DungeonGenerator.cs:115-121 | a seeded area no larger than the leaf, around a centred room, lies within the leaf |
| Rects.GetCenterX | Assets/Scripts/DungeonGenerator.cs:318-321 | for a non-empty room the centre column lies in it and splits it into a left part equal to or one longer than the right part |
| Rects.GetCenterY | Assets/Scripts/DungeonGenerator.cs:323-326 | the same for the centre row |
| Tiles.GetRandomTile | Assets/Scripts/DungeonGenerator.cs:203-206 | only DYNAMIC or GROUND is drawn |
| Tiles.DynamicShare | Assets/Scripts/DungeonGenerator.cs:205 | of the 100 draws, 55 give DYNAMIC and 45 give GROUND |
| Tiles.NeighbourTally | Assets/Scripts/DungeonGenerator.cs:257-286 | the in-map 8-neighbours of a type number the sum of the eight guarded tests in source order, at most 8 |
| Tiles.CrossTally | Assets/Scripts/DungeonGenerator.cs:288-305 | the in-map GROUND 4-neighbours number the sum of the four guarded tests, at most 4 |
| Refine.Step | Assets/Scripts/DungeonGenerator.cs:213-224 | visiting one cell keeps the grid's shape |
| Refine.SweptCell | Assets/Scripts/DungeonGenerator.cs:211-213 | before its turn a cell holds its original value; after it, the rule's value on the grid as it stood at its turn |
| Refine.RunCell | Assets/Scripts/DungeonGenerator.cs:211-213 | after a sweep each cell holds the rule's value on the grid at its turn, where it still held its original value |
| Refine.TurnView | Assets/Scripts/DungeonGenerator.cs:211-213 | at a cell's turn the cells visited earlier hold their final values and the others their original ones |
| Refine.AbsorptionCell | Assets/Scripts/DungeonGenerator.cs:209-225 | STATIC and FLOOR are kept and never produced; DYNAMIC stays DYNAMIC iff density >= 4, GROUND becomes DYNAMIC iff density >= 5, GROUND otherwise |
| Refine.CrossCell | Assets/Scripts/DungeonGenerator.cs:231-238 | the only change is DYNAMIC to GROUND, exactly when at least three 4-neighbours are GROUND at the cell's turn |
| Refine.FloorCell | Assets/Scripts/DungeonGenerator.cs:241-254 | the only change is GROUND to FLOOR, exactly when 1 <= k < height - 1, the cell above is DYNAMIC or STATIC and the cell below is GROUND |
| Refine.CorrectionCell | Assets/Scripts/DungeonGenerator.cs:228-255 | STATIC iff STATIC before; only DYNAMIC to GROUND/FLOOR and GROUND to FLOOR; no new FLOOR in the bottom or top row |
| Refine.RefinersKeepStatic | Assets/Scripts/DungeonGenerator.cs:331-332 | after Absorption then Correction a cell is STATIC iff it was before |
| Refine.FloorsOnLedges | Assets/Scripts/DungeonGenerator.cs:331-332 | on a map without FLOOR, every FLOOR after both refiners is off the edge rows, under DYNAMIC/STATIC and above GROUND |
| Partition.CompleteCounts | Assets/Scripts/DungeonGenerator.cs:72 | a tree with every leaf at depth d has 2^d leaves and 2^d - 1 internal nodes |
| Partition.ChildrenTile | Assets/Scripts/DungeonGenerator.cs:75-92 | the two children, in either coin order, tile the parent without overlap |
| Partition.DividedComplete | Assets/Scripts/DungeonGenerator.cs:70-106 | DivideTree from depth n splits exactly until depth maxNode: every leaf is at depth maxNode |
| Partition.DividedCounts | Assets/Scripts/DungeonGenerator.cs:70-106 | the tree has 2^maxNode leaves, so 2^maxNode rooms, and 2^maxNode - 1 internal nodes, one per bridge pair |
| Partition.DividedTiled | Assets/Scripts/DungeonGenerator.cs:70-106 | with the offsets in range, every node's children tile it, and the root keeps its rectangle |
| Partition.TiledExact | Assets/Scripts/DungeonGenerator.cs:79-80 | in a tiled tree, a cell lies in exactly one leaf if it is in the root, and in none otherwise |
| Partition.DividedArea | Assets/Scripts/DungeonGenerator.cs:70-106 | the leaves' areas add up to the root's |
| Partition.DividedPartition | Assets/Scripts/DungeonGenerator.cs:70-106 | the partition is exact: every cell of the map lies in exactly one leaf |
| Partition.FurnishedShape | Assets/Scripts/DungeonGenerator.cs:125-127 | GenerateDungeon changes only room fields, so completeness and tiling are kept |
| Partition.FurnishedInherits | Assets/Scripts/DungeonGenerator.cs:125-127 | below the root each internal node stores its left child's room and each leaf its own |
| Partition.ChildInherits | Assets/Scripts/DungeonGenerator.cs:125-127 | the same for a subtree whose top stores the returned room |
| Partition.SizesGiveRoomsInLeaves | Assets/Scripts/DungeonGenerator.cs:115-122 | rooms and seeded areas no larger than their leaves lie within their own leaves |
| Partition.RoomsElsewhere | Assets/Scripts/DungeonGenerator.cs:179-201 | GenerateDungeon leaves every cell outside all rooms and seeded areas unchanged |
| Partition.RoomsStatic | Assets/Scripts/DungeonGenerator.cs:121-127 | with an exact partition and rooms in their leaves, every room cell is STATIC after GenerateDungeon |
| Partition.FootprintInside | Assets/Scripts/DungeonGenerator.cs:121-122 | every seeded or room cell lies in the subtree's rectangle |
| Partition.RoomInside | Assets/Scripts/DungeonGenerator.cs:121-122 | every room cell lies in the subtree's rectangle |
| Partition.RoomIsFootprint | Assets/Scripts/DungeonGenerator.cs:121-122 | a room cell is also a seeded-or-room cell |
| Partition.SizesGiveRoomsFit | Assets/Scripts/DungeonGenerator.cs:108-128 | offsets in range and sizes no larger than the leaves keep every unguarded room and seeding write in the map |
| Partition.LeavesHoldRooms | Assets/Scripts/DungeonGenerator.cs:121-122 | rooms inside leaves that lie in the map lie in the map |
| Partition.InsideMapVia | Assets/Scripts/DungeonGenerator.cs:185 | a rectangle inside one whose cells are in the map is in the map |
| Partition.RoomOfFits | Assets/Scripts/DungeonGenerator.cs:123-127 | the room returned for a subtree is one of its leaves' rooms, so non-empty and in the map when they are |
| Partition.BridgesFitTop | Assets/Scripts/DungeonGenerator.cs:133-136 | only the children's rooms matter for the bridges |
| Partition.RoomsGiveBridgesFit | Assets/Scripts/DungeonGenerator.cs:133-165 | non-empty rooms in the map put every unguarded centreline write in the map |
| Partition.BridgeCentrelines | Assets/Scripts/DungeonGenerator.cs:140-165 | right after a node's bands, column x2 is STATIC from y1 to y2, and row y1 is STATIC wherever the vertical band does not reach |
| Partition.BridgeLocal | Assets/Scripts/DungeonGenerator.cs:140-165 | a band changes only in-map cells at distance <= 3 from its centreline |
| Partition.RoadsLocal | Assets/Scripts/DungeonGenerator.cs:130-169 | GenerateRoad changes only in-map cells near some node's bands |
| Partition.RoadsElsewhere | Assets/Scripts/DungeonGenerator.cs:130-169 | away from every band GenerateRoad changes nothing; at a leaf it changes nothing at all |
| Partition.Carved | Assets/Scripts/DungeonGenerator.cs:59-65 | the carved map has the map's size |
| Partition.RoomsNoFloor | Assets/Scripts/DungeonGenerator.cs:179-201 | room placement never writes FLOOR |
| Partition.RoadsNoFloor | Assets/Scripts/DungeonGenerator.cs:140-165 | road carving never writes FLOOR |
| Partition.CarvedNoFloor | Assets/Scripts/DungeonGenerator.cs:59-65 | the carved map holds no FLOOR |
| Partition.CarvedCell | Assets/Scripts/DungeonGenerator.cs:59-65 | away from bands, a room cell is STATIC and a cell outside every room and seeded area is still GROUND |
| Generator.TreeNode.ShapeTop | Assets/Scripts/DungeonGenerator.cs:6-12 | the value view of a node carries its own rectangles and is a node iff it has children |
| Generator.TreeNode.constructor | Assets/Scripts/DungeonGenerator.cs:14-20 | a new node is a leaf with the given rectangle, no room and no parent |
| Generator.Generated | Assets/Scripts/DungeonGenerator.cs:57-68 | the final map has the map's size |
| Generator.GeneratedCell | Assets/Scripts/DungeonGenerator.cs:57-68 | on the final map a cell is STATIC iff carving left it STATIC, and every FLOOR is a ledge |
| Generator.PaintedCell | Assets/Scripts/DungeonGenerator.cs:329-356 | on the final map nothing is painted exactly on GROUND, every cell carving left STATIC gets the rule tile, and a bottom tile only goes on a ledge with a wall above and GROUND below |
| Generator.RoomsSurvive | Assets/Scripts/DungeonGenerator.cs:57-68 | with draws in range, a room cell no band comes near is STATIC on the final map |
| Generator.DungeonGenerator.constructor | Assets/Scripts/DungeonGenerator.cs:33-39 | the settings are stored; no map is allocated yet |
| Generator.DungeonGenerator.Cells | Assets/Scripts/DungeonGenerator.cs:54 | the grid value has the array's size and contents |
| Generator.DungeonGenerator.HoldsCells | Assets/Scripts/DungeonGenerator.cs:54 | a map holding a grid value reads back as that value |
| Generator.DungeonGenerator.DivideTree | Assets/Scripts/DungeonGenerator.cs:70-106 | the node's subtree becomes `Divided` of its rectangle, with fresh nodes and parent links |
| Generator.DungeonGenerator.Split | Assets/Scripts/DungeonGenerator.cs:73-102 | the node gets two fresh leaf children, cut along the long side and ordered by the coin, each pointing back to it |
| Generator.DungeonGenerator.SpreadToRoom | Assets/Scripts/DungeonGenerator.cs:189-201 | every cell of the seeded area gets its drawn tile; no other cell changes |
| Generator.DungeonGenerator.OnDrawDungeon | Assets/Scripts/DungeonGenerator.cs:179-187 | every room cell becomes STATIC; no other cell changes |
| Generator.DungeonGenerator.GenerateDungeon | Assets/Scripts/DungeonGenerator.cs:108-128 | the tree becomes `Furnished`, the result is the leftmost leaf's room, and each cell follows `RoomsAt` |
| Generator.DungeonGenerator.FurnishChild | Assets/Scripts/DungeonGenerator.cs:125-126 | the child subtree is furnished and stores its returned room |
| Generator.DungeonGenerator.PlaceLeafRoom | Assets/Scripts/DungeonGenerator.cs:110-123 | the leaf's room is centred in the leaf, seeded around and then written STATIC |
| Generator.DungeonGenerator.SetRoom | Assets/Scripts/DungeonGenerator.cs:125-126 | storing a room changes only the top of the subtree |
| Generator.DungeonGenerator.GetNeighborCount | Assets/Scripts/DungeonGenerator.cs:257-286 | equals the number of in-map 8-neighbours of the type, in [0, 8]; reads the map only |
| Generator.DungeonGenerator.GetCrossCount | Assets/Scripts/DungeonGenerator.cs:288-305 | equals the number of in-map GROUND 4-neighbours, in [0, 4]; reads the map only |
| Generator.DungeonGenerator.GenerateRoad | Assets/Scripts/DungeonGenerator.cs:130-169 | each cell follows `RoadsAt`: own bands, then left subtree, then right; nothing at a leaf |
| Generator.DungeonGenerator.CarveBridges | Assets/Scripts/DungeonGenerator.cs:133-165 | each cell follows `BridgeAt` for the two children's rooms |
| Generator.DungeonGenerator.HorizontalBridge | Assets/Scripts/DungeonGenerator.cs:140-151 | columns min(x1,x2)..max(x1,x2): STATIC on row y1, drawn tiles on the in-map rows within 3; nothing else changes |
| Generator.DungeonGenerator.VerticalBridge | Assets/Scripts/DungeonGenerator.cs:154-165 | rows min(y1,y2)..max(y1,y2): STATIC on column x2, drawn tiles on the in-map columns within 3; nothing else changes |
| Generator.DungeonGenerator.AcrossSlice | Assets/Scripts/DungeonGenerator.cs:142-150 | one column of the horizontal band |
| Generator.DungeonGenerator.AlongSlice | Assets/Scripts/DungeonGenerator.cs:156-164 | one row of the vertical band |
| Generator.DungeonGenerator.PutRandomIf | Assets/Scripts/DungeonGenerator.cs:142 | a guarded side-cell write changes that one cell iff the guard holds |
| Generator.DungeonGenerator.Absorption | Assets/Scripts/DungeonGenerator.cs:209-225 | the map becomes the in-order Absorption sweep of its old contents |
| Generator.DungeonGenerator.Correction | Assets/Scripts/DungeonGenerator.cs:228-255 | the map becomes the cross sweep and then the FLOOR sweep of its old contents |
| Generator.DungeonGenerator.Sweep | Assets/Scripts/DungeonGenerator.cs:211-213 | the double loop leaves the map as the whole sweep of its old contents |
| Generator.DungeonGenerator.SweepColumn | Assets/Scripts/DungeonGenerator.cs:213 | the inner loop completes one column of the sweep |
| Generator.DungeonGenerator.Visit | Assets/Scripts/DungeonGenerator.cs:215-222 | one loop body rewrites exactly the visited cell by its pass's rule |
| Generator.DungeonGenerator.AbsorbAt | Assets/Scripts/DungeonGenerator.cs:215-222 | the Absorption rule at one cell |
| Generator.DungeonGenerator.CrossAt | Assets/Scripts/DungeonGenerator.cs:235-236 | the cross rule at one cell |
| Generator.DungeonGenerator.FloorAt | Assets/Scripts/DungeonGenerator.cs:245-252 | the FLOOR rule at one cell |
| Generator.DungeonGenerator.DrawMap | Assets/Scripts/DungeonGenerator.cs:329-356 | the map becomes Absorption then Correction of its contents, and each cell is painted by `PaintFor` |
| Generator.DungeonGenerator.PaintMap | Assets/Scripts/DungeonGenerator.cs:334-356 | every cell is painted by `PaintFor` of the refined map |
| Generator.DungeonGenerator.Awake | Assets/Scripts/DungeonGenerator.cs:57-68 | a fresh map holding `Generated`, each cell painted by `PaintFor` of it |
| Generator.DungeonGenerator.Carve | Assets/Scripts/DungeonGenerator.cs:63-65 | on an all-GROUND map, rooms then roads leave the map holding `Carved` |
| Generator.DungeonGenerator.PlaceRooms | Assets/Scripts/DungeonGenerator.cs:64 | GenerateDungeon from the root furnishes the tree and writes `RoomsAt` from GROUND |
| Generator.DungeonGenerator.Reset | Assets/Scripts/DungeonGenerator.cs:377-397 | a fresh map holding `Generated` again, painted from scratch |

## Left out

- Rendering and scene objects are not modelled:
  - `OnDrawLine` (lines 171-177) and `OnDrawRectangle` (lines 307-316);
  - the `LineRenderer` instances and the `Destroy`/`ClearAllTiles` calls in `Reset`;
  - the tilemap offsets `i - mapSize.x / 2` and the `Tile` assets.

  `DrawMap`'s tile choice is kept as a `Paint` value per cell in a fresh
  array. `NoTile` means `DrawMap` sets no tile there, so the tilemap keeps
  whatever it held. Only `Reset` clears the tilemap first (line 386);
  `Awake` paints over the scene as it is.
- `UnityEngine.Random` and float arithmetic are replaced by `Draws`: the
  `minDivideSize`/`maxDivideSize` range with `Mathf.RoundToInt`, and the
  `0.4f`/`0.5f` room-size range. Any integers may be drawn, so the model
  covers more inputs than the floats produce. Where a proof needs the
  source's ranges, they are named as hypotheses (`SplitsInRange`,
  `SizesInRange`, `RoomsNonEmpty`).
- `spread` stands for `(int)(s * 1.8f)` and is not computed. The
  truncating `(int)` casts of `0.5f` products are modelled as integer
  halving, which they equal on the sizes a map can have.
- `minRoomSize` and `bridgeSize` are never read by the source and are not
  modelled.
- Generator.DungeonGenerator.Awake: requires `maxNode >= 0`, `RoomsFit` and
  `BridgesFit`. On a negative `maxNode` the source dereferences a null
  child. It also writes rooms, seeded areas and centrelines without bounds
  checks, so an out-of-range write would throw in C#. The exception paths
  are not modelled.
- Generator.DungeonGenerator.Reset: has the same requirements, for the
  same reasons.
- Generator.DungeonGenerator.GetNeighborCount and GetCrossCount: require an
  in-map centre cell. The source calls them only from the refiners' loops,
  which always pass one.
- Integers are unbounded. The source's 32-bit `int` arithmetic cannot
  overflow on map-sized values, so no wrap-around is modelled.
