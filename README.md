# Tile streaming for an endless world

This project models the tile-streaming controller of a Unity endless-world
game. The controller appears twice in the repository, and both copies keep
the same three collections:

- `tilePool`, every tile instance ever created;
- `inactiveTiles`, a FIFO queue of idle tiles;
- `activeTiles`, an index from grid cell to the tile placed there.

Each resync has two passes:

- a **generate pass** fills a square window around the player's cell, taking
  a tile from the pool only for a cell that is still empty;
- a **deactivate pass** first collects the cells that lie too far from the
  player, then removes each one from the index and returns its tile to the
  tail of the idle queue.

The files:

- `streaming.dfy` (module `Streaming`) holds what both copies share:
  - the tile and world types;
  - the ownership invariant `Partitioned`: every tile is idle exactly once or
    placed at exactly one cell, never both;
  - the specification functions of both passes: `FillCell`, `FillRow`,
    `FillRect` and `FillSquare` for generating, `Release` and `ReleaseAll`
    for deactivating;
  - the lemmas about those functions: ownership, conservation of the tile
    count, the exact effect of each pass on the index, and a round trip of
    acquire and release.
- `copy_generator.dfy` (module `CopyGenerator`, class `WorldGenerarorCopy`,
  with the class name spelled as in the source) models the unit-tile copy:
  - tiles sit at integer cells;
  - the window has half-width `(int)generationRadius`;
  - a tile is removed when its Euclidean distance from the player exceeds
    `deactivationRadius`;
  - every tile is an instance of the single `tilePrefab` (prefab 0);
  - the controller resyncs only when the player's floored cell changes;
  - the guard inside `GenerateTilesAroundPosition` is kept as well.
- `generator.dfy` (module `Generator`, class `WorldGenerator`) models the
  snapped-grid copy:
  - tiles have size `tileSize`, and the cell `Key(i, j)` stands for the world
    position `(i * tileSize, 0, j * tileSize)`;
  - the window has `Mathf.CeilToInt(generationRadius / tileSize)` tiles on
    each side;
  - the deactivation test is a per-axis box of
    `CeilToInt(deactivationRadius / tileSize)` tiles;
  - every tile is given a random quarter-turn rotation about y;
  - a tile's prefab is drawn at random once, when the tile is created, and
    recycling never changes it;
  - the controller resyncs on every frame.

Each Unity `GameObject` is a tile id. Ids are handed out in creation order
0, 1, 2, …, so `Instantiate` allocates the next fresh id. The engine-side
state of a tile is a `TileObject` record: active flag, cell, Euler rotation
and prefab. Each class keeps these records in its `objects` field, indexed by
id.

Each class method is proved against the specification functions. Its
`ensures` gives the new `State()` as a function of the old one. `Valid()` is
preserved, and it ties the records to the collections: placed tiles are
active at their cell, idle tiles are inactive. Two predicates on the records
say what the passes leave alone: `ActiveKept` (a generate pass never touches
a placed tile's record) and `PrefabsKept` (no pass changes a tile's prefab).

`Dictionary` enumeration order is unspecified. Each deactivate pass therefore
returns a ghost list `evicted` of the cells it removed. Its contract says the
list enumerates, without repetition, exactly the far cells of the index, and
that the new state is `ReleaseAll` over that list, whatever its order.

`Random.Range` is modelled as an arbitrary choice in range. The prefab choice
and the quarter-turn rotation of `WorldGenerator` use it.

The player's position is a parameter of `Start` and `Update`. The source
reads it from `playerTransform.position`.

Two facts about the code are worth stating plainly:

- The generate pass fills a square window of side 2h + 1 around the player's
  cell, not a disc, where h is the generation half-width in cells. The model
  generates that square.
- Releasing an acquired tile restores the idle count only when the idle queue
  was non-empty. With an exhausted queue, the fresh tile stays in the pool as
  its only idle tile. `Streaming.AcquireReleaseRoundTrip` states both cases.

## Model

| member | source | states |
|---|---|---|
| Streaming.PoolFilled | Assets/Scripts/Copy/WorldGenerarorCopy.cs:24-30 | Definition, no contract of its own: the state after the pool fill of n tiles, with ids 0 .. n − 1 in the pool and in the idle queue in creation order, and no cell indexed. `Streaming.PoolFilledPartitioned` states its properties. |
| Streaming.Acquire | Assets/Scripts/Copy/WorldGenerarorCopy.cs:105-117 | Definition, no contract of its own: the head of the idle queue, dequeued; with an empty queue, the next fresh id appended to the pool. `Streaming.AcquireReleaseRoundTrip` and the `GetTileFromPool` methods state it. |
| Streaming.FillCell | Assets/Scripts/Copy/WorldGenerarorCopy.cs:72-77 | Definition, no contract of its own: an empty cell gets an acquired tile; an indexed cell is left alone. `Streaming.FillCellPreserves` states what it keeps. |
| Streaming.FillRow | Assets/Scripts/Copy/WorldGenerarorCopy.cs:68-78 | Definition, no contract of its own: `FillCell` on the cells of one row in increasing z. `Streaming.FillRowIndex`, `FillRowPreserves` and `FillRowExhausted` state its effect. |
| Streaming.FillRect | Assets/Scripts/Copy/WorldGenerarorCopy.cs:66-79 | Definition, no contract of its own: `FillRow` on the rows in increasing x. `Streaming.FillRectIndex`, `FillRectPreserves` and `FillRectExhausted` state its effect. |
| Streaming.FillSquare | Assets/Scripts/WorldGenerator.cs:45-58 | Definition, no contract of its own: `FillRect` on the window of half-widths h and v around a cell. `Streaming.FillSquareIndex` and `FillSquarePreserves` state its effect. |
| Streaming.PoolFilledPartitioned | Assets/Scripts/Copy/WorldGenerarorCopy.cs:24-30 | After the pool fill of n tiles, `tilePool` and `inactiveTiles` both hold the same n distinct ids in creation order, no cell is indexed, and the ownership invariant holds. |
| Streaming.Conservation | Assets/Scripts/Copy/WorldGenerarorCopy.cs:105-123 | Under the ownership invariant, idle tiles plus placed cells number exactly the tiles in the pool. |
| Streaming.DistinctSize | Assets/Scripts/Copy/WorldGenerarorCopy.cs:105-123 | A queue in which no tile appears twice has as many distinct tiles as entries. |
| Streaming.InjectiveSize | Assets/Scripts/Copy/WorldGenerarorCopy.cs:105-123 | An index in which no tile is placed at two cells holds as many distinct tiles as cells. |
| Streaming.FillCellPreserves | Assets/Scripts/Copy/WorldGenerarorCopy.cs:72-77 | Acquiring a tile and inserting it at an empty cell keeps the ownership invariant, so `Add` never sees a duplicate key or a tile already in use. |
| Streaming.FillRowPreserves | Assets/Scripts/Copy/WorldGenerarorCopy.cs:68-78 | One row of a generate pass keeps the ownership invariant. |
| Streaming.FillRectPreserves | Assets/Scripts/Copy/WorldGenerarorCopy.cs:66-79 | A whole generate pass keeps the ownership invariant. |
| Streaming.FillRowIndex | Assets/Scripts/Copy/WorldGenerarorCopy.cs:68-78 | After one row, the index holds exactly its old cells plus every cell of the row; old cells keep their tile; the pool only grows at its end. |
| Streaming.FillRectIndex | Assets/Scripts/Copy/WorldGenerarorCopy.cs:66-79 | After a generate pass over a rectangle, the index holds exactly its old cells plus every cell of the rectangle; old cells keep their tile; the pool only grows at its end. |
| Streaming.FillRowExhausted | Assets/Scripts/Copy/WorldGenerarorCopy.cs:111-116 | With an empty idle queue, one row of a generate pass leaves the queue empty. |
| Streaming.FillRectExhausted | Assets/Scripts/Copy/WorldGenerarorCopy.cs:111-116 | With an empty idle queue, a whole generate pass leaves the queue empty: every placement creates a fresh tile. |
| Streaming.FillSquareIndex | Assets/Scripts/WorldGenerator.cs:45-58 | After a generate pass over the square window around c, the index holds exactly its old cells plus the window; old cells keep their tile. |
| Streaming.FillSquarePreserves | Assets/Scripts/WorldGenerator.cs:45-58 | A generate pass over the square window keeps the ownership invariant. |
| Streaming.Release | Assets/Scripts/Copy/WorldGenerarorCopy.cs:99-101 | Definition, no contract of its own: an indexed cell's entry is removed and its tile enqueued at the tail of the idle queue. `Streaming.ReleasePreserves` states what it keeps. |
| Streaming.ReleaseAll | Assets/Scripts/Copy/WorldGenerarorCopy.cs:97-102 | Definition, no contract of its own: `Release` on the listed cells, in list order. `Streaming.ReleaseAllIndex` and `ReleaseAllPreserves` state its effect. |
| Streaming.ReleasePreserves | Assets/Scripts/Copy/WorldGenerarorCopy.cs:99-101 | Removing a placed cell and enqueueing its tile keeps the ownership invariant. |
| Streaming.ReleaseAllPreserves | Assets/Scripts/Copy/WorldGenerarorCopy.cs:97-102 | Removing any list of cells one after another keeps the ownership invariant. |
| Streaming.ReleaseAllIndex | Assets/Scripts/Copy/WorldGenerarorCopy.cs:97-102 | Removing distinct placed cells drops exactly those cells from the index, keeps every other entry with its tile, leaves the pool unchanged, and appends their tiles to the idle queue in list order. |
| Streaming.ReleaseAllEffect | Assets/Scripts/Copy/WorldGenerarorCopy.cs:97-102 | The two lemmas above together: ownership is kept and the removal has exactly that effect. |
| Streaming.DeactivateEffect | Assets/Scripts/Copy/WorldGenerarorCopy.cs:83-103 | A deactivate pass over a list that enumerates the far cells keeps exactly the cells that are not far, each with its tile, and keeps ownership and the tile count. |
| Streaming.ResyncEffect | Assets/Scripts/WorldGenerator.cs:33-37 | A generate pass followed by a deactivate pass leaves exactly the cells that were present or in the window and are not far. Surviving old cells keep their tile. Ownership and the tile count are kept. |
| Streaming.AcquireReleaseRoundTrip | Assets/Scripts/Copy/WorldGenerarorCopy.cs:105-123 | Acquiring a tile for an empty cell and releasing it restores the index. A queued tile moves from the head of the idle queue to its tail. With an exhausted queue, one fresh tile is added to the pool and becomes the only idle tile. |
| CopyGenerator.GenerationGuard | Assets/Scripts/Copy/WorldGenerarorCopy.cs:62-64 | Definition, no contract of its own: the pass runs when nothing has been processed yet (`None` for `Vector3.negativeInfinity`) or the cell differs from the last processed cell rounded down once more. |
| CopyGenerator.FartherThan | Assets/Scripts/Copy/WorldGenerarorCopy.cs:91 | Definition, no contract of its own: the squared form of `Vector3.Distance(tile, player) > deactivationRadius`. `CopyGenerator.DistanceTest` proves it equivalent to the distance test. |
| CopyGenerator.WorldToTilePosition | Assets/Scripts/Copy/WorldGenerarorCopy.cs:132-135 | The cell returned is x and z rounded down: each coordinate lies in [k, k + 1). |
| CopyGenerator.WorldToTilePositionIdempotent | Assets/Scripts/Copy/WorldGenerarorCopy.cs:132-135 | Rounding a cell's own position down again gives the same cell. |
| CopyGenerator.TruncToInt | Assets/Scripts/Copy/WorldGenerarorCopy.cs:66 | `(int)radius` truncates toward zero: rounds down for non-negative values and up for negative ones. |
| CopyGenerator.DistanceTest | Assets/Scripts/Copy/WorldGenerarorCopy.cs:91 | For the true distance d ≥ 0 between tile and player, `d > radius` holds exactly when the squared test `FartherThan` does, negative radii included. |
| CopyGenerator.WindowWithinRadius | Assets/Scripts/Copy/WorldGenerarorCopy.cs:66-91 | When deactivationRadius² ≥ 2((int)r + 1)² + y², no cell of the window around the player's cell is farther than deactivationRadius from the player. |
| CopyGenerator.ResyncCoversWindow | Assets/Scripts/Copy/WorldGenerarorCopy.cs:42-43 | With such radii, every window cell is present after a resync. |
| CopyGenerator.WorldGenerarorCopy.Start | Assets/Scripts/Copy/WorldGenerarorCopy.cs:18-34 | Fills the pool with max(tilePoolSize, 0) idle inactive tiles, runs the first generate pass around the player's cell, and remembers that cell. |
| CopyGenerator.WorldGenerarorCopy.AddIdleTile | Assets/Scripts/Copy/WorldGenerarorCopy.cs:26-29 | One pool-fill step takes the state from the fill of n tiles to the fill of n + 1. |
| CopyGenerator.WorldGenerarorCopy.Update | Assets/Scripts/Copy/WorldGenerarorCopy.cs:36-46 | If the player's cell equals the last one, nothing changes. Otherwise: the window around the new cell is generated; exactly the far cells are evicted; the index ends as exactly the old or window cells that are not farther than deactivationRadius; old survivors keep their tile, and that tile's record (position, rotation, prefab) is unchanged; the tile count is kept; the new cell is remembered. |
| CopyGenerator.WorldGenerarorCopy.GenerateInitialTiles | Assets/Scripts/Copy/WorldGenerarorCopy.cs:48-52 | A generate pass around the player's cell, subject to the guard; no placed tile's record changes. |
| CopyGenerator.WorldGenerarorCopy.GenerateTilesAroundPlayer | Assets/Scripts/Copy/WorldGenerarorCopy.cs:54-58 | A generate pass around the player's cell, subject to the guard; no placed tile's record changes. |
| CopyGenerator.WorldGenerarorCopy.GenerateTilesAroundPosition | Assets/Scripts/Copy/WorldGenerarorCopy.cs:60-81 | If the cell differs from the rounded last cell, or nothing has been processed yet: the square of half-width `(int)radius` is filled row by row, and no placed tile's record changes. Otherwise nothing changes. |
| CopyGenerator.WorldGenerarorCopy.GenerateRow | Assets/Scripts/Copy/WorldGenerarorCopy.cs:68-78 | The inner loop fills the cells (x, z) for z from zMin to zMax, in order; no placed tile's record changes. |
| CopyGenerator.WorldGenerarorCopy.GenerateTileAt | Assets/Scripts/Copy/WorldGenerarorCopy.cs:70-77 | A tile is acquired and placed only if the cell is empty; no placed tile's record changes. |
| CopyGenerator.WorldGenerarorCopy.DeactivateTilesOutsideRadius | Assets/Scripts/Copy/WorldGenerarorCopy.cs:83-103 | The collected list enumerates exactly the cells farther than deactivationRadius. Exactly those are removed; every other cell keeps its tile and that tile's record; their tiles are appended to the idle queue in list order; every tile keeps its prefab. |
| CopyGenerator.WorldGenerarorCopy.DeactivateAll | Assets/Scripts/Copy/WorldGenerarorCopy.cs:97-102 | The removal loop releases the listed cells in list order: the new state is `ReleaseAll` of the old one over the list; every remaining cell's tile keeps its record, and every tile keeps its prefab. |
| CopyGenerator.WorldGenerarorCopy.DeactivateTileAt | Assets/Scripts/Copy/WorldGenerarorCopy.cs:99-101 | Removes one cell and returns its tile to the pool; only that tile's record changes (it is deactivated), so every remaining cell's tile keeps its record and every tile keeps its prefab. |
| CopyGenerator.WorldGenerarorCopy.GetTileFromPool | Assets/Scripts/Copy/WorldGenerarorCopy.cs:105-117 | With a non-empty idle queue, it dequeues the head and leaves the pool unchanged. Otherwise it creates exactly one fresh tile, appends it to the pool, and the queue stays empty. |
| CopyGenerator.WorldGenerarorCopy.ReturnTileToPool | Assets/Scripts/Copy/WorldGenerarorCopy.cs:119-123 | The tile becomes inactive and is enqueued at the tail; nothing else changes. |
| CopyGenerator.WorldGenerarorCopy.PlaceTile | Assets/Scripts/Copy/WorldGenerarorCopy.cs:125-130 | The tile is moved to the cell, activated and rotated to Euler(90, 0, 0); nothing else changes. |
| CopyGenerator.WorldGenerarorCopy.Instantiate | Assets/Scripts/Copy/WorldGenerarorCopy.cs:113 | A new instance gets the next fresh id. |
| Generator.CeilToInt | Assets/Scripts/WorldGenerator.cs:42-43 | `Mathf.CeilToInt` gives the least integer not below its argument. |
| Generator.FloorScaled | Assets/Scripts/WorldGenerator.cs:113 | `floor(a / s) * s ≤ a < (floor(a / s) + 1) * s` for s > 0. |
| Generator.TileIndex | Assets/Scripts/WorldGenerator.cs:110-117 | The tile index of a position: x and z lie in [i * tileSize, (i + 1) * tileSize). |
| Generator.WorldToTilePosition | Assets/Scripts/WorldGenerator.cs:110-117 | The snapped position has y = 0, and each of x and z is a multiple of tileSize (the tile index times tileSize) that lies at most the input and above input − tileSize. |
| Generator.TileIndexOfOrigin | Assets/Scripts/WorldGenerator.cs:110-117 | The index of a tile's own world position is that tile. |
| Generator.WorldToTilePositionIdempotent | Assets/Scripts/WorldGenerator.cs:110-117 | Snapping a snapped position changes nothing. |
| Generator.OutsideBox | Assets/Scripts/WorldGenerator.cs:72-73 | Definition, no contract of its own: the tile is more than the given number of tiles from the player along x, or along z. `Generator.WindowInsideBox` and `EqualRadiiEvictWindowCell` state when window cells pass it. |
| Generator.WithinTiles | Assets/Scripts/WorldGenerator.cs:72-73 | Definition, no contract of its own: one axis of that test, `Abs(tile − player) <= n * tileSize`. `Generator.AxisInside` states when a window cell passes it. |
| Generator.AxisInside | Assets/Scripts/WorldGenerator.cs:72-73 | Along one axis, a cell within h tiles of the player's tile passes the box test for any box of at least h + 1 tiles. |
| Generator.WindowInsideBox | Assets/Scripts/WorldGenerator.cs:42-73 | When the deactivation box is at least the window plus one tile, no window cell is outside the box. |
| Generator.ResyncCoversWindow | Assets/Scripts/WorldGenerator.cs:33-37 | With such a box, every window cell is present after Update. |
| Generator.EqualRadiiEvictWindowCell | Assets/Scripts/WorldGenerator.cs:42-73 | With both radii equal and positive, a player in the middle of tile (0, 0) has window cell (−h, 0) outside the box. That cell is generated and evicted in the same Update. |
| Generator.WorldGenerator.Start | Assets/Scripts/WorldGenerator.cs:17-31 | Fills the pool with tilePoolSize idle inactive tiles of valid prefabs, then runs the first generate pass around the player's tile. |
| Generator.WorldGenerator.AddIdleTile | Assets/Scripts/WorldGenerator.cs:24-27 | One pool-fill step takes the state from the fill of n tiles to the fill of n + 1. |
| Generator.WorldGenerator.Update | Assets/Scripts/WorldGenerator.cs:33-37 | On every call: the window is generated; exactly the cells outside the box are evicted; the index ends as exactly the old or window cells inside the box; old survivors keep their tile, and that tile's record (position, rotation, prefab) is unchanged; every tile keeps its prefab; the tile count is kept. |
| Generator.WorldGenerator.GenerateTiles | Assets/Scripts/WorldGenerator.cs:39-59 | Fills the square of `CeilToInt(generationRadius / tileSize)` tiles on each side of the player's tile, row by row; no placed tile's record changes and every tile keeps its prefab. |
| Generator.WorldGenerator.GenerateRow | Assets/Scripts/WorldGenerator.cs:47-57 | The inner loop fills the cells c + (x, z) for z from −verticalTiles to verticalTiles, in order; no placed tile's record changes and every tile keeps its prefab. |
| Generator.WorldGenerator.GenerateTileAt | Assets/Scripts/WorldGenerator.cs:49-56 | A tile is acquired and placed only if the cell is empty; no placed tile's record changes, and every tile keeps its prefab, a recycled one included. |
| Generator.WorldGenerator.DeactivateTiles | Assets/Scripts/WorldGenerator.cs:61-85 | The collected list enumerates exactly the cells outside the box of `CeilToInt(deactivationRadius / tileSize)` tiles. Exactly those are removed; every other cell keeps its tile and that tile's record; their tiles are appended to the idle queue in list order; every tile keeps its prefab. |
| Generator.WorldGenerator.DeactivateAll | Assets/Scripts/WorldGenerator.cs:79-84 | The removal loop releases the listed cells in list order: the new state is `ReleaseAll` of the old one over the list; every remaining cell's tile keeps its record, and every tile keeps its prefab. |
| Generator.WorldGenerator.DeactivateTileAt | Assets/Scripts/WorldGenerator.cs:81-83 | Removes one cell and returns its tile to the pool; only that tile's record changes (it is deactivated), so every remaining cell's tile keeps its record and every tile keeps its prefab. |
| Generator.WorldGenerator.GetTileFromPool | Assets/Scripts/WorldGenerator.cs:87-95 | With a non-empty idle queue, it dequeues the head and leaves the pool unchanged. Otherwise it creates exactly one fresh tile of a valid prefab, appends it to the pool, and the queue stays empty. |
| Generator.WorldGenerator.ReturnTileToPool | Assets/Scripts/WorldGenerator.cs:97-101 | The tile becomes inactive and is enqueued at the tail; nothing else changes. |
| Generator.WorldGenerator.PlaceTile | Assets/Scripts/WorldGenerator.cs:103-108 | The tile is moved to the cell and activated, and its rotation is a y-turn of 0, 90, 180 or 270 degrees; nothing else changes. |
| Generator.WorldGenerator.Instantiate | Assets/Scripts/WorldGenerator.cs:92 | A new instance gets the next fresh id and a prefab index within the prefab list. |

## Left out

- Reading `playerTransform.position` each frame is replaced by a player-position parameter. Unity's frame loop, which calls `Start` once and `Update` every frame, is left to the caller.
- Unity's `Vector3 ==` and `!=` compare with a tolerance. The model uses exact equality of integer cells. This is the same on the floored or snapped positions the controllers compare, up to floating-point rounding.
- Floating point in general: `float` arithmetic is modelled as exact reals. Rounding of `x * tileSize` and of `Vector3.Distance` is not captured, nor are NaN and infinite positions or the overflow of the `(int)` cast.
- `Vector3.negativeInfinity` as the initial `lastPlayerTilePosition` is modelled as `None`. It rounds to no cell, so the guard at line 64 is true on the first call.
- CopyGenerator.DistanceTest: the model tests the squared distance, `dist² > radius²`. The lemma proves this equivalent to `Vector3.Distance > radius` for the true distance. The square root itself is not modelled.
- Generator.WorldGenerator.Start: `tilePoolSize` is a `nat`. The source's `new List<GameObject>(tilePoolSize)` throws on a negative size.
- Generator.WorldGenerator.Start requires a non-empty prefab list and a positive `tileSize`. The source throws on the first `tilePrefabs[...]` access of an empty list. It divides by `tileSize`, which gives infinite or NaN values at 0. A negative `tileSize` is excluded as a configuration error: the source runs with it, but snaps upward and shrinks the window to at most one cell.
- A new instance's initial transform is modelled as position (0, 0), no rotation and active. `Instantiate` copies the prefab's transform, which the model does not see. Every instance is deactivated or placed before it is used.
- The `transform` parent passed to `Instantiate` and scene-graph ownership are left out.
- `Dictionary` enumeration order is left out. The deactivate passes are proved correct for every order in which the collected list could come out.
- Aliasing of `GameObject` references is not modelled. A tile is an id, and `objects` is a sequence indexed by id that each method reassigns.
- `CameraFollow2D`, `PlayerController` and `PlayerEnterTileDetector` are not part of this model. They are camera smoothing, input polling and a physics-trigger callback, and contain no streaming logic.
- Noise, layer and biome classification are not part of this model. No code for them appears in the two controllers.
