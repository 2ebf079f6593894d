/*
 * The snapped-grid controller (Assets/Scripts/WorldGenerator.cs): tiles of
 * size tileSize, keyed by the player's snapped position plus whole tile
 * offsets, a square window of ceil(generationRadius / tileSize) tiles on
 * each side, a per-axis (box) deactivation test against the player's
 * continuous position, and a resync on every frame.
 *
 * A key Key(i, j) stands for the world position (i * tileSize, 0, j * tileSize).
 */
module Generator {
  import opened Streaming

  function Abs(a: real): real {
    if a < 0.0 then -a else a
  }

  /** Mathf.CeilToInt: the least integer not below r. */
  function CeilToInt(r: real): (c: int)
    ensures r <= c as real < r + 1.0
  {
    -((-r).Floor)
  }

  lemma MulMonotonic(a: real, b: real, s: real)
    requires a <= b && s > 0.0
    ensures a * s <= b * s
  {
    assert b * s - a * s == (b - a) * s;
  }

  lemma MulStrict(a: real, b: real, s: real)
    requires a < b && s > 0.0
    ensures a * s < b * s
  {
    assert b * s - a * s == (b - a) * s;
  }

  /** a / s rounded down, scaled back by s, lies in the tile [f * s, (f + 1) * s) that holds a. */
  lemma FloorScaled(a: real, s: real)
    requires s > 0.0
    ensures (a / s).Floor as real * s <= a < ((a / s).Floor + 1) as real * s
  {
    var q := a / s;
    var f := q.Floor;
    assert q * s == a;
    MulMonotonic(f as real, q, s);
    MulStrict(q, (f + 1) as real, s);
    assert a < (f + 1) as real * s;
  }

  /** The index of the tile that holds p: x and z divided by tileSize and rounded down. */
  function TileIndex(p: Vec3, tileSize: real): (k: Key)
    requires tileSize > 0.0
    ensures k.x as real * tileSize <= p.x < (k.x + 1) as real * tileSize
    ensures k.z as real * tileSize <= p.z < (k.z + 1) as real * tileSize
  {
    FloorScaled(p.x, tileSize);
    FloorScaled(p.z, tileSize);
    Key((p.x / tileSize).Floor, (p.z / tileSize).Floor)
  }

  /** The world position of the tile with index k. */
  function TileOrigin(k: Key, tileSize: real): Vec3 {
    Vec3(k.x as real * tileSize, 0.0, k.z as real * tileSize)
  }

  /** x and z snapped down to a multiple of tileSize; y dropped to 0. */
  function WorldToTilePosition(p: Vec3, tileSize: real): (r: Vec3)
    requires tileSize > 0.0
    ensures r.y == 0.0
    ensures r.x == TileIndex(p, tileSize).x as real * tileSize && r.z == TileIndex(p, tileSize).z as real * tileSize
    ensures r.x <= p.x < r.x + tileSize
    ensures r.z <= p.z < r.z + tileSize
  {
    TileOrigin(TileIndex(p, tileSize), tileSize)
  }

  lemma TileIndexOfOrigin(k: Key, tileSize: real)
    requires tileSize > 0.0
    ensures TileIndex(TileOrigin(k, tileSize), tileSize) == k
  {
    var o := TileOrigin(k, tileSize);
    assert o.x / tileSize == k.x as real && o.z / tileSize == k.z as real;
    assert (o.x / tileSize).Floor == k.x && (o.z / tileSize).Floor == k.z;
  }

  /** Snapping an already snapped position changes nothing. */
  lemma WorldToTilePositionIdempotent(p: Vec3, tileSize: real)
    requires tileSize > 0.0
    ensures WorldToTilePosition(WorldToTilePosition(p, tileSize), tileSize) == WorldToTilePosition(p, tileSize)
  {
    TileIndexOfOrigin(TileIndex(p, tileSize), tileSize);
  }

  /**
   * The deactivation test: the tile at k is more than horizontalTiles tiles
   * from p along x, or more than verticalTiles tiles along z.
   */
  predicate OutsideBox(k: Key, p: Vec3, tileSize: real, horizontalTiles: int, verticalTiles: int) {
    !WithinTiles(k.x, p.x, tileSize, horizontalTiles) || !WithinTiles(k.z, p.z, tileSize, verticalTiles)
  }

  /** Along one axis, the tile at index i is at most n tiles from the coordinate a. */
  predicate WithinTiles(i: int, a: real, tileSize: real, n: int) {
    Abs(i as real * tileSize - a) <= n as real * tileSize
  }

  /** The cells the deactivation test removes. */
  ghost function Far(p: Vec3, tileSize: real, horizontalTiles: int, verticalTiles: int): iset<Key> {
    iset k | OutsideBox(k, p, tileSize, horizontalTiles, verticalTiles)
  }

  lemma MulDifference(a: int, b: int, s: real)
    ensures (a - b) as real * s == a as real * s - b as real * s
  {
  }

  /** One axis of the window test: a cell within h tiles of the player's tile is within h + 1 tiles of the player. */
  lemma AxisInside(kx: int, cx: int, px: real, tileSize: real, h: int, boxTiles: int)
    requires tileSize > 0.0 && boxTiles >= h + 1
    requires cx as real * tileSize <= px < (cx + 1) as real * tileSize
    requires cx - h <= kx <= cx + h
    ensures WithinTiles(kx, px, tileSize, boxTiles)
  {
    MulMonotonic((kx - cx) as real, boxTiles as real, tileSize);
    MulMonotonic((cx + 1 - kx) as real, boxTiles as real, tileSize);
    MulDifference(kx, cx, tileSize);
    MulDifference(cx + 1, kx, tileSize);
    WithinBound(kx as real * tileSize, px, cx as real * tileSize, (cx + 1) as real * tileSize, boxTiles as real * tileSize);
  }

  /** The linear core of AxisInside: a point and a tile start in the same range lie within bound of each other. */
  lemma WithinBound(at: real, px: real, lo: real, hi: real, bound: real)
    requires lo <= px < hi
    requires at - lo <= bound && hi - at <= bound
    ensures Abs(at - px) <= bound
  {
  }

  /**
   * Hysteresis: a window of h tiles around the player's tile stays inside a
   * deactivation box of at least h + 1 tiles, whatever the player's position
   * inside its tile.
   */
  lemma WindowInsideBox(p: Vec3, tileSize: real, h: int, boxTiles: int, k: Key)
    requires tileSize > 0.0 && boxTiles >= h + 1
    requires InSquare(k, TileIndex(p, tileSize), h, h)
    ensures !OutsideBox(k, p, tileSize, boxTiles, boxTiles)
  {
    var c := TileIndex(p, tileSize);
    AxisInside(k.x, c.x, p.x, tileSize, h, boxTiles);
    AxisInside(k.z, c.z, p.z, tileSize, h, boxTiles);
  }

  /** After an Update with such a box the whole generation window is present. */
  lemma ResyncCoversWindow(w: World, p: Vec3, tileSize: real, h: int, boxTiles: int, ks: seq<Key>)
    requires Partitioned(w)
    requires tileSize > 0.0 && boxTiles >= h + 1
    requires Enumerates(ks, FillSquare(w, TileIndex(p, tileSize), h, h).activeTiles, Far(p, tileSize, boxTiles, boxTiles))
    ensures forall k :: InSquare(k, TileIndex(p, tileSize), h, h) ==>
      k in ReleaseAll(FillSquare(w, TileIndex(p, tileSize), h, h), ks).activeTiles
  {
    var c := TileIndex(p, tileSize);
    ResyncEffect(w, c, h, h, Far(p, tileSize, boxTiles, boxTiles), ks);
    forall k | InSquare(k, c, h, h) ensures k in ReleaseAll(FillSquare(w, c, h, h), ks).activeTiles {
      WindowInsideBox(p, tileSize, h, boxTiles, k);
    }
  }

  /**
   * Without that margin there is no hysteresis: when both radii are the same
   * positive value, a player in the middle of tile (0, 0) has the window cell
   * (-h, 0) generated and then removed again by the same Update.
   */
  lemma EqualRadiiEvictWindowCell(tileSize: real, radius: real)
    requires tileSize > 0.0 && radius > 0.0
    ensures var p := Vec3(tileSize / 2.0, 0.0, tileSize / 2.0);
            var h := CeilToInt(radius / tileSize);
            && TileIndex(p, tileSize) == Key(0, 0)
            && InSquare(Key(-h, 0), Key(0, 0), h, h)
            && OutsideBox(Key(-h, 0), p, tileSize, h, h)
  {
    var p := Vec3(tileSize / 2.0, 0.0, tileSize / 2.0);
    var h := CeilToInt(radius / tileSize);
    assert p.x / tileSize == 0.5;
    assert radius / tileSize > 0.0;
    assert h >= 1;
    MulMonotonic(0.0, h as real, tileSize);
    assert (-h) as real * tileSize - p.x == -(h as real * tileSize + tileSize / 2.0);
  }

  /** A tile instance shown at cell k, turned by a multiple of 90 degrees about y. */
  ghost predicate PlacedAt(o: TileObject, k: Key) {
    o.active && o.position == k && RightAngleYaw(o.rotation)
  }

  /** Quaternion.Euler(0, q * 90, 0) for q in 0..3. */
  predicate RightAngleYaw(e: Euler) {
    e.x == 0 && e.z == 0 && (e.y == 0 || e.y == 90 || e.y == 180 || e.y == 270)
  }

  /** A freshly instantiated tile of the given prefab: active, at the origin, unrotated. */
  function Instance(prefab: nat): TileObject {
    TileObject(true, Key(0, 0), Euler(0, 0, 0), prefab)
  }

  class WorldGenerator {
    const generationRadius: real
    const deactivationRadius: real
    const tilePoolSize: nat
    const tileSize: real
    /** The number of entries of tilePrefabs. */
    const prefabCount: nat

    var tilePool: seq<TileId>
    var activeTiles: map<Key, TileId>
    var inactiveTiles: seq<TileId>
    /** The tile instances, indexed by id. */
    var objects: seq<TileObject>

    function State(): World
      reads this
    {
      World(tilePool, activeTiles, inactiveTiles)
    }

    /** Ownership discipline, and every instance's flags agree with where its id is held. */
    ghost predicate Valid()
      reads this
    {
      && tileSize > 0.0
      && prefabCount > 0
      && Partitioned(State())
      && |objects| == |tilePool|
      && (forall t :: 0 <= t < |objects| ==> objects[t].prefab < prefabCount)
      && (forall k :: k in activeTiles ==> PlacedAt(objects[activeTiles[k]], k))
      && (forall t :: t in inactiveTiles ==> !objects[t].active)
    }

    /**
     * Start: create tilePoolSize inactive tiles of randomly chosen prefabs,
     * all queued idle, then run the first generate pass.
     */
    constructor Start(generationRadius: real, deactivationRadius: real, tilePoolSize: nat,
                      tileSize: real, prefabCount: nat, player: Vec3)
      requires tileSize > 0.0 && prefabCount > 0
      ensures Valid()
      ensures this.generationRadius == generationRadius
      ensures this.deactivationRadius == deactivationRadius
      ensures this.tilePoolSize == tilePoolSize
      ensures this.tileSize == tileSize && this.prefabCount == prefabCount
      ensures var h := CeilToInt(generationRadius / tileSize);
              State() == FillSquare(PoolFilled(tilePoolSize), TileIndex(player, tileSize), h, h)
    {
      this.generationRadius := generationRadius;
      this.deactivationRadius := deactivationRadius;
      this.tilePoolSize := tilePoolSize;
      this.tileSize := tileSize;
      this.prefabCount := prefabCount;
      tilePool := [];
      activeTiles := map[];
      inactiveTiles := [];
      objects := [];
      new;
      PoolFilledPartitioned(0);
      var i := 0;
      while i < tilePoolSize
        invariant 0 <= i <= tilePoolSize
        invariant Valid()
        invariant State() == PoolFilled(i) && |tilePool| == i
      {
        AddIdleTile();
        i := i + 1;
      }
      GenerateTiles(player);
    }

    /** One step of the pool fill: a new instance, deactivated and queued idle. */
    method AddIdleTile()
      requires Valid() && State() == PoolFilled(|tilePool|)
      modifies this`objects, this`tilePool, this`inactiveTiles
      ensures Valid()
      ensures State() == PoolFilled(old(|tilePool|) + 1) && |tilePool| == old(|tilePool|) + 1
    {
      var newTile := Instantiate();
      objects := objects[newTile := objects[newTile].(active := false)];
      tilePool := tilePool + [newTile];
      inactiveTiles := inactiveTiles + [newTile];
      PoolFilledPartitioned(|tilePool|);
    }

    /** Every frame: a generate pass, then a deactivate pass. */
    method Update(player: Vec3) returns (ghost evicted: seq<Key>)
      requires Valid()
      modifies this
      ensures Valid()
      ensures var c := TileIndex(player, tileSize);
              var h := CeilToInt(generationRadius / tileSize);
              var boxTiles := CeilToInt(deactivationRadius / tileSize);
              var g := FillSquare(old(State()), c, h, h);
        && Enumerates(evicted, g.activeTiles, Far(player, tileSize, boxTiles, boxTiles))
        && State() == ReleaseAll(g, evicted)
        && (forall k :: k in activeTiles <==>
              (k in old(activeTiles) || InSquare(k, c, h, h)) && !OutsideBox(k, player, tileSize, boxTiles, boxTiles))
        && (forall k :: k in activeTiles && k in old(activeTiles) ==>
              activeTiles[k] == old(activeTiles)[k] && objects[activeTiles[k]] == old(objects)[activeTiles[k]])
        && |inactiveTiles| + |activeTiles| == |tilePool|
      ensures PrefabsKept(old(objects), objects)
    {
      ghost var w0 := State();
      ghost var objects0 := objects;
      assert forall k :: k in w0.activeTiles ==> objects0[w0.activeTiles[k]].active;
      GenerateTiles(player);
      ghost var objects1 := objects;
      evicted := DeactivateTiles(player);
      ghost var h := CeilToInt(generationRadius / tileSize);
      ghost var boxTiles := CeilToInt(deactivationRadius / tileSize);
      ResyncEffect(w0, TileIndex(player, tileSize), h, h, Far(player, tileSize, boxTiles, boxTiles), evicted);
      forall k | k in activeTiles && k in w0.activeTiles
        ensures objects[activeTiles[k]] == objects0[activeTiles[k]]
      {
        assert objects[activeTiles[k]] == objects1[activeTiles[k]];
      }
    }

    /**
     * Fill the window of ceil(generationRadius / tileSize) tiles on each side
     * of the player's tile, row by row.
     */
    method GenerateTiles(player: Vec3)
      requires Valid()
      modifies this`objects, this`tilePool, this`inactiveTiles, this`activeTiles
      ensures Valid()
      ensures var h := CeilToInt(generationRadius / tileSize);
              State() == FillSquare(old(State()), TileIndex(player, tileSize), h, h)
      ensures ActiveKept(old(objects), objects) && PrefabsKept(old(objects), objects)
    {
      var currentPlayerTilePosition := TileIndex(player, tileSize);
      var cx, cz := currentPlayerTilePosition.x, currentPlayerTilePosition.z;
      var horizontalTiles := CeilToInt(generationRadius / tileSize);
      var verticalTiles := CeilToInt(generationRadius / tileSize);
      ghost var w0 := State();
      ghost var objects0 := objects;
      var x := -horizontalTiles;
      while x <= horizontalTiles
        invariant -horizontalTiles <= x <= if horizontalTiles >= 0 then horizontalTiles + 1 else -horizontalTiles
        invariant Valid()
        invariant State() == FillRect(w0, cx - horizontalTiles, cx + x, cz - verticalTiles, cz + verticalTiles + 1)
        invariant ActiveKept(objects0, objects) && PrefabsKept(objects0, objects)
      {
        GenerateRow(currentPlayerTilePosition, x, verticalTiles);
        x := x + 1;
      }
    }

    /** The inner generate loop: the cells c + (x, z) for z from -verticalTiles up to verticalTiles, in order. */
    method GenerateRow(c: Key, x: int, verticalTiles: int)
      requires Valid()
      modifies this`objects, this`tilePool, this`inactiveTiles, this`activeTiles
      ensures Valid()
      ensures State() == FillRow(old(State()), c.x + x, c.z - verticalTiles, c.z + verticalTiles + 1)
      ensures ActiveKept(old(objects), objects) && PrefabsKept(old(objects), objects)
    {
      ghost var w0 := State();
      ghost var objects0 := objects;
      var z := -verticalTiles;
      while z <= verticalTiles
        invariant -verticalTiles <= z <= if verticalTiles >= 0 then verticalTiles + 1 else -verticalTiles
        invariant Valid()
        invariant State() == FillRow(w0, c.x + x, c.z - verticalTiles, c.z + z)
        invariant ActiveKept(objects0, objects) && PrefabsKept(objects0, objects)
      {
        GenerateTileAt(Key(c.x + x, c.z + z));
        assert State() == FillRow(w0, c.x + x, c.z - verticalTiles, c.z + z + 1);
        z := z + 1;
      }
    }

    /** One cell of the generate loops: take a tile from the pool only for an empty cell. */
    method GenerateTileAt(tilePosition: Key)
      requires Valid()
      modifies this`objects, this`tilePool, this`inactiveTiles, this`activeTiles
      ensures Valid()
      ensures State() == FillCell(old(State()), tilePosition)
      ensures ActiveKept(old(objects), objects) && PrefabsKept(old(objects), objects)
    {
      if tilePosition !in activeTiles {
        ghost var w0 := State();
        ghost var objects0 := objects;
        assert |inactiveTiles| > 0 ==> inactiveTiles[0] in w0.inactiveTiles;
        var newTile := GetTileFromPool();
        PlaceTile(newTile, tilePosition);
        activeTiles := activeTiles[tilePosition := newTile];
        assert State() == FillCell(w0, tilePosition);
        FillCellPreserves(w0, tilePosition);
        assert newTile !in w0.activeTiles.Values;
        forall k | k in activeTiles ensures PlacedAt(objects[activeTiles[k]], k) {
          if k != tilePosition {
            assert objects[activeTiles[k]] == objects0[w0.activeTiles[k]];
          }
        }
        forall t | t in inactiveTiles ensures !objects[t].active {
          assert t in w0.inactiveTiles && t != newTile;
        }
        forall t | 0 <= t < |objects0| ensures objects[t].prefab == objects0[t].prefab {
        }
      }
    }

    /**
     * Collect the cells outside the deactivation box around the player, then
     * remove each from the index and return its tile to the pool.
     */
    method DeactivateTiles(player: Vec3) returns (ghost evicted: seq<Key>)
      requires Valid()
      modifies this`objects, this`inactiveTiles, this`activeTiles
      ensures Valid()
      ensures var boxTiles := CeilToInt(deactivationRadius / tileSize);
        && Enumerates(evicted, old(activeTiles), Far(player, tileSize, boxTiles, boxTiles))
        && State() == ReleaseAll(old(State()), evicted)
        && (forall k :: k in activeTiles <==> k in old(activeTiles) && !OutsideBox(k, player, tileSize, boxTiles, boxTiles))
        && (forall k :: k in activeTiles ==> activeTiles[k] == old(activeTiles)[k])
        && inactiveTiles == old(inactiveTiles) + TilesAt(old(activeTiles), evicted)
      ensures |objects| == |old(objects)| && PrefabsKept(old(objects), objects)
      ensures forall k :: k in activeTiles ==> objects[activeTiles[k]] == old(objects)[activeTiles[k]]
    {
      var horizontalTiles := CeilToInt(deactivationRadius / tileSize);
      var verticalTiles := CeilToInt(deactivationRadius / tileSize);
      var tilesToDeactivate: seq<Key> := [];
      var unvisited := activeTiles.Keys;
      while unvisited != {}
        invariant unvisited <= activeTiles.Keys
        invariant Distinct(tilesToDeactivate)
        invariant forall k :: k in tilesToDeactivate <==>
          k in activeTiles && k !in unvisited && OutsideBox(k, player, tileSize, horizontalTiles, verticalTiles)
        decreases unvisited
      {
        var tilePosition :| tilePosition in unvisited;
        if OutsideBox(tilePosition, player, tileSize, horizontalTiles, verticalTiles) {
          tilesToDeactivate := tilesToDeactivate + [tilePosition];
        }
        unvisited := unvisited - {tilePosition};
      }
      evicted := tilesToDeactivate;
      ghost var w0 := State();
      DeactivateAll(tilesToDeactivate);
      ReleaseAllEffect(w0, tilesToDeactivate);
    }

    /** The removal loop of the deactivate pass: the listed cells, released in list order. */
    method DeactivateAll(tilesToDeactivate: seq<Key>)
      requires Valid()
      requires Distinct(tilesToDeactivate) && forall k :: k in tilesToDeactivate ==> k in activeTiles
      modifies this`objects, this`inactiveTiles, this`activeTiles
      ensures Valid()
      ensures State() == ReleaseAll(old(State()), tilesToDeactivate)
      ensures |objects| == |old(objects)| && PrefabsKept(old(objects), objects)
      ensures forall k :: k in activeTiles ==> objects[activeTiles[k]] == old(objects)[activeTiles[k]]
    {
      ghost var w0 := State();
      ghost var objects0 := objects;
      var i := 0;
      while i < |tilesToDeactivate|
        invariant 0 <= i <= |tilesToDeactivate|
        invariant Valid()
        invariant State() == ReleaseAll(w0, tilesToDeactivate[..i])
        invariant |objects| == |objects0| && PrefabsKept(objects0, objects)
        invariant forall k :: k in activeTiles ==> objects[activeTiles[k]] == objects0[activeTiles[k]]
      {
        var tilePosition := tilesToDeactivate[i];
        ghost var prefix := tilesToDeactivate[..i];
        assert tilesToDeactivate[..i + 1] == prefix + [tilePosition];
        assert Distinct(prefix) && tilePosition !in prefix;
        ReleaseAllIndex(w0, prefix);
        DeactivateTileAt(tilePosition);
        i := i + 1;
      }
      assert tilesToDeactivate[..i] == tilesToDeactivate;
    }

    /** One entry of the removal loop: drop the cell from the index and return its tile. */
    method DeactivateTileAt(tilePosition: Key)
      requires Valid() && tilePosition in activeTiles
      modifies this`objects, this`inactiveTiles, this`activeTiles
      ensures Valid()
      ensures State() == Release(old(State()), tilePosition)
      ensures var t := old(activeTiles[tilePosition]); objects == old(objects)[t := old(objects[t]).(active := false)]
      ensures forall k :: k in activeTiles ==> objects[activeTiles[k]] == old(objects)[activeTiles[k]]
      ensures PrefabsKept(old(objects), objects)
    {
      ghost var w0 := State();
      var tileToDeactivate := activeTiles[tilePosition];
      activeTiles := activeTiles - {tilePosition};
      ReturnTileToPool(tileToDeactivate);
      ReleasePreserves(w0, tilePosition);
      forall k | k in activeTiles ensures activeTiles[k] != tileToDeactivate {
        assert w0.activeTiles[k] == activeTiles[k];
      }
    }

    /**
     * The head of the idle queue if there is one; otherwise exactly one new
     * instance, appended to the pool, while the idle queue stays empty.
     */
    method GetTileFromPool() returns (tile: TileId)
      requires |objects| == |tilePool| && prefabCount > 0
      modifies this`objects, this`tilePool, this`inactiveTiles
      ensures |objects| == |tilePool|
      ensures old(inactiveTiles) != [] ==>
        && tile == old(inactiveTiles[0])
        && inactiveTiles == old(inactiveTiles[1..])
        && tilePool == old(tilePool)
        && objects == old(objects)
      ensures old(inactiveTiles) == [] ==>
        && tile == old(|tilePool|)
        && tilePool == old(tilePool) + [tile]
        && inactiveTiles == []
        && objects == old(objects) + [Instance(objects[tile].prefab)]
        && objects[tile].prefab < prefabCount
    {
      if |inactiveTiles| > 0 {
        tile := inactiveTiles[0];
        inactiveTiles := inactiveTiles[1..];
        return;
      } else {
        var newTile := Instantiate();
        tilePool := tilePool + [newTile];
        return newTile;
      }
    }

    /** Deactivate a tile and enqueue it at the tail of the idle queue. */
    method ReturnTileToPool(tile: TileId)
      requires tile < |objects|
      modifies this`objects, this`inactiveTiles
      ensures objects == old(objects)[tile := old(objects[tile]).(active := false)]
      ensures inactiveTiles == old(inactiveTiles) + [tile]
    {
      objects := objects[tile := objects[tile].(active := false)];
      inactiveTiles := inactiveTiles + [tile];
    }

    /** Move a tile to a cell, activate it and turn it by a random multiple of 90 degrees about y. */
    method PlaceTile(tile: TileId, position: Key)
      requires tile < |objects|
      modifies this`objects
      ensures |objects| == |old(objects)|
      ensures objects == old(objects)[tile := old(objects[tile]).(active := true, position := position,
                                                                  rotation := objects[tile].rotation)]
      ensures PlacedAt(objects[tile], position)
    {
      var quarterTurns :| 0 <= quarterTurns < 4;
      objects := objects[tile := objects[tile].(active := true, position := position,
                                                rotation := Euler(0, quarterTurns * 90, 0))];
    }

    /** A new instance of a randomly chosen prefab, with the next fresh id. */
    method Instantiate() returns (tile: TileId)
      requires prefabCount > 0
      modifies this`objects
      ensures tile == |old(objects)| && |objects| == tile + 1
      ensures objects == old(objects) + [Instance(objects[tile].prefab)]
      ensures objects[tile].prefab < prefabCount
    {
      var prefab :| 0 <= prefab < prefabCount;
      tile := |objects|;
      objects := objects + [Instance(prefab)];
    }
  }
}
