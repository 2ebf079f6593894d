/*
 * The unit-tile controller (Assets/Scripts/Copy/WorldGenerarorCopy.cs): tiles
 * of size 1 at integer cells, a square generation window of half-width
 * (int)generationRadius around the player's cell, a Euclidean deactivation
 * test against the player's continuous position, and a resync only when the
 * player's cell changes.
 */
module CopyGenerator {
  import opened Streaming

  /** The cell a world position lies in: x and z rounded down (tiles have y = 0). */
  function WorldToTilePosition(p: Vec3): (k: Key)
    ensures k.x as real <= p.x < k.x as real + 1.0
    ensures k.z as real <= p.z < k.z as real + 1.0
  {
    Key(p.x.Floor, p.z.Floor)
  }

  /** The world position of a cell, as the controller stores it: (x, 0, z). */
  function TileWorldPosition(k: Key): Vec3 {
    Vec3(k.x as real, 0.0, k.z as real)
  }

  /** Rounding a cell position down again changes nothing. */
  lemma WorldToTilePositionIdempotent(k: Key)
    ensures WorldToTilePosition(TileWorldPosition(k)) == k
  {
  }

  /** C#'s (int) conversion of a float: truncation toward zero. */
  function TruncToInt(r: real): (t: int)
    ensures 0.0 <= r ==> t as real <= r < t as real + 1.0
    ensures r < 0.0 ==> t as real - 1.0 < r <= t as real
  {
    if r >= 0.0 then r.Floor else -((-r).Floor)
  }

  /**
   * The guard of the generate pass: the player's cell differs from the last
   * processed one, rounded down once more. None stands for the initial
   * Vector3.negativeInfinity, which rounds to no cell at all.
   */
  predicate GenerationGuard(current: Key, last: Option<Key>) {
    last.None? || current != WorldToTilePosition(TileWorldPosition(last.value))
  }

  /** Squared Euclidean distance from the tile at k (y = 0) to p. */
  function SqDistance(k: Key, p: Vec3): real {
    var dx := k.x as real - p.x;
    var dy := 0.0 - p.y;
    var dz := k.z as real - p.z;
    dx * dx + dy * dy + dz * dz
  }

  /** Vector3.Distance(tile, p) > radius, stated without the square root. */
  predicate FartherThan(k: Key, p: Vec3, radius: real) {
    radius < 0.0 || SqDistance(k, p) > radius * radius
  }

  /** The squared test agrees with the distance test for the true (non-negative) distance d. */
  lemma DistanceTest(k: Key, p: Vec3, radius: real, d: real)
    requires d >= 0.0 && d * d == SqDistance(k, p)
    ensures d > radius <==> FartherThan(k, p, radius)
  {
    if radius >= 0.0 {
      assert d * d - radius * radius == (d - radius) * (d + radius);
      if d > radius {
        MulPositive(d - radius, d + radius);
      } else {
        MulNonnegative(radius - d, d + radius);
      }
    }
  }

  lemma MulPositive(a: real, b: real)
    requires a > 0.0 && b > 0.0
    ensures a * b > 0.0
  {
  }

  lemma MulNonnegative(a: real, b: real)
    requires a >= 0.0 && b >= 0.0
    ensures a * b >= 0.0
  {
  }

  /** The cells farther than radius from p. */
  ghost function Far(p: Vec3, radius: real): iset<Key> {
    iset k | FartherThan(k, p, radius)
  }

  lemma SquareAtMost(a: real, b: real)
    requires -b <= a <= b
    ensures a * a <= b * b
  {
    if a >= 0.0 {
      assert a * a <= a * b <= b * b;
    } else {
      assert a * a == (-a) * (-a) <= (-a) * b <= b * b;
    }
  }

  /**
   * Hysteresis: when the deactivation radius reaches the far corner of the
   * generation window, no cell of the window around the player's cell is
   * farther than that radius from the player.
   */
  lemma WindowWithinRadius(p: Vec3, r: int, radius: real, k: Key)
    requires r >= 0 && radius >= 0.0
    requires radius * radius >= 2.0 * ((r + 1) as real) * ((r + 1) as real) + p.y * p.y
    requires InSquare(k, WorldToTilePosition(p), r, r)
    ensures !FartherThan(k, p, radius)
  {
    var b := (r + 1) as real;
    SquareAtMost(k.x as real - p.x, b);
    SquareAtMost(k.z as real - p.z, b);
  }

  /** After a resync with such a radius the whole generation window is present. */
  lemma ResyncCoversWindow(w: World, p: Vec3, r: int, radius: real, ks: seq<Key>)
    requires Partitioned(w)
    requires r >= 0 && radius >= 0.0
    requires radius * radius >= 2.0 * ((r + 1) as real) * ((r + 1) as real) + p.y * p.y
    requires Enumerates(ks, FillSquare(w, WorldToTilePosition(p), r, r).activeTiles, Far(p, radius))
    ensures forall k :: InSquare(k, WorldToTilePosition(p), r, r) ==>
      k in ReleaseAll(FillSquare(w, WorldToTilePosition(p), r, r), ks).activeTiles
  {
    var c := WorldToTilePosition(p);
    ResyncEffect(w, c, r, r, Far(p, radius), ks);
    forall k | InSquare(k, c, r, r) ensures k in ReleaseAll(FillSquare(w, c, r, r), ks).activeTiles {
      WindowWithinRadius(p, r, radius, k);
    }
  }

  /** The rotation PlaceTile gives every tile: Quaternion.Euler(90, 0, 0). */
  const Flat := Euler(90, 0, 0)

  /** A tile instance shown at cell k. */
  ghost predicate PlacedAt(o: TileObject, k: Key) {
    o.active && o.position == k && o.rotation == Flat
  }

  class WorldGenerarorCopy {
    const generationRadius: real
    const deactivationRadius: real
    const tilePoolSize: int

    var tilePool: seq<TileId>
    var activeTiles: map<Key, TileId>
    var lastPlayerTilePosition: Option<Key>
    var inactiveTiles: seq<TileId>
    /** The tile instances, indexed by id. */
    var objects: seq<TileObject>

    function State(): World
      reads this
    {
      World(tilePool, activeTiles, inactiveTiles)
    }

    /**
     * Ownership discipline, every instance is of the single prefab (index 0),
     * and every instance's flags agree with where its id is held.
     */
    ghost predicate Valid()
      reads this
    {
      && Partitioned(State())
      && |objects| == |tilePool|
      && (forall t :: 0 <= t < |objects| ==> objects[t].prefab == 0)
      && (forall k :: k in activeTiles ==> PlacedAt(objects[activeTiles[k]], k))
      && (forall t :: t in inactiveTiles ==> !objects[t].active)
    }

    /**
     * Start: create tilePoolSize inactive tiles, all queued idle, then
     * generate around the player and remember the player's cell.
     */
    constructor Start(generationRadius: real, deactivationRadius: real, tilePoolSize: int, player: Vec3)
      ensures Valid()
      ensures this.generationRadius == generationRadius
      ensures this.deactivationRadius == deactivationRadius
      ensures this.tilePoolSize == tilePoolSize
      ensures var c := WorldToTilePosition(player);
              var r := TruncToInt(generationRadius);
              State() == FillSquare(PoolFilled(if tilePoolSize < 0 then 0 else tilePoolSize), c, r, r)
      ensures lastPlayerTilePosition == Some(WorldToTilePosition(player))
    {
      this.generationRadius := generationRadius;
      this.deactivationRadius := deactivationRadius;
      this.tilePoolSize := tilePoolSize;
      tilePool := [];
      activeTiles := map[];
      lastPlayerTilePosition := None;
      inactiveTiles := [];
      objects := [];
      new;
      var i := 0;
      while i < tilePoolSize
        invariant 0 <= i && (i <= tilePoolSize || i == 0)
        invariant Valid()
        invariant State() == PoolFilled(i) && |tilePool| == i
        invariant lastPlayerTilePosition == None
      {
        AddIdleTile();
        i := i + 1;
      }
      GenerateInitialTiles(player);
      lastPlayerTilePosition := Some(WorldToTilePosition(player));
    }

    /** One step of the pool fill: a new instance, deactivated and queued idle. */
    method AddIdleTile()
      requires Valid() && State() == PoolFilled(|tilePool|)
      modifies this`objects, this`tilePool, this`inactiveTiles
      ensures Valid()
      ensures State() == PoolFilled(old(|tilePool|) + 1) && |tilePool| == old(|tilePool|) + 1
    {
      var newTile := Instantiate();
      objects := objects[newTile := objects[newTile].(active := false)];
      tilePool := tilePool + [newTile];
      inactiveTiles := inactiveTiles + [newTile];
      PoolFilledPartitioned(|tilePool|);
    }

    /**
     * Every frame: when the player's cell differs from the last processed one,
     * a generate pass, a deactivate pass, and the new cell is remembered;
     * otherwise nothing changes.
     */
    method Update(player: Vec3) returns (ghost evicted: seq<Key>)
      requires Valid()
      modifies this
      ensures Valid()
      ensures old(lastPlayerTilePosition) == Some(WorldToTilePosition(player)) ==>
        && State() == old(State())
        && objects == old(objects)
        && lastPlayerTilePosition == old(lastPlayerTilePosition)
      ensures old(lastPlayerTilePosition) != Some(WorldToTilePosition(player)) ==>
        var c := WorldToTilePosition(player);
        var r := TruncToInt(generationRadius);
        var g := FillSquare(old(State()), c, r, r);
        && lastPlayerTilePosition == Some(c)
        && Enumerates(evicted, g.activeTiles, Far(player, deactivationRadius))
        && State() == ReleaseAll(g, evicted)
        && (forall k :: k in activeTiles <==>
              (k in old(activeTiles) || InSquare(k, c, r, r)) && !FartherThan(k, player, deactivationRadius))
        && (forall k :: k in activeTiles && k in old(activeTiles) ==>
              activeTiles[k] == old(activeTiles)[k] && objects[activeTiles[k]] == old(objects)[activeTiles[k]])
        && |inactiveTiles| + |activeTiles| == |tilePool|
    {
      var currentPlayerTilePosition := WorldToTilePosition(player);
      evicted := [];
      if Some(currentPlayerTilePosition) != lastPlayerTilePosition {
        ghost var w0 := State();
        ghost var objects0 := objects;
        if lastPlayerTilePosition.Some? {
          WorldToTilePositionIdempotent(lastPlayerTilePosition.value);
        }
        assert GenerationGuard(currentPlayerTilePosition, lastPlayerTilePosition);
        GenerateTilesAroundPlayer(player);
        ghost var objects1 := objects;
        evicted := DeactivateTilesOutsideRadius(player);
        lastPlayerTilePosition := Some(currentPlayerTilePosition);
        ghost var r := TruncToInt(generationRadius);
        ResyncEffect(w0, currentPlayerTilePosition, r, r, Far(player, deactivationRadius), evicted);
        forall k | k in activeTiles && k in w0.activeTiles
          ensures objects[activeTiles[k]] == objects0[activeTiles[k]]
        {
          assert objects[activeTiles[k]] == objects1[activeTiles[k]];
        }
      }
    }

    /** The first generate pass, from Start: the window around the player's cell. */
    method GenerateInitialTiles(player: Vec3)
      requires Valid()
      modifies this`objects, this`tilePool, this`inactiveTiles, this`activeTiles
      ensures Valid()
      ensures var c := WorldToTilePosition(player);
              var r := TruncToInt(generationRadius);
              State() == if GenerationGuard(c, lastPlayerTilePosition) then FillSquare(old(State()), c, r, r) else old(State())
      ensures ActiveKept(old(objects), objects)
    {
      var currentPlayerTilePosition := WorldToTilePosition(player);
      WorldToTilePositionIdempotent(currentPlayerTilePosition);
      GenerateTilesAroundPosition(TileWorldPosition(currentPlayerTilePosition), generationRadius);
    }

    /** The generate pass of Update; the source spells it out separately, with the same body. */
    method GenerateTilesAroundPlayer(player: Vec3)
      requires Valid()
      modifies this`objects, this`tilePool, this`inactiveTiles, this`activeTiles
      ensures Valid()
      ensures var c := WorldToTilePosition(player);
              var r := TruncToInt(generationRadius);
              State() == if GenerationGuard(c, lastPlayerTilePosition) then FillSquare(old(State()), c, r, r) else old(State())
      ensures ActiveKept(old(objects), objects)
    {
      var currentPlayerTilePosition := WorldToTilePosition(player);
      WorldToTilePositionIdempotent(currentPlayerTilePosition);
      GenerateTilesAroundPosition(TileWorldPosition(currentPlayerTilePosition), generationRadius);
    }

    /**
     * Fill the square of half-width (int)radius around the cell of position,
     * row by row, unless the guard says the cell was already processed.
     */
    method GenerateTilesAroundPosition(position: Vec3, radius: real)
      requires Valid()
      modifies this`objects, this`tilePool, this`inactiveTiles, this`activeTiles
      ensures Valid()
      ensures var c := WorldToTilePosition(position);
              var r := TruncToInt(radius);
              State() == if GenerationGuard(c, lastPlayerTilePosition) then FillSquare(old(State()), c, r, r) else old(State())
      ensures !GenerationGuard(WorldToTilePosition(position), lastPlayerTilePosition) ==> objects == old(objects)
      ensures ActiveKept(old(objects), objects)
    {
      var currentPlayerIntPosition := WorldToTilePosition(position);
      if GenerationGuard(currentPlayerIntPosition, lastPlayerTilePosition) {
        var r := TruncToInt(radius);
        var cx, cz := currentPlayerIntPosition.x, currentPlayerIntPosition.z;
        ghost var w0 := State();
        ghost var objects0 := objects;
        var x := cx - r;
        while x <= cx + r
          invariant cx - r <= x <= if r >= 0 then cx + r + 1 else cx - r
          invariant Valid()
          invariant State() == FillRect(w0, cx - r, x, cz - r, cz + r + 1)
          invariant ActiveKept(objects0, objects)
        {
          GenerateRow(x, cz - r, cz + r);
          x := x + 1;
        }
      }
    }

    /** The inner generate loop: the cells (x, z) for z from zMin up to zMax, in order. */
    method GenerateRow(x: int, zMin: int, zMax: int)
      requires Valid()
      modifies this`objects, this`tilePool, this`inactiveTiles, this`activeTiles
      ensures Valid()
      ensures State() == FillRow(old(State()), x, zMin, zMax + 1)
      ensures ActiveKept(old(objects), objects)
    {
      ghost var w0 := State();
      ghost var objects0 := objects;
      var z := zMin;
      while z <= zMax
        invariant zMin <= z <= if zMin <= zMax then zMax + 1 else zMin
        invariant Valid()
        invariant State() == FillRow(w0, x, zMin, z)
        invariant ActiveKept(objects0, objects)
      {
        GenerateTileAt(Key(x, z));
        assert State() == FillRow(w0, x, zMin, z + 1);
        z := z + 1;
      }
    }

    /** One cell of the generate loops: take a tile from the pool only for an empty cell. */
    method GenerateTileAt(tilePosition: Key)
      requires Valid()
      modifies this`objects, this`tilePool, this`inactiveTiles, this`activeTiles
      ensures Valid()
      ensures State() == FillCell(old(State()), tilePosition)
      ensures ActiveKept(old(objects), objects)
    {
      if tilePosition !in activeTiles {
        ghost var w0 := State();
        ghost var objects0 := objects;
        assert |inactiveTiles| > 0 ==> inactiveTiles[0] in w0.inactiveTiles;
        var newTile := GetTileFromPool();
        PlaceTile(newTile, tilePosition);
        activeTiles := activeTiles[tilePosition := newTile];
        assert State() == FillCell(w0, tilePosition);
        FillCellPreserves(w0, tilePosition);
        assert newTile !in w0.activeTiles.Values;
        forall k | k in activeTiles ensures PlacedAt(objects[activeTiles[k]], k) {
          if k != tilePosition {
            assert objects[activeTiles[k]] == objects0[w0.activeTiles[k]];
          }
        }
        forall t | t in inactiveTiles ensures !objects[t].active {
          assert t in w0.inactiveTiles && t != newTile;
        }
      }
    }

    /**
     * Collect the cells farther than deactivationRadius from the player, then
     * remove each from the index and return its tile to the pool.
     */
    method DeactivateTilesOutsideRadius(player: Vec3) returns (ghost evicted: seq<Key>)
      requires Valid()
      modifies this`objects, this`inactiveTiles, this`activeTiles
      ensures Valid()
      ensures Enumerates(evicted, old(activeTiles), Far(player, deactivationRadius))
      ensures State() == ReleaseAll(old(State()), evicted)
      ensures forall k :: k in activeTiles <==> k in old(activeTiles) && !FartherThan(k, player, deactivationRadius)
      ensures forall k :: k in activeTiles ==> activeTiles[k] == old(activeTiles)[k]
      ensures inactiveTiles == old(inactiveTiles) + TilesAt(old(activeTiles), evicted)
      ensures |objects| == |old(objects)| && PrefabsKept(old(objects), objects)
      ensures forall k :: k in activeTiles ==> objects[activeTiles[k]] == old(objects)[activeTiles[k]]
    {
      var tilesToDeactivate: seq<Key> := [];
      var unvisited := activeTiles.Keys;
      while unvisited != {}
        invariant unvisited <= activeTiles.Keys
        invariant Distinct(tilesToDeactivate)
        invariant forall k :: k in tilesToDeactivate <==>
          k in activeTiles && k !in unvisited && FartherThan(k, player, deactivationRadius)
        decreases unvisited
      {
        var tilePosition :| tilePosition in unvisited;
        if FartherThan(tilePosition, player, deactivationRadius) {
          tilesToDeactivate := tilesToDeactivate + [tilePosition];
        }
        unvisited := unvisited - {tilePosition};
      }
      evicted := tilesToDeactivate;
      ghost var w0 := State();
      DeactivateAll(tilesToDeactivate);
      ReleaseAllEffect(w0, tilesToDeactivate);
    }

    /** The removal loop of the deactivate pass: the listed cells, released in list order. */
    method DeactivateAll(tilesToDeactivate: seq<Key>)
      requires Valid()
      requires Distinct(tilesToDeactivate) && forall k :: k in tilesToDeactivate ==> k in activeTiles
      modifies this`objects, this`inactiveTiles, this`activeTiles
      ensures Valid()
      ensures State() == ReleaseAll(old(State()), tilesToDeactivate)
      ensures |objects| == |old(objects)| && PrefabsKept(old(objects), objects)
      ensures forall k :: k in activeTiles ==> objects[activeTiles[k]] == old(objects)[activeTiles[k]]
    {
      ghost var w0 := State();
      ghost var objects0 := objects;
      var i := 0;
      while i < |tilesToDeactivate|
        invariant 0 <= i <= |tilesToDeactivate|
        invariant Valid()
        invariant State() == ReleaseAll(w0, tilesToDeactivate[..i])
        invariant |objects| == |objects0| && PrefabsKept(objects0, objects)
        invariant forall k :: k in activeTiles ==> objects[activeTiles[k]] == objects0[activeTiles[k]]
      {
        var tilePosition := tilesToDeactivate[i];
        ghost var prefix := tilesToDeactivate[..i];
        assert tilesToDeactivate[..i + 1] == prefix + [tilePosition];
        assert Distinct(prefix) && tilePosition !in prefix;
        ReleaseAllIndex(w0, prefix);
        DeactivateTileAt(tilePosition);
        i := i + 1;
      }
      assert tilesToDeactivate[..i] == tilesToDeactivate;
    }

    /** One entry of the removal loop: drop the cell from the index and return its tile. */
    method DeactivateTileAt(tilePosition: Key)
      requires Valid() && tilePosition in activeTiles
      modifies this`objects, this`inactiveTiles, this`activeTiles
      ensures Valid()
      ensures State() == Release(old(State()), tilePosition)
      ensures var t := old(activeTiles[tilePosition]); objects == old(objects)[t := old(objects[t]).(active := false)]
      ensures forall k :: k in activeTiles ==> objects[activeTiles[k]] == old(objects)[activeTiles[k]]
      ensures PrefabsKept(old(objects), objects)
    {
      ghost var w0 := State();
      var tileToDeactivate := activeTiles[tilePosition];
      activeTiles := activeTiles - {tilePosition};
      ReturnTileToPool(tileToDeactivate);
      ReleasePreserves(w0, tilePosition);
      forall k | k in activeTiles ensures activeTiles[k] != tileToDeactivate {
        assert w0.activeTiles[k] == activeTiles[k];
      }
    }

    /**
     * The head of the idle queue if there is one; otherwise a new instance,
     * appended to the pool, while the idle queue stays empty.
     */
    method GetTileFromPool() returns (tile: TileId)
      requires |objects| == |tilePool|
      modifies this`objects, this`tilePool, this`inactiveTiles
      ensures |objects| == |tilePool|
      ensures old(inactiveTiles) != [] ==>
        && tile == old(inactiveTiles[0])
        && inactiveTiles == old(inactiveTiles[1..])
        && tilePool == old(tilePool)
        && objects == old(objects)
      ensures old(inactiveTiles) == [] ==>
        && tile == old(|tilePool|)
        && tilePool == old(tilePool) + [tile]
        && inactiveTiles == []
        && objects == old(objects) + [Instance()]
    {
      if |inactiveTiles| > 0 {
        tile := inactiveTiles[0];
        inactiveTiles := inactiveTiles[1..];
        return;
      } else {
        var newTile := Instantiate();
        tilePool := tilePool + [newTile];
        return newTile;
      }
    }

    /** Deactivate a tile and enqueue it at the tail of the idle queue. */
    method ReturnTileToPool(tile: TileId)
      requires tile < |objects|
      modifies this`objects, this`inactiveTiles
      ensures objects == old(objects)[tile := old(objects[tile]).(active := false)]
      ensures inactiveTiles == old(inactiveTiles) + [tile]
    {
      objects := objects[tile := objects[tile].(active := false)];
      inactiveTiles := inactiveTiles + [tile];
    }

    /** Move a tile to a cell, activate it and lay it flat. */
    method PlaceTile(tile: TileId, position: Key)
      requires tile < |objects|
      modifies this`objects
      ensures objects == old(objects)[tile := old(objects[tile]).(active := true, position := position, rotation := Flat)]
      ensures PlacedAt(objects[tile], position)
    {
      objects := objects[tile := objects[tile].(active := true, position := position, rotation := Flat)];
    }

    /** A new instance of the single prefab, with the next fresh id. */
    method Instantiate() returns (tile: TileId)
      modifies this`objects
      ensures tile == |old(objects)|
      ensures objects == old(objects) + [Instance()]
    {
      tile := |objects|;
      objects := objects + [Instance()];
    }

    /** A freshly instantiated tile: active, at the origin, unrotated. */
    function Instance(): TileObject {
      TileObject(true, Key(0, 0), Euler(0, 0, 0), 0)
    }
  }
}
