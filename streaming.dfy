/*
 * The state shared by both tile-streaming controllers: a pool of every tile
 * ever created, a FIFO queue of idle tiles, and an index from grid cell to
 * the tile placed there. The functions below give the abstract effect of the
 * controllers' passes; the classes in the other two modules are proved to
 * update their fields exactly as these functions say.
 */
module Streaming {

  /** A tile instance. Ids are handed out in creation order: 0, 1, 2, ... */
  type TileId = nat

  /** A grid cell on the ground plane; the y coordinate of every tile is 0. */
  datatype Key = Key(x: int, z: int)

  /** A continuous world position, such as the player's. */
  datatype Vec3 = Vec3(x: real, y: real, z: real)

  /** A rotation as Euler angles in whole degrees. */
  datatype Euler = Euler(x: int, y: int, z: int)

  /** The engine-side state of one tile instance. */
  datatype TileObject = TileObject(active: bool, position: Key, rotation: Euler, prefab: nat)

  datatype Option<T> = None | Some(value: T)

  /** The three collections of a controller. */
  datatype World = World(tilePool: seq<TileId>, activeTiles: map<Key, TileId>, inactiveTiles: seq<TileId>)

  /**
   * Every tile record that was active in before is unchanged in after (which
   * may have grown): a pass that only takes idle or fresh tiles never touches
   * a placed one.
   */
  ghost predicate ActiveKept(before: seq<TileObject>, after: seq<TileObject>) {
    |before| <= |after| && forall t :: 0 <= t < |before| && before[t].active ==> after[t] == before[t]
  }

  /**
   * Every tile of before keeps its prefab in after (which may have grown): a
   * prefab is chosen once, when its tile is created, and recycling never
   * changes it.
   */
  ghost predicate PrefabsKept(before: seq<TileObject>, after: seq<TileObject>) {
    |before| <= |after| && forall t :: 0 <= t < |before| ==> after[t].prefab == before[t].prefab
  }

  ghost predicate Distinct<T>(s: seq<T>) {
    forall i, j :: 0 <= i < j < |s| ==> s[i] != s[j]
  }

  /** No tile is placed at two cells. */
  ghost predicate Injective(m: map<Key, TileId>) {
    forall a, b :: a in m && b in m && a != b ==> m[a] != m[b]
  }

  /**
   * Ownership discipline: every tile ever created is either idle (queued
   * once) or placed at exactly one cell, never both.
   */
  ghost predicate Partitioned(w: World) {
    && (forall i :: 0 <= i < |w.tilePool| ==> w.tilePool[i] == i)
    && Distinct(w.inactiveTiles)
    && Injective(w.activeTiles)
    && (forall t :: t in w.inactiveTiles ==> t < |w.tilePool| && t !in w.activeTiles.Values)
    && (forall k :: k in w.activeTiles ==> w.activeTiles[k] < |w.tilePool|)
    && (forall t: TileId :: t < |w.tilePool| ==> t in w.inactiveTiles || t in w.activeTiles.Values)
  }

  /** The ids of the first n tiles created, in creation order. */
  function Ids(n: nat): seq<TileId> {
    if n == 0 then [] else Ids(n - 1) + [n - 1]
  }

  /** The state after the pool fill of n tiles: all created, all idle, none placed. */
  function PoolFilled(n: nat): World {
    World(Ids(n), map[], Ids(n))
  }

  /**
   * Taking a tile from the pool: the head of the idle queue if there is one,
   * otherwise a freshly created tile appended to the pool.
   */
  function Acquire(w: World): (TileId, World) {
    if |w.inactiveTiles| > 0 then
      (w.inactiveTiles[0], w.(inactiveTiles := w.inactiveTiles[1..]))
    else
      (|w.tilePool|, w.(tilePool := w.tilePool + [|w.tilePool|]))
  }

  /** One cell of a generate pass: a tile is acquired and placed only if the cell is empty. */
  function FillCell(w: World, k: Key): World {
    if k in w.activeTiles then w
    else
      var (t, w1) := Acquire(w);
      w1.(activeTiles := w1.activeTiles[k := t])
  }

  /** The cells (x, zlo), ..., (x, zhi - 1), in that order. */
  function FillRow(w: World, x: int, zlo: int, zhi: int): World
    decreases zhi - zlo
  {
    if zhi <= zlo then w else FillCell(FillRow(w, x, zlo, zhi - 1), Key(x, zhi - 1))
  }

  /** Rows xlo, ..., xhi - 1, each from zlo to zhi - 1. */
  function FillRect(w: World, xlo: int, xhi: int, zlo: int, zhi: int): World
    decreases xhi - xlo
  {
    if xhi <= xlo then w else FillRow(FillRect(w, xlo, xhi - 1, zlo, zhi), xhi - 1, zlo, zhi)
  }

  /** The window of half-widths h (along x) and v (along z) around cell c. */
  function FillSquare(w: World, c: Key, h: int, v: int): World {
    FillRect(w, c.x - h, c.x + h + 1, c.z - v, c.z + v + 1)
  }

  ghost predicate InRect(k: Key, xlo: int, xhi: int, zlo: int, zhi: int) {
    xlo <= k.x < xhi && zlo <= k.z < zhi
  }

  ghost predicate InSquare(k: Key, c: Key, h: int, v: int) {
    InRect(k, c.x - h, c.x + h + 1, c.z - v, c.z + v + 1)
  }

  /** Removing the entry of a cell and enqueueing its tile at the tail of the idle queue. */
  function Release(w: World, k: Key): World {
    if k in w.activeTiles then
      World(w.tilePool, w.activeTiles - {k}, w.inactiveTiles + [w.activeTiles[k]])
    else w
  }

  /** Releasing the cells of ks in order. */
  function ReleaseAll(w: World, ks: seq<Key>): World
    decreases |ks|
  {
    if ks == [] then w else Release(ReleaseAll(w, ks[..|ks| - 1]), ks[|ks| - 1])
  }

  /** The tiles placed at the cells of ks, in the order of ks. */
  function TilesAt(m: map<Key, TileId>, ks: seq<Key>): seq<TileId>
    requires forall k :: k in ks ==> k in m
    decreases |ks|
  {
    if ks == [] then [] else TilesAt(m, ks[..|ks| - 1]) + [m[ks[|ks| - 1]]]
  }

  // ---------------------------------------------------------------------
  // Pool fill

  /** Ids(n) lists 0, 1, ..., n - 1. */
  lemma {:induction false} IdsAt(n: nat)
    ensures |Ids(n)| == n
    ensures forall i :: 0 <= i < n ==> Ids(n)[i] == i
  {
    if n > 0 {
      IdsAt(n - 1);
    }
  }

  /** After the pool fill, pool and idle queue each hold the n distinct tiles and nothing is placed. */
  lemma PoolFilledPartitioned(n: nat)
    ensures Partitioned(PoolFilled(n))
    ensures |PoolFilled(n).tilePool| == n && |PoolFilled(n).inactiveTiles| == n
    ensures PoolFilled(n).tilePool == PoolFilled(n).inactiveTiles
    ensures Distinct(PoolFilled(n).inactiveTiles)
    ensures PoolFilled(n).activeTiles == map[]
  {
    var w := PoolFilled(n);
    IdsAt(n);
    forall t: TileId | t < n ensures t in w.inactiveTiles {
      assert w.inactiveTiles[t] == t;
    }
  }

  // ---------------------------------------------------------------------
  // Values of the index

  lemma ValuesOfInsert(m: map<Key, TileId>, k: Key, t: TileId)
    requires k !in m
    ensures m[k := t].Values == m.Values + {t}
  {
    var m' := m[k := t];
    forall v | v in m'.Values ensures v in m.Values + {t} {
      var a :| a in m' && m'[a] == v;
      if a != k {
        assert m[a] == v;
      }
    }
    forall v | v in m.Values + {t} ensures v in m'.Values {
      if v == t {
        assert m'[k] == t;
      } else {
        var a :| a in m && m[a] == v;
        assert m'[a] == v;
      }
    }
  }

  lemma ValuesOfRemove(m: map<Key, TileId>, k: Key)
    requires Injective(m) && k in m
    ensures (m - {k}).Values == m.Values - {m[k]}
  {
    var m' := m - {k};
    forall v | v in m'.Values ensures v in m.Values - {m[k]} {
      var a :| a in m' && m'[a] == v;
      assert m[a] == v;
    }
    forall v | v in m.Values - {m[k]} ensures v in m'.Values {
      var a :| a in m && m[a] == v;
      assert a != k;
      assert m'[a] == v;
    }
  }

  // ---------------------------------------------------------------------
  // Conservation

  /** The elements of a sequence, as a set. */
  ghost function Elements(s: seq<TileId>): set<TileId> {
    set t | t in s
  }

  /** A sequence without repetition has as many elements as entries. */
  lemma {:induction false} DistinctSize(s: seq<TileId>)
    requires Distinct(s)
    ensures |Elements(s)| == |s|
  {
    if s != [] {
      var init := s[..|s| - 1];
      var last := s[|s| - 1];
      assert Distinct(init);
      DistinctSize(init);
      assert s == init + [last];
      assert Elements(s) == Elements(init) + {last};
      assert last !in Elements(init);
    }
  }

  /** An injective index has as many tiles as cells. */
  lemma {:induction false} InjectiveSize(m: map<Key, TileId>)
    requires Injective(m)
    ensures |m.Values| == |m|
    decreases |m|
  {
    if |m| > 0 {
      var k :| k in m;
      var m' := m - {k};
      ValuesOfRemove(m, k);
      assert m'.Keys == m.Keys - {k};
      InjectiveSize(m');
    }
  }

  /** Every tile ever created is counted exactly once: idle ones plus placed ones. */
  lemma Conservation(w: World)
    requires Partitioned(w)
    ensures |w.inactiveTiles| + |w.activeTiles| == |w.tilePool|
  {
    var idle := Elements(w.inactiveTiles);
    var busy := w.activeTiles.Values;
    DistinctSize(w.inactiveTiles);
    InjectiveSize(w.activeTiles);
    PoolSize(w);
    assert idle !! busy;
    assert |idle + busy| == |idle| + |busy|;
  }

  /** The idle and the placed tiles together are the pool, which holds |tilePool| distinct ids. */
  lemma PoolSize(w: World)
    requires Partitioned(w)
    ensures Elements(w.inactiveTiles) + w.activeTiles.Values == Elements(w.tilePool)
    ensures |Elements(w.tilePool)| == |w.tilePool|
  {
    var idle := Elements(w.inactiveTiles);
    var busy := w.activeTiles.Values;
    var all := Elements(w.tilePool);
    assert Distinct(w.tilePool) by {
      forall i, j | 0 <= i < j < |w.tilePool| ensures w.tilePool[i] != w.tilePool[j] {
      }
    }
    DistinctSize(w.tilePool);
    forall t | t in all ensures t in idle + busy {
      assert t < |w.tilePool|;
    }
    forall t | t in idle + busy ensures t in all {
      assert w.tilePool[t] == t;
    }
  }

  // ---------------------------------------------------------------------
  // Generate pass

  /** Acquiring and placing a tile at an empty cell keeps the ownership discipline. */
  lemma FillCellPreserves(w: World, k: Key)
    requires Partitioned(w)
    ensures Partitioned(FillCell(w, k))
  {
    if k !in w.activeTiles {
      var (t, w1) := Acquire(w);
      var r := FillCell(w, k);
      ValuesOfInsert(w1.activeTiles, k, t);
      assert r.activeTiles.Values == w.activeTiles.Values + {t};
      assert t !in w.activeTiles.Values;
      forall i, j | 0 <= i < j < |r.inactiveTiles|
        ensures r.inactiveTiles[i] != r.inactiveTiles[j]
      {
        if |w.inactiveTiles| > 0 {
          assert r.inactiveTiles[i] == w.inactiveTiles[i + 1];
          assert r.inactiveTiles[j] == w.inactiveTiles[j + 1];
        }
      }
      forall u | u in r.inactiveTiles ensures u < |r.tilePool| && u !in r.activeTiles.Values {
        assert u in w.inactiveTiles;
        if |w.inactiveTiles| > 0 {
          assert u != w.inactiveTiles[0];
        }
      }
      forall u: TileId | u < |r.tilePool| ensures u in r.inactiveTiles || u in r.activeTiles.Values {
        if u != t {
          assert u < |w.tilePool|;
          if u in w.inactiveTiles {
            var i :| 0 <= i < |w.inactiveTiles| && w.inactiveTiles[i] == u;
            assert i > 0;
            assert r.inactiveTiles[i - 1] == u;
          }
        }
      }
    }
  }

  /** One row of a generate pass keeps the ownership discipline. */
  lemma {:induction false} FillRowPreserves(w: World, x: int, zlo: int, zhi: int)
    requires Partitioned(w)
    ensures Partitioned(FillRow(w, x, zlo, zhi))
    decreases zhi - zlo
  {
    if zhi > zlo {
      FillRowPreserves(w, x, zlo, zhi - 1);
      FillCellPreserves(FillRow(w, x, zlo, zhi - 1), Key(x, zhi - 1));
    }
  }

  /** A whole generate pass keeps the ownership discipline. */
  lemma {:induction false} FillRectPreserves(w: World, xlo: int, xhi: int, zlo: int, zhi: int)
    requires Partitioned(w)
    ensures Partitioned(FillRect(w, xlo, xhi, zlo, zhi))
    decreases xhi - xlo
  {
    if xhi > xlo {
      FillRectPreserves(w, xlo, xhi - 1, zlo, zhi);
      FillRowPreserves(FillRect(w, xlo, xhi - 1, zlo, zhi), xhi - 1, zlo, zhi);
    }
  }

  /** One row of a generate pass adds exactly the row's missing cells and keeps every existing entry. */
  lemma {:induction false} FillRowIndex(w: World, x: int, zlo: int, zhi: int)
    ensures var r := FillRow(w, x, zlo, zhi);
      && (forall k :: k in r.activeTiles <==> k in w.activeTiles || InRect(k, x, x + 1, zlo, zhi))
      && (forall k :: k in w.activeTiles ==> r.activeTiles[k] == w.activeTiles[k])
      && w.tilePool <= r.tilePool
    decreases zhi - zlo
  {
    if zhi > zlo {
      FillRowIndex(w, x, zlo, zhi - 1);
    }
  }

  /**
   * After a generate pass over a rectangle, the index holds exactly the cells
   * it held before plus every cell of the rectangle; cells that were already
   * present keep their tile, and no tile ever created is dropped from the pool.
   */
  lemma {:induction false} FillRectIndex(w: World, xlo: int, xhi: int, zlo: int, zhi: int)
    ensures var r := FillRect(w, xlo, xhi, zlo, zhi);
      && (forall k :: k in r.activeTiles <==> k in w.activeTiles || InRect(k, xlo, xhi, zlo, zhi))
      && (forall k :: k in w.activeTiles ==> r.activeTiles[k] == w.activeTiles[k])
      && w.tilePool <= r.tilePool
    decreases xhi - xlo
  {
    if xhi > xlo {
      var mid := FillRect(w, xlo, xhi - 1, zlo, zhi);
      FillRectIndex(w, xlo, xhi - 1, zlo, zhi);
      FillRowIndex(mid, xhi - 1, zlo, zhi);
    }
  }

  /**
   * With an exhausted pool every placement creates a fresh tile: the idle
   * queue stays empty through the whole pass.
   */
  lemma {:induction false} FillRectExhausted(w: World, xlo: int, xhi: int, zlo: int, zhi: int)
    requires w.inactiveTiles == []
    ensures FillRect(w, xlo, xhi, zlo, zhi).inactiveTiles == []
    decreases xhi - xlo
  {
    if xhi > xlo {
      FillRectExhausted(w, xlo, xhi - 1, zlo, zhi);
      FillRowExhausted(FillRect(w, xlo, xhi - 1, zlo, zhi), xhi - 1, zlo, zhi);
    }
  }

  /** FillRectExhausted for one row. */
  lemma {:induction false} FillRowExhausted(w: World, x: int, zlo: int, zhi: int)
    requires w.inactiveTiles == []
    ensures FillRow(w, x, zlo, zhi).inactiveTiles == []
    decreases zhi - zlo
  {
    if zhi > zlo {
      FillRowExhausted(w, x, zlo, zhi - 1);
    }
  }

  // ---------------------------------------------------------------------
  // Deactivate pass

  /** Removing a placed cell and returning its tile keeps the ownership discipline. */
  lemma ReleasePreserves(w: World, k: Key)
    requires Partitioned(w)
    ensures Partitioned(Release(w, k))
  {
    if k in w.activeTiles {
      var t := w.activeTiles[k];
      var r := Release(w, k);
      ValuesOfRemove(w.activeTiles, k);
      assert r.activeTiles.Values == w.activeTiles.Values - {t};
      assert t !in w.inactiveTiles;
      forall u: TileId | u < |r.tilePool| ensures u in r.inactiveTiles || u in r.activeTiles.Values {
        if u == t {
          assert r.inactiveTiles[|r.inactiveTiles| - 1] == u;
        } else if u in w.inactiveTiles {
          var i :| 0 <= i < |w.inactiveTiles| && w.inactiveTiles[i] == u;
          assert r.inactiveTiles[i] == u;
        }
      }
    }
  }

  /**
   * Releasing distinct placed cells one after another removes exactly those
   * cells from the index, leaves every other entry as it was, and enqueues
   * their tiles at the tail of the idle queue in the same order.
   */
  lemma ReleaseAllEffect(w: World, ks: seq<Key>)
    requires Partitioned(w)
    requires Distinct(ks)
    requires forall k :: k in ks ==> k in w.activeTiles
    ensures var r := ReleaseAll(w, ks);
      && Partitioned(r)
      && r.tilePool == w.tilePool
      && (forall k :: k in r.activeTiles <==> k in w.activeTiles && k !in ks)
      && (forall k :: k in r.activeTiles ==> r.activeTiles[k] == w.activeTiles[k])
      && r.inactiveTiles == w.inactiveTiles + TilesAt(w.activeTiles, ks)
  {
    ReleaseAllPreserves(w, ks);
    ReleaseAllIndex(w, ks);
  }

  /** A deactivate pass keeps the ownership discipline. */
  lemma {:induction false} ReleaseAllPreserves(w: World, ks: seq<Key>)
    requires Partitioned(w)
    ensures Partitioned(ReleaseAll(w, ks))
    decreases |ks|
  {
    if ks != [] {
      ReleaseAllPreserves(w, ks[..|ks| - 1]);
      ReleasePreserves(ReleaseAll(w, ks[..|ks| - 1]), ks[|ks| - 1]);
    }
  }

  /** The effect of a deactivate pass on the index and on the idle queue. */
  lemma {:induction false} ReleaseAllIndex(w: World, ks: seq<Key>)
    requires Distinct(ks)
    requires forall k :: k in ks ==> k in w.activeTiles
    ensures var r := ReleaseAll(w, ks);
      && r.tilePool == w.tilePool
      && (forall k :: k in r.activeTiles <==> k in w.activeTiles && k !in ks)
      && (forall k :: k in r.activeTiles ==> r.activeTiles[k] == w.activeTiles[k])
      && r.inactiveTiles == w.inactiveTiles + TilesAt(w.activeTiles, ks)
    decreases |ks|
  {
    if ks != [] {
      var init := ks[..|ks| - 1];
      var last := ks[|ks| - 1];
      assert ks == init + [last];
      assert Distinct(init);
      ReleaseAllIndex(w, init);
      var mid := ReleaseAll(w, init);
      assert last !in init;
      assert last in mid.activeTiles && mid.activeTiles[last] == w.activeTiles[last];
      assert TilesAt(w.activeTiles, ks) == TilesAt(w.activeTiles, init) + [w.activeTiles[last]];
      var r := ReleaseAll(w, ks);
      assert r == World(mid.tilePool, mid.activeTiles - {last}, mid.inactiveTiles + [w.activeTiles[last]]);
      forall k ensures k in r.activeTiles <==> k in w.activeTiles && k !in ks {
        assert k in ks <==> k in init || k == last;
      }
    }
  }

  /** ks lists, without repetition, exactly the cells of m that lie in far. */
  ghost predicate Enumerates(ks: seq<Key>, m: map<Key, TileId>, far: iset<Key>) {
    Distinct(ks) && forall k :: k in ks <==> k in m && k in far
  }

  /**
   * A deactivate pass that enumerates the far cells of the index removes
   * exactly those, keeps every other entry with its tile, and keeps the
   * ownership discipline and the tile count.
   */
  lemma DeactivateEffect(g: World, far: iset<Key>, ks: seq<Key>)
    requires Partitioned(g)
    requires Enumerates(ks, g.activeTiles, far)
    ensures var n := ReleaseAll(g, ks);
      && Partitioned(n)
      && (forall k :: k in n.activeTiles <==> k in g.activeTiles && k !in far)
      && (forall k :: k in n.activeTiles ==> n.activeTiles[k] == g.activeTiles[k])
      && |n.inactiveTiles| + |n.activeTiles| == |n.tilePool|
  {
    ReleaseAllEffect(g, ks);
    Conservation(ReleaseAll(g, ks));
  }

  /** FillRectIndex for the square window of half-widths h and v around c. */
  lemma FillSquareIndex(w: World, c: Key, h: int, v: int)
    ensures var r := FillSquare(w, c, h, v);
      && (forall k :: k in r.activeTiles <==> k in w.activeTiles || InSquare(k, c, h, v))
      && (forall k :: k in w.activeTiles ==> r.activeTiles[k] == w.activeTiles[k])
  {
    FillRectIndex(w, c.x - h, c.x + h + 1, c.z - v, c.z + v + 1);
  }

  /** FillRectPreserves for the square window of half-widths h and v around c. */
  lemma FillSquarePreserves(w: World, c: Key, h: int, v: int)
    requires Partitioned(w)
    ensures Partitioned(FillSquare(w, c, h, v))
  {
    FillRectPreserves(w, c.x - h, c.x + h + 1, c.z - v, c.z + v + 1);
  }

  /**
   * A generate pass over the window around c followed by a deactivate pass
   * for the cells in far: afterwards the index holds exactly the cells that
   * were present or in the window and are not far; surviving old entries keep
   * their tile; ownership and the tile count are kept.
   */
  lemma ResyncEffect(w: World, c: Key, h: int, v: int, far: iset<Key>, ks: seq<Key>)
    requires Partitioned(w)
    requires Enumerates(ks, FillSquare(w, c, h, v).activeTiles, far)
    ensures var n := ReleaseAll(FillSquare(w, c, h, v), ks);
      && Partitioned(n)
      && (forall k :: k in n.activeTiles <==> (k in w.activeTiles || InSquare(k, c, h, v)) && k !in far)
      && (forall k :: k in n.activeTiles && k in w.activeTiles ==> n.activeTiles[k] == w.activeTiles[k])
      && |n.inactiveTiles| + |n.activeTiles| == |n.tilePool|
  {
    var g := FillSquare(w, c, h, v);
    FillSquareIndex(w, c, h, v);
    FillSquarePreserves(w, c, h, v);
    DeactivateEffect(g, far, ks);
  }

  /**
   * Acquiring a tile for an empty cell and releasing it again restores the
   * index; a tile taken from the head of the idle queue comes back at its tail,
   * and a tile created for an exhausted pool stays in the pool as its only idle tile.
   */
  lemma AcquireReleaseRoundTrip(w: World, k: Key)
    requires k !in w.activeTiles
    ensures var r := Release(FillCell(w, k), k);
      && r.activeTiles == w.activeTiles
      && (|w.inactiveTiles| > 0 ==>
            r.tilePool == w.tilePool && r.inactiveTiles == w.inactiveTiles[1..] + [w.inactiveTiles[0]])
      && (|w.inactiveTiles| == 0 ==>
            r.tilePool == w.tilePool + [|w.tilePool|] && r.inactiveTiles == [|w.tilePool|])
  {
    var f := FillCell(w, k);
    assert f.activeTiles - {k} == w.activeTiles;
  }
}
