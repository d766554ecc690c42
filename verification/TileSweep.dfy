/** SpawnManager's tiles: which are near a player, and which may be dropped. */
module TileSweep {
  import opened Common
  import Spawner
  import UniqueSpawn

  const SPAWN_TILE_SIZE := 560
  const SPAWN_TILE_RANGE := 2
  const GARBAGE_CHECK_DELAY := 60000

  datatype Coord = Coord(x: int, z: int)

  function TileOf(p: Coord): Coord {
    Coord(Quotient(p.x, SPAWN_TILE_SIZE), Quotient(p.z, SPAWN_TILE_SIZE))
  }

  // ---- active tiles ---------------------------------------------------------------------

  predicate Near(p: Coord, c: Coord) {
    && TileOf(p).x - SPAWN_TILE_RANGE <= c.x <= TileOf(p).x + SPAWN_TILE_RANGE
    && TileOf(p).z - SPAWN_TILE_RANGE <= c.z <= TileOf(p).z + SPAWN_TILE_RANGE
  }

  ghost predicate NearSome(players: seq<Coord>, c: Coord) {
    exists i :: 0 <= i < |players| && Near(players[i], c)
  }

  ghost predicate Distinct(cs: seq<Coord>) {
    forall i, j :: 0 <= i < j < |cs| ==> cs[i] != cs[j]
  }

  method HasTileCoord(c: Coord, searchList: seq<Coord>) returns (has: bool)
    ensures has <==> c in searchList
  {
    for i := 0 to |searchList|
      invariant forall j :: 0 <= j < i ==> searchList[j] != c
    {
      if searchList[i] == c {
        return true;
      }
    }
    return false;
  }

  method ScanRow(p: Coord, z: int, found: seq<Coord>) returns (outputList: seq<Coord>)
    requires Distinct(found) && TileOf(p).z - SPAWN_TILE_RANGE <= z <= TileOf(p).z + SPAWN_TILE_RANGE
    ensures Distinct(outputList)
    ensures forall c :: c in outputList <==> c in found || (Near(p, c) && c.z == z)
  {
    outputList := found;
    var tx := TileOf(p).x;
    for x := tx - SPAWN_TILE_RANGE to tx + SPAWN_TILE_RANGE + 1
      invariant Distinct(outputList)
      invariant forall c :: c in outputList <==> c in found || (Near(p, c) && c.z == z && c.x < x)
    {
      var has := HasTileCoord(Coord(x, z), outputList);
      if !has {
        outputList := outputList + [Coord(x, z)];
      }
    }
  }

  /** The blocks around all players, without duplicates. */
  method ScanActivePlayerTiles(players: seq<Coord>) returns (outputList: seq<Coord>)
    ensures Distinct(outputList)
    ensures forall c :: c in outputList <==> NearSome(players, c)
  {
    outputList := [];
    for i := 0 to |players|
      invariant Distinct(outputList)
      invariant forall c :: c in outputList <==> NearSome(players[..i], c)
    {
      ghost var before := outputList;
      var tz := TileOf(players[i]).z;
      for z := tz - SPAWN_TILE_RANGE to tz + SPAWN_TILE_RANGE + 1
        invariant Distinct(outputList)
        invariant forall c :: c in outputList <==> c in before || (Near(players[i], c) && c.z < z)
      {
        outputList := ScanRow(players[i], z, outputList);
      }
      forall c ensures c in outputList <==> NearSome(players[..i + 1], c) {
        NearOneMore(players, i, c);
      }
    }
    assert players[..|players|] == players;
  }

  lemma NearOneMore(players: seq<Coord>, i: nat, c: Coord)
    requires i < |players|
    ensures NearSome(players[..i + 1], c) <==> NearSome(players[..i], c) || Near(players[i], c)
  {
    if NearSome(players[..i], c) {
      var k :| 0 <= k < i && Near(players[..i][k], c);
      assert players[..i + 1][k] == players[k];
    }
    if Near(players[i], c) {
      assert players[..i + 1][i] == players[i];
    }
    if NearSome(players[..i + 1], c) {
      var k :| 0 <= k < i + 1 && Near(players[..i + 1][k], c);
      if k < i { assert players[..i][k] == players[k]; }
    }
  }

  // ---- garbage tiles --------------------------------------------------------------------

  /** A tile, the due times of its spawners, and the creatures attached to it. */
  datatype Tile = Tile(at: Coord, releaseTime: int, nextSpawns: map<int, int>, attached: seq<int>)

  /** The creatures of the instance and where they stand. */
  type Creatures = map<int, Coord>

  /** Past its release time, with no finite pending spawn. */
  predicate QualifyDelete(t: Tile, now: int) {
    now >= t.releaseTime &&
    forall k | k in t.nextSpawns :: t.nextSpawns[k] == MAX_TIME || now >= t.nextSpawns[k]
  }

  /** A creature of the tile stands in an active tile. */
  predicate Patrols(t: Tile, npcs: Creatures, active: seq<Coord>) {
    exists i | 0 <= i < |t.attached| :: t.attached[i] in npcs && TileOf(npcs[t.attached[i]]) in active
  }

  predicate Keeps(t: Tile, npcs: Creatures, active: seq<Coord>, now: int) {
    !QualifyDelete(t, now) || t.at in active || Patrols(t, npcs, active)
  }

  function Without(npcs: Creatures, ids: seq<int>): Creatures {
    map id | id in npcs && id !in ids :: npcs[id]
  }

  /** Tiles are judged in list order, each after the creatures of the earlier erased tiles
      have been removed. */
  function Swept(tiles: seq<Tile>, npcs: Creatures, active: seq<Coord>, now: int): (seq<Tile>, Creatures) {
    if |tiles| == 0 then ([], npcs)
    else
      var n := |tiles| - 1;
      var (kept, left) := Swept(tiles[..n], npcs, active, now);
      if Keeps(tiles[n], left, active, now) then (kept + [tiles[n]], left)
      else (kept, Without(left, tiles[n].attached))
  }

  class SpawnManager {
    var spawnTiles: seq<Tile>
    var nextGarbageCheck: int
    var npcs: Creatures

    constructor ()
      ensures spawnTiles == [] && nextGarbageCheck == 0 && npcs == map[]
    {
      spawnTiles, nextGarbageCheck, npcs := [], 0, map[];
    }

    method StandsInActive(t: Tile, active: seq<Coord>) returns (found: bool)
      ensures found <==> Patrols(t, npcs, active)
    {
      found := false;
      var i := 0;
      while !found && i < |t.attached|
        invariant 0 <= i <= |t.attached|
        invariant found ==> Patrols(t, npcs, active)
        invariant !found ==> forall j :: 0 <= j < i ==>
                    !(t.attached[j] in npcs && TileOf(npcs[t.attached[j]]) in active)
      {
        if t.attached[i] in npcs {
          found := HasTileCoord(TileOf(npcs[t.attached[i]]), active);
        }
        i := i + 1;
      }
    }

    method RemoveAllAttachedCreature(t: Tile)
      modifies this`npcs
      ensures npcs == Without(old(npcs), t.attached)
    {
      for i := 0 to |t.attached|
        invariant npcs == Without(old(npcs), t.attached[..i])
      {
        assert t.attached[..i + 1] == t.attached[..i] + [t.attached[i]];
        npcs := npcs - {t.attached[i]};
      }
      assert t.attached[..|t.attached|] == t.attached;
    }

    method RunGarbageCheck(active: seq<Coord>, now: int)
      modifies this
      ensures old(nextGarbageCheck) > now ==>
                spawnTiles == old(spawnTiles) && npcs == old(npcs) && nextGarbageCheck == old(nextGarbageCheck)
      ensures old(nextGarbageCheck) <= now ==>
                (spawnTiles, npcs) == Swept(old(spawnTiles), old(npcs), active, now) &&
                nextGarbageCheck == now + GARBAGE_CHECK_DELAY
    {
      if nextGarbageCheck > now {
        return;
      }
      ghost var tiles, seen := spawnTiles, 0;
      var at := 0;
      while at < |spawnTiles|
        invariant 0 <= seen <= |tiles| && 0 <= at <= |spawnTiles|
        invariant spawnTiles[at..] == tiles[seen..]
        invariant (spawnTiles[..at], npcs) == Swept(tiles[..seen], old(npcs), active, now)
        decreases |tiles| - seen
      {
        var tile := spawnTiles[at];
        assert tile == spawnTiles[at..][0] == tiles[seen] && spawnTiles[at + 1..] == spawnTiles[at..][1..];
        assert tiles[..seen + 1][..seen] == tiles[..seen] && tiles[seen + 1..] == tiles[seen..][1..];
        var bFound := !QualifyDelete(tile, now);
        if !bFound {
          bFound := HasTileCoord(tile.at, active);
        }
        if !bFound {
          bFound := StandsInActive(tile, active);
        }
        if bFound {
          assert spawnTiles[..at + 1] == spawnTiles[..at] + [tile];
          at := at + 1;
        } else {
          RemoveAllAttachedCreature(tile);
          ghost var front, back := spawnTiles[..at], spawnTiles[at + 1..];
          spawnTiles := spawnTiles[..at] + spawnTiles[at + 1..];
          assert spawnTiles[..at] == front && spawnTiles[at..] == back;
        }
        seen := seen + 1;
      }
      assert tiles[..seen] == tiles && spawnTiles[..at] == spawnTiles;
      nextGarbageCheck := now + GARBAGE_CHECK_DELAY;
    }
  }

  // ---- what a sweep erases --------------------------------------------------------------

  function Filter(tiles: seq<Tile>, npcs: Creatures, active: seq<Coord>, now: int): seq<Tile> {
    if |tiles| == 0 then []
    else
      var n := |tiles| - 1;
      Filter(tiles[..n], npcs, active, now) + if Keeps(tiles[n], npcs, active, now) then [tiles[n]] else []
  }

  /** No creature belongs to two tiles. */
  ghost predicate Disjoint(tiles: seq<Tile>) {
    forall i, j, k, l :: 0 <= i < j < |tiles| && 0 <= k < |tiles[i].attached| && 0 <= l < |tiles[j].attached| ==>
      tiles[i].attached[k] != tiles[j].attached[l]
  }

  /** The creature is attached to a tile that the sweep does not keep. */
  ghost predicate Erased(tiles: seq<Tile>, id: int, npcs: Creatures, active: seq<Coord>, now: int) {
    exists i, k :: 0 <= i < |tiles| && 0 <= k < |tiles[i].attached| && tiles[i].attached[k] == id &&
      !Keeps(tiles[i], npcs, active, now)
  }

  ghost predicate AgreesOn(t: Tile, npcs: Creatures, left: Creatures) {
    forall k :: 0 <= k < |t.attached| ==>
      (t.attached[k] in left <==> t.attached[k] in npcs) &&
      (t.attached[k] in left ==> left[t.attached[k]] == npcs[t.attached[k]])
  }

  lemma KeepsAgrees(t: Tile, npcs: Creatures, left: Creatures, active: seq<Coord>, now: int)
    requires AgreesOn(t, npcs, left)
    ensures Keeps(t, left, active, now) <==> Keeps(t, npcs, active, now)
  {
  }

  ghost predicate Has(t: Tile, id: int) {
    exists k :: 0 <= k < |t.attached| && t.attached[k] == id
  }

  lemma ErasedSnoc(tiles: seq<Tile>, id: int, npcs: Creatures, active: seq<Coord>, now: int)
    requires |tiles| > 0
    ensures Erased(tiles, id, npcs, active, now) <==>
            Erased(tiles[..|tiles| - 1], id, npcs, active, now) ||
            (!Keeps(tiles[|tiles| - 1], npcs, active, now) && Has(tiles[|tiles| - 1], id))
  {
    var front := tiles[..|tiles| - 1];
    if Erased(tiles, id, npcs, active, now) {
      var i, k :| 0 <= i < |tiles| && 0 <= k < |tiles[i].attached| && tiles[i].attached[k] == id &&
                  !Keeps(tiles[i], npcs, active, now);
      if i < |front| { assert front[i] == tiles[i]; }
    }
    if Erased(front, id, npcs, active, now) {
      var i, k :| 0 <= i < |front| && 0 <= k < |front[i].attached| && front[i].attached[k] == id &&
                  !Keeps(front[i], npcs, active, now);
      assert tiles[i].attached[k] == id;
    }
  }

  /** When no creature belongs to two tiles, a sweep erases exactly the tiles that do not
      qualify to stay by the state before it, in order, and with them exactly the creatures
      attached to the erased tiles. */
  lemma {:induction false} SweepExact(tiles: seq<Tile>, npcs: Creatures, active: seq<Coord>, now: int)
    requires Disjoint(tiles)
    ensures Swept(tiles, npcs, active, now).0 == Filter(tiles, npcs, active, now)
    ensures forall id :: id in Swept(tiles, npcs, active, now).1 <==>
                         id in npcs && !Erased(tiles, id, npcs, active, now)
    ensures forall id :: id in Swept(tiles, npcs, active, now).1 ==>
                         id in npcs && Swept(tiles, npcs, active, now).1[id] == npcs[id]
  {
    if |tiles| > 0 {
      var n, last := |tiles| - 1, tiles[|tiles| - 1];
      assert forall i :: 0 <= i < n ==> tiles[..n][i] == tiles[i];
      SweepExact(tiles[..n], npcs, active, now);
      var left := Swept(tiles[..n], npcs, active, now).1;
      forall k | 0 <= k < |last.attached| ensures !Erased(tiles[..n], last.attached[k], npcs, active, now) {
      }
      KeepsAgrees(last, npcs, left, active, now);
      forall id ensures id in Swept(tiles, npcs, active, now).1 <==>
                        id in npcs && !Erased(tiles, id, npcs, active, now) {
        ErasedSnoc(tiles, id, npcs, active, now);
      }
    }
  }

  /** Whatever is shared, a tile that stays had a reason to stay before the sweep. */
  lemma {:induction false} KeptHadReason(tiles: seq<Tile>, npcs: Creatures, active: seq<Coord>, now: int)
    ensures var (kept, left) := Swept(tiles, npcs, active, now);
            && (forall id :: id in left ==> id in npcs && left[id] == npcs[id])
            && (forall i :: 0 <= i < |kept| ==> kept[i] in tiles && Keeps(kept[i], npcs, active, now))
  {
    if |tiles| > 0 {
      KeptHadReason(tiles[..|tiles| - 1], npcs, active, now);
    }
  }

  // ---- no creature belongs to two tiles -------------------------------------------------

  /** Creature IDs are drawn from one counter; nextID is the next one. */
  datatype World = World(tiles: seq<Tile>, npcs: Creatures, nextID: int)

  datatype Step =
    | Generated(at: Coord)
    | Spawned(tile: nat, where: Coord)
    | Detached(tile: nat, id: int)
    | Processed(tile: nat, releaseTime: int, nextSpawns: map<int, int>)
    | Moved(id: int, to: Coord)
    | OtherActor
    | GarbageCheck(active: seq<Coord>, now: int)

  function Next(w: World, step: Step): World {
    match step
    case Generated(at) => w.(tiles := w.tiles + [Tile(at, 0, map[], [])])
    case Spawned(i, where) =>
      if i >= |w.tiles| then w
      else World(w.tiles[i := w.tiles[i].(attached := w.tiles[i].attached + [w.nextID])],
                 w.npcs[w.nextID := where], w.nextID + 1)
    case Detached(i, id) =>
      if i >= |w.tiles| then w
      else
        var k := FirstIndex(w.tiles[i].attached, id);
        if k == |w.tiles[i].attached| then w
        else w.(tiles := w.tiles[i := w.tiles[i].(attached := w.tiles[i].attached[..k] + w.tiles[i].attached[k + 1..])])
    case Processed(i, releaseTime, nextSpawns) =>
      if i >= |w.tiles| then w
      else w.(tiles := w.tiles[i := w.tiles[i].(releaseTime := releaseTime, nextSpawns := nextSpawns)])
    case Moved(id, to) => if id in w.npcs then w.(npcs := w.npcs[id := to]) else w
    case OtherActor => w.(nextID := w.nextID + 1)
    case GarbageCheck(active, now) =>
      var (kept, left) := Swept(w.tiles, w.npcs, active, now);
      w.(tiles := kept, npcs := left)
  }

  function Run(w: World, steps: seq<Step>): World
    decreases |steps|
  {
    if |steps| == 0 then w else Run(Next(w, steps[0]), steps[1..])
  }

  /** No creature belongs to two tiles, and none has an ID still to be handed out. */
  ghost predicate Owned(w: World) {
    Disjoint(w.tiles) && forall i, k :: 0 <= i < |w.tiles| && 0 <= k < |w.tiles[i].attached| ==> w.tiles[i].attached[k] < w.nextID
  }

  lemma {:induction false} FilterOwned(w: World, tiles: seq<Tile>, active: seq<Coord>, now: int)
    requires Owned(w.(tiles := tiles))
    ensures var kept := Filter(tiles, w.npcs, active, now);
            Owned(w.(tiles := kept)) && forall i :: 0 <= i < |kept| ==> exists j :: 0 <= j < |tiles| && tiles[j] == kept[i]
  {
    if |tiles| > 0 {
      var n := |tiles| - 1;
      assert forall i :: 0 <= i < n ==> tiles[..n][i] == tiles[i];
      FilterOwned(w, tiles[..n], active, now);
      var front, kept := Filter(tiles[..n], w.npcs, active, now), Filter(tiles, w.npcs, active, now);
      forall i | 0 <= i < |kept| ensures exists j :: 0 <= j < |tiles| && tiles[j] == kept[i] {
        if i < |front| {
          var j :| 0 <= j < n && tiles[..n][j] == front[i];
          assert tiles[j] == kept[i];
        } else {
          assert tiles[n] == kept[i];
        }
      }
      if Keeps(tiles[n], w.npcs, active, now) {
        forall i | 0 <= i < |front| ensures Unshared(front[i], tiles[n]) {
          var j :| 0 <= j < n && tiles[..n][j] == front[i];
          assert tiles[j] == front[i];
        }
        OwnedSnoc(w, front, tiles[n]);
      } else {
        assert kept == front;
      }
    }
  }

  ghost predicate Unshared(a: Tile, b: Tile) {
    forall k, l :: 0 <= k < |a.attached| && 0 <= l < |b.attached| ==> a.attached[k] != b.attached[l]
  }

  lemma OwnedSnoc(w: World, tiles: seq<Tile>, t: Tile)
    requires Owned(w.(tiles := tiles)) && forall i :: 0 <= i < |tiles| ==> Unshared(tiles[i], t)
    requires forall k :: 0 <= k < |t.attached| ==> t.attached[k] < w.nextID
    ensures Owned(w.(tiles := tiles + [t]))
  {
    var all := tiles + [t];
    forall i, j, k, l | 0 <= i < j < |all| && 0 <= k < |all[i].attached| && 0 <= l < |all[j].attached|
      ensures all[i].attached[k] != all[j].attached[l]
    {
      if j == |tiles| {
        assert Unshared(tiles[i], t);
      }
    }
  }

  /** Replacing a tile by one whose creatures are its old ones or new. */
  lemma OwnedUpdate(w: World, i: nat, t: Tile, npcs: Creatures, nextID: int)
    requires Owned(w) && i < |w.tiles| && w.nextID <= nextID
    requires forall k :: 0 <= k < |t.attached| ==>
               t.attached[k] < nextID && (t.attached[k] >= w.nextID || Has(w.tiles[i], t.attached[k]))
    ensures Owned(World(w.tiles[i := t], npcs, nextID))
  {
    var all := w.tiles[i := t];
    forall a, b, k, l | 0 <= a < b < |all| && 0 <= k < |all[a].attached| && 0 <= l < |all[b].attached|
      ensures all[a].attached[k] != all[b].attached[l]
    {
      if a == i {
        assert w.tiles[b].attached[l] < w.nextID;
      } else if b == i {
        assert w.tiles[a].attached[k] < w.nextID;
      }
    }
  }

  lemma OwnedSpawn(w: World, i: nat, where: Coord)
    requires Owned(w)
    ensures Owned(Next(w, Spawned(i, where)))
  {
    if i < |w.tiles| {
      var t := w.tiles[i].(attached := w.tiles[i].attached + [w.nextID]);
      forall k | 0 <= k < |t.attached| ensures t.attached[k] >= w.nextID || Has(w.tiles[i], t.attached[k]) {
        if k < |w.tiles[i].attached| { assert w.tiles[i].attached[k] == t.attached[k]; }
      }
      OwnedUpdate(w, i, t, w.npcs[w.nextID := where], w.nextID + 1);
    }
  }

  lemma OwnedDetach(w: World, i: nat, id: int)
    requires Owned(w)
    ensures Owned(Next(w, Detached(i, id)))
  {
    if i < |w.tiles| {
      var ids := w.tiles[i].attached;
      var f := FirstIndex(ids, id);
      if f < |ids| {
        var t := w.tiles[i].(attached := ids[..f] + ids[f + 1..]);
        forall k | 0 <= k < |t.attached| ensures t.attached[k] < w.nextID && Has(w.tiles[i], t.attached[k]) {
          assert t.attached[k] == ids[if k < f then k else k + 1];
        }
        OwnedUpdate(w, i, t, w.npcs, w.nextID);
      }
    }
  }

  lemma OwnedStep(w: World, step: Step)
    requires Owned(w)
    ensures Owned(Next(w, step))
  {
    match step
    case Generated(at) => OwnedSnoc(w, w.tiles, Tile(at, 0, map[], []));
    case Spawned(i, where) => OwnedSpawn(w, i, where);
    case Detached(i, id) => OwnedDetach(w, i, id);
    case Processed(i, releaseTime, nextSpawns) =>
      if i < |w.tiles| {
        OwnedUpdate(w, i, w.tiles[i].(releaseTime := releaseTime, nextSpawns := nextSpawns), w.npcs, w.nextID);
      }
    case Moved(id, to) =>
    case OtherActor =>
    case GarbageCheck(active, now) =>
      SweepExact(w.tiles, w.npcs, active, now);
      FilterOwned(w, w.tiles, active, now);
  }

  lemma {:induction false} OwnedAlways(w: World, steps: seq<Step>)
    requires Owned(w)
    ensures Owned(Run(w, steps))
    decreases |steps|
  {
    if |steps| > 0 {
      OwnedStep(w, steps[0]);
      OwnedAlways(Next(w, steps[0]), steps[1..]);
    }
  }

  /** After any run from an empty list of tiles, a garbage check erases exactly the tiles that do
      not qualify to stay by the state before it. */
  lemma SweepExactAlways(npcs: Creatures, nextID: int, steps: seq<Step>, active: seq<Coord>, now: int)
    ensures var w := Run(World([], npcs, nextID), steps);
            && Swept(w.tiles, w.npcs, active, now).0 == Filter(w.tiles, w.npcs, active, now)
            && forall id :: id in Swept(w.tiles, w.npcs, active, now).1 <==>
                            id in w.npcs && !Erased(w.tiles, id, w.npcs, active, now)
  {
    OwnedAlways(World([], npcs, nextID), steps);
    var w := Run(World([], npcs, nextID), steps);
    SweepExact(w.tiles, w.npcs, active, now);
  }

  // ---- which tiles leave ----------------------------------------------------------------

  /** A tile covers 560 units in each direction; the two tiles at an axis meet at 0, and those
      numbered 0 reach to both sides of it. */
  lemma TileCovers(p: Coord)
    ensures p.x >= 0 ==> 560 * TileOf(p).x <= p.x < 560 * TileOf(p).x + 560
    ensures p.x <= 0 ==> 560 * TileOf(p).x - 560 < p.x <= 560 * TileOf(p).x
    ensures p.z >= 0 ==> 560 * TileOf(p).z <= p.z < 560 * TileOf(p).z + 560
    ensures p.z <= 0 ==> 560 * TileOf(p).z - 560 < p.z <= 560 * TileOf(p).z
  {
    QuotientTruncates(p.x, 560);
    QuotientTruncates(p.z, 560);
  }

  /** The block around a player has 25 tiles: a tile is near when its numbers differ from those
      of the player's tile by at most 2. */
  lemma NearIff(p: Coord, c: Coord)
    ensures Near(p, c) <==> -2 <= c.x - TileOf(p).x <= 2 && -2 <= c.z - TileOf(p).z <= 2
  {
  }

  lemma {:induction false} FilterHas(tiles: seq<Tile>, npcs: Creatures, active: seq<Coord>, now: int, t: Tile)
    ensures t in Filter(tiles, npcs, active, now) <==> t in tiles && Keeps(t, npcs, active, now)
  {
    if |tiles| > 0 {
      var front, last := tiles[..|tiles| - 1], tiles[|tiles| - 1];
      FilterHas(front, npcs, active, now, t);
      assert tiles == front + [last];
      assert t in tiles <==> t in front || t == last;
    }
  }

  /** The tiles that stay keep their order. */
  lemma {:induction false} FilterAppend(a: seq<Tile>, b: seq<Tile>, npcs: Creatures, active: seq<Coord>, now: int)
    ensures Filter(a + b, npcs, active, now) == Filter(a, npcs, active, now) + Filter(b, npcs, active, now)
  {
    if |b| == 0 {
      assert a + b == a;
    } else {
      var front, last := b[..|b| - 1], b[|b| - 1];
      FilterAppend(a, front, npcs, active, now);
      assert (a + b)[..|a + b| - 1] == a + front && (a + b)[|a + b| - 1] == last;
    }
  }

  /** A tile leaves if and only if its release time has come, every spawner of it is put off for
      good or due, it is not active, and none of its creatures stands in an active tile. */
  lemma LeavesIff(tiles: seq<Tile>, npcs: Creatures, active: seq<Coord>, now: int, t: Tile)
    requires Disjoint(tiles) && t in tiles
    ensures t !in Swept(tiles, npcs, active, now).0 <==>
            && t.releaseTime <= now
            && (forall k :: k in t.nextSpawns ==> t.nextSpawns[k] == MAX_TIME || t.nextSpawns[k] <= now)
            && t.at !in active
            && (forall j :: 0 <= j < |t.attached| && t.attached[j] in npcs ==> TileOf(npcs[t.attached[j]]) !in active)
  {
    SweepExact(tiles, npcs, active, now);
    FilterHas(tiles, npcs, active, now, t);
  }

  /** A pending spawn keeps its tile, whoever has left it. */
  lemma PendingSpawnKeeps(at: Coord)
    ensures var t := Tile(at, 0, map[7 := 700000], []);
            Swept([t], map[], [], 100000).0 == [t] && Swept([t], map[], [], 700000).0 == []
  {
    var t := Tile(at, 0, map[7 := 700000], []);
    assert [t][..0] == [] && 7 in t.nextSpawns;
  }

  // ---- pacing of erased tiles -----------------------------------------------------------

  /** The tile's due times are those of its spawners. */
  ghost predicate Reflects(t: Tile, spawners: Spawner.Spawners) {
    forall k :: (k in t.nextSpawns <==> k in spawners) && (k in spawners ==> t.nextSpawns[k] == spawners[k].nextSpawn)
  }

  /** Every spawner of an erased tile was releasable. */
  lemma ErasedIsReleasable(tiles: seq<Tile>, npcs: Creatures, active: seq<Coord>, now: UniqueSpawn.Clock, t: Tile,
                           spawners: Spawner.Spawners, k: int)
    requires Disjoint(tiles) && t in tiles && Reflects(t, spawners) && k in spawners
    requires t !in Swept(tiles, npcs, active, now).0
    ensures Spawner.Releasable(spawners[k], now)
  {
    LeavesIff(tiles, npcs, active, now, t);
  }

  /** A boss cannot be brought back early by leaving: when a tile is erased, the respawn delay
      has passed since every spawn and kill in the history of each of its spawners. */
  lemma ErasedIsPaced(tiles: seq<Tile>, npcs: Creatures, active: seq<Coord>, now: UniqueSpawn.Clock, t: Tile,
                      was: Spawner.Tile, settings: map<int, Spawner.Settings>, es: seq<Spawner.TileEvent>, k: int, i: nat)
    requires Disjoint(tiles) && t in tiles && t !in Swept(tiles, npcs, active, now).0
    requires was.spawners.Keys == settings.Keys && k in was.spawners && Spawner.TileInOrder(es)
    requires Reflects(t, Spawner.TileRun(was, settings, es).spawners)
    requires es != [] && Spawner.Time(es[|es| - 1]) <= now
    ensures var h := Spawner.History(was, settings, es, k);
            i < |h| && Spawner.Counts(was.spawners[k], settings[k], h, i) ==>
              now - h[i].now >= Spawner.RespawnDelay(settings[k]) * 1000
  {
    ErasedIsReleasable(tiles, npcs, active, now, t, Spawner.TileRun(was, settings, es).spawners, k);
    Spawner.ReleasedIsPaced(was, settings, es, k, i, now);
  }
}
