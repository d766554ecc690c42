/** Spawn points: SpawnTile::RunProcessing visits each spawner of an active tile, and
    SpawnManager::NotifyKill reports the death of a spawned creature. */
module Spawner {
  import opened Common
  import opened UniqueSpawn
  import IdOrder

  const DEFAULT_DESPAWNTIME: Seconds := 150
  const PROCESSING_INTERVAL := 1000

  datatype Package = Package(name: string, uniquePoints: int, spawnDelay: Seconds)

  /** What a spawner's scenery object and spawn package say; fixed along a run. */
  datatype Settings = Settings(hasPoint: bool, hasExtraData: bool, maxActive: int, despawnTime: Seconds,
                               sequential: bool, package: Option<Package>, instanced: bool)

  datatype Spawner = Spawner(spawnCount: int, nextSpawn: int, refCount: int, attached: seq<int>)

  const FRESH := Spawner(0, 0, 0, [])

  /** Conversion to the 16 bits of `refCount`. */
  function Short(x: int): (r: int)
    ensures -32768 <= r <= 32767
  {
    (x + 32768) % 65536 - 32768
  }

  function RespawnDelay(cfg: Settings): Seconds {
    var own := if cfg.hasExtraData && cfg.despawnTime != 0 then cfg.despawnTime else DEFAULT_DESPAWNTIME;
    if own == DEFAULT_DESPAWNTIME && cfg.package.Some? && cfg.package.value.spawnDelay != 0
    then cfg.package.value.spawnDelay else own
  }

  /** `UpdateSpawnDelay`: the delay asked for is not used. */
  function Delayed(sp: Spawner, cfg: Settings, now: Clock): Spawner {
    sp.(nextSpawn := After(now, RespawnDelay(cfg)))
  }

  function Invalid(sp: Spawner): Spawner {
    sp.(nextSpawn := MAX_TIME)
  }

  function Spawned(sp: Spawner, cfg: Settings, now: Clock, creature: int): Spawner {
    Delayed(sp, cfg, now).(spawnCount := sp.spawnCount + 1, refCount := Short(sp.refCount + 1),
                           attached := sp.attached + [creature])
  }

  /** The visit gets as far as the package. */
  predicate Due(sp: Spawner, cfg: Settings, now: Clock) {
    cfg.hasPoint && now >= sp.nextSpawn && cfg.hasExtraData && sp.refCount < cfg.maxActive && cfg.package.Some?
  }

  predicate Tests(sp: Spawner, cfg: Settings, now: Clock) {
    Due(sp, cfg, now) && cfg.package.value.uniquePoints != 0
  }

  predicate Creates(sp: Spawner, cfg: Settings, now: Clock, pass: bool) {
    Due(sp, cfg, now) && (cfg.package.value.uniquePoints != 0 ==> pass) && !(cfg.instanced && sp.spawnCount >= 1)
  }

  /** One visit: `pass` answers the uniqueness test, `creature` is the new creature, if one
      can be made. */
  function Visited(sp: Spawner, cfg: Settings, now: Clock, pass: bool, creature: Option<int>): Spawner {
    if !cfg.hasPoint || now < sp.nextSpawn then sp
    else if !cfg.hasExtraData then Invalid(sp)
    else if sp.refCount >= cfg.maxActive then sp
    else if cfg.package.None? then Invalid(sp)
    else if cfg.package.value.uniquePoints != 0 && !pass then
      if cfg.instanced then Invalid(sp) else Delayed(sp, cfg, now)
    else if cfg.instanced && sp.spawnCount >= 1 then sp
    else if creature.None? then Invalid(sp)
    else Spawned(sp, cfg, now, creature.value)
  }

  function WithoutFirst(s: seq<int>, x: int): seq<int> {
    var i := FirstIndex(s, x);
    if i == |s| then s else s[..i] + s[i + 1..]
  }

  function Killed(sp: Spawner, cfg: Settings, now: Clock, creature: int): Spawner {
    Delayed(sp, cfg, now).(refCount := Short(sp.refCount - 1), attached := WithoutFirst(sp.attached, creature))
  }

  /** The death of a creature of a unique package chooses again among its props. */
  function Rerolled(es: Entries, cfg: Settings, now: Clock, roll: nat): Entries {
    if cfg.package.None? || cfg.package.value.uniquePoints == 0 || cfg.package.value.name !in es then es
    else es[cfg.package.value.name := Rolled(es[cfg.package.value.name], RespawnDelay(cfg), now, roll)]
  }

  // ---- the tile -------------------------------------------------------------------------

  type Spawners = map<int, Spawner>

  datatype Tile = Tile(spawners: Spawners, attached: seq<int>, unique: Entries)

  /** Outcomes outside the tile, for each prop: the creature that can be made, and the roll drawn
      if its visit is the first of its package. */
  datatype World = World(now: Clock, creatures: map<int, int>, rolls: map<int, nat>)

  function Roll(w: World, prop: int): nat {
    if prop in w.rolls then w.rolls[prop] else 0
  }

  function Creature(w: World, prop: int): Option<int> {
    if prop in w.creatures then Some(w.creatures[prop]) else None
  }

  function Pass(t: Tile, prop: int, cfg: Settings, w: World): bool
    requires prop in t.spawners
  {
    Tests(t.spawners[prop], cfg, w.now) &&
    Answer(At(t.unique, cfg.package.value.name), cfg.package.value.uniquePoints, prop, w.now, Roll(w, prop))
  }

  function VisitOne(t: Tile, prop: int, cfg: Settings, w: World): Tile
    requires prop in t.spawners
  {
    var sp := t.spawners[prop];
    var pass := Pass(t, prop, cfg, w);
    var creature := Creature(w, prop);
    Tile(t.spawners[prop := Visited(sp, cfg, w.now, pass, creature)],
         if Creates(sp, cfg, w.now, pass) && creature.Some? then t.attached + [creature.value] else t.attached,
         if Tests(sp, cfg, w.now) && cfg.package.value.uniquePoints > 1
         then t.unique[cfg.package.value.name :=
                       Asked(At(t.unique, cfg.package.value.name), cfg.package.value.uniquePoints, prop, w.now, Roll(w, prop))]
         else t.unique)
  }

  ghost predicate Fits(t: Tile, props: seq<int>, settings: map<int, Settings>) {
    forall i :: 0 <= i < |props| ==> props[i] in t.spawners && props[i] in settings
  }

  function VisitAll(t: Tile, props: seq<int>, settings: map<int, Settings>, w: World): (r: Tile)
    requires Fits(t, props, settings)
    ensures r.spawners.Keys == t.spawners.Keys
  {
    if |props| == 0 then t
    else
      var n := |props| - 1;
      VisitOne(VisitAll(t, props[..n], settings, w), props[n], settings[props[n]], w)
  }

  /** What happens to a tile: it is processed, or one of its creatures dies. */
  datatype TileEvent =
    | Process(w: World)
    | KillAt(prop: int, victim: int, at: Clock, roll: nat)

  function Time(e: TileEvent): Clock {
    match e
    case Process(w) => w.now
    case KillAt(_, _, at, _) => at
  }

  lemma AllFit(t: Tile, settings: map<int, Settings>)
    requires t.spawners.Keys == settings.Keys
    ensures Fits(t, IdOrder.Ascending(t.spawners.Keys), settings)
  {
    var order := IdOrder.Ascending(t.spawners.Keys);
    forall i | 0 <= i < |order| ensures order[i] in t.spawners && order[i] in settings {
      assert order[i] in order;
    }
  }

  function TileNext(t: Tile, settings: map<int, Settings>, e: TileEvent): (r: Tile)
    requires t.spawners.Keys == settings.Keys
    ensures r.spawners.Keys == settings.Keys
  {
    match e
    case Process(w) =>
      AllFit(t, settings);
      VisitAll(t, IdOrder.Ascending(t.spawners.Keys), settings, w)
    case KillAt(prop, victim, at, roll) =>
      if prop !in t.spawners then t
      else t.(spawners := t.spawners[prop := Killed(t.spawners[prop], settings[prop], at, victim)],
              unique := Rerolled(t.unique, settings[prop], at, roll))
  }

  class SpawnTile {
    const settings: map<int, Settings>
    const unique: UniqueSpawnManager
    var releaseTime: int
    var activeSpawn: Spawners
    var attachedCreatureID: seq<int>

    constructor (settings: map<int, Settings>, unique: UniqueSpawnManager)
      ensures this.settings == settings && this.unique == unique && Valid()
      ensures activeSpawn == (map k | k in settings :: FRESH) && attachedCreatureID == [] && releaseTime == 0
    {
      this.settings, this.unique := settings, unique;
      releaseTime, activeSpawn, attachedCreatureID := 0, map k | k in settings :: FRESH, [];
    }

    ghost predicate Valid()
      reads this
    {
      activeSpawn.Keys == settings.Keys
    }

    ghost function View(): Tile
      reads this, unique
    {
      Tile(activeSpawn, attachedCreatureID, unique.mEntryList)
    }

    method Visit(prop: int, w: World)
      requires Valid() && prop in activeSpawn
      modifies this`activeSpawn, this`attachedCreatureID, unique
      ensures Valid() && View() == VisitOne(old(View()), prop, settings[prop], w)
    {
      var sp, cfg := activeSpawn[prop], settings[prop];
      if !cfg.hasPoint || w.now < sp.nextSpawn {
        return;
      }
      if !cfg.hasExtraData {
        activeSpawn := activeSpawn[prop := Invalid(sp)];
        return;
      }
      if sp.refCount >= cfg.maxActive {
        return;
      }
      if cfg.package.None? {
        activeSpawn := activeSpawn[prop := Invalid(sp)];
        return;
      }
      if cfg.package.value.uniquePoints != 0 {
        var test := unique.TestSpawn(cfg.package.value.name, cfg.package.value.uniquePoints, prop, w.now, Roll(w, prop));
        if !test {
          activeSpawn := activeSpawn[prop := if cfg.instanced then Invalid(sp) else Delayed(sp, cfg, w.now)];
          return;
        }
      }
      SpawnCreature(prop, w);
    }

    /** The end of a visit: at most one spawn in an instance, and a failure puts the spawner off
        for good. */
    method SpawnCreature(prop: int, w: World)
      requires Valid() && prop in activeSpawn
      modifies this`activeSpawn, this`attachedCreatureID
      ensures var sp, cfg := old(activeSpawn)[prop], settings[prop];
              if cfg.instanced && sp.spawnCount >= 1 then
                activeSpawn == old(activeSpawn) && attachedCreatureID == old(attachedCreatureID)
              else if prop in w.creatures then
                && activeSpawn == old(activeSpawn)[prop := Spawned(sp, cfg, w.now, w.creatures[prop])]
                && attachedCreatureID == old(attachedCreatureID) + [w.creatures[prop]]
              else activeSpawn == old(activeSpawn)[prop := Invalid(sp)] && attachedCreatureID == old(attachedCreatureID)
    {
      var sp, cfg := activeSpawn[prop], settings[prop];
      if cfg.instanced && sp.spawnCount >= 1 {
        return;
      }
      if prop in w.creatures {
        attachedCreatureID := attachedCreatureID + [w.creatures[prop]];
        activeSpawn := activeSpawn[prop := Spawned(sp, cfg, w.now, w.creatures[prop])];
      } else {
        activeSpawn := activeSpawn[prop := Invalid(sp)];
      }
    }

    method RunProcessing(w: World)
      requires Valid()
      modifies this, unique
      ensures Valid() && releaseTime == w.now + PROCESSING_INTERVAL
      ensures View() == TileNext(old(View()), settings, Process(w))
    {
      releaseTime := w.now + PROCESSING_INTERVAL;
      var order := IdOrder.Ascending(activeSpawn.Keys);
      ghost var t := View();
      AllFit(t, settings);
      VisitNone(t, order, settings, w);
      for i := 0 to |order|
        invariant Valid() && releaseTime == w.now + PROCESSING_INTERVAL
        invariant Reached(View(), t, order, settings, w, i)
      {
        VisitAt(order, i, w, t);
      }
      VisitedAll(t, settings, w);
    }

    method VisitAt(order: seq<int>, i: nat, w: World, ghost t: Tile)
      requires Valid() && i < |order| && Reached(View(), t, order, settings, w, i)
      modifies this`activeSpawn, this`attachedCreatureID, unique
      ensures Valid() && Reached(View(), t, order, settings, w, i + 1)
    {
      VisitNext(t, order, settings, w, i);
      Visit(order[i], w);
    }

    /** True asks the caller to run the instance script. */
    method NotifyKill(prop: int, creature: int, now: Clock, roll: nat) returns (trigger: bool)
      requires Valid() && prop in activeSpawn && settings[prop].hasPoint
      modifies this`activeSpawn, unique
      ensures Valid() && View() == TileNext(old(View()), settings, KillAt(prop, creature, now, roll))
      ensures trigger <==> settings[prop].hasExtraData && settings[prop].sequential
    {
      var sp, cfg := activeSpawn[prop], settings[prop];
      sp := Delayed(sp, cfg, now);
      sp := sp.(refCount := Short(sp.refCount - 1));
      for i := 0 to |sp.attached|
        invariant forall j :: 0 <= j < i ==> sp.attached[j] != creature
      {
        if sp.attached[i] == creature {
          assert FirstIndex(sp.attached, creature) == i;
          sp := sp.(attached := sp.attached[..i] + sp.attached[i + 1..]);
          break;
        }
      }
      activeSpawn := activeSpawn[prop := sp];
      if cfg.package.Some? && cfg.package.value.uniquePoints != 0 {
        unique.ReRoll(cfg.package.value.name, RespawnDelay(cfg), now, roll);
      }
      trigger := cfg.hasExtraData && cfg.sequential;
    }
  }

  /** The tile after the first `i` visits. */
  ghost predicate Reached(now: Tile, t: Tile, props: seq<int>, settings: map<int, Settings>, w: World, i: nat) {
    i <= |props| && Fits(t, props, settings) && now == VisitFirst(t, props, settings, w, i)
  }

  function VisitFirst(t: Tile, props: seq<int>, settings: map<int, Settings>, w: World, i: nat): (r: Tile)
    requires i <= |props| && Fits(t, props, settings)
    ensures r.spawners.Keys == t.spawners.Keys
  {
    VisitAll(t, props[..i], settings, w)
  }

  lemma VisitNone(t: Tile, props: seq<int>, settings: map<int, Settings>, w: World)
    requires Fits(t, props, settings)
    ensures VisitFirst(t, props, settings, w, 0) == t
  {
    assert props[..0] == [];
  }

  lemma VisitNext(t: Tile, props: seq<int>, settings: map<int, Settings>, w: World, i: nat)
    requires i < |props| && Fits(t, props, settings)
    ensures props[i] in t.spawners && props[i] in settings
    ensures VisitFirst(t, props, settings, w, i + 1) ==
            VisitOne(VisitFirst(t, props, settings, w, i), props[i], settings[props[i]], w)
  {
    assert props[..i + 1][..i] == props[..i];
  }

  lemma VisitedAll(t: Tile, settings: map<int, Settings>, w: World)
    requires t.spawners.Keys == settings.Keys
    ensures var order := IdOrder.Ascending(t.spawners.Keys);
            Fits(t, order, settings) &&
            TileNext(t, settings, Process(w)) == VisitFirst(t, order, settings, w, |order|)
  {
    AllFit(t, settings);
    var order := IdOrder.Ascending(t.spawners.Keys);
    assert order[..|order|] == order;
  }

  lemma {:induction false} OthersUntouched(t: Tile, props: seq<int>, settings: map<int, Settings>, w: World, k: int)
    requires Fits(t, props, settings) && k in t.spawners
    requires forall i :: 0 <= i < |props| ==> props[i] != k
    ensures VisitAll(t, props, settings, w).spawners[k] == t.spawners[k]
  {
    if |props| > 0 {
      OthersUntouched(t, props[..|props| - 1], settings, w, k);
    }
  }

  /** Each spawner is visited once, on its own record. */
  lemma {:induction false} EachVisitedOnce(t: Tile, props: seq<int>, settings: map<int, Settings>, w: World, i: nat)
    requires Fits(t, props, settings) && i < |props|
    requires forall i, j :: 0 <= i < j < |props| ==> props[i] != props[j]
    ensures VisitAll(t, props, settings, w).spawners[props[i]] ==
            Visited(t.spawners[props[i]], settings[props[i]], w.now,
                    Pass(VisitFirst(t, props, settings, w, i), props[i], settings[props[i]], w), Creature(w, props[i]))
  {
    var n := |props| - 1;
    if i == n {
      OthersUntouched(t, props[..n], settings, w, props[n]);
    } else {
      assert props[..n][..i] == props[..i];
      EachVisitedOnce(t, props[..n], settings, w, i);
    }
  }

  // ---- runs of one spawner --------------------------------------------------------------

  datatype Event =
    | Visit(now: Clock, pass: bool, creature: Option<int>)
    | Kill(now: Clock, victim: int)

  function Next(sp: Spawner, cfg: Settings, e: Event): Spawner {
    match e
    case Visit(now, pass, creature) => Visited(sp, cfg, now, pass, creature)
    case Kill(now, victim) => Killed(sp, cfg, now, victim)
  }

  predicate Spawns(sp: Spawner, cfg: Settings, e: Event) {
    e.Visit? && Creates(sp, cfg, e.now, e.pass) && e.creature.Some?
  }

  function Run(sp: Spawner, cfg: Settings, es: seq<Event>): Spawner {
    if |es| == 0 then sp else Next(Run(sp, cfg, es[..|es| - 1]), cfg, es[|es| - 1])
  }

  ghost predicate InOrder(es: seq<Event>) {
    forall i, j :: 0 <= i <= j < |es| ==> es[i].now <= es[j].now
  }

  /** Every kill is of a creature attached at that time. */
  ghost predicate KillsAttached(sp: Spawner, cfg: Settings, es: seq<Event>) {
    forall i :: 0 <= i < |es| && es[i].Kill? ==>
      FirstIndex(Run(sp, cfg, es[..i]).attached, es[i].victim) < |Run(sp, cfg, es[..i]).attached|
  }

  // population

  ghost predicate Agrees(sp: Spawner) {
    sp.refCount == Short(|sp.attached|)
  }

  lemma ShortStep(x: int)
    ensures Short(Short(x) + 1) == Short(x + 1) && Short(Short(x) - 1) == Short(x - 1)
    ensures Short(x) != Short(x - 1)
  {
    var q := (x + 32768) / 65536;
    assert Short(x) == x - 65536 * q;
    ShortShift(x + 1, q);
    ShortShift(x - 1, q);
    var p := (x - 1 + 32768) / 65536;
    assert Short(x - 1) == x - 1 - 65536 * p;
  }

  lemma ShortShift(x: int, q: int)
    ensures Short(x - 65536 * q) == Short(x)
  {
    var p := (x + 32768) / 65536;
    assert x + 32768 == 65536 * p + (x + 32768) % 65536;
    assert x - 65536 * q + 32768 == 65536 * (p - q) + (x + 32768) % 65536;
  }

  /** The count follows the attached creatures exactly when kills are of attached ones. */
  lemma CountFollowsIff(sp: Spawner, cfg: Settings, e: Event)
    requires Agrees(sp)
    ensures Agrees(Next(sp, cfg, e)) <==> (e.Kill? ==> FirstIndex(sp.attached, e.victim) < |sp.attached|)
  {
    ShortStep(|sp.attached|);
  }

  function Limit(cfg: Settings): nat {
    if cfg.maxActive > 0 then cfg.maxActive else 0
  }

  ghost predicate Populated(sp: Spawner, cfg: Settings) {
    && Agrees(sp) && sp.refCount <= Limit(cfg)
    && (cfg.maxActive <= 32767 ==> sp.refCount == |sp.attached| <= Limit(cfg))
  }

  lemma PopulatedStep(sp: Spawner, cfg: Settings, e: Event)
    requires Populated(sp, cfg) && (e.Kill? ==> FirstIndex(sp.attached, e.victim) < |sp.attached|)
    ensures Populated(Next(sp, cfg, e), cfg)
  {
    CountFollowsIff(sp, cfg, e);
  }

  /** Along every run of such events: the count is the number of attached creatures, and
      neither exceeds the point's limit. */
  lemma {:induction false} Population(cfg: Settings, es: seq<Event>)
    requires KillsAttached(FRESH, cfg, es)
    ensures Populated(Run(FRESH, cfg, es), cfg)
  {
    if |es| > 0 {
      var n := |es| - 1;
      forall i | 0 <= i < n ensures es[..n][..i] == es[..i] && es[..n][i] == es[i] {}
      Population(cfg, es[..n]);
      PopulatedStep(Run(FRESH, cfg, es[..n]), cfg, es[n]);
    }
  }

  // pacing

  ghost predicate Counts(sp: Spawner, cfg: Settings, es: seq<Event>, i: nat)
    requires i < |es|
  {
    es[i].Kill? || Spawns(Run(sp, cfg, es[..i]), cfg, es[i])
  }

  lemma DueStep(sp: Spawner, cfg: Settings, e: Event, since: Clock)
    requires since <= e.now
    requires sp.nextSpawn >= since + RespawnDelay(cfg) * 1000 || e.Kill? || Spawns(sp, cfg, e)
    ensures Next(sp, cfg, e).nextSpawn >= since + RespawnDelay(cfg) * 1000
  {
  }

  /** After a spawn or a kill at time `t`, the next spawn is never due before `t` plus the
      respawn delay, whatever happens in between. */
  lemma {:induction false} NotDueBefore(sp: Spawner, cfg: Settings, es: seq<Event>, i: nat)
    requires InOrder(es) && i < |es| && Counts(sp, cfg, es, i)
    ensures Run(sp, cfg, es).nextSpawn >= es[i].now + RespawnDelay(cfg) * 1000
  {
    var n := |es| - 1;
    if i < n {
      assert es[..n][..i] == es[..i];
      NotDueBefore(sp, cfg, es[..n], i);
    }
    DueStep(Run(sp, cfg, es[..n]), cfg, es[n], es[i].now);
  }

  /** Two spawns of one spawner, and a kill and the next spawn, are at least the respawn
      delay apart, along every run from any state. */
  lemma Pacing(sp: Spawner, cfg: Settings, es: seq<Event>, i: nat, j: nat)
    requires InOrder(es) && i < j < |es| && Counts(sp, cfg, es, i)
    requires Spawns(Run(sp, cfg, es[..j]), cfg, es[j])
    ensures es[j].now - es[i].now >= RespawnDelay(cfg) * 1000
  {
    assert es[..j][..i] == es[..i];
    NotDueBefore(sp, cfg, es[..j], i);
  }

  /** A spawner is only ever put off for good by a visit, and so after it was due. */
  lemma {:induction false} PassedWhenNever(sp: Spawner, cfg: Settings, es: seq<Event>, i: nat)
    requires InOrder(es) && i < |es| && Counts(sp, cfg, es, i)
    requires Run(sp, cfg, es).nextSpawn == MAX_TIME
    ensures es[|es| - 1].now >= es[i].now + RespawnDelay(cfg) * 1000
  {
    var n := |es| - 1;
    var before := Run(sp, cfg, es[..n]);
    if i == n {
      CountedIsNotPutOff(before, cfg, es[n]);
    } else {
      assert es[..n][..i] == es[..i];
      if before.nextSpawn == MAX_TIME {
        PassedWhenNever(sp, cfg, es[..n], i);
        assert es[n - 1].now <= es[n].now;
      } else {
        NotDueBefore(sp, cfg, es[..n], i);
        PutOffWhenDue(before, cfg, es[n], es[i].now);
      }
    }
  }

  lemma PutOffWhenDue(sp: Spawner, cfg: Settings, e: Event, since: Clock)
    requires sp.nextSpawn != MAX_TIME && Next(sp, cfg, e).nextSpawn == MAX_TIME && since <= e.now
    requires sp.nextSpawn >= since + RespawnDelay(cfg) * 1000
    ensures e.now >= since + RespawnDelay(cfg) * 1000
  {
  }

  lemma CountedIsNotPutOff(sp: Spawner, cfg: Settings, e: Event)
    requires e.Kill? || Spawns(sp, cfg, e)
    ensures Next(sp, cfg, e).nextSpawn != MAX_TIME || RespawnDelay(cfg) < 0
  {
  }

  // the retry after a failed uniqueness test

  /** Outside an instance a failed test asks to try again in 60 seconds. The spawner is due
      then exactly when 60 seconds is its respawn delay anyway. */
  lemma RetryIn60Iff(sp: Spawner, cfg: Settings, now: Clock, creature: Option<int>)
    requires Tests(sp, cfg, now) && !cfg.instanced
    ensures Visited(sp, cfg, now, false, creature).nextSpawn == After(now, RETRY) <==> RespawnDelay(cfg) == RETRY
  {
  }

  const RETRY: Seconds := 60

  /** With the default delay the retry comes a minute and a half late. */
  lemma RetryIsLate(now: Clock)
    ensures var cfg := Settings(true, true, 1, 0, false, Some(Package("unique", 2, 0)), false);
            && Tests(FRESH, cfg, now)
            && Visited(FRESH, cfg, now, false, None).nextSpawn == now + DEFAULT_DESPAWNTIME * 1000 != After(now, RETRY)
  {
  }

  /** What the tile garbage check demands of each spawner of a tile. */
  predicate Releasable(sp: Spawner, now: Clock) {
    sp.nextSpawn == MAX_TIME || now >= sp.nextSpawn
  }

  /** A tile that may be released has let every respawn delay pass, so a spawner rebuilt when
      a player returns cannot spawn sooner than the one it replaces. */
  lemma PacedAfterRelease(sp: Spawner, cfg: Settings, es: seq<Event>, i: nat, now: Clock)
    requires InOrder(es) && i < |es| && Counts(sp, cfg, es, i)
    requires now >= es[|es| - 1].now && Releasable(Run(sp, cfg, es), now)
    ensures now - es[i].now >= RespawnDelay(cfg) * 1000
  {
    if Run(sp, cfg, es).nextSpawn == MAX_TIME {
      PassedWhenNever(sp, cfg, es, i);
    } else {
      NotDueBefore(sp, cfg, es, i);
    }
  }

  // instanced zones

  function SpawnsIn(sp: Spawner, cfg: Settings, es: seq<Event>): nat {
    if |es| == 0 then 0
    else
      var n := |es| - 1;
      SpawnsIn(sp, cfg, es[..n]) + if Spawns(Run(sp, cfg, es[..n]), cfg, es[n]) then 1 else 0
  }

  lemma {:induction false} SpawnsCounted(sp: Spawner, cfg: Settings, es: seq<Event>)
    ensures Run(sp, cfg, es).spawnCount == sp.spawnCount + SpawnsIn(sp, cfg, es)
  {
    if |es| > 0 {
      SpawnsCounted(sp, cfg, es[..|es| - 1]);
    }
  }

  /** In an instanced zone a spawner spawns at most once ever. */
  lemma {:induction false} OncePerInstance(cfg: Settings, es: seq<Event>)
    requires cfg.instanced
    ensures SpawnsIn(FRESH, cfg, es) <= 1
  {
    if |es| > 0 {
      OncePerInstance(cfg, es[..|es| - 1]);
      SpawnsCounted(FRESH, cfg, es[..|es| - 1]);
    }
  }

  // ---- runs of a tile -------------------------------------------------------------------

  function TileRun(t: Tile, settings: map<int, Settings>, es: seq<TileEvent>): (r: Tile)
    requires t.spawners.Keys == settings.Keys
    ensures r.spawners.Keys == settings.Keys
  {
    if |es| == 0 then t else TileNext(TileRun(t, settings, es[..|es| - 1]), settings, es[|es| - 1])
  }

  /** Whether spawner `k` passes its uniqueness test when its turn comes. */
  function PassInTurn(t: Tile, settings: map<int, Settings>, w: World, k: int): bool
    requires t.spawners.Keys == settings.Keys && k in t.spawners
  {
    AllFit(t, settings);
    var order := IdOrder.Ascending(t.spawners.Keys);
    Pass(VisitFirst(t, order, settings, w, FirstIndex(order, k)), k, settings[k], w)
  }

  /** What one event of the tile is to its spawner `k`. */
  function Seen(t: Tile, settings: map<int, Settings>, e: TileEvent, k: int): seq<Event>
    requires t.spawners.Keys == settings.Keys && k in t.spawners
  {
    match e
    case Process(w) => [Visit(w.now, PassInTurn(t, settings, w, k), Creature(w, k))]
    case KillAt(prop, victim, at, _) => if prop == k then [Event.Kill(at, victim)] else []
  }

  function History(t: Tile, settings: map<int, Settings>, es: seq<TileEvent>, k: int): seq<Event>
    requires t.spawners.Keys == settings.Keys && k in t.spawners
  {
    if |es| == 0 then []
    else
      var n := |es| - 1;
      History(t, settings, es[..n], k) + Seen(TileRun(t, settings, es[..n]), settings, es[n], k)
  }

  lemma SeenIsNext(t: Tile, settings: map<int, Settings>, e: TileEvent, k: int)
    requires t.spawners.Keys == settings.Keys && k in t.spawners
    ensures var seen := Seen(t, settings, e, k);
            TileNext(t, settings, e).spawners[k] ==
            if |seen| == 0 then t.spawners[k] else Next(t.spawners[k], settings[k], seen[0])
  {
    if e.Process? {
      AllFit(t, settings);
      var order := IdOrder.Ascending(t.spawners.Keys);
      assert k in order;
      EachVisitedOnce(t, order, settings, e.w, FirstIndex(order, k));
    }
  }

  /** Every run of a tile is, for each of its spawners, the run of that spawner's history. */
  lemma {:induction false} TileRunProjects(t: Tile, settings: map<int, Settings>, es: seq<TileEvent>, k: int)
    requires t.spawners.Keys == settings.Keys && k in t.spawners
    ensures TileRun(t, settings, es).spawners[k] == Run(t.spawners[k], settings[k], History(t, settings, es, k))
  {
    if |es| > 0 {
      var n := |es| - 1;
      var before, past := TileRun(t, settings, es[..n]), History(t, settings, es[..n], k);
      TileRunProjects(t, settings, es[..n], k);
      SeenIsNext(before, settings, es[n], k);
      RunSeen(t.spawners[k], settings[k], past, Seen(before, settings, es[n], k));
    }
  }

  lemma RunSeen(sp: Spawner, cfg: Settings, past: seq<Event>, seen: seq<Event>)
    requires |seen| <= 1
    ensures Run(sp, cfg, past + seen) ==
            if |seen| == 0 then Run(sp, cfg, past) else Next(Run(sp, cfg, past), cfg, seen[0])
  {
    if |seen| == 0 {
      assert past + seen == past;
    } else {
      assert (past + seen)[..|past|] == past;
    }
  }

  ghost predicate TileInOrder(es: seq<TileEvent>) {
    forall i, j :: 0 <= i <= j < |es| ==> Time(es[i]) <= Time(es[j])
  }

  lemma {:induction false} HistoryInOrder(t: Tile, settings: map<int, Settings>, es: seq<TileEvent>, k: int)
    requires t.spawners.Keys == settings.Keys && k in t.spawners && TileInOrder(es)
    ensures InOrder(History(t, settings, es, k))
    ensures forall i :: 0 <= i < |History(t, settings, es, k)| ==>
              |es| > 0 && History(t, settings, es, k)[i].now <= Time(es[|es| - 1])
  {
    if |es| > 0 {
      var n := |es| - 1;
      forall i, j | 0 <= i <= j < n ensures Time(es[..n][i]) <= Time(es[..n][j]) {
        assert es[..n][i] == es[i] && es[..n][j] == es[j];
      }
      HistoryInOrder(t, settings, es[..n], k);
      if n > 0 {
        assert Time(es[n - 1]) <= Time(es[n]);
      }
    }
  }

  /** Every kill is of a creature attached to its spawner at that time. */
  ghost predicate KillsLive(t: Tile, settings: map<int, Settings>, es: seq<TileEvent>)
    requires t.spawners.Keys == settings.Keys
  {
    forall i :: 0 <= i < |es| && es[i].KillAt? && es[i].prop in settings ==>
      es[i].victim in TileRun(t, settings, es[..i]).spawners[es[i].prop].attached
  }

  lemma {:induction false} HistoryKills(t: Tile, settings: map<int, Settings>, es: seq<TileEvent>, k: int)
    requires t.spawners.Keys == settings.Keys && k in t.spawners && KillsLive(t, settings, es)
    ensures KillsAttached(t.spawners[k], settings[k], History(t, settings, es, k))
  {
    if |es| > 0 {
      var n := |es| - 1;
      forall i | 0 <= i < n ensures es[..n][i] == es[i] && es[..n][..i] == es[..i] {}
      HistoryKills(t, settings, es[..n], k);
      TileRunProjects(t, settings, es[..n], k);
      KillsAttachedSnoc(t.spawners[k], settings[k], History(t, settings, es[..n], k),
                        Seen(TileRun(t, settings, es[..n]), settings, es[n], k));
    }
  }

  lemma KillsAttachedSnoc(sp: Spawner, cfg: Settings, past: seq<Event>, seen: seq<Event>)
    requires |seen| <= 1 && KillsAttached(sp, cfg, past)
    requires |seen| == 1 && seen[0].Kill? ==> seen[0].victim in Run(sp, cfg, past).attached
    ensures KillsAttached(sp, cfg, past + seen)
  {
    var es := past + seen;
    forall i | 0 <= i < |es| && es[i].Kill?
      ensures FirstIndex(Run(sp, cfg, es[..i]).attached, es[i].victim) < |Run(sp, cfg, es[..i]).attached|
    {
      if i < |past| {
        assert es[i] == past[i] && es[..i] == past[..i];
      } else {
        assert es[i] == seen[0] && es[..i] == past;
      }
    }
  }

  function FreshTile(settings: map<int, Settings>, unique: Entries): Tile {
    Tile(map k | k in settings :: FRESH, [], unique)
  }

  /** Along every run of a tile, each spawner has as many creatures as it counts, and never
      more than its point allows. */
  lemma TilePopulation(settings: map<int, Settings>, unique: Entries, es: seq<TileEvent>, k: int)
    requires k in settings && KillsLive(FreshTile(settings, unique), settings, es)
    ensures Populated(TileRun(FreshTile(settings, unique), settings, es).spawners[k], settings[k])
  {
    var t := FreshTile(settings, unique);
    HistoryKills(t, settings, es, k);
    TileRunProjects(t, settings, es, k);
    Population(settings[k], History(t, settings, es, k));
  }

  /** Along every run of a tile, in time order and from any state, the spawns and kills of one
      spawner and its next spawn keep the respawn delay apart; in an instance a spawner of a
      fresh tile spawns at most once. */
  lemma TilePacing(t: Tile, settings: map<int, Settings>, es: seq<TileEvent>, k: int, i: nat, j: nat)
    requires t.spawners.Keys == settings.Keys && k in t.spawners && TileInOrder(es)
    ensures var h, sp, cfg := History(t, settings, es, k), t.spawners[k], settings[k];
            && (i < j < |h| && Counts(sp, cfg, h, i) && Spawns(Run(sp, cfg, h[..j]), cfg, h[j]) ==>
                  h[j].now - h[i].now >= RespawnDelay(cfg) * 1000)
            && (sp == FRESH && cfg.instanced ==> SpawnsIn(sp, cfg, h) <= 1)
  {
    var h, sp, cfg := History(t, settings, es, k), t.spawners[k], settings[k];
    HistoryInOrder(t, settings, es, k);
    if i < j < |h| && Counts(sp, cfg, h, i) && Spawns(Run(sp, cfg, h[..j]), cfg, h[j]) {
      Pacing(sp, cfg, h, i, j);
    }
    if sp == FRESH && cfg.instanced {
      OncePerInstance(cfg, h);
    }
  }

  /** The same for the history of a spawner of a tile. */
  lemma ReleasedIsPaced(t: Tile, settings: map<int, Settings>, es: seq<TileEvent>, k: int, i: nat, now: Clock)
    requires t.spawners.Keys == settings.Keys && k in t.spawners && TileInOrder(es)
    requires es != [] && Time(es[|es| - 1]) <= now && Releasable(TileRun(t, settings, es).spawners[k], now)
    ensures var h := History(t, settings, es, k);
            i < |h| && Counts(t.spawners[k], settings[k], h, i) ==>
              now - h[i].now >= RespawnDelay(settings[k]) * 1000
  {
    var h := History(t, settings, es, k);
    TileRunProjects(t, settings, es, k);
    HistoryInOrder(t, settings, es, k);
    if i < |h| && Counts(t.spawners[k], settings[k], h, i) {
      PacedAfterRelease(t.spawners[k], settings[k], h, i, now);
    }
  }

  // ---- single steps ---------------------------------------------------------------------

  /** The delay of the spawn point wins unless it is 0 or the default of 150 seconds; then the
      package's, unless that is 0; then the default. */
  lemma WhichDelay(cfg: Settings)
    ensures cfg.hasExtraData && cfg.despawnTime !in {0, 150} ==> RespawnDelay(cfg) == cfg.despawnTime
    ensures (!cfg.hasExtraData || cfg.despawnTime in {0, 150}) && cfg.package.Some? && cfg.package.value.spawnDelay != 0 ==>
              RespawnDelay(cfg) == cfg.package.value.spawnDelay
    ensures (!cfg.hasExtraData || cfg.despawnTime in {0, 150}) && (cfg.package.None? || cfg.package.value.spawnDelay == 0) ==>
              RespawnDelay(cfg) == 150
  {
  }

  /** The visit finds a spawner that is due and has room. */
  predicate Ready(sp: Spawner, cfg: Settings, now: Clock) {
    cfg.hasPoint && sp.nextSpawn <= now && (cfg.hasExtraData ==> sp.refCount < cfg.maxActive)
  }

  /** When a visit spawns, and that it then counts and delays. */
  lemma VisitSpawnsIff(sp: Spawner, cfg: Settings, now: Clock, pass: bool, creature: Option<int>)
    ensures var r := Visited(sp, cfg, now, pass, creature);
            var spawns := Ready(sp, cfg, now) && cfg.hasExtraData && cfg.package.Some? &&
                          (cfg.package.value.uniquePoints == 0 || pass) && (!cfg.instanced || sp.spawnCount < 1) && creature.Some?;
            && (r.attached != sp.attached <==> spawns)
            && (spawns ==> r.attached == sp.attached + [creature.value] && r.spawnCount == sp.spawnCount + 1 &&
                           r.nextSpawn == After(now, RespawnDelay(cfg)) && (r.refCount - sp.refCount - 1) % 65536 == 0)
            && (!spawns ==> r.spawnCount == sp.spawnCount && r.refCount == sp.refCount)
  {
    if creature.Some? {
      assert |sp.attached + [creature.value]| == |sp.attached| + 1;
    }
  }

  /** When a visit puts a spawner off for good: without extra data or package, after a failed
      test in an instance, and when no creature can be made. */
  lemma VisitPutsOffIff(sp: Spawner, cfg: Settings, now: Clock, pass: bool, creature: Option<int>)
    requires sp.nextSpawn != MAX_TIME && RespawnDelay(cfg) >= 0
    ensures Visited(sp, cfg, now, pass, creature).nextSpawn == MAX_TIME <==>
            Ready(sp, cfg, now) &&
            (!cfg.hasExtraData || cfg.package.None? ||
             (cfg.package.value.uniquePoints != 0 && !pass && cfg.instanced) ||
             ((cfg.package.value.uniquePoints == 0 || pass) && (!cfg.instanced || sp.spawnCount < 1) && creature.None?))
  {
  }

  /** A kill delays the spawner, lowers the count and forgets one occurrence of the victim. */
  lemma KillForgets(sp: Spawner, cfg: Settings, now: Clock, victim: int)
    ensures var r := Killed(sp, cfg, now, victim);
            && r.nextSpawn == After(now, RespawnDelay(cfg)) && r.spawnCount == sp.spawnCount
            && (r.refCount - sp.refCount + 1) % 65536 == 0
            && (victim !in sp.attached ==> r.attached == sp.attached)
            && (victim in sp.attached ==> multiset(r.attached) == multiset(sp.attached) - multiset{victim})
  {
    var i := FirstIndex(sp.attached, victim);
    if i < |sp.attached| {
      assert sp.attached == sp.attached[..i] + [victim] + sp.attached[i + 1..];
    }
  }

  /** A creature spawned on a tile is attached to the tile as well. */
  lemma TileAttaches(t: Tile, prop: int, cfg: Settings, w: World)
    requires prop in t.spawners
    ensures var r := VisitOne(t, prop, cfg, w);
            && (r.spawners[prop].attached == t.spawners[prop].attached ==> r.attached == t.attached)
            && (r.spawners[prop].attached != t.spawners[prop].attached ==>
                  prop in w.creatures && r.attached == t.attached + [w.creatures[prop]])
  {
    if prop in w.creatures {
      assert |t.spawners[prop].attached + [w.creatures[prop]]| == |t.spawners[prop].attached| + 1;
    }
  }

  /** A spawner of a unique package spawns only when the manager lets its prop through, and the
      question leaves its trace in the entry of that package alone. */
  lemma UniqueGate(t: Tile, prop: int, cfg: Settings, w: World, name: string)
    requires prop in t.spawners && cfg.package.Some? && cfg.package.value.uniquePoints != 0
    ensures var r, p := VisitOne(t, prop, cfg, w), cfg.package.value;
            && (r.spawners[prop].attached != t.spawners[prop].attached ==>
                  Answer(At(t.unique, p.name), p.uniquePoints, prop, w.now, Roll(w, prop)))
            && (name != p.name ==> At(r.unique, name) == At(t.unique, name))
            && (At(r.unique, p.name) == At(t.unique, p.name) ||
                At(r.unique, p.name) == Asked(At(t.unique, p.name), p.uniquePoints, prop, w.now, Roll(w, prop)))
  {
  }

  /** A kill re-rolls the package of its spawner, if it is a unique one that has been asked
      about, and no other. */
  lemma KillRerolls(t: Tile, settings: map<int, Settings>, prop: int, victim: int, at: Clock, roll: nat, name: string)
    requires t.spawners.Keys == settings.Keys && prop in t.spawners
    ensures var r, cfg := TileNext(t, settings, KillAt(prop, victim, at, roll)), settings[prop];
            var own := cfg.package.Some? && cfg.package.value.uniquePoints != 0 && cfg.package.value.name == name;
            && At(r.unique, name) == (if own && name in t.unique then Rolled(At(t.unique, name), RespawnDelay(cfg), at, roll)
                                      else At(t.unique, name))
            && r.attached == t.attached
  {
  }
}
