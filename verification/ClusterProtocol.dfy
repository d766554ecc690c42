/** One node's view of the cluster: the tables of active shards and players, the players
    whose transfer to this node is pending, and the elected master. */
module ClusterProtocol {
  import opened Common
  import opened KeyOrder
  import IdOrder

  const ELECTION_SLACK := 10000
  const SHARD_TIMEOUT := 60000

  datatype Shard = Shard(name: string, startTime: nat, lastSeen: nat)

  datatype Player = Player(id: int, shard: string)

  datatype Pending = Pending(id: int, token: string, shard: string)

  type Shards = map<string, Shard>
  type Players = map<int, Player>

  datatype State = State(own: string, shards: Shards, players: Players, pending: seq<Pending>,
                         masterShard: string, master: bool)

  /** `mActiveShards[name]` used as a value inserts a blank record for an unknown name. */
  const BLANK := Shard("", 0, 0)

  function Touched(shards: Shards, name: string): Shards {
    if name in shards then shards else shards[name := BLANK]
  }

  ghost predicate PendingFor(pending: seq<Pending>, id: int) {
    exists i :: 0 <= i < |pending| && pending[i].id == id
  }

  function FirstToken(pending: seq<Pending>, token: string): (r: int)
    ensures -1 <= r < |pending|
    ensures r >= 0 ==> pending[r].token == token
    ensures forall i :: 0 <= i < (if r < 0 then |pending| else r) ==> pending[i].token != token
  {
    if |pending| == 0 then -1
    else if pending[0].token == token then 0
    else
      var r := FirstToken(pending[1..], token);
      assert forall i :: 0 < i < |pending| ==> pending[i] == pending[1..][i - 1];
      if r < 0 then -1 else r + 1
  }

  // ---- the election ---------------------------------------------------------------------

  /** `n` started before the bound, and no candidate started earlier, or as early under a
      smaller name. */
  ghost predicate Elected(shards: Shards, bound: nat, n: string) {
    && n in shards && shards[n].startTime < bound
    && forall k :: k in shards && k != n && shards[k].startTime < bound ==>
         shards[n].startTime < shards[k].startTime ||
         (shards[n].startTime == shards[k].startTime && Less(n, k))
  }

  lemma ElectedUnique(shards: Shards, bound: nat, m: string, n: string)
    requires Elected(shards, bound, m) && Elected(shards, bound, n)
    ensures m == n
  {
    LessAsymmetric(m, n);
  }

  /** The name stored in the elected record, which need not be its key; "" if no shard
      qualifies. */
  ghost function ElectedName(shards: Shards, bound: nat): string {
    if n :| Elected(shards, bound, n) then shards[n].name else ""
  }

  lemma ElectedNameIs(shards: Shards, bound: nat, m: string)
    requires Elected(shards, bound, m)
    ensures ElectedName(shards, bound) == shards[m].name
  {
    forall n | Elected(shards, bound, n) ensures n == m {
      ElectedUnique(shards, bound, n, m);
    }
  }

  // The election loop: `best` is the earliest of the first `i` shards, and the first of those.

  ghost predicate Scanned(shards: Shards, order: seq<string>, i: nat, bound: nat,
                          best: Option<string>, m: string, earliest: nat)
    requires i <= |order| && forall n :: n in order ==> n in shards
  {
    && (best.None? ==> m == "" && earliest == bound)
    && (best.Some? ==>
          && best.value in order[..i] && m == shards[best.value].name
          && earliest == shards[best.value].startTime < bound)
    && (forall j :: 0 <= j < i ==> earliest <= shards[order[j]].startTime)
    && (forall j ::
          0 <= j < i && best.Some? && order[j] != best.value && shards[order[j]].startTime == earliest
          ==> Less(best.value, order[j]))
  }

  lemma ScanNext(shards: Shards, order: seq<string>, i: nat, bound: nat, best: Option<string>, m: string, earliest: nat)
    requires i < |order| && forall n :: n in order ==> n in shards
    requires forall j, k :: 0 <= j < k < |order| ==> Less(order[j], order[k])
    requires Scanned(shards, order, i, bound, best, m, earliest)
    ensures var sh := shards[order[i]];
            if sh.startTime < earliest then Scanned(shards, order, i + 1, bound, Some(order[i]), sh.name, sh.startTime)
            else Scanned(shards, order, i + 1, bound, best, m, earliest)
  {
    assert order[..i + 1] == order[..i] + [order[i]];
    if shards[order[i]].startTime >= earliest && best.Some? {
      var k :| 0 <= k < i && order[k] == best.value;
    }
  }

  lemma ScanElects(shards: Shards, order: seq<string>, bound: nat, best: Option<string>, m: string, earliest: nat)
    requires forall n :: n in order <==> n in shards
    requires Scanned(shards, order, |order|, bound, best, m, earliest)
    ensures m == ElectedName(shards, bound)
  {
    if best.Some? {
      ElectedNameIs(shards, bound, best.value);
    } else {
      forall n ensures !Elected(shards, bound, n) {
        if n in shards { assert n in order; }
      }
    }
  }

  ghost function FindMaster(s: State, now: nat): State {
    var name := ElectedName(s.shards, now + ELECTION_SLACK);
    if name == s.masterShard then s else s.(masterShard := name, master := name == s.own)
  }

  // ---- the steps ------------------------------------------------------------------------

  ghost function LeftOther(s: State, shard: string, id: int): State {
    if PendingFor(s.pending, id) || id !in s.players then s
    else s.(shards := Touched(s.shards, shard), players := s.players - {id})
  }

  /** The ids held in the records of the players on a shard. */
  function OnShard(players: Players, shard: string): set<int> {
    set key | key in players && players[key].shard == shard :: players[key].id
  }

  /** Those of `leaving` with a pending transfer stay. */
  ghost function Remaining(s: State, leaving: set<int>): Players {
    map id | id in s.players && (id in leaving ==> PendingFor(s.pending, id)) :: s.players[id]
  }

  lemma RemainingNone(s: State)
    ensures s == s.(players := Remaining(s, {}))
  {
    assert Remaining(s, {}) == s.players;
  }

  lemma RemainingOneLess(s: State, gone: set<int>, shard: string, id: int)
    requires shard in s.shards
    ensures LeftOther(s.(players := Remaining(s, gone)), shard, id) == s.(players := Remaining(s, gone + {id}))
  {
    var before, after := Remaining(s, gone), Remaining(s, gone + {id});
    assert after == if PendingFor(s.pending, id) || id !in before then before else before - {id};
  }

  ghost function Removed(s: State, shard: string, now: nat): State {
    if shard !in s.shards then s
    else
      FindMaster(s.(players := Remaining(s, OnShard(s.players, shard)), shards := s.shards - {shard}), now)
  }

  ghost function NewShard(s: State, shard: string, now: nat): State {
    var r := Removed(s, shard, now);
    r.(shards := r.shards[shard := Shard(shard, 0, now)])
  }

  /** The update is stored under the name held in the record found. */
  ghost function Configured(s: State, shard: string, start: nat, now: nat): State {
    var r := if shard in s.shards then s else NewShard(s, shard, now);
    var sh := r.shards[shard];
    FindMaster(r.(shards := r.shards[sh.name := sh.(lastSeen := now, startTime := start)]), now)
  }

  ghost function Joined(s: State, id: int): State {
    var known := id in s.players && s.players[id].id != 0;
    s.(shards := if known then s.shards else Touched(s.shards, s.own),
       players := s.players[id := Player(id, s.own)])
  }

  ghost function Left(s: State, id: int): State {
    if id !in s.players then s
    else s.(shards := Touched(s.shards, s.own), players := s.players - {id})
  }

  /** `found`: the character could be loaded on this node. */
  ghost function JoinedOther(s: State, shard: string, id: int, found: bool): State {
    if !found then s
    else
      s.(shards := if id !in s.players then Touched(s.shards, shard)
                   else if s.players[id].shard == shard then s.shards
                   else Touched(s.shards, s.players[id].shard),
         players := s.players[id := Player(id, shard)])
  }

  ghost function TokenFound(s: State, token: string): State {
    var i := FirstToken(s.pending, token);
    if i < 0 then s
    else
      var p := s.pending[i];
      s.(pending := s.pending[..i] + s.pending[i + 1..],
         shards := if p.id in s.players then Touched(s.shards, p.shard) else s.shards,
         players := s.players - {p.id})
  }

  function TokenResult(s: State, token: string): Option<Pending> {
    var i := FirstToken(s.pending, token);
    if i < 0 then None else Some(s.pending[i])
  }

  ghost function Pinged(s: State, shard: string, now: nat): State {
    if shard !in s.shards then s
    else s.(shards := s.shards[shard := s.shards[shard].(lastSeen := now)])
  }

  /** Shards, other than our own, not heard from since the (unsigned) expiry time. */
  predicate Expired(s: State, name: string, now: nat)
    requires name in s.shards
  {
    name != s.own && s.shards[name].lastSeen != 0 &&
    s.shards[name].lastSeen < (now - SHARD_TIMEOUT) % ULONG
  }

  ghost function RemovedEach(s: State, names: seq<string>, now: nat): State {
    if |names| == 0 then s
    else Removed(RemovedEach(s, names[..|names| - 1], now), names[|names| - 1], now)
  }

  lemma RemovedSnoc(s: State, names: seq<string>, i: nat, now: nat)
    requires i < |names|
    ensures RemovedEach(s, names[..i + 1], now) == Removed(RemovedEach(s, names[..i], now), names[i], now)
  {
    assert names[..i + 1][..i] == names[..i];
  }

  lemma {:induction false} RemovedEachOthers(s: State, names: seq<string>, now: nat, name: string)
    ensures var r := RemovedEach(s, names, now).shards;
            && (name in r <==> name in s.shards && name !in names)
            && (name in r ==> r[name] == s.shards[name])
  {
    if |names| > 0 {
      var n := |names| - 1;
      RemovedEachOthers(s, names[..n], now, name);
      assert name in names <==> name in names[..n] || name == names[n];
    }
  }

  function ExpiredNames(s: State, now: nat): seq<string> {
    Ascending(set n | n in s.shards && Expired(s, n, now))
  }

  datatype Step =
    | JoinedShard(id: int)
    | LeftShard(id: int)
    | JoinedOtherShard(shard: string, id: int, found: bool)
    | LeftOtherShard(shard: string, id: int)
    | TransferFromOtherShard(id: int, shard: string, token: string)
    | FindToken(token: string)
    | ServerConfiguration(shard: string, start: nat, now: nat)
    | NewShardStarted(shard: string, now: nat)
    | ShardStopped(shard: string, now: nat)
    | ShardPing(shard: string, now: nat)
    | Timeouts(now: nat)

  ghost function Next(s: State, step: Step): State {
    match step
    case JoinedShard(id) => Joined(s, id)
    case LeftShard(id) => Left(s, id)
    case JoinedOtherShard(shard, id, found) => JoinedOther(s, shard, id, found)
    case LeftOtherShard(shard, id) => LeftOther(s, shard, id)
    case TransferFromOtherShard(id, shard, token) => s.(pending := s.pending + [Pending(id, token, shard)])
    case FindToken(token) => TokenFound(s, token)
    case ServerConfiguration(shard, start, now) => Configured(s, shard, start, now)
    case NewShardStarted(shard, now) => NewShard(s, shard, now)
    case ShardStopped(shard, now) => Removed(s, shard, now)
    case ShardPing(shard, now) => Pinged(s, shard, now)
    case Timeouts(now) => RemovedEach(s, ExpiredNames(s, now), now)
  }

  /** The message handlers drop messages that name this node as their sender. */
  predicate Delivered(own: string, step: Step) {
    match step
    case JoinedOtherShard(shard, _, _) => shard != own
    case LeftOtherShard(shard, _) => shard != own
    case TransferFromOtherShard(_, shard, _) => shard != own
    case ServerConfiguration(shard, _, _) => shard != own
    case NewShardStarted(shard, _) => shard != own
    case ShardStopped(shard, _) => shard != own
    case ShardPing(shard, _) => shard != own
    case _ => true
  }

  predicate AllDelivered(own: string, steps: seq<Step>) {
    forall i | 0 <= i < |steps| :: Delivered(own, steps[i])
  }

  ghost function Run(s: State, steps: seq<Step>): State
    decreases |steps|
  {
    if |steps| == 0 then s else Run(Next(s, steps[0]), steps[1..])
  }

  /** The state after `Init`, before the first election. */
  function Initial(own: string, now: nat): State {
    State(own, map[own := Shard(own, now, 0)], map[], [], "", false)
  }

  /** Every player is recorded under its own id. */
  ghost predicate Keyed(players: Players) {
    forall id :: id in players ==> players[id].id == id
  }

  // ---- the manager ----------------------------------------------------------------------

  class ClusterManager {
    const mShardName: string
    var mActiveShards: Shards
    var mActivePlayers: Players
    var mPending: seq<Pending>
    var mMasterShard: string
    var mMaster: bool

    ghost function View(): State
      reads this
    {
      State(mShardName, mActiveShards, mActivePlayers, mPending, mMasterShard, mMaster)
    }

    ghost predicate Valid()
      reads this
    {
      Keyed(mActivePlayers)
    }

    constructor Init(own: string, now: nat)
      ensures Valid() && View() == FindMaster(Initial(own, now), now)
    {
      mShardName := own;
      mActiveShards := map[own := Shard(own, now, 0)];
      mActivePlayers, mPending := map[], [];
      mMasterShard, mMaster := "", false;
      new;
      FindMasterShard(now);
    }

    method Touch(name: string)
      modifies this`mActiveShards
      ensures mActiveShards == Touched(old(mActiveShards), name)
    {
      if name !in mActiveShards {
        mActiveShards := mActiveShards[name := BLANK];
      }
    }

    method FindMasterShard(now: nat)
      modifies this`mMasterShard, this`mMaster
      ensures View() == FindMaster(old(View()), now)
    {
      ghost var s := View();
      var m := EarliestName(mActiveShards, now + ELECTION_SLACK);
      if mMasterShard != m {
        mMasterShard := m;
        mMaster := m == mShardName;
      }
      assert View() == FindMaster(s, now);
    }

    method EarliestName(shards: Shards, bound: nat) returns (m: string)
      ensures m == ElectedName(shards, bound)
    {
      var earliest: nat := bound;
      m := "";
      var order := Ascending(shards.Keys);
      ghost var best := None;
      for i := 0 to |order|
        invariant Scanned(shards, order, i, bound, best, m, earliest)
      {
        var sh := shards[order[i]];
        ScanNext(shards, order, i, bound, best, m, earliest);
        if sh.startTime < earliest {
          best := Some(order[i]);
          m, earliest := sh.name, sh.startTime;
        }
      }
      ScanElects(shards, order, bound, best, m, earliest);
    }

    method JoinedShard(id: int)
      requires Valid()
      modifies this`mActiveShards, this`mActivePlayers
      ensures Valid() && View() == Next(old(View()), Step.JoinedShard(id))
    {
      if id !in mActivePlayers || mActivePlayers[id].id == 0 {
        Touch(mShardName);
      }
      mActivePlayers := mActivePlayers[id := Player(id, mShardName)];
    }

    method LeftShard(id: int)
      requires Valid()
      modifies this`mActiveShards, this`mActivePlayers
      ensures Valid() && View() == Next(old(View()), Step.LeftShard(id))
    {
      if id in mActivePlayers {
        Touch(mShardName);
        mActivePlayers := mActivePlayers - {id};
      }
    }

    method JoinedOtherShard(shard: string, id: int, found: bool)
      requires Valid()
      modifies this`mActiveShards, this`mActivePlayers
      ensures Valid() && View() == Next(old(View()), Step.JoinedOtherShard(shard, id, found))
    {
      if found {
        if id !in mActivePlayers {
          Touch(shard);
        } else if mActivePlayers[id].shard != shard {
          Touch(mActivePlayers[id].shard);
        }
        mActivePlayers := mActivePlayers[id := Player(id, shard)];
      }
    }

    method LeftOtherShard(shard: string, id: int)
      requires Valid()
      modifies this`mActiveShards, this`mActivePlayers
      ensures Valid() && View() == Next(old(View()), Step.LeftOtherShard(shard, id))
    {
      for i := 0 to |mPending|
        invariant forall j :: 0 <= j < i ==> mPending[j].id != id
      {
        if mPending[i].id == id {
          return;
        }
      }
      if id in mActivePlayers {
        Touch(shard);
        mActivePlayers := mActivePlayers - {id};
      }
    }

    method TransferFromOtherShard(id: int, shard: string, token: string)
      requires Valid()
      modifies this`mPending
      ensures Valid() && View() == Next(old(View()), Step.TransferFromOtherShard(id, shard, token))
    {
      mPending := mPending + [Pending(id, token, shard)];
    }

    method FindToken(token: string) returns (r: Option<Pending>)
      requires Valid()
      modifies this`mActiveShards, this`mActivePlayers, this`mPending
      ensures Valid() && View() == Next(old(View()), Step.FindToken(token))
      ensures r == TokenResult(old(View()), token)
    {
      for i := 0 to |mPending|
        invariant forall j :: 0 <= j < i ==> mPending[j].token != token
      {
        if mPending[i].token == token {
          assert i == FirstToken(mPending, token);
          var p := TakePending(i, token);
          return Some(p);
        }
      }
      r := None;
    }

    /** The end of FindToken, once the entry is found. */
    method TakePending(i: nat, ghost token: string) returns (p: Pending)
      requires Valid() && i == FirstToken(mPending, token)
      modifies this`mActiveShards, this`mActivePlayers, this`mPending
      ensures Valid() && View() == TokenFound(old(View()), token) && p == old(mPending)[i]
    {
      p := mPending[i];
      if p.id in mActivePlayers {
        Touch(p.shard);
        mActivePlayers := mActivePlayers - {p.id};
      }
      assert mActivePlayers == old(mActivePlayers) - {p.id};
      mPending := mPending[..i] + mPending[i + 1..];
    }

    method ShardRemoved(shard: string, now: nat)
      requires Valid()
      modifies this
      ensures Valid() && View() == Removed(old(View()), shard, now)
    {
      if shard in mActiveShards {
        ghost var s := View();
        var l := IdOrder.Ascending(OnShard(mActivePlayers, shard));
        ghost var gone: set<int> := {};
        RemainingNone(s);
        for i := 0 to |l|
          invariant gone <= OnShard(s.players, shard) && forall j :: 0 <= j < i ==> l[j] in gone
          invariant Valid() && View() == s.(players := Remaining(s, gone))
        {
          assert l[i] in l;
          RemainingOneLess(s, gone, shard, l[i]);
          LeftOtherShard(shard, l[i]);
          gone := gone + {l[i]};
        }
        assert gone == OnShard(s.players, shard);
        mActiveShards := mActiveShards - {shard};
        FindMasterShard(now);
      }
    }

    method NewShard(shard: string, now: nat)
      requires Valid()
      modifies this
      ensures Valid() && View() == Next(old(View()), Step.NewShardStarted(shard, now))
    {
      if shard in mActiveShards {
        ShardRemoved(shard, now);
      }
      mActiveShards := mActiveShards[shard := Shard(shard, 0, now)];
    }

    method ServerConfigurationReceived(shard: string, start: nat, now: nat)
      requires Valid()
      modifies this
      ensures Valid() && View() == Next(old(View()), Step.ServerConfiguration(shard, start, now))
    {
      if shard !in mActiveShards {
        NewShard(shard, now);
      }
      var s := mActiveShards[shard].(lastSeen := now, startTime := start);
      mActiveShards := mActiveShards[s.name := s];
      FindMasterShard(now);
    }

    method ShardPing(shard: string, now: nat)
      requires Valid()
      modifies this`mActiveShards
      ensures Valid() && View() == Next(old(View()), Step.ShardPing(shard, now))
    {
      if shard in mActiveShards {
        mActiveShards := mActiveShards[shard := mActiveShards[shard].(lastSeen := now)];
      }
    }

    /** The expiry part of RunProcessingCycle, once a ping is due. */
    method RemoveExpired(now: nat)
      requires Valid()
      modifies this
      ensures Valid() && View() == Next(old(View()), Step.Timeouts(now))
    {
      var expire := (now - SHARD_TIMEOUT) % ULONG;
      var r := OverdueNames(expire);
      ghost var s := View();
      for i := 0 to |r|
        invariant Valid() && View() == RemovedEach(s, r[..i], now)
      {
        RemovedSnoc(s, r, i, now);
        ShardRemoved(r[i], now);
      }
      assert r[..|r|] == r;
    }

    method OverdueNames(expire: int) returns (r: seq<string>)
      ensures forall now: nat :: expire == (now - SHARD_TIMEOUT) % ULONG ==> r == ExpiredNames(View(), now)
    {
      var overdue := set n | n in mActiveShards && n != mShardName &&
                             mActiveShards[n].lastSeen != 0 && mActiveShards[n].lastSeen < expire;
      r := Ascending(overdue);
      forall now: nat | expire == (now - SHARD_TIMEOUT) % ULONG ensures r == ExpiredNames(View(), now) {
        assert overdue == set n | n in View().shards && Expired(View(), n, now);
      }
    }
  }
}
