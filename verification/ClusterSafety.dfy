/** Safety of the shard protocol over whole runs of `ClusterProtocol.Next`. */
module ClusterSafety {
  import opened Common
  import opened ClusterProtocol

  // ---- hand-over ------------------------------------------------------------------------

  /** The two ways a player with a pending transfer is given up: it leaves this node, or the
      new connection presents the token. */
  predicate GivesUp(s: State, step: Step, id: int) {
    match step
    case LeftShard(left) => left == id
    case FindToken(token) => TokenResult(s, token).Some? && TokenResult(s, token).value.id == id
    case _ => false
  }

  lemma {:induction false} RemovedEachKeeps(s: State, names: seq<string>, now: nat, id: int)
    requires PendingFor(s.pending, id)
    ensures var t := RemovedEach(s, names, now);
            && t.own == s.own && t.pending == s.pending
            && (id in s.players <==> id in t.players)
  {
    if |names| > 0 {
      RemovedEachKeeps(s, names[..|names| - 1], now, id);
    }
  }

  lemma TokenProtects(s: State, token: string, id: int)
    requires PendingFor(s.pending, id)
    ensures !GivesUp(s, FindToken(token), id) ==> PendingFor(TokenFound(s, token).pending, id)
  {
    var i := FirstToken(s.pending, token);
    var k :| 0 <= k < |s.pending| && s.pending[k].id == id;
    if i >= 0 && i != k {
      var rest := s.pending[..i] + s.pending[i + 1..];
      assert rest[if k < i then k else k - 1] == s.pending[k];
    }
  }

  /** While a transfer for `id` is pending, a step removes its player record exactly when it
      gives the player up; no other step ends the pending transfer. */
  lemma PendingProtects(s: State, step: Step, id: int)
    requires PendingFor(s.pending, id)
    ensures id in s.players ==> (id !in Next(s, step).players <==> GivesUp(s, step, id))
    ensures !GivesUp(s, step, id) ==> PendingFor(Next(s, step).pending, id)
  {
    match step
    case FindToken(token) => TokenProtects(s, token, id);
    case TransferFromOtherShard(other, shard, token) =>
      var k :| 0 <= k < |s.pending| && s.pending[k].id == id;
      assert (s.pending + [Pending(other, token, shard)])[k].id == id;
    case Timeouts(now) => RemovedEachKeeps(s, ExpiredNames(s, now), now, id);
    case ServerConfiguration(shard, start, now) =>
    case _ =>
  }

  ghost predicate IsTrace(s: State, steps: seq<Step>, trace: seq<State>) {
    && |trace| == |steps| + 1 && trace[0] == s
    && forall i :: 0 <= i < |steps| ==> trace[i + 1] == Next(trace[i], steps[i])
  }

  /** Along any run that does not give the player up, its record and its pending transfer
      are both kept: other shards' departures and shutdowns cannot lose the player. */
  lemma {:induction false} HandOverKeepsPlayer(s: State, steps: seq<Step>, trace: seq<State>, id: int, n: nat)
    requires IsTrace(s, steps, trace) && n <= |steps|
    requires PendingFor(s.pending, id) && id in s.players
    requires forall i :: 0 <= i < n ==> !GivesUp(trace[i], steps[i], id)
    ensures PendingFor(trace[n].pending, id) && id in trace[n].players
  {
    if n > 0 {
      HandOverKeepsPlayer(s, steps, trace, id, n - 1);
      PendingProtects(trace[n - 1], steps[n - 1], id);
    }
  }

  // ---- tokens ---------------------------------------------------------------------------

  function Tokens(pending: seq<Pending>, token: string): nat {
    if |pending| == 0 then 0
    else (if pending[0].token == token then 1 else 0) + Tokens(pending[1..], token)
  }

  function Queued(steps: seq<Step>, token: string): nat {
    if |steps| == 0 then 0
    else (if steps[0].TransferFromOtherShard? && steps[0].token == token then 1 else 0) + Queued(steps[1..], token)
  }

  /** How often `FindToken(token)` hands out a pending player along a run. */
  ghost function HandedOut(s: State, steps: seq<Step>, token: string): nat
    decreases |steps|
  {
    if |steps| == 0 then 0
    else (if steps[0] == FindToken(token) && TokenResult(s, token).Some? then 1 else 0) +
         HandedOut(Next(s, steps[0]), steps[1..], token)
  }

  lemma {:induction false} TokensAppend(p: seq<Pending>, q: seq<Pending>, token: string)
    ensures Tokens(p + q, token) == Tokens(p, token) + Tokens(q, token)
  {
    if |p| == 0 {
      assert p + q == q;
    } else {
      assert (p + q)[1..] == p[1..] + q;
      TokensAppend(p[1..], q, token);
    }
  }

  lemma TokensWithout(p: seq<Pending>, i: nat, token: string)
    requires i < |p|
    ensures Tokens(p, token) == Tokens(p[..i] + p[i + 1..], token) + if p[i].token == token then 1 else 0
  {
    TokensAppend(p[..i], [p[i]], token);
    TokensAppend(p[..i] + [p[i]], p[i + 1..], token);
    TokensAppend(p[..i], p[i + 1..], token);
    assert p == p[..i] + [p[i]] + p[i + 1..];
  }

  lemma {:induction false} RemovedEachPending(s: State, names: seq<string>, now: nat)
    ensures RemovedEach(s, names, now).pending == s.pending
  {
    if |names| > 0 {
      RemovedEachPending(s, names[..|names| - 1], now);
    }
  }

  lemma TokenStep(s: State, step: Step, token: string)
    ensures Tokens(Next(s, step).pending, token) + (if step == FindToken(token) && TokenResult(s, token).Some? then 1 else 0)
            == Tokens(s.pending, token) + (if step.TransferFromOtherShard? && step.token == token then 1 else 0)
  {
    match step
    case FindToken(t) =>
      var i := FirstToken(s.pending, t);
      if i >= 0 {
        TokensWithout(s.pending, i, token);
      }
    case TransferFromOtherShard(id, shard, t) => TokensAppend(s.pending, [Pending(id, t, shard)], token);
    case Timeouts(now) => RemovedEachPending(s, ExpiredNames(s, now), now);
    case ServerConfiguration(shard, start, now) =>
    case _ =>
  }

  /** Conservation: what was queued is either still pending or was handed out, once each. */
  lemma {:induction false} TokensConserved(s: State, steps: seq<Step>, token: string)
    ensures Tokens(s.pending, token) + Queued(steps, token) ==
            HandedOut(s, steps, token) + Tokens(Run(s, steps).pending, token)
    decreases |steps|
  {
    if |steps| > 0 {
      TokenStep(s, steps[0], token);
      TokensConserved(Next(s, steps[0]), steps[1..], token);
    }
  }

  /** Presenting a token removes the player's old record, and only that one. */
  lemma TokenEndsOldRecord(s: State, token: string, id: int)
    ensures id in Next(s, FindToken(token)).players <==>
            id in s.players && (TokenResult(s, token).Some? ==> TokenResult(s, token).value.id != id)
    ensures TokenResult(s, token).Some? <==> Tokens(s.pending, token) > 0
  {
    var i := FirstToken(s.pending, token);
    if i >= 0 {
      TokensWithout(s.pending, i, token);
    } else {
      NoTokens(s.pending, token);
    }
  }

  lemma {:induction false} NoTokens(p: seq<Pending>, token: string)
    requires forall i :: 0 <= i < |p| ==> p[i].token != token
    ensures Tokens(p, token) == 0
  {
    if |p| > 0 { NoTokens(p[1..], token); }
  }

  // ---- shards ---------------------------------------------------------------------------

  /** After a shard is removed it is inactive and only players on their way here are still
      recorded on it; nobody else is affected. */
  lemma RemovedShardIsEmpty(s: State, shard: string, now: nat, id: int)
    requires Keyed(s.players) && shard in s.shards
    ensures var t := Next(s, ShardStopped(shard, now));
            && shard !in t.shards
            && (id in t.players && t.players[id].shard == shard ==> PendingFor(t.pending, id))
            && (id in s.players && s.players[id].shard != shard ==>
                  id in t.players && t.players[id] == s.players[id])
  {
    var leaving := OnShard(s.players, shard);
    if id in s.players {
      assert s.players[id].shard == shard ==> s.players[id].id in leaving;
      if id in leaving {
        var key :| key in s.players && s.players[key].shard == shard && s.players[key].id == id;
        assert key == id;
      }
    }
  }

  lemma {:induction false} RemovedEachKeyed(s: State, names: seq<string>, now: nat)
    requires Keyed(s.players)
    ensures Keyed(RemovedEach(s, names, now).players)
  {
    if |names| > 0 {
      RemovedEachKeyed(s, names[..|names| - 1], now);
    }
  }

  /** Players stay recorded under their own ids along every run. */
  lemma {:induction false} KeyedKept(s: State, steps: seq<Step>)
    requires Keyed(s.players)
    ensures Keyed(Run(s, steps).players)
    decreases |steps|
  {
    if |steps| > 0 {
      if steps[0].Timeouts? {
        RemovedEachKeyed(s, ExpiredNames(s, steps[0].now), steps[0].now);
      }
      KeyedKept(Next(s, steps[0]), steps[1..]);
    }
  }

  lemma {:induction false} RemovedEachKeepsOwn(s: State, names: seq<string>, now: nat)
    requires s.own in s.shards && s.own !in names
    ensures RemovedEach(s, names, now).own == s.own && s.own in RemovedEach(s, names, now).shards
  {
    if |names| > 0 {
      RemovedEachKeepsOwn(s, names[..|names| - 1], now);
      assert names[|names| - 1] in names;
    }
  }

  /** No delivered step, and so no run, removes a node's own shard from its table. */
  lemma {:induction false} OwnShardStays(s: State, steps: seq<Step>)
    requires s.own in s.shards && AllDelivered(s.own, steps)
    ensures Run(s, steps).own == s.own && s.own in Run(s, steps).shards
    decreases |steps|
  {
    if |steps| > 0 {
      var step := steps[0];
      assert Delivered(s.own, step);
      if step.Timeouts? {
        RemovedEachKeepsOwn(s, ExpiredNames(s, step.now), step.now);
      }
      forall i | 0 <= i < |steps[1..]| ensures Delivered(s.own, steps[1..][i]) {
        assert steps[1..][i] == steps[i + 1];
      }
      OwnShardStays(Next(s, step), steps[1..]);
    }
  }

  // ---- who is recorded, and where -------------------------------------------------------

  /** The shard on which a step records the player, if it does. */
  function NamedBy(own: string, step: Step, id: int): Option<string> {
    match step
    case JoinedShard(joined) => if joined == id then Some(own) else None
    case JoinedOtherShard(shard, joined, found) => if joined == id && found then Some(shard) else None
    case _ => None
  }

  /** A join records the player on the shard it names, wherever the player was before, and
      changes no other record. */
  lemma JoinRecords(s: State, step: Step, id: int)
    requires NamedBy(s.own, step, id).Some?
    ensures Next(s, step).players == s.players[id := Player(id, NamedBy(s.own, step, id).value)]
  {
  }

  lemma {:induction false} RemovedEachPlayer(s: State, names: seq<string>, now: nat, id: int)
    requires Keyed(s.players)
    ensures var r := RemovedEach(s, names, now);
            && r.own == s.own && r.pending == s.pending && Keyed(r.players)
            && (id in r.players <==>
                  id in s.players && !(s.players[id].shard in names && s.players[id].shard in s.shards && !PendingFor(s.pending, id)))
            && (id in r.players ==> r.players[id] == s.players[id])
  {
    if |names| > 0 {
      var front, last := names[..|names| - 1], names[|names| - 1];
      var r := RemovedEach(s, front, now);
      RemovedEachPlayer(s, front, now, id);
      RemovedPlayer(r, last, now, id);
      RemovedEachOthers(s, front, now, last);
      if id in s.players {
        assert s.players[id].shard in names <==> s.players[id].shard in front || s.players[id].shard == last;
      }
    }
  }

  lemma RemovedPlayer(s: State, shard: string, now: nat, id: int)
    requires Keyed(s.players)
    ensures var r := Removed(s, shard, now);
            && r.own == s.own && r.pending == s.pending && Keyed(r.players)
            && (id in r.players <==>
                  id in s.players && !(s.players[id].shard == shard && shard in s.shards && !PendingFor(s.pending, id)))
            && (id in r.players ==> r.players[id] == s.players[id])
  {
    var leaving := OnShard(s.players, shard);
    if id in s.players {
      assert s.players[id].shard == shard ==> s.players[id].id in leaving;
      if id in leaving {
        var key :| key in s.players && s.players[key].shard == shard && s.players[key].id == id;
        assert key == id;
      }
    }
  }

  /** The steps that end a player's record: its own departure, its token, and the end of the
      shard it is recorded on; the last two of these and a departure from elsewhere spare a player
      on its way here. */
  predicate Ends(s: State, step: Step, id: int, pending: bool)
    requires id in s.players
  {
    var home := s.players[id].shard;
    match step
    case LeftShard(left) => left == id
    case LeftOtherShard(_, left) => left == id && !pending
    case FindToken(token) => TokenResult(s, token).Some? && TokenResult(s, token).value.id == id
    case ShardStopped(shard, _) => shard == home && home in s.shards && !pending
    case NewShardStarted(shard, _) => shard == home && home in s.shards && !pending
    case Timeouts(now) =>
      home in s.shards && home != s.own && !pending && s.shards[home].lastSeen != 0 &&
      s.shards[home].lastSeen < (now - 60000) % 0x1_0000_0000_0000_0000
    case _ => false
  }

  /** A recorded player's record ends exactly with these steps; otherwise only a join changes
      it. */
  lemma RecordEndsIff(s: State, step: Step, id: int)
    requires Keyed(s.players) && id in s.players
    ensures id !in Next(s, step).players <==> Ends(s, step, id, PendingFor(s.pending, id))
    ensures id in Next(s, step).players && NamedBy(s.own, step, id).None? ==> Next(s, step).players[id] == s.players[id]
  {
    match step
    case Timeouts(now) =>
      RemovedEachPlayer(s, ExpiredNames(s, now), now, id);
    case ShardStopped(shard, now) => RemovedPlayer(s, shard, now, id);
    case NewShardStarted(shard, now) => RemovedPlayer(s, shard, now, id);
    case ServerConfiguration(shard, start, now) =>
    case _ =>
  }

  /** Nobody is recorded but by a join. */
  lemma RecordedByJoin(s: State, step: Step, id: int)
    requires Keyed(s.players) && id !in s.players && id in Next(s, step).players
    ensures NamedBy(s.own, step, id).Some?
  {
    match step
    case Timeouts(now) => RemovedEachPlayer(s, ExpiredNames(s, now), now, id);
    case ServerConfiguration(shard, start, now) =>
    case _ =>
  }

  /** The shard named by the last join of the player among the first `n` steps. */
  function LastNamed(own: string, steps: seq<Step>, n: nat, id: int, before: Option<string>): Option<string>
    requires n <= |steps|
  {
    if n == 0 then before
    else if NamedBy(own, steps[n - 1], id).Some? then NamedBy(own, steps[n - 1], id)
    else LastNamed(own, steps, n - 1, id, before)
  }

  function Home(s: State, id: int): Option<string> {
    if id in s.players then Some(s.players[id].shard) else None
  }

  lemma StepKeepsOwn(s: State, step: Step)
    requires Keyed(s.players)
    ensures Next(s, step).own == s.own && Keyed(Next(s, step).players)
  {
    if step.Timeouts? {
      RemovedEachPlayer(s, ExpiredNames(s, step.now), step.now, 0);
    }
  }

  /** Along every run, a recorded player is recorded on the shard named by its last join. */
  lemma {:induction false} RecordedWhereLastJoined(s: State, steps: seq<Step>, trace: seq<State>, n: nat, id: int)
    requires Keyed(s.players) && IsTrace(s, steps, trace) && n <= |steps|
    ensures Keyed(trace[n].players) && trace[n].own == s.own
    ensures id in trace[n].players ==> Home(trace[n], id) == LastNamed(s.own, steps, n, id, Home(s, id))
  {
    if n > 0 {
      RecordedWhereLastJoined(s, steps, trace, n - 1, id);
      var t, step := trace[n - 1], steps[n - 1];
      StepKeepsOwn(t, step);
      if NamedBy(s.own, step, id).Some? {
        JoinRecords(t, step, id);
      } else if id in t.players {
        RecordEndsIff(t, step, id);
      } else if id in Next(t, step).players {
        RecordedByJoin(t, step, id);
      }
    }
  }

  // ---- the records of shards ------------------------------------------------------------

  /** A start, a configuration, a ping and a stop of a shard change its record alone. */
  lemma ShardRecords(s: State, shard: string, start: nat, now: nat)
    ensures Next(s, NewShardStarted(shard, now)).shards == s.shards[shard := Shard(shard, 0, now)]
    ensures (shard in s.shards ==> s.shards[shard].name == shard) ==>
              Next(s, ServerConfiguration(shard, start, now)).shards == s.shards[shard := Shard(shard, start, now)]
    ensures Next(s, ShardPing(shard, now)).shards ==
            if shard in s.shards then s.shards[shard := Shard(s.shards[shard].name, s.shards[shard].startTime, now)] else s.shards
    ensures Next(s, ShardStopped(shard, now)).shards == s.shards - {shard}
  {
    assert (s.shards - {shard})[shard := Shard(shard, 0, now)] == s.shards[shard := Shard(shard, 0, now)];
    if shard !in s.shards {
      assert s.shards - {shard} == s.shards;
    }
    var r := if shard in s.shards then s else NewShard(s, shard, now);
    assert r.shards[shard := Shard(shard, start, now)] == s.shards[shard := Shard(shard, start, now)];
  }

  /** A shard times out exactly when it is not our own, has been heard of, and was last heard of
      more than a minute ago, in unsigned arithmetic; the others keep their records. */
  lemma TimesOutIff(s: State, now: nat, k: string)
    requires k in s.shards
    ensures var r := Next(s, Timeouts(now)).shards;
            && (k !in r <==> k != s.own && s.shards[k].lastSeen != 0 &&
                             s.shards[k].lastSeen < (now - 60000) % 0x1_0000_0000_0000_0000)
            && (k in r ==> r[k] == s.shards[k])
  {
    RemovedEachOthers(s, ExpiredNames(s, now), now, k);
  }

  /** A transfer is queued last, and a token takes out the first entry that has it. */
  lemma QueueOrder(s: State, id: int, shard: string, token: string, i: nat)
    ensures Next(s, TransferFromOtherShard(id, shard, token)).pending == s.pending + [Pending(id, token, shard)]
    ensures i < |s.pending| && s.pending[i].token == token && (forall j :: 0 <= j < i ==> s.pending[j].token != token) ==>
              TokenResult(s, token) == Some(s.pending[i]) &&
              Next(s, FindToken(token)).pending == s.pending[..i] + s.pending[i + 1..]
  {
  }
}
