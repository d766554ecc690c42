/** What `FindMaster` elects, when nodes agree, and when the election can be trusted. */
module MasterElection {
  import opened KeyOrder
  import opened Common
  import opened ClusterProtocol
  import ClusterSafety

  // ---- one node -------------------------------------------------------------------------

  lemma {:induction false} SomeoneElected(shards: Shards, bound: nat, c: string) returns (n: string)
    requires c in shards && shards[c].startTime < bound
    ensures Elected(shards, bound, n)
    decreases |shards|
  {
    var rest := shards - {c};
    if d :| d in rest && rest[d].startTime < bound {
      var m := SomeoneElected(rest, bound, d);
      LessTotal(c, m);
      var cFirst := shards[c].startTime < shards[m].startTime ||
                    (shards[c].startTime == shards[m].startTime && Less(c, m));
      n := if cFirst then c else m;
      forall k | k in shards && k != n && shards[k].startTime < bound
        ensures shards[n].startTime < shards[k].startTime ||
                (shards[n].startTime == shards[k].startTime && Less(n, k))
      {
        if k != c { assert k in rest; }
        if cFirst && k != m && shards[k].startTime == shards[m].startTime == shards[c].startTime {
          LessTransitive(c, m, k);
        }
      }
    } else {
      n := c;
      forall k | k in shards && k != c ensures shards[k].startTime >= bound {
        assert k in rest;
      }
    }
  }

  /** The master is the name held by the shard with the least (start time, name) among those
      starting before `now + 10000`. */
  lemma MasterIsEarliest(s: State, now: nat, n: string)
    requires Elected(s.shards, now + ELECTION_SLACK, n)
    ensures FindMaster(s, now).masterShard == s.shards[n].name
  {
    var bound := now + ELECTION_SLACK;
    forall m | Elected(s.shards, bound, m) ensures m == n {
      ElectedUnique(s.shards, bound, m, n);
    }
  }

  ghost predicate Consistent(s: State) {
    s.master <==> s.masterShard == s.own
  }

  lemma {:induction false} RemovedEachConsistent(s: State, names: seq<string>, now: nat)
    requires Consistent(s)
    ensures Consistent(RemovedEach(s, names, now))
  {
    if |names| > 0 {
      RemovedEachConsistent(s, names[..|names| - 1], now);
    }
  }

  /** The flag says whether the master's name is our own, along every run of a node with a
      non-empty name; it starts out wrong for a node named "". */
  lemma {:induction false} FlagMatchesName(s: State, steps: seq<Step>)
    requires Consistent(s)
    ensures Consistent(Run(s, steps))
    decreases |steps|
  {
    if |steps| > 0 {
      if steps[0].Timeouts? {
        RemovedEachConsistent(s, ExpiredNames(s, steps[0].now), steps[0].now);
      }
      FlagMatchesName(Next(s, steps[0]), steps[1..]);
    }
  }

  lemma InitialConsistent(own: string, now: nat)
    ensures Consistent(Initial(own, now)) <==> own != ""
    ensures Consistent(FindMaster(Initial(own, now), now)) <==> own != ""
    ensures FindMaster(Initial(own, now), now).masterShard == own
  {
    var s := Initial(own, now);
    assert Elected(s.shards, now + ELECTION_SLACK, own);
    MasterIsEarliest(s, now, own);
  }

  // ---- several nodes --------------------------------------------------------------------

  /** Every record is stored under its own name. */
  ghost predicate WellNamed(shards: Shards) {
    forall k :: k in shards ==> shards[k].name == k
  }

  ghost predicate SameStarts(a: Shards, b: Shards) {
    forall k :: (k in a <==> k in b) && (k in a ==> a[k].startTime == b[k].startTime)
  }

  /** A network of nodes, one for each shard of one table, each having just run an election
      by its own clock. */
  ghost predicate Network(table: Shards, nodes: map<string, State>, clocks: map<string, nat>) {
    && (forall n :: (n in nodes <==> n in table) && (n in clocks <==> n in table))
    && (forall n :: n in nodes ==> nodes[n].own == n && Consistent(nodes[n]))
    && (forall n :: n in nodes ==> WellNamed(nodes[n].shards) && SameStarts(table, nodes[n].shards))
  }

  lemma NodeElects(table: Shards, bound: nat, m: string, c: string, s: State, now: nat)
    requires SameStarts(table, s.shards) && WellNamed(s.shards) && Consistent(s)
    requires Elected(table, bound, m) && c in table && table[c].startTime < bound
    requires table[c].startTime < now + ELECTION_SLACK
    ensures FindMaster(s, now).masterShard == m
    ensures FindMaster(s, now).master <==> s.own == m
  {
    assert table[m].startTime <= table[c].startTime;
    var own := now + ELECTION_SLACK;
    forall k | k in s.shards && k != m && s.shards[k].startTime < own
      ensures s.shards[m].startTime < s.shards[k].startTime ||
              (s.shards[m].startTime == s.shards[k].startTime && Less(m, k))
    {
      assert k in table;
    }
    assert Elected(s.shards, own, m);
    MasterIsEarliest(s, now, m);
  }

  /** If one shard is a candidate by everybody's clock, all nodes elect the same shard of the
      table and exactly one node takes itself to be the master. */
  lemma ExactlyOneMaster(table: Shards, nodes: map<string, State>, clocks: map<string, nat>, c: string)
    returns (m: string)
    requires Network(table, nodes, clocks) && c in table
    requires forall n :: n in nodes ==> table[c].startTime < clocks[n] + ELECTION_SLACK
    ensures m in nodes
    ensures forall n :: n in nodes ==> FindMaster(nodes[n], clocks[n]).masterShard == m
    ensures forall n :: n in nodes ==> (FindMaster(nodes[n], clocks[n]).master <==> n == m)
  {
    var bound := clocks[c] + ELECTION_SLACK;
    m := SomeoneElected(table, bound, c);
    forall n | n in nodes
      ensures FindMaster(nodes[n], clocks[n]).masterShard == m
      ensures FindMaster(nodes[n], clocks[n]).master <==> n == m
    {
      NodeElects(table, bound, m, c, nodes[n], clocks[n]);
    }
  }

  // ---- nodes as they start --------------------------------------------------------------

  // A node enters its own shard with the time of its initialisation but announces the earlier
  // time of its launch, so the tables of two nodes differ in their own entries.

  predicate Before(t: nat, a: string, u: nat, b: string) {
    t < u || (t == u && Less(a, b))
  }

  /** The node has an up-to-date record of every shard of the cluster. */
  ghost predicate Informed(s: State, init: map<string, nat>, launch: map<string, nat>) {
    && WellNamed(s.shards) && Consistent(s) && s.own in init
    && forall k :: (k in s.shards <==> k in init) && (k in launch <==> k in init) &&
                   (k in s.shards && k in init && k in launch ==>
                      s.shards[k].startTime == if k == s.own then init[k] else launch[k])
  }

  /** Every shard was launched before it was initialised, and before the node's clock. */
  ghost predicate Plausible(init: map<string, nat>, launch: map<string, nat>, clock: nat) {
    forall k :: k in init && k in launch ==> launch[k] <= init[k] < clock + ELECTION_SLACK
  }

  /** The shard was initialised before any other was launched. */
  ghost predicate Leads(init: map<string, nat>, launch: map<string, nat>, m: string) {
    m in init && forall k :: k in launch && k != m ==> Before(init[m], m, launch[k], k)
  }

  lemma OneLeads(init: map<string, nat>, launch: map<string, nat>, clock: nat, m: string, n: string)
    requires Plausible(init, launch, clock) && m in launch && n in launch
    requires Leads(init, launch, m) && Leads(init, launch, n)
    ensures m == n
  {
    if m != n {
      LessAsymmetric(m, n);
    }
  }

  /** A shard that leads is elected by every node. */
  lemma LeaderElected(s: State, init: map<string, nat>, launch: map<string, nat>, now: nat, m: string)
    requires Informed(s, init, launch) && Plausible(init, launch, now) && Leads(init, launch, m)
    ensures FindMaster(s, now).masterShard == m
  {
    forall k | k in s.shards && k != m
      ensures s.shards[m].startTime < s.shards[k].startTime ||
              (s.shards[m].startTime == s.shards[k].startTime && Less(m, k))
    {
      assert k in init && k in launch && Before(init[m], m, launch[k], k);
    }
    assert Elected(s.shards, now + ELECTION_SLACK, m);
    MasterIsEarliest(s, now, m);
  }

  /** A node takes itself for the master exactly when its shard leads. */
  lemma FlagIffLeads(s: State, init: map<string, nat>, launch: map<string, nat>, now: nat)
    requires Informed(s, init, launch) && Plausible(init, launch, now)
    ensures FindMaster(s, now).master <==> Leads(init, launch, s.own)
    ensures FindMaster(s, now).masterShard in init
  {
    var bound := now + ELECTION_SLACK;
    var n := SomeoneElected(s.shards, bound, s.own);
    MasterIsEarliest(s, now, n);
    if n == s.own {
      forall k | k in launch && k != n ensures Before(init[n], n, launch[k], k) {
        assert k in s.shards;
      }
    } else if Leads(init, launch, s.own) {
      assert Before(init[s.own], s.own, launch[n], n);
      LessAsymmetric(s.own, n);
    }
  }

  /** `n` is one of the nodes and knows every shard. */
  ghost predicate Member(nodes: map<string, State>, clocks: map<string, nat>,
                         init: map<string, nat>, launch: map<string, nat>, n: string) {
    && n in nodes && n in clocks && n in init && n in launch && nodes[n].own == n
    && Informed(nodes[n], init, launch) && Plausible(init, launch, clocks[n])
  }

  /** Nodes of one cluster, each knowing all shards. */
  ghost predicate Cluster(nodes: map<string, State>, clocks: map<string, nat>,
                          init: map<string, nat>, launch: map<string, nat>) {
    forall n :: n in nodes ==> Member(nodes, clocks, init, launch, n)
  }

  ghost predicate Elects(nodes: map<string, State>, clocks: map<string, nat>, n: string, m: string) {
    n in nodes && n in clocks && FindMaster(nodes[n], clocks[n]).masterShard == m
  }

  lemma ElectsLeader(nodes: map<string, State>, clocks: map<string, nat>,
                     init: map<string, nat>, launch: map<string, nat>, n: string, m: string)
    requires Member(nodes, clocks, init, launch, n) && Leads(init, launch, m)
    ensures Elects(nodes, clocks, n, m)
  {
    LeaderElected(nodes[n], init, launch, clocks[n], m);
  }

  lemma ElectsItselfIff(nodes: map<string, State>, clocks: map<string, nat>,
                        init: map<string, nat>, launch: map<string, nat>, n: string)
    requires Member(nodes, clocks, init, launch, n)
    ensures Elects(nodes, clocks, n, n) <==> Leads(init, launch, n)
  {
    FlagIffLeads(nodes[n], init, launch, clocks[n]);
    StaysConsistent(nodes[n], clocks[n]);
  }

  /** Fully informed nodes elect one and the same shard if and only if that shard was
      initialised before every other was launched. */
  lemma AgreementIff(nodes: map<string, State>, clocks: map<string, nat>,
                     init: map<string, nat>, launch: map<string, nat>, m: string)
    requires Cluster(nodes, clocks, init, launch) && m in nodes
    ensures (forall n :: n in nodes ==> Elects(nodes, clocks, n, m)) <==> Leads(init, launch, m)
  {
    ElectsItselfIff(nodes, clocks, init, launch, m);
    if Leads(init, launch, m) {
      forall n | n in nodes ensures Elects(nodes, clocks, n, m) {
        ElectsLeader(nodes, clocks, init, launch, n, m);
      }
    }
  }

  /** Whatever the times, at most one node takes itself for the master: the one whose shard
      leads, if there is one. */
  lemma AtMostOneMaster(nodes: map<string, State>, clocks: map<string, nat>,
                        init: map<string, nat>, launch: map<string, nat>, m: string, n: string)
    requires Member(nodes, clocks, init, launch, m) && Member(nodes, clocks, init, launch, n)
    ensures FindMaster(nodes[n], clocks[n]).master <==> Leads(init, launch, n)
    ensures FindMaster(nodes[m], clocks[m]).master && FindMaster(nodes[n], clocks[n]).master ==> m == n
  {
    FlagIffLeads(nodes[m], init, launch, clocks[m]);
    FlagIffLeads(nodes[n], init, launch, clocks[n]);
    if Leads(init, launch, m) && Leads(init, launch, n) {
      OneLeads(init, launch, clocks[m], m, n);
    }
  }

  lemma StaysConsistent(s: State, now: nat)
    requires Consistent(s)
    ensures Consistent(FindMaster(s, now))
  {
  }

  /** A node initialised at `t` that has then received the configuration of another shard. */
  ghost function Met(own: string, t: nat, other: string, start: nat, now: nat): State {
    Next(FindMaster(Initial(own, t), t), ServerConfiguration(other, start, now))
  }

  lemma MetTable(own: string, t: nat, other: string, start: nat, now: nat)
    requires own != "" && other != own
    ensures var s := Met(own, t, other, start, now);
            && s.own == own && Consistent(s)
            && s.shards == map[own := Shard(own, t, 0), other := Shard(other, start, now)]
  {
    InitialConsistent(own, t);
    var s := FindMaster(Initial(own, t), t);
    assert NewShard(s, other, now).shards[other] == Shard(other, 0, now);
  }

  lemma MetElects(own: string, t: nat, other: string, start: nat, met: nat, now: nat)
    requires own != "" && other != own && t <= now && start <= now
    ensures var s := FindMaster(Met(own, t, other, start, met), now);
            && s.masterShard == (if Before(t, own, start, other) then own else other)
            && (s.master <==> Before(t, own, start, other))
  {
    var s := Met(own, t, other, start, met);
    MetTable(own, t, other, start, met);
    LessTotal(own, other);
    LessAsymmetric(own, other);
    var m := if Before(t, own, start, other) then own else other;
    assert Elected(s.shards, now + ELECTION_SLACK, m);
    MasterIsEarliest(s, now, m);
  }

  /** Two nodes that have sent each other their configurations, `a` launched at `la` and
      initialised at `ia`, agree if and only if one was initialised before the other was
      launched. If not, each elects the other and neither is master. */
  lemma TwoNodesAgreeIff(a: string, b: string, la: nat, ia: nat, lb: nat, ib: nat, met: nat, now: nat)
    requires a != "" && b != "" && a != b && la <= ia <= now && lb <= ib <= now
    ensures var left, right := FindMaster(Met(a, ia, b, lb, met), now), FindMaster(Met(b, ib, a, la, met), now);
            && (left.masterShard == right.masterShard <==> Before(ia, a, lb, b) || Before(ib, b, la, a))
            && (left.master <==> Before(ia, a, lb, b)) && (right.master <==> Before(ib, b, la, a))
            && (left.masterShard != right.masterShard ==> !left.master && !right.master)
  {
    MetElects(a, ia, b, lb, met, now);
    MetElects(b, ib, a, la, met, now);
    LessAsymmetric(a, b);
  }

  /** An ordinary start of two nodes, half a second each from launch to initialisation, after
      which no node is master. */
  lemma ElectionSplits()
    ensures var left, right := FindMaster(Met("a", 1500, "b", 1200, 1800), 1800), FindMaster(Met("b", 1700, "a", 1000, 1800), 1800);
            left.masterShard == "b" && right.masterShard == "a" && !left.master && !right.master
  {
    MetElects("a", 1500, "b", 1200, 1800, 1800);
    MetElects("b", 1700, "a", 1000, 1800, 1800);
  }

  // ---- shards that have not sent their configuration ------------------------------------

  // A new shard is entered with start time 0, which its configuration replaces.

  ghost predicate Unconfigured(shards: Shards, k: string) {
    k in shards && shards[k].startTime == 0
  }

  /** While any record has start time 0, an election picks one of those: the one with the least
      key. */
  lemma UnconfiguredElectedIff(s: State, now: nat, n: string)
    requires Elected(s.shards, now + ELECTION_SLACK, n)
    ensures Unconfigured(s.shards, n) <==> exists k :: Unconfigured(s.shards, k)
    ensures forall k :: Unconfigured(s.shards, k) && k != n ==> Less(n, k)
  {
    forall k | Unconfigured(s.shards, k) && k != n ensures Unconfigured(s.shards, n) && Less(n, k) {
    }
  }

  /** With proper records, a new shard is master before its configuration arrives if and only if
      no other new shard has a smaller name, however long the rest of the cluster has run. */
  lemma UnconfiguredMasterIff(s: State, now: nat, b: string)
    requires WellNamed(s.shards) && Unconfigured(s.shards, b)
    ensures FindMaster(s, now).masterShard == b <==>
            forall k :: Unconfigured(s.shards, k) && k != b ==> Less(b, k)
    ensures Unconfigured(s.shards, FindMaster(s, now).masterShard)
  {
    var n := SomeoneElected(s.shards, now + ELECTION_SLACK, b);
    MasterIsEarliest(s, now, n);
    UnconfiguredElectedIff(s, now, n);
    if n != b {
      LessAsymmetric(n, b);
    }
  }

  /** A node that hears of a new shard and then of another's configuration hands the mastership
      to the new one. */
  lemma NewShardTakesOver(own: string, b: string, c: string, t: nat)
    requires own != "" && b != own && c != own && b != c && t > 0
    ensures var s := Run(FindMaster(Initial(own, t), t), [NewShardStarted(b, t), ServerConfiguration(c, t, t)]);
            s.masterShard == b && !s.master
  {
    var s := FindMaster(Initial(own, t), t);
    InitialConsistent(own, t);
    var steps := [NewShardStarted(b, t), ServerConfiguration(c, t, t)];
    var s1 := Next(s, steps[0]);
    assert s1.shards == map[own := Shard(own, t, 0), b := Shard(b, 0, t)];
    ConfiguredElsewhere(s1, own, b, c, t);
    assert steps[1..][0] == steps[1] && steps[1..][1..] == [];
    assert Run(s, steps) == Run(s1, steps[1..]) == Run(Next(s1, steps[1]), []);
  }

  lemma NewlyConfigured(s: State, c: string, t: nat)
    requires c !in s.shards
    ensures Next(s, ServerConfiguration(c, t, t)) == FindMaster(s.(shards := s.shards[c := Shard(c, t, t)]), t)
  {
    var r := NewShard(s, c, t);
    assert r == s.(shards := s.shards[c := Shard(c, 0, t)]);
    assert r.shards[c := Shard(c, t, t)] == s.shards[c := Shard(c, t, t)];
  }

  lemma ConfiguredElsewhere(s: State, own: string, b: string, c: string, t: nat)
    requires s.own == own && s.masterShard == own && s.master && b != own && c != own && b != c && t > 0
    requires s.shards == map[own := Shard(own, t, 0), b := Shard(b, 0, t)]
    ensures var r := Next(s, ServerConfiguration(c, t, t)); r.masterShard == b && !r.master
  {
    var shards := map[own := Shard(own, t, 0), b := Shard(b, 0, t), c := Shard(c, t, t)];
    var mid := s.(shards := shards);
    NewlyConfigured(s, c, t);
    assert s.shards[c := Shard(c, t, t)] == shards;
    assert Elected(shards, t + ELECTION_SLACK, b);
    MasterIsEarliest(mid, t, b);
  }

  // ---- blank records --------------------------------------------------------------------

  /** Using the count of an unknown shard would insert a blank record. */
  predicate Known(shards: Shards, name: string) {
    name in shards || name == ""
  }

  ghost predicate TouchesOnlyKnown(s: State, step: Step) {
    match step
    case JoinedShard(id) => (id in s.players && s.players[id].id != 0) || Known(s.shards, s.own)
    case LeftShard(id) => id in s.players ==> Known(s.shards, s.own)
    case JoinedOtherShard(shard, id, found) =>
      found ==> if id !in s.players then Known(s.shards, shard)
                else s.players[id].shard == shard || Known(s.shards, s.players[id].shard)
    case LeftOtherShard(shard, id) =>
      !PendingFor(s.pending, id) && id in s.players ==> Known(s.shards, shard)
    case FindToken(token) =>
      TokenResult(s, token).Some? && TokenResult(s, token).value.id in s.players ==>
        Known(s.shards, TokenResult(s, token).value.shard)
    case _ => true
  }

  lemma {:induction false} RemovedEachNamed(s: State, names: seq<string>, now: nat)
    requires WellNamed(s.shards)
    ensures WellNamed(RemovedEach(s, names, now).shards)
  {
    if |names| > 0 {
      RemovedEachNamed(s, names[..|names| - 1], now);
    }
  }

  lemma TouchKeepsNames(shards: Shards, name: string)
    requires WellNamed(shards)
    ensures WellNamed(Touched(shards, name)) <==> Known(shards, name)
  {
    assert name in Touched(shards, name);
  }

  /** A step keeps every record under its own name exactly when it uses only shards in the
      table. A token presented after its shard went away, or a message about a player of an
      unknown shard, is enough to break this. */
  lemma NamesKeptIff(s: State, step: Step)
    requires WellNamed(s.shards)
    ensures WellNamed(Next(s, step).shards) <==> TouchesOnlyKnown(s, step)
  {
    match step
    case JoinedShard(id) => TouchKeepsNames(s.shards, s.own);
    case LeftShard(id) => TouchKeepsNames(s.shards, s.own);
    case JoinedOtherShard(shard, id, found) =>
      TouchKeepsNames(s.shards, shard);
      if id in s.players { TouchKeepsNames(s.shards, s.players[id].shard); }
    case LeftOtherShard(shard, id) => TouchKeepsNames(s.shards, shard);
    case FindToken(token) =>
      if TokenResult(s, token).Some? { TouchKeepsNames(s.shards, TokenResult(s, token).value.shard); }
    case Timeouts(now) => RemovedEachNamed(s, ExpiredNames(s, now), now);
    case ServerConfiguration(shard, start, now) =>
    case NewShardStarted(shard, now) =>
    case ShardStopped(shard, now) =>
    case _ =>
  }

  ghost predicate OnlyKnown(s: State, steps: seq<Step>)
    decreases |steps|
  {
    |steps| == 0 || (TouchesOnlyKnown(s, steps[0]) && OnlyKnown(Next(s, steps[0]), steps[1..]))
  }

  /** Every record is under its own name in every state of the run. */
  ghost predicate AlwaysNamed(s: State, steps: seq<Step>)
    decreases |steps|
  {
    WellNamed(s.shards) && (|steps| == 0 || AlwaysNamed(Next(s, steps[0]), steps[1..]))
  }

  /** The records stay under their own names throughout a run exactly when every step of it
      uses only shards in the table. */
  lemma {:induction false} AlwaysNamedIff(s: State, steps: seq<Step>)
    requires WellNamed(s.shards)
    ensures AlwaysNamed(s, steps) <==> OnlyKnown(s, steps)
    decreases |steps|
  {
    if |steps| > 0 {
      var next := Next(s, steps[0]);
      NamesKeptIff(s, steps[0]);
      if WellNamed(next.shards) {
        AlwaysNamedIff(next, steps[1..]);
      }
    }
  }

  ghost predicate Phantom(s: State, name: string) {
    name in s.shards && s.shards[name] == BLANK && name != ""
  }

  /** A nameless record has start time 0: against properly started shards it wins every
      election, and then no name is master and the node is not. */
  lemma NamelessWins(s: State, name: string, now: nat)
    requires Nameless(s, name) && Consistent(s) && s.own != ""
    requires forall k :: k in s.shards && k != name ==> s.shards[k].startTime > 0
    ensures FindMaster(s, now).masterShard == "" && !FindMaster(s, now).master
  {
    assert Elected(s.shards, now + ELECTION_SLACK, name);
    MasterIsEarliest(s, now, name);
  }

  /** Records are under their own names or have none: what blank insertions leave true. */
  ghost predicate OwnOrNone(shards: Shards) {
    forall k :: k in shards ==> shards[k].name == k || shards[k].name == ""
  }

  /** A record without a name, as blank insertion makes it; pings may have touched it. */
  ghost predicate Nameless(s: State, name: string) {
    name in s.shards && s.shards[name].name == "" && s.shards[name].startTime == 0
  }

  /** The steps that take a shard's record out of the table or enter it anew. */
  predicate Replaces(s: State, step: Step, name: string) {
    match step
    case ShardStopped(shard, _) => shard == name
    case NewShardStarted(shard, _) => shard == name
    case Timeouts(now) => name in ExpiredNames(s, now)
    case _ => false
  }

  lemma OwnOrNoneKept(s: State, step: Step)
    requires OwnOrNone(s.shards)
    ensures OwnOrNone(Next(s, step).shards)
  {
    if step.Timeouts? {
      forall k | k in Next(s, step).shards
        ensures Next(s, step).shards[k].name == k || Next(s, step).shards[k].name == ""
      {
        RemovedEachOthers(s, ExpiredNames(s, step.now), step.now, k);
      }
    }
  }

  /** Only a stop, a restart or a timeout ends a nameless record. The shard's own
      configuration does not: the update is stored under the empty name. */
  lemma NamelessEndsIff(s: State, step: Step, name: string)
    requires OwnOrNone(s.shards) && Nameless(s, name) && name != ""
    ensures Nameless(Next(s, step), name) <==> !Replaces(s, step, name)
  {
    match step
    case Timeouts(now) => RemovedEachOthers(s, ExpiredNames(s, now), now, name);
    case ServerConfiguration(shard, start, now) => NamelessConfigured(s, shard, start, now, name);
    case NewShardStarted(shard, now) =>
    case ShardStopped(shard, now) =>
    case _ =>
  }

  lemma NamelessConfigured(s: State, shard: string, start: nat, now: nat, name: string)
    requires OwnOrNone(s.shards) && Nameless(s, name) && name != ""
    ensures Nameless(Configured(s, shard, start, now), name)
  {
  }

  ghost predicate NeverReplaced(s: State, steps: seq<Step>, name: string)
    decreases |steps|
  {
    |steps| == 0 || (!Replaces(s, steps[0], name) && NeverReplaced(Next(s, steps[0]), steps[1..], name))
  }

  /** So no message of the shard short of its restart repairs the record, and until then it
      wins every election against started shards. */
  lemma {:induction false} NamelessUntilReplaced(s: State, steps: seq<Step>, name: string)
    requires OwnOrNone(s.shards) && Nameless(s, name) && name != "" && NeverReplaced(s, steps, name)
    ensures Nameless(Run(s, steps), name)
    decreases |steps|
  {
    if |steps| > 0 {
      OwnOrNoneKept(s, steps[0]);
      NamelessEndsIff(s, steps[0], name);
      NamelessUntilReplaced(Next(s, steps[0]), steps[1..], name);
    }
  }

  function StoppedShardRun(other: string, id: int, token: string, t: nat): seq<Step> {
    [NewShardStarted(other, t), ServerConfiguration(other, t, t), JoinedOtherShard(other, id, true),
     TransferFromOtherShard(id, other, token), ShardStopped(other, t), FindToken(token)]
  }

  /** A blank record arises in an ordinary run: a shard starts and announces a player, the
      player asks to move here, the shard stops, and the player arrives with its token. */
  lemma HandOverFromStoppedShard(own: string, other: string, id: int, token: string, t: nat)
    requires own != "" && other != "" && other != own && t > 0
    ensures AllDelivered(own, StoppedShardRun(other, id, token, t))
    ensures var s := Run(FindMaster(Initial(own, t), t), StoppedShardRun(other, id, token, t));
            Phantom(s, other) && s.shards == map[own := Shard(own, t, 0), other := BLANK] &&
            FindMaster(s, t).masterShard == ""
  {
    var s := FindMaster(Initial(own, t), t);
    var steps := StoppedShardRun(other, id, token, t);
    Announce(s, own, other, id, t);
    var s3 := Next(Next(Next(s, steps[0]), steps[1]), steps[2]);
    Arrive(s3, own, other, id, token, t);
    RunOf6(s, steps);
    var s6 := Run(s, steps);
    assert Elected(s6.shards, t + ELECTION_SLACK, other);
    MasterIsEarliest(s6, t, other);
  }

  lemma Arrive(s: State, own: string, other: string, id: int, token: string, t: nat)
    requires s.shards == map[own := Shard(own, t, 0), other := Shard(other, t, t)]
    requires s.players == map[id := Player(id, other)] && s.pending == [] && other != own
    ensures Next(Next(Next(s, TransferFromOtherShard(id, other, token)), ShardStopped(other, t)),
                 FindToken(token)).shards == map[own := Shard(own, t, 0), other := BLANK]
  {
    var p := Pending(id, token, other);
    var s4 := Next(s, TransferFromOtherShard(id, other, token));
    assert s4 == s.(pending := [p]);
    StopKeepsPending(s4, own, other, id, p, t);
    var s5 := Next(s4, ShardStopped(other, t));
    assert FirstToken(s5.pending, token) == 0;
  }

  lemma StopKeepsPending(s: State, own: string, other: string, id: int, p: Pending, t: nat)
    requires s.shards == map[own := Shard(own, t, 0), other := Shard(other, t, t)] && other != own
    requires s.pending == [p] && p.id == id && id in s.players
    ensures var r := Next(s, ShardStopped(other, t));
            r.shards == map[own := Shard(own, t, 0)] && id in r.players && r.pending == [p]
  {
    assert s.pending[0].id == id;
    assert s.shards - {other} == map[own := Shard(own, t, 0)];
  }

  lemma Announce(s: State, own: string, other: string, id: int, t: nat)
    requires s.shards == map[own := Shard(own, t, 0)] && s.players == map[] && s.pending == []
    requires other != own
    ensures var r := Next(Next(Next(s, NewShardStarted(other, t)), ServerConfiguration(other, t, t)),
                          JoinedOtherShard(other, id, true));
            && r.shards == map[own := Shard(own, t, 0), other := Shard(other, t, t)]
            && r.players == map[id := Player(id, other)] && r.pending == []
  {
  }

  lemma RunOf6(s: State, steps: seq<Step>)
    requires |steps| == 6
    ensures Run(s, steps) ==
            Next(Next(Next(Next(Next(Next(s, steps[0]), steps[1]), steps[2]), steps[3]), steps[4]), steps[5])
  {
    RunThree(s, steps);
    var t := Next(Next(Next(s, steps[0]), steps[1]), steps[2]);
    RunThree(t, steps[3..]);
    assert steps[3..][3..] == [];
  }

  lemma RunThree(s: State, steps: seq<Step>)
    requires 3 <= |steps|
    ensures Run(s, steps) == Run(Next(Next(Next(s, steps[0]), steps[1]), steps[2]), steps[3..])
  {
    assert steps[1..][1..] == steps[2..] && steps[2..][1..] == steps[3..];
    assert steps[1..][0] == steps[1] && steps[2..][0] == steps[2];
    var s1 := Next(s, steps[0]);
    assert Run(s, steps) == Run(s1, steps[1..]);
    var s2 := Next(s1, steps[1]);
    assert Run(s1, steps[1..]) == Run(s2, steps[2..]);
  }

  // ---- start times along runs -----------------------------------------------------------

  /** The start time that a step announces for a shard; a shard that starts has none yet. */
  function AnnouncedBy(step: Step, k: string): Option<nat> {
    match step
    case ServerConfiguration(shard, start, _) => if shard == k then Some(start) else None
    case NewShardStarted(shard, _) => if shard == k then Some(0) else None
    case _ => None
  }

  function LastAnnounced(steps: seq<Step>, n: nat, k: string, before: Option<nat>): Option<nat>
    requires n <= |steps|
  {
    if n == 0 then before
    else if AnnouncedBy(steps[n - 1], k).Some? then AnnouncedBy(steps[n - 1], k)
    else LastAnnounced(steps, n - 1, k, before)
  }

  function StartOf(s: State, k: string): Option<nat> {
    if k in s.shards then Some(s.shards[k].startTime) else None
  }

  /** With proper records before and after, a step changes a start time only by announcing it. */
  lemma StartTimeStep(s: State, step: Step, k: string)
    requires WellNamed(s.shards) && WellNamed(Next(s, step).shards) && k != "" && k in Next(s, step).shards
    ensures StartOf(Next(s, step), k) == if AnnouncedBy(step, k).Some? then AnnouncedBy(step, k) else StartOf(s, k)
  {
    match step
    case Timeouts(now) => RemovedEachOthers(s, ExpiredNames(s, now), now, k);
    case ServerConfiguration(shard, start, now) => ConfiguredStart(s, shard, start, now, k);
    case NewShardStarted(shard, now) =>
    case ShardStopped(shard, now) =>
    case _ =>
  }

  lemma ConfiguredStart(s: State, shard: string, start: nat, now: nat, k: string)
    requires WellNamed(s.shards)
    ensures var r := Configured(s, shard, start, now).shards;
            (k in r <==> k in s.shards || k == shard) &&
            (k in r ==> r[k].startTime == if k == shard then start else s.shards[k].startTime)
  {
  }

  /** Along every run that keeps the records proper, the start time known of a shard is the last
      one announced. */
  lemma {:induction false} StartTimeIsLastAnnounced(s: State, steps: seq<Step>, trace: seq<State>, n: nat, k: string)
    requires ClusterSafety.IsTrace(s, steps, trace) && n <= |steps| && k != ""
    requires forall i :: 0 <= i <= n ==> WellNamed(trace[i].shards)
    requires k in trace[n].shards
    ensures StartOf(trace[n], k) == LastAnnounced(steps, n, k, StartOf(s, k))
  {
    if n > 0 {
      StartTimeStep(trace[n - 1], steps[n - 1], k);
      if AnnouncedBy(steps[n - 1], k).None? {
        StartTimeIsLastAnnounced(s, steps, trace, n - 1, k);
      }
    }
  }

  /** A shard whose start lies ten seconds or more ahead of the clock is no candidate. */
  lemma TooFarAhead(s: State, now: nat, k: string, start: nat)
    requires s.shards == map[k := Shard(k, start, 0)] && s.masterShard == "" && k != ""
    ensures FindMaster(s, now).masterShard == if start < now + 10000 then k else ""
  {
    if start < now + 10000 {
      assert Elected(s.shards, now + 10000, k);
      MasterIsEarliest(s, now, k);
    } else {
      var bound := now + 10000;
      forall n ensures !Elected(s.shards, bound, n) {}
    }
  }
}
