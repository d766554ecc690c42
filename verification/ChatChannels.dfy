/** ChatChannelManager: the registry of private chat channels and their members. */
module ChatChannels {
  import opened Common
  import IdOrder

  const CHANNEL_BEGIN_ID := 1
  const MAX_CHANNEL_NAME_SIZE := 10

  datatype Result =
    | JoinSuccess | AlreadyInChannel | PasswordRequired | ChannelCreated
    | LeaveSuccess | NotInChannel | BadChannel | ChannelNameSize | Unhandled

  datatype Member = Member(sim: int, username: string)

  datatype Channel = Channel(id: int, name: string, password: string, members: seq<Member>)

  type Channels = map<int, Channel>

  datatype State = State(channels: Channels, nextID: int)

  // ---- membership -----------------------------------------------------------------------

  function Position(ms: seq<Member>, sim: int): (r: nat)
    ensures r <= |ms| && (r < |ms| ==> ms[r].sim == sim)
    ensures forall i :: 0 <= i < r ==> ms[i].sim != sim
  {
    FirstWhere(ms, (m: Member) => m.sim == sim)
  }

  predicate HasSim(c: Channel, sim: int) {
    Position(c.members, sim) < |c.members|
  }

  function WithoutSim(c: Channel, sim: int): Channel {
    var i := Position(c.members, sim);
    if i < |c.members| then c.(members := c.members[..i] + c.members[i + 1..]) else c
  }

  function Holding(cs: Channels, sim: int): set<int> {
    set k | k in cs && HasSim(cs[k], sim)
  }

  function Named(cs: Channels, name: string): set<int> {
    set k | k in cs && cs[k].name == name
  }

  // ---- the operations on values ---------------------------------------------------------

  function JoinResult(s: State, sim: int, username: Option<string>, channel: Option<string>,
                      password: Option<string>): Result {
    if username.None? then Unhandled
    else if channel.None? then BadChannel
    else if |channel.value| > MAX_CHANNEL_NAME_SIZE then ChannelNameSize
    else if Holding(s.channels, sim) != {} then AlreadyInChannel
    else if Named(s.channels, channel.value) == {} then ChannelCreated
    else if password == Some(s.channels[IdOrder.Least(Named(s.channels, channel.value))].password) then JoinSuccess
    else PasswordRequired
  }

  function Join(s: State, sim: int, username: Option<string>, channel: Option<string>,
                password: Option<string>): State {
    match JoinResult(s, sim, username, channel, password)
    case JoinSuccess =>
      var k := IdOrder.Least(Named(s.channels, channel.value));
      var c := s.channels[k];
      s.(channels := s.channels[k := c.(members := c.members + [Member(sim, username.value)])])
    case ChannelCreated =>
      var secret := if password.Some? then password.value else "";
      State(s.channels[s.nextID := Channel(s.nextID, channel.value, secret, [Member(sim, username.value)])],
            s.nextID + 1)
    case _ => s
  }

  predicate Targeted(c: Channel, channel: Option<string>) {
    channel.Some? ==> c.name == channel.value
  }

  function AfterLeave(c: Channel, sim: int, channel: Option<string>): Channel {
    if Targeted(c, channel) then WithoutSim(c, sim) else c
  }

  predicate Closes(c: Channel, sim: int, channel: Option<string>) {
    Targeted(c, channel) && |WithoutSim(c, sim).members| == 0
  }

  function Leave(s: State, sim: int, channel: Option<string>): State {
    s.(channels := map k | k in s.channels && !Closes(s.channels[k], sim, channel) ::
                     AfterLeave(s.channels[k], sim, channel))
  }

  // ---- the manager ----------------------------------------------------------------------

  class ChatChannelManager {
    var mChannelList: Channels
    var mNextChannelID: int

    ghost function View(): State
      reads this
    {
      State(mChannelList, mNextChannelID)
    }

    constructor ()
      ensures View() == State(map[], CHANNEL_BEGIN_ID)
    {
      mChannelList, mNextChannelID := map[], CHANNEL_BEGIN_ID;
    }

    method HasSimulator(c: Channel, sim: int) returns (has: bool)
      ensures has <==> HasSim(c, sim)
    {
      for i := 0 to |c.members|
        invariant forall j :: 0 <= j < i ==> c.members[j].sim != sim
      {
        if c.members[i].sim == sim {
          assert Position(c.members, sim) == i;
          return true;
        }
      }
      return false;
    }

    method GetChannelWithSimulatorID(sim: int) returns (k: Option<int>)
      ensures k.None? <==> Holding(mChannelList, sim) == {}
      ensures k.Some? ==> k.value == IdOrder.Least(Holding(mChannelList, sim))
    {
      var order := IdOrder.Ascending(mChannelList.Keys);
      for i := 0 to |order|
        invariant forall j :: 0 <= j < i ==> order[j] in mChannelList && !HasSim(mChannelList[order[j]], sim)
      {
        assert order[i] in order;
        var has := HasSimulator(mChannelList[order[i]], sim);
        if has {
          assert order[i] in Holding(mChannelList, sim);
          forall id | id in Holding(mChannelList, sim) ensures order[i] <= id {
            assert id in order;
          }
          return Some(order[i]);
        }
      }
      forall id ensures id !in Holding(mChannelList, sim) {
        if id in mChannelList { assert id in order; }
      }
      return None;
    }

    method GetExistingChannel(channel: string) returns (k: Option<int>)
      ensures k.None? <==> Named(mChannelList, channel) == {}
      ensures k.Some? ==> k.value == IdOrder.Least(Named(mChannelList, channel))
    {
      var order := IdOrder.Ascending(mChannelList.Keys);
      for i := 0 to |order|
        invariant forall j :: 0 <= j < i ==> order[j] !in Named(mChannelList, channel)
      {
        assert order[i] in order;
        if mChannelList[order[i]].name == channel {
          assert order[i] in Named(mChannelList, channel);
          forall id | id in Named(mChannelList, channel) ensures order[i] <= id {
            assert id in order;
          }
          return Some(order[i]);
        }
      }
      forall id ensures id !in Named(mChannelList, channel) {
        if id in mChannelList { assert id in order; }
      }
      return None;
    }

    method CreateChannel(channel: string, password: Option<string>) returns (k: int)
      modifies this
      ensures k == old(mNextChannelID) && mNextChannelID == k + 1
      ensures mChannelList == old(mChannelList)[k := Channel(k, channel, if password.Some? then password.value else "", [])]
    {
      k := mNextChannelID;
      mNextChannelID := mNextChannelID + 1;
      mChannelList := mChannelList[k := Channel(k, channel, if password.Some? then password.value else "", [])];
    }

    method AddSimulator(k: int, sim: int, username: string)
      requires k in mChannelList
      modifies this`mChannelList
      ensures mChannelList == old(mChannelList)[k := old(mChannelList)[k].(
                members := old(mChannelList)[k].members + [Member(sim, username)])]
    {
      mChannelList := mChannelList[k := mChannelList[k].(members := mChannelList[k].members + [Member(sim, username)])];
    }

    /** `returnData` is set when the simulator is already in a channel. */
    method JoinChannel(sim: int, username: Option<string>, channel: Option<string>, password: Option<string>)
      returns (code: Result, returnData: Option<string>)
      modifies this
      ensures code == JoinResult(old(View()), sim, username, channel, password)
      ensures View() == Join(old(View()), sim, username, channel, password)
      ensures returnData == if code == AlreadyInChannel
                            then Some(mChannelList[IdOrder.Least(Holding(mChannelList, sim))].name) else None
    {
      returnData := None;
      if username.None? {
        return Unhandled, None;
      }
      if channel.None? {
        return BadChannel, None;
      }
      if |channel.value| > MAX_CHANNEL_NAME_SIZE {
        return ChannelNameSize, None;
      }
      var exist := GetChannelWithSimulatorID(sim);
      if exist.Some? {
        return AlreadyInChannel, Some(mChannelList[exist.value].name);
      }
      exist := GetExistingChannel(channel.value);
      if exist.Some? {
        if password.Some? && mChannelList[exist.value].password == password.value {
          AddSimulator(exist.value, sim, username.value);
          return JoinSuccess, None;
        }
        return PasswordRequired, None;
      }
      var k := CreateChannel(channel.value, password);
      AddSimulator(k, sim, username.value);
      assert [] + [Member(sim, username.value)] == [Member(sim, username.value)];
      assert mChannelList == Join(old(View()), sim, username, channel, password).channels;
      code := ChannelCreated;
    }

    /** The body of the leaving loop: an emptied channel is erased. */
    method LeaveOne(k: int, sim: int, channel: Option<string>) returns (left: bool)
      requires k in mChannelList
      modifies this`mChannelList
      ensures left <==> Takes(old(mChannelList), k, sim, channel)
      ensures mChannelList == if Closes(old(mChannelList)[k], sim, channel) then old(mChannelList) - {k}
                              else old(mChannelList)[k := AfterLeave(old(mChannelList)[k], sim, channel)]
    {
      if !Targeted(mChannelList[k], channel) {
        assert mChannelList[k := mChannelList[k]] == mChannelList;
        return false;
      }
      left := HasSim(mChannelList[k], sim);
      var c := WithoutSim(mChannelList[k], sim);
      mChannelList := if |c.members| == 0 then mChannelList - {k} else mChannelList[k := c];
    }

    method LeaveChannel(sim: int, channel: Option<string>) returns (code: Result)
      modifies this`mChannelList
      ensures View() == Leave(old(View()), sim, channel)
      ensures code == LeaveSuccess || code == NotInChannel
      ensures code == LeaveSuccess <==>
              exists k :: Takes(old(mChannelList), k, sim, channel)
    {
      var leaveCount := 0;
      ghost var cs := mChannelList;
      var todo := mChannelList.Keys;
      while todo != {}
        invariant leaveCount >= 0 && todo <= cs.Keys && mChannelList == Visited(cs, todo, sim, channel)
        invariant leaveCount > 0 ==> exists k :: Takes(cs, k, sim, channel)
        invariant leaveCount == 0 ==> forall k :: k in cs && k !in todo ==> !Takes(cs, k, sim, channel)
        decreases todo
      {
        var k := IdOrder.Least(todo);
        VisitOneMore(cs, todo, k, sim, channel);
        var left := LeaveOne(k, sim, channel);
        if left {
          assert Takes(cs, k, sim, channel);
          leaveCount := leaveCount + 1;
        }
        todo := todo - {k};
      }
      return if leaveCount > 0 then LeaveSuccess else NotInChannel;
    }
  }

  predicate Takes(cs: Channels, k: int, sim: int, channel: Option<string>) {
    k in cs && Targeted(cs[k], channel) && HasSim(cs[k], sim)
  }

  /** The list while the loop of LeaveChannel still has the keys in `todo` before it. */
  ghost function Visited(cs: Channels, todo: set<int>, sim: int, channel: Option<string>): Channels {
    map k | k in cs && (k in todo || !Closes(cs[k], sim, channel)) ::
      if k in todo then cs[k] else AfterLeave(cs[k], sim, channel)
  }

  lemma VisitOneMore(cs: Channels, todo: set<int>, k: int, sim: int, channel: Option<string>)
    requires k in cs && k in todo
    ensures var m := Visited(cs, todo, sim, channel);
            && k in m && m[k] == cs[k]
            && Visited(cs, todo - {k}, sim, channel) ==
               (if Closes(cs[k], sim, channel) then m - {k} else m[k := AfterLeave(cs[k], sim, channel)])
  {
    MarkDone(k, Closes(cs[k], sim, channel), AfterLeave(cs[k], sim, channel),
             Visited(cs, todo, sim, channel), Visited(cs, todo - {k}, sim, channel));
  }

  lemma MarkDone<K, V>(k: K, closes: bool, after: V, m: map<K, V>, n: map<K, V>)
    requires k in m && (k in n <==> !closes) && (k in n ==> n[k] == after)
    requires forall j :: j != k ==> (j in m <==> j in n)
    requires forall j :: j != k && j in m && j in n ==> m[j] == n[j]
    ensures n == if closes then m - {k} else m[k := after]
  {
    var e := if closes then m - {k} else m[k := after];
    assert forall j :: j in e <==> j in n;
    assert forall j :: j in e ==> e[j] == n[j];
  }

  // ---- the registry over runs -----------------------------------------------------------

  datatype Step =
    | JoinStep(sim: int, username: Option<string>, channel: Option<string>, password: Option<string>)
    | LeaveStep(sim: int, channel: Option<string>)

  function Next(s: State, step: Step): State {
    match step
    case JoinStep(sim, username, channel, password) => Join(s, sim, username, channel, password)
    case LeaveStep(sim, channel) => Leave(s, sim, channel)
  }

  function Run(s: State, steps: seq<Step>): State
    decreases |steps|
  {
    if |steps| == 0 then s else Run(Next(s, steps[0]), steps[1..])
  }

  ghost predicate DistinctSims(ms: seq<Member>) {
    forall i, j :: 0 <= i < j < |ms| ==> ms[i].sim != ms[j].sim
  }

  ghost predicate GoodChannel(s: State, k: int)
    requires k in s.channels
  {
    var c := s.channels[k];
    CHANNEL_BEGIN_ID <= k == c.id < s.nextID && |c.name| <= MAX_CHANNEL_NAME_SIZE && c.members != [] && DistinctSims(c.members)
  }

  /** No channel is empty, names are short and distinct, identifiers are below the next one,
      and a simulator is in at most one channel, at most once. */
  ghost predicate Registry(s: State) {
    && (forall k :: k in s.channels ==> GoodChannel(s, k))
    && (forall j, k :: j in s.channels && k in s.channels && j != k ==> s.channels[j].name != s.channels[k].name)
    && (forall j, k, sim :: j in s.channels && k in s.channels && HasSim(s.channels[j], sim) && HasSim(s.channels[k], sim) ==> j == k)
  }

  lemma RemovalKeepsOthers(c: Channel, sim: int)
    requires DistinctSims(c.members)
    ensures DistinctSims(WithoutSim(c, sim).members)
    ensures forall other :: HasSim(WithoutSim(c, sim), other) <==> other != sim && HasSim(c, other)
  {
    var d, i := WithoutSim(c, sim), Position(c.members, sim);
    forall other ensures HasSim(d, other) <==> other != sim && HasSim(c, other) {
      var p, q := Position(c.members, other), Position(d.members, other);
      if HasSim(c, other) && other != sim {
        assert d.members[if p < i then p else p - 1].sim == other;
      }
      if HasSim(d, other) {
        assert d.members[q] == c.members[if q < i then q else q + 1];
      }
    }
  }

  lemma AppendKeepsOthers(ms: seq<Member>, m: Member, other: int)
    ensures Position(ms + [m], other) < |ms + [m]| <==> Position(ms, other) < |ms| || other == m.sim
    ensures DistinctSims(ms) && Position(ms, m.sim) == |ms| ==> DistinctSims(ms + [m])
  {
    var p, q := Position(ms, other), Position(ms + [m], other);
    if p < |ms| { assert (ms + [m])[p].sim == other; }
    if other == m.sim { assert (ms + [m])[|ms|].sim == other; }
    if q < |ms + [m]| { assert (ms + [m])[q] == if q < |ms| then ms[q] else m; }
  }

  /** Putting `m` alone, or behind the members already there, into one channel. */
  lemma AddKeeps(s: State, t: State, k: int, before: seq<Member>, m: Member)
    requires Registry(s) && Holding(s.channels, m.sim) == {} && s.nextID <= t.nextID
    requires before == if k in s.channels then s.channels[k].members else []
    requires k in t.channels && t.channels == s.channels[k := t.channels[k]]
    requires t.channels[k].members == before + [m]
    requires CHANNEL_BEGIN_ID <= k == t.channels[k].id < t.nextID && |t.channels[k].name| <= MAX_CHANNEL_NAME_SIZE
    requires forall j :: j in s.channels && j != k ==> s.channels[j].name != t.channels[k].name
    ensures Registry(t)
  {
    forall j | j in s.channels ensures !HasSim(s.channels[j], m.sim) {
      assert j !in Holding(s.channels, m.sim);
    }
    forall other ensures HasSim(t.channels[k], other) <==>
                         (k in s.channels && HasSim(s.channels[k], other)) || other == m.sim {
      AppendKeepsOthers(before, m, other);
    }
    assert DistinctSims(before);
    AppendKeepsOthers(before, m, m.sim);
    assert GoodChannel(t, k);
  }

  lemma JoinKeeps(s: State, sim: int, username: Option<string>, channel: Option<string>, password: Option<string>)
    requires Registry(s) && s.nextID >= CHANNEL_BEGIN_ID
    ensures Registry(Join(s, sim, username, channel, password))
  {
    var t := Join(s, sim, username, channel, password);
    var r := JoinResult(s, sim, username, channel, password);
    if r == JoinSuccess || r == ChannelCreated {
      var k := if r == JoinSuccess then IdOrder.Least(Named(s.channels, channel.value)) else s.nextID;
      var m := Member(sim, username.value);
      var before := if r == JoinSuccess then s.channels[k].members else [];
      assert k in s.channels ==> GoodChannel(s, k);
      forall j | j in s.channels && j != k ensures s.channels[j].name != t.channels[k].name {
        assert j in Named(s.channels, channel.value) <==> s.channels[j].name == channel.value;
      }
      AddKeeps(s, t, k, before, m);
    }
  }

  lemma LeaveKeeps(s: State, sim: int, channel: Option<string>)
    requires Registry(s)
    ensures Registry(Leave(s, sim, channel))
    ensures Leave(s, sim, channel).nextID == s.nextID
  {
    var t := Leave(s, sim, channel);
    forall k | k in t.channels
      ensures GoodChannel(t, k) && t.channels[k].name == s.channels[k].name
      ensures forall other :: HasSim(t.channels[k], other) ==> HasSim(s.channels[k], other)
    {
      assert GoodChannel(s, k);
      RemovalKeepsOthers(s.channels[k], sim);
    }
  }

  /** The registry is well-formed along every run of joins and leaves. */
  lemma {:induction false} RegistryKept(s: State, steps: seq<Step>)
    requires Registry(s) && s.nextID >= CHANNEL_BEGIN_ID
    ensures Registry(Run(s, steps)) && Run(s, steps).nextID >= s.nextID
    decreases |steps|
  {
    if |steps| > 0 {
      match steps[0] {
        case JoinStep(sim, username, channel, password) => JoinKeeps(s, sim, username, channel, password);
        case LeaveStep(sim, channel) => LeaveKeeps(s, sim, channel);
      }
      RegistryKept(Next(s, steps[0]), steps[1..]);
    }
  }

  predicate MemberOf(s: State, k: int, sim: int) {
    k in s.channels && HasSim(s.channels[k], sim)
  }

  /** Leaving without naming a channel removes the simulator everywhere and changes nobody
      else's membership. */
  lemma LeaveEverywhere(s: State, sim: int, k: int, other: int)
    requires Registry(s)
    ensures !MemberOf(Leave(s, sim, None), k, sim)
    ensures other != sim ==> (MemberOf(Leave(s, sim, None), k, other) <==> MemberOf(s, k, other))
  {
    if k in s.channels {
      RemovalKeepsOthers(s.channels[k], sim);
      var d := WithoutSim(s.channels[k], sim);
      assert HasSim(d, other) ==> |d.members| > 0;
    }
  }

  lemma AppendedIsRemoved(c: Channel, m: Member)
    requires !HasSim(c, m.sim)
    ensures HasSim(c.(members := c.members + [m]), m.sim)
    ensures WithoutSim(c.(members := c.members + [m]), m.sim) == c
    ensures WithoutSim(c, m.sim) == c
  {
    var ms := c.members + [m];
    AppendKeepsOthers(c.members, m, m.sim);
    assert forall i :: 0 <= i < |c.members| ==> ms[i] == c.members[i];
    assert ms[..|c.members|] + ms[|c.members| + 1..] == c.members;
  }

  /** Leaving removes a channel that has only just got its first member, and restores one
      that has just got another. */
  lemma LeaveRestores(s: State, t: State, k: int, c: Channel, m: Member)
    requires k in s.channels ==> s.channels[k] == c
    requires c.members == [] <==> k !in s.channels
    requires t.channels == s.channels[k := c.(members := c.members + [m])] && !HasSim(c, m.sim)
    requires forall j :: j in s.channels ==> s.channels[j].members != [] && !HasSim(s.channels[j], m.sim)
    ensures Leave(t, m.sim, None).channels == s.channels
  {
    AppendedIsRemoved(c, m);
    forall j | j in s.channels ensures WithoutSim(s.channels[j], m.sim) == s.channels[j] {
      AppendedIsRemoved(s.channels[j], m);
    }
    var u := Leave(t, m.sim, None).channels;
    forall j ensures j in u <==> j in s.channels {}
    assert forall j :: j in u ==> u[j] == s.channels[j];
    assert u == s.channels;
  }

  /** A successful join makes the simulator a member of the channel it named and of no other,
      and leaving undoes it: the same channels with the same members are left. */
  lemma LeaveUndoesJoin(s: State, sim: int, username: string, channel: string, password: Option<string>)
    requires Registry(s) && s.nextID >= CHANNEL_BEGIN_ID
    requires var r := JoinResult(s, sim, Some(username), Some(channel), password);
             r == JoinSuccess || r == ChannelCreated
    ensures var t := Join(s, sim, Some(username), Some(channel), password);
            && (exists k :: MemberOf(t, k, sim) && t.channels[k].name == channel)
            && Leave(t, sim, None).channels == s.channels
  {
    var t := Join(s, sim, Some(username), Some(channel), password);
    var created := JoinResult(s, sim, Some(username), Some(channel), password) == ChannelCreated;
    var k := if created then s.nextID else IdOrder.Least(Named(s.channels, channel));
    var secret := if password.Some? then password.value else "";
    var c := if created then Channel(k, channel, secret, []) else s.channels[k];
    var m := Member(sim, username);
    forall j | j in s.channels ensures s.channels[j].members != [] && !HasSim(s.channels[j], sim) {
      assert j !in Holding(s.channels, sim) && GoodChannel(s, j);
    }
    assert [] + [m] == [m];
    assert t.channels == s.channels[k := c.(members := c.members + [m])];
    AppendedIsRemoved(c, m);
    assert MemberOf(t, k, sim);
    LeaveRestores(s, t, k, c, m);
  }

  /** A join changes the registry if and only if it reports success or a new channel, and then
      the simulator was in no channel before. */
  lemma JoinChangesIff(s: State, sim: int, username: Option<string>, channel: Option<string>,
                       password: Option<string>)
    ensures Join(s, sim, username, channel, password) != s <==>
            JoinResult(s, sim, username, channel, password) in {JoinSuccess, ChannelCreated}
    ensures Join(s, sim, username, channel, password) != s ==>
              forall k :: k in s.channels ==> !HasSim(s.channels[k], sim)
  {
    var t, r := Join(s, sim, username, channel, password), JoinResult(s, sim, username, channel, password);
    if r == JoinSuccess {
      var k := IdOrder.Least(Named(s.channels, channel.value));
      assert |t.channels[k].members| == |s.channels[k].members| + 1;
    } else if r == ChannelCreated {
      assert t.nextID == s.nextID + 1;
    }
    forall k | k in s.channels && Holding(s.channels, sim) == {} ensures !HasSim(s.channels[k], sim) {
      assert k !in Holding(s.channels, sim);
    }
  }

  // ---- who gets in ----------------------------------------------------------------------

  ghost predicate Free(s: State, sim: int) {
    forall k :: k in s.channels ==> !HasSim(s.channels[k], sim)
  }

  lemma HasSimIff(c: Channel, sim: int)
    ensures HasSim(c, sim) <==> exists i :: 0 <= i < |c.members| && c.members[i].sim == sim
  {
  }

  /** The calls that are refused before any channel is looked at, and the one by a simulator that
      is in a channel already. */
  lemma RefusedEarly(s: State, sim: int, username: Option<string>, channel: Option<string>, password: Option<string>)
    ensures username.None? ==> JoinResult(s, sim, username, channel, password) == Unhandled
    ensures username.Some? && channel.None? ==> JoinResult(s, sim, username, channel, password) == BadChannel
    ensures username.Some? && channel.Some? && |channel.value| > 10 ==>
              JoinResult(s, sim, username, channel, password) == ChannelNameSize
    ensures username.Some? && channel.Some? && |channel.value| <= 10 ==>
              (JoinResult(s, sim, username, channel, password) == AlreadyInChannel <==> !Free(s, sim))
  {
    if !Free(s, sim) {
      var k :| k in s.channels && HasSim(s.channels[k], sim);
      assert k in Holding(s.channels, sim);
    } else {
      forall k ensures k !in Holding(s.channels, sim) {}
    }
  }

  /** A channel that exists is joined with its own password and with no other; then the
      newcomer is its last member and nothing else changes. */
  lemma PasswordDecides(s: State, sim: int, username: string, k: int, password: Option<string>)
    requires Registry(s) && Free(s, sim) && k in s.channels
    ensures var c := s.channels[k];
            var r := JoinResult(s, sim, Some(username), Some(c.name), password);
            var t := Join(s, sim, Some(username), Some(c.name), password);
            && (r == JoinSuccess <==> password == Some(c.password)) && (r != JoinSuccess ==> r == PasswordRequired && t == s)
            && (r == JoinSuccess ==>
                  t.nextID == s.nextID &&
                  t.channels == s.channels[k := Channel(c.id, c.name, c.password, c.members + [Member(sim, username)])])
  {
    var name := s.channels[k].name;
    RefusedEarly(s, sim, Some(username), Some(name), password);
    assert GoodChannel(s, k);
    assert k in Named(s.channels, name);
    forall j | j in Named(s.channels, name) ensures j == k {
      assert j in s.channels && s.channels[j].name == s.channels[k].name;
    }
    assert IdOrder.Least(Named(s.channels, name)) == k;
  }

  /** A name that no channel has makes a new one, with the caller's password and the caller as
      its only member. */
  lemma NewChannelIsOurs(s: State, sim: int, username: string, name: string, password: Option<string>)
    requires Free(s, sim) && |name| <= 10 && forall k :: k in s.channels ==> s.channels[k].name != name
    ensures JoinResult(s, sim, Some(username), Some(name), password) == ChannelCreated
    ensures Join(s, sim, Some(username), Some(name), password) ==
            State(s.channels[s.nextID := Channel(s.nextID, name, if password.Some? then password.value else "",
                                                 [Member(sim, username)])], s.nextID + 1)
  {
    RefusedEarly(s, sim, Some(username), Some(name), password);
    forall k ensures k !in Named(s.channels, name) {}
    assert Named(s.channels, name) == {};
  }

  /** Leaving, by name or not, ends the simulator's membership of the channels meant, and no
      other membership. */
  lemma LeaveEnds(s: State, sim: int, channel: Option<string>, k: int, other: int)
    requires Registry(s)
    ensures MemberOf(Leave(s, sim, channel), k, other) <==>
            MemberOf(s, k, other) && !(other == sim && (channel.None? || s.channels[k].name == channel.value))
  {
    if k in s.channels {
      assert GoodChannel(s, k);
      RemovalKeepsOthers(s.channels[k], sim);
      var d := WithoutSim(s.channels[k], sim);
      if HasSim(d, other) {
        assert |d.members| > 0;
      }
    }
  }

  /** What is left of a channel keeps its name and password and has a member; at most one member
      is gone, and the others keep their order. */
  lemma LeaveKeepsChannel(s: State, sim: int, channel: Option<string>, k: int)
    requires Registry(s) && k in Leave(s, sim, channel).channels
    ensures k in s.channels && Leave(s, sim, channel).channels[k].members != []
    ensures var c, d := s.channels[k], Leave(s, sim, channel).channels[k];
            d == c || exists i :: 0 <= i < |c.members| && c.members[i].sim == sim &&
                                  d == Channel(c.id, c.name, c.password, c.members[..i] + c.members[i + 1..])
  {
    var c, d := s.channels[k], Leave(s, sim, channel).channels[k];
    assert GoodChannel(s, k);
    var i := Position(c.members, sim);
    if d != c {
      assert c.members[i].sim == sim && d == Channel(c.id, c.name, c.password, c.members[..i] + c.members[i + 1..]);
    }
  }
}
