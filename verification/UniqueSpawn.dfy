/** UniqueSpawnManager: of all the props that share a unique package, one is chosen at random
    until the next re-roll. */
module UniqueSpawn {
  import opened Common

  /** The server clock in milliseconds, far from the end of its 64 bits. */
  type Clock = t: int | 0 <= t < 0x8000_0000_0000_0000

  /** A delay whose product with 1000 fits an `int`. */
  type Seconds = s: int | -2147483 <= s <= 2147483

  /** `now + delay * 1000` as an `unsigned long`: a negative sum wraps around, and no sum
      reaches the upper end. */
  function After(now: Clock, delay: Seconds): (t: int)
    ensures 0 <= t < ULONG && t >= now + delay * 1000
    ensures now + delay * 1000 >= 0 ==> t == now + delay * 1000
  {
    var t := now as int + delay as int * 1000;
    if t < 0 then t + ULONG else t
  }

  datatype Entry = Entry(maxSpawnCount: int, randomIndex: nat, restartTime: int, props: seq<int>)

  type Entries = map<string, Entry>

  const NEW_ENTRY := Entry(0, 0, 0, [])

  function At(es: Entries, package: string): Entry {
    if package in es then es[package] else NEW_ENTRY
  }

  function Listed(props: seq<int>, prop: int): seq<int> {
    if FirstIndex(props, prop) < |props| then props else props + [prop]
  }

  lemma PutTwice(es: Entries, package: string, e: Entry, f: Entry)
    ensures es[package := e][package := f] == es[package := f]
  {
  }

  /** Listing a prop moves no other. */
  lemma ListedIndex(props: seq<int>, listed: int, prop: int)
    ensures FirstIndex(props, prop) < |props| ==> FirstIndex(Listed(props, listed), prop) == FirstIndex(props, prop)
    ensures FirstIndex(Listed(props, prop), prop) == FirstIndex(props, prop) < |Listed(props, prop)|
  {
    var i, after := FirstIndex(props, prop), Listed(props, listed);
    if i < |props| {
      assert after[i] == prop;
      assert forall k :: 0 <= k < i ==> after[k] == props[k] != prop;
    }
    var j := FirstIndex(props, prop);
    assert Listed(props, prop)[j] == prop;
    assert forall k :: 0 <= k < j ==> Listed(props, prop)[k] == props[k] != prop;
  }

  /** A new entry is rolled at once, without a delay. */
  function Started(e: Entry, points: int, now: Clock, roll: nat): Entry {
    Rolled(e.(maxSpawnCount := points), 0, now, roll)
  }

  /** The entry after one call of `TestSpawn`; `roll` is used only to initialise it. */
  function Asked(e: Entry, points: int, prop: int, now: Clock, roll: nat): Entry {
    if points <= 1 || e.restartTime > now then e
    else
      var f := if e.maxSpawnCount == 0 then Started(e, points, now, roll) else e;
      f.(props := Listed(f.props, prop))
  }

  function Answer(e: Entry, points: int, prop: int, now: Clock, roll: nat): bool {
    points <= 1 ||
    (e.restartTime <= now &&
     FirstIndex(e.props, prop) == if e.maxSpawnCount == 0 then roll else e.randomIndex)
  }

  function Rolled(e: Entry, delay: Seconds, now: Clock, roll: nat): Entry {
    e.(randomIndex := roll, restartTime := After(now, delay))
  }

  class UniqueSpawnManager {
    var mEntryList: Entries

    constructor ()
      ensures mEntryList == map[]
    {
      mEntryList := map[];
    }

    method GetPropIndex(package: string, prop: int) returns (index: nat)
      requires package in mEntryList
      modifies this
      ensures index == FirstIndex(old(mEntryList)[package].props, prop)
      ensures mEntryList == old(mEntryList)[package :=
                old(mEntryList)[package].(props := Listed(old(mEntryList)[package].props, prop))]
    {
      var data := mEntryList[package];
      for i := 0 to |data.props|
        invariant mEntryList == old(mEntryList)
        invariant forall j :: 0 <= j < i ==> data.props[j] != prop
      {
        if data.props[i] == prop {
          assert FirstIndex(data.props, prop) == i;
          return i;
        }
      }
      mEntryList := mEntryList[package := data.(props := data.props + [prop])];
      return |data.props|;
    }

    method TestSpawn(package: string, points: int, prop: int, now: Clock, roll: nat) returns (pass: bool)
      modifies this
      ensures pass == Answer(At(old(mEntryList), package), points, prop, now, roll)
      ensures mEntryList == if points <= 1 then old(mEntryList)
                            else old(mEntryList)[package := Asked(At(old(mEntryList), package), points, prop, now, roll)]
    {
      if points <= 1 {
        return true;
      }
      var data := At(mEntryList, package);
      mEntryList := mEntryList[package := data];
      if data.restartTime > now {
        return false;
      }
      if data.maxSpawnCount == 0 {
        data := Started(data, points, now, roll);
        mEntryList := mEntryList[package := data];
      }
      ghost var es := old(mEntryList);
      assert mEntryList == es[package := data];
      var index := GetPropIndex(package, prop);
      PutTwice(es, package, data, data.(props := Listed(data.props, prop)));
      return index == data.randomIndex;
    }

    method ReRoll(package: string, delay: Seconds, now: Clock, roll: nat)
      modifies this
      ensures mEntryList == if package !in old(mEntryList) then old(mEntryList)
                            else old(mEntryList)[package := Rolled(old(mEntryList)[package], delay, now, roll)]
    {
      if package in mEntryList {
        mEntryList := mEntryList[package := Rolled(mEntryList[package], delay, now, roll)];
      }
    }
  }

  // ---- runs of one package --------------------------------------------------------------

  datatype Event =
    | Ask(points: int, prop: int, now: Clock, roll: nat)
    | Kill(delay: Seconds, now: Clock, roll: nat)

  /** A kill re-rolls; a package never asked about has no entry to re-roll. */
  function Next(e: Entry, v: Event): Entry {
    match v
    case Ask(points, prop, now, roll) => Asked(e, points, prop, now, roll)
    case Kill(delay, now, roll) => if e == NEW_ENTRY then e else Rolled(e, delay, now, roll)
  }

  function Run(e: Entry, vs: seq<Event>): Entry
    decreases |vs|
  {
    if |vs| == 0 then e else Run(Next(e, vs[0]), vs[1..])
  }

  /** Rolls lie in `0 .. mMaxSpawnCount - 1`. */
  predicate Fair(e: Entry, v: Event) {
    match v
    case Ask(points, _, _, roll) => points > 1 ==> roll < points
    case Kill(_, _, roll) => e != NEW_ENTRY ==> roll < e.maxSpawnCount
  }

  ghost predicate AllFair(e: Entry, vs: seq<Event>)
    decreases |vs|
  {
    |vs| == 0 || (Fair(e, vs[0]) && AllFair(Next(e, vs[0]), vs[1..]))
  }

  ghost predicate Good(e: Entry) {
    && (forall i, j :: 0 <= i < j < |e.props| ==> e.props[i] != e.props[j])
    && (e == NEW_ENTRY || (e.maxSpawnCount > 1 && e.randomIndex < e.maxSpawnCount))
  }

  lemma {:induction false} GoodRun(e: Entry, vs: seq<Event>)
    requires Good(e) && AllFair(e, vs)
    ensures Good(Run(e, vs))
    decreases |vs|
  {
    if |vs| > 0 {
      GoodRun(Next(e, vs[0]), vs[1..]);
    }
  }

  /** A prop keeps its index for ever, through any number of re-rolls. */
  lemma {:induction false} IndexNeverChanges(e: Entry, vs: seq<Event>, prop: int)
    requires FirstIndex(e.props, prop) < |e.props|
    ensures FirstIndex(Run(e, vs).props, prop) == FirstIndex(e.props, prop) < |Run(e, vs).props|
    decreases |vs|
  {
    if |vs| > 0 {
      StepKeepsIndex(e, vs[0], prop);
      IndexNeverChanges(Next(e, vs[0]), vs[1..], prop);
    }
  }

  lemma StepKeepsIndex(e: Entry, v: Event, prop: int)
    requires FirstIndex(e.props, prop) < |e.props|
    ensures FirstIndex(Next(e, v).props, prop) == FirstIndex(e.props, prop) < |Next(e, v).props|
  {
    if v.Ask? {
      ListedIndex(e.props, v.prop, prop);
    }
  }

  /** The props share no index. */
  lemma IndexInjective(props: seq<int>, p: int, q: int)
    requires FirstIndex(props, p) == FirstIndex(props, q) < |props|
    ensures p == q
  {
  }

  ghost predicate ChosenIs(e: Entry, p: int) {
    e.maxSpawnCount != 0 && FirstIndex(e.props, p) == e.randomIndex < |e.props|
  }

  predicate Passes(e: Entry, v: Event, prop: int) {
    v.Ask? && v.points > 1 && v.prop == prop && Answer(e, v.points, v.prop, v.now, v.roll)
  }

  lemma {:induction false} ChosenStays(e: Entry, vs: seq<Event>, p: int)
    requires ChosenIs(e, p) && forall i :: 0 <= i < |vs| ==> vs[i].Ask?
    ensures ChosenIs(Run(e, vs), p)
    decreases |vs|
  {
    if |vs| > 0 {
      assert vs[0].Ask?;
      ListedIndex(e.props, vs[0].prop, p);
      ChosenStays(Next(e, vs[0]), vs[1..], p);
    }
  }

  /** Between two re-rolls at most one prop is let through: if `p` passes, and later, after
      any questions but no re-roll, `q` passes, they are the same prop. */
  lemma AtMostOnePasses(e: Entry, first: Event, between: seq<Event>, later: Event, p: int, q: int)
    requires Good(e)
    requires Passes(e, first, p)
    requires forall i :: 0 <= i < |between| ==> between[i].Ask?
    requires Passes(Run(Next(e, first), between), later, q)
    ensures p == q
  {
    var f := Next(e, first);
    ListedIndex(e.props, p, p);
    ChosenStays(f, between, p);
    IndexInjective(Run(f, between).props, p, q);
  }

  lemma {:induction false} DistinctCount<T>(ps: seq<T>, s: set<T>)
    requires forall i, j :: 0 <= i < j < |ps| ==> ps[i] != ps[j]
    requires forall p :: p in ps ==> p in s
    ensures |ps| <= |s|
  {
    if |ps| > 0 {
      var n := |ps| - 1;
      assert forall i :: 0 <= i < n ==> ps[..n][i] == ps[i];
      assert ps[n] in ps;
      forall p | p in ps[..n] ensures p in s - {ps[n]} {
        var i :| 0 <= i < n && ps[..n][i] == p;
        assert ps[i] == p && p in ps;
      }
      DistinctCount(ps[..n], s - {ps[n]});
      assert |s - {ps[n]}| == |s| - 1;
    }
  }

  lemma {:induction false} AtMostLength<T>(props: seq<T>)
    ensures |set p | p in props| <= |props|
  {
    if |props| > 0 {
      AtMostLength(props[1..]);
      assert (set p | p in props) == {props[0]} + set p | p in props[1..];
    }
  }

  lemma DistinctWithin<T>(ps: seq<T>, props: seq<T>)
    requires forall i, j :: 0 <= i < j < |ps| ==> ps[i] != ps[j]
    requires forall i :: 0 <= i < |ps| ==> ps[i] in props
    ensures |ps| <= |props|
  {
    forall p | p in ps ensures p in props {
      var i :| 0 <= i < |ps| && ps[i] == p;
    }
    DistinctCount(ps, set p | p in props);
    AtMostLength(props);
  }

  /** Once as many distinct props have asked as the package has points, and the restart time
      has passed, exactly one prop is let through. */
  lemma ExactlyOnePasses(e: Entry, ps: seq<int>, now: Clock, points: int, roll: nat) returns (winner: int)
    requires Good(e) && e != NEW_ENTRY && points > 1 && e.restartTime <= now
    requires |ps| == e.maxSpawnCount && forall i, j :: 0 <= i < j < |ps| ==> ps[i] != ps[j]
    requires forall i :: 0 <= i < |ps| ==> ps[i] in e.props
    ensures winner in e.props
    ensures forall p :: Answer(e, points, p, now, roll) <==> p == winner
  {
    DistinctWithin(ps, e.props);
    winner := e.props[e.randomIndex];
    forall p ensures Answer(e, points, p, now, roll) <==> p == winner {
      if p == winner { assert FirstIndex(e.props, p) == e.randomIndex; }
    }
  }

  lemma {:induction false} AskingKeepsRestart(e: Entry, vs: seq<Event>)
    requires e.maxSpawnCount != 0 && forall i :: 0 <= i < |vs| ==> vs[i].Ask?
    ensures Run(e, vs).restartTime == e.restartTime && Run(e, vs).maxSpawnCount != 0
    decreases |vs|
  {
    if |vs| > 0 {
      AskingKeepsRestart(Next(e, vs[0]), vs[1..]);
    }
  }

  /** The delay given at a kill holds for every prop of the package: however often and by
      whomever the manager is asked after the kill, nobody is let through before the delay
      has passed. */
  lemma QuietAfterKill(e: Entry, kill: Event, between: seq<Event>, later: Event, p: int)
    requires Good(e) && e != NEW_ENTRY && kill.Kill?
    requires forall i :: 0 <= i < |between| ==> between[i].Ask?
    requires Passes(Run(Next(e, kill), between), later, p)
    ensures later.now >= kill.now + kill.delay * 1000
  {
    AskingKeepsRestart(Next(e, kill), between);
  }

  // ---- single steps ---------------------------------------------------------------------

  /** A package with one point or none is not unique: everybody passes, and no entry is kept. */
  lemma OnePointAlwaysPasses(e: Entry, points: int, prop: int, now: Clock, roll: nat)
    requires points <= 1
    ensures Answer(e, points, prop, now, roll) && Asked(e, points, prop, now, roll) == e
  {
  }

  /** The first question of a package rolls among its points; the first prop to ask has index 0
      and passes exactly if that was rolled. */
  lemma FirstQuestion(points: int, prop: int, now: Clock, roll: nat)
    requires points > 1
    ensures Asked(NEW_ENTRY, points, prop, now, roll) == Entry(points, roll, now, [prop])
    ensures Answer(NEW_ENTRY, points, prop, now, roll) <==> roll == 0
  {
    assert [] + [prop] == [prop];
  }

  /** A kill chooses anew among the same props and holds the package back for the delay. */
  lemma KillRolls(e: Entry, delay: Seconds, now: Clock, roll: nat)
    requires now + delay * 1000 >= 0
    ensures Rolled(e, delay, now, roll) == Entry(e.maxSpawnCount, roll, now + delay * 1000, e.props)
  {
  }
}
