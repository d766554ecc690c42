/** CharacterManager: an expiring cache of characters in front of the cluster's store. */
module CharacterCache {
  import IdOrder

  const TEMP_EXPIRE_TIME := 20000

  /** `expireTime` 0 marks a character that is in the game and never expires. */
  datatype Character = Character(content: string, pendingChanges: nat, expireTime: nat)

  datatype State = State(chars: map<int, Character>, store: map<int, string>, now: nat)

  function Extended(c: Character, now: nat): Character {
    if c.expireTime != 0 then c.(expireTime := now + TEMP_EXPIRE_TIME) else c
  }

  predicate IsExpired(c: Character, now: nat) {
    c.expireTime > 0 && now >= c.expireTime
  }

  // ---- the operations on values ---------------------------------------------------------

  function Touch(s: State, id: int): State {
    if id in s.chars then s.(chars := s.chars[id := Extended(s.chars[id], s.now)]) else s
  }

  function Load(s: State, id: int, temp: bool, readable: bool): State {
    if !readable || id !in s.store || id in s.chars then s
    else s.(chars := s.chars[id := Character(s.store[id], 0, if temp then s.now + TEMP_EXPIRE_TIME else 0)])
  }

  function Request(s: State, id: int, temp: bool, readable: bool): State {
    var t := if id in s.chars then s else Load(s, id, temp, readable);
    if id !in t.chars then t
    else
      var c := t.chars[id];
      t.(chars := t.chars[id := c.(expireTime := if !temp || c.expireTime == 0 then 0 else s.now + TEMP_EXPIRE_TIME)])
  }

  /** `ok`: the store accepted the write. A refused write has still extended the expiry. */
  function Save(s: State, id: int, ok: bool): State {
    var t := Touch(s, id);
    if id !in t.chars || !ok then t
    else t.(chars := t.chars[id := t.chars[id].(pendingChanges := 0)],
            store := t.store[id := t.chars[id].content])
  }

  function Unload(s: State, id: int): State {
    s.(chars := s.chars - {id})
  }

  /** Removing all garbage: an expired character goes unless it has changes that could not
      be saved, and then it expires later. `ok` are the ids whose writes succeed. */
  function Garbage(s: State, ok: set<int>): State {
    s.(chars := map id | id in s.chars && !Goes(s, ok, id) ::
                  if IsExpired(s.chars[id], s.now) then Extended(s.chars[id], s.now) else s.chars[id],
       store := map id | id in s.store.Keys + s.chars.Keys && (id in s.store || SavedByGarbage(s, ok, id)) ::
                  if SavedByGarbage(s, ok, id) then s.chars[id].content else s.store[id])
  }

  predicate Goes(s: State, ok: set<int>, id: int) {
    id in s.chars && IsExpired(s.chars[id], s.now) && (s.chars[id].pendingChanges == 0 || id in ok)
  }

  predicate SavedByGarbage(s: State, ok: set<int>, id: int) {
    Goes(s, ok, id) && s.chars[id].pendingChanges != 0
  }

  function SaveAll(s: State, ok: set<int>): State {
    s.(chars := map[],
       store := map id | id in s.store.Keys + s.chars.Keys &&
                         (id in s.store || (s.chars[id].pendingChanges != 0 && id in ok)) ::
                  if id in s.chars && s.chars[id].pendingChanges != 0 && id in ok then s.chars[id].content
                  else s.store[id])
  }

  datatype Step =
    | Tick(now: nat)
    | GetPointer(id: int)
    | RequestCharacter(id: int, temp: bool, readable: bool)
    | SaveCharacter(id: int, ok: bool)
    | Edit(id: int, content: string)
    | AddExternal(id: int, c: Character)
    | RemoveGarbage(writable: set<int>)
    | UnloadCharacter(id: int)
    | ReloadCharacter(id: int, temp: bool, readable: bool)
    | UnloadAll(writable: set<int>)

  function Next(s: State, step: Step): State {
    match step
    case Tick(now) => s.(now := if now > s.now then now else s.now)
    case GetPointer(id) => Touch(s, id)
    case RequestCharacter(id, temp, readable) => Request(s, id, temp, readable)
    case SaveCharacter(id, ok) => Save(s, id, ok)
    case Edit(id, content) =>
      if id !in s.chars then s
      else s.(chars := s.chars[id := s.chars[id].(content := content,
                                                  pendingChanges := s.chars[id].pendingChanges + 1)])
    case AddExternal(id, c) => if id in s.chars then s else s.(chars := s.chars[id := c])
    case RemoveGarbage(ok) => Garbage(s, ok)
    case UnloadCharacter(id) => Unload(s, id)
    case ReloadCharacter(id, temp, readable) => Load(Unload(s, id), id, temp, readable)
    case UnloadAll(ok) => SaveAll(s, ok)
  }

  function Run(s: State, steps: seq<Step>): State
    decreases |steps|
  {
    if |steps| == 0 then s else Run(Next(s, steps[0]), steps[1..])
  }

  // ---- the manager ----------------------------------------------------------------------

  function ExpiredIds(s: State): set<int> {
    set id | id in s.chars && IsExpired(s.chars[id], s.now)
  }

  /** What one pass of the garbage loop does to the expired character it finds. */
  function Collected(s: State, ok: set<int>, id: int): State
    requires id in s.chars
  {
    if s.chars[id].pendingChanges != 0 && id !in ok then Touch(s, id)
    else Unload(if s.chars[id].pendingChanges != 0 then Save(s, id, true) else s, id)
  }

  /** A pass changes nothing about the final result, and leaves one expired entry fewer even
      when the save fails, because the failed save has moved the expiry past `now`. */
  lemma CollectedIsProgress(s: State, ok: set<int>, id: int)
    requires id in ExpiredIds(s)
    ensures Garbage(Collected(s, ok, id), ok) == Garbage(s, ok)
    ensures ExpiredIds(Collected(s, ok, id)) == ExpiredIds(s) - {id}
  {
    var t := Collected(s, ok, id);
    CollectedParts(s, ok, id);
    assert forall k :: k in ExpiredIds(t) <==> k in ExpiredIds(s) - {id};
    GarbageWithout(s, t, ok, id);
  }

  lemma GarbageWithout(s: State, t: State, ok: set<int>, id: int)
    requires id in ExpiredIds(s) && t.now == s.now
    requires t.chars == (if Goes(s, ok, id) then s.chars - {id} else s.chars[id := Extended(s.chars[id], s.now)])
    requires t.store == (if SavedByGarbage(s, ok, id) then s.store[id := s.chars[id].content] else s.store)
    ensures Garbage(t, ok) == Garbage(s, ok)
  {
    forall k ensures Goes(t, ok, k) <==> Goes(s, ok, k) && k != id {}
    var g, h := Garbage(s, ok), Garbage(t, ok);
    assert g.chars.Keys == h.chars.Keys;
    assert forall k :: k in g.chars ==> g.chars[k] == h.chars[k];
    assert g.chars == h.chars;
    SameStore(s, t, ok, id);
  }

  lemma SameStore(s: State, t: State, ok: set<int>, id: int)
    requires id in s.chars
    requires t.store == (if SavedByGarbage(s, ok, id) then s.store[id := s.chars[id].content] else s.store)
    requires forall k :: k != id ==> (k in s.chars <==> k in t.chars) && (k in s.chars ==> t.chars[k] == s.chars[k])
    requires forall k :: SavedByGarbage(t, ok, k) <==> SavedByGarbage(s, ok, k) && k != id
    ensures Garbage(t, ok).store == Garbage(s, ok).store
  {
    var g, h := Garbage(s, ok).store, Garbage(t, ok).store;
    assert g.Keys == h.Keys;
    assert forall k :: k in g ==> g[k] == h[k];
  }

  lemma CollectedParts(s: State, ok: set<int>, id: int)
    requires id in ExpiredIds(s)
    ensures var t, c := Collected(s, ok, id), s.chars[id];
            && t.now == s.now
            && t.chars == (if Goes(s, ok, id) then s.chars - {id} else s.chars[id := Extended(c, s.now)])
            && t.store == (if SavedByGarbage(s, ok, id) then s.store[id := c.content] else s.store)
  {
  }

  lemma NothingToCollect(s: State, ok: set<int>)
    requires ExpiredIds(s) == {}
    ensures Garbage(s, ok) == s
  {
    forall id | id in s.chars ensures !IsExpired(s.chars[id], s.now) {
      assert id !in ExpiredIds(s);
    }
    assert Garbage(s, ok).chars == s.chars && Garbage(s, ok).store == s.store;
  }

  lemma SaveAllStep(s: State, ok: set<int>, id: int)
    requires id in s.chars
    ensures var t := Unload(if s.chars[id].pendingChanges != 0 then Save(s, id, id in ok) else s, id);
            SaveAll(t, ok) == SaveAll(s, ok)
  {
    var t := Unload(if s.chars[id].pendingChanges != 0 then Save(s, id, id in ok) else s, id);
    var saved := s.chars[id].pendingChanges != 0 && id in ok;
    assert t.chars == s.chars - {id};
    assert t.store == if saved then s.store[id := s.chars[id].content] else s.store;
    SaveAllRest(s, t, ok, id, saved);
  }

  lemma SaveAllRest(s: State, t: State, ok: set<int>, id: int, saved: bool)
    requires id in s.chars && saved == (s.chars[id].pendingChanges != 0 && id in ok)
    requires t.chars == s.chars - {id} && t.now == s.now
    requires t.store == if saved then s.store[id := s.chars[id].content] else s.store
    ensures SaveAll(t, ok) == SaveAll(s, ok)
  {
    var g, h := SaveAll(s, ok).store, SaveAll(t, ok).store;
    assert g.Keys == h.Keys;
    assert forall k :: k in g ==> g[k] == h[k];
  }

  class CharacterManager {
    var charList: map<int, Character>
    var store: map<int, string>
    var now: nat

    ghost function View(): State
      reads this
    {
      State(charList, store, now)
    }

    constructor ()
      ensures View() == State(map[], map[], 0)
    {
      charList, store, now := map[], map[], 0;
    }

    method GetPointerByID(id: int) returns (found: bool)
      modifies this`charList
      ensures found <==> id in charList
      ensures View() == Next(old(View()), GetPointer(id))
    {
      found := id in charList;
      if found && charList[id].expireTime != 0 {
        charList := charList[id := charList[id].(expireTime := now + TEMP_EXPIRE_TIME)];
      }
    }

    method LoadCharacter(id: int, tempResource: bool, readable: bool) returns (ok: bool)
      modifies this`charList
      ensures ok <==> readable && id in store
      ensures View() == Load(old(View()), id, tempResource, readable)
    {
      ok := readable && id in store;
      if ok && id !in charList {
        charList := charList[id := Character(store[id], 0, if tempResource then now + TEMP_EXPIRE_TIME else 0)];
      }
    }

    method RequestCharacter(id: int, tempOnly: bool, readable: bool) returns (found: bool)
      modifies this`charList
      ensures found <==> id in charList
      ensures View() == Next(old(View()), Step.RequestCharacter(id, tempOnly, readable))
    {
      found := GetPointerByID(id);
      if !found {
        found := LoadCharacter(id, tempOnly, readable);
      }
      if found {
        if tempOnly && charList[id].expireTime > 0 {
          charList := charList[id := charList[id].(expireTime := now + TEMP_EXPIRE_TIME)];
        } else if !tempOnly {
          charList := charList[id := charList[id].(expireTime := 0)];
        }
      }
    }

    method SaveCharacter(id: int, writable: bool) returns (saved: bool)
      modifies this`charList, this`store
      ensures saved <==> id in old(charList) && writable
      ensures View() == Next(old(View()), Step.SaveCharacter(id, writable))
    {
      var found := GetPointerByID(id);
      if !found || !writable {
        return false;
      }
      store := store[id := charList[id].content];
      charList := charList[id := charList[id].(pendingChanges := 0)];
      return true;
    }

    method UnloadCharacter(id: int)
      modifies this`charList
      ensures View() == Next(old(View()), Step.UnloadCharacter(id))
    {
      charList := charList - {id};
    }

    method ReloadCharacter(id: int, tempResource: bool, readable: bool) returns (ok: bool)
      modifies this`charList
      ensures ok <==> readable && id in store
      ensures View() == Next(old(View()), Step.ReloadCharacter(id, tempResource, readable))
    {
      UnloadCharacter(id);
      ok := LoadCharacter(id, tempResource, readable);
    }

    method AddExternalCharacter(id: int, c: Character)
      modifies this`charList
      ensures View() == Next(old(View()), Step.AddExternal(id, c))
    {
      if id !in charList {
        charList := charList[id := c];
      }
    }

    method FirstExpired() returns (found: bool, id: int)
      ensures found ==> id in ExpiredIds(View())
      ensures !found ==> ExpiredIds(View()) == {}
    {
      var order := IdOrder.Ascending(charList.Keys);
      for i := 0 to |order|
        invariant forall j :: 0 <= j < i ==> order[j] !in ExpiredIds(View())
      {
        id := order[i];
        if charList[id].expireTime > 0 && now >= charList[id].expireTime {
          return true, id;
        }
      }
      forall k ensures k !in ExpiredIds(View()) {
        if k in charList { assert k in order; }
      }
      return false, 0;
    }

    /** Collects the first expired character in the list; true asks for another pass. */
    method RemoveSingleGarbage(ok: set<int>) returns (again: bool)
      modifies this`charList, this`store
      ensures again <==> ExpiredIds(old(View())) != {}
      ensures !again ==> View() == old(View())
      ensures again ==> exists id :: id in ExpiredIds(old(View())) && View() == Collected(old(View()), ok, id)
    {
      var found, id := FirstExpired();
      if !found {
        return false;
      }
      if charList[id].pendingChanges != 0 {
        var saved := SaveCharacter(id, id in ok);
        if !saved {
          return true;
        }
      }
      UnloadCharacter(id);
      return true;
    }

    /** The loop ends whatever the store answers. */
    method RemoveGarbageCharacters(ok: set<int>)
      modifies this`charList, this`store
      ensures View() == Next(old(View()), RemoveGarbage(ok))
    {
      var again := true;
      while again
        invariant now == old(now) && Garbage(View(), ok) == Garbage(old(View()), ok)
        invariant !again ==> ExpiredIds(View()) == {}
        decreases ExpiredIds(View()), again
      {
        ghost var s := View();
        again := RemoveSingleGarbage(ok);
        if again {
          ghost var id :| id in ExpiredIds(s) && View() == Collected(s, ok, id);
          CollectedIsProgress(s, ok, id);
        }
      }
      NothingToCollect(View(), ok);
    }

    /** At shutdown a failed save does not keep a character. */
    method RemoveSingleCharacter(ok: set<int>) returns (again: bool)
      modifies this`charList, this`store
      ensures again <==> old(charList) != map[]
      ensures !again ==> View() == old(View())
      ensures again ==> charList.Keys < old(charList).Keys
      ensures now == old(now) && SaveAll(View(), ok) == SaveAll(old(View()), ok)
    {
      if charList == map[] {
        return false;
      }
      var id := IdOrder.Least(charList.Keys);
      SaveAllStep(View(), ok, id);
      if charList[id].pendingChanges != 0 {
        var _ := SaveCharacter(id, id in ok);
      }
      UnloadCharacter(id);
      return true;
    }

    method UnloadAllCharacters(ok: set<int>)
      modifies this`charList, this`store
      ensures View() == Next(old(View()), UnloadAll(ok))
    {
      var again := true;
      while again
        invariant now == old(now) && SaveAll(View(), ok) == SaveAll(old(View()), ok)
        invariant !again ==> charList == map[]
        decreases charList.Keys, again
      {
        again := RemoveSingleCharacter(ok);
      }
      assert SaveAll(View(), ok).store == store;
    }
  }

  // ---- garbage --------------------------------------------------------------------------

  /** After a garbage run nothing is expired; what left was expired, and its changes, if it
      had any, are in the store; in-game characters and unexpired ones are untouched. */
  lemma GarbageExact(s: State, ok: set<int>, id: int)
    ensures ExpiredIds(Garbage(s, ok)) == {}
    ensures id in s.chars && id !in Garbage(s, ok).chars ==>
              IsExpired(s.chars[id], s.now) &&
              (s.chars[id].pendingChanges == 0 ||
               (id in Garbage(s, ok).store && Garbage(s, ok).store[id] == s.chars[id].content))
    ensures id in s.chars && !IsExpired(s.chars[id], s.now) ==>
              id in Garbage(s, ok).chars && Garbage(s, ok).chars[id] == s.chars[id]
    ensures id in s.chars && IsExpired(s.chars[id], s.now) && id in Garbage(s, ok).chars ==>
              Garbage(s, ok).chars[id].expireTime == s.now + TEMP_EXPIRE_TIME &&
              Garbage(s, ok).chars[id].content == s.chars[id].content &&
              Garbage(s, ok).chars[id].pendingChanges == s.chars[id].pendingChanges > 0
  {
  }

  // ---- permanence -----------------------------------------------------------------------

  ghost predicate Permanent(s: State, id: int) {
    id in s.chars && s.chars[id].expireTime == 0
  }

  predicate TakesOut(s: State, step: Step, id: int) {
    match step
    case UnloadCharacter(k) => k == id
    case UnloadAll(_) => true
    case ReloadCharacter(k, temp, readable) => k == id && (temp || !readable || id !in s.store)
    case _ => false
  }

  /** Only an explicit unload ends a permanent stay: no temporary request, save or garbage
      run does, whatever the time and whatever the store answers. */
  lemma PermanentStays(s: State, step: Step, id: int)
    requires Permanent(s, id)
    ensures Permanent(Next(s, step), id) <==> !TakesOut(s, step, id)
  {
  }

  ghost predicate NeverTakenOut(s: State, steps: seq<Step>, id: int)
    decreases |steps|
  {
    |steps| == 0 || (!TakesOut(s, steps[0], id) && NeverTakenOut(Next(s, steps[0]), steps[1..], id))
  }

  lemma {:induction false} RequestedPermanently(s: State, steps: seq<Step>, id: int, readable: bool)
    requires id in s.chars || (readable && id in s.store)
    requires NeverTakenOut(Next(s, Step.RequestCharacter(id, false, readable)), steps, id)
    ensures Permanent(Run(Next(s, Step.RequestCharacter(id, false, readable)), steps), id)
  {
    PermanentRun(Next(s, Step.RequestCharacter(id, false, readable)), steps, id);
  }

  lemma {:induction false} PermanentRun(s: State, steps: seq<Step>, id: int)
    requires Permanent(s, id) && NeverTakenOut(s, steps, id)
    ensures Permanent(Run(s, steps), id)
    decreases |steps|
  {
    if |steps| > 0 {
      PermanentStays(s, steps[0], id);
      PermanentRun(Next(s, steps[0]), steps[1..], id);
    }
  }

  // ---- durability -----------------------------------------------------------------------

  /** The content last given to each character along a run. */
  function Latest(s: State, latest: map<int, string>, step: Step): map<int, string> {
    match step
    case Edit(id, content) => if id in s.chars then latest[id := content] else latest
    case AddExternal(id, c) => if id in s.chars then latest else latest[id := c.content]
    case _ => latest
  }

  /** The latest content of a character is in the cache or, failing that, in the store; a
      cached character without pending changes is stored as it is. */
  ghost predicate Durable(s: State, latest: map<int, string>) {
    && (forall id :: id in latest ==>
          if id in s.chars then s.chars[id].content == latest[id]
          else id in s.store && s.store[id] == latest[id])
    && (forall id :: id in s.chars && s.chars[id].pendingChanges == 0 ==>
          id in s.store && s.store[id] == s.chars[id].content)
  }

  /** The steps that can drop changes: a forced unload or reload of a character whose content
      is not stored, and unloading everything while a needed write fails. */
  ghost predicate Drops(s: State, step: Step) {
    match step
    case UnloadCharacter(id) => id in s.chars && !IsStored(s, id)
    case ReloadCharacter(id, _, _) => id in s.chars && !IsStored(s, id)
    case UnloadAll(ok) => exists id :: id in s.chars && id !in ok && !IsStored(s, id)
    case AddExternal(id, c) => id !in s.chars && c.pendingChanges == 0 && !(id in s.store && s.store[id] == c.content)
    case _ => false
  }

  predicate IsStored(s: State, id: int)
    requires id in s.chars
  {
    id in s.store && s.store[id] == s.chars[id].content
  }

  ghost predicate Tracks(s: State, latest: map<int, string>) {
    s.chars.Keys <= latest.Keys
  }

  lemma DurableStep(s: State, latest: map<int, string>, step: Step)
    requires Durable(s, latest) && !Drops(s, step)
    ensures Durable(Next(s, step), Latest(s, latest, step))
  {
  }

  /** No change is lost along a run without forced unloads of unsaved characters, however
      many saves fail. */
  lemma {:induction false} NothingLost(s: State, latest: map<int, string>, steps: seq<Step>)
    requires Durable(s, latest) && NeverDrops(s, steps)
    ensures Durable(Run(s, steps), LatestRun(s, latest, steps))
    decreases |steps|
  {
    if |steps| > 0 {
      DurableStep(s, latest, steps[0]);
      NothingLost(Next(s, steps[0]), Latest(s, latest, steps[0]), steps[1..]);
    }
  }

  ghost predicate NeverDrops(s: State, steps: seq<Step>)
    decreases |steps|
  {
    |steps| == 0 || (!Drops(s, steps[0]) && NeverDrops(Next(s, steps[0]), steps[1..]))
  }

  function LatestRun(s: State, latest: map<int, string>, steps: seq<Step>): map<int, string>
    decreases |steps|
  {
    if |steps| == 0 then latest
    else LatestRun(Next(s, steps[0]), Latest(s, latest, steps[0]), steps[1..])
  }

  /** A dropping step does lose: where every cached character is tracked, durability survives
      a step exactly when it drops nothing. */
  lemma DurableIff(s: State, latest: map<int, string>, step: Step)
    requires Durable(s, latest) && Tracks(s, latest)
    ensures Durable(Next(s, step), Latest(s, latest, step)) <==> !Drops(s, step)
  {
    if !Drops(s, step) {
      DurableStep(s, latest, step);
    } else {
      match step
      case UnloadCharacter(id) => assert id in latest;
      case ReloadCharacter(id, _, _) => assert id in latest;
      case UnloadAll(ok) =>
        var id :| id in s.chars && id !in ok && !IsStored(s, id);
        assert id in latest && id !in Next(s, step).chars;
      case AddExternal(id, c) => assert id in Next(s, step).chars;
    }
  }

  // ---- single steps ---------------------------------------------------------------------

  /** A request finds or loads the character. A permanent one ends its expiry; a temporary one
      puts it 20 seconds ahead, unless the character is in the game. */
  lemma RequestSets(s: State, id: int, temp: bool, readable: bool)
    ensures var t := Next(s, Step.RequestCharacter(id, temp, readable));
            && (id in t.chars <==> id in s.chars || (readable && id in s.store))
            && t.store == s.store && t.chars - {id} == s.chars - {id}
            && (id in t.chars ==>
                  var c := t.chars[id];
                  && c.expireTime == (if !temp || (id in s.chars && s.chars[id].expireTime == 0) then 0 else s.now + 20000)
                  && (id in s.chars ==> c.content == s.chars[id].content && c.pendingChanges == s.chars[id].pendingChanges)
                  && (id !in s.chars ==> c.content == s.store[id] && c.pendingChanges == 0))
  {
    var t := Next(s, Step.RequestCharacter(id, temp, readable));
    assert t.chars - {id} == s.chars - {id};
  }

  /** Looking a character up puts a temporary stay 20 seconds ahead and changes nothing else. */
  lemma LookupExtends(s: State, id: int)
    ensures var t := Next(s, GetPointer(id));
            && t.store == s.store && t.now == s.now
            && (id !in s.chars ==> t.chars == s.chars)
            && (id in s.chars ==>
                  t.chars == s.chars[id := Character(s.chars[id].content, s.chars[id].pendingChanges,
                                                     if s.chars[id].expireTime == 0 then 0 else s.now + 20000)])
  {
  }

  /** A save that succeeds stores the content and clears the changes; in any case the character
      has been looked up. */
  lemma SaveStores(s: State, id: int, ok: bool)
    ensures var t, looked := Next(s, SaveCharacter(id, ok)), Next(s, GetPointer(id));
            if ok && id in s.chars then
              && t.store == s.store[id := s.chars[id].content]
              && t.chars == looked.chars[id := Character(s.chars[id].content, 0, looked.chars[id].expireTime)]
            else t == looked
  {
  }

  /** A character is garbage once its expiry, if it has one, has come. */
  lemma GarbageIff(s: State, id: int)
    ensures id in ExpiredIds(s) <==> id in s.chars && s.chars[id].expireTime != 0 && s.chars[id].expireTime <= s.now
  {
  }

  /** Unloading everything empties the cache; of the store, exactly the entries of characters
      with changes whose write succeeded are replaced. */
  lemma UnloadAllStores(s: State, ok: set<int>, id: int)
    ensures var t := Next(s, UnloadAll(ok));
            && t.chars == map[]
            && (id in t.store <==> id in s.store || (id in s.chars && s.chars[id].pendingChanges != 0 && id in ok))
            && (id in t.store ==>
                  t.store[id] == if id in s.chars && s.chars[id].pendingChanges != 0 && id in ok then s.chars[id].content
                                 else s.store[id])
  {
  }

  /** A garbage run writes exactly the expired characters with changes that can be written. */
  lemma GarbageStores(s: State, ok: set<int>, id: int)
    ensures var t := Next(s, RemoveGarbage(ok));
            var written := id in s.chars && s.chars[id].expireTime != 0 && s.chars[id].expireTime <= s.now &&
                           s.chars[id].pendingChanges != 0 && id in ok;
            && (id in t.store <==> id in s.store || written)
            && (id in t.store ==> t.store[id] == if written then s.chars[id].content else s.store[id])
  {
  }
}
