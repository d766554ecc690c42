/** An account's character slots and the cache of its characters shown at selection. */
module AccountSlots {
  import opened Common

  const MAX_CHARACTER_SLOTS := 8
  const DEFAULT_CHARACTER_SLOTS := 4
  const DEFAULT_CHARACTER_ID := -400000000
  const CHARACTER_ID_INCREMENT := -8

  const CHARACTER_SUCCESS := 0
  const CHARACTER_INVQUERY := -1
  const CHARACTER_NOSLOTS := -2
  const CHARACTER_FIRSTINV := -3

  datatype CacheEntry = CacheEntry(creatureDefID: int, name: string)

  /** `counter` is the cluster-wide source of character IDs. */
  datatype State = State(slots: seq<int>, max: int, cache: seq<CacheEntry>, counter: int)

  function FirstFree(slots: seq<int>, a: nat, max: int): (r: int)
    requires max <= |slots|
    ensures r == -1 || (a <= r < max && slots[r] == 0)
    ensures forall i :: a <= i < (if r == -1 then max else r) ==> slots[i] != 0
    decreases max - a
  {
    if a >= max then -1 else if slots[a] == 0 then a else FirstFree(slots, a + 1, max)
  }

  /** A creation request as far as it matters here: enough arguments, the result of checking
      the name, a name reserved for others, and whether the store hands out an ID. */
  datatype Request = Request(complete: bool, nameCheck: int, reserved: bool, answered: bool, name: string)

  function Refusal(s: State, r: Request): int
    requires s.max <= |s.slots|
  {
    if !r.complete then CHARACTER_INVQUERY
    else if FirstFree(s.slots, 0, s.max) < 0 then CHARACTER_NOSLOTS
    else if r.nameCheck != CHARACTER_SUCCESS then r.nameCheck
    else if r.reserved then CHARACTER_FIRSTINV
    else CHARACTER_SUCCESS
  }

  /** A store that does not answer yields the ID 0. */
  function NewID(s: State, r: Request): int {
    if r.answered then s.counter + CHARACTER_ID_INCREMENT else 0
  }

  function Create(s: State, r: Request): State
    requires s.max <= |s.slots|
  {
    if Refusal(s, r) != CHARACTER_SUCCESS then s
    else
      var id := NewID(s, r);
      s.(slots := s.slots[FirstFree(s.slots, 0, s.max) := id],
         cache := s.cache + [CacheEntry(id, r.name)],
         counter := if r.answered then id else s.counter)
  }

  function EntryOf(cache: seq<CacheEntry>, id: int): (r: nat)
    ensures r <= |cache| && (r < |cache| ==> cache[r].creatureDefID == id)
    ensures forall i :: 0 <= i < r ==> cache[i].creatureDefID != id
  {
    FirstWhere(cache, (e: CacheEntry) => e.creatureDefID == id)
  }

  function WithoutEntry(cache: seq<CacheEntry>, id: int): seq<CacheEntry> {
    var i := EntryOf(cache, id);
    if i < |cache| then cache[..i] + cache[i + 1..] else cache
  }

  function Delete(s: State, index: int): State
    requires |s.slots| == MAX_CHARACTER_SLOTS
  {
    if !(0 <= index < MAX_CHARACTER_SLOTS) || s.slots[index] == 0 then s
    else s.(slots := s.slots[..index] + s.slots[index + 1..] + [0], cache := WithoutEntry(s.cache, s.slots[index]))
  }

  function Expand(s: State): State {
    if s.max < MAX_CHARACTER_SLOTS then s.(max := s.max + 1) else s
  }

  // ---- the account ----------------------------------------------------------------------

  class Account {
    const CharacterSet: array<int>
    var MaxCharacters: int
    var cacheData: seq<CacheEntry>
    var nextCharacterID: int

    ghost predicate Valid()
      reads this
    {
      CharacterSet.Length == MAX_CHARACTER_SLOTS && MaxCharacters <= MAX_CHARACTER_SLOTS
    }

    ghost function View(): State
      reads this, CharacterSet
    {
      State(CharacterSet[..], MaxCharacters, cacheData, nextCharacterID)
    }

    constructor ()
      ensures Valid() && fresh(CharacterSet)
      ensures View() == State(seq(MAX_CHARACTER_SLOTS, _ => 0), DEFAULT_CHARACTER_SLOTS, [], DEFAULT_CHARACTER_ID)
    {
      CharacterSet := new int[MAX_CHARACTER_SLOTS](_ => 0);
      MaxCharacters, cacheData, nextCharacterID := DEFAULT_CHARACTER_SLOTS, [], DEFAULT_CHARACTER_ID;
      new;
      assert CharacterSet[..] == seq(MAX_CHARACTER_SLOTS, _ => 0);
    }

    method GetFreeCharacterSlot() returns (r: int)
      requires Valid()
      ensures r == FirstFree(CharacterSet[..], 0, MaxCharacters)
    {
      var a := 0;
      while a < MaxCharacters
        invariant 0 <= a && FirstFree(CharacterSet[..], 0, MaxCharacters) == FirstFree(CharacterSet[..], a, MaxCharacters)
      {
        if CharacterSet[a] == 0 {
          return a;
        }
        a := a + 1;
      }
      return -1;
    }

    method CreateCharacter(q: Request) returns (r: int)
      requires Valid()
      modifies this, CharacterSet
      ensures Valid() && View() == Create(old(View()), q)
      ensures r == if Refusal(old(View()), q) == CHARACTER_SUCCESS
                   then FirstFree(old(CharacterSet[..]), 0, MaxCharacters) else Refusal(old(View()), q)
    {
      if !q.complete {
        return CHARACTER_INVQUERY;
      }
      r := GetFreeCharacterSlot();
      if r < 0 {
        return CHARACTER_NOSLOTS;
      }
      if q.nameCheck != CHARACTER_SUCCESS {
        return q.nameCheck;
      }
      if q.reserved {
        return CHARACTER_FIRSTINV;
      }
      var newID := 0;
      if q.answered {
        nextCharacterID := nextCharacterID + CHARACTER_ID_INCREMENT;
        newID := nextCharacterID;
      }
      CharacterSet[r] := newID;
      cacheData := cacheData + [CacheEntry(newID, q.name)];
    }

    method RemoveCharacter(id: int)
      modifies this`cacheData
      ensures cacheData == WithoutEntry(old(cacheData), id)
    {
      for i := 0 to |cacheData|
        invariant cacheData == old(cacheData)
        invariant forall j :: 0 <= j < i ==> cacheData[j].creatureDefID != id
      {
        if cacheData[i].creatureDefID == id {
          assert EntryOf(cacheData, id) == i;
          cacheData := cacheData[..i] + cacheData[i + 1..];
          return;
        }
      }
    }

    method DeleteCharacter(index: int)
      requires Valid()
      modifies this`cacheData, CharacterSet
      ensures Valid() && View() == Delete(old(View()), index)
    {
      if !(0 <= index < MAX_CHARACTER_SLOTS) {
        return;
      }
      var id := CharacterSet[index];
      if id == 0 {
        return;
      }
      ghost var was := CharacterSet[..];
      for i := index to MAX_CHARACTER_SLOTS - 1
        invariant cacheData == old(cacheData)
        invariant forall j :: 0 <= j < index ==> CharacterSet[j] == was[j]
        invariant forall j :: index <= j < i ==> CharacterSet[j] == was[j + 1]
        invariant forall j :: i <= j < MAX_CHARACTER_SLOTS ==> CharacterSet[j] == was[j]
      {
        CharacterSet[i] := CharacterSet[i + 1];
      }
      CharacterSet[MAX_CHARACTER_SLOTS - 1] := 0;
      assert CharacterSet[..] == was[..index] + was[index + 1..] + [0];
      RemoveCharacter(id);
    }

    method ExpandCharacterSlots() returns (expanded: bool)
      requires Valid()
      modifies this`MaxCharacters
      ensures Valid() && View() == Expand(old(View())) && (expanded <==> old(MaxCharacters) < MAX_CHARACTER_SLOTS)
    {
      expanded := MaxCharacters < MAX_CHARACTER_SLOTS;
      if expanded {
        MaxCharacters := MaxCharacters + 1;
      }
    }
  }

  // ---- slots and cache agree ------------------------------------------------------------

  /** The slots are the cached characters in order, then zeros; IDs are distinct, not zero and
      not yet to be handed out. */
  ghost predicate Agree(s: State) {
    && |s.slots| == MAX_CHARACTER_SLOTS && |s.cache| <= s.max <= MAX_CHARACTER_SLOTS && s.counter < 0
    && (forall i :: 0 <= i < |s.cache| ==> s.slots[i] == s.cache[i].creatureDefID)
    && (forall i :: |s.cache| <= i < MAX_CHARACTER_SLOTS ==> s.slots[i] == 0)
    && (forall i :: 0 <= i < |s.cache| ==> s.counter <= s.slots[i] < 0)
    && (forall i, j :: 0 <= i < j < |s.cache| ==> s.slots[i] != s.slots[j])
  }

  datatype Step = CreateStep(r: Request) | DeleteStep(index: int) | ExpandStep | OtherAccount

  /** Characters created on other accounts move the counter too. */
  function Next(s: State, step: Step): State
    requires Agree(s)
  {
    match step
    case CreateStep(r) => Create(s, r)
    case DeleteStep(index) => Delete(s, index)
    case ExpandStep => Expand(s)
    case OtherAccount => s.(counter := s.counter + CHARACTER_ID_INCREMENT)
  }

  lemma FreeIsNext(s: State)
    requires Agree(s)
    ensures FirstFree(s.slots, 0, s.max) == if |s.cache| < s.max then |s.cache| else -1
  {
    assert |s.cache| < s.max ==> s.slots[|s.cache|] == 0;
  }

  /** Creating keeps the agreement exactly when the request is refused or the store hands out
      an ID: an unanswered request puts a character with ID 0 in the cache but in no slot. */
  lemma CreateAgreesIff(s: State, r: Request)
    requires Agree(s)
    ensures Agree(Create(s, r)) <==> Refusal(s, r) != CHARACTER_SUCCESS || r.answered
  {
    FreeIsNext(s);
    var t := Create(s, r);
    if Refusal(s, r) == CHARACTER_SUCCESS && !r.answered {
      assert t.cache[|s.cache|].creatureDefID == 0;
    }
  }

  /** One unanswered creation on a new account: the character is in the cache and in no slot. */
  lemma UnansweredCreate(name: string)
    ensures var s := State(seq(MAX_CHARACTER_SLOTS, _ => 0), DEFAULT_CHARACTER_SLOTS, [], DEFAULT_CHARACTER_ID);
            var t := Create(s, Request(true, CHARACTER_SUCCESS, false, false, name));
            && Agree(s) && t.slots == s.slots && t.cache == [CacheEntry(0, name)] && !Agree(t)
  {
    var s := State(seq(MAX_CHARACTER_SLOTS, _ => 0), DEFAULT_CHARACTER_SLOTS, [], DEFAULT_CHARACTER_ID);
    var r := Request(true, CHARACTER_SUCCESS, false, false, name);
    CreateAgreesIff(s, r);
    FreeIsNext(s);
    assert s.slots[0 := 0] == s.slots;
  }

  lemma DeleteAgrees(s: State, index: int)
    requires Agree(s)
    ensures Agree(Delete(s, index))
    ensures 0 <= index < |s.cache| ==> Delete(s, index).cache == s.cache[..index] + s.cache[index + 1..]
    ensures !(0 <= index < |s.cache|) ==> Delete(s, index) == s
  {
    if 0 <= index < |s.cache| {
      var k := EntryOf(s.cache, s.slots[index]);
      assert k == index;
      ShiftAgrees(s, Delete(s, index), index);
    }
  }

  lemma ShiftAgrees(s: State, t: State, index: nat)
    requires Agree(s) && index < |s.cache| && t.max == s.max && t.counter == s.counter
    requires t.slots == s.slots[..index] + s.slots[index + 1..] + [0]
    requires t.cache == s.cache[..index] + s.cache[index + 1..]
    ensures Agree(t)
  {
    forall i | 0 <= i < |t.cache|
      ensures t.slots[i] == s.slots[if i < index then i else i + 1]
      ensures t.cache[i] == s.cache[if i < index then i else i + 1]
    {}
  }

  function Run(s: State, steps: seq<Step>): State
    requires Agree(s) && forall i :: 0 <= i < |steps| && steps[i].CreateStep? ==> steps[i].r.answered
    ensures Agree(Run(s, steps))
  {
    if |steps| == 0 then s
    else
      var before := Run(s, steps[..|steps| - 1]);
      var step := steps[|steps| - 1];
      assert step.CreateStep? ==> step.r.answered;
      assert Agree(Next(before, step)) by { StepAgrees(before, step); }
      Next(before, step)
  }

  lemma StepAgrees(s: State, step: Step)
    requires Agree(s) && (step.CreateStep? ==> step.r.answered)
    ensures Agree(Next(s, step))
  {
    match step
    case CreateStep(r) => CreateAgreesIff(s, r);
    case DeleteStep(index) => DeleteAgrees(s, index);
    case ExpandStep =>
    case OtherAccount =>
  }

  /** Deleting the character just created gives back the slots and the cache. */
  lemma DeleteUndoesCreate(s: State, r: Request)
    requires Agree(s) && Refusal(s, r) == CHARACTER_SUCCESS && r.answered
    ensures var t := Delete(Create(s, r), FirstFree(s.slots, 0, s.max));
            t.slots == s.slots && t.cache == s.cache
  {
    FreeIsNext(s);
    CreateAgreesIff(s, r);
    var t, n := Create(s, r), |s.cache|;
    DeleteAgrees(t, n);
    assert t.cache[..n] + t.cache[n + 1..] == s.cache;
    assert t.slots[..n] + t.slots[n + 1..] + [0] == s.slots;
  }

  // ---- single steps ---------------------------------------------------------------------

  /** The refusals, in order: too few arguments, no free slot, a bad name, a reserved name. */
  lemma RefusedBecause(s: State, r: Request)
    requires Agree(s)
    ensures Refusal(s, r) ==
            if !r.complete then -1
            else if |s.cache| >= s.max then -2
            else if r.nameCheck != 0 then r.nameCheck
            else if r.reserved then -3 else 0
    ensures Refusal(s, r) != 0 ==> Create(s, r) == s
  {
    FreeIsNext(s);
  }

  /** A new character takes the next slot and the ID eight below the last one handed out. */
  lemma CreateTakesNext(s: State, r: Request)
    requires Agree(s) && Refusal(s, r) == 0 && r.answered
    ensures var t := Create(s, r);
            && t.counter == s.counter - 8 && t.max == s.max
            && t.cache == s.cache + [CacheEntry(s.counter - 8, r.name)]
            && t.slots == s.slots[|s.cache| := s.counter - 8]
  {
    FreeIsNext(s);
  }

  /** Slots are added one at a time, up to eight, and nothing else changes. */
  lemma ExpandAddsOne(s: State)
    ensures Expand(s) == State(s.slots, if s.max < 8 then s.max + 1 else s.max, s.cache, s.counter)
  {
  }
}
