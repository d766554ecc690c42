/** AbilityCalculator: parried melee attacks queue retaliations, which are performed after the
    ability has finished and must not queue retaliations of their own. */
module ImplicitActions {

  const INTEGRAL_FRACTION_TOTAL := 1000
  const ABILITY_SUCCESS := 0
  const ABILITY_NOT_FOUND := 1
  const ABILITY_BAD_EVENT := 2

  datatype EventType = OnIterate | OnParry | OnRequest | OnActivate | OnDeactivate

  /** An action a creature has registered for an event, such as an ability it uses on a parry. */
  datatype Implicit = Implicit(eventType: EventType, abilityID: int)

  /** `parryChance` in thousandths; a stunned or dazed creature is not reactive. */
  datatype Creature = Creature(id: int, reactive: bool, parryChance: int, implicitActions: seq<Implicit>)

  datatype Action = Action(source: Creature, target: Creature, eventType: EventType, abilityID: int, damage: int)

  /** A call of ActivateImplicit and the damage it answers. */
  datatype Retaliation = Retaliation(striker: Creature, against: Creature, abilityID: int, damage: int)

  /** A parried attack. */
  datatype Parry = Parry(source: Creature, target: Creature, damage: int)

  /** The functions of an ability, as far as they matter here. A function that ends a buff
      activates the buff's ability for its deactivation, in the middle of the one that runs:
      `Nested`, with the creature that had the buff, its targets, and what its ability does. */
  datatype Function =
    | Melee(amount: int)
    | Nested(source: Creature, targets: seq<Creature>, functions: seq<Function>)
    | Other

  type Abilities = map<int, map<EventType, seq<Function>>>

  /** The actions that `target` has registered for the event, in its order. */
  function Triggered(source: Creature, target: Creature, implicits: seq<Implicit>, eventType: EventType,
                     damage: int): seq<Action> {
    if |implicits| == 0 then []
    else
      var n := |implicits| - 1;
      Triggered(source, target, implicits[..n], eventType, damage) +
      if implicits[n].eventType != eventType then []
      else [Action(source, target, eventType, implicits[n].abilityID, if eventType == OnParry then damage else 0)]
  }

  /** What a list of parries provokes, each from the creature that parried. */
  function Provocations(parries: seq<Parry>): seq<Action> {
    if |parries| == 0 then []
    else Provocations(parries[..|parries| - 1]) + Provocation(parries[|parries| - 1])
  }

  function Provocation(p: Parry): seq<Action> {
    Triggered(p.source, p.target, p.target.implicitActions, OnParry, p.damage)
  }

  lemma {:induction false} ProvocationsAppend(a: seq<Parry>, b: seq<Parry>)
    ensures Provocations(a + b) == Provocations(a) + Provocations(b)
  {
    if |b| == 0 {
      assert a + b == a;
    } else {
      var front, p := b[..|b| - 1], b[|b| - 1];
      ProvocationsAppend(a, front);
      ProvocationsAppendOne(a, front, p);
      assert b == front + [p];
    }
  }

  lemma ProvocationsAppendOne(a: seq<Parry>, b: seq<Parry>, p: Parry)
    requires Provocations(a + b) == Provocations(a) + Provocations(b)
    ensures Provocations(a + (b + [p])) == Provocations(a) + Provocations(b + [p])
  {
    Regroup(a, b, [p]);
    ProvocationsSnoc(a + b, p);
    ProvocationsSnoc(b, p);
    Regroup(Provocations(a), Provocations(b), Provocation(p));
  }

  lemma ProvocationsSnoc(a: seq<Parry>, p: Parry)
    ensures Provocations(a + [p]) == Provocations(a) + Provocation(p)
  {
    assert (a + [p])[..|a|] == a;
  }

  lemma Regroup<T>(a: seq<T>, b: seq<T>, c: seq<T>)
    ensures a + b + c == a + (b + c)
  {
  }

  /** Queueing for `ps` and then for `qs` is queueing for both. */
  lemma QueueBoth(queue: seq<Action>, log: seq<Parry>, ps: seq<Parry>, qs: seq<Parry>)
    ensures queue + Provocations(ps) + Provocations(qs) == queue + Provocations(ps + qs)
    ensures log + ps + qs == log + (ps + qs)
    ensures forall p :: p in ps + qs <==> p in ps || p in qs
  {
    ProvocationsAppend(ps, qs);
    Regroup(queue, Provocations(ps), Provocations(qs));
  }

  // ---- who takes part -------------------------------------------------------------------

  ghost predicate Flat(fs: seq<Function>) {
    forall i :: 0 <= i < |fs| ==> !fs[i].Nested?
  }

  /** No function hits anybody, directly or in an ability it activates. */
  ghost predicate Quiet(fs: seq<Function>) {
    |fs| == 0 ||
    (Quiet(fs[1..]) &&
     match fs[0]
     case Melee(_) => false
     case Nested(_, _, inner) => Quiet(inner)
     case Other => true)
  }

  /** The creatures whose abilities are activated on the way. */
  ghost function Sources(fs: seq<Function>): set<Creature> {
    if |fs| == 0 then {}
    else Sources(fs[1..]) + match fs[0]
      case Nested(source, _, inner) => {source} + Sources(inner)
      case _ => {}
  }

  /** The creatures those abilities aim at. */
  ghost function Victims(fs: seq<Function>): set<Creature> {
    if |fs| == 0 then {}
    else Victims(fs[1..]) + match fs[0]
      case Nested(_, targets, inner) => (set c | c in targets) + Victims(inner)
      case _ => {}
  }

  lemma {:induction false} NestedAt(fs: seq<Function>, i: nat)
    requires i < |fs|
    ensures fs[i].Nested? ==>
              && fs[i].source in Sources(fs) && Sources(fs[i].functions) <= Sources(fs)
              && (forall c :: c in fs[i].targets ==> c in Victims(fs)) && Victims(fs[i].functions) <= Victims(fs)
    ensures Quiet(fs) ==> !fs[i].Melee? && (fs[i].Nested? ==> Quiet(fs[i].functions))
  {
    if i > 0 {
      NestedAt(fs[1..], i - 1);
    }
  }

  lemma {:induction false} FlatHasNone(fs: seq<Function>)
    requires Flat(fs)
    ensures Sources(fs) == {} && Victims(fs) == {}
  {
    if |fs| > 0 {
      FlatHasNone(fs[1..]);
    }
  }

  /** Performing a queue: each parry is answered once, in order, by the creature that was hit
      against the one that hit it. Other events are not performed. */
  function Retaliations(actions: seq<Action>): seq<Retaliation> {
    if |actions| == 0 then []
    else
      var n := |actions| - 1;
      Retaliations(actions[..n]) +
      if actions[n].eventType != OnParry then []
      else [Retaliation(actions[n].target, actions[n].source, actions[n].abilityID, actions[n].damage)]
  }

  class AbilityCalculator {
    const abilities: Abilities
    var ciSource: Creature
    var ciTarget: Creature
    var mImplicitActions: seq<Action>
    var mImplicitInProgress: bool
    var mImplicitMeleeDamage: int
    var mIsParried: bool
    var performed: seq<Retaliation>
    /** The parries so far, but for those of retaliations. */
    ghost var parries: seq<Parry>

    constructor (abilities: Abilities, nobody: Creature)
      ensures this.abilities == abilities && Idle() && performed == [] && parries == []
    {
      this.abilities := abilities;
      ciSource, ciTarget := nobody, nobody;
      mImplicitActions, mImplicitInProgress, mImplicitMeleeDamage := [], false, 0;
      mIsParried, performed, parries := false, [], [];
    }

    ghost predicate Idle()
      reads this
    {
      mImplicitActions == [] && !mImplicitInProgress
    }

    /** Nothing is queued while implicit actions are being performed. */
    method RegisterTargetImplicitActions(eventType: EventType, damage: int)
      modifies this`mImplicitActions
      ensures mImplicitActions == old(mImplicitActions) +
                if mImplicitInProgress then []
                else Triggered(ciSource, ciTarget, ciTarget.implicitActions, eventType, damage)
    {
      if mImplicitInProgress {
        return;
      }
      var registered := ciTarget.implicitActions;
      for i := 0 to |registered|
        invariant mImplicitActions ==
                  old(mImplicitActions) + Triggered(ciSource, ciTarget, registered[..i], eventType, damage)
      {
        assert registered[..i + 1][..i] == registered[..i];
        if registered[i].eventType == eventType {
          var newAction := Action(ciSource, ciTarget, eventType, registered[i].abilityID,
                                  if eventType == OnParry then damage else 0);
          mImplicitActions := mImplicitActions + [newAction];
        }
      }
      assert registered[..|registered|] == registered;
    }

    /** The current target parries an attack, with `rnd` the number drawn from 1 to 1000. */
    predicate Parries(amount: int, rnd: int)
      reads this
    {
      amount != 0 && ciTarget.reactive && rnd <= ciTarget.parryChance
    }

    /** Exactly what the parries `ps` provoke has been queued; parries of retaliations provoke
        nothing. */
    twostate predicate Answered(new ps: seq<Parry>)
      reads this
    {
      && (mImplicitInProgress ==> ps == [])
      && parries == old(parries) + ps && mImplicitActions == old(mImplicitActions) + Provocations(ps)
    }

    method ApplyParryChance(amount: int, rnd: int) returns (left: int, ghost ps: seq<Parry>)
      requires 1 <= rnd <= INTEGRAL_FRACTION_TOTAL
      modifies this`mImplicitActions, this`mIsParried, this`parries
      ensures left == if amount != 0 && ciTarget.reactive && rnd <= ciTarget.parryChance then 0 else amount
      ensures mIsParried <==> old(mIsParried) || Parries(amount, rnd)
      ensures ps == if Parries(amount, rnd) && !mImplicitInProgress then [Parry(ciSource, ciTarget, amount)] else []
      ensures Answered(ps)
    {
      left, ps := amount, [];
      if amount == 0 || !ciTarget.reactive {
        return;
      }
      if ciTarget.parryChance > 0 {
        if rnd <= ciTarget.parryChance {
          RegisterTargetImplicitActions(OnParry, amount);
          if !mImplicitInProgress {
            ps := [Parry(ciSource, ciTarget, amount)];
            assert ps[..0] == [];
            parries := parries + ps;
          }
          mIsParried := true;
          left := 0;
        }
      }
    }

    /** Misses, armour and blocks may change the amount before the parry is rolled. */
    method DoMeleeDamage(amount: int) returns (ghost ps: seq<Parry>)
      modifies this`mImplicitActions, this`mIsParried, this`parries
      ensures Answered(ps) && Involves(ps, {ciSource}, {ciTarget})
    {
      var dealt: int := *;
      var rnd :| 1 <= rnd <= INTEGRAL_FRACTION_TOTAL;
      var _, qs := ApplyParryChance(dealt, rnd);
      ps := qs;
    }

    /** A nested ability leaves the calculator pointing at its own source and last target. */
    method RunFunction(functions: seq<Function>, f: nat) returns (result: int, ghost ps: seq<Parry>)
      requires f < |functions|
      modifies this
      ensures Untouched() && Answered(ps)
      ensures ciSource in {old(ciSource)} + Sources(functions) && ciTarget in {old(ciTarget)} + Victims(functions)
      ensures Involves(ps, {old(ciSource)} + Sources(functions), {old(ciTarget)} + Victims(functions))
      ensures Quiet(functions) ==> ps == []
      decreases functions, 0
    {
      result, ps := *, [];
      NestedAt(functions, f);
      match functions[f] {
        case Melee(amount) =>
          ps := DoMeleeDamage(amount);
          result := ABILITY_SUCCESS;
        case Nested(source, targets, inner) =>
          ps := ActivateAbility(source, targets, inner);
        case Other =>
      }
    }

    /** What running functions leaves alone. */
    twostate predicate Untouched()
      reads this
    {
      && mImplicitInProgress == old(mImplicitInProgress) && mImplicitMeleeDamage == old(mImplicitMeleeDamage)
      && performed == old(performed)
    }

    method ResetState()
      modifies this`mIsParried
      ensures !mIsParried
    {
      mIsParried := false;
    }

    method ActivateImplicit(striker: Creature, against: Creature, abilityID: int, eventType: EventType) returns (code: int)
      modifies this
      ensures mImplicitInProgress == old(mImplicitInProgress) && mImplicitMeleeDamage == old(mImplicitMeleeDamage)
      ensures performed == old(performed) + [Retaliation(striker, against, abilityID, mImplicitMeleeDamage)]
      ensures mImplicitInProgress ==> mImplicitActions == old(mImplicitActions) && parries == old(parries)
      ensures code == ABILITY_NOT_FOUND <== abilityID !in abilities
    {
      performed := performed + [Retaliation(striker, against, abilityID, mImplicitMeleeDamage)];
      if abilityID !in abilities {
        return ABILITY_NOT_FOUND;
      }
      if eventType !in abilities[abilityID] {
        return ABILITY_BAD_EVENT;
      }
      var functions := abilities[abilityID][eventType];
      ciSource := striker;
      ResetState();
      ciTarget := against;
      for f := 0 to |functions|
        invariant mImplicitInProgress == old(mImplicitInProgress) && mImplicitMeleeDamage == old(mImplicitMeleeDamage)
        invariant performed == old(performed) + [Retaliation(striker, against, abilityID, mImplicitMeleeDamage)]
        invariant mImplicitInProgress ==> mImplicitActions == old(mImplicitActions) && parries == old(parries)
      {
        var pass: bool := *;
        if pass {
          var result, _ := RunFunction(functions, f);
          if result != ABILITY_SUCCESS {
            return result;
          }
        }
      }
      return 0;
    }

    /** Whatever the rolls, each queued parry is answered exactly once and in order, nothing is
        queued meanwhile, and the calculator ends idle. */
    method RunImplicitActions()
      requires !mImplicitInProgress
      modifies this
      ensures Idle() && performed == old(performed) + Retaliations(old(mImplicitActions)) && parries == old(parries)
    {
      var count := |mImplicitActions|;
      if count == 0 {
        return;
      }
      mImplicitInProgress := true;
      for i := 0 to count
        invariant mImplicitInProgress && mImplicitActions == old(mImplicitActions) && parries == old(parries)
        invariant performed == old(performed) + Retaliations(mImplicitActions[..i])
      {
        var action := mImplicitActions[i];
        assert mImplicitActions[..i + 1][..i] == mImplicitActions[..i];
        if action.eventType == OnParry {
          mImplicitMeleeDamage := action.damage;
          ciTarget := action.source;
          var _ := ActivateImplicit(action.target, action.source, action.abilityID, OnParry);
        }
      }
      assert mImplicitActions[..count] == mImplicitActions;
      mImplicitActions := [];
      mImplicitInProgress := false;
    }

    /** An ability against its targets. Its attacks, and those of abilities activated on the
        way, queue exactly what they provoke, behind what an earlier ability may have left in
        the queue. An ability that activates no other is parried by its targets alone, and its
        own source is answered. */
    method ActivateAbility(source: Creature, targets: seq<Creature>, functions: seq<Function>)
      returns (ghost ps: seq<Parry>)
      modifies this
      ensures Untouched() && Answered(ps)
      ensures ciSource in {source} + Sources(functions)
      ensures ciTarget in {old(ciTarget)} + (set c | c in targets) + Victims(functions)
      ensures Involves(ps, {source} + Sources(functions), (set c | c in targets) + Victims(functions))
      ensures Flat(functions) ==> Involves(ps, {source}, set c | c in targets)
      ensures Quiet(functions) ==> ps == []
      decreases functions, 2
    {
      ciSource, ps := source, [];
      ghost var sources, victims := {source} + Sources(functions), (set c | c in targets) + Victims(functions);
      for t := 0 to |targets|
        invariant Untouched() && Answered(ps)
        invariant ciSource in sources && ciTarget in {old(ciTarget)} + victims
        invariant Involves(ps, sources, victims)
        invariant Quiet(functions) ==> ps == []
      {
        ResetState();
        ciTarget := targets[t];
        var stop, qs := RunFunctions(functions);
        QueueBoth(old(mImplicitActions), old(parries), ps, qs);
        ps := ps + qs;
        if stop {
          break;
        }
      }
      if Flat(functions) {
        FlatHasNone(functions);
        assert sources == {source} && victims == set c | c in targets;
      }
    }

    /** An ability, and then the retaliations: what is performed is what was left in the queue
        and what every parry of this ability provoked, in order. */
    method CallAbility(source: Creature, targets: seq<Creature>, functions: seq<Function>)
      returns (ghost ps: seq<Parry>)
      requires !mImplicitInProgress
      modifies this
      ensures Idle() && parries == old(parries) + ps
      ensures performed == old(performed) + Retaliations(old(mImplicitActions)) + Retaliations(Provocations(ps))
      ensures Involves(ps, {source} + Sources(functions), (set c | c in targets) + Victims(functions))
      ensures Flat(functions) ==> Involves(ps, {source}, set c | c in targets)
      ensures Quiet(functions) ==> ps == []
    {
      ps := ActivateAbility(source, targets, functions);
      RetaliationsAppend(old(mImplicitActions), Provocations(ps));
      RunImplicitActions();
    }

    method RunFunctions(functions: seq<Function>) returns (stop: bool, ghost ps: seq<Parry>)
      modifies this
      ensures Untouched() && Answered(ps)
      ensures ciSource in {old(ciSource)} + Sources(functions) && ciTarget in {old(ciTarget)} + Victims(functions)
      ensures Involves(ps, {old(ciSource)} + Sources(functions), {old(ciTarget)} + Victims(functions))
      ensures Quiet(functions) ==> ps == []
      decreases functions, 1
    {
      stop, ps := false, [];
      ghost var sources, victims := {ciSource} + Sources(functions), {ciTarget} + Victims(functions);
      for f := 0 to |functions|
        invariant Untouched() && Answered(ps)
        invariant ciSource in sources && ciTarget in victims && Involves(ps, sources, victims)
        invariant Quiet(functions) ==> ps == []
      {
        var pass: bool := *;
        if !pass {
          continue;
        }
        var result, qs := RunFunction(functions, f);
        QueueBoth(old(mImplicitActions), old(parries), ps, qs);
        ps := ps + qs;
        if result != ABILITY_SUCCESS {
          return true, ps;
        }
      }
    }
  }

  /** Every parry is by one of `victims` of an attack by one of `sources`. */
  ghost predicate Involves(ps: seq<Parry>, sources: set<Creature>, victims: set<Creature>) {
    forall p :: p in ps ==> p.source in sources && p.target in victims
  }

  /** What a parry queues answers it: the actions the parrying creature has registered for
      parries, by it against the attacker. */
  lemma {:induction false} TriggeredAnswers(source: Creature, target: Creature, implicits: seq<Implicit>, damage: int)
    requires forall i :: 0 <= i < |implicits| ==> implicits[i] in target.implicitActions
    ensures forall a :: a in Triggered(source, target, implicits, OnParry, damage) ==>
              a.eventType == OnParry && a.source == source && a.target == target && a.damage == damage &&
              Implicit(OnParry, a.abilityID) in target.implicitActions
  {
    if |implicits| > 0 {
      TriggeredAnswers(source, target, implicits[..|implicits| - 1], damage);
    }
  }

  // ---- the queue ------------------------------------------------------------------------

  ghost predicate Rising(ps: seq<nat>) {
    forall i, j :: 0 <= i < j < |ps| ==> ps[i] < ps[j]
  }

  /** The entries of a creature's list that are registered for an event. */
  ghost predicate AreEntries(ps: seq<nat>, implicits: seq<Implicit>, eventType: EventType) {
    && Rising(ps)
    && (forall j :: 0 <= j < |ps| ==> ps[j] < |implicits| && implicits[ps[j]].eventType == eventType)
    && (forall i :: 0 <= i < |implicits| && implicits[i].eventType == eventType ==> exists j :: 0 <= j < |ps| && ps[j] == i)
  }

  /** One more entry of the list: it comes last if it is registered for the event. */
  lemma EntriesSnoc(ps: seq<nat>, implicits: seq<Implicit>, x: Implicit, eventType: EventType) returns (qs: seq<nat>)
    requires AreEntries(ps, implicits, eventType)
    ensures AreEntries(qs, implicits + [x], eventType)
    ensures qs == if x.eventType == eventType then ps + [|implicits|] else ps
  {
    qs := if x.eventType == eventType then ps + [|implicits|] else ps;
    var all := implicits + [x];
    forall i | 0 <= i < |all| && all[i].eventType == eventType ensures exists j :: 0 <= j < |qs| && qs[j] == i {
      if i < |implicits| {
        var j :| 0 <= j < |ps| && ps[j] == i;
        assert qs[j] == i;
      } else {
        assert qs[|ps|] == i;
      }
    }
  }

  /** What an event queues is, in order and once each, every entry of the target's list that is
      registered for the event, with that entry's ability and, for a parry, the damage. */
  lemma {:induction false} TriggeredExact(source: Creature, target: Creature, implicits: seq<Implicit>,
                                         eventType: EventType, damage: int) returns (ps: seq<nat>)
    ensures AreEntries(ps, implicits, eventType)
    ensures AreActionsOf(Triggered(source, target, implicits, eventType, damage), ps,
                         source, target, implicits, eventType, damage)
  {
    if |implicits| == 0 {
      ps := [];
    } else {
      var front, x := implicits[..|implicits| - 1], implicits[|implicits| - 1];
      var qs := TriggeredExact(source, target, front, eventType, damage);
      ps := EntriesSnoc(qs, front, x, eventType);
      ActionsSnoc(Triggered(source, target, front, eventType, damage), qs, source, target, front, x, eventType, damage);
      assert front + [x] == implicits;
    }
  }

  /** Each action is for the entry at its position in `ps`. */
  ghost predicate AreActionsOf(queued: seq<Action>, ps: seq<nat>, source: Creature, target: Creature,
                               implicits: seq<Implicit>, eventType: EventType, damage: int) {
    |queued| == |ps| &&
    forall j :: 0 <= j < |ps| ==>
      ps[j] < |implicits| &&
      queued[j] == Action(source, target, eventType, implicits[ps[j]].abilityID, if eventType == OnParry then damage else 0)
  }

  lemma ActionsSnoc(queued: seq<Action>, ps: seq<nat>, source: Creature, target: Creature, implicits: seq<Implicit>,
                    x: Implicit, eventType: EventType, damage: int)
    requires AreActionsOf(queued, ps, source, target, implicits, eventType, damage)
    ensures AreActionsOf(queued, ps, source, target, implicits + [x], eventType, damage)
    ensures var a := Action(source, target, eventType, x.abilityID, if eventType == OnParry then damage else 0);
            AreActionsOf(queued + [a], ps + [|implicits|], source, target, implicits + [x], eventType, damage)
  {
  }

  /** What a parry queues is performed in full: in order and once each, every ability the
      victim has registered for parries, by the victim against the attacker, for the full
      damage. */
  lemma ParryIsAnswered(source: Creature, target: Creature, damage: int) returns (ps: seq<nat>)
    ensures AreEntries(ps, target.implicitActions, OnParry)
    ensures var rs := Retaliations(Provocation(Parry(source, target, damage)));
            && |rs| == |ps|
            && forall j :: 0 <= j < |ps| ==>
                 rs[j] == Retaliation(target, source, target.implicitActions[ps[j]].abilityID, damage)
  {
    ps := TriggeredExact(source, target, target.implicitActions, OnParry, damage);
    ParriesPerformed(Provocation(Parry(source, target, damage)));
  }

  /** A queue of parries is performed action by action. */
  lemma {:induction false} ParriesPerformed(actions: seq<Action>)
    requires forall j :: 0 <= j < |actions| ==> actions[j].eventType == OnParry
    ensures |Retaliations(actions)| == |actions|
    ensures forall j :: 0 <= j < |actions| ==>
              Retaliations(actions)[j] == Retaliation(actions[j].target, actions[j].source, actions[j].abilityID, actions[j].damage)
  {
    if |actions| > 0 {
      ParriesPerformed(actions[..|actions| - 1]);
    }
  }

  /** Actions of other events are dropped, wherever they stand in the queue. */
  lemma OthersNotPerformed(before: seq<Action>, a: Action, after: seq<Action>)
    requires a.eventType != OnParry
    ensures Retaliations(before + [a] + after) == Retaliations(before + after)
  {
    RetaliationsAppend(before + [a], after);
    RetaliationsAppend(before, [a]);
    RetaliationsAppend(before, after);
    assert [a][..0] == [];
  }

  /** Retaliations keep the order of the queue. */
  lemma {:induction false} RetaliationsAppend(a: seq<Action>, b: seq<Action>)
    ensures Retaliations(a + b) == Retaliations(a) + Retaliations(b)
  {
    if |b| == 0 {
      assert a + b == a;
    } else {
      var n := |b| - 1;
      assert (a + b)[..|a| + n] == a + b[..n];
      RetaliationsAppend(a, b[..n]);
    }
  }
}
