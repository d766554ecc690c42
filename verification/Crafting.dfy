/** The crafting rules: inputs are sorted, a recipe is matched by its conditions, and its
    actions produce the outputs. */
module Crafting {
  import opened Common
  import opened Text

  datatype ItemDef = ItemDef(id: int, itemType: int, level: int, quality: int, weaponType: int,
                             armorType: int, equipType: int)

  /** A stack offered for crafting; the definition pointer may be NULL. */
  datatype Slot = Slot(ccsid: nat, id: int, stack: int, def: Option<ItemDef>)

  datatype Recipe = Recipe(desc: string, inputCount: nat, outputCount: nat,
                           conditions: seq<string>, actions: seq<string>)

  // ---- sorting --------------------------------------------------------------------------

  predicate SortComparator(a: Slot, b: Slot) {
    && a.def.Some? && b.def.Some?
    && (a.def.value.itemType < b.def.value.itemType ||
        (a.def.value.itemType == b.def.value.itemType && a.def.value.id < b.def.value.id))
  }

  /** A NULL definition breaks the ordering that `std::sort` relies on: then nothing is known
      of its result but that it holds the same inputs. */
  ghost predicate AllDefined(items: seq<Slot>) {
    forall i :: 0 <= i < |items| ==> items[i].def.Some?
  }

  ghost predicate Sorted(items: seq<Slot>) {
    forall i, j :: 0 <= i < j < |items| ==> !SortComparator(items[j], items[i])
  }

  /** What `std::sort` may produce: ties come in any order. */
  ghost predicate Arranges(items: seq<Slot>, sorted: seq<Slot>) {
    multiset(items) == multiset(sorted) && (AllDefined(items) ==> Sorted(sorted))
  }

  lemma SameElements(a: seq<Slot>, b: seq<Slot>)
    requires multiset(a) == multiset(b)
    ensures |a| == |b| && forall x :: x in a <==> x in b
    ensures AllDefined(a) ==> AllDefined(b)
  {
    assert |multiset(a)| == |multiset(b)|;
    forall x ensures x in a <==> x in b {
      assert x in multiset(a) <==> x in multiset(b);
    }
    forall i | 0 <= i < |b| && AllDefined(a) ensures b[i].def.Some? {
      assert b[i] in a;
    }
  }

  function Inserted(sorted: seq<Slot>, x: Slot): seq<Slot> {
    if |sorted| == 0 || !SortComparator(sorted[0], x) then [x] + sorted
    else [sorted[0]] + Inserted(sorted[1..], x)
  }

  lemma {:induction false} InsertedArranges(sorted: seq<Slot>, x: Slot)
    requires AllDefined(sorted) && x.def.Some? && Sorted(sorted)
    ensures multiset(Inserted(sorted, x)) == multiset(sorted) + multiset{x} && Sorted(Inserted(sorted, x))
  {
    if |sorted| > 0 && SortComparator(sorted[0], x) {
      var rest := Inserted(sorted[1..], x);
      InsertedArranges(sorted[1..], x);
      assert sorted == [sorted[0]] + sorted[1..];
      forall j | 0 <= j < |rest| ensures !SortComparator(rest[j], sorted[0]) {
        assert rest[j] in multiset(rest);
        if rest[j] != x {
          assert rest[j] in multiset(sorted[1..]);
          var k :| 0 <= k < |sorted[1..]| && sorted[1..][k] == rest[j];
          assert sorted[k + 1] == rest[j];
        }
      }
    }
  }

  /** Stands for the library sort. */
  method SortInputs(inputItems: seq<Slot>) returns (sorted: seq<Slot>)
    ensures Arranges(inputItems, sorted)
  {
    sorted := [];
    for i := 0 to |inputItems|
      invariant Arranges(inputItems[..i], sorted)
    {
      InsertNext(inputItems, i, sorted);
      sorted := Inserted(sorted, inputItems[i]);
    }
    assert inputItems[..|inputItems|] == inputItems;
  }

  lemma InsertNext(items: seq<Slot>, i: nat, sorted: seq<Slot>)
    requires i < |items| && Arranges(items[..i], sorted)
    ensures Arranges(items[..i + 1], Inserted(sorted, items[i]))
  {
    assert items[..i + 1] == items[..i] + [items[i]];
    InsertedElements(sorted, items[i]);
    if AllDefined(items[..i + 1]) {
      assert items[..i + 1][i].def.Some?;
      forall j | 0 <= j < i ensures items[..i][j].def.Some? {
        assert items[..i + 1][j] == items[..i][j];
      }
      SameElements(items[..i], sorted);
      InsertedArranges(sorted, items[i]);
    }
  }

  lemma {:induction false} InsertedElements(sorted: seq<Slot>, x: Slot)
    ensures multiset(Inserted(sorted, x)) == multiset(sorted) + multiset{x}
  {
    if |sorted| > 0 && SortComparator(sorted[0], x) {
      InsertedElements(sorted[1..], x);
      assert sorted == [sorted[0]] + sorted[1..];
    }
  }

  // ---- parameters -----------------------------------------------------------------------

  predicate IsSpace(c: char) {
    c == ' ' || '\t' <= c <= '\r'
  }

  function Digits(s: string, n: nat): nat {
    if |s| > 0 && '0' <= s[0] <= '9' then Digits(s[1..], 10 * n + (s[0] as int - '0' as int)) else n
  }

  /** The C library's atoi, on numbers that fit an int. */
  function Atoi(s: string): int {
    if |s| == 0 then 0
    else if IsSpace(s[0]) then Atoi(s[1..])
    else if s[0] == '-' then 0 - Digits(s[1..], 0)
    else if s[0] == '+' then Digits(s[1..], 0)
    else Digits(s, 0)
  }

  function IntParam(args: seq<string>, i: nat): int {
    if i < |args| then Atoi(args[i]) else 0
  }

  // ---- conditions -----------------------------------------------------------------------

  /** `Faults`: evaluating the condition crashes. */
  datatype Verdict = Holds | Fails | Ignored | Faults

  datatype Comparator = CmpNone | CmpEqual | CmpNotEqual | CmpLess | CmpLessOrEqual | CmpGreater | CmpGreaterOrEqual

  const INVALID_PROPERTY := -1

  function GetComparator(symbol: string): Comparator {
    if symbol == "=" then CmpEqual
    else if symbol == "!=" then CmpNotEqual
    else if symbol == "<" then CmpLess
    else if symbol == "<=" then CmpLessOrEqual
    else if symbol == ">" then CmpGreater
    else if symbol == ">=" then CmpGreaterOrEqual
    else CmpNone
  }

  predicate Compare(left: int, op: Comparator, right: int) {
    match op
    case CmpEqual => left == right
    case CmpNotEqual => left != right
    case CmpLess => left < right
    case CmpLessOrEqual => left <= right
    case CmpGreater => left > right
    case CmpGreaterOrEqual => left >= right
    case CmpNone => false
  }

  predicate KnownProperty(name: string) {
    name == "level" || name == "quality" || name == "type" || name == "weapontype" ||
    name == "armortype" || name == "equiptype"
  }

  function GetProperty(d: ItemDef, name: string): int {
    if name == "level" then d.level
    else if name == "quality" then d.quality
    else if name == "type" then d.itemType
    else if name == "weapontype" then d.weaponType
    else if name == "armortype" then d.armorType
    else if name == "equiptype" then d.equipType
    else INVALID_PROPERTY
  }

  function When(b: bool): Verdict {
    if b then Holds else Fails
  }

  function AtLeastOne(n: int): int {
    if n < 1 then 1 else n
  }

  function Judge(condition: string, items: seq<Slot>): Verdict {
    var args := Pieces(condition, ",");
    if |args| <= 2 then Ignored
    else
      var i := IntParam(args, 0);
      if !(0 <= i < |items|) then Fails
      else JudgeSlot(args, items, items[i])
  }

  function JudgeSlot(args: seq<string>, items: seq<Slot>, item: Slot): Verdict
    requires |args| > 2
  {
    var op, a := args[1], IntParam(args, 2);
    if op == "requireid" then
      When(item.id == a && (IntParam(args, 3) < 0 || item.stack == IntParam(args, 3)))
    else if op == "requireidxmult" then
      var k := IntParam(args, 3);
      When(item.id == a && 0 <= k < |items| && item.stack == items[k].stack * AtLeastOne(IntParam(args, 4)))
    else if op == "requireidmult" then
      if item.id != a then Fails
      else if IntParam(args, 3) == 0 then Faults
      else When(item.stack % IntParam(args, 3) == 0)
    else if op == "itemtype" then
      if item.def.None? then Faults else When(item.def.value.itemType == a)
    else if op == "quality" then
      if item.def.None? then Faults else When(item.def.value.quality == a)
    else if op == "cmp" then
      if !KnownProperty(args[2]) then Fails
      else if item.def.None? then Faults
      else if GetProperty(item.def.value, args[2]) == INVALID_PROPERTY then Fails
      else if |args| == 3 then Faults
      else When(Compare(GetProperty(item.def.value, args[2]), GetComparator(args[3]), IntParam(args, 4)))
    else Ignored
  }

  datatype Check = Passed | Failed | Crashed

  function Verdicts(conditions: seq<string>, items: seq<Slot>): (r: seq<Verdict>)
    ensures |r| == |conditions|
    ensures forall i :: 0 <= i < |r| ==> r[i] == Judge(conditions[i], items)
  {
    seq(|conditions|, i requires 0 <= i < |conditions| => Judge(conditions[i], items))
  }

  /** The scan stops at the first condition that fails or faults; ignored ones are not
      counted, so they keep the count from reaching the number of conditions. */
  function Scan(vs: seq<Verdict>, i: nat, complete: bool): Check
    requires i <= |vs|
    decreases |vs| - i
  {
    if i == |vs| then (if complete then Passed else Failed)
    else
      match vs[i]
      case Holds => Scan(vs, i + 1, complete)
      case Fails => Failed
      case Ignored => Scan(vs, i + 1, false)
      case Faults => Crashed
  }

  function Checked(conditions: seq<string>, items: seq<Slot>): Check {
    Scan(Verdicts(conditions, items), 0, true)
  }

  /** One condition of the loop of CheckCondition. `return false` is `Fails`, `passed++` is
      `Holds`, and leaving the body without either is `Ignored`. */
  method Evaluate(conditions: seq<string>, inputItems: seq<Slot>, i: nat, ghost vs: seq<Verdict>)
    returns (verdict: Verdict)
    requires i < |conditions| == |vs| && AreVerdicts(vs, conditions, inputItems)
    ensures verdict == vs[i]
  {
    assert IsVerdict(vs, conditions, inputItems, i);
    var args := Split(conditions[i], ",");
    if |args| <= 2 {
      return Ignored;
    }
    var itemIndex := IntParam(args, 0);
    if itemIndex < 0 || itemIndex >= |inputItems| {
      return Fails;
    }
    verdict := EvaluateSlot(args, inputItems, inputItems[itemIndex]);
  }

  method EvaluateSlot(args: seq<string>, inputItems: seq<Slot>, item: Slot) returns (verdict: Verdict)
    requires |args| > 2
    ensures verdict == JudgeSlot(args, inputItems, item)
  {
    var op := args[1];
    if op == "requireid" {
      var itemID, itemCount := IntParam(args, 2), IntParam(args, 3);
      if item.id != itemID {
        return Fails;
      }
      if itemCount >= 0 && item.stack != itemCount {
        return Fails;
      }
      return Holds;
    } else if op == "requireidxmult" {
      var itemID, checkIndex, mult := IntParam(args, 2), IntParam(args, 3), IntParam(args, 4);
      if mult < 1 {
        mult := 1;
      }
      if item.id != itemID {
        return Fails;
      }
      if checkIndex < 0 || checkIndex >= |inputItems| {
        return Fails;
      }
      if item.stack != inputItems[checkIndex].stack * mult {
        return Fails;
      }
      return Holds;
    } else if op == "requireidmult" {
      var itemID, itemCount := IntParam(args, 2), IntParam(args, 3);
      if item.id != itemID {
        return Fails;
      }
      if itemCount == 0 {
        return Faults;
      }
      if item.stack % itemCount != 0 {
        return Fails;
      }
      return Holds;
    } else if op == "itemtype" {
      if item.def.None? {
        return Faults;
      }
      return if item.def.value.itemType != IntParam(args, 2) then Fails else Holds;
    } else if op == "quality" {
      if item.def.None? {
        return Faults;
      }
      return if item.def.value.quality != IntParam(args, 2) then Fails else Holds;
    } else if op == "cmp" {
      verdict := EvaluateCmp(args, item);
      return;
    }
    return Ignored;
  }

  /** An unknown property fails before the definition is looked at; a missing comparator is a
      NULL string. */
  method EvaluateCmp(args: seq<string>, item: Slot) returns (verdict: Verdict)
    requires |args| > 2
    ensures args[1] == "cmp" ==> forall items :: verdict == JudgeSlot(args, items, item)
  {
    if !KnownProperty(args[2]) {
      return Fails;
    }
    if item.def.None? {
      return Faults;
    }
    var leftValue := GetProperty(item.def.value, args[2]);
    if leftValue == INVALID_PROPERTY {
      return Fails;
    }
    if |args| == 3 {
      return Faults;
    }
    var comparator, rightValue := GetComparator(args[3]), IntParam(args, 4);
    if !Compare(leftValue, comparator, rightValue) {
      return Fails;
    }
    return Holds;
  }

  ghost predicate IsVerdict(vs: seq<Verdict>, conditions: seq<string>, items: seq<Slot>, i: nat)
    requires i < |vs| == |conditions|
  {
    vs[i] == Judge(conditions[i], items)
  }

  ghost predicate AreVerdicts(vs: seq<Verdict>, conditions: seq<string>, items: seq<Slot>)
    requires |vs| == |conditions|
  {
    forall i :: 0 <= i < |vs| ==> IsVerdict(vs, conditions, items, i)
  }

  method CheckCondition(conditions: seq<string>, inputItems: seq<Slot>) returns (r: Check)
    ensures r == Checked(conditions, inputItems)
  {
    r := CountPassed(conditions, inputItems, Verdicts(conditions, inputItems));
  }

  /** The loop of CheckCondition. */
  method CountPassed(conditions: seq<string>, inputItems: seq<Slot>, ghost vs: seq<Verdict>) returns (r: Check)
    requires |vs| == |conditions| && AreVerdicts(vs, conditions, inputItems)
    ensures r == Scan(vs, 0, true)
  {
    var passed := 0;
    for i := 0 to |conditions|
      invariant 0 <= passed <= i
      invariant Scan(vs, 0, true) == Scan(vs, i, passed == i)
    {
      var verdict := Evaluate(conditions, inputItems, i, vs);
      match verdict {
        case Holds => passed := passed + 1;
        case Fails => return Failed;
        case Faults => return Crashed;
        case Ignored =>
      }
    }
    return if passed == |conditions| then Passed else Failed;
  }

  /** A recipe's conditions pass exactly when each of them is well-formed, known and holds. */
  lemma PassedIff(conditions: seq<string>, items: seq<Slot>)
    ensures Checked(conditions, items) == Passed <==>
            forall i :: 0 <= i < |conditions| ==> Judge(conditions[i], items) == Holds
  {
    var vs := Verdicts(conditions, items);
    ScanPassesIff(vs, 0, true);
    AllJudged(conditions, items, vs);
  }

  lemma AllJudged(conditions: seq<string>, items: seq<Slot>, vs: seq<Verdict>)
    requires |vs| == |conditions| && forall i :: 0 <= i < |vs| ==> vs[i] == Judge(conditions[i], items)
    ensures (forall i :: 0 <= i < |vs| ==> vs[i] == Holds) <==>
            (forall i :: 0 <= i < |conditions| ==> Judge(conditions[i], items) == Holds)
  {
    if forall i :: 0 <= i < |conditions| ==> Judge(conditions[i], items) == Holds {
      forall i | 0 <= i < |vs| ensures vs[i] == Holds {
        assert Judge(conditions[i], items) == Holds;
      }
    }
  }

  lemma {:induction false} ScanPassesIff(vs: seq<Verdict>, from: nat, complete: bool)
    requires from <= |vs|
    ensures Scan(vs, from, complete) == Passed <==> complete && forall i :: from <= i < |vs| ==> vs[i] == Holds
    decreases |vs| - from
  {
    if from < |vs| {
      ScanPassesIff(vs, from + 1, complete);
      ScanPassesIff(vs, from + 1, false);
    }
  }

  /** Checking crashes exactly when some condition faults and none before it fails. */
  lemma CrashedIff(conditions: seq<string>, items: seq<Slot>)
    ensures Checked(conditions, items) == Crashed <==>
            exists i :: 0 <= i < |conditions| && Judge(conditions[i], items) == Faults &&
                        forall j :: 0 <= j < i ==> Judge(conditions[j], items) != Fails
  {
    var vs := Verdicts(conditions, items);
    ScanCrashesIff(vs, 0, true);
    if i: nat :| FaultsAt(vs, 0, i) {
      assert Judge(conditions[i], items) == Faults;
    }
    if i :| 0 <= i < |conditions| && Judge(conditions[i], items) == Faults &&
            forall j :: 0 <= j < i ==> Judge(conditions[j], items) != Fails {
      assert FaultsAt(vs, 0, i);
    }
  }

  ghost predicate FaultsAt(vs: seq<Verdict>, from: nat, i: nat) {
    from <= i < |vs| && vs[i] == Faults && forall j :: from <= j < i ==> vs[j] != Fails
  }

  lemma {:induction false} ScanCrashesIff(vs: seq<Verdict>, from: nat, complete: bool)
    requires from <= |vs|
    ensures Scan(vs, from, complete) == Crashed <==> exists i: nat :: FaultsAt(vs, from, i)
    decreases |vs| - from
  {
    if from < |vs| {
      var next := from + 1;
      ScanCrashesIff(vs, next, complete);
      ScanCrashesIff(vs, next, false);
      if vs[from] == Faults {
        assert FaultsAt(vs, from, from);
      } else if i: nat :| FaultsAt(vs, next, i) {
        assert vs[from] != Fails ==> FaultsAt(vs, from, i);
      } else if i: nat :| FaultsAt(vs, from, i) {
        assert FaultsAt(vs, next, i);
      }
    }
  }

  // ---- recipes and outputs --------------------------------------------------------------

  datatype Match = NoMatch | Found(recipe: Recipe) | MatchCrashed

  function Matched(recipes: seq<Recipe>, items: seq<Slot>): Match {
    if |recipes| == 0 then NoMatch
    else if recipes[0].inputCount != |items| then Matched(recipes[1..], items)
    else
      match Checked(recipes[0].conditions, items)
      case Passed => Found(recipes[0])
      case Failed => Matched(recipes[1..], items)
      case Crashed => MatchCrashed
  }

  /** An index that is negative or too large gives no output. */
  function Produced(action: string, items: seq<Slot>): seq<Slot> {
    var args := Pieces(action, ",");
    var id, k := IntParam(args, 1), IntParam(args, 2);
    if args[0] == "giveid" then [Slot(0, id, if k <= 0 then 1 else k, None)]
    else if args[0] == "giveidxmult" then
      if 0 <= k < |items| then [Slot(0, id, items[k].stack * AtLeastOne(IntParam(args, 3)), None)] else []
    else if args[0] == "giveidxdiv" then
      if 0 <= k < |items| && Quotient(items[k].stack, AtLeastOne(IntParam(args, 3))) > 0
      then [Slot(0, id, Quotient(items[k].stack, AtLeastOne(IntParam(args, 3))), None)] else []
    else []
  }

  function Outputs(actions: seq<string>, items: seq<Slot>): seq<Slot> {
    if |actions| == 0 then [] else Outputs(actions[..|actions| - 1], items) + Produced(actions[|actions| - 1], items)
  }

  class CraftManager {
    var mRecipes: seq<Recipe>

    constructor (recipes: seq<Recipe>)
      ensures mRecipes == recipes
    {
      mRecipes := recipes;
    }

    method GetRecipe(inputItems: seq<Slot>) returns (r: Match, items: seq<Slot>)
      ensures Arranges(inputItems, items) && r == Matched(mRecipes, items)
    {
      items := SortInputs(inputItems);
      for i := 0 to |mRecipes|
        invariant Matched(mRecipes, items) == Matched(mRecipes[i..], items)
      {
        assert mRecipes[i..][1..] == mRecipes[i + 1..];
        if mRecipes[i].inputCount == |items| {
          var check := CheckCondition(mRecipes[i].conditions, items);
          match check {
            case Passed => return Found(mRecipes[i]), items;
            case Crashed => return MatchCrashed, items;
            case Failed =>
          }
        }
      }
      r := NoMatch;
    }

    method GenerateOutputs(recipe: Recipe, inputItems: seq<Slot>, given: seq<Slot>) returns (outputItems: seq<Slot>)
      ensures outputItems == given + Outputs(recipe.actions, inputItems)
    {
      outputItems := given;
      for i := 0 to |recipe.actions|
        invariant outputItems == given + Outputs(recipe.actions[..i], inputItems)
      {
        assert recipe.actions[..i + 1][..i] == recipe.actions[..i];
        outputItems := outputItems + Produced(recipe.actions[i], inputItems);
      }
      assert recipe.actions[..|recipe.actions|] == recipe.actions;
    }

    method RunRecipe(recipe: Option<Recipe>, inputItems: seq<Slot>, given: seq<Slot>)
      returns (r: Check, items: seq<Slot>, outputItems: seq<Slot>)
      ensures Arranges(inputItems, items) && (r, outputItems) == Crafted(mRecipes, recipe, items, given)
    {
      items := SortInputs(inputItems);
      var chosen := recipe;
      if recipe.None? {
        var found, again := GetRecipe(items);
        if AllDefined(inputItems) {
          SameElements(inputItems, items);
        }
        items := again;
        match found {
          case MatchCrashed => return Crashed, items, given;
          case NoMatch => return Failed, items, given;
          case Found(f) => chosen := Some(f);
        }
      }
      outputItems := GenerateOutputs(chosen.value, items, given);
      r := if |outputItems| > 0 then Passed else Failed;
    }
  }

  function Crafted(recipes: seq<Recipe>, recipe: Option<Recipe>, items: seq<Slot>, given: seq<Slot>): (Check, seq<Slot>) {
    var m := if recipe.Some? then Found(recipe.value) else Matched(recipes, items);
    match m
    case MatchCrashed => (Crashed, given)
    case NoMatch => (Failed, given)
    case Found(f) =>
      var out := given + Outputs(f.actions, items);
      (if |out| > 0 then Passed else Failed, out)
  }

  // ---- the order of the inputs ----------------------------------------------------------

  predicate SameKey(a: Slot, b: Slot) {
    a.def.Some? && b.def.Some? && a.def.value.itemType == b.def.value.itemType && a.def.value.id == b.def.value.id
  }

  /** Inputs that compare as equal are equal; inputs with distinct (type, ID) are a case. */
  ghost predicate TieFree(items: seq<Slot>) {
    forall a, b :: a in items && b in items && SameKey(a, b) ==> a == b
  }

  lemma {:induction false} ArrangementUnique(a: seq<Slot>, b: seq<Slot>)
    requires multiset(a) == multiset(b) && Sorted(a) && Sorted(b) && AllDefined(a) && TieFree(a)
    ensures a == b
  {
    SameElements(a, b);
    if |a| > 0 {
      HeadIsLeast(a, b[0]);
      assert b[0].def.Some?;
      HeadIsLeast(b, a[0]);
      assert SameKey(a[0], b[0]);
      SameTails(a, b);
      ArrangementUnique(a[1..], b[1..]);
    }
  }

  lemma SameTails<T>(a: seq<T>, b: seq<T>)
    requires multiset(a) == multiset(b) && |a| > 0 && |b| > 0 && a[0] == b[0]
    ensures a == [a[0]] + a[1..] && b == [a[0]] + b[1..] && multiset(a[1..]) == multiset(b[1..])
  {
    assert a == [a[0]] + a[1..] && b == [b[0]] + b[1..];
    assert multiset(a[1..]) == multiset(a) - multiset{a[0]};
    assert multiset(b[1..]) == multiset(b) - multiset{b[0]};
  }

  lemma HeadIsLeast(s: seq<Slot>, x: Slot)
    requires Sorted(s) && x in s
    ensures !SortComparator(x, s[0])
  {
    var k :| 0 <= k < |s| && s[k] == x;
  }

  /** Two arrangements of the same inputs are equal exactly for inputs without ties. */
  lemma OneArrangementIff(items: seq<Slot>)
    requires AllDefined(items)
    ensures TieFree(items) <==>
            forall s, t :: Arranges(items, s) && Arranges(items, t) ==> s == t
  {
    if TieFree(items) {
      forall s, t | Arranges(items, s) && Arranges(items, t) ensures s == t {
        SameElements(items, s);
        ArrangementUnique(s, t);
      }
    } else {
      var a, b :| a in items && b in items && SameKey(a, b) && a != b;
      var s := SortedExists(items);
      SameElements(items, s);
      var i :| 0 <= i < |s| && s[i] == a;
      var j :| 0 <= j < |s| && s[j] == b;
      var t := s[i := b][j := a];
      SwapArranges(s, i, j);
      assert Arranges(items, s) && Arranges(items, t) && s[i] != t[i];
    }
  }

  lemma {:induction false} SortedExists(items: seq<Slot>) returns (s: seq<Slot>)
    requires AllDefined(items)
    ensures Arranges(items, s)
  {
    if |items| == 0 {
      s := [];
    } else {
      var n := |items| - 1;
      assert items == items[..n] + [items[n]];
      var r := SortedExists(items[..n]);
      SameElements(items[..n], r);
      InsertedArranges(r, items[n]);
      s := Inserted(r, items[n]);
    }
  }

  lemma SwapArranges(s: seq<Slot>, i: nat, j: nat)
    requires Sorted(s) && i < |s| && j < |s| && SameKey(s[i], s[j])
    ensures Sorted(s[i := s[j]][j := s[i]]) && multiset(s[i := s[j]][j := s[i]]) == multiset(s)
  {
    var t := s[i := s[j]][j := s[i]];
    forall k, l | 0 <= k < l < |t| ensures !SortComparator(t[l], t[k]) {
      assert !SortComparator(s[l], s[k]);
    }
  }

  // ---- when the order matters -----------------------------------------------------------

  /** What the rules can see of an input: everything but its CCSID. */
  function Bare(x: Slot): Slot {
    x.(ccsid := 0)
  }

  function BareAll(items: seq<Slot>): (r: seq<Slot>)
    ensures |r| == |items| && forall i :: 0 <= i < |items| ==> r[i] == Bare(items[i])
  {
    seq(|items|, i requires 0 <= i < |items| => Bare(items[i]))
  }

  /** Inputs of equal (type, ID) look the same to the rules. */
  ghost predicate Interchangeable(items: seq<Slot>) {
    forall a, b :: a in items && b in items && SameKey(a, b) ==> Bare(a) == Bare(b)
  }

  lemma JudgeBare(condition: string, items: seq<Slot>)
    ensures Judge(condition, BareAll(items)) == Judge(condition, items)
  {
  }

  lemma CheckedBare(conditions: seq<string>, items: seq<Slot>)
    ensures Checked(conditions, BareAll(items)) == Checked(conditions, items)
  {
    var v, w := Verdicts(conditions, BareAll(items)), Verdicts(conditions, items);
    forall i | 0 <= i < |conditions| ensures v[i] == w[i] {
      JudgeBare(conditions[i], items);
    }
    assert v == w;
  }

  lemma {:induction false} MatchedBare(recipes: seq<Recipe>, items: seq<Slot>)
    ensures Matched(recipes, BareAll(items)) == Matched(recipes, items)
  {
    if |recipes| > 0 {
      var bare := BareAll(items);
      MatchedBare(recipes[1..], items);
      CheckedBare(recipes[0].conditions, items);
      MatchedSame(recipes, bare, items);
    }
  }

  lemma MatchedSame(recipes: seq<Recipe>, a: seq<Slot>, b: seq<Slot>)
    requires |recipes| > 0 && |a| == |b| && Matched(recipes[1..], a) == Matched(recipes[1..], b)
    requires Checked(recipes[0].conditions, a) == Checked(recipes[0].conditions, b)
    ensures Matched(recipes, a) == Matched(recipes, b)
  {
  }

  lemma ProducedBare(action: string, items: seq<Slot>)
    ensures Produced(action, BareAll(items)) == Produced(action, items)
  {
  }

  lemma {:induction false} OutputsBare(actions: seq<string>, items: seq<Slot>)
    ensures Outputs(actions, BareAll(items)) == Outputs(actions, items)
  {
    if |actions| > 0 {
      OutputsBare(actions[..|actions| - 1], items);
      ProducedBare(actions[|actions| - 1], items);
    }
  }

  lemma CraftedBare(recipes: seq<Recipe>, recipe: Option<Recipe>, items: seq<Slot>, given: seq<Slot>)
    ensures Crafted(recipes, recipe, BareAll(items), given) == Crafted(recipes, recipe, items, given)
  {
    MatchedBare(recipes, items);
    var m := if recipe.Some? then Found(recipe.value) else Matched(recipes, items);
    if m.Found? {
      OutputsBare(m.recipe.actions, items);
    }
  }

  lemma BareAppend(a: seq<Slot>, b: seq<Slot>)
    ensures BareAll(a + b) == BareAll(a) + BareAll(b)
  {
  }

  lemma {:induction false} BarePermutes(a: seq<Slot>, b: seq<Slot>)
    requires multiset(a) == multiset(b)
    ensures multiset(BareAll(a)) == multiset(BareAll(b))
  {
    SameElements(a, b);
    if |a| > 0 {
      assert a[0] in b;
      var j :| 0 <= j < |b| && b[j] == a[0];
      TakeOut(a, b, j);
      BarePermutes(a[1..], b[..j] + b[j + 1..]);
      BareAppend([a[0]], a[1..]);
      BareAppend(b[..j] + [b[j]], b[j + 1..]);
      BareAppend(b[..j], [b[j]]);
      BareAppend(b[..j], b[j + 1..]);
    } else {
      assert a == b;
    }
  }

  lemma TakeOut(a: seq<Slot>, b: seq<Slot>, j: nat)
    requires multiset(a) == multiset(b) && |a| > 0 && j < |b| && b[j] == a[0]
    ensures multiset(a[1..]) == multiset(b[..j] + b[j + 1..])
    ensures a == [a[0]] + a[1..] && b == b[..j] + [b[j]] + b[j + 1..]
  {
    assert a == [a[0]] + a[1..] && b == b[..j] + [b[j]] + b[j + 1..];
    assert multiset(a[1..]) == multiset(a) - multiset{a[0]};
    assert multiset(b[..j] + b[j + 1..]) == multiset(b) - multiset{b[j]};
  }

  /** Sorted arrangements of interchangeable inputs look the same. */
  lemma BareArrangement(p: seq<Slot>, s: seq<Slot>, t: seq<Slot>)
    requires AllDefined(p) && Interchangeable(p)
    requires multiset(p) == multiset(s) == multiset(t) && Sorted(s) && Sorted(t)
    ensures BareAll(s) == BareAll(t)
  {
    SameElements(p, s);
    var bs, bt := BareAll(s), BareAll(t);
    BarePermutes(s, t);
    SameElements(bs, bt);
    SortedBare(s);
    SortedBare(t);
    forall x, y | x in bs && y in bs && SameKey(x, y) ensures x == y {
      var i :| 0 <= i < |bs| && bs[i] == x;
      var j :| 0 <= j < |bs| && bs[j] == y;
      assert s[i] in p && s[j] in p && SameKey(s[i], s[j]);
    }
    ArrangementUnique(bs, bt);
  }

  lemma SortedBare(s: seq<Slot>)
    requires Sorted(s)
    ensures Sorted(BareAll(s))
  {
    var b := BareAll(s);
    forall i, j | 0 <= i < j < |b| ensures !SortComparator(b[j], b[i]) {
      assert !SortComparator(s[j], s[i]);
    }
  }

  /** Crafting does not depend on the order of interchangeable inputs: every permutation gives
      the same match and the same outputs, however the library sorts. */
  lemma OrderIndependent(recipes: seq<Recipe>, recipe: Option<Recipe>, given: seq<Slot>,
                         p: seq<Slot>, q: seq<Slot>, s: seq<Slot>, t: seq<Slot>)
    requires AllDefined(p) && Interchangeable(p) && multiset(p) == multiset(q)
    requires Arranges(p, s) && Arranges(q, t)
    ensures Matched(recipes, s) == Matched(recipes, t)
    ensures Crafted(recipes, recipe, s, given) == Crafted(recipes, recipe, t, given)
  {
    SameElements(p, q);
    BareArrangement(p, s, t);
    MatchedBare(recipes, s);
    MatchedBare(recipes, t);
    CraftedBare(recipes, recipe, s, given);
    CraftedBare(recipes, recipe, t, given);
  }

  /** No rules of any kind tell the sorted arrangements of the inputs apart. */
  ghost predicate NoRuleTells(items: seq<Slot>) {
    forall recipes, recipe, given, s, t :: Arranges(items, s) && Arranges(items, t) ==>
      Crafted(recipes, recipe, s, given) == Crafted(recipes, recipe, t, given)
  }

  /** Order independence holds, for all recipes, exactly for interchangeable inputs. */
  lemma OrderIndependentIff(items: seq<Slot>)
    requires AllDefined(items)
    ensures NoRuleTells(items) <==> Interchangeable(items)
  {
    if Interchangeable(items) {
      forall recipes, recipe, given, s, t | Arranges(items, s) && Arranges(items, t)
        ensures Crafted(recipes, recipe, s, given) == Crafted(recipes, recipe, t, given)
      {
        OrderIndependent(recipes, recipe, given, items, items, s, t);
      }
    } else {
      var a, b :| a in items && b in items && SameKey(a, b) && Bare(a) != Bare(b);
      var s := SortedExists(items);
      SameElements(items, s);
      var i :| 0 <= i < |s| && s[i] == a;
      var j :| 0 <= j < |s| && s[j] == b;
      var t := s[i := b][j := a];
      SwapArranges(s, i, j);
      var recipes, recipe := RulesTell(s, t, i);
      assert Arranges(items, s) && Arranges(items, t);
    }
  }

  // Every difference the rules could see can be made visible by some rule.

  lemma RulesTell(s: seq<Slot>, t: seq<Slot>, i: nat) returns (recipes: seq<Recipe>, recipe: Option<Recipe>)
    requires i < |s| == |t| && s[i].def.Some? && SameKey(s[i], t[i]) && Bare(s[i]) != Bare(t[i])
    ensures Crafted(recipes, recipe, s, []) != Crafted(recipes, recipe, t, [])
  {
    var a, b := s[i], t[i];
    if a.stack != b.stack {
      var action := Join(["giveidxmult", Number(0), Number(i), Number(1)], ",");
      recipes, recipe := [], Some(Recipe("", |s|, 1, [], [action]));
      StackShown(s, i);
      StackShown(t, i);
      OneAction(action, s);
      OneAction(action, t);
    } else if a.id != b.id {
      recipes, recipe := [Telling(|s|, IdIs(i, a.id))], None;
      JudgeId(s, i, a.id);
      JudgeId(t, i, a.id);
      TellingTells(IdIs(i, a.id), s, t);
    } else {
      var name := DifferingProperty(a.def.value, b.def.value);
      var v, w := GetProperty(a.def.value, name), GetProperty(b.def.value, name);
      var u := if v != INVALID_PROPERTY then v else w;
      recipes, recipe := [Telling(|s|, PropertyIs(i, name, u))], None;
      JudgeProperty(s, i, name, u);
      JudgeProperty(t, i, name, u);
      if u == v {
        TellingTells(PropertyIs(i, name, u), s, t);
      } else {
        TellingTells(PropertyIs(i, name, u), t, s);
      }
    }
  }

  lemma DifferingProperty(a: ItemDef, b: ItemDef) returns (name: string)
    requires a != b && a.itemType == b.itemType && a.id == b.id
    ensures KnownProperty(name) && ',' !in name && GetProperty(a, name) != GetProperty(b, name)
  {
    name := if a.level != b.level then "level"
            else if a.quality != b.quality then "quality"
            else if a.weaponType != b.weaponType then "weapontype"
            else if a.armorType != b.armorType then "armortype"
            else "equiptype";
  }

  function IdIs(i: nat, id: int): seq<string> {
    [Number(i), "requireid", Number(id), Number(-1)]
  }

  function PropertyIs(i: nat, name: string, v: int): seq<string> {
    [Number(i), "cmp", name, "=", Number(v)]
  }

  function GiveOne(): seq<string> {
    ["giveid", Number(8), Number(1)]
  }

  function Telling(n: nat, condition: seq<string>): Recipe {
    Recipe("", n, 1, [Join(condition, ",")], [Join(GiveOne(), ",")])
  }

  lemma TellingTells(condition: seq<string>, s: seq<Slot>, t: seq<Slot>)
    requires |s| == |t|
    requires Judge(Join(condition, ","), s) == Holds && Judge(Join(condition, ","), t) == Fails
    ensures var r := [Telling(|s|, condition)];
            Crafted(r, None, s, []) != Crafted(r, None, t, [])
  {
    var r, c := Telling(|s|, condition), Join(condition, ",");
    CheckedOne(c, s);
    CheckedOne(c, t);
    MatchedOne(r, s);
    MatchedOne(r, t);
    GivesOne(s);
    OneAction(Join(GiveOne(), ","), s);
  }

  lemma CheckedOne(condition: string, items: seq<Slot>)
    requires Judge(condition, items) == Holds || Judge(condition, items) == Fails
    ensures Checked([condition], items) == if Judge(condition, items) == Holds then Passed else Failed
  {
    ScanOne(Verdicts([condition], items));
  }

  lemma ScanOne(vs: seq<Verdict>)
    requires |vs| == 1 && (vs[0] == Holds || vs[0] == Fails)
    ensures Scan(vs, 0, true) == if vs[0] == Holds then Passed else Failed
  {
  }

  lemma MatchedOne(r: Recipe, items: seq<Slot>)
    requires r.inputCount == |items| && Checked(r.conditions, items) != Crashed
    ensures Matched([r], items) == if Checked(r.conditions, items) == Passed then Found(r) else NoMatch
  {
    assert [r][1..] == [];
  }

  lemma OneAction(action: string, items: seq<Slot>)
    ensures Outputs([action], items) == Produced(action, items)
    ensures [] + Outputs([action], items) == Produced(action, items)
  {
    assert [action][..0] == [];
  }

  /** The arguments of a rule, split and read back. */
  lemma ArgsOf(args: seq<string>)
    requires |args| > 0 && forall i :: 0 <= i < |args| ==> ',' !in args[i]
    ensures Pieces(Join(args, ","), ",") == args
  {
    forall p | p in args ensures ","[0] !in p {}
    PiecesOfJoin(args, ",");
  }

  lemma GivesOne(items: seq<Slot>)
    ensures |Produced(Join(GiveOne(), ","), items)| == 1
  {
    AtoiNumber(8);
    AtoiNumber(1);
    ArgsOf(GiveOne());
  }

  lemma StackShown(items: seq<Slot>, i: nat)
    requires i < |items|
    ensures Produced(Join(["giveidxmult", Number(0), Number(i), Number(1)], ","), items) == [Slot(0, 0, items[i].stack, None)]
  {
    var args := ["giveidxmult", Number(0), Number(i), Number(1)];
    AtoiNumber(0);
    AtoiNumber(i);
    AtoiNumber(1);
    ArgsOf(args);
    assert IntParam(args, 1) == 0 && IntParam(args, 2) == i && IntParam(args, 3) == 1;
  }

  lemma JudgeId(items: seq<Slot>, i: nat, id: int)
    requires i < |items|
    ensures Judge(Join(IdIs(i, id), ","), items) == When(items[i].id == id)
  {
    var args := IdIs(i, id);
    AtoiNumber(i);
    AtoiNumber(id);
    AtoiNumber(-1);
    ArgsOf(args);
    assert IntParam(args, 0) == i && IntParam(args, 2) == id && IntParam(args, 3) == -1;
  }

  lemma JudgeProperty(items: seq<Slot>, i: nat, name: string, v: int)
    requires i < |items| && items[i].def.Some? && KnownProperty(name) && ',' !in name && v != INVALID_PROPERTY
    ensures Judge(Join(PropertyIs(i, name, v), ","), items) == When(GetProperty(items[i].def.value, name) == v)
  {
    var args := PropertyIs(i, name, v);
    AtoiNumber(i);
    AtoiNumber(v);
    ArgsOf(args);
    assert IntParam(args, 0) == i && IntParam(args, 4) == v && args[1] == "cmp" && args[2] == name && args[3] == "=";
  }

  /** A number as a rule writes it. */
  function Number(n: int): string {
    if n < 0 then "-" + Decimal(-n) else Decimal(n)
  }

  function Decimal(n: nat): (r: string)
    ensures |r| > 0 && forall i :: 0 <= i < |r| ==> '0' <= r[i] <= '9'
  {
    if n < 10 then [Digit(n)] else Decimal(n / 10) + [Digit(n % 10)]
  }

  function Digit(d: nat): (c: char)
    requires d < 10
    ensures '0' <= c <= '9' && c as int - '0' as int == d
  {
    ('0' as int + d) as char
  }

  lemma {:induction false} DigitsSnoc(s: string, c: char, n: nat)
    requires '0' <= c <= '9' && forall i :: 0 <= i < |s| ==> '0' <= s[i] <= '9'
    ensures Digits(s + [c], n) == 10 * Digits(s, n) + (c as int - '0' as int)
    decreases |s|
  {
    if |s| == 0 {
      assert s + [c] == [c] && [c][1..] == "";
    } else {
      assert (s + [c])[1..] == s[1..] + [c];
      DigitsSnoc(s[1..], c, 10 * n + (s[0] as int - '0' as int));
    }
  }

  lemma {:induction false} DigitsDecimal(n: nat)
    ensures Digits(Decimal(n), 0) == n
  {
    if n < 10 {
      assert [Digit(n)][1..] == "";
      assert Digits([Digit(n)], 0) == Digits("", n);
    } else {
      DigitsDecimal(n / 10);
      DigitsSnoc(Decimal(n / 10), Digit(n % 10), 0);
    }
  }

  /** Any number can be written in a rule. */
  lemma AtoiNumber(n: int)
    ensures Atoi(Number(n)) == n && ',' !in Number(n)
  {
    if n < 0 {
      DigitsDecimal(-n);
      assert ("-" + Decimal(-n))[1..] == Decimal(-n);
    } else {
      DigitsDecimal(n);
    }
  }

  /** Two different stacks of one item are enough for the outcome to depend on the sort. */
  lemma TiesMatter(d: ItemDef)
    ensures var a, b := Slot(1, 7, 1, Some(d)), Slot(2, 7, 2, Some(d));
            && Arranges([a, b], [a, b]) && Arranges([a, b], [b, a])
            && Matched([ONE_OF_SEVEN], [a, b]) == Found(ONE_OF_SEVEN) && Matched([ONE_OF_SEVEN], [b, a]) == NoMatch
  {
    var a, b := Slot(1, 7, 1, Some(d)), Slot(2, 7, 2, Some(d));
    MatchesOneOfSeven([a, b]);
    MatchesOneOfSeven([b, a]);
    assert multiset([a, b]) == multiset([b, a]);
  }

  const FIRST_IS_ONE_OF_SEVEN := "0,requireid,7,1"
  const ONE_OF_SEVEN := Recipe("", 2, 1, [FIRST_IS_ONE_OF_SEVEN], ["giveid,8,1"])

  lemma MatchesOneOfSeven(items: seq<Slot>)
    requires |items| == 2 && items[0].id == 7
    ensures Matched([ONE_OF_SEVEN], items) == if items[0].stack == 1 then Found(ONE_OF_SEVEN) else NoMatch
  {
    var conditions := [FIRST_IS_ONE_OF_SEVEN];
    PassedIff(conditions, items);
    CrashedIff(conditions, items);
    JudgeFirst(items);
    assert conditions[0] == FIRST_IS_ONE_OF_SEVEN;
    assert [ONE_OF_SEVEN][1..] == [];
  }

  lemma SplitFirst()
    ensures Pieces(FIRST_IS_ONE_OF_SEVEN, ",") == ["0", "requireid", "7", "1"]
  {
    var args := ["0", "requireid", "7", "1"];
    assert args[1..] == ["requireid", "7", "1"] && args[1..][1..] == ["7", "1"] && args[1..][1..][1..] == ["1"];
    assert Join(args, ",") == FIRST_IS_ONE_OF_SEVEN;
    PiecesOfJoin(args, ",");
  }

  lemma ParamsOfFirst(args: seq<string>)
    requires args == ["0", "requireid", "7", "1"]
    ensures IntParam(args, 0) == 0 && IntParam(args, 2) == 7 && IntParam(args, 3) == 1
  {
    AtoiDigit('0');
    AtoiDigit('7');
    AtoiDigit('1');
  }

  lemma JudgeFirst(items: seq<Slot>)
    requires |items| > 0 && items[0].id == 7
    ensures Judge(FIRST_IS_ONE_OF_SEVEN, items) == When(items[0].stack == 1)
  {
    SplitFirst();
    var args := Pieces(FIRST_IS_ONE_OF_SEVEN, ",");
    ParamsOfFirst(args);
    assert JudgeSlot(args, items, items[0]) == When(items[0].stack == 1);
  }

  lemma AtoiDigit(c: char)
    requires '0' <= c <= '9'
    ensures Atoi([c]) == c as int - '0' as int
  {
    assert [c][1..] == "";
    assert Digits([c], 0) == Digits("", c as int - '0' as int);
  }

  // ---- what each rule demands -----------------------------------------------------------

  // A rule is written as its arguments joined by commas, and numbers in decimal.

  ghost predicate NoCommas(args: seq<string>) {
    |args| > 0 && forall i :: 0 <= i < |args| ==> ',' !in args[i]
  }

  /** Too few arguments and an input that is not there, whatever the operation. */
  lemma JudgeRule(args: seq<string>, items: seq<Slot>)
    requires NoCommas(args)
    ensures |args| <= 2 ==> Judge(Join(args, ","), items) == Ignored
    ensures |args| > 2 && !(0 <= Atoi(args[0]) < |items|) ==> Judge(Join(args, ","), items) == Fails
    ensures |args| > 2 && 0 <= Atoi(args[0]) < |items| ==>
              Judge(Join(args, ","), items) == JudgeSlot(args, items, items[Atoi(args[0])])
  {
    ArgsOf(args);
  }

  function RequireId(i: nat, id: int, count: int): seq<string> {
    [Number(i), "requireid", Number(id), Number(count)]
  }

  /** `i,requireid,id,count`: the item is right, and the stack too unless the count is negative. */
  lemma RequireIdRule(items: seq<Slot>, i: nat, id: int, count: int)
    requires i < |items|
    ensures Judge(Join(RequireId(i, id, count), ","), items) ==
            if items[i].id == id && (count < 0 || items[i].stack == count) then Holds else Fails
  {
    var args := RequireId(i, id, count);
    AtoiNumber(i);
    AtoiNumber(id);
    AtoiNumber(count);
    JudgeRule(args, items);
    assert IntParam(args, 2) == id && IntParam(args, 3) == count;
  }

  function RequireIdOnly(i: nat, id: int): seq<string> {
    [Number(i), "requireid", Number(id)]
  }

  /** A count left out is 0. */
  lemma RequireIdOnlyRule(items: seq<Slot>, i: nat, id: int)
    requires i < |items|
    ensures Judge(Join(RequireIdOnly(i, id), ","), items) ==
            if items[i].id == id && items[i].stack == 0 then Holds else Fails
  {
    var args := RequireIdOnly(i, id);
    AtoiNumber(i);
    AtoiNumber(id);
    JudgeRule(args, items);
    assert IntParam(args, 2) == id && IntParam(args, 3) == 0;
  }

  function RequireIdxMult(i: nat, id: int, k: int, mult: int): seq<string> {
    [Number(i), "requireidxmult", Number(id), Number(k), Number(mult)]
  }

  /** `i,requireidxmult,id,k,mult`: the item is right and its stack is `mult` times that of
      input `k`, at least once. */
  lemma RequireIdxMultRule(items: seq<Slot>, i: nat, id: int, k: int, mult: int)
    requires i < |items|
    ensures Judge(Join(RequireIdxMult(i, id, k, mult), ","), items) ==
            if items[i].id == id && 0 <= k < |items| && items[i].stack == Times(items[k].stack, if mult < 1 then 1 else mult)
            then Holds else Fails
  {
    var args := RequireIdxMult(i, id, k, mult);
    AtoiNumber(i);
    AtoiNumber(id);
    AtoiNumber(k);
    AtoiNumber(mult);
    JudgeRule(args, items);
    SlotIdxMult(args, items, items[i]);
  }

  lemma SlotIdxMult(args: seq<string>, items: seq<Slot>, item: Slot)
    requires |args| == 5 && args[1] == "requireidxmult"
    ensures var id, k, mult := Atoi(args[2]), Atoi(args[3]), Atoi(args[4]);
            JudgeSlot(args, items, item) ==
            if item.id == id && 0 <= k < |items| && item.stack == Times(items[k].stack, if mult < 1 then 1 else mult)
            then Holds else Fails
  {
  }

  function Times(a: int, b: int): int {
    a * b
  }

  function RequireIdMult(i: nat, id: int, n: int): seq<string> {
    [Number(i), "requireidmult", Number(id), Number(n)]
  }

  /** `i,requireidmult,id,n`: the item is right and its stack is a multiple of `n`. The program
      divides by zero only when it gets that far. */
  lemma RequireIdMultRule(items: seq<Slot>, i: nat, id: int, n: int)
    requires i < |items|
    ensures var v := Judge(Join(RequireIdMult(i, id, n), ","), items);
            && (v == Faults <==> items[i].id == id && n == 0)
            && (v == Holds <==> items[i].id == id && n != 0 && exists q: int :: Times(q, n) == items[i].stack)
            && v != Ignored
  {
    var args := RequireIdMult(i, id, n);
    AtoiNumber(i);
    AtoiNumber(id);
    AtoiNumber(n);
    JudgeRule(args, items);
    assert IntParam(args, 2) == id && IntParam(args, 3) == n;
    if n != 0 {
      MultipleIff(items[i].stack, n);
    }
  }

  lemma MultipleIff(stack: int, n: int)
    requires n != 0
    ensures stack % n == 0 <==> exists q: int :: Times(q, n) == stack
  {
    assert stack == n * (stack / n) + stack % n;
    if stack % n == 0 {
      assert Times(stack / n, n) == stack;
    }
    forall q: int | Times(q, n) == stack ensures stack % n == 0 {
      MultipleRemainder(q, n);
    }
  }

  lemma MultipleRemainder(q: int, n: int)
    requires n != 0
    ensures (q * n) % n == 0
  {
    var x := q * n;
    var gap := q - x / n;
    assert x == n * (x / n) + x % n;
    assert x % n == n * gap;
    var m, t := if n > 0 then n else -n, if n > 0 then gap else -gap;
    assert m * t == n * gap;
    MultipleGap(m, t);
  }

  /** Multiples are at least one multiplier apart. */
  lemma MultipleGap(m: int, t: int)
    requires m > 0
    ensures t >= 1 ==> m * t >= m
    ensures t <= 0 ==> m * t <= 0
    ensures t <= -1 ==> m * t <= -m
  {
  }

  function ItemType(i: nat, v: int): seq<string> {
    [Number(i), "itemtype", Number(v)]
  }

  /** `i,itemtype,v` compares the type of the item. */
  lemma ItemTypeRule(items: seq<Slot>, i: nat, v: int)
    requires i < |items|
    ensures Judge(Join(ItemType(i, v), ","), items) ==
            if items[i].def.None? then Faults else if items[i].def.value.itemType == v then Holds else Fails
  {
    var args := ItemType(i, v);
    AtoiNumber(i);
    AtoiNumber(v);
    JudgeRule(args, items);
    assert IntParam(args, 2) == v;
  }

  function Quality(i: nat, v: int): seq<string> {
    [Number(i), "quality", Number(v)]
  }

  /** `i,quality,v` compares its quality. */
  lemma QualityRule(items: seq<Slot>, i: nat, v: int)
    requires i < |items|
    ensures Judge(Join(Quality(i, v), ","), items) ==
            if items[i].def.None? then Faults else if items[i].def.value.quality == v then Holds else Fails
  {
    var args := Quality(i, v);
    AtoiNumber(i);
    AtoiNumber(v);
    JudgeRule(args, items);
    assert IntParam(args, 2) == v;
  }

  /** The property names and the fields they stand for. */
  lemma PropertyFields(d: ItemDef)
    ensures GetProperty(d, "level") == d.level && GetProperty(d, "quality") == d.quality
    ensures GetProperty(d, "type") == d.itemType && GetProperty(d, "weapontype") == d.weaponType
    ensures GetProperty(d, "armortype") == d.armorType && GetProperty(d, "equiptype") == d.equipType
    ensures forall name :: KnownProperty(name) <==>
              name in {"level", "quality", "type", "weapontype", "armortype", "equiptype"}
  {
  }

  /** The comparator symbols and what they compare; any other symbol compares nothing. */
  lemma Comparators(a: int, b: int, symbol: string)
    ensures Compare(a, GetComparator("="), b) <==> a == b
    ensures Compare(a, GetComparator("!="), b) <==> a != b
    ensures Compare(a, GetComparator("<"), b) <==> a < b
    ensures Compare(a, GetComparator("<="), b) <==> a <= b
    ensures Compare(a, GetComparator(">"), b) <==> a > b
    ensures Compare(a, GetComparator(">="), b) <==> a >= b
    ensures symbol !in {"=", "!=", "<", "<=", ">", ">="} ==> !Compare(a, GetComparator(symbol), b)
  {
  }

  function Cmp(i: nat, name: string, symbol: string, v: int): seq<string> {
    [Number(i), "cmp", name, symbol, Number(v)]
  }

  /** `i,cmp,name,symbol,v` compares a property with a number. An unknown name, and a property
      whose value is -1, fail. */
  lemma CmpRule(items: seq<Slot>, i: nat, name: string, symbol: string, v: int)
    requires i < |items| && ',' !in name && ',' !in symbol
    ensures Judge(Join(Cmp(i, name, symbol, v), ","), items) ==
            if !KnownProperty(name) then Fails
            else if items[i].def.None? then Faults
            else if GetProperty(items[i].def.value, name) == -1 then Fails
            else if Compare(GetProperty(items[i].def.value, name), GetComparator(symbol), v) then Holds else Fails
  {
    var args := Cmp(i, name, symbol, v);
    AtoiNumber(i);
    AtoiNumber(v);
    JudgeRule(args, items);
    assert args[2] == name && args[3] == symbol && IntParam(args, 4) == v;
  }

  function CmpOnly(i: nat, name: string): seq<string> {
    [Number(i), "cmp", name]
  }

  /** A comparator left out is read through a null pointer. */
  lemma CmpOnlyRule(items: seq<Slot>, i: nat, name: string)
    requires i < |items| && ',' !in name
    ensures Judge(Join(CmpOnly(i, name), ","), items) ==
            if !KnownProperty(name) then Fails
            else if items[i].def.None? then Faults
            else if GetProperty(items[i].def.value, name) == -1 then Fails else Faults
  {
    var args := CmpOnly(i, name);
    AtoiNumber(i);
    JudgeRule(args, items);
    assert args[2] == name;
  }

  /** An operation the program does not know is skipped, and so keeps the recipe from passing. */
  lemma UnknownRule(items: seq<Slot>, args: seq<string>)
    requires NoCommas(args) && |args| > 2 && 0 <= Atoi(args[0]) < |items|
    requires args[1] !in {"requireid", "requireidxmult", "requireidmult", "itemtype", "quality", "cmp"}
    ensures Judge(Join(args, ","), items) == Ignored
  {
    JudgeRule(args, items);
  }

  /** The C library's number reading: white space, a sign, digits up to the first other
      character. */
  lemma {:induction false} AtoiReads(space: string, n: nat, rest: string)
    requires forall i :: 0 <= i < |space| ==> IsSpace(space[i])
    requires rest == "" || !('0' <= rest[0] <= '9')
    ensures Atoi(space + (Decimal(n) + rest)) == n
    ensures Atoi(space + ("-" + (Decimal(n) + rest))) == 0 - n
    ensures Atoi(space + ("+" + (Decimal(n) + rest))) == n
  {
    if |space| == 0 {
      var digits := Decimal(n);
      assert "" + (digits + rest) == digits + rest;
      assert space + ("-" + (digits + rest)) == "-" + (digits + rest);
      assert space + ("+" + (digits + rest)) == "+" + (digits + rest);
      assert ("-" + (digits + rest))[1..] == digits + rest && ("+" + (digits + rest))[1..] == digits + rest;
      DigitsStop(digits, rest, 0);
      DigitsDecimal(n);
    } else {
      AtoiReads(space[1..], n, rest);
      SkipSpace(space, Decimal(n) + rest);
      SkipSpace(space, "-" + (Decimal(n) + rest));
      SkipSpace(space, "+" + (Decimal(n) + rest));
    }
  }

  lemma SkipSpace(space: string, s: string)
    requires |space| > 0 && IsSpace(space[0])
    ensures Atoi(space + s) == Atoi(space[1..] + s)
  {
    assert (space + s)[1..] == space[1..] + s;
  }

  lemma {:induction false} DigitsStop(digits: string, rest: string, n: nat)
    requires forall i :: 0 <= i < |digits| ==> '0' <= digits[i] <= '9'
    requires rest == "" || !('0' <= rest[0] <= '9')
    ensures Digits(digits + rest, n) == Digits(digits, n)
    decreases |digits|
  {
    if |digits| == 0 {
      assert digits + rest == rest;
    } else {
      assert (digits + rest)[1..] == digits[1..] + rest;
      DigitsStop(digits[1..], rest, 10 * n + (digits[0] as int - '0' as int));
    }
  }

  // ---- what each action gives -----------------------------------------------------------

  function GiveId(id: int, count: int): seq<string> {
    ["giveid", Number(id), Number(count)]
  }

  /** `giveid,id,count`: one new stack, of one item if the count is not positive. */
  lemma GiveIdAction(items: seq<Slot>, id: int, count: int)
    ensures Produced(Join(GiveId(id, count), ","), items) == [Slot(0, id, if count >= 1 then count else 1, None)]
  {
    var args := GiveId(id, count);
    AtoiNumber(id);
    AtoiNumber(count);
    ArgsOf(args);
    assert IntParam(args, 1) == id && IntParam(args, 2) == count;
  }

  function GiveIdxMult(id: int, k: int, mult: int): seq<string> {
    ["giveidxmult", Number(id), Number(k), Number(mult)]
  }

  /** `giveidxmult,id,k,mult`: as many as input `k` has, times `mult`, at least once. */
  lemma GiveIdxMultAction(items: seq<Slot>, id: int, k: int, mult: int)
    ensures Produced(Join(GiveIdxMult(id, k, mult), ","), items) ==
            if 0 <= k < |items| then [Slot(0, id, Times(items[k].stack, if mult < 1 then 1 else mult), None)] else []
  {
    var args := GiveIdxMult(id, k, mult);
    AtoiNumber(id);
    AtoiNumber(k);
    AtoiNumber(mult);
    ArgsOf(args);
    assert IntParam(args, 1) == id && IntParam(args, 2) == k && IntParam(args, 3) == mult;
  }

  function GiveIdxDiv(id: int, k: int, div: int): seq<string> {
    ["giveidxdiv", Number(id), Number(k), Number(div)]
  }

  /** The largest count that `d` times fits in `stack`, if that is positive. */
  ghost predicate Fitting(out: seq<Slot>, id: int, stack: int, d: int) {
    && (out == [] <==> stack < d)
    && (out != [] ==> |out| == 1 && out[0] == Slot(0, id, out[0].stack, None) &&
                      Times(d, out[0].stack) <= stack < Times(d, out[0].stack) + d)
  }

  /** `giveidxdiv,id,k,div`: how often `div`, or 1, fits in the stack of input `k`. */
  lemma GiveIdxDivAction(items: seq<Slot>, id: int, k: int, div: int)
    ensures var out := Produced(Join(GiveIdxDiv(id, k, div), ","), items);
            if 0 <= k < |items| then Fitting(out, id, items[k].stack, if div < 1 then 1 else div) else out == []
  {
    var args := GiveIdxDiv(id, k, div);
    AtoiNumber(id);
    AtoiNumber(k);
    AtoiNumber(div);
    ArgsOf(args);
    assert IntParam(args, 1) == id && IntParam(args, 2) == k && IntParam(args, 3) == div;
    if 0 <= k < |items| {
      var d := if div < 1 then 1 else div;
      var q := Quotient(items[k].stack, d);
      assert Produced(Join(args, ","), items) == if q > 0 then [Slot(0, id, q, None)] else [];
      DivisionFits(items[k].stack, d, q);
    }
  }

  lemma DivisionFits(a: int, d: int, q: int)
    requires d >= 1 && q == Quotient(a, d)
    ensures q > 0 <==> a >= d
    ensures q > 0 ==> Times(d, q) <= a < Times(d, q) + d
  {
    QuotientTruncates(a, d);
    MultipleGap(d, q);
  }

  lemma UnknownAction(items: seq<Slot>, args: seq<string>)
    requires NoCommas(args) && args[0] !in {"giveid", "giveidxmult", "giveidxdiv"}
    ensures Produced(Join(args, ","), items) == []
  {
    ArgsOf(args);
  }

  lemma OutputsSnoc(a: seq<string>, x: string, items: seq<Slot>)
    ensures Outputs(a + [x], items) == Outputs(a, items) + Produced(x, items)
  {
    assert (a + [x])[..|a|] == a;
  }

  /** Actions are performed one after the other. */
  lemma {:induction false} OutputsAppend(a: seq<string>, b: seq<string>, items: seq<Slot>)
    ensures Outputs(a + b, items) == Outputs(a, items) + Outputs(b, items)
  {
    if |b| == 0 {
      assert a + b == a;
    } else {
      var front, last := b[..|b| - 1], b[|b| - 1];
      OutputsAppend(a, front, items);
      OutputsAppendOne(a, front, last, items);
      assert b == front + [last];
    }
  }

  lemma OutputsAppendOne(a: seq<string>, b: seq<string>, x: string, items: seq<Slot>)
    requires Outputs(a + b, items) == Outputs(a, items) + Outputs(b, items)
    ensures Outputs(a + (b + [x]), items) == Outputs(a, items) + Outputs(b + [x], items)
  {
    Assoc3(a, b, [x]);
    OutputsSnoc(a + b, x, items);
    OutputsSnoc(b, x, items);
    Assoc3(Outputs(a, items), Outputs(b, items), Produced(x, items));
  }

  // ---- which recipe is chosen -----------------------------------------------------------

  /** The recipe decides: it has the right number of inputs and its conditions do not just
      fail. */
  ghost predicate Decides(r: Recipe, items: seq<Slot>) {
    r.inputCount == |items| && Checked(r.conditions, items) != Failed
  }

  ghost predicate DecidesFirst(recipes: seq<Recipe>, items: seq<Slot>, i: nat) {
    i < |recipes| && Decides(recipes[i], items) && forall j :: 0 <= j < i ==> !Decides(recipes[j], items)
  }

  /** The first recipe that decides is chosen, or its conditions crash the search. */
  lemma {:induction false} MatchedIsFirst(recipes: seq<Recipe>, items: seq<Slot>, i: nat)
    requires DecidesFirst(recipes, items, i)
    ensures Matched(recipes, items) ==
            if Checked(recipes[i].conditions, items) == Passed then Found(recipes[i]) else MatchCrashed
  {
    if i > 0 {
      var rest := recipes[1..];
      assert !Decides(recipes[0], items);
      assert rest[i - 1] == recipes[i];
      forall j | 0 <= j < i - 1 ensures !Decides(rest[j], items) {
        assert rest[j] == recipes[j + 1];
      }
      MatchedIsFirst(rest, items, i - 1);
    }
  }

  /** Without one nothing matches. */
  lemma {:induction false} NoMatchIff(recipes: seq<Recipe>, items: seq<Slot>)
    ensures Matched(recipes, items) == NoMatch <==> forall i :: 0 <= i < |recipes| ==> !Decides(recipes[i], items)
  {
    if |recipes| > 0 {
      var rest := recipes[1..];
      NoMatchIff(rest, items);
      forall i | 1 <= i < |recipes| ensures recipes[i] == rest[i - 1] {}
      if forall i :: 0 <= i < |recipes| ==> !Decides(recipes[i], items) {
        forall i | 0 <= i < |rest| ensures !Decides(rest[i], items) {
          assert rest[i] == recipes[i + 1];
        }
      }
    }
  }

  /** Crafting succeeds exactly when something comes out; what was there before stays in
      front. */
  lemma CraftedIff(recipes: seq<Recipe>, recipe: Option<Recipe>, items: seq<Slot>, given: seq<Slot>)
    ensures var (r, out) := Crafted(recipes, recipe, items, given);
            && (r == Crashed <==> recipe.None? && Matched(recipes, items) == MatchCrashed)
            && (r == Passed ==> out != [] && (recipe.None? ==> Matched(recipes, items).Found?))
            && (r == Failed ==> out == [] || (recipe.None? && Matched(recipes, items) == NoMatch && out == given))
            && (recipe.Some? ==> out == given + Outputs(recipe.value.actions, items))
            && (recipe.None? && Matched(recipes, items).Found? ==> out == given + Outputs(Matched(recipes, items).recipe.actions, items))
            && (recipe.None? && !Matched(recipes, items).Found? ==> out == given)
  {
  }

  /** Inputs are sorted by the type of their items and, within a type, by their IDs, ascending. */
  lemma SortedAscends(s: seq<Slot>, i: nat, j: nat)
    requires Sorted(s) && AllDefined(s) && i < j < |s|
    ensures var a, b := s[i].def.value, s[j].def.value;
            a.itemType < b.itemType || (a.itemType == b.itemType && a.id <= b.id)
  {
    assert !SortComparator(s[j], s[i]);
  }
}
