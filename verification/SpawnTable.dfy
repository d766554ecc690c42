/** SpawnPackageDef::GetRandomSpawn: weighted selection from a table of shares, optionally
    divided between the two sides of a line. */
module SpawnTable {

  import opened Common

  /** `spawnID[a]` and `spawnShare[a]`, both unsigned. */
  datatype Entry = Entry(id: nat, share: nat)

  datatype Orient = NoDivider | Vertical | Horizontal

  datatype Override = Override(prop: int, creature: int)

  datatype Package = Package(entries: seq<Entry>, maxShares: int, overrides: seq<Override>,
                             divideOrient: Orient, divideLocation: int, divideShareThreshold: int)

  datatype Point = Point(id: int, x: int, z: int)

  function Prefix(es: seq<Entry>, n: nat): nat
    requires n <= |es|
  {
    if n == 0 then 0 else Prefix(es, n - 1) + es[n - 1].share
  }

  function Total(es: seq<Entry>): nat {
    Prefix(es, |es|)
  }

  /** The rolls of entry `a` are the next `share` numbers after those of earlier entries. */
  predicate Picks(es: seq<Entry>, roll: int, a: int) {
    0 <= a < |es| && Prefix(es, a) < roll <= Prefix(es, a + 1)
  }

  function Overridden(os: seq<Override>, prop: int): Option<int> {
    if |os| == 0 then None
    else if os[0].prop == prop then Some(os[0].creature)
    else Overridden(os[1..], prop)
  }

  /** North or west of the dividing line. */
  predicate LowSide(p: Package, point: Point) {
    (match p.divideOrient
     case Horizontal => point.z
     case Vertical => point.x
     case NoDivider => 0) < p.divideLocation
  }

  function MinRoll(p: Package, point: Option<Point>): int {
    if p.divideLocation != 0 && point.Some? && !LowSide(p, point.value) then 1 + p.divideShareThreshold else 1
  }

  function MaxRoll(p: Package, point: Option<Point>): int {
    if p.divideLocation != 0 && point.Some? && LowSide(p, point.value) then p.divideShareThreshold else p.maxShares
  }

  /** Nothing is known of a draw from an empty range. */
  method RandInt(min: int, max: int) returns (r: int)
    ensures min <= max ==> min <= r <= max
  {
    r := *;
    if min <= max {
      r :| min <= r <= max;
    }
  }

  /** The creature, and the roll that chose it unless the point overrides the table. */
  method GetRandomSpawn(p: Package, point: Option<Point>) returns (r: int, drawn: Option<int>)
    ensures point.Some? && Overridden(p.overrides, point.value.id).Some? ==>
              r == Overridden(p.overrides, point.value.id).value && drawn.None?
    ensures point.None? || Overridden(p.overrides, point.value.id).None? ==>
              && drawn.Some?
              && (MinRoll(p, point) <= MaxRoll(p, point) ==> MinRoll(p, point) <= drawn.value <= MaxRoll(p, point))
              && (forall a :: Picks(p.entries, drawn.value, a) ==> r == p.entries[a].id)
              && ((forall a :: !Picks(p.entries, drawn.value, a)) ==> r == -1)
  {
    if point.Some? {
      for i := 0 to |p.overrides|
        invariant Overridden(p.overrides, point.value.id) == Overridden(p.overrides[i..], point.value.id)
      {
        if p.overrides[i].prop == point.value.id {
          return p.overrides[i].creature, None;
        }
        assert p.overrides[i..][1..] == p.overrides[i + 1..];
      }
    }
    var minRoll, maxRoll := 1, p.maxShares;
    if p.divideLocation != 0 && point.Some? {
      var compareLoc := 0;
      if p.divideOrient == Horizontal {
        compareLoc := point.value.z;
      } else if p.divideOrient == Vertical {
        compareLoc := point.value.x;
      }
      if compareLoc < p.divideLocation {
        maxRoll := p.divideShareThreshold;
      } else {
        minRoll := 1 + p.divideShareThreshold;
      }
    }
    var roll := RandInt(minRoll, maxRoll);
    var base := 1;
    for a := 0 to |p.entries|
      invariant base == 1 + Prefix(p.entries, a)
      invariant forall b :: 0 <= b < a ==> !Picks(p.entries, roll, b)
    {
      if base <= roll < base + p.entries[a].share {
        assert Picks(p.entries, roll, a);
        forall b | Picks(p.entries, roll, b) ensures b == a {
          PicksOne(p.entries, roll, a, b);
        }
        return p.entries[a].id, Some(roll);
      }
      base := base + p.entries[a].share;
    }
    return -1, Some(roll);
  }

  lemma {:induction false} PrefixMonotone(es: seq<Entry>, m: nat, n: nat)
    requires m <= n <= |es|
    ensures Prefix(es, m) <= Prefix(es, n)
  {
    if m < n {
      PrefixMonotone(es, m, n - 1);
    }
  }

  lemma PicksOne(es: seq<Entry>, roll: int, a: int, b: int)
    requires Picks(es, roll, a) && Picks(es, roll, b)
    ensures a == b
  {
    if a < b { PrefixMonotone(es, a + 1, b); }
    if b < a { PrefixMonotone(es, b + 1, a); }
  }

  lemma {:induction false} PickOf(es: seq<Entry>, roll: int, n: nat) returns (a: int)
    requires n <= |es| && 1 <= roll <= Prefix(es, n)
    ensures Picks(es, roll, a) && a < n
  {
    if roll <= Prefix(es, n - 1) {
      a := PickOf(es, roll, n - 1);
    } else {
      a := n - 1;
    }
  }

  /** Some entry is picked exactly by the rolls from 1 to the sum of the shares. */
  lemma PicksSomeIff(es: seq<Entry>, roll: int)
    ensures (exists a :: Picks(es, roll, a)) <==> 1 <= roll <= Total(es)
  {
    if 1 <= roll <= Total(es) {
      var a := PickOf(es, roll, |es|);
    }
    forall a | Picks(es, roll, a) ensures 1 <= roll <= Total(es) {
      PrefixMonotone(es, a + 1, |es|);
    }
  }

  /** How many of the rolls 1 .. n pick entry `a`. */
  function Rolls(es: seq<Entry>, a: int, n: nat): nat {
    if n == 0 then 0 else Rolls(es, a, n - 1) + if Picks(es, n, a) then 1 else 0
  }

  lemma {:induction false} RollsUpTo(es: seq<Entry>, a: nat, n: nat)
    requires a < |es|
    ensures Rolls(es, a, n) ==
            if n <= Prefix(es, a) then 0
            else if n <= Prefix(es, a + 1) then n - Prefix(es, a)
            else es[a].share
  {
    if n > 0 {
      RollsUpTo(es, a, n - 1);
    }
  }

  /** Among the rolls 1 .. sum of shares, each entry is picked by exactly its share. */
  lemma SharesExact(es: seq<Entry>, a: nat)
    requires a < |es|
    ensures Rolls(es, a, Total(es)) == es[a].share
  {
    RollsUpTo(es, a, Total(es));
    PrefixMonotone(es, a + 1, |es|);
  }

  /** When the divide threshold is the boundary before entry `m`, the low side picks only
      earlier entries and the high side only later ones. */
  lemma DivideAtBoundary(p: Package, point: Point, roll: int, m: nat, a: int)
    requires m <= |p.entries| && Prefix(p.entries, m) == p.divideShareThreshold && p.divideLocation != 0
    requires MinRoll(p, Some(point)) <= roll <= MaxRoll(p, Some(point)) && Picks(p.entries, roll, a)
    ensures a < m <==> LowSide(p, point)
  {
    if a < m {
      PrefixMonotone(p.entries, a + 1, m);
    } else {
      PrefixMonotone(p.entries, m, a);
    }
  }

  ghost predicate Boundary(es: seq<Entry>, threshold: int) {
    exists m: nat :: m <= |es| && Prefix(es, m) == threshold
  }

  /** No entry is picked both by a roll up to the threshold and by a roll beyond it. */
  ghost predicate Apart(es: seq<Entry>, threshold: int, maxShares: int) {
    forall low, high, a :: 1 <= low <= threshold < high <= maxShares && Picks(es, low, a) ==> !Picks(es, high, a)
  }

  /** The two sides share no entry exactly when the threshold is a boundary of the table, or one
      of the sides has no roll that picks anything. The shares and their announced sum are read
      independently, so nothing relates the two. */
  lemma SidesApartIff(es: seq<Entry>, threshold: int, maxShares: int)
    ensures Apart(es, threshold, maxShares) <==>
            threshold < 1 || threshold >= maxShares || threshold >= Total(es) || Boundary(es, threshold)
  {
    if threshold < 1 || threshold >= maxShares {
    } else if threshold >= Total(es) {
      forall high, a | threshold < high ensures !Picks(es, high, a) {
        PicksSomeIff(es, high);
      }
    } else if Boundary(es, threshold) {
      var m: nat :| m <= |es| && Prefix(es, m) == threshold;
      forall low, high, a | 1 <= low <= threshold < high <= maxShares && Picks(es, low, a)
        ensures !Picks(es, high, a)
      {
        if a < m { PrefixMonotone(es, a + 1, m); } else { PrefixMonotone(es, m, a); }
      }
    } else {
      var a := PickOf(es, threshold, |es|);
      assert Prefix(es, a + 1) != threshold;
      assert Picks(es, threshold, a) && Picks(es, threshold + 1, a);
    }
  }

  // ---- overrides and sides --------------------------------------------------------------

  /** The first override for the point counts. */
  lemma {:induction false} OverrideIsFirst(os: seq<Override>, prop: int, i: nat)
    requires i <= |os| && forall j :: 0 <= j < i ==> os[j].prop != prop
    ensures i < |os| && os[i].prop == prop ==> Overridden(os, prop) == Some(os[i].creature)
    ensures i == |os| ==> Overridden(os, prop) == None
  {
    if i > 0 {
      assert forall j :: 0 <= j < i - 1 ==> os[1..][j] == os[j + 1];
      OverrideIsFirst(os[1..], prop, i - 1);
    }
  }

  /** A horizontal line divides by the z coordinate, a vertical one by x; the rolls of the two
      sides meet at the threshold, and without a line or a point all rolls are drawn from. */
  lemma SideRolls(p: Package, point: Point)
    ensures p.divideLocation != 0 && p.divideOrient == Horizontal ==>
              (if point.z < p.divideLocation then MinRoll(p, Some(point)) == 1 && MaxRoll(p, Some(point)) == p.divideShareThreshold
               else MinRoll(p, Some(point)) == p.divideShareThreshold + 1 && MaxRoll(p, Some(point)) == p.maxShares)
    ensures p.divideLocation != 0 && p.divideOrient == Vertical ==>
              (if point.x < p.divideLocation then MinRoll(p, Some(point)) == 1 && MaxRoll(p, Some(point)) == p.divideShareThreshold
               else MinRoll(p, Some(point)) == p.divideShareThreshold + 1 && MaxRoll(p, Some(point)) == p.maxShares)
    ensures p.divideLocation == 0 ==> MinRoll(p, Some(point)) == 1 && MaxRoll(p, Some(point)) == p.maxShares
    ensures MinRoll(p, None) == 1 && MaxRoll(p, None) == p.maxShares
  {
  }
}
