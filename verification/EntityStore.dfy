/** Entities in the cluster's key store: ClusterEntityWriter groups a stream of
    (section, key, value) triples into runs and flushes each run to one hash;
    ClusterEntityReader loads a section's hash on first use. */
module EntityStore {
  import ListCodec

  type Fields = map<string, string>

  /** The part of the store an entity uses: hashes and lists, both by key. */
  datatype Db = Db(hashes: map<string, Fields>, lists: map<string, seq<string>>) {
    function Hash(key: string): Fields {
      if key in hashes then hashes[key] else map[]
    }

    function List(key: string): seq<string> {
      if key in lists then lists[key] else []
    }
  }

  function Without(l: seq<string>, x: string): seq<string> {
    if |l| == 0 then [] else (if l[0] == x then [] else [l[0]]) + Without(l[1..], x)
  }

  function Merged(h: Fields, pairs: seq<(string, string)>): Fields {
    if |pairs| == 0 then h
    else Merged(h, pairs[..|pairs| - 1])[pairs[|pairs| - 1].0 := pairs[|pairs| - 1].1]
  }

  ghost predicate Enumerates(pairs: seq<(string, string)>, h: Fields) {
    && (forall i :: 0 <= i < |pairs| ==> pairs[i].0 in h && h[pairs[i].0] == pairs[i].1)
    && (forall f :: f in h ==> exists i :: 0 <= i < |pairs| && pairs[i].0 == f)
  }

  /** The store's client, with the commands the entity code sends. */
  class Client {
    var db: Db

    method LRange(key: string) returns (l: seq<string>)
      ensures l == db.List(key)
    {
      l := db.List(key);
    }

    method LRem(key: string, value: string)
      modifies this
      ensures db == old(db).(lists := old(db).lists[key := Without(old(db).List(key), value)])
    {
      db := db.(lists := db.lists[key := Without(db.List(key), value)]);
    }

    method RPush(key: string, value: string)
      modifies this
      ensures db == old(db).(lists := old(db).lists[key := old(db).List(key) + [value]])
    {
      db := db.(lists := db.lists[key := db.List(key) + [value]]);
    }

    method HMSet(key: string, pairs: seq<(string, string)>)
      modifies this
      ensures db == old(db).(hashes := old(db).hashes[key := Merged(old(db).Hash(key), pairs)])
    {
      db := db.(hashes := db.hashes[key := Merged(db.Hash(key), pairs)]);
    }

    method Del(key: string)
      modifies this
      ensures db == Db(old(db).hashes - {key}, old(db).lists - {key})
    {
      db := Db(db.hashes - {key}, db.lists - {key});
    }

    /** The fields come back in no particular order. */
    method HGetAll(key: string) returns (pairs: seq<(string, string)>)
      ensures Enumerates(pairs, db.Hash(key))
    {
      var h := db.Hash(key);
      var todo := h.Keys;
      pairs := [];
      while todo != {}
        invariant todo <= h.Keys
        invariant forall i :: 0 <= i < |pairs| ==> pairs[i].0 in h && h[pairs[i].0] == pairs[i].1
        invariant forall f :: f in h && f !in todo ==> exists i :: 0 <= i < |pairs| && pairs[i].0 == f
        decreases todo
      {
        var f :| f in todo;
        ghost var before := pairs;
        pairs := pairs + [(f, h[f])];
        todo := todo - {f};
        forall g | g in h && g !in todo ensures exists i :: 0 <= i < |pairs| && pairs[i].0 == g {
          if g == f {
            assert pairs[|pairs| - 1].0 == g;
          } else {
            var i :| 0 <= i < |before| && before[i].0 == g;
            assert pairs[i].0 == g;
          }
        }
      }
    }
  }

  // ---- what a write means ---------------------------------------------------------------

  datatype Entry = Entry(section: string, key: string, value: string)

  function SectionKey(base: string, section: string): string {
    base + ":" + if section == "" then "DEFAULT" else section
  }

  function ListKey(base: string): string {
    base + "^_SUBKEYS_"
  }

  /** One triple on its own: the section's key moves to the end of the list of subkeys and
      its hash gets the field. */
  function WriteOne(db: Db, base: string, e: Entry): Db {
    var k := SectionKey(base, e.section);
    Db(db.hashes[k := db.Hash(k)[e.key := e.value]],
       db.lists[ListKey(base) := Without(db.List(ListKey(base)), k) + [k]])
  }

  function WriteAll(db: Db, base: string, es: seq<Entry>): Db {
    if |es| == 0 then db
    else WriteOne(WriteAll(db, base, es[..|es| - 1]), base, es[|es| - 1])
  }

  function Written(base: string, es: seq<Entry>): set<string> {
    set i | 0 <= i < |es| :: SectionKey(base, es[i].section)
  }

  /** Subkeys listed from an earlier write that this one did not touch. */
  function Stale(db: Db, base: string, es: seq<Entry>): set<string> {
    (set k | k in db.List(ListKey(base))) - Written(base, es)
  }

  function Ended(db: Db, base: string, es: seq<Entry>): Db {
    var w := WriteAll(db, base, es);
    Db(w.hashes - Stale(db, base, es), w.lists - Stale(db, base, es))
  }

  class Writer {
    const mCatalog: string
    const mID: string
    const mClient: Client
    var mSection: string
    var mStringValues: seq<Entry>

    constructor (client: Client, catalog: string, id: string)
      ensures mClient == client && mCatalog == catalog && mID == id
      ensures mSection == "" && mStringValues == []
    {
      mClient, mCatalog, mID := client, catalog, id;
      mSection, mStringValues := "", [];
    }

    function Base(): string {
      mCatalog + ":" + mID
    }

    method Value(key: string, value: string)
      modifies this`mStringValues
      ensures mStringValues == old(mStringValues) + [Entry(mSection, key, value)]
    {
      mStringValues := mStringValues + [Entry(mSection, key, value)];
    }

    method ListValue(key: string, value: seq<string>)
      modifies this`mStringValues
      ensures mStringValues ==
              old(mStringValues) + [Entry(mSection, key, ListCodec.Printed("", value))]
    {
      var v := ListCodec.Print(value);
      mStringValues := mStringValues + [Entry(mSection, key, v)];
    }

    /** Flushes the pending run `a` of one section, if there is one. `done` has been written
        already and `run` is what the pairs in `a` stand for. */
    method Flush(section: string, a: seq<(string, string)>, keys: set<string>,
                 ghost db0: Db, ghost listed: set<string>,
                 ghost done: seq<Entry>, ghost run: seq<Entry>)
      returns (currentKeys: set<string>)
      requires IsRun(run, section, a)
      requires mClient.db == WriteAll(db0, Base(), done)
      requires keys == listed - Written(Base(), done)
      modifies mClient
      ensures mClient.db == WriteAll(db0, Base(), done + run)
      ensures currentKeys == listed - Written(Base(), done + run)
    {
      if |a| == 0 {
        assert done + run == done;
        return keys;
      }
      var secKey := SectionKey(Base(), section);
      currentKeys := keys - {secKey};
      FlushRun(secKey, a);
      RunIsWriteAll(db0, Base(), done, run, section, a);
      WrittenRun(Base(), done, run, section, a);
    }

    method FlushRun(secKey: string, a: seq<(string, string)>)
      modifies mClient
      ensures mClient.db == WriteRun(old(mClient.db), ListKey(Base()), secKey, a)
    {
      mClient.LRem(ListKey(Base()), secKey);
      mClient.RPush(ListKey(Base()), secKey);
      mClient.HMSet(secKey, a);
    }

    /** Writing by runs of equal sections, then clearing what was listed before and not
        written, has the effect of writing triple by triple. */
    method End() returns (ok: bool)
      modifies mClient
      ensures ok && mClient.db == Ended(old(mClient.db), Base(), mStringValues)
    {
      var listed := mClient.LRange(ListKey(Base()));
      var currentKeys := WriteRuns(set k | k in listed);
      Clear(currentKeys);
      ok := true;
    }

    method WriteRuns(listed: set<string>) returns (currentKeys: set<string>)
      modifies mClient
      ensures mClient.db == WriteAll(old(mClient.db), Base(), mStringValues)
      ensures currentKeys == listed - Written(Base(), mStringValues)
    {
      var sec := "";
      var a: seq<(string, string)> := [];
      currentKeys := listed;
      ghost var db0, done, run: seq<Entry> := mClient.db, [], [];
      for i := 0 to |mStringValues|
        invariant done + run == mStringValues[..i] && IsRun(run, sec, a)
        invariant mClient.db == WriteAll(db0, Base(), done)
        invariant currentKeys == listed - Written(Base(), done)
      {
        var val := mStringValues[i];
        if val.section != sec {
          currentKeys := Flush(sec, a, currentKeys, db0, listed, done, run);
          sec, a := val.section, [];
          done, run := done + run, [];
        }
        a, run := a + [(val.key, val.value)], run + [val];
        Extended(mStringValues, i, done, run);
      }
      currentKeys := Flush(sec, a, currentKeys, db0, listed, done, run);
      assert done + run == mStringValues;
    }

    method Clear(keys: set<string>)
      modifies mClient
      ensures mClient.db == Db(old(mClient.db).hashes - keys, old(mClient.db).lists - keys)
    {
      var todo := keys;
      while todo != {}
        invariant todo <= keys
        invariant mClient.db.hashes == old(mClient.db).hashes - (keys - todo)
        invariant mClient.db.lists == old(mClient.db).lists - (keys - todo)
        decreases todo
      {
        var k :| k in todo;
        mClient.Del(k);
        todo := todo - {k};
      }
      assert keys - todo == keys;
    }
  }

  lemma Extended(es: seq<Entry>, i: nat, done: seq<Entry>, run: seq<Entry>)
    requires i < |es| && |run| > 0 && run[|run| - 1] == es[i]
    requires done + run[..|run| - 1] == es[..i]
    ensures done + run == es[..i + 1]
  {
    assert run == run[..|run| - 1] + [es[i]];
  }

  // ---- the grouped form refines the simple one ------------------------------------------

  function WriteRun(db: Db, listKey: string, k: string, pairs: seq<(string, string)>): Db {
    Db(db.hashes[k := Merged(db.Hash(k), pairs)],
       db.lists[listKey := Without(db.List(listKey), k) + [k]])
  }

  ghost predicate IsRun(es: seq<Entry>, section: string, pairs: seq<(string, string)>) {
    |es| == |pairs| &&
    forall i :: 0 <= i < |es| ==> es[i] == Entry(section, pairs[i].0, pairs[i].1)
  }

  lemma {:induction false} WithoutAppend(l: seq<string>, m: seq<string>, x: string)
    ensures Without(l + m, x) == Without(l, x) + Without(m, x)
  {
    if |l| == 0 {
      assert l + m == m;
    } else {
      var rest := l[1..];
      WithoutAppend(rest, m, x);
      assert l + m == [l[0]] + (rest + m) && l == [l[0]] + rest;
      WithoutCons(l[0], rest + m, x);
      WithoutCons(l[0], rest, x);
    }
  }

  lemma WithoutCons(y: string, l: seq<string>, x: string)
    ensures Without([y] + l, x) == (if y == x then [] else [y]) + Without(l, x)
  {
    assert ([y] + l)[1..] == l;
  }

  lemma {:induction false} WithoutTwice(l: seq<string>, x: string)
    ensures Without(Without(l, x), x) == Without(l, x)
  {
    if |l| > 0 {
      WithoutTwice(l[1..], x);
      WithoutAppend(if l[0] == x then [] else [l[0]], Without(l[1..], x), x);
    }
  }

  lemma WrittenRun(base: string, done: seq<Entry>, run: seq<Entry>, section: string,
                   pairs: seq<(string, string)>)
    requires |run| > 0 && IsRun(run, section, pairs)
    ensures Written(base, done + run) == Written(base, done) + {SectionKey(base, section)}
  {
    var es := done + run;
    forall x | x in Written(base, done) ensures x in Written(base, es) {
      var i :| 0 <= i < |done| && x == SectionKey(base, done[i].section);
      assert es[i] == done[i];
    }
    assert es[|done|] == run[0];
    forall x | x in Written(base, es)
      ensures x in Written(base, done) || x == SectionKey(base, section)
    {
      var i :| 0 <= i < |es| && x == SectionKey(base, es[i].section);
      assert es[i] == if i < |done| then done[i] else run[i - |done|];
    }
  }

  /** One more triple of the same section extends a flushed run. */
  lemma RunExtends(db: Db, base: string, section: string, pairs: seq<(string, string)>, e: Entry)
    requires |pairs| > 0 && e.section == section
    ensures WriteOne(WriteRun(db, ListKey(base), SectionKey(base, section), pairs), base, e) ==
            WriteRun(db, ListKey(base), SectionKey(base, section), pairs + [(e.key, e.value)])
  {
    var k := SectionKey(base, section);
    var l := Without(db.List(ListKey(base)), k);
    WithoutTwice(db.List(ListKey(base)), k);
    WithoutAppend(l, [k], k);
    assert Without(l + [k], k) == l;
    assert (pairs + [(e.key, e.value)])[..|pairs|] == pairs;
  }

  lemma WriteAllSnoc(db: Db, base: string, es: seq<Entry>, e: Entry)
    ensures WriteAll(db, base, es + [e]) == WriteOne(WriteAll(db, base, es), base, e)
  {
    assert (es + [e])[..|es|] == es;
  }

  /** A non-empty run flushed at once is the run written one triple at a time. */
  lemma {:induction false} RunIsWriteAll(db: Db, base: string, done: seq<Entry>, run: seq<Entry>,
                                        section: string, pairs: seq<(string, string)>)
    requires |run| > 0 && IsRun(run, section, pairs)
    ensures WriteAll(db, base, done + run) ==
            WriteRun(WriteAll(db, base, done), ListKey(base), SectionKey(base, section), pairs)
    decreases |run|
  {
    var n := |run| - 1;
    assert done + run == (done + run[..n]) + [run[n]];
    WriteAllSnoc(db, base, done + run[..n], run[n]);
    if n == 0 {
      assert done + run[..0] == done && pairs[..0] == [];
      var d, k := WriteAll(db, base, done), SectionKey(base, section);
      assert run[0] == Entry(section, pairs[0].0, pairs[0].1);
      assert Merged(d.Hash(k), pairs) == d.Hash(k)[pairs[0].0 := pairs[0].1];
    } else {
      RunIsWriteAll(db, base, done, run[..n], section, pairs[..n]);
      RunExtends(WriteAll(db, base, done), base, section, pairs[..n], run[n]);
      assert pairs[..n] + [(run[n].key, run[n].value)] == pairs;
    }
  }

  // ---- what the store holds after a write -----------------------------------------------

  predicate Writes(base: string, e: Entry, k: string, field: string) {
    SectionKey(base, e.section) == k && e.key == field
  }

  /** The fields written to hash `k`, later writes winning. */
  function FieldsOf(base: string, es: seq<Entry>, k: string): Fields {
    if |es| == 0 then map[]
    else
      var n := |es| - 1;
      var before := FieldsOf(base, es[..n], k);
      if SectionKey(base, es[n].section) == k then before[es[n].key := es[n].value] else before
  }

  /** The position of the last write of a field, or -1. */
  function LastWrite(base: string, es: seq<Entry>, k: string, field: string): (r: int)
    ensures -1 <= r < |es| && (r >= 0 ==> Writes(base, es[r], k, field))
    ensures forall j :: r < j < |es| ==> !Writes(base, es[j], k, field)
  {
    if |es| == 0 then -1
    else if Writes(base, es[|es| - 1], k, field) then |es| - 1
    else
      var r := LastWrite(base, es[..|es| - 1], k, field);
      assert forall j :: 0 <= j < |es| - 1 ==> es[j] == es[..|es| - 1][j];
      r
  }

  /** `FieldsOf` holds the last value written to each field, and no other field. */
  lemma {:induction false} FieldsOfIsLast(base: string, es: seq<Entry>, k: string, field: string)
    ensures var r, fs := LastWrite(base, es, k, field), FieldsOf(base, es, k);
            (field in fs <==> r >= 0) && (r >= 0 ==> fs[field] == es[r].value)
  {
    if |es| > 0 {
      FieldsOfIsLast(base, es[..|es| - 1], k, field);
    }
  }

  lemma WrittenSnoc(base: string, es: seq<Entry>)
    requires |es| > 0
    ensures Written(base, es) ==
            Written(base, es[..|es| - 1]) + {SectionKey(base, es[|es| - 1].section)}
  {
    var n := |es| - 1;
    WrittenRun(base, es[..n], [es[n]], es[n].section, [(es[n].key, es[n].value)]);
    assert es[..n] + [es[n]] == es;
  }

  lemma WriteOneAt(db: Db, base: string, e: Entry, k: string)
    ensures var d := WriteOne(db, base, e);
            && d.Hash(k) == (if SectionKey(base, e.section) == k then db.Hash(k)[e.key := e.value] else db.Hash(k))
            && (k in d.hashes <==> k in db.hashes || SectionKey(base, e.section) == k)
            && multiset(d.List(ListKey(base)))[k] ==
               (if SectionKey(base, e.section) == k then 1 else multiset(db.List(ListKey(base)))[k])
            && forall l :: l != ListKey(base) ==> d.List(l) == db.List(l)
  {
    WithoutCount(db.List(ListKey(base)), SectionKey(base, e.section), k);
  }

  lemma OverrideThenPut(h: Fields, f: Fields, key: string, value: string)
    ensures (h + f)[key := value] == h + f[key := value]
  {
  }

  lemma {:induction false} HashAfter(db: Db, base: string, es: seq<Entry>, k: string)
    ensures WriteAll(db, base, es).Hash(k) == db.Hash(k) + FieldsOf(base, es, k)
  {
    if |es| == 0 {
      assert db.Hash(k) + map[] == db.Hash(k);
    } else {
      var e, front := es[|es| - 1], es[..|es| - 1];
      HashAfter(db, base, front, k);
      WriteOneAt(WriteAll(db, base, front), base, e, k);
      OverrideThenPut(db.Hash(k), FieldsOf(base, front, k), e.key, e.value);
    }
  }

  lemma {:induction false} KeysAfter(db: Db, base: string, es: seq<Entry>, k: string)
    ensures k in WriteAll(db, base, es).hashes <==> k in db.hashes || k in Written(base, es)
  {
    if |es| > 0 {
      WrittenSnoc(base, es);
      KeysAfter(db, base, es[..|es| - 1], k);
      WriteOneAt(WriteAll(db, base, es[..|es| - 1]), base, es[|es| - 1], k);
    }
  }

  lemma {:induction false} WithoutCount(l: seq<string>, x: string, y: string)
    ensures multiset(Without(l, x))[y] == if x == y then 0 else multiset(l)[y]
  {
    if |l| > 0 {
      WithoutCount(l[1..], x, y);
      assert l == [l[0]] + l[1..];
    }
  }

  lemma {:induction false} ListAfter(db: Db, base: string, es: seq<Entry>, k: string)
    ensures multiset(WriteAll(db, base, es).List(ListKey(base)))[k] ==
            if k in Written(base, es) then 1 else multiset(db.List(ListKey(base)))[k]
    ensures forall l :: l != ListKey(base) ==> WriteAll(db, base, es).List(l) == db.List(l)
  {
    if |es| > 0 {
      WrittenSnoc(base, es);
      ListAfter(db, base, es[..|es| - 1], k);
      WriteOneAt(WriteAll(db, base, es[..|es| - 1]), base, es[|es| - 1], k);
    }
  }

  lemma ListKeyIsNoSubkey(base: string)
    ensures !(base + ":" <= ListKey(base))
  {
    assert (base + ":")[|base|] != ListKey(base)[|base|];
  }

  /** Every subkey listed for an entity is a section key of that entity: what `End` lists. */
  ghost predicate OnlySubkeys(db: Db, base: string) {
    forall k :: k in db.List(ListKey(base)) ==> base + ":" <= k
  }

  /** The effect of `End` on the hashes. */
  lemma EndHashes(db: Db, base: string, es: seq<Entry>, k: string)
    ensures var d := Ended(db, base, es);
            && (k in Written(base, es) ==>
                  k in d.hashes && d.hashes[k] == db.Hash(k) + FieldsOf(base, es, k))
            && (k in Stale(db, base, es) ==> k !in d.hashes)
            && (k !in Written(base, es) + Stale(db, base, es) ==>
                  (k in d.hashes <==> k in db.hashes) && d.Hash(k) == db.Hash(k))
  {
    HashAfter(db, base, es, k);
    KeysAfter(db, base, es, k);
    if k !in Written(base, es) {
      forall f ensures f !in FieldsOf(base, es, k) {
        FieldsOfIsLast(base, es, k, f);
      }
      assert FieldsOf(base, es, k) == map[];
      assert db.Hash(k) + map[] == db.Hash(k);
    }
  }

  /** The effect of `End` on the lists. Every written section is listed once; a stale subkey
      has lost its hash but stays listed. */
  lemma EndLists(db: Db, base: string, es: seq<Entry>, k: string)
    requires OnlySubkeys(db, base)
    ensures var l := Ended(db, base, es).List(ListKey(base));
            multiset(l)[k] == if k in Written(base, es) then 1 else multiset(db.List(ListKey(base)))[k]
    ensures k != ListKey(base) && k !in Stale(db, base, es) ==>
              Ended(db, base, es).List(k) == db.List(k)
  {
    ListAfter(db, base, es, k);
    ListKeyIsNoSubkey(base);
  }

  /** The list of subkeys is trimmed to what was written exactly when nothing was stale. */
  lemma ListTrimmedIff(db: Db, base: string, es: seq<Entry>)
    requires OnlySubkeys(db, base)
    ensures (forall k :: k in Ended(db, base, es).List(ListKey(base)) ==> k in Written(base, es)) <==>
            Stale(db, base, es) == {}
  {
    var l, l' := db.List(ListKey(base)), Ended(db, base, es).List(ListKey(base));
    forall k ensures k in l' <==> k in l || k in Written(base, es) {
      EndLists(db, base, es, k);
      assert k in multiset(l') <==> k in l';
      assert k in multiset(l) <==> k in l;
    }
    if Stale(db, base, es) != {} {
      var k :| k in Stale(db, base, es);
      assert k in l' && k !in Written(base, es);
    } else {
      forall k | k in l' ensures k in Written(base, es) {
        assert k in Stale(db, base, es) <==> k in l && k !in Written(base, es);
      }
    }
  }

  /** Two writes of one entity, to different sections: the first section's hash is gone and its
      key is still listed. */
  lemma StaleStaysListed(base: string)
    ensures var d := Ended(Ended(Db(map[], map[]), base, [Entry("a", "k", "v")]), base, [Entry("b", "k", "v")]);
            SectionKey(base, "a") !in d.hashes && SectionKey(base, "a") in d.List(ListKey(base))
  {
    var e, f, k := [Entry("a", "k", "v")], [Entry("b", "k", "v")], SectionKey(base, "a");
    var c := Ended(Db(map[], map[]), base, e);
    OnlySubkeysKept(Db(map[], map[]), base, e);
    EndLists(Db(map[], map[]), base, e, k);
    assert SectionKey(base, e[0].section) == k;
    assert k in Written(base, e) && k in multiset(c.List(ListKey(base)));
    SectionKeyInjective(base, "a", "b");
    assert k !in Written(base, f) && k in Stale(c, base, f);
    EndHashes(c, base, f, k);
    EndLists(c, base, f, k);
    assert k in multiset(Ended(c, base, f).List(ListKey(base)));
  }

  /** From an empty store, `End` only ever lists subkeys, so `EndLists` applies to every
      write of every run. */
  lemma OnlySubkeysKept(db: Db, base: string, es: seq<Entry>)
    requires OnlySubkeys(db, base)
    ensures OnlySubkeys(Ended(db, base, es), base)
  {
    forall k | k in Ended(db, base, es).List(ListKey(base)) ensures base + ":" <= k {
      EndLists(db, base, es, k);
      assert k in multiset(Ended(db, base, es).List(ListKey(base)));
      if k in Written(base, es) {
        var i :| 0 <= i < |es| && k == SectionKey(base, es[i].section);
      } else {
        assert k in multiset(db.List(ListKey(base)));
      }
    }
  }

  /** Two section names share a hash only as the two names of the default section. */
  lemma SectionKeyInjective(base: string, s: string, t: string)
    ensures SectionKey(base, s) == SectionKey(base, t) <==>
            (s == t || (s == "" && t == "DEFAULT") || (s == "DEFAULT" && t == ""))
  {
    var x := if s == "" then "DEFAULT" else s;
    var y := if t == "" then "DEFAULT" else t;
    assert (base + ":" + x)[|base| + 1..] == x && (base + ":" + y)[|base| + 1..] == y;
  }

  // ---- reading back ---------------------------------------------------------------------

  function Stored(db: Db, base: string, section: string, key: string, defaultValue: string): string {
    var h := db.Hash(SectionKey(base, section));
    if key in h then h[key] else defaultValue
  }

  function FirstOf(pairs: seq<(string, string)>, key: string, defaultValue: string): string {
    if |pairs| == 0 then defaultValue
    else if pairs[0].0 == key then pairs[0].1
    else FirstOf(pairs[1..], key, defaultValue)
  }

  lemma {:induction false} FirstOfEnumeration(pairs: seq<(string, string)>, h: Fields, key: string,
                                             defaultValue: string)
    requires forall i :: 0 <= i < |pairs| ==> pairs[i].0 in h && h[pairs[i].0] == pairs[i].1
    ensures FirstOf(pairs, key, defaultValue) ==
            if exists i :: 0 <= i < |pairs| && pairs[i].0 == key then h[key] else defaultValue
  {
    if |pairs| > 0 && pairs[0].0 != key {
      FirstOfEnumeration(pairs[1..], h, key, defaultValue);
      if exists i :: 0 <= i < |pairs| && pairs[i].0 == key {
        var i :| 0 <= i < |pairs| && pairs[i].0 == key;
        assert pairs[1..][i - 1].0 == key;
      }
    }
  }

  class Reader {
    const mCatalog: string
    const mID: string
    const mClient: Client
    var mSection: string
    var mValues: map<string, seq<(string, string)>>

    constructor (client: Client, catalog: string, id: string)
      ensures mClient == client && mCatalog == catalog && mID == id
      ensures mSection == "" && mValues == map[] && Current()
    {
      mClient, mCatalog, mID := client, catalog, id;
      mSection, mValues := "", map[];
    }

    function Base(): string {
      mCatalog + ":" + mID
    }

    /** Every loaded section is a copy of its hash, as it is in the store. A section with an
        empty hash is loaded as the empty list. */
    ghost predicate Current()
      reads this, mClient
    {
      forall section :: section in mValues ==>
        Enumerates(mValues[section], mClient.db.Hash(SectionKey(Base(), section)))
    }

    /** An empty hash leaves the section unloaded. */
    method CheckLoaded()
      modifies this`mValues
      ensures mSection in old(mValues) ==> mValues == old(mValues)
      ensures mSection !in old(mValues) && mSection in mValues ==>
                Enumerates(mValues[mSection], mClient.db.Hash(SectionKey(Base(), mSection)))
      ensures mSection !in mValues ==> mClient.db.Hash(SectionKey(Base(), mSection)) == map[]
      ensures mValues - {mSection} == old(mValues) - {mSection}
    {
      if mSection !in mValues {
        var arr := mClient.HGetAll(SectionKey(Base(), mSection));
        for i := 0 to |arr|
          invariant mValues - {mSection} == old(mValues) - {mSection}
          invariant if i == 0 then mSection !in mValues
                    else mSection in mValues && mValues[mSection] == arr[..i]
        {
          mValues := mValues[mSection := (if mSection in mValues then mValues[mSection] else []) + [arr[i]]];
        }
        assert arr[..|arr|] == arr;
      }
    }

    /** While the store does not change, every read answers from it, the first of a section as
        well as the later ones, in any order of sections. */
    method Value(key: string, defaultValue: string) returns (r: string)
      modifies this`mValues
      ensures mSection in mValues && r == FirstOf(mValues[mSection], key, defaultValue)
      ensures mSection in old(mValues) ==> mValues == old(mValues)
      ensures mValues - {mSection} == old(mValues) - {mSection}
      ensures old(Current()) ==> Current() && r == Stored(mClient.db, Base(), mSection, key, defaultValue)
    {
      CheckLoaded();
      if mSection !in mValues {
        mValues := mValues[mSection := []];
      }
      if old(Current()) {
        StaysCurrent(mClient.db, Base(), old(mValues), mValues, mSection);
      }
      var l := mValues[mSection];
      ghost var h := mClient.db.Hash(SectionKey(Base(), mSection));
      if old(Current()) {
        FirstOfEnumeration(l, h, key, defaultValue);
      }
      for i := 0 to |l|
        invariant FirstOf(l, key, defaultValue) == FirstOf(l[i..], key, defaultValue)
      {
        if l[i].0 == key {
          return l[i].1;
        }
        assert l[i..][1..] == l[i + 1..];
      }
      return defaultValue;
    }

    method ListValue(key: string, separator: string) returns (o: seq<string>)
      modifies this`mValues
      ensures mSection in mValues && o == ListCodec.Parsed(FirstOf(mValues[mSection], key, ""), separator)
      ensures mSection in old(mValues) ==> mValues == old(mValues)
      ensures mValues - {mSection} == old(mValues) - {mSection}
      ensures old(Current()) ==>
                Current() && o == ListCodec.Parsed(Stored(mClient.db, Base(), mSection, key, ""), separator)
    {
      var v := Value(key, "");
      o := ListCodec.Parse(v, separator);
    }
  }

  lemma StaysCurrent(db: Db, base: string, was: map<string, seq<(string, string)>>,
                     values: map<string, seq<(string, string)>>, section: string)
    requires forall s :: s in was ==> Enumerates(was[s], db.Hash(SectionKey(base, s)))
    requires section in values && Enumerates(values[section], db.Hash(SectionKey(base, section)))
    requires values - {section} == was - {section}
    ensures forall s :: s in values ==> Enumerates(values[s], db.Hash(SectionKey(base, s)))
  {
    forall s | s in values ensures Enumerates(values[s], db.Hash(SectionKey(base, s))) {
      if s != section {
        assert s in values - {section} && (values - {section})[s] == values[s];
        assert (was - {section})[s] == was[s];
      }
    }
  }

  /** What a fresh reader finds after `End`, for every section and field. */
  lemma ReadBack(db: Db, base: string, es: seq<Entry>, section: string, key: string, default: string)
    requires OnlySubkeys(db, base)
    ensures var k := SectionKey(base, section);
            var last := LastWrite(base, es, k, key);
            Stored(Ended(db, base, es), base, section, key, default) ==
            if last >= 0 then es[last].value
            else if k in Stale(db, base, es) then default
            else Stored(db, base, section, key, default)
  {
    var k := SectionKey(base, section);
    EndHashes(db, base, es, k);
    FieldsOfIsLast(base, es, k, key);
  }

  /** The two names of the default section. */
  predicate Twins(s: string, t: string) {
    s == t || (s == "" && t == "DEFAULT") || (s == "DEFAULT" && t == "")
  }

  /** The last write of a key to a section under either of its names, or -1. */
  function LastUnderEither(es: seq<Entry>, section: string, key: string): (r: int)
    ensures -1 <= r < |es| && (r >= 0 ==> Twins(es[r].section, section) && es[r].key == key)
    ensures forall j :: r < j < |es| ==> !(Twins(es[j].section, section) && es[j].key == key)
  {
    if |es| == 0 then -1
    else if Twins(es[|es| - 1].section, section) && es[|es| - 1].key == key then |es| - 1
    else
      var r := LastUnderEither(es[..|es| - 1], section, key);
      assert forall j :: 0 <= j < |es| - 1 ==> es[j] == es[..|es| - 1][j];
      r
  }

  lemma EitherIsLastWrite(base: string, es: seq<Entry>, section: string, key: string)
    ensures LastUnderEither(es, section, key) == LastWrite(base, es, SectionKey(base, section), key)
  {
    var r, q := LastUnderEither(es, section, key), LastWrite(base, es, SectionKey(base, section), key);
    forall j | 0 <= j < |es|
      ensures Writes(base, es[j], SectionKey(base, section), key) <==> Twins(es[j].section, section) && es[j].key == key
    {
      SectionKeyInjective(base, es[j].section, section);
    }
    if q >= 0 { assert Writes(base, es[q], SectionKey(base, section), key); }
    if r >= 0 { assert Twins(es[r].section, section) && es[r].key == key; }
  }

  /** The last value written for a (section, key) is read back if and only if the last write
      of that key under either name of the section holds the same value: always, except when
      the default section is written under its other name afterwards. */
  lemma LastWriteReadBackIff(db: Db, base: string, es: seq<Entry>, i: nat, default: string)
    requires OnlySubkeys(db, base) && i < |es|
    requires forall j :: i < j < |es| ==> !(es[j].section == es[i].section && es[j].key == es[i].key)
    ensures var last := LastUnderEither(es, es[i].section, es[i].key);
            && last >= i
            && (last > i ==> es[last].section != es[i].section && Twins(es[last].section, es[i].section))
            && (Stored(Ended(db, base, es), base, es[i].section, es[i].key, default) == es[i].value <==>
                  es[last].value == es[i].value)
  {
    ReadBack(db, base, es, es[i].section, es[i].key, default);
    EitherIsLastWrite(base, es, es[i].section, es[i].key);
  }

  /** Writing both names of the default section loses the earlier value. */
  lemma DefaultSectionClash(db: Db, base: string, key: string, v: string, w: string)
    requires OnlySubkeys(db, base)
    ensures Stored(Ended(db, base, [Entry("", key, v), Entry("DEFAULT", key, w)]), base, "", key, "") == w
  {
    var es := [Entry("", key, v), Entry("DEFAULT", key, w)];
    ReadBack(db, base, es, "", key, "");
    assert Writes(base, es[1], SectionKey(base, ""), key);
  }

  /** A list written with `ListValue` and read back loses exactly its leading empty elements;
      read with a plain separator of its own, its commas come back escaped. */
  lemma ListReadBack(db: Db, base: string, es: seq<Entry>, i: nat, l: seq<string>, separator: string)
    requires OnlySubkeys(db, base) && i < |es| && es[i].value == ListCodec.Printed("", l)
    requires i == LastWrite(base, es, SectionKey(base, es[i].section), es[i].key)
    ensures var r := ListCodec.Parsed(Stored(Ended(db, base, es), base, es[i].section, es[i].key, ""), separator);
            && ListCodec.ReadEach(r, ListCodec.WithoutEmptyHead(l), separator)
            && (separator == "" || separator == "," ==> r == ListCodec.WithoutEmptyHead(l))
            && (ListCodec.Plain(separator) ==> r == ListCodec.Each(ListCodec.WithoutEmptyHead(l), ListCodec.Marked))
  {
    ReadBack(db, base, es, es[i].section, es[i].key, "");
    ListCodec.ParsePrint(l, separator);
  }

  // ---- the order of the list ------------------------------------------------------------

  lemma {:induction false} WrittenLast(db: Db, base: string, es: seq<Entry>)
    requires |es| > 0
    ensures var l := WriteAll(db, base, es).List(ListKey(base));
            |l| > 0 && l[|l| - 1] == SectionKey(base, es[|es| - 1].section)
  {
  }

  /** After a write the key of the section written last is the last of the list. */
  lemma LastWrittenIsLast(db: Db, base: string, es: seq<Entry>)
    requires OnlySubkeys(db, base) && |es| > 0
    ensures var l := Ended(db, base, es).List(ListKey(base));
            |l| > 0 && l[|l| - 1] == SectionKey(base, es[|es| - 1].section)
  {
    WrittenLast(db, base, es);
    ListKeyIsNoSubkey(base);
  }

  /** The key of a section in the store. */
  lemma SectionKeys(catalog: string, id: string)
    ensures SectionKey(catalog + ":" + id, "") == catalog + ":" + id + ":" + "DEFAULT"
    ensures forall section :: section != "" ==> SectionKey(catalog + ":" + id, section) == catalog + ":" + id + ":" + section
  {
  }

  lemma SubkeyList(catalog: string, id: string)
    ensures ListKey(catalog + ":" + id) == catalog + ":" + id + "^_SUBKEYS_"
  {
  }
}
