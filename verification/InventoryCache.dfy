/** Inventory messages and the cache that spares writing known values:
    process_insert_inventory of server/src/dbhelpers.cc and the messages of
    server/src/fty_asset_inventory.cc. */
module InventoryCache {
  import opened AssetModel

  // ---------- the cache key ----------

  /** "name:keytag" followed by the read-only flag as 1 or 0. */
  function CacheKey(device: string, keytag: string, readOnly: bool): string {
    device + ":" + keytag + (if readOnly then "1" else "0")
  }

  predicate HasColon(s: string) {
    ':' in s
  }

  ghost predicate StartsWith(s: string, prefix: string) {
    |prefix| <= |s| && s[..|prefix|] == prefix
  }

  /** Up to its first colon a key is the device name. */
  lemma {:induction false} FirstColon(a: string, x: string, b: string, y: string)
    requires !HasColon(a) && !HasColon(b) && a + ":" + x == b + ":" + y
    ensures a == b && x == y
  {
    NotShorter(a, x, b, y);
    NotShorter(b, y, a, x);
    var s := a + ":" + x;
    assert a == s[..|a|] && x == s[|a| + 1..];
    assert b == (b + ":" + y)[..|b|] && y == (b + ":" + y)[|b| + 1..];
  }

  lemma NotShorter(a: string, x: string, b: string, y: string)
    requires !HasColon(b) && a + ":" + x == b + ":" + y
    ensures |a| >= |b|
  {
    NoColonBefore(b, y);
    assert (a + ":" + x)[|a|] == ':';
  }

  lemma NoColonBefore(b: string, y: string)
    requires !HasColon(b)
    ensures forall i | 0 <= i < |b| :: (b + ":" + y)[i] != ':'
  {
    forall i | 0 <= i < |b| ensures (b + ":" + y)[i] != ':' {
      assert (b + ":" + y)[i] == b[i];
    }
  }

  /** Different attributes never share a key, as long as device names have no colon. */
  lemma KeyIsInjective(d: string, k: string, r: bool, d': string, k': string, r': bool)
    requires !HasColon(d) && !HasColon(d') && CacheKey(d, k, r) == CacheKey(d', k', r')
    ensures d == d' && k == k' && r == r'
  {
    var x, y := k + (if r then "1" else "0"), k' + (if r' then "1" else "0");
    assert CacheKey(d, k, r) == d + ":" + x && CacheKey(d', k', r') == d' + ":" + y;
    FirstColon(d, x, d', y);
    assert x[|x| - 1] == y[|y| - 1];
    assert k == x[..|x| - 1] && k' == y[..|y| - 1];
  }

  /** The prefix "name:" selects the keys of that device and no others. */
  lemma PrefixSelectsDevice(d: string, d': string, k: string, r: bool)
    requires !HasColon(d) && !HasColon(d')
    ensures StartsWith(CacheKey(d', k, r), d + ":") <==> d == d'
  {
    var s := CacheKey(d', k, r);
    var x := k + (if r then "1" else "0");
    assert s == d' + ":" + x;
    if d == d' {
      assert s[..|d| + 1] == d + ":";
    }
    if StartsWith(s, d + ":") {
      assert s == d + ":" + s[|d| + 1..];
      FirstColon(d, s[|d| + 1..], d', x);
    }
  }

  // ---------- the table ----------

  type Attributes = map<string, Attribute>

  /** The attributes of the devices in the table. */
  type Store = map<string, Attributes>

  /** The INSERT ... ON DUPLICATE KEY UPDATE; it fails when the device has no row. */
  function Upsert(store: Store, device: string, keytag: string, value: string, readOnly: bool): Store {
    if device in store then store[device := store[device][keytag := Attribute(value, readOnly)]] else store
  }

  /** name and description stay writable. */
  function FlagFor(keytag: string, readOnly: bool): bool {
    if keytag == "name" || keytag == "description" then false else readOnly
  }

  /** The table after writing every attribute of a message. */
  ghost function AllWritten(store: Store, device: string, ext: map<string, string>, readOnly: bool): Store {
    if device in store then
      store[device := store[device] + map k | k in ext :: Attribute(ext[k], FlagFor(k, readOnly))]
    else
      store
  }

  /** The writer without a cache has its own rule: ip.1 stays writable too, and uuid never is. */
  function UncachedFlagFor(keytag: string, readOnly: bool): bool {
    if keytag == "uuid" then true
    else if keytag == "name" || keytag == "description" || keytag == "ip.1" then false
    else readOnly
  }

  ghost function UncachedWritten(store: Store, device: string, ext: map<string, string>, readOnly: bool): Store {
    if device in store then
      store[device := store[device] + map k | k in ext :: Attribute(ext[k], UncachedFlagFor(k, readOnly))]
    else
      store
  }

  /** With the flag the inventory actor passes, the two rules part ways exactly at ip.1, and without it at uuid. */
  lemma WritersPartAtIp(store: Store, device: string, ext: map<string, string>, readOnly: bool)
    ensures AllWritten(store, device, ext, readOnly) == UncachedWritten(store, device, ext, readOnly)
      <==> (device in store ==> (if readOnly then "ip.1" else "uuid") !in ext)
  {
    if device in store {
      var a, b := AllWritten(store, device, ext, readOnly), UncachedWritten(store, device, ext, readOnly);
      var key := if readOnly then "ip.1" else "uuid";
      if key in ext {
        assert a[device][key] == Attribute(ext[key], readOnly) && b[device][key] == Attribute(ext[key], !readOnly);
      } else {
        assert a[device] == b[device];
      }
    }
  }

  /** The cache already holds this value. */
  predicate IsKnown(cache: map<string, string>, device: string, keytag: string, value: string, readOnly: bool) {
    var key := CacheKey(device, keytag, FlagFor(keytag, readOnly));
    key in cache && cache[key] == value
  }

  /** The attributes of a message that the cache does not know. */
  ghost function Unknown(cache: map<string, string>, device: string, ext: map<string, string>, readOnly: bool)
    : Attributes
  {
    map k | k in ext && !IsKnown(cache, device, k, ext[k], readOnly) :: Attribute(ext[k], FlagFor(k, readOnly))
  }

  /** The table after writing only what the cache does not know. */
  ghost function UnknownWritten(store: Store, cache: map<string, string>, device: string, ext: map<string, string>,
          readOnly: bool): Store
  {
    if device in store then
      store[device := store[device] + Unknown(cache, device, ext, readOnly)]
    else
      store
  }

  ghost predicate IsKeyOf(device: string, ext: map<string, string>, readOnly: bool, key: string) {
    exists k :: k in ext && key == CacheKey(device, k, FlagFor(k, readOnly))
  }

  /** The cache after a message: it holds the values of the message, and else what it held. */
  ghost predicate Remembers(cache: map<string, string>, before: map<string, string>, device: string,
          ext: map<string, string>, readOnly: bool)
  {
    && (forall k | k in ext :: IsKnown(cache, device, k, ext[k], readOnly))
    && (forall key | !IsKeyOf(device, ext, readOnly, key) ::
          (key in cache <==> key in before) && (key in cache ==> cache[key] == before[key]))
  }

  /** The table after one attribute of a message. */
  function InsertedOne(store: Store, cache: map<string, string>, device: string, keytag: string, value: string,
          readOnly: bool): Store
  {
    if IsKnown(cache, device, keytag, value, readOnly) then store
    else Upsert(store, device, keytag, value, FlagFor(keytag, readOnly))
  }

  class Inventory {
    var store: Store
    var cache: map<string, string>

    constructor ()
      ensures store == map[] && cache == map[]
    {
      store, cache := map[], map[];
    }

    /** One attribute: skip it when the cache knows the value, else write it and remember it. */
    method InsertOne(device: string, keytag: string, value: string, readOnly: bool)
      modifies this
      ensures store == InsertedOne(old(store), old(cache), device, keytag, value, readOnly)
      ensures cache == (
        if device in old(store) then old(cache)[CacheKey(device, keytag, FlagFor(keytag, readOnly)) := value]
        else old(cache))
    {
      var readonlyV := FlagFor(keytag, readOnly);
      var key := CacheKey(device, keytag, readonlyV);
      if key in cache && cache[key] == value {
        assert cache[key := value] == cache;
        return;
      }
      if device in store {
        store := Upsert(store, device, keytag, value, readonlyV);
        cache := cache[key := value];
      }
    }

    /** process_insert_inventory. */
    method ProcessInsertInventory(device: string, ext: map<string, string>, readOnly: bool)
      modifies this
      ensures store == UnknownWritten(old(store), old(cache), device, ext, readOnly)
      ensures if device in old(store) then Remembers(cache, old(cache), device, ext, readOnly) else cache == old(cache)
    {
      var todo := ext.Keys;
      ghost var store0, cache0 := store, cache;
      ghost var done: map<string, string> := map[];
      NothingWritten(store, cache, device, readOnly);
      while todo != {}
        invariant todo <= ext.Keys && done == ext - todo
        invariant store == UnknownWritten(store0, cache0, device, done, readOnly)
        invariant if device in store0 then Remembers(cache, cache0, device, done, readOnly) else cache == cache0
        decreases todo
      {
        var k :| k in todo;
        if device in store0 {
          StillKnown(cache, cache0, device, done, k, ext[k], readOnly);
          RemembersOneMore(cache, cache0, device, done, k, ext[k], readOnly);
        }
        OneMoreWritten(store0, cache0, cache, device, done, k, ext[k], readOnly);
        InsertOne(device, k, ext[k], readOnly);
        todo, done := todo - {k}, done[k := ext[k]];
      }
      assert done == ext;
    }

    /** The delete message: evict every key with the prefix "name:". */
    method Vacuum(device: string)
      modifies this`cache
      ensures IsVacuumed(cache, old(cache), device)
    {
      var prefix := device + ":";
      cache := map key | key in cache && !(|prefix| <= |key| && key[..|prefix|] == prefix) :: cache[key];
    }
  }

  ghost predicate IsVacuumed(cache: map<string, string>, before: map<string, string>, device: string) {
    && (forall key :: key in cache <==> key in before && !StartsWith(key, device + ":"))
    && (forall key | key in cache :: cache[key] == before[key])
  }

  lemma SameDeviceKeys(d: string, k: string, r: bool, k': string, r': bool)
    requires CacheKey(d, k, r) == CacheKey(d, k', r')
    ensures k == k'
  {
    var x, y := k + (if r then "1" else "0"), k' + (if r' then "1" else "0");
    assert CacheKey(d, k, r)[|d| + 1..] == x && CacheKey(d, k', r')[|d| + 1..] == y;
    assert k == x[..|x| - 1] && k' == y[..|y| - 1];
  }

  lemma NothingWritten(store: Store, cache: map<string, string>, device: string, readOnly: bool)
    ensures UnknownWritten(store, cache, device, map[], readOnly) == store
    ensures Remembers(cache, cache, device, map[], readOnly)
  {
    if device in store {
      assert UnknownWritten(store, cache, device, map[], readOnly)[device] == store[device];
    }
  }

  /** Attributes not yet handled are known now exactly if they were known at the start. */
  lemma StillKnown(cache: map<string, string>, before: map<string, string>, device: string, done: map<string, string>,
          k: string, value: string, readOnly: bool)
    requires Remembers(cache, before, device, done, readOnly) && k !in done
    ensures IsKnown(cache, device, k, value, readOnly) <==> IsKnown(before, device, k, value, readOnly)
  {
    var key := CacheKey(device, k, FlagFor(k, readOnly));
    if IsKeyOf(device, done, readOnly, key) {
      var k' :| k' in done && key == CacheKey(device, k', FlagFor(k', readOnly));
      SameDeviceKeys(device, k, FlagFor(k, readOnly), k', FlagFor(k', readOnly));
    }
  }

  lemma RemembersOneMore(cache: map<string, string>, before: map<string, string>, device: string,
          done: map<string, string>, k: string, value: string, readOnly: bool)
    requires Remembers(cache, before, device, done, readOnly) && k !in done
    ensures var key := CacheKey(device, k, FlagFor(k, readOnly));
      Remembers(cache[key := value], before, device, done[k := value], readOnly)
  {
    var key := CacheKey(device, k, FlagFor(k, readOnly));
    var more := done[k := value];
    forall k' | k' in more ensures IsKnown(cache[key := value], device, k', more[k'], readOnly) {
      if k' != k && CacheKey(device, k', FlagFor(k', readOnly)) == key {
        SameDeviceKeys(device, k', FlagFor(k', readOnly), k, FlagFor(k, readOnly));
      }
    }
    forall key' | !IsKeyOf(device, more, readOnly, key') ensures key' != key && !IsKeyOf(device, done, readOnly, key') {
      assert k in more && more.Keys >= done.Keys;
      assert forall k' :: k' in done ==> k' in more;
    }
  }

  lemma WritingOneMore(row: Attributes, before: map<string, string>, device: string, done: map<string, string>,
          k: string, value: string, readOnly: bool)
    requires k !in done
    ensures row + Unknown(before, device, done[k := value], readOnly)
      == if IsKnown(before, device, k, value, readOnly) then row + Unknown(before, device, done, readOnly)
         else (row + Unknown(before, device, done, readOnly))[k := Attribute(value, FlagFor(k, readOnly))]
  {
    var a, b := Unknown(before, device, done, readOnly), Unknown(before, device, done[k := value], readOnly);
    if IsKnown(before, device, k, value, readOnly) {
      assert a == b;
    } else {
      assert b == a[k := Attribute(value, FlagFor(k, readOnly))];
    }
  }

  lemma OneMoreWritten(store0: Store, cache0: map<string, string>, cache: map<string, string>, device: string,
          done: map<string, string>, k: string, value: string, readOnly: bool)
    requires k !in done
    requires device in store0 ==>
      IsKnown(cache, device, k, value, readOnly) == IsKnown(cache0, device, k, value, readOnly)
    ensures UnknownWritten(store0, cache0, device, done[k := value], readOnly)
      == InsertedOne(UnknownWritten(store0, cache0, device, done, readOnly), cache, device, k, value, readOnly)
  {
    if device in store0 {
      var was := store0[device] + Unknown(cache0, device, done, readOnly);
      var now := store0[device] + Unknown(cache0, device, done[k := value], readOnly);
      WritingOneMore(store0[device], cache0, device, done, k, value, readOnly);
      assert store0[device := now] == store0[device := was][device := now];
    }
  }

  // ---------- runs ----------

  /** What happens to the table and the cache: a device gets a row, loses it, an
      inventory message is written with some read-only flag, a delete message is handled. */
  datatype Message =
    | Created(device: string)
    | Dropped(device: string)
    | Inventoried(device: string, ext: map<string, string>, readOnly: bool)
    | Deleted(device: string)

  /** pending: dropped devices whose delete message is still to come. */
  datatype World = World(store: Store, cache: map<string, string>, pending: set<string>)

  ghost predicate IsStep(w: World, m: Message, w': World) {
    match m
    case Created(d) =>
      && !HasColon(d) && d !in w.store && d !in w.pending
      && w' == w.(store := w.store[d := map[]])
    case Dropped(d) =>
      && w' == w.(store := w.store - {d}, pending := w.pending + {d})
    case Inventoried(d, ext, ro) =>
      && !HasColon(d) && w'.pending == w.pending
      && w'.store == UnknownWritten(w.store, w.cache, d, ext, ro)
      && (if d in w.store then Remembers(w'.cache, w.cache, d, ext, ro) else w'.cache == w.cache)
    case Deleted(d) =>
      && !HasColon(d) && w'.store == w.store && w'.pending == w.pending - {d}
      && IsVacuumed(w'.cache, w.cache, d)
  }

  /** The same run without a cache. */
  ghost function PlainStep(store: Store, m: Message): Store {
    match m
    case Created(d) => store[d := map[]]
    case Dropped(d) => store - {d}
    case Inventoried(d, ext, ro) => AllWritten(store, d, ext, ro)
    case Deleted(_) => store
  }

  ghost function PlainRun(messages: seq<Message>): Store {
    if messages == [] then map[] else PlainStep(PlainRun(messages[..|messages| - 1]), messages[|messages| - 1])
  }

  ghost predicate IsRun(worlds: seq<World>, messages: seq<Message>) {
    && |worlds| == |messages| + 1 && worlds[0] == World(map[], map[], {})
    && forall i | 0 <= i < |messages| :: IsStep(worlds[i], messages[i], worlds[i + 1])
  }

  /** The flag of each attribute of each device. */
  type Flags = (string, string) -> bool

  /** The message writes its attributes with their flags. */
  ghost predicate IsSteady(m: Message, flags: Flags) {
    m.Inventoried? ==> forall k | k in m.ext :: FlagFor(k, m.readOnly) == flags(m.device, k)
  }

  function KeyOf(flags: Flags, d: string, k: string): string {
    CacheKey(d, k, flags(d, k))
  }

  /** What the cache says of a stored device is in the table, and it says nothing of
      devices that are neither stored nor waiting for their delete message. */
  ghost predicate IsTrue(w: World, flags: Flags) {
    forall d, k | !HasColon(d) && KeyOf(flags, d, k) in w.cache :: IsBacked(w, flags, d, k)
  }

  ghost predicate IsBacked(w: World, flags: Flags, d: string, k: string)
    requires KeyOf(flags, d, k) in w.cache
  {
    if d in w.store then
      k in w.store[d] && w.store[d][k] == Attribute(w.cache[KeyOf(flags, d, k)], flags(d, k))
    else
      d in w.pending
  }

  /** With a true cache, skipping what it knows makes no difference. */
  lemma SkippingIsHarmless(w: World, flags: Flags, d: string, ext: map<string, string>, readOnly: bool)
    requires IsTrue(w, flags) && !HasColon(d) && IsSteady(Inventoried(d, ext, readOnly), flags)
    ensures UnknownWritten(w.store, w.cache, d, ext, readOnly) == AllWritten(w.store, d, ext, readOnly)
  {
    if d in w.store {
      var a := Unknown(w.cache, d, ext, readOnly);
      var b := map k | k in ext :: Attribute(ext[k], FlagFor(k, readOnly));
      forall k | k in ext && k !in a ensures k in w.store[d] && w.store[d][k] == b[k] {
        assert KeyOf(flags, d, k) in w.cache;
      }
      assert w.store[d] + a == w.store[d] + b;
    }
  }

  lemma InventoryStaysTrue(w: World, flags: Flags, m: Message, w': World)
    requires IsTrue(w, flags) && m.Inventoried? && IsStep(w, m, w') && IsSteady(m, flags)
    ensures IsTrue(w', flags)
  {
    var d, ext, ro := m.device, m.ext, m.readOnly;
    SkippingIsHarmless(w, flags, d, ext, ro);
    forall e, k | !HasColon(e) && KeyOf(flags, e, k) in w'.cache
      ensures IsBacked(w', flags, e, k)
    {
      if d in w.store {
        if IsKeyOf(d, ext, ro, KeyOf(flags, e, k)) {
          var k' :| k' in ext && KeyOf(flags, e, k) == CacheKey(d, k', FlagFor(k', ro));
          KeyIsInjective(e, k, flags(e, k), d, k', FlagFor(k', ro));
          assert IsKnown(w'.cache, d, k, ext[k], ro);
        } else {
          assert e == d ==> k !in ext;
        }
      }
    }
  }

  lemma StepStaysTrue(w: World, flags: Flags, m: Message, w': World)
    requires IsTrue(w, flags) && IsStep(w, m, w') && IsSteady(m, flags)
    ensures IsTrue(w', flags)
    ensures w'.store == PlainStep(w.store, m)
  {
    match m
    case Inventoried(d, ext, ro) =>
      SkippingIsHarmless(w, flags, d, ext, ro);
      InventoryStaysTrue(w, flags, m, w');
    case Deleted(d) =>
      forall e, k | !HasColon(e) && KeyOf(flags, e, k) in w'.cache ensures e != d {
        PrefixSelectsDevice(d, e, k, flags(e, k));
      }
    case _ =>
  }

  /** In every run in which each attribute of each device keeps its flag, the cached
      writer leaves the table the plain writer would leave. */
  lemma {:induction false} RunsAgree(worlds: seq<World>, messages: seq<Message>, flags: Flags, k: nat)
    requires IsRun(worlds, messages) && k <= |messages|
    requires forall i | 0 <= i < |messages| :: IsSteady(messages[i], flags)
    ensures IsTrue(worlds[k], flags) && worlds[k].store == PlainRun(messages[..k])
  {
    if k > 0 {
      RunsAgree(worlds, messages, flags, k - 1);
      StepStaysTrue(worlds[k - 1], flags, messages[k - 1], worlds[k]);
      assert messages[..k][..k - 1] == messages[..k - 1];
    }
  }

  /** The inventory actor always writes read-only, so its runs all agree. */
  lemma ActorRunsAgree(worlds: seq<World>, messages: seq<Message>, k: nat)
    requires IsRun(worlds, messages) && k <= |messages|
    requires forall i | 0 <= i < |messages| && messages[i].Inventoried? :: messages[i].readOnly
    ensures worlds[k].store == PlainRun(messages[..k])
  {
    RunsAgree(worlds, messages, (d, key) => FlagFor(key, true), k);
  }

  /** Without steady flags the cache can be wrong: a write under the other key leaves
      an entry that is no longer true, and the third write is wrongly skipped. */
  lemma ChangingFlagLies(d: string, k: string)
    requires k != "name" && k != "description"
    ensures
      var store: Store := map[d := map[]];
      var cache1: map<string, string> := map[CacheKey(d, k, true) := "a"];
      var store1 := UnknownWritten(store, map[], d, map[k := "a"], true);
      var store2 := UnknownWritten(store1, cache1, d, map[k := "b"], false);
      Remembers(cache1, map[], d, map[k := "a"], true)
        && UnknownWritten(store2, cache1[CacheKey(d, k, false) := "b"], d, map[k := "a"], true)
          != AllWritten(store2, d, map[k := "a"], true)
  {
    var store: Store := map[d := map[]];
    var cache1: map<string, string> := map[CacheKey(d, k, true) := "a"];
    var store1 := UnknownWritten(store, map[], d, map[k := "a"], true);
    var store2 := UnknownWritten(store1, cache1, d, map[k := "b"], false);
    assert CacheKey(d, k, true)[|d| + 1 + |k|] != CacheKey(d, k, false)[|d| + 1 + |k|];
    assert store2[d][k] == Attribute("b", false);
    assert IsKeyOf(d, map[k := "a"], true, CacheKey(d, k, true)) by { assert k in map[k := "a"]; }
    assert IsKnown(cache1[CacheKey(d, k, false) := "b"], d, k, "a", true);
    assert AllWritten(store2, d, map[k := "a"], true)[d][k] == Attribute("a", true);
    var cache2 := cache1[CacheKey(d, k, false) := "b"];
    assert UnknownWritten(store2, cache2, d, map[k := "a"], true)[d][k] == Attribute("b", false);
  }
}
