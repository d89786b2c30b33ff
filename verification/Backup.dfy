/** Saving all assets and restoring them elsewhere: saveAssets of
    server/src/asset-server.cc, assetToSrr and srrToAsset of server/src/asset/asset.cc. */
module Backup {
  import opened AssetModel
  import opened ExtMapSync
  import opened Forest
  import opened Sequences
  import opened Storage
  import opened RestoreTree
  import opened Restore

  // ---------- the saved form ----------

  /** Empty outlets are not written at all. */
  datatype SrrLink = SrrLink(source: string, srcOut: Option<string>, destIn: Option<string>, linkType: int)

  /** Dirty flags are not saved. */
  datatype SrrAsset = SrrAsset(
    id: string,
    status: AssetStatus,
    assetType: string,
    subtype: string,
    priority: int,
    parent: string,
    tag: string,
    secondaryId: string,
    linked: seq<SrrLink>,
    ext: map<string, Attribute>)

  function OptionalMember(s: string): Option<string> {
    if s == "" then None else Some(s)
  }

  function MemberOrEmpty(m: Option<string>): string {
    if m.Some? then m.value else ""
  }

  function LinkToSrr(l: AssetLink): SrrLink {
    SrrLink(l.source, OptionalMember(l.srcOut), OptionalMember(l.destIn), l.linkType)
  }

  function SrrToLink(l: SrrLink): AssetLink {
    AssetLink(l.source, MemberOrEmpty(l.srcOut), MemberOrEmpty(l.destIn), l.linkType)
  }

  function AssetToSrr(a: Asset): SrrAsset {
    SrrAsset(a.name, a.status, a.assetType, a.subtype, a.priority, a.parent, a.tag, a.secondaryId,
      seq(|a.linked|, i requires 0 <= i < |a.linked| => LinkToSrr(a.linked[i])),
      map k | k in a.ext :: Attribute(a.ext[k].value, a.ext[k].readOnly))
  }

  function SrrToAsset(s: SrrAsset): Asset {
    Asset(s.id, s.status, s.assetType, s.subtype, s.priority, s.parent, s.tag, s.secondaryId,
      seq(|s.linked|, i requires 0 <= i < |s.linked| => SrrToLink(s.linked[i])),
      map k | k in s.ext :: NewElement(s.ext[k].value, s.ext[k].readOnly, false))
  }

  /** The saved form loses nothing but the dirty flags: what differs from a
      default element comes back dirty. */
  lemma SrrRoundTrip(a: Asset)
    ensures SrrToAsset(AssetToSrr(a))
      == a.(ext := map k | k in a.ext ::
              ExtMapElement(a.ext[k].value, a.ext[k].readOnly, a.ext[k].value != "" || a.ext[k].readOnly))
  {
    var b := SrrToAsset(AssetToSrr(a));
    assert b.linked == a.linked;
    assert b.ext == map k | k in a.ext ::
      ExtMapElement(a.ext[k].value, a.ext[k].readOnly, a.ext[k].value != "" || a.ext[k].readOnly);
  }

  /** An outlet is written exactly when it has a name. */
  lemma EmptyOutletsAreNotSaved(a: Asset, i: nat)
    requires i < |a.linked|
    ensures var l := AssetToSrr(a).linked[i];
      && l.srcOut == (if a.linked[i].srcOut == "" then None else Some(a.linked[i].srcOut))
      && l.destIn == (if a.linked[i].destIn == "" then None else Some(a.linked[i].destIn))
  {
  }

  // ---------- saving ----------

  /** An asset object as loadAsset, loadExtMap and loadLinkedAssets fill it. */
  ghost predicate IsLoaded(t: Tables, a: Asset) {
    && a.name in t.rows
    && var row := t.rows[a.name];
    && a.parent == row.parent && a.status == row.status && a.assetType == row.assetType
    && a.subtype == row.subtype && a.priority == row.priority
    && a.tag == row.tag && a.secondaryId == row.secondaryId
    && a.ext == Loaded(row.ext)
    && AreLinksTo(t.links, a.name, multiset(a.linked))
  }

  method LoadAsset(db: Db, name: string) returns (a: Asset)
    requires name in db.rows
    ensures a.name == name && IsLoaded(db.Now(), a)
  {
    var row := db.rows[name];
    var linked := db.SelectLinksTo(name);
    a := Asset(name, row.status, row.assetType, row.subtype, row.priority, row.parent, row.tag, row.secondaryId,
               linked, Loaded(row.ext));
  }

  ghost predicate IsSaved(t: Tables, saveVirtual: bool, n: string) {
    n in t.rows && n != RC0 && (saveVirtual || t.rows[n].assetType !in VIRTUAL_TYPES)
  }

  ghost function SavedSet(t: Tables, saveVirtual: bool): set<string> {
    set n | n in t.rows && IsSaved(t, saveVirtual, n)
  }

  ghost function SavedNames(t: Tables, saveVirtual: bool, order: seq<string>): seq<string> {
    if order == [] then [] else
      var n := order[|order| - 1];
      SavedNames(t, saveVirtual, order[..|order| - 1]) + if IsSaved(t, saveVirtual, n) then [n] else []
  }

  ghost predicate IsBackupOf(t: Tables, names: seq<string>, backup: seq<SrrAsset>) {
    && |backup| == |names|
    && forall i | 0 <= i < |names| ::
         exists a: Asset :: a.name == names[i] && IsLoaded(t, a) && backup[i] == AssetToSrr(a)
  }

  /** One more asset in the backup, if it is to be saved. */
  ghost predicate IsWithAsset(t: Tables, saveVirtual: bool, n: string, backup: seq<SrrAsset>, more: seq<SrrAsset>) {
    if IsSaved(t, saveVirtual, n) then
      exists a: Asset :: a.name == n && IsLoaded(t, a) && more == backup + [AssetToSrr(a)]
    else
      more == backup
  }

  method SaveOne(db: Db, name: string, saveVirtual: bool, backup: seq<SrrAsset>) returns (more: seq<SrrAsset>)
    requires name in db.rows
    ensures IsWithAsset(db.Now(), saveVirtual, name, backup, more)
  {
    if name == RC0 {
      return backup;
    }
    var a := LoadAsset(db, name);
    TypesAreApart(a.assetType);
    if IsVirtual(a.assetType) && !saveVirtual {
      return backup;
    }
    more := backup + [AssetToSrr(a)];
  }

  lemma BackupGrows(t: Tables, saveVirtual: bool, order: seq<string>, i: nat, backup: seq<SrrAsset>)
    requires i < |order| && IsBackupOf(t, SavedNames(t, saveVirtual, order[..i]), backup)
    ensures forall more | IsWithAsset(t, saveVirtual, order[i], backup, more) ::
      IsBackupOf(t, SavedNames(t, saveVirtual, order[..i + 1]), more)
  {
    assert order[..i + 1][..i] == order[..i];
    var names := SavedNames(t, saveVirtual, order[..i]);
    assert names + [] == names;
  }

  /** saveAssets: every stored asset but rackcontroller-0 and, unless asked for, the virtual ones. */
  method SaveAssets(db: Db, saveVirtual: bool) returns (backup: seq<SrrAsset>)
    requires Consistent(db.Now())
    ensures IsBackupOf(db.Now(), SavedNames(db.Now(), saveVirtual, db.order), backup)
    ensures HoldsAllBut(db.Now(), saveVirtual, backup)
  {
    backup := [];
    for i := 0 to |db.order|
      invariant IsBackupOf(db.Now(), SavedNames(db.Now(), saveVirtual, db.order[..i]), backup)
    {
      assert db.order[i] in db.order;
      BackupGrows(db.Now(), saveVirtual, db.order, i, backup);
      backup := SaveOne(db, db.order[i], saveVirtual, backup);
    }
    assert db.order[..|db.order|] == db.order;
    NothingForgotten(db.Now(), saveVirtual, backup);
  }

  ghost predicate IsInBackup(backup: seq<SrrAsset>, n: string) {
    exists i :: 0 <= i < |backup| && backup[i].id == n
  }

  /** By type: everything but the rack controller when virtual assets are saved too, else nothing
      virtual, and all that is physical in any case. */
  ghost predicate HoldsAllBut(t: Tables, saveVirtual: bool, backup: seq<SrrAsset>) {
    && (forall n | IsInBackup(backup, n) :: n in t.rows && n != "rackcontroller-0")
    && (forall n | n in t.rows && n != "rackcontroller-0" && (saveVirtual || t.rows[n].assetType in PHYSICAL_TYPES) ::
          IsInBackup(backup, n))
    && (!saveVirtual ==> forall n | n in t.rows && t.rows[n].assetType in VIRTUAL_TYPES :: !IsInBackup(backup, n))
  }

  lemma NothingForgotten(t: Tables, saveVirtual: bool, backup: seq<SrrAsset>)
    requires Consistent(t) && IsBackupOf(t, SavedNames(t, saveVirtual, t.order), backup)
    ensures HoldsAllBut(t, saveVirtual, backup)
  {
    var names := SavedNames(t, saveVirtual, t.order);
    SavedNamesAre(t, saveVirtual, t.order);
    forall n ensures IsInBackup(backup, n) <==> n in names {
      if n in names {
        var i :| 0 <= i < |names| && names[i] == n;
        assert backup[i].id == n;
      }
    }
    forall n | n in t.rows && t.rows[n].assetType in PHYSICAL_TYPES ensures t.rows[n].assetType !in VIRTUAL_TYPES {
      TypesAreApart(t.rows[n].assetType);
    }
  }

  lemma {:induction false} SavedNamesAre(t: Tables, saveVirtual: bool, order: seq<string>)
    requires NoDuplicates(order)
    ensures NoDuplicates(SavedNames(t, saveVirtual, order))
    ensures forall n :: n in SavedNames(t, saveVirtual, order) <==> n in order && IsSaved(t, saveVirtual, n)
  {
    if order != [] {
      var front, n := order[..|order| - 1], order[|order| - 1];
      SavedNamesAre(t, saveVirtual, front);
      assert order == front + [n];
      assert n !in front;
    }
  }

  // ---------- saving, then restoring ----------

  function Decoded(backup: seq<SrrAsset>): seq<Asset> {
    seq(|backup|, i requires 0 <= i < |backup| => SrrToAsset(backup[i]))
  }

  /** What a decoded asset tells about its source row. */
  ghost predicate Describes(src: Tables, a: Asset) {
    && a.name in src.rows
    && var row := src.rows[a.name];
    && a.parent == row.parent && a.status == row.status && a.assetType == row.assetType
    && a.subtype == row.subtype && a.priority == row.priority
    && a.tag == row.tag && a.secondaryId == row.secondaryId
    && a.ext == DecodedExt(row.ext)
    && AreLinksTo(src.links, a.name, multiset(a.linked))
  }

  function DecodedExt(ext: map<string, Attribute>): ExtMap {
    map k | k in ext :: NewElement(ext[k].value, ext[k].readOnly, false)
  }

  lemma DecodedDescribes(src: Tables, names: seq<string>, backup: seq<SrrAsset>)
    requires IsBackupOf(src, names, backup)
    ensures forall i | 0 <= i < |names| :: Decoded(backup)[i].name == names[i] && Describes(src, Decoded(backup)[i])
  {
    forall i | 0 <= i < |names|
      ensures Decoded(backup)[i].name == names[i] && Describes(src, Decoded(backup)[i])
    {
      var a: Asset :| a.name == names[i] && IsLoaded(src, a) && backup[i] == AssetToSrr(a);
      SrrRoundTrip(a);
      assert SrrToAsset(backup[i]).ext == DecodedExt(src.rows[a.name].ext);
    }
  }

  /** A backup of a forest can be sorted. */
  lemma BackupIsAcyclic(src: Tables, v: seq<Asset>)
    requires Consistent(src) && IsForest(ParentsOf(src))
    requires forall a | a in v :: Describes(src, a)
    ensures Acyclic(v)
  {
    var p := ParentsOf(src);
    assert IsTreeRank(v, Depth(p));
  }

  /** The attributes come back with their values and flags, empty ones do not,
      and the two time stamps are new. */
  ghost predicate SameExt(old_: map<string, Attribute>, new_: map<string, Attribute>, now: string) {
    && EXT_CREATE_TS in new_ && new_[EXT_CREATE_TS] == Attribute(now, true)
    && EXT_UPDATE_TS in new_ && new_[EXT_UPDATE_TS] == Attribute(now, true)
    && forall k | k != EXT_CREATE_TS && k != EXT_UPDATE_TS ::
         && (k in new_ <==> k in old_ && old_[k].value != "")
         && (k in new_ ==> new_[k] == old_[k])
  }

  ghost predicate ShortName(ext: map<string, Attribute>) {
    EXT_NAME in ext ==> |ext[EXT_NAME].value| <= MAX_NAME
  }

  /** Dirty exactly where it differs from a default element. */
  ghost predicate Fresh(mem: ExtMap) {
    forall k | k in mem :: mem[k].updated == (mem[k].value != "" || mem[k].readOnly)
  }

  ghost predicate ShortNameIn(mem: ExtMap) {
    EXT_NAME in mem ==> |mem[EXT_NAME].value| <= MAX_NAME
  }

  ghost function NonEmpty(mem: ExtMap): map<string, Attribute> {
    map k | k in mem && mem[k].value != "" :: Attribute(mem[k].value, mem[k].readOnly)
  }

  lemma StampKeepsFresh(mem: ExtMap, key: string, now: string)
    requires Fresh(mem) && ShortNameIn(mem) && now != "" && key != EXT_NAME
    ensures Fresh(WithEntry(mem, key, now, true, false)) && ShortNameIn(WithEntry(mem, key, now, true, false))
    ensures WithEntry(mem, key, now, true, false)[key].updated
  {
  }

  lemma SavingFresh(stored: map<string, Attribute>, mem: ExtMap, norm: string -> Option<string>)
    requires Fresh(mem) && ShortNameIn(mem)
    requires forall k | k in stored :: k in mem && mem[k].updated
    ensures Normable(mem, norm) && SavedExt(stored, mem, norm) == NonEmpty(mem)
  {
    var saved := SavedExt(stored, mem, norm);
    forall k ensures k in saved <==> k in NonEmpty(mem) {
    }
  }

  lemma ExtComesBack(ext: map<string, Attribute>, env: Env)
    requires env.now != "" && ShortName(ext)
    ensures var mem := WithEntry(DecodedExt(ext), EXT_CREATE_TS, env.now, true, false);
      var mem' := WithEntry(mem, EXT_UPDATE_TS, env.now, true, false);
      && Normable(mem, env.norm) && Normable(mem', env.norm)
      && SameExt(ext, SavedExt(SavedExt(map[], mem, env.norm), mem', env.norm), env.now)
  {
    var mem := WithEntry(DecodedExt(ext), EXT_CREATE_TS, env.now, true, false);
    var mem' := WithEntry(mem, EXT_UPDATE_TS, env.now, true, false);
    assert EXT_NAME[0] != EXT_CREATE_TS[0] && EXT_NAME[0] != EXT_UPDATE_TS[0];
    StampKeepsFresh(DecodedExt(ext), EXT_CREATE_TS, env.now);
    StampKeepsFresh(mem, EXT_UPDATE_TS, env.now);
    SavingFresh(map[], mem, env.norm);
    SavingFresh(NonEmpty(mem), mem', env.norm);
    assert EXT_CREATE_TS[0] != EXT_UPDATE_TS[0];
    StampsAside(ext, env.now);
  }

  lemma StampsAside(ext: map<string, Attribute>, now: string)
    requires now != "" && EXT_CREATE_TS != EXT_UPDATE_TS
    ensures var mem := WithEntry(DecodedExt(ext), EXT_CREATE_TS, now, true, false);
      SameExt(ext, NonEmpty(WithEntry(mem, EXT_UPDATE_TS, now, true, false)), now)
  {
    var mem := WithEntry(WithEntry(DecodedExt(ext), EXT_CREATE_TS, now, true, false), EXT_UPDATE_TS, now, true, false);
    forall k | k != EXT_CREATE_TS && k != EXT_UPDATE_TS
      ensures k in mem <==> k in ext
      ensures k in ext ==> mem[k].value == ext[k].value && mem[k].readOnly == ext[k].readOnly
    {
    }
  }

  /** A stored asset and its restored copy: only a refused activation shows. */
  ghost predicate SameAsset(src: Tables, t: Tables, n: string, env: Env)
    requires n in src.rows
  {
    && n in t.rows
    && var old_, new_ := src.rows[n], t.rows[n];
    && new_.parent == old_.parent && new_.assetType == old_.assetType
    && new_.subtype == old_.subtype && new_.priority == old_.priority
    && new_.tag == old_.tag && new_.secondaryId == old_.secondaryId
    && new_.status == (
         if old_.status == Active && old_.assetType == TYPE_DEVICE && !env.activable(n) then Nonactive
         else old_.status)
    && SameExt(old_.ext, new_.ext, env.now)
    && SameLinksTo(t.links, src.links, n)
  }

  /** Every saved device that is active may be activated, or the caller takes it nonactive. */
  ghost predicate IsWilling(src: Tables, names: set<string>, env: Env) {
    env.tryActivate || forall n | n in names && n in src.rows ::
      src.rows[n].status == Active && src.rows[n].assetType == TYPE_DEVICE ==> env.activable(n)
  }

  /** What the target must offer: it has none of the saved assets but knows their
      types, and every parent and link source is saved too or already there. */
  ghost predicate FitsInto(src: Tables, names: set<string>, t0: Tables, types: set<string>, subtypes: set<string>)
    requires names <= src.rows.Keys
  {
    && names !! t0.rows.Keys
    && (forall n | n in names :: src.rows[n].assetType in types && src.rows[n].subtype in subtypes)
    && (forall n | n in names :: ShortName(src.rows[n].ext))
    && (forall n | n in names :: src.rows[n].parent == "" || src.rows[n].parent in names + t0.rows.Keys)
    && (forall r | r in src.links && r.dest in names :: r.link.source in names + t0.rows.Keys)
  }

  /** The backup's assets and the names they carry. */
  ghost predicate IsDecodedBackup(src: Tables, names: set<string>, v: seq<Asset>) {
    && DistinctNames(v) && Names(v) == names && names <= src.rows.Keys
    && forall a | a in v :: Describes(src, a)
  }

  lemma BackupDecodes(src: Tables, saveVirtual: bool, backup: seq<SrrAsset>)
    requires Consistent(src)
    requires IsBackupOf(src, SavedNames(src, saveVirtual, src.order), backup)
    ensures IsDecodedBackup(src, SavedSet(src, saveVirtual), Decoded(backup))
  {
    var names, v := SavedNames(src, saveVirtual, src.order), Decoded(backup);
    SavedNamesAre(src, saveVirtual, src.order);
    DecodedDescribes(src, names, backup);
    forall n | n in names ensures n in Names(v) {
      var i :| 0 <= i < |names| && names[i] == n;
      assert v[i] in v;
    }
  }

  lemma NotItsOwnParent(src: Tables, n: string)
    requires IsForest(ParentsOf(src)) && n in src.rows
    ensures src.rows[n].parent != n
  {
    var p := ParentsOf(src);
    var d := Depth(p);
    assert d[n] == if p[n] in p then d[p[n]] + 1 else 0;
  }

  /** With its parents coming along, no saved asset fails to be inserted. */
  lemma BackupCompletes(src: Tables, names: set<string>, v: seq<Asset>, env: Env, t0: Tables, types: set<string>,
          subtypes: set<string>)
    requires Consistent(src) && IsForest(ParentsOf(src)) && IsDecodedBackup(src, names, v)
    requires FitsInto(src, names, t0, types, subtypes) && IsWilling(src, names, env) && env.now != ""
    ensures AdmittedNames(v, env) == names
    ensures Completes(t0, types, subtypes, v, env)
  {
    assert AdmittedNames(v, env) == Names(v);
    forall a | a in v
      ensures Restorable(t0, types, subtypes, t0.rows.Keys + names, a, env)
    {
      assert a.name in names;
      NotItsOwnParent(src, a.name);
      ExtComesBack(src.rows[a.name].ext, env);
    }
  }

  lemma SourcesComeAlong(src: Tables, names: set<string>, t0: Tables, a: Asset)
    requires Describes(src, a) && a.name in names
    requires forall r | r in src.links && r.dest in names :: r.link.source in names + t0.rows.Keys
    ensures SourcesIn(multiset(a.linked), t0.rows.Keys + names)
  {
    forall l: AssetLink | l in multiset(a.linked) ensures l.source in t0.rows.Keys + names {
      assert src.links[LinkRow(l, a.name)] > 0;
    }
  }

  lemma CopiedExt(ext: map<string, Attribute>, a: Asset, env: Env)
    requires a.ext == DecodedExt(ext) && ShortName(ext) && env.now != ""
    ensures var mem := Created(Adjusted(a, env), env);
      && Normable(Touched(mem, env).ext, env.norm)
      && SameExt(ext, SavedRow(CreatedRow(a, env), mem, env).ext, env.now)
  {
    ExtComesBack(ext, env);
  }

  lemma SavedCopy(src: Tables, names: set<string>, a: Asset, env: Env, t0: Tables, types: set<string>,
          subtypes: set<string>)
    requires IsForest(ParentsOf(src)) && Consistent(src)
    requires Describes(src, a) && a.name in names && names <= src.rows.Keys
    requires FitsInto(src, names, t0, types, subtypes) && IsWilling(src, names, env) && env.now != ""
    ensures CanSave(t0.rows.Keys + names, Created(Adjusted(a, env), env), env)
  {
    var mem := Created(Adjusted(a, env), env);
    assert Normable(Touched(mem, env).ext, env.norm) by { CopiedExt(src.rows[a.name].ext, a, env); }
    NotItsOwnParent(src, a.name);
    SourcesComeAlong(src, names, t0, a);
    SavableLike(t0.rows.Keys + names, a, mem, env);
  }

  lemma SavableLike(names: set<string>, a: Asset, mem: Asset, env: Env)
    requires mem.name == a.name && mem.parent == a.parent && mem.linked == a.linked
    requires a.name != "" && a.name != a.parent && a.name in names && (a.parent == "" || a.parent in names)
    requires SourcesIn(multiset(a.linked), names) && Normable(Touched(mem, env).ext, env.norm)
    ensures CanSave(names, mem, env)
  {
  }

  lemma SameCounts(t: Tables, src: Tables, n: string, m: multiset<AssetLink>)
    requires AreLinksTo(t.links, n, m) && AreLinksTo(src.links, n, m)
    ensures SameLinksTo(t.links, src.links, n)
  {
    forall l ensures t.links[LinkRow(l, n)] == src.links[LinkRow(l, n)] {
      assert t.links[LinkRow(l, n)] == m[l];
    }
  }

  /** One saved asset of a completed restore. */
  lemma AssetComesBack(src: Tables, names: set<string>, a: Asset, env: Env, t0: Tables, t: Tables, types: set<string>,
          subtypes: set<string>)
    requires IsForest(ParentsOf(src)) && Consistent(src)
    requires Describes(src, a) && a.name in names && names <= src.rows.Keys
    requires FitsInto(src, names, t0, types, subtypes) && IsWilling(src, names, env) && env.now != ""
    requires t.rows.Keys == t0.rows.Keys + names && AssetOutcome(t0, t, a, env)
    ensures SameAsset(src, t, a.name, env)
  {
    SavedCopy(src, names, a, env, t0, types, subtypes);
    CopiedExt(src.rows[a.name].ext, a, env);
    SameCounts(t, src, a.name, multiset(a.linked));
  }

  /** Backup then restore is the identity on the saved assets, and touches nothing else. */
  ghost predicate ComesBack(src: Tables, names: set<string>, t0: Tables, t: Tables, env: Env)
    requires names <= src.rows.Keys
  {
    && t.rows.Keys == t0.rows.Keys + names
    && (forall n | n in names :: SameAsset(src, t, n, env))
    && (forall n | n in t0.rows :: t.rows[n] == t0.rows[n])
    && (forall n | n !in names :: SameLinksTo(t.links, t0.links, n))
  }

  lemma RestoreIsIdentity(src: Tables, names: set<string>, v: seq<Asset>, env: Env, t0: Tables, t: Tables,
          types: set<string>, subtypes: set<string>)
    requires Consistent(src) && IsForest(ParentsOf(src)) && IsDecodedBackup(src, names, v)
    requires FitsInto(src, names, t0, types, subtypes) && IsWilling(src, names, env) && env.now != ""
    requires RestoreOutcome(t0, t, v, env)
    ensures ComesBack(src, names, t0, t, env)
  {
    BackupCompletes(src, names, v, env, t0, types, subtypes);
    forall n | n in names ensures SameAsset(src, t, n, env) {
      var a :| a in v && a.name == n;
      AssetComesBack(src, names, a, env, t0, t, types, subtypes);
    }
  }

  /** saveAssets on one box and restoreAssets on another. */
  method SaveThenRestore(from: Db, to: Db, saveVirtual: bool, activeVersion: real, env: Env) returns (r: RestoreResult)
    requires from != to && Consistent(from.Now()) && IsForest(ParentsOf(from.Now())) && Consistent(to.Now())
    requires IsWilling(from.Now(), SavedSet(from.Now(), saveVirtual), env) && env.now != ""
    requires FitsInto(from.Now(), SavedSet(from.Now(), saveVirtual), to.Now(), to.types, to.subtypes)
    modifies to`order, to`rows, to`links
    ensures r == Done
    ensures ComesBack(from.Now(), SavedSet(from.Now(), saveVirtual), old(to.Now()), to.Now(), env)
  {
    var backup := SaveAssets(from, saveVirtual);
    ghost var src, t0 := from.Now(), to.Now();
    ghost var names := SavedSet(src, saveVirtual);
    BackupDecodes(src, saveVirtual, backup);
    var v := Decoded(backup);
    BackupIsAcyclic(src, v);
    BackupCompletes(src, names, v, env, t0, to.types, to.subtypes);
    r := RestoreAssets(to, activeVersion, activeVersion, v, env);
    RestoreIsIdentity(src, names, v, env, t0, to.Now(), to.types, to.subtypes);
  }
}
