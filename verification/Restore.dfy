/** Restoring saved assets in two phases, restoreAssets of server/src/asset-server.cc
    with restore, activate and update of server/src/asset/asset.cc. */
module Restore {
  import opened AssetModel
  import opened Sequences
  import opened Storage
  import opened RestoreTree

  /** The answers of the licensing agent and of normName, the clock, and the caller's option. */
  datatype Env = Env(
    activable: string -> bool,
    activates: string -> bool,
    norm: string -> Option<string>,
    now: string,
    tryActivate: bool)

  /** restore() either works, finds the asset in place, or fails with an
      exception that is not a std::exception and so leaves restoreAssets. */
  datatype RestoreStatus = Restored | AlreadyExists | Escaped

  datatype RestoreResult = Done | Unsupported | Aborted

  // ---------- one asset ----------

  function Created(a: Asset, env: Env): Asset {
    a.(ext := WithEntry(a.ext, EXT_CREATE_TS, env.now, true, false))
  }

  function Touched(a: Asset, env: Env): Asset {
    a.(ext := WithEntry(a.ext, EXT_UPDATE_TS, env.now, true, false))
  }

  /** isActivable: only devices are counted against the license. */
  predicate Activable(a: Asset, env: Env) {
    a.assetType != TYPE_DEVICE || env.activable(a.name)
  }

  predicate Activated(a: Asset, env: Env) {
    a.assetType != TYPE_DEVICE || env.activates(a.name)
  }

  ghost predicate CanRestore(t: Tables, types: set<string>, subtypes: set<string>, a: Asset, env: Env) {
    CanInsert(t, types, subtypes, a) && Normable(Created(a, env).ext, env.norm)
  }

  ghost function NewRow(a: Asset, env: Env): Row {
    InsertedRow(a).(ext := SavedExt(map[], Created(a, env).ext, env.norm))
  }

  /** restore(): all or nothing. */
  method RestoreAsset(db: Db, a: Asset, env: Env) returns (r: RestoreStatus, a': Asset)
    modifies db`order, db`rows
    ensures r == if a.name in old(db.rows) then AlreadyExists
                 else if CanRestore(old(db.Now()), db.types, db.subtypes, a, env) then Restored
                 else Escaped
    ensures a' == if r.AlreadyExists? then a else Created(a, env)
    ensures db.order == if r.Restored? then old(db.order) + [a.name] else old(db.order)
    ensures db.rows == if r.Restored? then old(db.rows)[a.name := NewRow(a, env)] else old(db.rows)
  {
    a' := a;
    if a.name in db.rows {
      return AlreadyExists, a';
    }
    var order, rows := db.order, db.rows;
    a' := Created(a, env);
    var ok := db.Insert(a');
    if ok {
      ok := db.SaveExtMap(a'.name, a'.ext, env.norm);
    }
    if !ok {
      db.order, db.rows := order, rows;
      return Escaped, a';
    }
    r := Restored;
  }

  /** activate(): the status of a device follows the answer, others turn active at once. */
  method Activate(db: Db, a: Asset, env: Env) returns (a': Asset)
    requires CanUpdate(db.Now(), a)
    modifies db`rows
    ensures a' == if Activated(a, env) then a.(status := Active) else a
    ensures db.rows == (
      if Activated(a, env) then old(db.rows)[a.name := UpdatedRow(old(db.rows)[a.name], a.(status := Active))]
      else old(db.rows))
  {
    a' := a;
    if a.assetType != TYPE_DEVICE || env.activates(a.name) {
      a' := a.(status := Active);
      var ok := db.UpdateRow(a');
    }
  }

  ghost predicate CanSave(names: set<string>, a: Asset, env: Env) {
    && a.name != "" && a.name != a.parent && a.name in names
    && (a.parent == "" || a.parent in names)
    && SourcesIn(multiset(a.linked), names)
    && Normable(Touched(a, env).ext, env.norm)
  }

  ghost function SavedRow(row: Row, a: Asset, env: Env): Row {
    UpdatedRow(row, a).(ext := SavedExt(row.ext, Touched(a, env).ext, env.norm))
  }

  /** What update() does inside its transaction. */
  method UpdateParts(db: Db, a: Asset, norm: string -> Option<string>) returns (ok: bool)
    requires SourcesExist(db.Now()) && a.name in db.rows
    modifies db`rows, db`links
    ensures ok
      <==> CanUpdate(old(db.Now()), a) && SourcesIn(multiset(a.linked), old(db.rows).Keys) && Normable(a.ext, norm)
    ensures ok ==> db.rows == old(db.rows)[a.name :=
      UpdatedRow(old(db.rows)[a.name], a).(ext := SavedExt(old(db.rows)[a.name].ext, a.ext, norm))]
    ensures SameElsewhere(db.links, old(db.links), a.name)
    ensures ok ==> AreLinksTo(db.links, a.name, multiset(a.linked))
  {
    ok := db.UpdateRow(a);
    if !ok { return; }
    assert db.rows.Keys == old(db.rows).Keys;
    ok := db.SaveLinkedAssets(a.name, a.linked);
    if !ok { return; }
    ok := db.SaveExtMap(a.name, a.ext, norm);
  }

  /** update(): all or nothing; it is what writes the links. */
  method UpdateAsset(db: Db, a: Asset, env: Env) returns (ok: bool)
    requires SourcesExist(db.Now())
    modifies db`rows, db`links
    ensures ok <==> CanSave(old(db.rows).Keys, a, env)
    ensures db.rows == if ok then old(db.rows)[a.name := SavedRow(old(db.rows)[a.name], a, env)] else old(db.rows)
    ensures !ok ==> db.links == old(db.links)
    ensures SameElsewhere(db.links, old(db.links), a.name)
    ensures ok ==> AreLinksTo(db.links, a.name, multiset(a.linked))
  {
    var rows, links := db.rows, db.links;
    if a.name !in db.rows {
      return false;
    }
    ok := UpdateParts(db, Touched(a, env), env.norm);
    if !ok {
      db.rows, db.links := rows, links;
    }
  }

  // ---------- the whole backup ----------

  /** Active in the backup, but the license has no room for it. */
  predicate Refused(a: Asset, env: Env) {
    a.status == Active && !Activable(a, env)
  }

  /** A refused asset is restored as non active when the caller allows it, else not at all. */
  predicate Admitted(a: Asset, env: Env) {
    Refused(a, env) ==> env.tryActivate
  }

  function Adjusted(a: Asset, env: Env): Asset {
    if Refused(a, env) && env.tryActivate then a.(status := Nonactive) else a
  }

  /** The asset in memory after the first phase. */
  function AfterCreate(a: Asset, before: set<string>, env: Env): Asset {
    if Admitted(a, env) && a.name !in before then Created(Adjusted(a, env), env) else Adjusted(a, env)
  }

  /** The row of a newly restored asset after the first phase. */
  ghost function CreatedRow(a: Asset, env: Env): Row {
    if a.status == Active && Activable(a, env) && Activated(a, env) then UpdatedRow(NewRow(a, env), a)
    else NewRow(a, env)
  }

  ghost function AdmittedNames(s: seq<Asset>, env: Env): set<string> {
    set a | a in s && Admitted(a, env) :: a.name
  }

  /** What a caller can check beforehand: the row's parent is stored or comes along. */
  ghost predicate Restorable(t: Tables, types: set<string>, subtypes: set<string>, names: set<string>, a: Asset,
          env: Env)
  {
    && a.name != "" && a.name != a.parent
    && (a.parent == "" || a.parent in names)
    && a.assetType in types && a.subtype in subtypes
    && Normable(Created(a, env).ext, env.norm)
  }

  ghost predicate Completes(t: Tables, types: set<string>, subtypes: set<string>, s: seq<Asset>, env: Env) {
    forall a | a in s && Admitted(a, env) && a.name !in t.rows ::
      Restorable(t, types, subtypes, t.rows.Keys + AdmittedNames(s, env), a, env)
  }

  /** Rows are added, and only for assets of the backup; nothing else changes. */
  ghost predicate OnlyAdds(t0: Tables, t: Tables, s: seq<Asset>, env: Env) {
    && t.links == t0.links
    && (forall n | n in t0.rows :: n in t.rows && t.rows[n] == t0.rows[n])
    && (forall n | n in t.rows && n !in t0.rows :: IsAddedFrom(s, n, t.rows[n], env))
  }

  ghost predicate IsAddedFrom(s: seq<Asset>, n: string, row: Row, env: Env) {
    exists a :: a in s && a.name == n && Admitted(a, env) && row == CreatedRow(a, env)
  }

  /** The tables in the middle of the first phase. */
  ghost predicate CreatedSoFar(t0: Tables, t: Tables, s: seq<Asset>, i: nat, env: Env)
    requires i <= |s|
  {
    t.rows.Keys == t0.rows.Keys + AdmittedNames(s[..i], env) && OnlyAdds(t0, t, s[..i], env)
  }

  /** The loops keep the names in memory. */
  ghost predicate HasNames(s: seq<Asset>, cur: seq<Asset>, i: nat) {
    && |cur| == |s| && i <= |s|
    && (forall j | 0 <= j < |s| :: cur[j].name == s[j].name)
    && (forall j | i <= j < |s| :: cur[j] == s[j])
  }

  ghost predicate InMemory(t0: Tables, s: seq<Asset>, cur: seq<Asset>, i: nat, env: Env) {
    && |cur| == |s| && i <= |s|
    && (forall j | 0 <= j < i :: cur[j] == AfterCreate(s[j], t0.rows.Keys, env))
    && (forall j | i <= j < |s| :: cur[j] == s[j])
  }

  ghost predicate IsInserted(t: Tables, a: Asset, env: Env) {
    Admitted(a, env) && a.name !in t.rows
  }

  /** What a turn of the first loop does; it escapes only where restore() does. */
  ghost predicate IsTurn(t: Tables, t': Tables, types: set<string>, subtypes: set<string>, a: Asset, env: Env,
          r: RestoreStatus, a': Asset)
  {
    && r == (if !IsInserted(t, a, env) then AlreadyExists
             else if CanRestore(t, types, subtypes, Adjusted(a, env), env) then Restored
             else Escaped)
    && (!r.Escaped? ==> a' == AfterCreate(a, t.rows.Keys, env))
    && t' == if r.Restored? then Tables(t.order + [a.name], t.rows[a.name := CreatedRow(a, env)], t.links) else t
  }

  method CreateOne(db: Db, a: Asset, env: Env) returns (r: RestoreStatus, a': Asset)
    modifies db`order, db`rows
    ensures IsTurn(old(db.Now()), db.Now(), db.types, db.subtypes, a, env, r, a')
  {
    a' := a;
    var requestActivation := a.status == Active;
    if requestActivation && !Activable(a, env) {
      if env.tryActivate {
        a' := a.(status := Nonactive);
        requestActivation := false;
      } else {
        return AlreadyExists, a';
      }
    }
    r, a' := RestoreAsset(db, a', env);
    if r.Restored? && requestActivation {
      a' := Activate(db, a', env);
    }
  }

  lemma AdmittedGrow(s: seq<Asset>, i: nat, env: Env)
    requires i < |s|
    ensures AdmittedNames(s[..i + 1], env)
      == AdmittedNames(s[..i], env) + if Admitted(s[i], env) then {s[i].name} else {}
  {
    assert s[..i + 1] == s[..i] + [s[i]];
  }

  ghost predicate IsFirst(s: seq<Asset>, i: nat)
    requires i < |s|
  {
    forall j | 0 <= j < i :: s[j].name != s[i].name
  }

  /** Names are distinct, so an asset is new exactly when it was not stored at the start. */
  lemma NewUntilItsTurn(t0: Tables, t: Tables, s: seq<Asset>, i: nat, env: Env)
    requires i < |s| && IsFirst(s, i) && CreatedSoFar(t0, t, s, i, env)
    ensures s[i].name in t.rows <==> s[i].name in t0.rows
  {
    assert s[i].name !in AdmittedNames(s[..i], env);
  }

  /** In a parents-first order the parents stored by now are all that will ever be stored. */
  lemma ParentsAreThere(t0: Tables, t: Tables, s: seq<Asset>, i: nat, env: Env)
    requires i < |s| && ParentsFirst(s) && CreatedSoFar(t0, t, s, i, env)
    ensures s[i].parent != "" ==>
      (s[i].parent in t.rows <==> s[i].parent in t0.rows.Keys + AdmittedNames(s, env))
  {
    if s[i].parent != "" && s[i].parent in AdmittedNames(s, env) {
      var k :| 0 <= k < |s| && Admitted(s[k], env) && s[k].name == s[i].parent;
      assert k < i;
      assert s[k] in s[..i];
    }
  }

  /** Whether the next insert works is decided by what was known before the run. */
  lemma RestorableInTurn(t0: Tables, t: Tables, types: set<string>, subtypes: set<string>, s: seq<Asset>, i: nat,
          env: Env)
    requires i < |s| && ParentsFirst(s) && CreatedSoFar(t0, t, s, i, env)
    requires Admitted(s[i], env) && s[i].name !in t.rows
    ensures CanRestore(t, types, subtypes, Adjusted(s[i], env), env)
      <==> Restorable(t0, types, subtypes, t0.rows.Keys + AdmittedNames(s, env), s[i], env)
  {
    ParentsAreThere(t0, t, s, i, env);
  }

  lemma CreatedOneMore(t0: Tables, t: Tables, t': Tables, s: seq<Asset>, i: nat, env: Env)
    requires i < |s| && CreatedSoFar(t0, t, s, i, env)
    requires t'.links == t.links
    requires t'.rows == if Admitted(s[i], env) && s[i].name !in t.rows then t.rows[s[i].name := CreatedRow(s[i], env)]
                        else t.rows
    ensures CreatedSoFar(t0, t', s, i + 1, env)
  {
    AdmittedGrow(s, i, env);
    forall n | n in t'.rows && n !in t0.rows ensures IsAddedFrom(s[..i + 1], n, t'.rows[n], env) {
      AddedFromMore(s, i, n, t'.rows[n], env);
    }
  }

  lemma AddedFromMore(s: seq<Asset>, i: nat, n: string, row: Row, env: Env)
    requires i < |s|
    requires IsAddedFrom(s[..i], n, row, env) || (Admitted(s[i], env) && n == s[i].name && row == CreatedRow(s[i], env))
    ensures IsAddedFrom(s[..i + 1], n, row, env)
  {
    assert s[..i + 1] == s[..i] + [s[i]];
    if IsAddedFrom(s[..i], n, row, env) {
      var a :| a in s[..i] && a.name == n && Admitted(a, env) && row == CreatedRow(a, env);
      assert a in s[..i + 1];
    } else {
      assert s[i] in s[..i + 1];
    }
  }

  lemma SoFarOnlyAdds(t0: Tables, t: Tables, s: seq<Asset>, i: nat, env: Env)
    requires i <= |s| && CreatedSoFar(t0, t, s, i, env)
    ensures OnlyAdds(t0, t, s, env)
  {
    forall n | n in t.rows && n !in t0.rows ensures IsAddedFrom(s, n, t.rows[n], env) {
      var a :| a in s[..i] && a.name == n && Admitted(a, env) && t.rows[n] == CreatedRow(a, env);
      assert a in s;
    }
  }

  lemma AddingIsOrderless(t0: Tables, t: Tables, s: seq<Asset>, saved: seq<Asset>, env: Env)
    requires multiset(s) == multiset(saved) && OnlyAdds(t0, t, s, env)
    ensures OnlyAdds(t0, t, saved, env)
  {
    forall n | n in t.rows && n !in t0.rows ensures IsAddedFrom(saved, n, t.rows[n], env) {
      var a :| a in s && a.name == n && Admitted(a, env) && t.rows[n] == CreatedRow(a, env);
      assert a in multiset(saved);
    }
  }

  ghost predicate RestorableSoFar(t0: Tables, types: set<string>, subtypes: set<string>, s: seq<Asset>, i: nat,
          env: Env)
  {
    && i <= |s|
    && forall j | 0 <= j < i && Admitted(s[j], env) && s[j].name !in t0.rows ::
         Restorable(t0, types, subtypes, t0.rows.Keys + AdmittedNames(s, env), s[j], env)
  }

  /** The state between two turns of the first loop; only distinct names make it exact. */
  ghost predicate InFirstPhase(t0: Tables, t: Tables, types: set<string>, subtypes: set<string>, s: seq<Asset>,
          cur: seq<Asset>, i: nat, env: Env)
  {
    && i <= |s| && Consistent(t)
    && CreatedSoFar(t0, t, s, i, env)
    && HasNames(s, cur, i)
    && (DistinctNames(s) ==> InMemory(t0, s, cur, i, env) && RestorableSoFar(t0, types, subtypes, s, i, env))
  }

  lemma RestorableOneMore(t0: Tables, types: set<string>, subtypes: set<string>, s: seq<Asset>, i: nat, env: Env)
    requires i < |s| && RestorableSoFar(t0, types, subtypes, s, i, env)
    requires Admitted(s[i], env) && s[i].name !in t0.rows ==>
      Restorable(t0, types, subtypes, t0.rows.Keys + AdmittedNames(s, env), s[i], env)
    ensures RestorableSoFar(t0, types, subtypes, s, i + 1, env)
  {
  }

  lemma InMemoryOneMore(t0: Tables, s: seq<Asset>, cur: seq<Asset>, i: nat, env: Env)
    requires i < |s| && InMemory(t0, s, cur, i, env)
    ensures InMemory(t0, s, cur[i := AfterCreate(s[i], t0.rows.Keys, env)], i + 1, env)
  {
  }

  lemma InFirstPhaseOneMore(t0: Tables, t: Tables, t': Tables, types: set<string>, subtypes: set<string>,
          s: seq<Asset>, cur: seq<Asset>, i: nat, a: Asset, env: Env)
    requires i < |s| && InFirstPhase(t0, t, types, subtypes, s, cur, i, env)
    requires Consistent(t') && t'.links == t.links
    requires t'.rows == if Admitted(s[i], env) && s[i].name !in t.rows then t.rows[s[i].name := CreatedRow(s[i], env)]
                        else t.rows
    requires Admitted(s[i], env) && s[i].name !in t.rows ==>
      Restorable(t0, types, subtypes, t0.rows.Keys + AdmittedNames(s, env), s[i], env)
    requires a == AfterCreate(s[i], t.rows.Keys, env)
    ensures InFirstPhase(t0, t', types, subtypes, s, cur[i := a], i + 1, env)
  {
    CreatedOneMore(t0, t, t', s, i, env);
    HasNamesOneMore(s, cur, i, a);
    if DistinctNames(s) {
      NewUntilItsTurn(t0, t, s, i, env);
      InMemoryOneMore(t0, s, cur, i, env);
      RestorableOneMore(t0, types, subtypes, s, i, env);
    }
  }

  lemma HasNamesOneMore(s: seq<Asset>, cur: seq<Asset>, i: nat, a: Asset)
    requires i < |s| && HasNames(s, cur, i) && a.name == s[i].name
    ensures HasNames(s, cur[i := a], i + 1)
  {
  }

  /** An insert that works was foreseen. */
  lemma TurnIsForeseen(t0: Tables, t: Tables, t': Tables, types: set<string>, subtypes: set<string>, s: seq<Asset>,
          cur: seq<Asset>, i: nat, env: Env, r: RestoreStatus, a: Asset)
    requires i < |s| && ParentsFirst(s) && InFirstPhase(t0, t, types, subtypes, s, cur, i, env)
    requires IsTurn(t, t', types, subtypes, s[i], env, r, a) && !r.Escaped?
    ensures InFirstPhase(t0, t', types, subtypes, s, cur[i := a], i + 1, env)
  {
    if IsInserted(t, s[i], env) {
      RestorableInTurn(t0, t, types, subtypes, s, i, env);
      InsertKeepsConsistent(t, s[i], CreatedRow(s[i], env));
    }
    InFirstPhaseOneMore(t0, t, t', types, subtypes, s, cur, i, a, env);
  }

  /** And so was one that fails. */
  lemma EscapeIsForeseen(t0: Tables, t: Tables, t': Tables, types: set<string>, subtypes: set<string>, s: seq<Asset>,
          cur: seq<Asset>, i: nat, env: Env, r: RestoreStatus, a: Asset)
    requires i < |s| && ParentsFirst(s) && InFirstPhase(t0, t, types, subtypes, s, cur, i, env)
    requires IsTurn(t, t', types, subtypes, s[i], env, r, a) && r.Escaped?
    ensures Consistent(t') && !Completes(t0, types, subtypes, s, env) && OnlyAdds(t0, t', s, env)
  {
    RestorableInTurn(t0, t, types, subtypes, s, i, env);
    assert s[i] in s;
    SoFarOnlyAdds(t0, t, s, i, env);
  }

  lemma NotYetTouched(t0: Tables, t: Tables, types: set<string>, subtypes: set<string>, s: seq<Asset>,
          cur: seq<Asset>, i: nat, env: Env)
    requires i < |s| && InFirstPhase(t0, t, types, subtypes, s, cur, i, env)
    ensures |cur| == |s| && cur[i] == s[i]
  {
  }

  /** One turn of the first loop with its place in the list. */
  method CreateInTurn(db: Db, s: seq<Asset>, cur: seq<Asset>, i: nat, env: Env, ghost t0: Tables)
    returns (escaped: bool, cur': seq<Asset>)
    requires i < |s| && ParentsFirst(s)
    requires InFirstPhase(t0, db.Now(), db.types, db.subtypes, s, cur, i, env)
    modifies db`order, db`rows
    ensures escaped ==>
      && Consistent(db.Now()) && OnlyAdds(t0, db.Now(), s, env)
      && !Completes(t0, db.types, db.subtypes, s, env)
    ensures !escaped ==> InFirstPhase(t0, db.Now(), db.types, db.subtypes, s, cur', i + 1, env)
  {
    ghost var t := db.Now();
    NotYetTouched(t0, t, db.types, db.subtypes, s, cur, i, env);
    var r, a := CreateOne(db, cur[i], env);
    if r.Escaped? {
      EscapeIsForeseen(t0, t, db.Now(), db.types, db.subtypes, s, cur, i, env, r, a);
      return true, cur;
    }
    TurnIsForeseen(t0, t, db.Now(), db.types, db.subtypes, s, cur, i, env, r, a);
    return false, cur[i := a];
  }

  /** The first loop.  It runs to its end if every new row finds its parent, and
      for distinct names only then. */
  method CreateAll(db: Db, s: seq<Asset>, env: Env) returns (escaped: bool, cur: seq<Asset>)
    requires ParentsFirst(s) && Consistent(db.Now())
    modifies db`order, db`rows
    ensures escaped ==> !Completes(old(db.Now()), db.types, db.subtypes, s, env)
    ensures escaped ==> OnlyAdds(old(db.Now()), db.Now(), s, env)
    ensures !escaped ==> CreatedSoFar(old(db.Now()), db.Now(), s, |s|, env) && HasNames(s, cur, |s|)
    ensures !escaped && DistinctNames(s) ==>
      Completes(old(db.Now()), db.types, db.subtypes, s, env) && InMemory(old(db.Now()), s, cur, |s|, env)
    ensures Consistent(db.Now())
  {
    cur := s;
    ghost var t0 := db.Now();
    NothingCreated(t0, db.types, db.subtypes, s, env);
    for i := 0 to |s|
      invariant InFirstPhase(t0, db.Now(), db.types, db.subtypes, s, cur, i, env)
    {
      escaped, cur := CreateInTurn(db, s, cur, i, env, t0);
      if escaped {
        return;
      }
    }
    escaped := false;
  }

  lemma NothingCreated(t: Tables, types: set<string>, subtypes: set<string>, s: seq<Asset>, env: Env)
    requires Consistent(t)
    ensures InFirstPhase(t, t, types, subtypes, s, s, 0, env)
  {
    assert AdmittedNames(s[..0], env) == {};
  }

  ghost function Names(s: seq<Asset>): set<string> {
    set a | a in s :: a.name
  }

  ghost predicate SameLinksTo(a: multiset<LinkRow>, b: multiset<LinkRow>, dest: string) {
    forall l :: a[LinkRow(l, dest)] == b[LinkRow(l, dest)]
  }

  /** One asset after the second phase: updated with all its links, or left as it was. */
  ghost predicate SavedOrKept(t1: Tables, t: Tables, a: Asset, env: Env) {
    if CanSave(t1.rows.Keys, a, env) then
      && a.name in t.rows && t.rows[a.name] == SavedRow(t1.rows[a.name], a, env)
      && AreLinksTo(t.links, a.name, multiset(a.linked))
    else
      && (a.name in t1.rows ==> a.name in t.rows && t.rows[a.name] == t1.rows[a.name])
      && SameLinksTo(t.links, t1.links, a.name)
  }

  ghost predicate KeptOutside(t1: Tables, t: Tables, names: set<string>) {
    && t.rows.Keys == t1.rows.Keys
    && (forall n | n in t1.rows && n !in names :: t.rows[n] == t1.rows[n])
    && (forall n | n !in names :: SameLinksTo(t.links, t1.links, n))
  }

  ghost predicate SavedSoFar(t1: Tables, t: Tables, s: seq<Asset>, i: nat, env: Env)
    requires i <= |s|
  {
    && KeptOutside(t1, t, Names(s[..i]))
    && forall j | 0 <= j < i :: SavedOrKept(t1, t, s[j], env)
  }

  ghost predicate IsUpdate(t: Tables, t': Tables, a: Asset, env: Env) {
    && t'.rows.Keys == t.rows.Keys
    && SavedOrKept(t, t', a, env)
    && KeptOutside(t, t', {a.name})
  }

  lemma NamesGrow(s: seq<Asset>, i: nat)
    requires i < |s|
    ensures Names(s[..i + 1]) == Names(s[..i]) + {s[i].name}
  {
    assert s[..i + 1] == s[..i] + [s[i]];
  }

  lemma SavedOneMore(t1: Tables, t: Tables, t': Tables, s: seq<Asset>, i: nat, env: Env)
    requires i < |s| && DistinctNames(s)
    requires SavedSoFar(t1, t, s, i, env) && IsUpdate(t, t', s[i], env)
    ensures SavedSoFar(t1, t', s, i + 1, env)
  {
    NamesGrow(s, i);
    assert s[i].name !in Names(s[..i]);
    forall j | 0 <= j < i + 1 ensures SavedOrKept(t1, t', s[j], env) {
      if j < i {
        assert SavedOrKept(t1, t, s[j], env);
        assert SameLinksTo(t'.links, t.links, s[j].name);
      } else {
        assert SameLinksTo(t.links, t1.links, s[i].name);
      }
    }
    forall n | n !in Names(s[..i + 1]) ensures SameLinksTo(t'.links, t1.links, n) {
      assert SameLinksTo(t'.links, t.links, n) && SameLinksTo(t.links, t1.links, n);
    }
  }

  lemma InsertKeepsConsistent(t: Tables, a: Asset, row: Row)
    requires Consistent(t) && a.name != "" && a.name !in t.rows
    requires row.parent == "" || row.parent in t.rows
    ensures Consistent(Tables(t.order + [a.name], t.rows[a.name := row], t.links))
  {
    var order := t.order + [a.name];
    forall n ensures n in order <==> n in t.rows[a.name := row] {
    }
  }

  lemma UpdateKeepsConsistent(t: Tables, t': Tables, a: Asset, env: Env)
    requires Consistent(t) && IsUpdate(t, t', a, env) && t'.order == t.order
    ensures Consistent(t')
  {
    forall r: LinkRow | r in t'.links ensures r.dest in t'.rows && r.link.source in t'.rows {
      if r.dest != a.name {
        assert SameLinksTo(t'.links, t.links, r.dest);
        assert t'.links[LinkRow(r.link, r.dest)] == t.links[LinkRow(r.link, r.dest)];
        assert r in t.links;
      } else if CanSave(t.rows.Keys, a, env) {
        assert t'.links[LinkRow(r.link, a.name)] == multiset(a.linked)[r.link];
        assert r.link in multiset(a.linked);
      } else {
        assert t'.links[LinkRow(r.link, a.name)] == t.links[LinkRow(r.link, a.name)];
        assert r in t.links;
      }
    }
    forall n | n in t'.rows ensures t'.rows[n].parent == "" || t'.rows[n].parent in t'.rows {
      if n != a.name { assert t'.rows[n] == t.rows[n]; }
    }
  }

  lemma NothingElsewhere(a: multiset<LinkRow>, b: multiset<LinkRow>, dest: string)
    requires SameElsewhere(a, b, dest)
    ensures forall n | n != dest :: SameLinksTo(a, b, n)
  {
  }

  /** One turn of the second loop. */
  method UpdateInTurn(db: Db, a: Asset, env: Env)
    requires Consistent(db.Now())
    modifies db`rows, db`links
    ensures IsUpdate(old(db.Now()), db.Now(), a, env) && Consistent(db.Now())
  {
    ghost var t := db.Now();
    var ok := UpdateAsset(db, a, env);
    NothingElsewhere(db.links, t.links, a.name);
    assert IsUpdate(t, db.Now(), a, env);
    UpdateKeepsConsistent(t, db.Now(), a, env);
  }

  lemma KeptOneMore(t1: Tables, t: Tables, t': Tables, s: seq<Asset>, i: nat, env: Env)
    requires i < |s| && KeptOutside(t1, t, Names(s[..i])) && IsUpdate(t, t', s[i], env)
    ensures KeptOutside(t1, t', Names(s[..i + 1]))
  {
    NamesGrow(s, i);
    forall n | n !in Names(s[..i + 1]) ensures SameLinksTo(t'.links, t1.links, n) {
      assert SameLinksTo(t'.links, t.links, n) && SameLinksTo(t.links, t1.links, n);
    }
  }

  /** The second loop; a failed update is logged and leaves its asset alone. */
  method SaveAll(db: Db, cur: seq<Asset>, env: Env)
    requires Consistent(db.Now())
    modifies db`rows, db`links
    ensures KeptOutside(old(db.Now()), db.Now(), Names(cur))
    ensures DistinctNames(cur) ==> SavedSoFar(old(db.Now()), db.Now(), cur, |cur|, env)
    ensures Consistent(db.Now())
  {
    ghost var t1 := db.Now();
    assert Names(cur[..0]) == {};
    for i := 0 to |cur|
      invariant Consistent(db.Now()) && db.order == t1.order
      invariant KeptOutside(t1, db.Now(), Names(cur[..i]))
      invariant DistinctNames(cur) ==> SavedSoFar(t1, db.Now(), cur, i, env)
    {
      ghost var t := db.Now();
      UpdateInTurn(db, cur[i], env);
      KeptOneMore(t1, t, db.Now(), cur, i, env);
      if DistinctNames(cur) { SavedOneMore(t1, t, db.Now(), cur, i, env); }
    }
    assert cur[..|cur|] == cur;
  }

  /** What restoreAssets leaves behind when it runs to its end: the admitted assets
      are stored, and nothing outside the backup has changed. */
  ghost predicate RestoreFrame(t0: Tables, t: Tables, saved: seq<Asset>, env: Env) {
    && t.rows.Keys == t0.rows.Keys + AdmittedNames(saved, env)
    && (forall n | n in t0.rows && n !in Names(saved) :: t.rows[n] == t0.rows[n])
    && (forall n | n !in Names(saved) :: SameLinksTo(t.links, t0.links, n))
  }

  ghost predicate RestoreOutcome(t0: Tables, t: Tables, saved: seq<Asset>, env: Env) {
    RestoreFrame(t0, t, saved, env) && forall a | a in saved :: AssetOutcome(t0, t, a, env)
  }

  /** A new asset gets its row first and its links last; one that was in place is only updated. */
  ghost predicate AssetOutcome(t0: Tables, t: Tables, a: Asset, env: Env) {
    var mem := AfterCreate(a, t0.rows.Keys, env);
    if a.name !in t.rows then
      SameLinksTo(t.links, t0.links, a.name)
    else
      var row := if a.name in t0.rows then t0.rows[a.name] else CreatedRow(a, env);
      if CanSave(t.rows.Keys, mem, env) then
        t.rows[a.name] == SavedRow(row, mem, env) && AreLinksTo(t.links, a.name, multiset(a.linked))
      else
        t.rows[a.name] == row && SameLinksTo(t.links, t0.links, a.name)
  }

  // ---------- field by field ----------

  /** Whether update() works for a saved asset, once these names are stored. */
  ghost predicate IsUpdatable(a: Asset, names: set<string>, env: Env) {
    && a.name != "" && a.name != a.parent && a.name in names
    && (a.parent == "" || a.parent in names)
    && (forall l | l in a.linked :: l.source in names)
    && HasSavableName(a.ext, env.norm)
  }

  /** The attributes but the time stamps, and the stamps that differ from what was loaded. */
  ghost predicate HasSavedExt(stored: map<string, Attribute>, ext: map<string, Attribute>, a: Asset,
          stamps: set<string>, env: Env)
  {
    && (forall k | k !in stamps :: IsSavedEntry(stored, a.ext, env.norm, ext, k))
    && (forall k | k in stamps && env.now != "" && (k in a.ext ==> a.ext[k] != ExtMapElement(env.now, true, false)) ::
          k in ext && ext[k] == Attribute(env.now, true))
  }

  /** The row of a saved asset that could be updated, whether it is new or was stored before. */
  ghost predicate HasSavedFields(t0: Tables, row: Row, a: Asset, env: Env) {
    && row.parent == a.parent && row.priority == a.priority
    && row.tag == a.tag && row.secondaryId == a.secondaryId
    && row.status == (
         if a.status == Active && a.assetType == "device" && !env.activable(a.name) && env.tryActivate then Nonactive
         else a.status)
    && if a.name in t0.rows then
         && row.assetType == t0.rows[a.name].assetType && row.subtype == t0.rows[a.name].subtype
         && HasSavedExt(t0.rows[a.name].ext, row.ext, a, {"update_ts"}, env)
       else
         && row.assetType == a.assetType && row.subtype == a.subtype
         && HasSavedExt(map[], row.ext, a, {"create_ts", "update_ts"}, env)
  }

  /** The row of a new asset that could not be updated: an insert, and an activation that brings the tag along. */
  ghost predicate HasInsertedFields(row: Row, a: Asset, env: Env) {
    var active := a.status == Active && (a.assetType != "device" || (env.activable(a.name) && env.activates(a.name)));
    && row.parent == a.parent && row.priority == a.priority && row.secondaryId == a.secondaryId
    && row.assetType == a.assetType && row.subtype == a.subtype
    && row.status == (if active then Active else Nonactive)
    && row.tag == (if active then a.tag else "")
    && HasSavedExt(map[], row.ext, a, {"create_ts"}, env)
  }

  ghost predicate IsRestoredAs(t0: Tables, t: Tables, a: Asset, env: Env) {
    a.name in t.rows ==>
      if IsUpdatable(a, t.rows.Keys, env) then HasSavedFields(t0, t.rows[a.name], a, env)
      else if a.name in t0.rows then t.rows[a.name] == t0.rows[a.name]
      else HasInsertedFields(t.rows[a.name], a, env)
  }

  /** Only an active device that the license has no room for may be left out. */
  ghost predicate IsWelcome(a: Asset, env: Env) {
    a.status == Active && a.assetType == "device" && !env.activable(a.name) ==> env.tryActivate
  }

  ghost predicate IsRestoredFieldwise(t0: Tables, t: Tables, saved: seq<Asset>, env: Env) {
    && (forall n :: n in t.rows <==> n in t0.rows || exists a :: a in saved && a.name == n && IsWelcome(a, env))
    && forall a | a in saved :: IsRestoredAs(t0, t, a, env)
  }

  lemma UpdatableIs(a: Asset, before: set<string>, names: set<string>, env: Env)
    ensures IsUpdatable(a, names, env) <==> CanSave(names, AfterCreate(a, before, env), env)
  {
    var mem := AfterCreate(a, before, env);
    SavedEntryByEntry(map[], Touched(mem, env).ext, env.norm);
    assert "name"[0] == 'n' && EXT_CREATE_TS[0] == 'c' && EXT_UPDATE_TS[0] == 'u';
    assert HasSavableName(Touched(mem, env).ext, env.norm) <==> HasSavableName(a.ext, env.norm);
    assert SourcesIn(multiset(a.linked), names) <==> forall l | l in a.linked :: l.source in names;
  }

  /** A stamp is one more entry. */
  lemma StampedExt(stored: map<string, Attribute>, a: Asset, key: string, env: Env, ext: map<string, Attribute>)
    requires key != "name" && ext == SavedExt(stored, WithEntry(a.ext, key, env.now, true, false), env.norm)
    requires HasSavableName(a.ext, env.norm)
    ensures HasSavedExt(stored, ext, a, {key}, env)
  {
    var mem := WithEntry(a.ext, key, env.now, true, false);
    assert HasSavableName(mem, env.norm) <==> HasSavableName(a.ext, env.norm);
    SavedEntryByEntry(stored, mem, env.norm);
    forall k | k != key ensures IsSavedEntry(stored, a.ext, env.norm, ext, k) {
      assert IsSavedEntry(stored, mem, env.norm, ext, k);
    }
    assert IsSavedEntry(stored, mem, env.norm, ext, key);
  }

  lemma SavedAgain(stored: map<string, Attribute>, mem: ExtMap, mem': ExtMap, norm: string -> Option<string>,
          first: map<string, Attribute>, second: map<string, Attribute>, k: string)
    requires IsSavedEntry(stored, mem, norm, first, k) && IsSavedEntry(first, mem', norm, second, k)
    requires if k in mem then k in mem' && mem'[k] == mem[k] else k !in mem'
    ensures IsSavedEntry(stored, mem, norm, second, k)
  {
  }

  /** The two saves of a new asset leave what one save with both stamps would. */
  lemma StampedTwice(a: Asset, env: Env, first: map<string, Attribute>, ext: map<string, Attribute>)
    requires HasSavedExt(map[], first, a, {"create_ts"}, env)
    requires HasSavedExt(first, ext, Created(a, env), {"update_ts"}, env)
    ensures HasSavedExt(map[], ext, a, {"create_ts", "update_ts"}, env)
  {
    assert "create_ts"[0] == 'c' && "update_ts"[0] == 'u';
    var mem := Created(a, env).ext;
    forall k | k !in {"create_ts", "update_ts"} ensures IsSavedEntry(map[], a.ext, env.norm, ext, k) {
      SavedAgain(map[], a.ext, mem, env.norm, first, ext, k);
    }
    StampStays(a, env, first, ext);
  }

  lemma StampStays(a: Asset, env: Env, first: map<string, Attribute>, ext: map<string, Attribute>)
    requires IsSavedEntry(first, Created(a, env).ext, env.norm, ext, "create_ts")
    ensures env.now != "" && ("create_ts" in a.ext ==> a.ext["create_ts"] != ExtMapElement(env.now, true, false)) ==>
      "create_ts" in ext && ext["create_ts"] == Attribute(env.now, true)
  {
  }

  lemma UpdatedFields(t0: Tables, a: Asset, env: Env)
    requires HasSavableName(a.ext, env.norm)
    ensures var mem := AfterCreate(a, t0.rows.Keys, env);
      && (a.name in t0.rows ==> HasSavedFields(t0, SavedRow(t0.rows[a.name], mem, env), a, env))
      && (a.name !in t0.rows && Admitted(a, env) ==> HasSavedFields(t0, SavedRow(CreatedRow(a, env), mem, env), a, env))
  {
    var mem := AfterCreate(a, t0.rows.Keys, env);
    if a.name in t0.rows {
      var stored := t0.rows[a.name].ext;
      StampedExt(stored, a, EXT_UPDATE_TS, env, SavedExt(stored, Touched(mem, env).ext, env.norm));
    } else if Admitted(a, env) {
      var first := CreatedRow(a, env).ext;
      var second := SavedRow(CreatedRow(a, env), mem, env).ext;
      StampedExt(map[], a, EXT_CREATE_TS, env, first);
      StampedExt(first, Created(a, env), EXT_UPDATE_TS, env, second);
      StampedTwice(a, env, first, second);
    }
  }

  lemma InsertedFields(a: Asset, env: Env)
    requires HasSavableName(a.ext, env.norm)
    ensures HasInsertedFields(CreatedRow(a, env), a, env)
  {
    StampedExt(map[], a, EXT_CREATE_TS, env, CreatedRow(a, env).ext);
  }

  lemma RowOf(t0: Tables, t1: Tables, s: seq<Asset>, env: Env, i: nat)
    requires i < |s| && CreatedSoFar(t0, t1, s, |s|, env) && DistinctNames(s) && s[i].name in t1.rows
    ensures t1.rows[s[i].name] == if s[i].name in t0.rows then t0.rows[s[i].name] else CreatedRow(s[i], env)
  {
    assert s[..|s|] == s;
    var n := s[i].name;
    if n !in t0.rows {
      var a :| a in s && a.name == n && Admitted(a, env) && t1.rows[n] == CreatedRow(a, env);
      var k :| 0 <= k < |s| && s[k] == a;
      assert k == i;
    }
  }

  lemma OutcomeOf(t0: Tables, t1: Tables, t: Tables, s: seq<Asset>, cur: seq<Asset>, env: Env, i: nat)
    requires i < |s| && InMemory(t0, s, cur, |s|, env)
    requires CreatedSoFar(t0, t1, s, |s|, env) && SavedSoFar(t1, t, cur, |cur|, env)
    requires DistinctNames(s)
    ensures AssetOutcome(t0, t, s[i], env)
  {
    if s[i].name in t1.rows { RowOf(t0, t1, s, env, i); }
    assert SavedOrKept(t1, t, cur[i], env);
    assert cur[i] == AfterCreate(s[i], t0.rows.Keys, env);
    if !CanSave(t1.rows.Keys, cur[i], env) {
      assert SameLinksTo(t.links, t1.links, s[i].name);
    }
  }

  lemma OutcomeIsFieldwise(t0: Tables, t: Tables, a: Asset, env: Env)
    requires AssetOutcome(t0, t, a, env)
    requires a.name in t.rows && a.name !in t0.rows ==> Admitted(a, env) && HasSavableName(a.ext, env.norm)
    ensures IsRestoredAs(t0, t, a, env)
  {
    UpdatableIs(a, t0.rows.Keys, t.rows.Keys, env);
    if HasSavableName(a.ext, env.norm) {
      UpdatedFields(t0, a, env);
      InsertedFields(a, env);
    }
  }

  /** What was inserted could be saved. */
  lemma InsertedIsSavable(t0: Tables, t: Tables, types: set<string>, subtypes: set<string>, saved: seq<Asset>, env: Env,
          a: Asset)
    requires DistinctNames(saved) && a in saved && a.name in t.rows && a.name !in t0.rows
    requires Completes(t0, types, subtypes, saved, env) && t.rows.Keys == t0.rows.Keys + AdmittedNames(saved, env)
    ensures Admitted(a, env) && HasSavableName(a.ext, env.norm)
  {
    var b :| b in saved && Admitted(b, env) && b.name == a.name;
    var i :| 0 <= i < |saved| && saved[i] == a;
    var j :| 0 <= j < |saved| && saved[j] == b;
    assert i == j;
    StampIsNoName(a, env);
  }

  lemma StampIsNoName(a: Asset, env: Env)
    requires Normable(Created(a, env).ext, env.norm)
    ensures HasSavableName(a.ext, env.norm)
  {
    assert "name"[0] == 'n' && EXT_CREATE_TS[0] == 'c';
    SavedEntryByEntry(map[], Created(a, env).ext, env.norm);
  }

  lemma RestoredFieldwise(t0: Tables, t: Tables, types: set<string>, subtypes: set<string>, saved: seq<Asset>, env: Env)
    requires DistinctNames(saved) && Completes(t0, types, subtypes, saved, env) && RestoreOutcome(t0, t, saved, env)
    ensures IsRestoredFieldwise(t0, t, saved, env)
  {
    forall a | a in saved ensures IsRestoredAs(t0, t, a, env) {
      if a.name in t.rows && a.name !in t0.rows {
        InsertedIsSavable(t0, t, types, subtypes, saved, env, a);
      }
      OutcomeIsFieldwise(t0, t, a, env);
    }
  }

  lemma SameElements(s: seq<Asset>, saved: seq<Asset>, env: Env)
    requires multiset(s) == multiset(saved)
    ensures AdmittedNames(s, env) == AdmittedNames(saved, env) && Names(s) == Names(saved)
    ensures forall a :: a in s <==> a in saved
  {
    forall a ensures a in s <==> a in saved {
      assert a in s <==> a in multiset(s);
      assert a in saved <==> a in multiset(saved);
    }
  }

  /** A list in another order has distinct names still. */
  lemma {:induction false} DistinctIsOrderless(s: seq<Asset>, saved: seq<Asset>)
    requires multiset(s) == multiset(saved) && DistinctNames(saved)
    ensures DistinctNames(s)
  {
    forall i, j | 0 <= i < j < |s| ensures s[i].name != s[j].name {
      if s[i].name == s[j].name {
        assert s[i] in multiset(saved) && s[j] in multiset(saved);
        var k :| 0 <= k < |saved| && saved[k] == s[i];
        var l :| 0 <= l < |saved| && saved[l] == s[j];
        assert k == l;
        TwoPlacesMeanTwice(s, i, j);
        OnceInList(saved, k);
      }
    }
  }

  lemma OnceInList(s: seq<Asset>, k: nat)
    requires k < |s| && DistinctNames(s)
    ensures multiset(s)[s[k]] == 1
  {
    assert s == s[..k] + [s[k]] + s[k + 1..];
    assert s[k] !in s[..k] && s[k] !in s[k + 1..];
  }

  /** restoreAssets: it runs to its end exactly when every new asset's parent is
      stored or comes along, whatever the order of the backup.  Of two assets with
      the same name only the first in the sorted order is inserted, and which that
      is the sort leaves open. */
  method RestoreAssets(db: Db, version: real, activeVersion: real, saved: seq<Asset>, env: Env)
    returns (r: RestoreResult)
    requires Acyclic(saved) && Consistent(db.Now())
    modifies db`order, db`rows, db`links
    ensures r.Unsupported? <==> version > activeVersion
    ensures r.Unsupported? ==> db.Now() == old(db.Now())
    ensures version <= activeVersion && Completes(old(db.Now()), db.types, db.subtypes, saved, env) ==> r.Done?
    ensures r.Done? ==> RestoreFrame(old(db.Now()), db.Now(), saved, env)
    ensures r.Done? && DistinctNames(saved) ==>
      && Completes(old(db.Now()), db.types, db.subtypes, saved, env)
      && RestoreOutcome(old(db.Now()), db.Now(), saved, env)
      && IsRestoredFieldwise(old(db.Now()), db.Now(), saved, env)
    ensures r.Aborted? ==> OnlyAdds(old(db.Now()), db.Now(), saved, env)
    ensures Consistent(db.Now())
  {
    if version > activeVersion {
      return Unsupported;
    }
    ghost var t0 := db.Now();
    var s := BuildRestoreTree(saved);
    CompletesIsOrderless(t0, db.types, db.subtypes, s, saved, env);
    var escaped, cur := CreateAll(db, s, env);
    if escaped {
      AddingIsOrderless(t0, db.Now(), s, saved, env);
      return Aborted;
    }
    ghost var t1 := db.Now();
    SaveAll(db, cur, env);
    FrameOfAll(t0, t1, db.Now(), saved, s, cur, env);
    if DistinctNames(saved) {
      DistinctIsOrderless(s, saved);
      DistinctInMemory(t0, s, cur, env);
      OutcomeOfAll(t0, t1, db.Now(), saved, s, cur, env);
      RestoredFieldwise(t0, db.Now(), db.types, db.subtypes, saved, env);
    }
    r := Done;
  }

  /** A backup of one asset whose parent is neither stored nor saved does not complete. */
  lemma OrphanDoesNotComplete(t: Tables, types: set<string>, subtypes: set<string>, a: Asset, env: Env)
    requires a.name !in t.rows && a.parent != "" && a.parent != a.name && a.parent !in t.rows
    requires a.status != Active || env.tryActivate
    ensures DistinctNames([a]) && Acyclic([a]) && !Completes(t, types, subtypes, [a], env)
  {
    assert IsTreeRank([a], map[a.name := 1, a.parent := 0]);
    assert a in [a];
    assert AdmittedNames([a], env) == {a.name};
    assert !Restorable(t, types, subtypes, t.rows.Keys + AdmittedNames([a], env), a, env);
  }

  lemma CompletesIsOrderless(t: Tables, types: set<string>, subtypes: set<string>, s: seq<Asset>, saved: seq<Asset>,
          env: Env)
    requires multiset(s) == multiset(saved)
    ensures Completes(t, types, subtypes, s, env) <==> Completes(t, types, subtypes, saved, env)
  {
    SameElements(s, saved, env);
  }

  lemma FrameOfAll(t0: Tables, t1: Tables, t: Tables, saved: seq<Asset>, s: seq<Asset>, cur: seq<Asset>, env: Env)
    requires multiset(s) == multiset(saved) && HasNames(s, cur, |s|)
    requires CreatedSoFar(t0, t1, s, |s|, env) && KeptOutside(t1, t, Names(cur))
    ensures RestoreFrame(t0, t, saved, env)
  {
    SameElements(s, saved, env);
    SameNames(s, cur);
    assert s[..|s|] == s;
    forall n | n in t0.rows && n !in Names(saved) ensures t.rows[n] == t0.rows[n] {
      assert n in t1.rows;
    }
    forall n | n !in Names(saved) ensures SameLinksTo(t.links, t0.links, n) {
      assert SameLinksTo(t.links, t1.links, n);
    }
  }

  lemma OutcomeOfAll(t0: Tables, t1: Tables, t: Tables, saved: seq<Asset>, s: seq<Asset>, cur: seq<Asset>, env: Env)
    requires multiset(s) == multiset(saved) && DistinctNames(s) && RestoreFrame(t0, t, saved, env)
    requires InMemory(t0, s, cur, |s|, env) && CreatedSoFar(t0, t1, s, |s|, env)
    requires SavedSoFar(t1, t, cur, |cur|, env)
    ensures RestoreOutcome(t0, t, saved, env)
  {
    SameElements(s, saved, env);
    forall a | a in saved ensures AssetOutcome(t0, t, a, env) {
      var i :| 0 <= i < |s| && s[i] == a;
      OutcomeOf(t0, t1, t, s, cur, env, i);
    }
  }

  lemma DistinctInMemory(t0: Tables, s: seq<Asset>, cur: seq<Asset>, env: Env)
    requires InMemory(t0, s, cur, |s|, env) && DistinctNames(s)
    ensures DistinctNames(cur)
  {
    forall i | 0 <= i < |s| ensures cur[i].name == s[i].name {
    }
  }

  lemma SameNames(s: seq<Asset>, cur: seq<Asset>)
    requires HasNames(s, cur, |s|)
    ensures Names(cur) == Names(s)
  {
    forall n | n in Names(s) ensures n in Names(cur) {
      var a :| a in s && a.name == n;
      var i :| 0 <= i < |s| && s[i] == a;
      assert cur[i] in cur && cur[i].name == n;
    }
    forall n | n in Names(cur) ensures n in Names(s) {
      var a :| a in cur && a.name == n;
      var i :| 0 <= i < |cur| && cur[i] == a;
      assert s[i] in s && s[i].name == n;
    }
  }
}
