/** Deleting a list of assets, deleteList and remove of server/src/asset/asset.cc. */
module DeleteList {
  import opened AssetModel
  import opened Forest
  import opened Sequences
  import opened Storage
  import opened SubTree

  // ---------- the list to delete ----------

  ghost predicate IsListed(t: Tables, deleteVirtual: bool, n: string) {
    n in t.rows && (deleteVirtual || t.rows[n].assetType !in VIRTUAL_TYPES)
  }

  /** The requested assets that load and are not skipped. */
  ghost function Listed(t: Tables, deleteVirtual: bool, assets: seq<string>): (listed: seq<string>)
    ensures forall n | n in listed :: n in t.rows
  {
    if assets == [] then [] else
      var n := assets[|assets| - 1];
      Listed(t, deleteVirtual, assets[..|assets| - 1]) + if IsListed(t, deleteVirtual, n) then [n] else []
  }

  /** The list that is deleted: a requested asset is appended even when it is
      there already, an asset below it only when it is not. */
  ghost function ToDelete(t: Tables, recursive: bool, listed: seq<string>): seq<string>
    requires StoredForest(t) && forall n | n in listed :: n in t.rows
  {
    if listed == [] then [] else
      var n := listed[|listed| - 1];
      var acc := ToDelete(t, recursive, listed[..|listed| - 1]) + [n];
      if recursive then AddMissing(acc, Preorder(t, n, 0)) else acc
  }

  lemma {:induction false} ListedAre(t: Tables, deleteVirtual: bool, assets: seq<string>)
    ensures forall n :: n in Listed(t, deleteVirtual, assets) <==> n in assets && IsListed(t, deleteVirtual, n)
    ensures NoDuplicates(assets) ==> NoDuplicates(Listed(t, deleteVirtual, assets))
  {
    if assets != [] {
      var front, last := assets[..|assets| - 1], assets[|assets| - 1];
      ListedAre(t, deleteVirtual, front);
      assert assets == front + [last];
      if NoDuplicates(assets) { assert last !in front; }
    }
  }

  lemma ToDeleteOneMore(t: Tables, recursive: bool, deleteVirtual: bool, assets: seq<string>, i: nat)
    requires StoredForest(t) && i < |assets|
    ensures var n, acc := assets[i], ToDelete(t, recursive, Listed(t, deleteVirtual, assets[..i]));
      ToDelete(t, recursive, Listed(t, deleteVirtual, assets[..i + 1])) ==
        if !IsListed(t, deleteVirtual, n) then acc
        else if recursive then AddMissing(acc + [n], Preorder(t, n, 0))
        else acc + [n]
  {
    assert assets[..i + 1][..i] == assets[..i];
    var before := Listed(t, deleteVirtual, assets[..i]);
    if IsListed(t, deleteVirtual, assets[i]) {
      assert (before + [assets[i]])[..|before|] == before;
    } else {
      assert before + [] == before;
    }
  }

  /** What isVirtual decides for a requested asset. */
  method IsToDelete(db: Db, n: string, deleteVirtual: bool) returns (b: bool)
    ensures b <==> IsListed(db.Now(), deleteVirtual, n)
  {
    b := n in db.rows && (deleteVirtual || !IsVirtual(db.rows[n].assetType));
  }

  /** Whatever is asked for, no asset but a virtual one is skipped, and without deleteVirtual no virtual one is taken
      for its own sake. */
  lemma OnlyVirtualIsSkipped(t: Tables, recursive: bool, deleteVirtual: bool, assets: seq<string>, n: string)
    requires StoredForest(t) && n in t.rows
    ensures n in assets && (deleteVirtual || t.rows[n].assetType in PHYSICAL_TYPES) ==>
      n in ToDelete(t, recursive, Listed(t, deleteVirtual, assets))
    ensures !recursive && !deleteVirtual && t.rows[n].assetType in VIRTUAL_TYPES ==>
      n !in ToDelete(t, recursive, Listed(t, deleteVirtual, assets))
  {
    TypesAreApart(t.rows[n].assetType);
    ListedAre(t, deleteVirtual, assets);
    ToDeleteIs(t, recursive, Listed(t, deleteVirtual, assets));
  }

  method CollectToDelete(db: Db, assets: seq<string>, recursive: bool, deleteVirtual: bool) returns (toDel: seq<string>)
    requires StoredForest(db.Now())
    ensures toDel == ToDelete(db.Now(), recursive, Listed(db.Now(), deleteVirtual, assets))
  {
    toDel := [];
    ghost var t := db.Now();
    for i := 0 to |assets|
      invariant toDel == ToDelete(t, recursive, Listed(t, deleteVirtual, assets[..i]))
    {
      var n := assets[i];
      ToDeleteOneMore(t, recursive, deleteVirtual, assets, i);
      var listed := IsToDelete(db, n, deleteVirtual);
      if listed {
        toDel := toDel + [n];
        if recursive {
          toDel := AddSubTree(db, n, toDel);
        }
      }
    }
    assert assets[..|assets|] == assets;
  }

  /** One of the listed assets, or below one when the deletion is recursive. */
  ghost predicate IsCovered(t: Tables, recursive: bool, listed: seq<string>, y: string)
    requires StoredForest(t)
  {
    y in listed || (recursive && y in t.rows && exists n :: n in listed && Above(ParentsOf(t), n, y))
  }

  /** The list names an asset twice exactly when a requested asset repeats, or comes
      after one of its ancestors in a recursive deletion. */
  ghost predicate AreSeparate(t: Tables, recursive: bool, listed: seq<string>)
    requires StoredForest(t) && forall n | n in listed :: n in t.rows
  {
    forall i, j | 0 <= i < j < |listed| ::
      listed[i] != listed[j] && !(recursive && Above(ParentsOf(t), listed[i], listed[j]))
  }

  lemma {:induction false} ToDeleteIs(t: Tables, recursive: bool, listed: seq<string>)
    requires StoredForest(t) && forall n | n in listed :: n in t.rows
    ensures forall y :: y in ToDelete(t, recursive, listed) <==> IsCovered(t, recursive, listed, y)
    ensures NoDuplicates(ToDelete(t, recursive, listed)) <==> AreSeparate(t, recursive, listed)
  {
    if listed != [] {
      var front, n := listed[..|listed| - 1], listed[|listed| - 1];
      ToDeleteIs(t, recursive, front);
      assert listed == front + [n];
      var acc := ToDelete(t, recursive, front);
      if recursive {
        DescendantsOnce(t, n);
        AddMissingIs(acc + [n], Preorder(t, n, 0));
      }
      AppendedOnce(acc, n);
      SeparateGrows(t, recursive, front, n);
    }
  }

  lemma AppendedOnce(acc: seq<string>, n: string)
    ensures NoDuplicates(acc + [n]) <==> NoDuplicates(acc) && n !in acc
  {
    var s := acc + [n];
    if NoDuplicates(s) {
      forall i, j | 0 <= i < j < |acc| ensures acc[i] != acc[j] { assert s[i] != s[j]; }
      forall i | 0 <= i < |acc| ensures acc[i] != n { assert s[i] != s[|acc|]; }
    }
  }

  lemma SeparateGrows(t: Tables, recursive: bool, front: seq<string>, n: string)
    requires StoredForest(t) && n in t.rows && forall m | m in front :: m in t.rows
    ensures AreSeparate(t, recursive, front + [n])
      <==> AreSeparate(t, recursive, front) && !IsCovered(t, recursive, front, n)
  {
    var s := front + [n];
    forall m | m in s ensures m in t.rows {
    }
    if AreSeparate(t, recursive, s) {
      forall i, j | 0 <= i < j < |front|
        ensures front[i] != front[j] && !(recursive && Above(ParentsOf(t), front[i], front[j]))
      {
        assert s[i] == front[i] && s[j] == front[j];
      }
      forall i | 0 <= i < |front| ensures front[i] != n && !(recursive && Above(ParentsOf(t), front[i], n)) {
        assert s[i] == front[i] && s[|front|] == n;
      }
    }
  }

  // ---------- the order ----------

  /** isAnyParent: compare the distances from the last common ancestor, or from the
      two roots when there is none.  Either way the deeper asset comes first. */
  method IsAnyParent(db: Db, l: string, r: string) returns (b: bool)
    requires StoredForest(db.Now()) && l in db.rows && r in db.rows
    ensures b <==> Depth(ParentsOf(db.Now()))[l] > Depth(ParentsOf(db.Now()))[r]
  {
    ghost var d := Depth(ParentsOf(db.Now()));
    var lTree: seq<(string, int)> := [];
    var ptr, distL := l, 0;
    while db.rows[ptr].parent != ""
      invariant ptr in db.rows && distL + d[ptr] == d[l] && distL == |lTree|
      invariant forall i | 0 <= i < |lTree| :: lTree[i].0 in db.rows && lTree[i].1 == i == d[l] - d[lTree[i].0]
      decreases d[ptr]
    {
      assert ParentsOf(db.Now())[ptr] in ParentsOf(db.Now());
      lTree := lTree + [(ptr, distL)];
      ptr := db.rows[ptr].parent;
      distL := distL + 1;
    }
    assert ParentsOf(db.Now())[ptr] !in ParentsOf(db.Now());
    var distR := 0;
    ptr := r;
    while db.rows[ptr].parent != ""
      invariant ptr in db.rows && distR + d[ptr] == d[r]
      decreases d[ptr]
    {
      assert ParentsOf(db.Now())[ptr] in ParentsOf(db.Now());
      var found := 0;
      while found < |lTree| && lTree[found].0 != ptr
        invariant 0 <= found <= |lTree|
      {
        found := found + 1;
      }
      if found < |lTree| {
        distL := lTree[found].1;
        break;
      }
      ptr := db.rows[ptr].parent;
      distR := distR + 1;
    }
    b := distL > distR;
  }

  ghost predicate DeepestFirst(t: Tables, s: seq<string>)
    requires StoredForest(t) && forall n | n in s :: n in t.rows
  {
    forall i, j | 0 <= i < j < |s| :: Depth(ParentsOf(t))[s[i]] >= Depth(ParentsOf(t))[s[j]]
  }

  ghost predicate AreDeeper(d: map<string, nat>, s: seq<string>, at: nat, n: string) {
    at <= |s| && n in d && forall j | 0 <= j < at :: s[j] in d && d[s[j]] >= d[n]
  }

  method InsertByDepth(db: Db, s: seq<string>, n: string) returns (r: seq<string>)
    requires StoredForest(db.Now()) && n in db.rows && forall m | m in s :: m in db.rows
    requires DeepestFirst(db.Now(), s)
    ensures multiset(r) == multiset(s) + multiset{n}
    ensures forall m | m in r :: m in db.rows
    ensures DeepestFirst(db.Now(), r)
  {
    ghost var d := Depth(ParentsOf(db.Now()));
    var at, before := 0, false;
    while at < |s| && !before
      invariant 0 <= at <= |s| && AreDeeper(d, s, at, n)
      invariant before ==> at < |s| && d[n] > d[s[at]]
      decreases |s| - at, if before then 0 else 1
    {
      before := IsAnyParent(db, n, s[at]);
      if !before {
        at := at + 1;
      }
    }
    Inserted(db.Now(), d, s, n, at);
    r := s[..at] + [n] + s[at..];
  }

  lemma Inserted(t: Tables, d: map<string, nat>, s: seq<string>, n: string, at: nat)
    requires StoredForest(t) && n in t.rows && forall m | m in s :: m in t.rows
    requires DeepestFirst(t, s) && d == Depth(ParentsOf(t)) && AreDeeper(d, s, at, n)
    requires at < |s| ==> d[n] > d[s[at]]
    ensures multiset(s[..at] + [n] + s[at..]) == multiset(s) + multiset{n}
    ensures forall m | m in s[..at] + [n] + s[at..] :: m in t.rows
    ensures DeepestFirst(t, s[..at] + [n] + s[at..])
  {
    var r := s[..at] + [n] + s[at..];
    InsertedElements(s, n, at);
    forall m | m in r ensures m in t.rows {
      assert m in multiset(r);
    }
    InsertedOrder(d, s, n, at);
  }

  lemma InsertedElements(s: seq<string>, n: string, at: nat)
    requires at <= |s|
    ensures multiset(s[..at] + [n] + s[at..]) == multiset(s) + multiset{n}
  {
    assert s == s[..at] + s[at..];
  }

  lemma InsertedOrder(d: map<string, nat>, s: seq<string>, n: string, at: nat)
    requires n in d && at <= |s| && forall j | 0 <= j < |s| :: s[j] in d
    requires forall i, j | 0 <= i < j < |s| :: d[s[i]] >= d[s[j]]
    requires forall j | 0 <= j < at :: d[s[j]] >= d[n]
    requires at < |s| ==> d[n] > d[s[at]]
    ensures var r := s[..at] + [n] + s[at..];
      forall i, j | 0 <= i < j < |r| :: r[i] in d && r[j] in d && d[r[i]] >= d[r[j]]
  {
    var r := s[..at] + [n] + s[at..];
    forall j | at <= j < |s| ensures d[n] >= d[s[j]] {
      if at < j { assert d[s[at]] >= d[s[j]]; }
    }
    forall i, j | 0 <= i < j < |r| ensures r[i] in d && r[j] in d && d[r[i]] >= d[r[j]] {
      assert r[i] == if i < at then s[i] else if i == at then n else s[i - 1];
      assert r[j] == if j < at then s[j] else if j == at then n else s[j - 1];
    }
  }

  /** What any sort with isAnyParent achieves. */
  method SortByDepth(db: Db, v: seq<string>) returns (s: seq<string>)
    requires StoredForest(db.Now()) && forall n | n in v :: n in db.rows
    ensures multiset(s) == multiset(v)
    ensures forall n | n in s :: n in db.rows
    ensures DeepestFirst(db.Now(), s)
  {
    s := [];
    for i := 0 to |v|
      invariant multiset(s) == multiset(v[..i])
      invariant forall n | n in s :: n in db.rows
      invariant DeepestFirst(db.Now(), s)
    {
      assert v[..i + 1] == v[..i] + [v[i]];
      s := InsertByDepth(db, s, v[i]);
    }
    assert v[..|v|] == v;
  }

  // ---------- removing one asset ----------

  predicate IsContainer(assetType: string) {
    assetType in {TYPE_DATACENTER, "row", "room", "rack"}
  }

  /** What the caller and the group table decide, and the answers to the requests
      that deactivate or activate a device. */
  datatype Options = Options(removeLastDC: bool, groupsCanBeCleared: bool, answers: string -> bool)

  ghost predicate HasLinkTo(links: multiset<LinkRow>, name: string) {
    exists r :: r in links && r.dest == name
  }

  ghost predicate CanRemove(t: Tables, name: string, o: Options) {
    && name in t.rows
    && var ty := t.rows[name].assetType;
    && name != RC0
    && !HasLinkFrom(t.links, name)
    && (forall n | n in t.rows :: t.rows[n].parent != name)
    && (IsContainer(ty) && !o.removeLastDC ==> !IsLast(t, name))
    && (ty == TYPE_GROUP ==> o.groupsCanBeCleared)
    && (ty != TYPE_DEVICE ==> !HasLinkTo(t.links, name))
  }

  ghost predicate LinksKeptExceptTo(a: multiset<LinkRow>, b: multiset<LinkRow>, gone: set<string>) {
    forall r: LinkRow :: a[r] == if r.dest in gone then 0 else b[r]
  }

  /** unlinkAll. */
  method UnlinkAll(db: Db, name: string)
    modifies db`links
    ensures LinksKeptExceptTo(db.links, old(db.links), {name})
  {
    var linked := db.SelectLinksTo(name);
    db.RemoveLinks(name, linked, multiset(linked));
    forall r: LinkRow ensures db.links[r] == if r.dest in {name} then 0 else old(db.links)[r] {
      if r.dest == name {
        assert r == LinkRow(r.link, name);
      }
    }
  }

  /** The source of a link or the parent of an asset. */
  ghost predicate IsHeld(t: Tables, name: string) {
    HasLinkFrom(t.links, name) || exists n :: n in t.rows && t.rows[n].parent == name
  }

  method CheckHeld(db: Db, name: string) returns (held: bool)
    requires Consistent(db.Now())
    ensures held <==> IsHeld(db.Now(), name)
  {
    held := db.HasLinkedAssets(name);
    if !held {
      var children := db.GetChildren(name);
      ChildrenAre(db.Now(), db.order, name);
      held := children != [];
      if held {
        assert children[0] in children;
      }
    }
  }

  function WithStatus(rows: map<string, Row>, name: string, status: AssetStatus): map<string, Row>
    requires name in rows
  {
    rows[name := rows[name].(status := status)]
  }

  /** A device follows the answer to the request, any other asset turns at once. */
  predicate Turns(row: Row, name: string, o: Options) {
    row.assetType != TYPE_DEVICE || o.answers(name)
  }

  /** The statement of activate() and deactivate(). */
  method WriteStatus(db: Db, name: string, status: AssetStatus)
    requires Consistent(db.Now()) && name in db.rows && !IsHeld(db.Now(), name)
    modifies db`rows
    ensures db.rows == WithStatus(old(db.rows), name, status)
  {
    var row := db.rows[name];
    assert row.parent != name;
    var a := Asset(name, status, row.assetType, row.subtype, row.priority, row.parent, row.tag, row.secondaryId,
                   [], map[]);
    var ok := db.UpdateRow(a);
  }

  /** The first step of remove(), before its transaction; status is the one in memory. */
  method Deactivate(db: Db, name: string, o: Options) returns (status: AssetStatus)
    requires Consistent(db.Now()) && name in db.rows && !IsHeld(db.Now(), name)
    modifies db`rows
    ensures var row := old(db.rows)[name];
      && status == (if row.status == Active && (row.assetType != "device" || o.answers(name)) then Nonactive
                    else row.status)
      && db.rows == old(db.rows)[name := row.(status := status)]
  {
    status := db.rows[name].status;
    if status == Active && Turns(db.rows[name], name, o) {
      status := Nonactive;
      WriteStatus(db, name, status);
    } else {
      assert WithStatus(db.rows, name, status) == db.rows;
    }
  }

  /** The last step of a failed remove(): only what is still active in memory is activated again. */
  method Reactivate(db: Db, name: string, status: AssetStatus, o: Options)
    requires Consistent(db.Now()) && name in db.rows && !IsHeld(db.Now(), name) && db.rows[name].status == status
    modifies db`rows
    ensures db.rows == old(db.rows)
  {
    if status == Active && Turns(db.rows[name], name, o) {
      WriteStatus(db, name, Active);
      assert db.rows == old(db.rows);
    }
  }

  /** The statements of the transaction, by type of asset. */
  method RemoveRows(db: Db, name: string, o: Options) returns (ok: bool)
    requires Consistent(db.Now()) && name in db.rows && name != RC0 && !IsHeld(db.Now(), name)
    modifies db`order, db`rows, db`links
    ensures ok <==> CanRemove(old(db.Now()), name, o)
    ensures ok ==> db.rows == old(db.rows) - {name} && db.order == Without(old(db.order), name)
    ensures ok ==> LinksKeptExceptTo(db.links, old(db.links), {name})
  {
    var ty := db.rows[name].assetType;
    if IsContainer(ty) {
      var last := db.IsLastDataCenter(name);
      if !o.removeLastDC && last {
        return false;
      }
    } else if ty == TYPE_GROUP {
      if !o.groupsCanBeCleared {
        return false;
      }
    } else if ty == TYPE_DEVICE {
      UnlinkAll(db, name);
    }
    FreeUnlessLinked(old(db.Now()), db.Now(), name);
    ok := db.RemoveAsset(name);
  }

  lemma FreeUnlessLinked(t0: Tables, t: Tables, name: string)
    requires name in t0.rows && !IsHeld(t0, name) && t.rows == t0.rows
    requires t.links == t0.links || LinksKeptExceptTo(t.links, t0.links, {name})
    ensures IsFree(t, name) <==> !HasLinkTo(t.links, name)
    ensures LinksKeptExceptTo(t.links, t0.links, {name}) ==> !HasLinkTo(t.links, name)
    ensures !HasLinkTo(t0.links, name) ==> LinksKeptExceptTo(t0.links, t0.links, {name})
  {
    forall r | r in t.links ensures r.link.source != name {
      assert t.links[r] > 0 && r in t0.links;
    }
    if !HasLinkTo(t0.links, name) {
      forall r: LinkRow | r.dest == name ensures t0.links[r] == 0 {
        assert r !in t0.links;
      }
    }
  }

  /** The transaction, rolled back when it fails. */
  method RemoveOrRollBack(db: Db, name: string, o: Options) returns (ok: bool)
    requires Consistent(db.Now()) && name in db.rows && name != RC0 && !IsHeld(db.Now(), name)
    modifies db`order, db`rows, db`links
    ensures ok <==> CanRemove(old(db.Now()), name, o)
    ensures ok ==> db.rows == old(db.rows) - {name} && db.order == Without(old(db.order), name)
    ensures ok ==> LinksKeptExceptTo(db.links, old(db.links), {name})
    ensures !ok ==> db.Now() == old(db.Now())
  {
    var order, rows, links := db.order, db.rows, db.links;
    ok := RemoveRows(db, name, o);
    if !ok {
      db.order, db.rows, db.links := order, rows, links;
    }
  }

  /** Active and not a device, and nothing stops remove() before it deactivates the asset. */
  ghost predicate LosesStatus(t: Tables, name: string)
    requires name in t.rows
  {
    name != RC0 && !IsHeld(t, name) && t.rows[name].status == Active && t.rows[name].assetType != TYPE_DEVICE
  }

  /** What a failed remove() leaves. */
  ghost function AfterRefusal(t: Tables, name: string): map<string, Row>
    requires name in t.rows
  {
    if LosesStatus(t, name) then WithStatus(t.rows, name, Nonactive) else t.rows
  }

  /** The rows differ at most in what decides nothing about a removal. */
  ghost predicate AreAlike(t: Tables, t': Tables) {
    && t'.order == t.order && t'.links == t.links && t'.rows.Keys == t.rows.Keys
    && forall n | n in t.rows ::
         t'.rows[n].parent == t.rows[n].parent && t'.rows[n].assetType == t.rows[n].assetType
  }

  lemma AlikeIsHeld(t: Tables, t': Tables, name: string)
    requires AreAlike(t, t') && IsHeld(t, name)
    ensures IsHeld(t', name)
  {
    if !HasLinkFrom(t.links, name) {
      var n :| n in t.rows && t.rows[n].parent == name;
      assert n in t'.rows && t'.rows[n].parent == name;
    }
  }

  lemma AlikeCanBeRemoved(t: Tables, t': Tables, name: string, o: Options)
    requires AreAlike(t, t') && CanRemove(t, name, o)
    ensures CanRemove(t', name, o)
  {
    forall n | n in t'.rows ensures t'.rows[n].parent != name {
      assert n in t.rows;
    }
    if !IsLast(t, name) {
      var n :| n in t.rows && n != name && t.rows[n].assetType == TYPE_DATACENTER;
      assert n in t'.rows && !IsLast(t', name);
    }
  }

  /** The status of an asset decides nothing about its removal. */
  lemma StatusDoesNotMatter(t: Tables, t': Tables, name: string, status: AssetStatus, o: Options)
    requires Consistent(t) && name in t.rows
    requires t'.rows == WithStatus(t.rows, name, status) && t'.order == t.order && t'.links == t.links
    ensures Consistent(t') && (IsHeld(t', name) <==> IsHeld(t, name))
    ensures CanRemove(t', name, o) <==> CanRemove(t, name, o)
    ensures t'.rows - {name} == t.rows - {name}
  {
    assert AreAlike(t, t') && AreAlike(t', t);
    if IsHeld(t, name) { AlikeIsHeld(t, t', name); }
    if IsHeld(t', name) { AlikeIsHeld(t', t, name); }
    if CanRemove(t, name, o) { AlikeCanBeRemoved(t, t', name, o); }
    if CanRemove(t', name, o) { AlikeCanBeRemoved(t', t, name, o); }
  }

  /** The transaction of a device does not fail. */
  lemma DevicesGo(t: Tables, name: string, o: Options)
    requires name in t.rows && name != RC0 && !IsHeld(t, name) && t.rows[name].assetType == TYPE_DEVICE
    ensures CanRemove(t, name, o)
  {
    assert |TYPE_DEVICE| == 6 && |TYPE_DATACENTER| == 10 && |TYPE_GROUP| == 5;
  }

  lemma RefusalIs(t: Tables, name: string, status: AssetStatus, o: Options)
    requires name in t.rows && name != RC0 && !IsHeld(t, name) && !CanRemove(t, name, o)
    requires status == if t.rows[name].status == Active && Turns(t.rows[name], name, o) then Nonactive
                       else t.rows[name].status
    ensures WithStatus(t.rows, name, status) == AfterRefusal(t, name)
  {
    if t.rows[name].assetType == TYPE_DEVICE {
      DevicesGo(t, name, o);
    }
  }

  /** remove().  A refused asset stays with its links, but it may have lost its status. */
  method Remove(db: Db, name: string, o: Options) returns (ok: bool)
    requires Consistent(db.Now()) && name in db.rows
    modifies db`order, db`rows, db`links
    ensures ok <==> CanRemove(old(db.Now()), name, o)
    ensures !ok ==> db.order == old(db.order) && db.links == old(db.links)
    ensures !ok ==> db.rows == AfterRefusal(old(db.Now()), name)
    ensures ok ==> db.rows == old(db.rows) - {name} && db.order == Without(old(db.order), name)
    ensures ok ==> LinksKeptExceptTo(db.links, old(db.links), {name})
  {
    if name == RC0 {
      return false;
    }
    var held := CheckHeld(db, name);
    if held {
      return false;
    }
    ghost var t := db.Now();
    var status := Deactivate(db, name, o);
    StatusDoesNotMatter(t, db.Now(), name, status, o);
    ok := RemoveOrRollBack(db, name, o);
    if !ok {
      RefusalIs(t, name, status, o);
      Reactivate(db, name, status, o);
    }
  }

  /** What removeLastDC changes: without it a container needs another data center beside it, even a rack. */
  lemma GuardHoldsContainers(t: Tables, name: string, o: Options)
    requires CanRemove(t, name, o.(removeLastDC := true))
    ensures CanRemove(t, name, o.(removeLastDC := false))
      <==> (t.rows[name].assetType in {"datacenter", "room", "row", "rack"} ==>
              exists n :: n in t.rows && n != name && t.rows[n].assetType == "datacenter")
  {
  }

  /** An active, childless data center that is the last one is refused, and is nonactive from then on. */
  lemma LastDataCenterIsDeactivated(name: string, row: Row, o: Options)
    requires name != "" && name != RC0 && !o.removeLastDC
    requires row.assetType == TYPE_DATACENTER && row.status == Active && row.parent == ""
    ensures var t := Tables([name], map[name := row], multiset{});
      && Consistent(t) && !CanRemove(t, name, o)
      && AfterRefusal(t, name) == map[name := row.(status := Nonactive)] != t.rows
  {
    var t := Tables([name], map[name := row], multiset{});
    assert IsContainer(row.assetType) && IsLast(t, name);
    assert |TYPE_DEVICE| == 6 && |TYPE_DATACENTER| == 10;
    assert AfterRefusal(t, name)[name] != t.rows[name];
  }

  lemma RemoveKeepsConsistent(t: Tables, t': Tables, name: string, o: Options)
    requires Consistent(t) && CanRemove(t, name, o)
    requires t'.rows == t.rows - {name} && t'.order == Without(t.order, name)
    requires LinksKeptExceptTo(t'.links, t.links, {name})
    ensures Consistent(t')
  {
    WithoutIs(t.order, name);
    forall r | r in t'.links ensures r.dest in t'.rows && r.link.source in t'.rows {
      assert t'.links[r] > 0 && r in t.links;
    }
  }

  /** The guard on data centers: one is left if there was one. */
  lemma RemoveKeepsDataCenter(t: Tables, name: string, o: Options)
    requires CanRemove(t, name, o) && !o.removeLastDC && HasDataCenter(t.rows)
    ensures HasDataCenter(t.rows - {name})
  {
    if t.rows[name].assetType == TYPE_DATACENTER {
      var n :| n in t.rows && n != name && t.rows[n].assetType == TYPE_DATACENTER;
      assert n in t.rows - {name};
    } else {
      var n :| n in t.rows && t.rows[n].assetType == TYPE_DATACENTER;
      assert n in t.rows - {name};
    }
  }

  ghost predicate HasDataCenter(rows: map<string, Row>) {
    exists n :: n in rows && rows[n].assetType == TYPE_DATACENTER
  }

  /** remove() with what it always keeps. */
  method RemoveOne(db: Db, name: string, o: Options) returns (ok: bool)
    requires Consistent(db.Now()) && name in db.rows
    modifies db`order, db`rows, db`links
    ensures ok <==> CanRemove(old(db.Now()), name, o)
    ensures db.rows == if ok then old(db.rows) - {name} else AfterRefusal(old(db.Now()), name)
    ensures if ok then LinksKeptExceptTo(db.links, old(db.links), {name}) else db.links == old(db.links)
    ensures Consistent(db.Now())
    ensures !o.removeLastDC && HasDataCenter(old(db.rows)) ==> HasDataCenter(db.rows)
  {
    ghost var t := db.Now();
    ok := Remove(db, name, o);
    if ok {
      RemoveKeepsConsistent(t, db.Now(), name, o);
      if !o.removeLastDC && HasDataCenter(t.rows) { RemoveKeepsDataCenter(t, name, o); }
    } else {
      RefusalKeeps(t, db.Now(), name, o);
    }
  }

  lemma RefusalKeeps(t: Tables, t': Tables, name: string, o: Options)
    requires Consistent(t) && name in t.rows && t'.order == t.order && t'.links == t.links
    requires t'.rows == AfterRefusal(t, name)
    ensures Consistent(t') && (HasDataCenter(t.rows) ==> HasDataCenter(t'.rows))
  {
    if LosesStatus(t, name) { StatusDoesNotMatter(t, t', name, Nonactive, o); }
    if HasDataCenter(t.rows) {
      var n :| n in t.rows && t.rows[n].assetType == TYPE_DATACENTER;
      assert t'.rows[n].assetType == TYPE_DATACENTER;
    }
  }

  // ---------- who survives ----------

  /** A run of deleteList: the names on its list, its options, and the assets the
      guard on the last data center keeps. */
  datatype Deletion = Deletion(listed: set<string>, o: Options, kept: set<string>)

  /** Not deletable for its own sake: not on the list, the rack controller, the
      source of a link into what is not on the list, a group that cannot be cleared,
      or kept by the guard. */
  ghost predicate IsStuck(t: Tables, q: Deletion, n: string) {
    && n in t.rows
    && (|| n !in q.listed
        || n == RC0
        || FeedsOutside(t.links, q.listed, n)
        || (t.rows[n].assetType == TYPE_GROUP && !q.o.groupsCanBeCleared)
        || n in q.kept)
  }

  ghost predicate FeedsOutside(links: multiset<LinkRow>, listed: set<string>, n: string) {
    exists r :: r in links && r.link.source == n && r.dest !in listed
  }

  /** Stuck, or an ancestor of what is stuck. */
  ghost predicate Survives(t: Tables, q: Deletion, n: string)
    requires StoredForest(t)
  {
    n in t.rows && (IsStuck(t, q, n) || exists m :: IsStuck(t, q, m) && Above(ParentsOf(t), n, m))
  }

  ghost predicate HasSurvivingChild(t: Tables, q: Deletion, n: string)
    requires StoredForest(t)
  {
    exists c :: c in t.rows && t.rows[c].parent == n && Survives(t, q, c)
  }

  lemma SurvivesIff(t: Tables, q: Deletion, n: string)
    requires StoredForest(t) && n in t.rows
    ensures Survives(t, q, n) <==> IsStuck(t, q, n) || HasSurvivingChild(t, q, n)
  {
    var p := ParentsOf(t);
    if Survives(t, q, n) && !IsStuck(t, q, n) {
      var m :| IsStuck(t, q, m) && Above(p, n, m);
      var c := ChildTowards(p, n, m);
      assert Survives(t, q, c);
    }
    if HasSurvivingChild(t, q, n) {
      var c :| c in t.rows && t.rows[c].parent == n && Survives(t, q, c);
      assert Above(p, n, c);
      if !IsStuck(t, q, c) {
        var m :| IsStuck(t, q, m) && Above(p, c, m);
        AboveIsTransitive(p, n, c, m);
      }
    }
  }

  /** A survivor that is refused only in the transaction, after it was deactivated. */
  ghost predicate IsDeactivated(t: Tables, q: Deletion, n: string)
    requires StoredForest(t)
  {
    && n in q.listed && Survives(t, q, n)
    && n != RC0 && !FeedsOutside(t.links, q.listed, n) && !HasSurvivingChild(t, q, n)
    && t.rows[n].status == Active && t.rows[n].assetType != TYPE_DEVICE
  }

  /** The row of a survivor once the assets in done have had their turn. */
  ghost function RowAfter(t: Tables, q: Deletion, done: set<string>, n: string): Row
    requires StoredForest(t) && n in t.rows
  {
    if n in done && IsDeactivated(t, q, n) then t.rows[n].(status := Nonactive) else t.rows[n]
  }

  /** The rows once the assets in done have had their turn: those that do not survive are gone. */
  ghost function RowsAfter(t: Tables, q: Deletion, done: set<string>): map<string, Row>
    requires StoredForest(t)
  {
    map n | n in t.rows && (n in done ==> Survives(t, q, n)) :: RowAfter(t, q, done, n)
  }

  ghost predicate AllStored(t: Tables, s: seq<string>) {
    forall i | 0 <= i < |s| :: s[i] in t.rows
  }

  /** The loop before its k-th turn. */
  ghost predicate IsTurn(t0: Tables, t: Tables, q: Deletion, s: seq<string>, k: nat)
    requires StoredForest(t0) && k <= |s|
  {
    && t.rows == RowsAfter(t0, q, Elements(s[..k]))
    && LinksKeptExceptTo(t.links, t0.links, q.listed)
  }

  ghost predicate IsSorted(t: Tables, q: Deletion, s: seq<string>) {
    StoredForest(t) && AllStored(t, s) && DeepestFirst(t, s) && q.listed == Elements(s)
  }

  /** A child that does not survive is removed before its parent's turn. */
  lemma ChildrenFirst(t0: Tables, q: Deletion, s: seq<string>, k: nat, c: string)
    requires IsSorted(t0, q, s)
    requires k < |s| && c in t0.rows && t0.rows[c].parent == s[k] && !Survives(t0, q, c)
    ensures c in Elements(s[..k])
  {
    var d := Depth(ParentsOf(t0));
    assert c in s;
    var j :| 0 <= j < |s| && s[j] == c;
    assert ParentsOf(t0)[c] == s[k];
    assert d[c] == d[s[k]] + 1;
    assert j < k;
    assert s[j] in s[..k];
  }

  /** At its turn an asset has exactly its surviving children, and feeds exactly what is not on the list. */
  lemma HeldInTurn(t0: Tables, t: Tables, q: Deletion, s: seq<string>, k: nat)
    requires k < |s| && IsSorted(t0, q, s) && IsTurn(t0, t, q, s, k)
    ensures IsHeld(t, s[k]) <==> FeedsOutside(t0.links, q.listed, s[k]) || HasSurvivingChild(t0, q, s[k])
    ensures !HasLinkTo(t.links, s[k])
  {
    LinksInTurn(t0, t, q, s[k]);
    ChildrenInTurn(t0, t, q, s, k);
  }

  lemma LinksInTurn(t0: Tables, t: Tables, q: Deletion, n: string)
    requires LinksKeptExceptTo(t.links, t0.links, q.listed)
    ensures HasLinkFrom(t.links, n) <==> FeedsOutside(t0.links, q.listed, n)
    ensures n in q.listed ==> !HasLinkTo(t.links, n)
  {
    forall r: LinkRow ensures r in t.links <==> r in t0.links && r.dest !in q.listed {
      assert r in t.links <==> t.links[r] > 0;
    }
  }

  lemma ChildrenInTurn(t0: Tables, t: Tables, q: Deletion, s: seq<string>, k: nat)
    requires k < |s| && IsSorted(t0, q, s) && IsTurn(t0, t, q, s, k)
    ensures (exists c :: c in t.rows && t.rows[c].parent == s[k]) <==> HasSurvivingChild(t0, q, s[k])
  {
    forall c
      ensures c in t.rows && t.rows[c].parent == s[k]
        <==> c in t0.rows && t0.rows[c].parent == s[k] && Survives(t0, q, c)
    {
      if c in t0.rows && t0.rows[c].parent == s[k] && !Survives(t0, q, c) {
        ChildrenFirst(t0, q, s, k, c);
      }
    }
  }

  // ---------- the guard on the last data center ----------

  ghost predicate IsDataCenter(t: Tables, n: string) {
    n in t.rows && t.rows[n].assetType == TYPE_DATACENTER
  }

  ghost predicate SomeDataCenterSurvives(t: Tables, q: Deletion)
    requires StoredForest(t)
  {
    exists n :: Survives(t, q, n) && IsDataCenter(t, n)
  }

  ghost function Containers(t: Tables): set<string> {
    set n | n in t.rows && IsContainer(t.rows[n].assetType)
  }

  /** No data center lies higher. */
  ghost predicate IsTopDataCenter(t: Tables, n: string)
    requires StoredForest(t)
  {
    IsDataCenter(t, n) && forall m | IsDataCenter(t, m) :: Depth(ParentsOf(t))[n] <= Depth(ParentsOf(t))[m]
  }

  /** What the guard keeps: nothing when it is off, every container when no data
      center is stored, nothing when a data center survives anyway, and otherwise
      one data center of least depth. */
  ghost predicate IsKept(t: Tables, listed: set<string>, o: Options, kept: set<string>)
    requires StoredForest(t)
  {
    if o.removeLastDC then kept == {}
    else if !HasDataCenter(t.rows) then kept == Containers(t)
    else if SomeDataCenterSurvives(t, Deletion(listed, o, {})) then kept == {}
    else exists n :: kept == {n} && IsTopDataCenter(t, n)
  }

  /** At its k-th turn the guard refuses s[k]: all other data centers are gone. */
  ghost predicate IsGuarded(t: Tables, q: Deletion, s: seq<string>, k: nat)
    requires StoredForest(t) && k < |s| && s[k] in t.rows
  {
    && !q.o.removeLastDC && IsContainer(t.rows[s[k]].assetType)
    && forall n | IsDataCenter(t, n) && n != s[k] :: n in s[..k] && !Survives(t, q, n)
  }

  /** The guard refuses what it is said to keep, and nothing else that could go. */
  ghost predicate GuardFits(t: Tables, q: Deletion, s: seq<string>)
    requires StoredForest(t) && AllStored(t, s)
  {
    && (q.o.removeLastDC || SomeDataCenterSurvives(t, q) || Containers(t) <= q.kept)
    && forall k | 0 <= k < |s| && s[k] in q.kept :: IsGuarded(t, q, s, k)
  }

  /** Of the data centers on the list one comes up for the first time after all others. */
  lemma {:induction false} LastToComeUp(t: Tables, s: seq<string>) returns (k: nat)
    requires exists n :: n in s && IsDataCenter(t, n)
    ensures k < |s| && IsDataCenter(t, s[k])
    ensures forall n | n in s && IsDataCenter(t, n) && n != s[k] :: n in s[..k]
    ensures s[k] !in s[..k]
  {
    var front, last := s[..|s| - 1], s[|s| - 1];
    assert s == front + [last];
    if IsDataCenter(t, last) && last !in front {
      k := |s| - 1;
    } else {
      k := LastToComeUp(t, front);
      assert front[..k] == s[..k];
    }
  }

  lemma FirstComesFirst(s: seq<string>, k: nat, i: nat)
    requires k < |s| && i < |s| && s[k] !in s[..k] && s[i] == s[k]
    ensures k <= i && forall m | m in s[..k] :: m in s[..i]
  {
    assert forall j | 0 <= j < k :: s[..k][j] == s[j] && s[j] in s[..k];
    assert s[..k] <= s[..i];
  }

  lemma LastIsTop(t: Tables, s: seq<string>, k: nat)
    requires StoredForest(t) && AllStored(t, s) && DeepestFirst(t, s) && k < |s| && IsDataCenter(t, s[k])
    requires forall m | IsDataCenter(t, m) && m != s[k] :: m in s[..k]
    ensures IsTopDataCenter(t, s[k])
  {
    forall m | IsDataCenter(t, m) ensures Depth(ParentsOf(t))[s[k]] <= Depth(ParentsOf(t))[m] {
      if m != s[k] {
        var j :| 0 <= j < k && s[j] == m;
        assert Depth(ParentsOf(t))[s[j]] >= Depth(ParentsOf(t))[s[k]];
      }
    }
  }

  lemma KeptDataCenter(t: Tables, listed: set<string>, o: Options, s: seq<string>) returns (n: string)
    requires IsSorted(t, Deletion(listed, o, {}), s) && !o.removeLastDC && HasDataCenter(t.rows)
    requires !SomeDataCenterSurvives(t, Deletion(listed, o, {}))
    ensures IsTopDataCenter(t, n) && GuardFits(t, Deletion(listed, o, {n}), s)
  {
    var q0 := Deletion(listed, o, {});
    forall m | IsDataCenter(t, m) ensures m in s {
      assert !Survives(t, q0, m);
    }
    var first :| first in t.rows && t.rows[first].assetType == TYPE_DATACENTER;
    assert IsDataCenter(t, first) && first in s;
    var k := LastToComeUp(t, s);
    n := s[k];
    var q := Deletion(listed, o, {n});
    LastIsTop(t, s, k);
    assert Survives(t, q, n);
    forall i | 0 <= i < |s| && s[i] in q.kept ensures IsGuarded(t, q, s, i) {
      FirstComesFirst(s, k, i);
      forall m | IsDataCenter(t, m) && m != s[i] ensures m in s[..i] && !Survives(t, q, m) {
        StaysGone(t, q0, q, n, m);
      }
    }
  }

  /** Keeping one asset more saves nothing that is not above it. */
  lemma StaysGone(t: Tables, q0: Deletion, q: Deletion, n: string, m: string)
    requires StoredForest(t) && n in t.rows && m in t.rows && m != n
    requires q == Deletion(q0.listed, q0.o, {n}) && q0.kept == {} && !Survives(t, q0, m)
    requires Depth(ParentsOf(t))[n] <= Depth(ParentsOf(t))[m]
    ensures !Survives(t, q, m)
  {
    assert forall x | x != n :: IsStuck(t, q, x) <==> IsStuck(t, q0, x);
    if Above(ParentsOf(t), m, n) { AboveIsShallower(ParentsOf(t), m, n); }
  }

  lemma ChooseKept(t: Tables, listed: set<string>, o: Options, s: seq<string>) returns (kept: set<string>)
    requires IsSorted(t, Deletion(listed, o, {}), s)
    ensures IsKept(t, listed, o, kept) && GuardFits(t, Deletion(listed, o, kept), s)
  {
    if o.removeLastDC {
      kept := {};
    } else if !HasDataCenter(t.rows) {
      kept := Containers(t);
    } else if SomeDataCenterSurvives(t, Deletion(listed, o, {})) {
      kept := {};
    } else {
      var n := KeptDataCenter(t, listed, o, s);
      kept := {n};
    }
  }

  // ---------- one turn ----------

  lemma IsLastInTurn(t0: Tables, t: Tables, q: Deletion, s: seq<string>, k: nat)
    requires k < |s| && IsSorted(t0, q, s) && IsTurn(t0, t, q, s, k)
    ensures IsGuarded(t0, q, s, k) ==> IsLast(t, s[k])
    ensures !Survives(t0, q, s[k]) && SomeDataCenterSurvives(t0, q) ==> !IsLast(t, s[k])
  {
    assert forall n | n in t.rows :: t.rows[n].assetType == t0.rows[n].assetType;
    if IsGuarded(t0, q, s, k) {
      forall n | n in t.rows && n != s[k] ensures t.rows[n].assetType != TYPE_DATACENTER {
        assert n in Elements(s[..k]) <==> n in s[..k];
        assert IsDataCenter(t0, n) <==> t0.rows[n].assetType == TYPE_DATACENTER;
      }
    }
    if !Survives(t0, q, s[k]) && SomeDataCenterSurvives(t0, q) {
      var n :| Survives(t0, q, n) && IsDataCenter(t0, n);
      assert n in t.rows && n != s[k];
    }
  }

  lemma SurvivorStays(t0: Tables, t: Tables, q: Deletion, s: seq<string>, k: nat)
    requires k < |s| && IsSorted(t0, q, s) && IsTurn(t0, t, q, s, k) && GuardFits(t0, q, s)
    requires s[k] in t.rows && Survives(t0, q, s[k])
    ensures !CanRemove(t, s[k], q.o)
  {
    SurvivesIff(t0, q, s[k]);
    HeldInTurn(t0, t, q, s, k);
    IsLastInTurn(t0, t, q, s, k);
    assert s[k] in q.listed && t.rows[s[k]].assetType == t0.rows[s[k]].assetType;
  }

  lemma OthersGo(t0: Tables, t: Tables, q: Deletion, s: seq<string>, k: nat)
    requires k < |s| && IsSorted(t0, q, s) && IsTurn(t0, t, q, s, k) && GuardFits(t0, q, s)
    requires s[k] in t.rows && !Survives(t0, q, s[k])
    ensures CanRemove(t, s[k], q.o)
  {
    SurvivesIff(t0, q, s[k]);
    HeldInTurn(t0, t, q, s, k);
    IsLastInTurn(t0, t, q, s, k);
    assert t.rows[s[k]].assetType == t0.rows[s[k]].assetType;
    assert s[k] in Containers(t0) ==> SomeDataCenterSurvives(t0, q) || q.o.removeLastDC;
  }

  /** Whether the turn changes the status of a survivor was decided at the start. */
  lemma StatusInTurn(t0: Tables, t: Tables, q: Deletion, s: seq<string>, k: nat)
    requires k < |s| && IsSorted(t0, q, s) && IsTurn(t0, t, q, s, k)
    requires s[k] in t.rows && Survives(t0, q, s[k])
    ensures AfterRefusal(t, s[k]) == t.rows[s[k] := RowAfter(t0, q, {s[k]}, s[k])]
  {
    HeldInTurn(t0, t, q, s, k);
    assert s[k] in q.listed;
    var row := t0.rows[s[k]];
    assert t.rows[s[k]] == RowAfter(t0, q, Elements(s[..k]), s[k]);
  }

  lemma TurnDone(t0: Tables, t: Tables, t': Tables, q: Deletion, s: seq<string>, k: nat, ok: bool)
    requires k < |s| && IsSorted(t0, q, s) && IsTurn(t0, t, q, s, k) && GuardFits(t0, q, s) && s[k] in t.rows
    requires ok <==> CanRemove(t, s[k], q.o)
    requires t'.rows == if ok then t.rows - {s[k]} else AfterRefusal(t, s[k])
    requires if ok then LinksKeptExceptTo(t'.links, t.links, {s[k]}) else t'.links == t.links
    ensures ok <==> !Survives(t0, q, s[k])
    ensures IsTurn(t0, t', q, s, k + 1)
  {
    if Survives(t0, q, s[k]) {
      SurvivorStays(t0, t, q, s, k);
      StatusInTurn(t0, t, q, s, k);
    } else {
      OthersGo(t0, t, q, s, k);
    }
    RowsOneMore(t0, q, s, k);
    assert s[k] in q.listed;
  }

  lemma RowsOneMore(t: Tables, q: Deletion, s: seq<string>, k: nat)
    requires StoredForest(t) && k < |s| && s[k] in t.rows
    ensures RowsAfter(t, q, Elements(s[..k + 1])) ==
      if Survives(t, q, s[k]) then RowsAfter(t, q, Elements(s[..k]))[s[k] := RowAfter(t, q, {s[k]}, s[k])]
      else RowsAfter(t, q, Elements(s[..k])) - {s[k]}
  {
    assert s[..k + 1] == s[..k] + [s[k]];
    assert Elements(s[..k + 1]) == Elements(s[..k]) + {s[k]};
    RowsWithOneMore(t, q, Elements(s[..k]), s[k]);
  }

  lemma RowsWithOneMore(t: Tables, q: Deletion, done: set<string>, n: string)
    requires StoredForest(t) && n in t.rows
    ensures RowsAfter(t, q, done + {n}) ==
      if Survives(t, q, n) then RowsAfter(t, q, done)[n := RowAfter(t, q, {n}, n)] else RowsAfter(t, q, done) - {n}
  {
    var rows, more := RowsAfter(t, q, done), RowsAfter(t, q, done + {n});
    var row := RowAfter(t, q, {n}, n);
    forall m
      ensures m in more <==> if m == n then Survives(t, q, n) else m in rows
      ensures m in more ==> more[m] == if m == n then row else rows[m]
    {
      RowWithOneMore(t, q, done, n, m);
    }
    Rebuilt(rows, more, n, row, Survives(t, q, n));
  }

  lemma Rebuilt(rows: map<string, Row>, more: map<string, Row>, n: string, row: Row, stays: bool)
    requires forall m :: m in more <==> if m == n then stays else m in rows
    requires forall m | m in more :: more[m] == if m == n then row else rows[m]
    ensures more == if stays then rows[n := row] else rows - {n}
  {
  }

  lemma RowWithOneMore(t: Tables, q: Deletion, done: set<string>, n: string, m: string)
    requires StoredForest(t) && n in t.rows
    ensures m in RowsAfter(t, q, done + {n}) <==> if m == n then Survives(t, q, n) else m in RowsAfter(t, q, done)
    ensures m in RowsAfter(t, q, done + {n}) ==>
      RowsAfter(t, q, done + {n})[m] == if m == n then RowAfter(t, q, {n}, n) else RowsAfter(t, q, done)[m]
  {
    assert m in done + {n} <==> m in done || m == n;
  }

  // ---------- the loop ----------

  /** An asset is named twice although its first removal worked. */
  ghost predicate HitsTwice(t: Tables, q: Deletion, s: seq<string>)
    requires StoredForest(t)
  {
    exists i, j | 0 <= i < j < |s| :: s[i] == s[j] && !Survives(t, q, s[i])
  }

  /** deleted, the answer of deleteList: each asset with whether it was removed. */
  ghost predicate Reports(t: Tables, q: Deletion, s: seq<string>, deleted: seq<(string, bool)>)
    requires StoredForest(t)
  {
    && |deleted| <= |s|
    && forall i | 0 <= i < |deleted| :: deleted[i] == (s[i], !Survives(t, q, s[i]))
  }

  /** The loop over the sorted list.  An asset that is already gone makes load()
      throw, outside the try block. */
  method RemoveAll(db: Db, s: seq<string>, o: Options, ghost t0: Tables, ghost q: Deletion)
    returns (escaped: bool, deleted: seq<(string, bool)>)
    requires Consistent(db.Now()) && db.rows == t0.rows && LinksKeptExceptTo(db.links, t0.links, q.listed)
    requires q.o == o && IsSorted(t0, q, s) && GuardFits(t0, q, s)
    modifies db`order, db`rows, db`links
    ensures Consistent(db.Now())
    ensures !o.removeLastDC && HasDataCenter(t0.rows) ==> HasDataCenter(db.rows)
    ensures escaped <==> HitsTwice(t0, q, s)
    ensures escaped <==> |deleted| < |s|
    ensures Reports(t0, q, s, deleted) && IsTurn(t0, db.Now(), q, s, |deleted|)
  {
    deleted := [];
    NothingDone(t0, db.Now(), q, s);
    for k := 0 to |s|
      invariant Consistent(db.Now())
      invariant !o.removeLastDC && HasDataCenter(t0.rows) ==> HasDataCenter(db.rows)
      invariant |deleted| == k && OnCourse(t0, db.Now(), q, s, deleted)
    {
      ghost var t := db.Now();
      if s[k] !in db.rows {
        EscapeIsHit(t0, t, q, s, k);
        return true, deleted;
      }
      var ok := RemoveOne(db, s[k], o);
      StaysOnCourse(t0, t, db.Now(), q, s, deleted, ok);
      deleted := deleted + [(s[k], ok)];
    }
    assert s[..|s|] == s;
    escaped := false;
  }

  /** The loop before its next turn. */
  ghost predicate OnCourse(t0: Tables, t: Tables, q: Deletion, s: seq<string>, deleted: seq<(string, bool)>)
    requires StoredForest(t0)
  {
    && Reports(t0, q, s, deleted)
    && IsTurn(t0, t, q, s, |deleted|)
    && !HitsTwice(t0, q, s[..|deleted|])
  }

  lemma NothingDone(t0: Tables, t: Tables, q: Deletion, s: seq<string>)
    requires StoredForest(t0) && t.rows == t0.rows && LinksKeptExceptTo(t.links, t0.links, q.listed)
    ensures OnCourse(t0, t, q, s, [])
  {
    assert Elements(s[..0]) == {};
  }

  lemma StaysOnCourse(t0: Tables, t: Tables, t': Tables, q: Deletion, s: seq<string>,
          deleted: seq<(string, bool)>, ok: bool)
    requires IsSorted(t0, q, s) && GuardFits(t0, q, s)
    requires OnCourse(t0, t, q, s, deleted) && |deleted| < |s| && s[|deleted|] in t.rows
    requires ok <==> CanRemove(t, s[|deleted|], q.o)
    requires t'.rows == if ok then t.rows - {s[|deleted|]} else AfterRefusal(t, s[|deleted|])
    requires if ok then LinksKeptExceptTo(t'.links, t.links, {s[|deleted|]}) else t'.links == t.links
    ensures OnCourse(t0, t', q, s, deleted + [(s[|deleted|], ok)])
  {
    var k := |deleted|;
    var deleted' := deleted + [(s[k], ok)];
    TurnDone(t0, t, t', q, s, k, ok);
    NoNewHit(t0, t, q, s, k);
    assert |deleted'| == k + 1;
    ReportGrows(t0, q, s, deleted, ok);
  }

  lemma ReportGrows(t0: Tables, q: Deletion, s: seq<string>, deleted: seq<(string, bool)>, ok: bool)
    requires StoredForest(t0) && Reports(t0, q, s, deleted) && |deleted| < |s|
    requires ok <==> !Survives(t0, q, s[|deleted|])
    ensures Reports(t0, q, s, deleted + [(s[|deleted|], ok)])
  {
  }

  lemma EscapeIsHit(t0: Tables, t: Tables, q: Deletion, s: seq<string>, k: nat)
    requires k < |s| && IsSorted(t0, q, s) && IsTurn(t0, t, q, s, k) && s[k] !in t.rows
    ensures HitsTwice(t0, q, s)
  {
    var i :| 0 <= i < k && s[..k][i] == s[k];
    assert s[i] == s[k];
  }

  lemma NoNewHit(t0: Tables, t: Tables, q: Deletion, s: seq<string>, k: nat)
    requires StoredForest(t0) && k < |s| && IsTurn(t0, t, q, s, k) && s[k] in t.rows
    requires !HitsTwice(t0, q, s[..k])
    ensures !HitsTwice(t0, q, s[..k + 1])
  {
    assert s[k] in s[..k] ==> s[k] in Elements(s[..k]) && Survives(t0, q, s[k]);
    NoHitAdded(t0, q, s, k);
  }

  lemma NoHitAdded(t0: Tables, q: Deletion, s: seq<string>, k: nat)
    requires StoredForest(t0) && k < |s| && !HitsTwice(t0, q, s[..k])
    requires s[k] in s[..k] ==> Survives(t0, q, s[k])
    ensures !HitsTwice(t0, q, s[..k + 1])
  {
    var a, b := s[..k], s[..k + 1];
    forall i, j | 0 <= i < j < |b| ensures !(b[i] == b[j] && !Survives(t0, q, b[i])) {
      assert a[i] == b[i];
      if j < k {
        assert a[j] == b[j];
      } else {
        assert b[i] in a && b[j] == s[k];
      }
    }
  }

  // ---------- named twice ----------

  /** AddMissing never adds a second copy. */
  lemma {:induction false} MissingOnce(acc: seq<string>, list: seq<string>, y: string)
    ensures multiset(AddMissing(acc, list))[y] == if y in acc then multiset(acc)[y] else if y in list then 1 else 0
    decreases list
  {
    if list != [] {
      var acc' := if list[0] in acc then acc else acc + [list[0]];
      MissingOnce(acc', list[1..], y);
      assert list == [list[0]] + list[1..];
      assert y in acc ==> multiset(acc')[y] == multiset(acc)[y];
    } else {
      assert y !in acc ==> multiset(acc)[y] == 0;
    }
  }

  /** The j-th request, or an ancestor of it in a recursive deletion, came earlier. */
  ghost predicate ComesAgain(t: Tables, recursive: bool, requested: seq<string>, j: nat)
    requires StoredForest(t) && j < |requested|
  {
    IsCovered(t, recursive, requested[..j], requested[j])
  }

  ghost predicate IsRequestedAgain(t: Tables, recursive: bool, requested: seq<string>, y: string)
    requires StoredForest(t)
  {
    exists j | 0 <= j < |requested| :: requested[j] == y && ComesAgain(t, recursive, requested, j)
  }

  lemma RequestedOneMore(t: Tables, recursive: bool, front: seq<string>, n: string, y: string)
    requires StoredForest(t)
    ensures IsRequestedAgain(t, recursive, front + [n], y)
      <==> IsRequestedAgain(t, recursive, front, y) || (y == n && IsCovered(t, recursive, front, n))
  {
    var s := front + [n];
    forall j | 0 <= j < |front| ensures s[j] == front[j] && s[..j] == front[..j] {
    }
    assert s[..|front|] == front && s[|front|] == n;
    if IsRequestedAgain(t, recursive, front, y) {
      var j :| 0 <= j < |front| && front[j] == y && ComesAgain(t, recursive, front, j);
      assert s[j] == y && ComesAgain(t, recursive, s, j);
    }
    if y == n && IsCovered(t, recursive, front, n) {
      assert ComesAgain(t, recursive, s, |front|);
    }
  }

  lemma {:induction false} TwiceIfRequestedAgain(t: Tables, recursive: bool, requested: seq<string>, y: string)
    requires StoredForest(t) && forall n | n in requested :: n in t.rows
    ensures multiset(ToDelete(t, recursive, requested))[y] >= 2 <==> IsRequestedAgain(t, recursive, requested, y)
  {
    if requested != [] {
      var front, n := requested[..|requested| - 1], requested[|requested| - 1];
      assert requested == front + [n];
      TwiceIfRequestedAgain(t, recursive, front, y);
      RequestedOneMore(t, recursive, front, n, y);
      ToDeleteIs(t, recursive, front);
      var acc := ToDelete(t, recursive, front);
      assert multiset(acc)[y] > 0 <==> y in acc;
      assert multiset(acc + [n])[y] == multiset(acc)[y] + if y == n then 1 else 0;
      if recursive { MissingOnce(acc + [n], Preorder(t, n, 0), y); }
    }
  }

  /** Loading trips: a request, or one of its ancestors, came earlier, and its first removal worked. */
  ghost predicate TripsOver(t: Tables, recursive: bool, requested: seq<string>, q: Deletion)
    requires StoredForest(t)
  {
    exists j | 0 <= j < |requested| :: ComesAgain(t, recursive, requested, j) && !Survives(t, q, requested[j])
  }

  lemma TwiceMeansTwoPlaces(s: seq<string>, n: string)
    requires multiset(s)[n] >= 2
    ensures exists i, j :: 0 <= i < j < |s| && s[i] == s[j] == n
  {
    assert n in multiset(s);
    var i :| 0 <= i < |s| && s[i] == n;
    var rest := s[..i] + s[i + 1..];
    EraseIsMinus(s, i);
    assert n in multiset(rest);
    var k :| 0 <= k < |rest| && rest[k] == n;
    var j := if k < i then k else k + 1;
    assert s[j] == n;
    assert (if i < j then 0 <= i < j < |s| else 0 <= j < i < |s|);
  }

  /** The loop trips exactly if the requests say so, whatever the sort does with equal depths. */
  lemma HitsAreTrips(t: Tables, recursive: bool, requested: seq<string>, q: Deletion, s: seq<string>)
    requires StoredForest(t) && forall n | n in requested :: n in t.rows
    requires multiset(s) == multiset(ToDelete(t, recursive, requested))
    ensures HitsTwice(t, q, s) <==> TripsOver(t, recursive, requested, q)
  {
    if HitsTwice(t, q, s) {
      var i, j :| 0 <= i < j < |s| && s[i] == s[j] && !Survives(t, q, s[i]);
      TwoPlacesMeanTwice(s, i, j);
      TwiceIfRequestedAgain(t, recursive, requested, s[i]);
    }
    if TripsOver(t, recursive, requested, q) {
      var j :| 0 <= j < |requested| && ComesAgain(t, recursive, requested, j) && !Survives(t, q, requested[j]);
      TwiceIfRequestedAgain(t, recursive, requested, requested[j]);
      TwiceMeansTwoPlaces(s, requested[j]);
    }
  }

  /** When nothing requested survives, the deletion trips exactly when a request
      repeats or follows one of its ancestors. */
  lemma TripsUnlessSeparate(t: Tables, recursive: bool, requested: seq<string>, q: Deletion)
    requires StoredForest(t) && forall n | n in requested :: n in t.rows && !Survives(t, q, n)
    ensures TripsOver(t, recursive, requested, q) <==> !AreSeparate(t, recursive, requested)
  {
    if !AreSeparate(t, recursive, requested) {
      var i, j :| 0 <= i < j < |requested| &&
        (requested[i] == requested[j] || (recursive && Above(ParentsOf(t), requested[i], requested[j])));
      assert requested[i] in requested[..j];
      assert ComesAgain(t, recursive, requested, j);
    }
    if TripsOver(t, recursive, requested, q) {
      var j :| 0 <= j < |requested| && ComesAgain(t, recursive, requested, j);
      if requested[j] in requested[..j] {
        var i :| 0 <= i < j && requested[i] == requested[j];
      } else {
        var n :| n in requested[..j] && Above(ParentsOf(t), n, requested[j]);
        var i :| 0 <= i < j && requested[i] == n;
      }
    }
  }

  /** The same device requested twice: the second load() throws. */
  lemma RepeatedRequestTrips(a: string, row: Row, o: Options)
    requires a != "" && a != RC0 && row.assetType == TYPE_DEVICE && row.parent == ""
    ensures var t := Tables([a], map[a := row], multiset{});
      && StoredForest(t) && IsKept(t, {a}, o, {})
      && TripsOver(t, false, [a, a], Deletion({a}, o, {}))
  {
    var t := Tables([a], map[a := row], multiset{});
    RankedIsForest(ParentsOf(t), map[a := 0]);
    assert |TYPE_DEVICE| == 6 && |TYPE_GROUP| == 5 && |TYPE_DATACENTER| == 10;
    assert Containers(t) == {};
    assert forall m :: !IsStuck(t, Deletion({a}, o, {}), m);
    assert [a, a][..1] == [a] && ComesAgain(t, false, [a, a], 1);
  }

  // ---------- the whole deletion ----------

  /** Part of the rows, with their parents. */
  ghost predicate IsPart(rows: map<string, Row>, all: map<string, Row>) {
    forall n | n in rows :: n in all && rows[n] == all[n].(status := rows[n].status)
  }

  lemma PartIsForest(t0: Tables, t: Tables)
    requires StoredForest(t0) && Consistent(t) && IsPart(t.rows, t0.rows)
    ensures StoredForest(t)
  {
    var p, p0 := ParentsOf(t), ParentsOf(t0);
    forall n | n in p && p[n] in p ensures Depth(p0)[p[n]] < Depth(p0)[n] {
      assert p0[n] == p[n] && p[n] in p0;
    }
    RankedIsForest(p, Depth(p0));
  }

  /** The names deleteList works on. */
  ghost function Targets(t: Tables, recursive: bool, deleteVirtual: bool, assets: seq<string>): set<string>
    requires StoredForest(t)
  {
    set y | y in t.rows && IsCovered(t, recursive, Listed(t, deleteVirtual, assets), y)
  }

  ghost predicate ReportsAll(t0: Tables, q: Deletion, deleted: seq<(string, bool)>)
    requires StoredForest(t0)
  {
    && (forall i | 0 <= i < |deleted| :: deleted[i].1 <==> !Survives(t0, q, deleted[i].0))
    && (forall n | n in q.listed :: exists i :: 0 <= i < |deleted| && deleted[i].0 == n)
  }

  method UnlinkEach(db: Db, s: seq<string>)
    modifies db`links
    ensures LinksKeptExceptTo(db.links, old(db.links), Elements(s))
  {
    for i := 0 to |s|
      invariant LinksKeptExceptTo(db.links, old(db.links), Elements(s[..i]))
    {
      ghost var links := db.links;
      UnlinkAll(db, s[i]);
      LinksDropped(db.links, links, old(db.links), s, i);
    }
    assert s[..|s|] == s;
  }

  lemma LinksDropped(a: multiset<LinkRow>, b: multiset<LinkRow>, c: multiset<LinkRow>, s: seq<string>, i: nat)
    requires i < |s| && LinksKeptExceptTo(a, b, {s[i]}) && LinksKeptExceptTo(b, c, Elements(s[..i]))
    ensures LinksKeptExceptTo(a, c, Elements(s[..i + 1]))
  {
    assert s[..i + 1] == s[..i] + [s[i]];
  }

  /** What deleteList leaves once the assets in done have had their turn; all have, unless it escaped. */
  ghost predicate IsLeft(t0: Tables, t: Tables, q: Deletion, done: set<string>, escaped: bool)
    requires StoredForest(t0)
  {
    && done <= q.listed && (!escaped ==> done == q.listed)
    && t.rows == RowsAfter(t0, q, done)
    && LinksKeptExceptTo(t.links, t0.links, q.listed)
  }

  /** deleteList.  kept is what the guard on the last data center keeps. */
  method DeleteList(db: Db, assets: seq<string>, recursive: bool, deleteVirtual: bool, o: Options)
    returns (escaped: bool, deleted: seq<(string, bool)>, ghost kept: set<string>, ghost done: set<string>)
    requires StoredForest(db.Now())
    modifies db`order, db`rows, db`links
    ensures StoredForest(db.Now())
    ensures !o.removeLastDC && HasDataCenter(old(db.rows)) ==> HasDataCenter(db.rows)
    ensures var t0, listed := old(db.Now()), Targets(old(db.Now()), recursive, deleteVirtual, assets);
      var q := Deletion(listed, o, kept);
      && IsKept(t0, listed, o, kept)
      && IsLeft(t0, db.Now(), q, done, escaped)
      && (escaped <==> TripsOver(t0, recursive, Listed(t0, deleteVirtual, assets), q))
      && (!escaped ==> ReportsAll(t0, q, deleted))
  {
    ghost var t0 := db.Now();
    ghost var requested := Listed(t0, deleteVirtual, assets);
    var toDel := CollectToDelete(db, assets, recursive, deleteVirtual);
    ToDeleteIs(t0, recursive, requested);
    var s := SortByDepth(db, toDel);
    SameTargets(t0, recursive, requested, toDel, s);
    kept := ChooseKept(t0, Elements(s), o, s);
    ghost var q := Deletion(Elements(s), o, kept);
    HitsAreTrips(t0, recursive, requested, q, s);
    escaped, deleted, done := DeleteSorted(db, s, o, q);
  }

  /** The links go first, then the assets in their order. */
  method DeleteSorted(db: Db, s: seq<string>, o: Options, ghost q: Deletion)
    returns (escaped: bool, deleted: seq<(string, bool)>, ghost done: set<string>)
    requires q.o == o && IsSorted(db.Now(), q, s) && GuardFits(db.Now(), q, s)
    modifies db`order, db`rows, db`links
    ensures StoredForest(db.Now())
    ensures !o.removeLastDC && HasDataCenter(old(db.rows)) ==> HasDataCenter(db.rows)
    ensures IsLeft(old(db.Now()), db.Now(), q, done, escaped)
    ensures escaped <==> HitsTwice(old(db.Now()), q, s)
    ensures !escaped ==> ReportsAll(old(db.Now()), q, deleted)
  {
    ghost var t0 := db.Now();
    UnlinkEach(db, s);
    UnlinkedIsConsistent(t0, db.Now(), q.listed);
    escaped, deleted := RemoveAll(db, s, o, t0, q);
    done := Elements(s[..|deleted|]);
    LeftIs(t0, db.Now(), q, s, deleted, escaped);
  }

  lemma LeftIs(t0: Tables, t: Tables, q: Deletion, s: seq<string>, deleted: seq<(string, bool)>, escaped: bool)
    requires IsSorted(t0, q, s) && Consistent(t)
    requires Reports(t0, q, s, deleted) && IsTurn(t0, t, q, s, |deleted|) && (escaped <==> |deleted| < |s|)
    ensures IsLeft(t0, t, q, Elements(s[..|deleted|]), escaped) && StoredForest(t)
    ensures !escaped ==> ReportsAll(t0, q, deleted)
  {
    if !escaped {
      assert s[..|deleted|] == s;
      AllReported(t0, q, s, deleted);
    }
    PartIsForest(t0, t);
  }

  lemma SameTargets(t: Tables, recursive: bool, requested: seq<string>, toDel: seq<string>, s: seq<string>)
    requires StoredForest(t) && forall n | n in requested :: n in t.rows
    requires toDel == ToDelete(t, recursive, requested) && multiset(s) == multiset(toDel)
    requires forall n | n in s :: n in t.rows
    ensures (set y | y in t.rows && IsCovered(t, recursive, requested, y)) == Elements(s)
  {
    ToDeleteIs(t, recursive, requested);
    forall y ensures y in s <==> y in toDel {
      assert y in s <==> y in multiset(s);
      assert y in toDel <==> y in multiset(toDel);
    }
  }

  lemma UnlinkedIsConsistent(t0: Tables, t: Tables, listed: set<string>)
    requires Consistent(t0) && t.rows == t0.rows && t.order == t0.order && LinksKeptExceptTo(t.links, t0.links, listed)
    ensures Consistent(t)
  {
    forall r | r in t.links ensures r.dest in t.rows && r.link.source in t.rows {
      assert t.links[r] > 0 && r in t0.links;
    }
  }

  lemma AllReported(t0: Tables, q: Deletion, s: seq<string>, deleted: seq<(string, bool)>)
    requires StoredForest(t0) && q.listed == Elements(s)
    requires Reports(t0, q, s, deleted) && |deleted| == |s|
    ensures ReportsAll(t0, q, deleted)
  {
    forall n | n in q.listed ensures exists i :: 0 <= i < |deleted| && deleted[i].0 == n {
      var i :| 0 <= i < |s| && s[i] == n;
      assert deleted[i].0 == n;
    }
  }

  /** Seen from the outside: who is left, and that even an escape takes no survivor. */
  lemma WhoIsLeft(t0: Tables, t: Tables, q: Deletion, done: set<string>, escaped: bool, n: string)
    requires StoredForest(t0) && IsLeft(t0, t, q, done, escaped)
    ensures Survives(t0, q, n) ==> n in t.rows
    ensures !escaped ==> (n in t.rows <==> Survives(t0, q, n))
    ensures n in t.rows ==> n in t0.rows
    ensures !escaped && n in t.rows ==>
      t.rows[n] == if IsDeactivated(t0, q, n) then t0.rows[n].(status := Nonactive) else t0.rows[n]
  {
    if n in t0.rows && n !in q.listed { assert IsStuck(t0, q, n); }
  }

  // ---------- deleting everything ----------

  method ListAll(db: Db) returns (names: seq<string>)
    requires Consistent(db.Now())
    ensures NoDuplicates(names)
    ensures forall n :: n in names <==> n in db.rows && n != RC0
  {
    names := [];
    for i := 0 to |db.order|
      invariant NoDuplicates(names)
      invariant forall n :: n in names <==> n in db.order[..i] && n != RC0
    {
      assert db.order[..i + 1] == db.order[..i] + [db.order[i]];
      assert db.order[i] !in db.order[..i];
      if db.order[i] != RC0 {
        names := names + [db.order[i]];
      }
    }
    assert db.order[..|db.order|] == db.order;
  }

  /** Virtual assets, unless they are to go too, and the rack controller. */
  ghost predicate IsSkipped(t: Tables, deleteVirtual: bool, n: string) {
    n in t.rows && (n == RC0 || (!deleteVirtual && t.rows[n].assetType in VIRTUAL_TYPES))
  }

  /** What no deleteAll can remove: what it skips, the source of a link into
      that, and a group that cannot be cleared. */
  ghost predicate IsPinned(t: Tables, deleteVirtual: bool, groupsCanBeCleared: bool, m: string) {
    && m in t.rows
    && (|| IsSkipped(t, deleteVirtual, m)
        || FeedsSkipped(t, deleteVirtual, m)
        || (t.rows[m].assetType == TYPE_GROUP && !groupsCanBeCleared))
  }

  ghost predicate FeedsSkipped(t: Tables, deleteVirtual: bool, m: string) {
    exists r :: r in t.links && r.link.source == m && IsSkipped(t, deleteVirtual, r.dest)
  }

  /** An asset stays exactly when it or something below it is pinned. */
  ghost predicate StaysAfterAll(t: Tables, deleteVirtual: bool, groupsCanBeCleared: bool, n: string)
    requires StoredForest(t)
  {
    n in t.rows && exists m ::
      IsPinned(t, deleteVirtual, groupsCanBeCleared, m) && (m == n || Above(ParentsOf(t), n, m))
  }

  /** An active group that cannot be cleared, and that nothing else holds, is deactivated for nothing. */
  ghost predicate TurnsNonactive(t: Tables, deleteVirtual: bool, groupsCanBeCleared: bool, n: string)
    requires StoredForest(t)
  {
    && n in t.rows && t.rows[n].status == Active && t.rows[n].assetType == TYPE_GROUP && !groupsCanBeCleared
    && !IsSkipped(t, deleteVirtual, n) && !FeedsSkipped(t, deleteVirtual, n)
    && forall c | c in t.rows && t.rows[c].parent == n :: !StaysAfterAll(t, deleteVirtual, groupsCanBeCleared, c)
  }

  /** The row of what stays. */
  ghost predicate IsAfterAll(t: Tables, deleteVirtual: bool, groupsCanBeCleared: bool, n: string, row: Row)
    requires StoredForest(t)
  {
    && n in t.rows
    && row == if TurnsNonactive(t, deleteVirtual, groupsCanBeCleared, n) then t.rows[n].(status := Nonactive)
              else t.rows[n]
  }

  lemma AllTargets(t: Tables, deleteVirtual: bool, assets: seq<string>, q: Deletion)
    requires StoredForest(t) && NoDuplicates(assets) && forall n :: n in assets <==> n in t.rows && n != RC0
    ensures !TripsOver(t, false, Listed(t, deleteVirtual, assets), q)
    ensures forall n ::
      n in Targets(t, false, deleteVirtual, assets) <==> n in t.rows && !IsSkipped(t, deleteVirtual, n)
  {
    ListedAre(t, deleteVirtual, assets);
    var requested := Listed(t, deleteVirtual, assets);
    forall j | 0 <= j < |requested| ensures !ComesAgain(t, false, requested, j) {
      assert requested[j] !in requested[..j];
    }
  }

  /** The list of a deleteAll. */
  ghost predicate IsAll(t: Tables, deleteVirtual: bool, q: Deletion) {
    q.kept == {} && forall n :: n in q.listed <==> n in t.rows && !IsSkipped(t, deleteVirtual, n)
  }

  lemma StuckIsPinned(t: Tables, deleteVirtual: bool, q: Deletion, m: string)
    requires Consistent(t) && IsAll(t, deleteVirtual, q)
    ensures IsStuck(t, q, m) <==> IsPinned(t, deleteVirtual, q.o.groupsCanBeCleared, m)
    ensures FeedsOutside(t.links, q.listed, m) <==> FeedsSkipped(t, deleteVirtual, m)
  {
    forall r | r in t.links ensures r.dest !in q.listed <==> IsSkipped(t, deleteVirtual, r.dest) {
    }
  }

  lemma SurvivorsStay(t: Tables, deleteVirtual: bool, q: Deletion, n: string)
    requires StoredForest(t) && IsAll(t, deleteVirtual, q)
    ensures Survives(t, q, n) <==> StaysAfterAll(t, deleteVirtual, q.o.groupsCanBeCleared, n)
  {
    forall m ensures IsStuck(t, q, m) <==> IsPinned(t, deleteVirtual, q.o.groupsCanBeCleared, m) {
      StuckIsPinned(t, deleteVirtual, q, m);
    }
  }

  lemma DeactivatedTurn(t: Tables, deleteVirtual: bool, q: Deletion, n: string)
    requires StoredForest(t) && IsAll(t, deleteVirtual, q)
    ensures IsDeactivated(t, q, n) <==> TurnsNonactive(t, deleteVirtual, q.o.groupsCanBeCleared, n)
  {
    StuckIsPinned(t, deleteVirtual, q, n);
    forall c ensures Survives(t, q, c) <==> StaysAfterAll(t, deleteVirtual, q.o.groupsCanBeCleared, c) {
      SurvivorsStay(t, deleteVirtual, q, c);
    }
    if n in t.rows { SurvivesIff(t, q, n); }
    assert |TYPE_DEVICE| == 6 && |TYPE_GROUP| == 5;
  }

  /** An asset stays for another's sake: a child that stays, or a link to what is skipped.  A group may be refused. */
  ghost predicate HasReasonToStay(t: Tables, left: map<string, Row>, deleteVirtual: bool, groupsCanBeCleared: bool,
          n: string)
  {
    && n in t.rows
    && (|| (exists c :: c in left && c in t.rows && t.rows[c].parent == n)
        || (exists r :: r in t.links && r.link.source == n && r.dest in t.rows
              && (r.dest == RC0 || (!deleteVirtual && t.rows[r.dest].assetType in VIRTUAL_TYPES)))
        || (t.rows[n].assetType == "group" && !groupsCanBeCleared))
  }

  /** By their types alone only virtual assets stay, and they do stay unless they are to go too. */
  ghost predicate OnlyVirtualIsKept(t: Tables, left: map<string, Row>, deleteVirtual: bool, groupsCanBeCleared: bool) {
    && (forall n | n in t.rows && n in left && n != RC0 && t.rows[n].assetType in PHYSICAL_TYPES ::
          HasReasonToStay(t, left, deleteVirtual, groupsCanBeCleared, n))
    && (!deleteVirtual ==> forall n | n in t.rows && t.rows[n].assetType in VIRTUAL_TYPES :: n in left)
  }

  lemma WhyItStays(t: Tables, left: map<string, Row>, deleteVirtual: bool, groupsCanBeCleared: bool)
    requires StoredForest(t)
    requires forall n :: n in left <==> StaysAfterAll(t, deleteVirtual, groupsCanBeCleared, n)
    ensures OnlyVirtualIsKept(t, left, deleteVirtual, groupsCanBeCleared)
  {
    forall n | n in t.rows && n in left && n != RC0 && t.rows[n].assetType in PHYSICAL_TYPES
      ensures HasReasonToStay(t, left, deleteVirtual, groupsCanBeCleared, n)
    {
      TypesAreApart(t.rows[n].assetType);
      StayingIsPassedUp(t, deleteVirtual, groupsCanBeCleared, n);
    }
    forall n | n in t.rows && !deleteVirtual && t.rows[n].assetType in VIRTUAL_TYPES ensures n in left {
      assert IsPinned(t, deleteVirtual, groupsCanBeCleared, n);
    }
  }

  lemma StayingIsPassedUp(t: Tables, deleteVirtual: bool, groupsCanBeCleared: bool, n: string)
    requires StoredForest(t) && StaysAfterAll(t, deleteVirtual, groupsCanBeCleared, n)
    ensures IsPinned(t, deleteVirtual, groupsCanBeCleared, n)
      || exists c :: c in t.rows && t.rows[c].parent == n && StaysAfterAll(t, deleteVirtual, groupsCanBeCleared, c)
  {
    var m :| IsPinned(t, deleteVirtual, groupsCanBeCleared, m) && (m == n || Above(ParentsOf(t), n, m));
    if m != n {
      var c := ChildTowards(ParentsOf(t), n, m);
      assert StaysAfterAll(t, deleteVirtual, groupsCanBeCleared, c);
    }
  }

  lemma LeftAfterAll(t0: Tables, t: Tables, deleteVirtual: bool, q: Deletion, done: set<string>, n: string)
    requires StoredForest(t0) && IsAll(t0, deleteVirtual, q) && IsLeft(t0, t, q, done, false)
    ensures n in t.rows <==> StaysAfterAll(t0, deleteVirtual, q.o.groupsCanBeCleared, n)
    ensures Survives(t0, q, n) <==> n in t.rows
    ensures n in t.rows ==> IsAfterAll(t0, deleteVirtual, q.o.groupsCanBeCleared, n, t.rows[n])
  {
    SurvivorsStay(t0, deleteVirtual, q, n);
    DeactivatedTurn(t0, deleteVirtual, q, n);
    WhoIsLeft(t0, t, q, done, false, n);
  }

  /** deleteAll never trips; it reports every asset it did not skip, OK exactly when it is gone. */
  method DeleteAll(db: Db, deleteVirtual: bool, groupsCanBeCleared: bool, answers: string -> bool)
    returns (deleted: seq<(string, bool)>)
    requires StoredForest(db.Now())
    modifies db`order, db`rows, db`links
    ensures forall n :: n in db.rows <==> StaysAfterAll(old(db.Now()), deleteVirtual, groupsCanBeCleared, n)
    ensures forall n | n in db.rows ::
      IsAfterAll(old(db.Now()), deleteVirtual, groupsCanBeCleared, n, db.rows[n])
    ensures forall i | 0 <= i < |deleted| :: deleted[i].1 <==> deleted[i].0 !in db.rows
    ensures forall n | n in old(db.rows) && !IsSkipped(old(db.Now()), deleteVirtual, n) ::
      exists i :: 0 <= i < |deleted| && deleted[i].0 == n
    ensures OnlyVirtualIsKept(old(db.Now()), db.rows, deleteVirtual, groupsCanBeCleared)
  {
    ghost var t0 := db.Now();
    var assets := ListAll(db);
    var o := Options(true, groupsCanBeCleared, answers);
    ghost var q := Deletion(Targets(t0, false, deleteVirtual, assets), o, {});
    AllTargets(t0, deleteVirtual, assets, q);
    var escaped;
    ghost var kept, done;
    escaped, deleted, kept, done := DeleteList(db, assets, false, deleteVirtual, o);
    forall n
      ensures n in db.rows <==> StaysAfterAll(t0, deleteVirtual, groupsCanBeCleared, n)
      ensures Survives(t0, q, n) <==> n in db.rows
      ensures n in db.rows ==> IsAfterAll(t0, deleteVirtual, groupsCanBeCleared, n, db.rows[n])
    {
      LeftAfterAll(t0, db.Now(), deleteVirtual, q, done, n);
    }
    WhyItStays(t0, db.rows, deleteVirtual, groupsCanBeCleared);
  }
}
