/** The asset tables and the statements server/src/asset/asset-db.cc runs on them. */
module Storage {
  import opened AssetModel
  import opened Sequences

  datatype Row = Row(
    parent: string,
    status: AssetStatus,
    assetType: string,
    subtype: string,
    priority: int,
    tag: string,
    secondaryId: string,
    ext: map<string, Attribute>)

  datatype LinkRow = LinkRow(link: AssetLink, dest: string)

  /** t_bios_asset_element by name (order is the order of the ids), its ext
      attributes, and t_bios_asset_link. */
  datatype Tables = Tables(order: seq<string>, rows: map<string, Row>, links: multiset<LinkRow>)

  /** Names are unique and not empty; parents and link ends exist (the foreign keys). */
  ghost predicate Consistent(t: Tables) {
    && NoDuplicates(t.order)
    && (forall n :: n in t.order <==> n in t.rows)
    && "" !in t.rows
    && (forall n | n in t.rows :: t.rows[n].parent == "" || t.rows[n].parent in t.rows)
    && (forall l | l in t.links :: l.dest in t.rows && l.link.source in t.rows)
  }

  ghost function ParentsOf(t: Tables): map<string, string> {
    map n | n in t.rows :: t.rows[n].parent
  }

  // ---------- extended attributes ----------

  const MAX_NAME := 50

  predicate NeedsNorm(key: string, e: ExtMapElement) {
    e.updated && key == EXT_NAME && |e.value| > MAX_NAME
  }

  /** normName can fail; the save fails with it. */
  ghost predicate Normable(mem: ExtMap, norm: string -> Option<string>) {
    forall k | k in mem && NeedsNorm(k, mem[k]) :: norm(mem[k].value).Some?
  }

  function StoredAs(key: string, e: ExtMapElement, norm: string -> Option<string>): Attribute {
    var value := if NeedsNorm(key, e) && norm(e.value).Some? then norm(e.value).value else e.value;
    Attribute(value, e.readOnly)
  }

  predicate Written(mem: ExtMap, k: string) {
    k in mem && mem[k].updated && mem[k].value != ""
  }

  predicate Erased(mem: ExtMap, k: string) {
    k in mem && mem[k].updated && mem[k].value == ""
  }

  /** The attributes after a save: dirty entries replace or erase what is stored,
      all others keep it. */
  ghost function SavedExt(stored: map<string, Attribute>, mem: ExtMap, norm: string -> Option<string>)
    : map<string, Attribute>
  {
    map k | k in stored.Keys + mem.Keys && !Erased(mem, k) && (Written(mem, k) || k in stored) ::
      if Written(mem, k) then StoredAs(k, mem[k], norm) else stored[k]
  }

  /** The attributes in the middle of a save: the keys in done are written, nothing is erased yet. */
  ghost function PartlySaved(stored: map<string, Attribute>, mem: ExtMap,
          norm: string -> Option<string>, done: set<string>): map<string, Attribute>
  {
    map k | k in stored.Keys + done && ((k in done && Written(mem, k)) || k in stored) ::
      if k in done && Written(mem, k) then StoredAs(k, mem[k], norm) else stored[k]
  }

  ghost function ToErase(stored: map<string, Attribute>, mem: ExtMap, done: set<string>): set<string> {
    set k | k in done && Erased(mem, k) && k in stored
  }

  lemma OneMoreSaved(stored: map<string, Attribute>, mem: ExtMap,
          norm: string -> Option<string>, done: set<string>, k: string)
    requires k in mem && k !in done
    ensures PartlySaved(stored, mem, norm, done + {k})
      == if Written(mem, k) then PartlySaved(stored, mem, norm, done)[k := StoredAs(k, mem[k], norm)]
         else PartlySaved(stored, mem, norm, done)
    ensures ToErase(stored, mem, done + {k})
      == if Erased(mem, k) && k in stored then ToErase(stored, mem, done) + {k} else ToErase(stored, mem, done)
  {
  }

  lemma AllSaved(stored: map<string, Attribute>, mem: ExtMap, norm: string -> Option<string>)
    ensures PartlySaved(stored, mem, norm, mem.Keys) - ToErase(stored, mem, mem.Keys)
      == SavedExt(stored, mem, norm)
  {
  }

  /** One attribute after a save.  A long name is shortened; nothing else is. */
  ghost predicate IsSavedEntry(stored: map<string, Attribute>, mem: ExtMap, norm: string -> Option<string>,
          saved: map<string, Attribute>, k: string)
  {
    if k !in mem || !mem[k].updated then
      (k in saved <==> k in stored) && (k in saved ==> saved[k] == stored[k])
    else if mem[k].value == "" then
      k !in saved
    else if k == "name" && |mem[k].value| > 50 then
      && k in saved && norm(mem[k].value).Some?
      && saved[k] == Attribute(norm(mem[k].value).value, mem[k].readOnly)
    else
      k in saved && saved[k] == Attribute(mem[k].value, mem[k].readOnly)
  }

  /** The only entry that can make a save fail. */
  ghost predicate HasSavableName(mem: ExtMap, norm: string -> Option<string>) {
    "name" in mem && mem["name"].updated && |mem["name"].value| > 50 ==> norm(mem["name"].value).Some?
  }

  lemma SavedEntryByEntry(stored: map<string, Attribute>, mem: ExtMap, norm: string -> Option<string>)
    ensures Normable(mem, norm) <==> HasSavableName(mem, norm)
    ensures Normable(mem, norm) ==> forall k :: IsSavedEntry(stored, mem, norm, SavedExt(stored, mem, norm), k)
  {
    assert Normable(mem, norm) ==> HasSavableName(mem, norm);
  }

  /** As long as normName shortens, no save writes a long name. */
  lemma WrittenNamesAreShort(stored: map<string, Attribute>, mem: ExtMap, norm: string -> Option<string>)
    requires forall s: string | norm(s).Some? :: |norm(s).value| <= 50
    requires Normable(mem, norm) && "name" in mem && mem["name"].updated
    ensures var saved := SavedExt(stored, mem, norm);
      "name" in saved ==> |saved["name"].value| <= 50
  {
    SavedEntryByEntry(stored, mem, norm);
    assert IsSavedEntry(stored, mem, norm, SavedExt(stored, mem, norm), "name");
  }

  // ---------- links ----------

  /** How often each link leads to dest. */
  ghost predicate AreLinksTo(links: multiset<LinkRow>, dest: string, m: multiset<AssetLink>) {
    forall l :: links[LinkRow(l, dest)] == m[l]
  }

  ghost predicate SourcesExist(t: Tables) {
    forall r | r in t.links :: r.link.source in t.rows
  }

  ghost predicate SourcesIn(m: multiset<AssetLink>, names: set<string>) {
    forall l | l in m :: l.source in names
  }

  lemma StoredSources(t: Tables, m: multiset<AssetLink>, dest: string)
    requires SourcesExist(t) && AreLinksTo(t.links, dest, m)
    ensures SourcesIn(m, t.rows.Keys)
  {
    forall l: AssetLink | l in m ensures l.source in t.rows {
      assert LinkRow(l, dest) in t.links;
    }
  }

  ghost predicate SameElsewhere(a: multiset<LinkRow>, b: multiset<LinkRow>, dest: string) {
    forall r: LinkRow | r.dest != dest :: a[r] == b[r]
  }

  // ---------- rows ----------

  predicate CanInsert(t: Tables, types: set<string>, subtypes: set<string>, a: Asset) {
    && a.name != "" && a.name != a.parent && a.name !in t.rows
    && (a.parent == "" || a.parent in t.rows)
    && a.assetType in types && a.subtype in subtypes
  }

  /** The statement asks for the tag under another name than the one it is given, so the tag stays empty. */
  function InsertedRow(a: Asset): Row {
    Row(a.parent, Nonactive, a.assetType, a.subtype, a.priority, "", a.secondaryId, map[])
  }

  predicate CanUpdate(t: Tables, a: Asset) {
    && a.name != "" && a.name != a.parent && a.name in t.rows
    && (a.parent == "" || a.parent in t.rows)
  }

  function UpdatedRow(row: Row, a: Asset): Row {
    row.(parent := a.parent, status := a.status, priority := a.priority, tag := a.tag, secondaryId := a.secondaryId)
  }

  /** The five columns an update writes, and the three it leaves alone. */
  ghost predicate IsUpdated(before: Row, after: Row, a: Asset) {
    && after.parent == a.parent && after.status == a.status && after.priority == a.priority
    && after.tag == a.tag && after.secondaryId == a.secondaryId
    && after.assetType == before.assetType && after.subtype == before.subtype && after.ext == before.ext
  }

  ghost predicate HasLinkFrom(links: multiset<LinkRow>, name: string) {
    exists r :: r in links && r.link.source == name
  }

  ghost predicate IsLast(t: Tables, name: string) {
    forall n | n in t.rows && n != name :: t.rows[n].assetType != TYPE_DATACENTER
  }

  ghost predicate IsFree(t: Tables, name: string) {
    && name in t.rows
    && (forall n | n in t.rows :: t.rows[n].parent != name)
    && (forall r | r in t.links :: r.dest != name && r.link.source != name)
  }

  function Without(order: seq<string>, name: string): seq<string> {
    if order == [] then [] else
      var n := order[|order| - 1];
      Without(order[..|order| - 1], name) + if n == name then [] else [n]
  }

  lemma {:induction false} WithoutIs(order: seq<string>, name: string)
    ensures forall n :: n in Without(order, name) <==> n in order && n != name
    ensures NoDuplicates(order) ==> NoDuplicates(Without(order, name))
  {
    if order != [] {
      var front, n := order[..|order| - 1], order[|order| - 1];
      WithoutIs(front, name);
      assert order == front + [n];
      if NoDuplicates(order) { assert n !in front; }
    }
  }

  /** What stays keeps its place. */
  lemma {:induction false} WithoutKeepsOrder(a: seq<string>, b: seq<string>, name: string)
    ensures Without(a + b, name) == Without(a, name) + Without(b, name)
    ensures name !in a ==> Without(a, name) == a
    decreases |a| + |b|
  {
    if b != [] {
      WithoutKeepsOrder(a, b[..|b| - 1], name);
      assert (a + b)[..|a + b| - 1] == a + b[..|b| - 1];
    } else {
      assert a + b == a;
      if a != [] {
        WithoutKeepsOrder(a[..|a| - 1], [], name);
        assert a == a[..|a| - 1] + [a[|a| - 1]];
      }
    }
  }

  class Db {
    var order: seq<string>
    var rows: map<string, Row>
    var links: multiset<LinkRow>
    const types: set<string>
    const subtypes: set<string>

    constructor (types: set<string>, subtypes: set<string>)
      ensures Now() == Tables([], map[], multiset{}) && Consistent(Now())
      ensures this.types == types && this.subtypes == subtypes
    {
      order, rows, links := [], map[], multiset{};
      this.types, this.subtypes := types, subtypes;
    }

    ghost function Now(): Tables
      reads this
    {
      Tables(order, rows, links)
    }

    /** Rows by id order, as the SELECT on id_parent returns them. */
    method GetChildren(name: string) returns (children: seq<string>)
      ensures children == ChildrenOf(Now(), name)
    {
      children := [];
      for i := 0 to |order|
        invariant children == ChildrenIn(rows, order[..i], name)
      {
        assert order[..i + 1][..i] == order[..i];
        if order[i] in rows && rows[order[i]].parent == name {
          children := children + [order[i]];
        }
      }
      assert order[..|order|] == order;
    }

    method HasLinkedAssets(name: string) returns (b: bool)
      ensures b <==> HasLinkFrom(links, name)
    {
      b := false;
      var todo := links;
      while |todo| > 0
        invariant todo <= links
        invariant b ==> HasLinkFrom(links, name)
        invariant HasLinkFrom(links, name) ==> b || HasLinkFrom(todo, name)
        decreases |todo|
      {
        var r :| r in todo;
        b := b || r.link.source == name;
        todo := todo - multiset{r};
      }
    }

    /** No other data center than this asset. */
    method IsLastDataCenter(name: string) returns (b: bool)
      ensures b <==> IsLast(Now(), name)
    {
      b := forall n | n in rows.Keys :: n != name ==> rows[n].assetType != TYPE_DATACENTER;
    }

    /** removeAsset: the foreign keys refuse to drop a row that is still a parent or a link end. */
    method RemoveAsset(name: string) returns (ok: bool)
      modifies this`order, this`rows
      ensures ok <==> IsFree(old(Now()), name)
      ensures order == if ok then Without(old(order), name) else old(order)
      ensures rows == if ok then old(rows) - {name} else old(rows)
    {
      ok := name in rows
        && (forall n | n in rows.Keys :: rows[n].parent != name)
        && (forall r | r in links :: r.dest != name && r.link.source != name);
      if ok {
        order, rows := Without(order, name), rows - {name};
      }
    }

    /** saveExtMap: only dirty entries reach the table, empty ones erase it. */
    method SaveExtMap(name: string, mem: ExtMap, norm: string -> Option<string>) returns (ok: bool)
      modifies this`rows
      ensures ok <==> name in old(rows) && HasSavableName(mem, norm)
      ensures rows == if ok then old(rows)[name := old(rows)[name].(ext := SavedExt(old(rows)[name].ext, mem, norm))]
                      else old(rows)
      ensures ok ==> forall k :: IsSavedEntry(old(rows)[name].ext, mem, norm, rows[name].ext, k)
    {
      if name !in rows {
        return false;
      }
      SavedEntryByEntry(rows[name].ext, mem, norm);
      var ext;
      ok, ext := SaveEntries(rows[name].ext, mem, norm);
      if ok {
        rows := rows[name := rows[name].(ext := ext)];
      }
    }

    /** insert: a new row, never active, whose parent must exist. */
    method Insert(a: Asset) returns (ok: bool)
      modifies this`order, this`rows
      ensures ok <==> CanInsert(old(Now()), types, subtypes, a)
      ensures order == if ok then old(order) + [a.name] else old(order)
      ensures rows == if ok then old(rows)[a.name := InsertedRow(a)] else old(rows)
      ensures ok ==>
        rows[a.name] == Row(a.parent, Nonactive, a.assetType, a.subtype, a.priority, "", a.secondaryId, map[])
    {
      if a.name == "" || a.name == a.parent {
        return false;
      }
      if a.parent != "" && a.parent !in rows {
        return false;
      }
      if a.assetType !in types || a.subtype !in subtypes || a.name in rows {
        return false;
      }
      order := order + [a.name];
      rows := rows[a.name := InsertedRow(a)];
      ok := true;
    }

    /** update: parent, status, priority, tag and secondary id; the parent must exist and differ. */
    method UpdateRow(a: Asset) returns (ok: bool)
      modifies this`rows
      ensures ok <==> CanUpdate(old(Now()), a)
      ensures rows == if ok then old(rows)[a.name := UpdatedRow(old(rows)[a.name], a)] else old(rows)
      ensures ok ==> IsUpdated(old(rows)[a.name], rows[a.name], a)
    {
      if a.name == "" || a.name == a.parent || a.name !in rows {
        return false;
      }
      if a.parent != "" && a.parent !in rows {
        return false;
      }
      rows := rows[a.name := UpdatedRow(rows[a.name], a)];
      ok := true;
    }

    /** The links that lead to dest, in some order. */
    method SelectLinksTo(dest: string) returns (s: seq<AssetLink>)
      ensures AreLinksTo(links, dest, multiset(s))
    {
      s := [];
      var todo := links;
      while |todo| > 0
        invariant forall l :: links[LinkRow(l, dest)] == multiset(s)[l] + todo[LinkRow(l, dest)]
        decreases |todo|
      {
        var r :| r in todo;
        todo := todo - multiset{r};
        if r.dest == dest {
          s := s + [r.link];
        }
      }
    }

    /** saveLink needs its source to exist. */
    method SaveLink(dest: string, l: AssetLink) returns (ok: bool)
      modifies this`links
      ensures ok <==> l.source in rows
      ensures links == if ok then old(links) + multiset{LinkRow(l, dest)} else old(links)
    {
      if l.source !in rows {
        return false;
      }
      links := links + multiset{LinkRow(l, dest)};
      ok := true;
    }

    /** removeLink drops one row with the same four fields, if there is one. */
    method RemoveLink(dest: string, l: AssetLink)
      modifies this`links
      ensures links == old(links) - multiset{LinkRow(l, dest)}
    {
      links := links - multiset{LinkRow(l, dest)};
    }

    /** saveLinkedAssets: keep the links both sides have, add the missing, remove the rest. */
    method SaveLinkedAssets(name: string, linked: seq<AssetLink>) returns (ok: bool)
      requires SourcesExist(Now())
      modifies this`links
      ensures ok <==> name in rows && SourcesIn(multiset(linked), rows.Keys)
      ensures SameElsewhere(links, old(links), name)
      ensures ok ==> AreLinksTo(links, name, multiset(linked))
    {
      if name !in rows {
        return false;
      }
      var toRemove := SelectLinksTo(name);
      ghost var existing := multiset(toRemove);
      StoredSources(Now(), existing, name);
      for i := 0 to |linked|
        invariant SourcesIn(multiset(linked[..i]), rows.Keys)
        invariant SameElsewhere(links, old(links), name)
        invariant multiset(toRemove) == existing - multiset(linked[..i])
        invariant AreLinksTo(links, name, existing + (multiset(linked[..i]) - existing))
      {
        PrefixGrows(linked, i);
        ok, toRemove := KeepOrSave(name, linked[i], toRemove, existing, multiset(linked[..i]));
        if !ok {
          assert linked[i] in multiset(linked);
          return;
        }
      }
      assert linked[..|linked|] == linked;
      NothingLeftOver(existing, multiset(linked));
      RemoveLinks(name, toRemove, existing + (multiset(linked) - existing));
      ok := true;
    }

    /** One link of the asset: keep its row if there still is one to keep, else add it. */
    method KeepOrSave(name: string, l: AssetLink, toRemove: seq<AssetLink>, ghost existing: multiset<AssetLink>,
            ghost m: multiset<AssetLink>)
      returns (ok: bool, rest: seq<AssetLink>)
      requires SourcesIn(existing, rows.Keys)
      requires multiset(toRemove) == existing - m
      requires AreLinksTo(links, name, existing + (m - existing))
      modifies this`links
      ensures ok <==> l.source in rows
      ensures SameElsewhere(links, old(links), name)
      ensures ok ==> multiset(rest) == existing - (m + multiset{l})
      ensures ok ==> AreLinksTo(links, name, existing + (m + multiset{l} - existing))
    {
      var found;
      found, rest := EraseFirst(toRemove, l);
      OneMoreLink(existing, m, l);
      if found {
        assert l in existing;
        ok := true;
      } else {
        LinkAdded(links, name, existing + (m - existing), l);
        ok := SaveLink(name, l);
      }
    }

    /** unlinkAll, and the last loop of saveLinkedAssets: one row goes for each link of s. */
    method RemoveLinks(dest: string, s: seq<AssetLink>, ghost before: multiset<AssetLink>)
      requires AreLinksTo(links, dest, before)
      modifies this`links
      ensures SameElsewhere(links, old(links), dest)
      ensures AreLinksTo(links, dest, before - multiset(s))
    {
      for j := 0 to |s|
        invariant SameElsewhere(links, old(links), dest)
        invariant AreLinksTo(links, dest, before - multiset(s[..j]))
      {
        PrefixGrows(s, j);
        RemoveLink(dest, s[j]);
      }
      assert s[..|s|] == s;
    }
  }

  lemma PrefixGrows<T>(s: seq<T>, i: nat)
    requires i < |s|
    ensures multiset(s[..i + 1]) == multiset(s[..i]) + multiset{s[i]}
    ensures forall x :: x in s[..i + 1] <==> x in s[..i] || x == s[i]
  {
    assert s[..i + 1] == s[..i] + [s[i]];
  }

  /** A link to keep leaves the table as it is; any other is one row more. */
  lemma OneMoreLink(e: multiset<AssetLink>, m: multiset<AssetLink>, l: AssetLink)
    ensures l in e - m ==>
      && e + (m + multiset{l} - e) == e + (m - e)
      && e - (m + multiset{l}) == e - m - multiset{l}
    ensures l !in e - m ==>
      && e + (m + multiset{l} - e) == e + (m - e) + multiset{l}
      && e - (m + multiset{l}) == e - m
  {
  }

  lemma NothingLeftOver(e: multiset<AssetLink>, m: multiset<AssetLink>)
    ensures e + (m - e) - (e - m) == m
  {
  }

  lemma LinkAdded(links: multiset<LinkRow>, dest: string, m: multiset<AssetLink>, l: AssetLink)
    requires AreLinksTo(links, dest, m)
    ensures AreLinksTo(links + multiset{LinkRow(l, dest)}, dest, m + multiset{l})
  {
  }

  /** The loop over the entries, on the attributes of one asset; an error rolls them back. */
  method SaveEntries(existing: map<string, Attribute>, mem: ExtMap, norm: string -> Option<string>)
    returns (ok: bool, ext: map<string, Attribute>)
    ensures ok <==> HasSavableName(mem, norm)
    ensures ok ==> ext == SavedExt(existing, mem, norm)
    ensures ok ==> forall k :: IsSavedEntry(existing, mem, norm, ext, k)
  {
    SavedEntryByEntry(existing, mem, norm);
    ext := existing;
    var toBeRemoved: set<string> := {};
    var todo := mem.Keys;
    ghost var done: set<string> := {};
    while todo != {}
      invariant todo == mem.Keys - done && done <= mem.Keys
      invariant ext == PartlySaved(existing, mem, norm, done)
      invariant toBeRemoved == ToErase(existing, mem, done)
      invariant forall k | k in done && NeedsNorm(k, mem[k]) :: norm(mem[k].value).Some?
      decreases todo
    {
      var k :| k in todo;
      var e := mem[k];
      OneMoreSaved(existing, mem, norm, done, k);
      if e.updated {
        if NeedsNorm(k, e) && norm(e.value).None? {
          return false, existing;
        }
        if e.value != "" {
          ext := ext[k := StoredAs(k, e, norm)];
        } else if k in existing {
          toBeRemoved := toBeRemoved + {k};
        }
      }
      todo, done := todo - {k}, done + {k};
    }
    AllSaved(existing, mem, norm);
    assert done == mem.Keys;
    ext := ext - toBeRemoved;
    ok := true;
  }

  function ChildrenIn(rows: map<string, Row>, order: seq<string>, name: string): seq<string> {
    if order == [] then [] else
      var n := order[|order| - 1];
      ChildrenIn(rows, order[..|order| - 1], name) + if n in rows && rows[n].parent == name then [n] else []
  }

  function ChildrenOf(t: Tables, name: string): seq<string> {
    ChildrenIn(t.rows, t.order, name)
  }

  /** find_if and erase. */
  method EraseFirst(s: seq<AssetLink>, l: AssetLink) returns (found: bool, r: seq<AssetLink>)
    ensures found <==> l in multiset(s)
    ensures multiset(r) == multiset(s) - multiset{l}
  {
    var i := 0;
    while i < |s| && s[i] != l
      invariant i <= |s| && l !in s[..i]
    {
      i := i + 1;
    }
    if i == |s| {
      assert s[..i] == s;
      return false, s;
    }
    EraseIsMinus(s, i);
    return true, s[..i] + s[i + 1..];
  }

  lemma EraseIsMinus<T>(s: seq<T>, i: nat)
    requires i < |s|
    ensures multiset(s[..i] + s[i + 1..]) == multiset(s) - multiset{s[i]}
  {
    assert s == s[..i] + [s[i]] + s[i + 1..];
  }
}
