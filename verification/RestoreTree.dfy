/** The order in which saved assets are restored, buildRestoreTree of
    server/src/asset-server.cc. */
module RestoreTree {
  import opened AssetModel
  import opened Forest
  import opened Sequences

  /** For each name the assets found to lie below it. */
  type Matrix = map<string, seq<string>>

  function ChildNames(v: seq<Asset>, x: string): seq<string> {
    if v == [] then [] else
      var last := v[|v| - 1];
      ChildNames(v[..|v| - 1], x) + if x != "" && last.parent == x then [last.name] else []
  }

  ghost function Nodes(v: seq<Asset>): set<string> {
    (set a | a in v :: a.name) + (set a | a in v && a.parent != "" :: a.parent)
  }

  lemma {:induction false} ChildNamesAre(v: seq<Asset>, x: string)
    ensures forall y :: y in ChildNames(v, x) <==> x != "" && exists a :: a in v && a.parent == x && a.name == y
    ensures DistinctNames(v) ==> NoDuplicates(ChildNames(v, x))
  {
    if v != [] {
      var w, last := v[..|v| - 1], v[|v| - 1];
      ChildNamesAre(w, x);
      assert v == w + [last];
      if DistinctNames(v) {
        assert forall a | a in w :: a.name != last.name;
        assert last.name !in ChildNames(w, x);
        assert NoDuplicates(ChildNames(w, x));
      }
    }
  }

  /** ancestorMatrix[name]: reading a missing key creates it with an empty list. */
  function WithNode(m: Matrix, x: string): Matrix {
    if x in m then m else m[x := []]
  }

  function WithChild(m: Matrix, x: string, child: string): Matrix {
    if x == "" then m else WithNode(m, x)[x := WithNode(m, x)[x] + [child]]
  }

  lemma NodesGrow(v: seq<Asset>, a: Asset)
    ensures Nodes(v + [a]) == Nodes(v) + {a.name} + if a.parent != "" then {a.parent} else {}
  {
    assert forall x | x in v + [a] :: x in v || x == a;
    forall x | x in Nodes(v) ensures x in Nodes(v + [a]) {
      if b :| b in v && b.name == x { assert b in v + [a]; }
      else { var b :| b in v && b.parent != "" && b.parent == x; assert b in v + [a]; }
    }
    assert a in v + [a];
  }

  lemma ChildNamesGrow(v: seq<Asset>, a: Asset, x: string)
    ensures ChildNames(v + [a], x) == ChildNames(v, x) + if x != "" && a.parent == x then [a.name] else []
    ensures x !in Nodes(v) ==> ChildNames(v, x) == []
  {
    assert (v + [a])[..|v|] == v;
    ChildNamesAre(v, x);
    if ChildNames(v, x) != [] {
      var y := ChildNames(v, x)[0];
      assert y in ChildNames(v, x);
    }
  }

  /** Whether or not a name already has a list, its list is right. */
  ghost predicate HasChildNames(v: seq<Asset>, m: Matrix) {
    forall x | x in m :: m[x] == ChildNames(v, x)
  }

  lemma NewNodesAreEmpty(v: seq<Asset>, m: Matrix, x: string)
    requires Nodes(v) <= m.Keys && HasChildNames(v, m)
    ensures HasChildNames(v, WithNode(m, x))
  {
    if x !in m {
      ChildNamesGrow(v, Asset(x, Unknown, "", "", 0, "", "", "", [], map[]), x);
    }
  }

  lemma KeysGrow(v: seq<Asset>, m: Matrix, a: Asset)
    requires m.Keys == Nodes(v)
    ensures WithChild(WithNode(m, a.name), a.parent, a.name).Keys == Nodes(v + [a])
  {
    NodesGrow(v, a);
  }

  lemma ListsGrow(v: seq<Asset>, m: Matrix, a: Asset)
    requires Nodes(v) <= m.Keys && HasChildNames(v, m)
    requires a.name in m && (a.parent == "" || a.parent in m)
    ensures HasChildNames(v + [a], WithChild(m, a.parent, a.name))
  {
    forall x | x in m ensures WithChild(m, a.parent, a.name)[x] == ChildNames(v + [a], x) {
      ChildNamesGrow(v, a, x);
    }
  }

  lemma OneMoreAsset(v: seq<Asset>, m: Matrix, a: Asset)
    requires m.Keys == Nodes(v) && HasChildNames(v, m)
    ensures HasChildNames(v + [a], WithChild(WithNode(m, a.name), a.parent, a.name))
  {
    var n := WithNode(m, a.name);
    NewNodesAreEmpty(v, m, a.name);
    NewNodesAreEmpty(v, n, a.parent);
    var o := WithNode(n, a.parent);
    ListsGrow(v, o, a);
    if a.parent != "" {
      assert WithChild(o, a.parent, a.name) == WithChild(n, a.parent, a.name);
    } else {
      ListsGrow(v, n, a);
    }
  }

  lemma OneMoreEntry(v: seq<Asset>, i: nat, m: Matrix)
    requires i < |v| && m.Keys == Nodes(v[..i]) && HasChildNames(v[..i], m)
    ensures var m' := WithChild(WithNode(m, v[i].name), v[i].parent, v[i].name);
      m'.Keys == Nodes(v[..i + 1]) && HasChildNames(v[..i + 1], m')
  {
    assert v[..i + 1] == v[..i] + [v[i]];
    OneMoreAsset(v[..i], m, v[i]);
    KeysGrow(v[..i], m, v[i]);
  }

  /** Saved parents are never their own descendants: some numbering grows downwards. */
  ghost predicate IsTreeRank(v: seq<Asset>, rank: map<string, nat>) {
    && Nodes(v) <= rank.Keys
    && forall a | a in v && a.parent != "" :: rank[a.parent] < rank[a.name]
  }

  ghost predicate Acyclic(v: seq<Asset>) {
    exists rank :: IsTreeRank(v, rank)
  }

  /** The direct children of every node. */
  method DirectChildren(v: seq<Asset>) returns (m: Matrix)
    ensures m.Keys == Nodes(v) && HasChildNames(v, m)
  {
    m := map[];
    for i := 0 to |v|
      invariant m.Keys == Nodes(v[..i]) && HasChildNames(v[..i], m)
    {
      OneMoreEntry(v, i, m);
      m := WithNode(m, v[i].name);
      m := WithChild(m, v[i].parent, v[i].name);
    }
    assert v[..|v|] == v;
  }

  /** One round of the closure: every node that lists id takes over id's list. */
  ghost function Inherit(m: Matrix, id: string): Matrix
    requires id in m
  {
    map x | x in m :: if id in m[x] then m[x] + m[id] else m[x]
  }

  /** The inner loop.  The list of id is read while the lists are extended, so
      id must not list itself. */
  method InheritFrom(m0: Matrix, id: string) returns (m: Matrix)
    requires id in m0 && id !in m0[id]
    ensures m == Inherit(m0, id)
  {
    m := m0;
    var todo := m.Keys;
    while todo != {}
      invariant todo <= m.Keys == m0.Keys
      invariant forall x | x in m :: m[x] == if x in todo then m0[x] else Inherit(m0, id)[x]
      decreases todo
    {
      var x :| x in todo;
      if id in m[x] {
        var list := m[x];
        for k := 0 to |m[id]|
          invariant list == m0[x] + m0[id][..k]
        {
          assert m0[id][..k + 1] == m0[id][..k] + [m0[id][k]];
          list := list + [m[id][k]];
        }
        assert m0[id][..|m0[id]|] == m0[id];
        m := m[x := list];
      }
      todo := todo - {x};
    }
  }

  ghost predicate Lower(rank: map<string, nat>, x: string, y: string) {
    x in rank && y in rank && rank[x] < rank[y]
  }

  ghost predicate Descends(m: Matrix, rank: map<string, nat>) {
    forall x | x in m :: forall y | y in m[x] :: Lower(rank, x, y)
  }

  /** Every parent lists each child and, once the child is processed, all it lists. */
  ghost predicate Dominates(v: seq<Asset>, m: Matrix, done: set<string>) {
    && m.Keys == Nodes(v)
    && forall c | c in v && c.parent != "" ::
         && c.name in m[c.parent]
         && (c.name in done ==> multiset{c.name} + multiset(m[c.name]) <= multiset(m[c.parent]))
  }

  lemma InheritKeepsDominance(v: seq<Asset>, m: Matrix, done: set<string>, id: string)
    requires Dominates(v, m, done) && id in m && id !in m[id]
    ensures Dominates(v, Inherit(m, id), done + {id})
  {
    var n := Inherit(m, id);
    forall c | c in v && c.parent != "" && c.name in done + {id}
      ensures multiset{c.name} + multiset(n[c.name]) <= multiset(n[c.parent])
    {
      if c.name != id && id in m[c.name] {
        assert id in multiset(m[c.parent]);
        assert id in m[c.parent];
      }
    }
  }

  lemma InheritKeepsDescent(m: Matrix, rank: map<string, nat>, id: string)
    requires Descends(m, rank) && id in m
    ensures Descends(Inherit(m, id), rank)
  {
    forall x, y | x in m && y in Inherit(m, id)[x] ensures Lower(rank, x, y) {
      if y !in m[x] {
        assert Lower(rank, x, id) && Lower(rank, id, y);
      }
    }
  }

  ghost predicate HasParents(v: seq<Asset>, p: map<string, string>) {
    p.Keys == (set a | a in v :: a.name) && forall a | a in v :: p[a.name] == a.parent
  }

  lemma ParentMapGrows(w: seq<Asset>, last: Asset, p: map<string, string>)
    requires HasParents(w, p) && DistinctNames(w + [last])
    ensures HasParents(w + [last], p[last.name := last.parent])
  {
    var v := w + [last];
    assert v[|w|] == last && forall i | 0 <= i < |w| :: v[i] == w[i];
    assert forall a | a in w :: a.name != last.name;
    assert forall a :: a in v <==> a in w || a == last;
    var more := p[last.name := last.parent];
    forall n ensures n in more <==> n in set a | a in v :: a.name {
      if n in p {
        var a :| a in w && a.name == n;
        assert a in v;
      }
    }
  }

  /** The saved parent of each saved asset. */
  ghost function ParentMap(v: seq<Asset>): (p: map<string, string>)
    requires DistinctNames(v)
    ensures HasParents(v, p)
  {
    if v == [] then map[] else
      var w, last := v[..|v| - 1], v[|v| - 1];
      assert v == w + [last];
      ParentMapGrows(w, last, ParentMap(w));
      ParentMap(w)[last.name := last.parent]
  }

  /** Saved assets with distinct, non-empty names whose parents form a forest. */
  ghost predicate SavedForest(v: seq<Asset>) {
    DistinctNames(v) && (forall a | a in v :: a.name != "") && IsForest(ParentMap(v))
  }

  /** y hangs below x on a path whose inner assets are all in done. */
  ghost predicate BelowThrough(p: map<string, string>, done: set<string>, x: string, y: string)
    requires IsForest(p) && y in p
    decreases Depth(p)[y]
  {
    p[y] != "" && (p[y] == x || (p[y] in p && p[y] in done && BelowThrough(p, done, x, p[y])))
  }

  /** Every list holds exactly the assets below its owner through done, each once. */
  ghost predicate ClosedThrough(v: seq<Asset>, m: Matrix, done: set<string>)
    requires SavedForest(v)
  {
    var p := ParentMap(v);
    && m.Keys == Nodes(v)
    && forall x | x in m ::
         && NoDuplicates(m[x])
         && (forall y :: y in m[x] <==> y in p && BelowThrough(p, done, x, y))
  }

  lemma {:induction false} BelowIsDeeper(p: map<string, string>, done: set<string>, x: string, y: string)
    requires IsForest(p) && x in p && y in p && BelowThrough(p, done, x, y)
    ensures Depth(p)[x] < Depth(p)[y]
    decreases Depth(p)[y]
  {
    if p[y] != x { BelowIsDeeper(p, done, x, p[y]); }
  }

  /** Opening id as an inner asset adds the paths that run through id, and only those. */
  lemma {:induction false} OneMoreInnerAsset(p: map<string, string>, done: set<string>, id: string, x: string,
          y: string)
    requires IsForest(p) && y in p && "" !in p && id !in done
    ensures BelowThrough(p, done + {id}, x, y)
      <==> BelowThrough(p, done, x, y) || (id in p && BelowThrough(p, done, x, id) && BelowThrough(p, done, id, y))
    decreases Depth(p)[y]
  {
    if p[y] in p {
      OneMoreInnerAsset(p, done, id, x, p[y]);
      if p[y] == id && BelowThrough(p, done, id, p[y]) { BelowIsDeeper(p, done, id, id); }
    }
  }

  /** The old and the new paths to y never coincide, so no name is listed twice. */
  lemma {:induction false} NewPathsAreNew(p: map<string, string>, done: set<string>, id: string, x: string, y: string)
    requires IsForest(p) && y in p && id in p && id !in done
    requires BelowThrough(p, done, x, id) && BelowThrough(p, done, id, y)
    ensures !BelowThrough(p, done, x, y)
    decreases Depth(p)[y]
  {
    if BelowThrough(p, done, x, y) {
      if p[y] == x {
        if x in p {
          BelowIsDeeper(p, done, x, id);
          if p[y] != id { BelowIsDeeper(p, done, id, x); }
        }
      } else if p[y] != id {
        NewPathsAreNew(p, done, id, x, p[y]);
      }
    }
  }

  lemma InheritKeepsClosure(v: seq<Asset>, m: Matrix, done: set<string>, id: string)
    requires SavedForest(v) && ClosedThrough(v, m, done)
    requires id in m && id !in done
    ensures ClosedThrough(v, Inherit(m, id), done + {id})
  {
    var p, n := ParentMap(v), Inherit(m, id);
    forall x | x in n
      ensures NoDuplicates(n[x])
    {
      if id in m[x] {
        forall y | y in m[id] ensures y !in m[x] {
          NewPathsAreNew(p, done, id, x, y);
        }
        NoDuplicatesInSum(m[x], m[id]);
      }
    }
    forall x, y | x in n
      ensures y in n[x] <==> y in p && BelowThrough(p, done + {id}, x, y)
    {
      assert y in n[x] <==> y in m[x] || (id in m[x] && y in m[id]);
      if y in p { OneMoreInnerAsset(p, done, id, x, y); }
    }
  }

  lemma {:induction false} BelowAllIsAbove(p: map<string, string>, all: set<string>, x: string, y: string)
    requires IsForest(p) && y in p && p.Keys <= all && x != ""
    requires "" !in p
    ensures BelowThrough(p, all, x, y) <==> Above(p, x, y)
    decreases Depth(p)[y]
  {
    if p[y] in p { BelowAllIsAbove(p, all, x, p[y]); }
  }

  /** Each node's list holds exactly its strict descendants, each once. */
  ghost predicate ListsDescendants(v: seq<Asset>, m: Matrix)
    requires SavedForest(v)
  {
    forall x | x in m && x != "" ::
      && NoDuplicates(m[x])
      && forall y :: y in m[x] <==> y in ParentMap(v) && Above(ParentMap(v), x, y)
  }

  /** What every round of the closure keeps. */
  ghost predicate RoundInvariant(v: seq<Asset>, rank: map<string, nat>, m: Matrix, done: set<string>) {
    && m.Keys == Nodes(v)
    && Descends(m, rank)
    && Dominates(v, m, done)
    && (SavedForest(v) ==> ClosedThrough(v, m, done))
  }

  lemma RoundStart(v: seq<Asset>, rank: map<string, nat>, m: Matrix)
    requires IsTreeRank(v, rank) && m.Keys == Nodes(v) && HasChildNames(v, m)
    ensures RoundInvariant(v, rank, m, {})
  {
    forall x | x in m
      ensures forall y :: y in m[x] <==> x != "" && exists a :: a in v && a.parent == x && a.name == y
      ensures DistinctNames(v) ==> NoDuplicates(m[x])
    {
      ChildNamesAre(v, x);
    }
    if SavedForest(v) {
      var p := ParentMap(v);
      forall x, y | x in m ensures y in m[x] <==> y in p && BelowThrough(p, {}, x, y) {
      }
    }
  }

  lemma RoundStep(v: seq<Asset>, rank: map<string, nat>, m: Matrix, done: set<string>, id: string)
    requires RoundInvariant(v, rank, m, done) && id in m && id !in done
    ensures id !in m[id] && RoundInvariant(v, rank, Inherit(m, id), done + {id})
  {
    assert id !in m[id] by { assert !Lower(rank, id, id); }
    InheritKeepsDescent(m, rank, id);
    InheritKeepsDominance(v, m, done, id);
    if SavedForest(v) { InheritKeepsClosure(v, m, done, id); }
  }

  lemma DominanceIsSize(v: seq<Asset>, m: Matrix)
    requires Dominates(v, m, m.Keys)
    ensures forall c | c in v && c.parent != "" :: |m[c.name]| < |m[c.parent]|
  {
    forall c | c in v && c.parent != "" ensures |m[c.name]| < |m[c.parent]| {
      var small, large := multiset{c.name} + multiset(m[c.name]), multiset(m[c.parent]);
      assert large == small + (large - small);
      assert |small| == 1 + |m[c.name]|;
    }
  }

  lemma ClosureIsDescendants(v: seq<Asset>, m: Matrix)
    requires SavedForest(v) && ClosedThrough(v, m, m.Keys)
    ensures ListsDescendants(v, m)
  {
    var p := ParentMap(v);
    forall x, y | x in m && y in p ensures y in m[x] <==> x != "" && Above(p, x, y) {
      if x != "" {
        BelowAllIsAbove(p, m.Keys, x, y);
      }
    }
  }

  /** The two nested loops: Warshall's closure on lists, in place, one node after
      the other in any order. */
  method AncestorMatrix(v: seq<Asset>) returns (m: Matrix)
    requires Acyclic(v)
    ensures m.Keys == Nodes(v)
    ensures forall c | c in v && c.parent != "" :: |m[c.name]| < |m[c.parent]|
    ensures SavedForest(v) ==> ListsDescendants(v, m)
  {
    m := DirectChildren(v);
    ghost var rank :| IsTreeRank(v, rank);
    RoundStart(v, rank, m);
    var todo := m.Keys;
    while todo != {}
      invariant todo <= Nodes(v) && RoundInvariant(v, rank, m, Nodes(v) - todo)
      decreases todo
    {
      var id :| id in todo;
      RoundStep(v, rank, m, Nodes(v) - todo, id);
      m := InheritFrom(m, id);
      assert Nodes(v) - (todo - {id}) == Nodes(v) - todo + {id};
      todo := todo - {id};
    }
    assert Nodes(v) - todo == m.Keys;
    DominanceIsSize(v, m);
    if SavedForest(v) { ClosureIsDescendants(v, m); }
  }

  ghost predicate SortedBy(s: seq<Asset>, key: Asset -> int) {
    forall i, j | 0 <= i < j < |s| :: key(s[i]) >= key(s[j])
  }

  method Insert(s: seq<Asset>, key: Asset -> int, a: Asset) returns (r: seq<Asset>)
    requires SortedBy(s, key)
    ensures SortedBy(r, key)
    ensures multiset(r) == multiset(s) + multiset{a}
  {
    var at := 0;
    while at < |s| && key(s[at]) >= key(a)
      invariant 0 <= at <= |s|
      invariant forall j | 0 <= j < at :: key(s[j]) >= key(a)
    {
      at := at + 1;
    }
    assert s == s[..at] + s[at..];
    r := s[..at] + [a] + s[at..];
  }

  /** What any sort by decreasing key achieves; the order of equal keys stays open. */
  method SortByDecreasing(v: seq<Asset>, key: Asset -> int) returns (s: seq<Asset>)
    ensures multiset(s) == multiset(v)
    ensures SortedBy(s, key)
  {
    s := [];
    for i := 0 to |v|
      invariant multiset(s) == multiset(v[..i])
      invariant SortedBy(s, key)
    {
      assert v[..i + 1] == v[..i] + [v[i]];
      s := Insert(s, key, v[i]);
    }
    assert v[..|v|] == v;
  }

  ghost predicate ParentsFirst(s: seq<Asset>) {
    forall i, j | 0 <= i < |s| && 0 <= j < |s| && s[j].parent != "" && s[i].name == s[j].parent :: i < j
  }

  /** Sorting by the number of listed descendants restores parents before children. */
  method BuildRestoreTree(v: seq<Asset>) returns (s: seq<Asset>)
    requires Acyclic(v)
    ensures multiset(s) == multiset(v)
    ensures ParentsFirst(s)
  {
    var m := AncestorMatrix(v);
    var size := (a: Asset) => if a.name in m then |m[a.name]| else 0;
    s := SortByDecreasing(v, size);
    forall i, j | 0 <= i < |s| && 0 <= j < |s| && s[j].parent != "" && s[i].name == s[j].parent
      ensures i < j
    {
      assert s[i] in multiset(s) && s[j] in multiset(s);
      assert size(s[i]) > size(s[j]);
    }
  }
}
