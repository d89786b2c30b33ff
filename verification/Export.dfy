/** The order of the rows of the CSV export, asset/src/manager/export.cpp. */
module Export {
  import opened AssetModel
  import opened Forest
  import opened Sequences

  datatype WebElement = WebElement(id: uint32, parentId: uint32)

  /** An element of the export with its children. */
  datatype Node = Node(id: uint32, children: seq<Node>)

  // ---------- the tree ----------

  /** Ids are the primary key and never 0. */
  ghost predicate HaveIds(elements: seq<WebElement>) {
    forall i, j | 0 <= i < |elements| && 0 <= j < |elements| ::
      elements[i].id != 0 && (i != j ==> elements[i].id != elements[j].id)
  }

  ghost function ParentMap(elements: seq<WebElement>): (p: map<uint32, uint32>)
    requires HaveIds(elements)
    ensures forall n :: n in p <==> exists i :: 0 <= i < |elements| && elements[i].id == n
    ensures forall i | 0 <= i < |elements| :: p[elements[i].id] == elements[i].parentId
  {
    if elements == [] then map[] else
      var front, last := elements[..|elements| - 1], elements[|elements| - 1];
      ParentMap(front)[last.id := last.parentId]
  }

  /** k steps up from y there is no parent. */
  ghost predicate IsLevel(p: map<uint32, uint32>, y: uint32, k: nat)
    decreases k
  {
    y in p && if k == 0 then p[y] == 0 else IsLevel(p, p[y], k - 1)
  }

  lemma {:induction false} LevelIsUnique(p: map<uint32, uint32>, y: uint32, k: nat, l: nat)
    requires 0 !in p && IsLevel(p, y, k) && IsLevel(p, y, l)
    ensures k == l
    decreases k
  {
    if k > 0 && l > 0 { LevelIsUnique(p, p[y], k - 1, l - 1); }
  }

  ghost predicate IsRooted(p: map<uint32, uint32>, y: uint32) {
    exists k: nat :: IsLevel(p, y, k)
  }

  ghost function Level(p: map<uint32, uint32>, y: uint32): (k: nat)
    requires IsRooted(p, y)
    ensures IsLevel(p, y, k)
  {
    var k: nat :| IsLevel(p, y, k); k
  }

  /** The elements whose chain of parents ends at no parent; a closed circle of parents is left out. */
  ghost function Rooted(p: map<uint32, uint32>): map<uint32, uint32> {
    map n | n in p && IsRooted(p, n) :: p[n]
  }

  lemma RootedIsForest(p: map<uint32, uint32>)
    requires 0 !in p
    ensures IsForest(Rooted(p))
    ensures forall n | n in p && (p[n] == 0 || p[n] in Rooted(p)) :: n in Rooted(p)
    ensures forall n | n in Rooted(p) :: p[n] == 0 || p[n] in Rooted(p)
  {
    var q := Rooted(p);
    var rank := map n | n in q :: Level(p, n);
    forall n | n in q && q[n] in q ensures rank[q[n]] < rank[n] {
      var k := Level(p, n);
      LevelIsUnique(p, p[n], k - 1, Level(p, p[n]));
    }
    RankedIsForest(q, rank);
    forall n | n in p && (p[n] == 0 || p[n] in q) ensures n in q {
      if p[n] == 0 {
        assert IsLevel(p, n, 0);
      } else {
        assert IsLevel(p, n, Level(p, p[n]) + 1);
      }
    }
    forall n | n in q ensures p[n] == 0 || p[n] in q {
      var k := Level(p, n);
      if p[n] != 0 { assert IsLevel(p, p[n], k - 1); }
    }
  }

  /** The ids of a list of nodes, each node before its children. */
  function Ids(nodes: seq<Node>): seq<uint32> {
    if nodes == [] then [] else
      var last := nodes[|nodes| - 1];
      Ids(nodes[..|nodes| - 1]) + [last.id] + Ids(last.children)
  }

  /** What createTree works on. */
  ghost predicate IsExport(elements: seq<WebElement>, p: map<uint32, uint32>) {
    HaveIds(elements) && p == Rooted(ParentMap(elements)) && IsForest(p)
  }

  ghost predicate IsPlace(p: map<uint32, uint32>, parent: uint32) {
    parent == 0 || parent in p
  }

  ghost function RoomBelow(p: map<uint32, uint32>, parent: uint32): int
    requires IsForest(p)
  {
    if parent in p then Height(p) - Depth(p)[parent] else Height(p) + 1
  }

  /** The elements with this parent among the first it. */
  ghost function KidsBefore(elements: seq<WebElement>, parent: uint32, it: nat): seq<uint32>
    requires it <= |elements|
  {
    if it == 0 then [] else
      KidsBefore(elements, parent, it - 1) + if elements[it - 1].parentId == parent then [elements[it - 1].id] else []
  }

  lemma {:induction false} KidsAre(elements: seq<WebElement>, parent: uint32, it: nat)
    requires HaveIds(elements) && it <= |elements|
    ensures NoDuplicates(KidsBefore(elements, parent, it))
    ensures forall n :: n in KidsBefore(elements, parent, it) <==>
      exists i :: 0 <= i < it && elements[i].id == n && elements[i].parentId == parent
  {
    if it > 0 {
      KidsAre(elements, parent, it - 1);
      assert elements[it - 1].id !in KidsBefore(elements, parent, it - 1);
    }
  }

  lemma AllKids(elements: seq<WebElement>, p: map<uint32, uint32>, parent: uint32)
    requires IsExport(elements, p) && IsPlace(p, parent)
    ensures AreChildren(p, parent, KidsBefore(elements, parent, |elements|))
    ensures forall c | c in KidsBefore(elements, parent, |elements|) ::
      c in p && 0 <= RoomBelow(p, c) < RoomBelow(p, parent)
  {
    var kids := KidsBefore(elements, parent, |elements|);
    var all := ParentMap(elements);
    KidsAre(elements, parent, |elements|);
    RootedIsForest(all);
    forall n ensures n in kids <==> n in p && p[n] == parent {
      if n in kids {
        var i :| 0 <= i < |elements| && elements[i].id == n && elements[i].parentId == parent;
        assert all[n] == parent;
      }
      if n in p && p[n] == parent {
        var i :| 0 <= i < |elements| && elements[i].id == n;
        assert all[n] == elements[i].parentId;
      }
    }
    assert BoundsDepth(p, Height(p));
  }

  lemma {:induction false} NothingBetween(elements: seq<WebElement>, parent: uint32, it: nat, to: nat)
    requires it <= to <= |elements| && forall j | it <= j < to :: elements[j].parentId != parent
    ensures KidsBefore(elements, parent, to) == KidsBefore(elements, parent, it)
  {
    if it < to { NothingBetween(elements, parent, it, to - 1); }
  }

  lemma {:induction false} KidsArePrefix(elements: seq<WebElement>, parent: uint32, it: nat)
    requires it <= |elements|
    ensures KidsBefore(elements, parent, it) <= KidsBefore(elements, parent, |elements|)
    decreases |elements| - it
  {
    if it < |elements| { KidsArePrefix(elements, parent, it + 1); }
  }

  /** How many children lie before position it. */
  ghost function Passed(elements: seq<WebElement>, parent: uint32, it: nat): (i: nat)
    requires it <= |elements|
    ensures i == |KidsBefore(elements, parent, it)| <= |Kids(elements, parent)|
  {
    KidsArePrefix(elements, parent, it);
    |KidsBefore(elements, parent, it)|
  }

  /** find_if: the next child of parent from it on, or the end. */
  method FindChild(elements: seq<WebElement>, parent: uint32, it: nat) returns (found: nat)
    requires it < |elements|
    ensures it <= found <= |elements|
    ensures found < |elements| ==> Passed(elements, parent, found + 1) == Passed(elements, parent, it) + 1
    ensures found < |elements| ==> Kids(elements, parent)[Passed(elements, parent, it)] == elements[found].id
    ensures found == |elements| ==> Passed(elements, parent, it + 1) == Passed(elements, parent, it)
  {
    found := it;
    while found < |elements| && elements[found].parentId != parent
      invariant it <= found <= |elements|
      invariant forall j | it <= j < found :: elements[j].parentId != parent
    {
      found := found + 1;
    }
    NothingBetween(elements, parent, it, found);
    if found < |elements| {
      KidsArePrefix(elements, parent, found + 1);
    } else {
      NothingBetween(elements, parent, it, it + 1);
    }
  }

  /** The first i siblings and all that is below them, each once. */
  ghost predicate AreUnderSome(p: map<uint32, uint32>, siblings: seq<uint32>, i: nat, ids: seq<uint32>)
    requires IsForest(p) && i <= |siblings|
  {
    NoDuplicates(ids) && forall y :: y in ids <==> y in p && UnderSome(p, siblings, i, y)
  }

  lemma OneMoreSibling(p: map<uint32, uint32>, parent: uint32, siblings: seq<uint32>, i: nat, found: seq<uint32>,
          below: seq<uint32>)
    requires IsForest(p) && AreChildren(p, parent, siblings) && i < |siblings|
    requires AreUnderSome(p, siblings, i, found)
    requires NoDuplicates(below) && forall y :: y in below <==> y in p && Above(p, siblings[i], y)
    ensures AreUnderSome(p, siblings, i + 1, found + [siblings[i]] + below)
  {
    assert siblings[i] in siblings;
    JoinSibling(p, parent, siblings, i, found, [siblings[i]], below);
    var all := found + [siblings[i]] + below;
    forall y ensures y in all <==> y in found || y == siblings[i] || y in below {
    }
  }

  lemma IdsOneMore(nodes: seq<Node>, ins: Node)
    ensures Ids(nodes + [ins]) == Ids(nodes) + [ins.id] + Ids(ins.children)
  {
    assert (nodes + [ins])[..|nodes|] == nodes;
  }

  /** The nodes for some siblings: their ids in order, and below each exactly what is below it. */
  ghost predicate AreNodesOf(p: map<uint32, uint32>, siblings: seq<uint32>, i: nat, nodes: seq<Node>)
    requires IsForest(p) && i <= |siblings|
  {
    && |nodes| == i
    && (forall j | 0 <= j < i :: nodes[j].id == siblings[j])
    && AreUnderSome(p, siblings, i, Ids(nodes))
    && (forall n | n in nodes :: IsSubTree(p, n.id, n.children))
  }

  lemma OneMoreNode(p: map<uint32, uint32>, parent: uint32, siblings: seq<uint32>, i: nat, nodes: seq<Node>, ins: Node)
    requires IsForest(p) && AreChildren(p, parent, siblings) && i < |siblings|
    requires AreNodesOf(p, siblings, i, nodes) && ins.id == siblings[i]
    requires IsSubTree(p, ins.id, ins.children)
    ensures AreNodesOf(p, siblings, i + 1, nodes + [ins])
  {
    IdsOneMore(nodes, ins);
    OneMoreSibling(p, parent, siblings, i, Ids(nodes), Ids(ins.children));
  }

  /** The children of parent, and the nodes made for the first i of them. */
  ghost function Kids(elements: seq<WebElement>, parent: uint32): seq<uint32> {
    KidsBefore(elements, parent, |elements|)
  }

  /** The nodes hold exactly what is below parent, each once; and so do their children in turn. */
  ghost predicate IsSubTree(p: map<uint32, uint32>, parent: uint32, nodes: seq<Node>)
    requires IsForest(p)
    decreases nodes
  {
    && NoDuplicates(Ids(nodes)) && (forall y :: y in Ids(nodes) <==> y in p && Above(p, parent, y))
    && forall n | n in nodes :: n.id in p && p[n.id] == parent && IsSubTree(p, n.id, n.children)
  }

  lemma KidIsPlace(elements: seq<WebElement>, p: map<uint32, uint32>, parent: uint32, i: nat)
    requires IsExport(elements, p) && IsPlace(p, parent) && i < |Kids(elements, parent)|
    ensures IsPlace(p, Kids(elements, parent)[i])
    ensures 0 <= RoomBelow(p, Kids(elements, parent)[i]) < RoomBelow(p, parent)
  {
    AllKids(elements, p, parent);
    assert Kids(elements, parent)[i] in Kids(elements, parent);
  }

  /** The nodes made by the time the loop has come to position it. */
  ghost predicate AreNodesUpTo(elements: seq<WebElement>, p: map<uint32, uint32>, parent: uint32, it: nat,
          nodes: seq<Node>)
    requires IsForest(p)
  {
    it <= |elements| && AreNodesOf(p, Kids(elements, parent), Passed(elements, parent, it), nodes)
  }

  lemma OneMoreKid(elements: seq<WebElement>, p: map<uint32, uint32>, parent: uint32, it: nat, found: nat,
          nodes: seq<Node>, ins: Node)
    requires IsExport(elements, p) && IsPlace(p, parent) && it <= found < |elements|
    requires Passed(elements, parent, found + 1) == Passed(elements, parent, it) + 1
    requires AreNodesUpTo(elements, p, parent, it, nodes)
    requires ins.id == elements[found].id == Kids(elements, parent)[Passed(elements, parent, it)]
    requires IsSubTree(p, ins.id, ins.children)
    ensures AreNodesUpTo(elements, p, parent, found + 1, nodes + [ins])
  {
    AllKids(elements, p, parent);
    OneMoreNode(p, parent, Kids(elements, parent), Passed(elements, parent, it), nodes, ins);
  }

  lemma NoMoreKid(elements: seq<WebElement>, p: map<uint32, uint32>, parent: uint32, it: nat, nodes: seq<Node>)
    requires IsForest(p) && it < |elements| && AreNodesUpTo(elements, p, parent, it, nodes)
    requires Passed(elements, parent, it + 1) == Passed(elements, parent, it)
    ensures AreNodesUpTo(elements, p, parent, it + 1, nodes)
  {
  }

  lemma AllNodes(elements: seq<WebElement>, p: map<uint32, uint32>, parent: uint32, nodes: seq<Node>)
    requires IsExport(elements, p) && IsPlace(p, parent)
    requires AreNodesUpTo(elements, p, parent, |elements|, nodes)
    ensures IsSubTree(p, parent, nodes)
  {
    var kids := Kids(elements, parent);
    AllKids(elements, p, parent);
    UnderAllSiblings(p, parent, kids);
    forall n | n in nodes ensures n.id in p && p[n.id] == parent {
      var j :| 0 <= j < |nodes| && nodes[j] == n;
      assert kids[j] in kids;
    }
  }

  /** createTree: the nodes below parent hold every element below it, each once. */
  method CreateTree(elements: seq<WebElement>, parent: uint32, ghost p: map<uint32, uint32>)
    returns (children: seq<Node>)
    requires IsExport(elements, p) && IsPlace(p, parent)
    ensures IsSubTree(p, parent, children)
    decreases RoomBelow(p, parent), 2
  {
    children := [];
    var it := 0;
    while it < |elements|
      invariant AreNodesUpTo(elements, p, parent, it, children)
    {
      it, children := InsertNext(elements, parent, p, it, children);
    }
    AllNodes(elements, p, parent, children);
  }

  /** One turn: find the next child and insert it with all that is below it. */
  method InsertNext(elements: seq<WebElement>, parent: uint32, ghost p: map<uint32, uint32>, it: nat, nodes: seq<Node>)
    returns (it': nat, nodes': seq<Node>)
    requires IsExport(elements, p) && IsPlace(p, parent) && it < |elements|
    requires AreNodesUpTo(elements, p, parent, it, nodes)
    ensures it < it' && AreNodesUpTo(elements, p, parent, it', nodes')
    decreases RoomBelow(p, parent), 1
  {
    var found := FindChild(elements, parent, it);
    if found < |elements| {
      nodes' := InsertFound(elements, parent, p, it, found, nodes);
      it' := found + 1;
    } else {
      NoMoreKid(elements, p, parent, it, nodes);
      it', nodes' := it + 1, nodes;
    }
  }

  method InsertFound(elements: seq<WebElement>, parent: uint32, ghost p: map<uint32, uint32>, ghost it: nat,
          found: nat, nodes: seq<Node>)
    returns (nodes': seq<Node>)
    requires IsExport(elements, p) && IsPlace(p, parent) && it <= found < |elements|
    requires Passed(elements, parent, found + 1) == Passed(elements, parent, it) + 1
    requires elements[found].id == Kids(elements, parent)[Passed(elements, parent, it)]
    requires AreNodesUpTo(elements, p, parent, it, nodes)
    ensures AreNodesUpTo(elements, p, parent, found + 1, nodes')
    decreases RoomBelow(p, parent), 0
  {
    KidIsPlace(elements, p, parent, Passed(elements, parent, it));
    var below := CreateTree(elements, elements[found].id, p);
    var ins := Node(elements[found].id, below);
    OneMoreKid(elements, p, parent, it, found, nodes, ins);
    nodes' := nodes + [ins];
  }

  // ---------- the links ----------

  /** findElement, for the children of a list of nodes. */
  method FindElement(id: uint32, nodes: seq<Node>) returns (found: bool)
    ensures found <==> id in Ids(nodes)
  {
    for i := 0 to |nodes|
      invariant id !in Ids(nodes[..i])
    {
      assert nodes[..i + 1][..i] == nodes[..i];
      var below := FindElement(id, nodes[i].children);
      if nodes[i].id == id || below {
        PrefixIds(nodes, i + 1);
        return true;
      }
    }
    assert nodes[..|nodes|] == nodes;
    found := false;
  }

  lemma {:induction false} PrefixIds(nodes: seq<Node>, i: nat)
    requires i <= |nodes|
    ensures forall y | y in Ids(nodes[..i]) :: y in Ids(nodes)
    decreases |nodes| - i
  {
    if i == |nodes| {
      assert nodes[..i] == nodes;
    } else {
      assert nodes[..i + 1][..i] == nodes[..i];
      PrefixIds(nodes, i + 1);
    }
  }

  /** The power sources of an element, when their query works. */
  type Sources = map<uint32, seq<uint32>>

  ghost predicate AreLinks(sources: Sources, all: seq<Node>, id: uint32, links: seq<uint32>) {
    forall s :: s in links <==> id in sources && s in sources[id] && s in Ids(all)
  }

  method LinksOfElement(id: uint32, all: seq<Node>, sources: Sources) returns (links: seq<uint32>)
    ensures AreLinks(sources, all, id, links)
  {
    links := [];
    if id in sources {
      var powerLinks := sources[id];
      for i := 0 to |powerLinks|
        invariant forall s :: s in links <==> s in powerLinks[..i] && s in Ids(all)
      {
        assert powerLinks[..i + 1] == powerLinks[..i] + [powerLinks[i]];
        var found := FindElement(powerLinks[i], all);
        if found {
          links := links + [powerLinks[i]];
        }
      }
      assert powerLinks[..|powerLinks|] == powerLinks;
    }
  }

  ghost predicate AreAllLinks(sources: Sources, all: seq<Node>, ids: seq<uint32>, links: map<uint32, seq<uint32>>) {
    links.Keys == Elements(ids) && forall id | id in links :: AreLinks(sources, all, id, links[id])
  }

  /** collectLinks: only sources that are exported too become links. */
  method CollectLinks(nodes: seq<Node>, all: seq<Node>, sources: Sources) returns (links: map<uint32, seq<uint32>>)
    ensures AreAllLinks(sources, all, Ids(nodes), links)
  {
    links := map[];
    for i := 0 to |nodes|
      invariant AreAllLinks(sources, all, Ids(nodes[..i]), links)
    {
      assert nodes[..i + 1][..i] == nodes[..i];
      var own := LinksOfElement(nodes[i].id, all, sources);
      var below := CollectLinks(nodes[i].children, all, sources);
      links := links[nodes[i].id := own] + below;
    }
    assert nodes[..|nodes|] == nodes;
  }

  // ---------- the rows ----------

  /** Each element by its id, as the element pointers find it. */
  function Index(nodes: seq<Node>): map<uint32, Node> {
    if nodes == [] then map[] else
      var last := nodes[|nodes| - 1];
      Index(nodes[..|nodes| - 1]) + map[last.id := last] + Index(last.children)
  }

  ghost predicate AreIndexed(m: map<uint32, Node>, nodes: seq<Node>) {
    forall n | n in nodes :: n.id in m && m[n.id] == n
  }

  /** An index finds each node under its own id, and its children too. */
  ghost predicate IsIndex(m: map<uint32, Node>) {
    forall id | id in m :: m[id].id == id && AreIndexed(m, m[id].children)
  }

  ghost predicate Extends(m: map<uint32, Node>, a: map<uint32, Node>) {
    forall id | id in a :: id in m && m[id] == a[id]
  }

  lemma StillIndexed(m: map<uint32, Node>, a: map<uint32, Node>, nodes: seq<Node>)
    requires Extends(m, a) && AreIndexed(a, nodes)
    ensures AreIndexed(m, nodes)
  {
  }

  lemma JoinedIndex(m: map<uint32, Node>, a: map<uint32, Node>, c: map<uint32, Node>, last: Node)
    requires IsIndex(a) && IsIndex(c) && Extends(m, a) && Extends(m, c) && Extends(m, map[last.id := last])
    requires m.Keys == a.Keys + {last.id} + c.Keys && AreIndexed(c, last.children)
    ensures IsIndex(m)
  {
    forall id | id in m ensures m[id].id == id && AreIndexed(m, m[id].children) {
      if id in a {
        StillIndexed(m, a, a[id].children);
      } else if id in c {
        StillIndexed(m, c, c[id].children);
      } else {
        StillIndexed(m, c, last.children);
      }
    }
  }

  lemma {:induction false} IndexIs(nodes: seq<Node>)
    requires NoDuplicates(Ids(nodes))
    ensures Index(nodes).Keys == Elements(Ids(nodes))
    ensures IsIndex(Index(nodes)) && AreIndexed(Index(nodes), nodes)
  {
    if nodes != [] {
      var front, last := nodes[..|nodes| - 1], nodes[|nodes| - 1];
      PartsOnce(Ids(front), [last.id], Ids(last.children));
      IndexIs(front);
      IndexIs(last.children);
      var a, c := Index(front), Index(last.children);
      SumIndex(a, c, last, Ids(front), Ids(last.children));
      IndexedInOrder(a + map[last.id := last] + c, a, nodes);
    }
  }

  lemma SumIndex(a: map<uint32, Node>, c: map<uint32, Node>, last: Node, aIds: seq<uint32>, cIds: seq<uint32>)
    requires a.Keys == Elements(aIds) && c.Keys == Elements(cIds)
    requires IsIndex(a) && IsIndex(c) && AreIndexed(c, last.children)
    requires (forall x | x in aIds :: x != last.id && x !in cIds) && last.id !in cIds
    ensures var m := a + map[last.id := last] + c;
      m.Keys == Elements(aIds + [last.id] + cIds) && IsIndex(m) && Extends(m, a) && Extends(m, map[last.id := last])
  {
    var m := a + map[last.id := last] + c;
    assert forall id | id in a :: id in Elements(aIds);
    assert forall id | id in c :: id in Elements(cIds);
    JoinedIndex(m, a, c, last);
  }

  lemma IndexedInOrder(m: map<uint32, Node>, a: map<uint32, Node>, nodes: seq<Node>)
    requires nodes != [] && Extends(m, a) && AreIndexed(a, nodes[..|nodes| - 1])
    requires Extends(m, map[nodes[|nodes| - 1].id := nodes[|nodes| - 1]])
    ensures AreIndexed(m, nodes)
  {
    assert nodes == nodes[..|nodes| - 1] + [nodes[|nodes| - 1]];
  }

  lemma PartsOnce(a: seq<uint32>, b: seq<uint32>, c: seq<uint32>)
    requires NoDuplicates(a + b + c)
    ensures NoDuplicates(a) && NoDuplicates(c)
    ensures forall x | x in a :: x !in b && x !in c
    ensures forall x | x in b :: x !in c
  {
    var s := a + b + c;
    forall i, j | 0 <= i < j < |a| ensures a[i] != a[j] {
      assert s[i] == a[i] && s[j] == a[j];
    }
    forall i, j | 0 <= i < j < |c| ensures c[i] != c[j] {
      assert s[|a + b| + i] == c[i] && s[|a + b| + j] == c[j];
    }
    forall x | x in a ensures x !in b && x !in c {
      var i :| 0 <= i < |a| && a[i] == x;
      assert s[i] == x;
      forall j | 0 <= j < |b| ensures b[j] != x { assert s[|a| + j] == b[j]; }
      forall j | 0 <= j < |c| ensures c[j] != x { assert s[|a + b| + j] == c[j]; }
    }
    forall x | x in b ensures x !in c {
      var i :| 0 <= i < |b| && b[i] == x;
      assert s[|a| + i] == x;
      forall j | 0 <= j < |c| ensures c[j] != x { assert s[|a + b| + j] == c[j]; }
    }
  }

  function ChildIds(node: Node): seq<uint32> {
    seq(|node.children|, i requires 0 <= i < |node.children| => node.children[i].id)
  }

  /** Neither links nor children ever lead back. */
  ghost predicate IsVisitRank(p: map<uint32, uint32>, index: map<uint32, Node>, links: map<uint32, seq<uint32>>,
          rank: map<uint32, nat>)
  {
    && index.Keys == links.Keys && index.Keys <= rank.Keys
    && forall id | id in index ::
         && (forall s | s in links[id] :: s in index && rank[s] < rank[id])
         && (forall c | c in ChildIds(index[id]) :: c in index && rank[c] < rank[id] && c in p && p[c] == id)
  }

  /** Each row comes after the rows of its power sources. */
  ghost predicate SourcesFirst(links: map<uint32, seq<uint32>>, rows: seq<uint32>) {
    forall i | 0 <= i < |rows| :: rows[i] in links && forall s | s in links[rows[i]] :: s in rows[..i]
  }

  ghost predicate IsLinked(links: map<uint32, seq<uint32>>, id: uint32) {
    exists y :: y in links && id in links[y]
  }

  /** A row follows the row of its location, unless a consumer has called for it. */
  ghost predicate MayCome(p: map<uint32, uint32>, links: map<uint32, seq<uint32>>, rows: seq<uint32>, id: uint32) {
    id in p && (p[id] == 0 || p[id] in rows || IsLinked(links, id))
  }

  ghost predicate ComeInOrder(p: map<uint32, uint32>, links: map<uint32, seq<uint32>>, rows: seq<uint32>) {
    forall i | 0 <= i < |rows| :: MayCome(p, links, rows[..i], rows[i])
  }

  ghost predicate AllMayCome(p: map<uint32, uint32>, links: map<uint32, seq<uint32>>, rows: seq<uint32>,
          ids: seq<uint32>)
  {
    forall x | x in ids :: MayCome(p, links, rows, x)
  }

  lemma StillMayCome(p: map<uint32, uint32>, links: map<uint32, seq<uint32>>, rows: seq<uint32>, after: seq<uint32>,
          ids: seq<uint32>)
    requires rows <= after && AllMayCome(p, links, rows, ids)
    ensures AllMayCome(p, links, after, ids)
  {
    assert forall x | x in rows :: x in after;
  }

  lemma LinksMayCome(p: map<uint32, uint32>, index: map<uint32, Node>, links: map<uint32, seq<uint32>>,
          rank: map<uint32, nat>, rows: seq<uint32>, id: uint32)
    requires IsVisitRank(p, index, links, rank) && id in index && index.Keys <= p.Keys
    ensures AllMayCome(p, links, rows, links[id])
  {
  }

  lemma ChildrenMayCome(p: map<uint32, uint32>, index: map<uint32, Node>, links: map<uint32, seq<uint32>>,
          rank: map<uint32, nat>, rows: seq<uint32>, id: uint32)
    requires IsVisitRank(p, index, links, rank) && id in index && id in rows
    ensures AllMayCome(p, links, rows, ChildIds(index[id]))
  {
  }

  lemma ComeInOrderOneMore(p: map<uint32, uint32>, links: map<uint32, seq<uint32>>, rows: seq<uint32>, id: uint32)
    requires ComeInOrder(p, links, rows) && MayCome(p, links, rows, id)
    ensures ComeInOrder(p, links, rows + [id])
  {
    var after := rows + [id];
    forall i | 0 <= i < |after| ensures MayCome(p, links, after[..i], after[i]) {
      if i < |rows| {
        assert after[..i] == rows[..i];
      } else {
        assert after[..i] == rows;
      }
    }
  }

  /** Rows are written for the exported elements and for those whose visit is still open. */
  ghost predicate IsConsistent(index: map<uint32, Node>, links: map<uint32, seq<uint32>>, isExported: set<uint32>,
          rows: seq<uint32>, open: set<uint32>)
  {
    && NoDuplicates(rows) && SourcesFirst(links, rows)
    && (forall x :: x in rows <==> x in isExported || x in open)
    && (forall x | x in isExported :: x in index && forall c | c in ChildIds(index[x]) :: c in isExported)
  }

  lemma OneMoreRow(index: map<uint32, Node>, links: map<uint32, seq<uint32>>, isExported: set<uint32>,
          rows: seq<uint32>, open: set<uint32>, id: uint32)
    requires IsConsistent(index, links, isExported, rows, open)
    requires id in links && id !in isExported && id !in open
    requires forall s | s in links[id] :: s in isExported
    ensures IsConsistent(index, links, isExported, rows + [id], open + {id})
  {
    var after := rows + [id];
    forall i | 0 <= i < |after| ensures after[i] in links && forall s | s in links[after[i]] :: s in after[..i] {
      if i < |rows| {
        assert after[..i] == rows[..i];
      } else {
        assert after[..i] == rows;
      }
    }
  }

  lemma CloseRow(index: map<uint32, Node>, links: map<uint32, seq<uint32>>, isExported: set<uint32>,
          rows: seq<uint32>, open: set<uint32>, id: uint32)
    requires IsConsistent(index, links, isExported, rows, open + {id})
    requires id in index && forall c | c in ChildIds(index[id]) :: c in isExported
    ensures IsConsistent(index, links, isExported + {id}, rows, open)
  {
  }

  /** No row that fails has been written. */
  ghost predicate CanBeWritten(fails: uint32 -> bool, rows: seq<uint32>) {
    forall x | x in rows :: !fails(x)
  }

  class Exporter {
    ghost const p: map<uint32, uint32>
    const index: map<uint32, Node>
    const links: map<uint32, seq<uint32>>
    const fails: uint32 -> bool
    var isExported: set<uint32>
    var rows: seq<uint32>

    constructor (ghost p: map<uint32, uint32>, index: map<uint32, Node>, links: map<uint32, seq<uint32>>,
            fails: uint32 -> bool)
      ensures this.p == p && this.index == index && this.links == links && this.fails == fails
      ensures isExported == {} && rows == []
    {
      this.p := p;
      this.index, this.links, this.fails := index, links, fails;
      isExported, rows := {}, [];
    }

    ghost predicate Valid(open: set<uint32>, rank: map<uint32, nat>)
      reads this`isExported, this`rows
    {
      && IsVisitRank(p, index, links, rank) && index.Keys <= p.Keys
      && IsConsistent(index, links, isExported, rows, open) && ComeInOrder(p, links, rows)
      && CanBeWritten(fails, rows)
    }

    /** exportRow: the links, the row, the children, and only then the flag. */
    method ExportRow(id: uint32, ghost open: set<uint32>, ghost rank: map<uint32, nat>) returns (ok: bool)
      requires Valid(open, rank) && id in index && IsAbove(open, rank, rank[id]) && MayCome(p, links, rows, id)
      modifies this`isExported, this`rows
      ensures ok ==> Valid(open, rank) && id in isExported && old(isExported) <= isExported && old(rows) <= rows
      ensures ok ==> IsBelow(isExported - old(isExported), rank, rank[id] + 1)
      ensures (forall x | x in index :: !fails(x)) ==> ok
      decreases rank[id], 3
    {
      if id in isExported {
        return true;
      }
      LinksMayCome(p, index, links, rank, rows, id);
      ok := ExportEach(links[id], open, rank, rank[id]);
      if !ok {
        return;
      }
      StillMayCome(p, links, old(rows), rows, [id]);
      ok := WriteRow(id, open, rank);
    }

    /** The rest of exportRow, once all links are exported. */
    method WriteRow(id: uint32, ghost open: set<uint32>, ghost rank: map<uint32, nat>) returns (ok: bool)
      requires Valid(open, rank) && id in index && IsAbove(open, rank, rank[id]) && MayCome(p, links, rows, id)
      requires id !in isExported && forall s | s in links[id] :: s in isExported
      modifies this`isExported, this`rows
      ensures ok ==> Valid(open, rank) && id in isExported && old(isExported) <= isExported && old(rows) <= rows
      ensures ok ==> IsBelow(isExported - old(isExported), rank, rank[id] + 1)
      ensures (forall x | x in index :: !fails(x)) ==> ok
      decreases rank[id], 2
    {
      if fails(id) {
        return false;
      }
      OneMoreRow(index, links, isExported, rows, open, id);
      ComeInOrderOneMore(p, links, rows, id);
      rows := rows + [id];
      ok := FinishRow(id, open, rank);
    }

    /** The children, and the flag. */
    method FinishRow(id: uint32, ghost open: set<uint32>, ghost rank: map<uint32, nat>) returns (ok: bool)
      requires Valid(open + {id}, rank) && id in index && id in rows && IsAbove(open, rank, rank[id])
      modifies this`isExported, this`rows
      ensures ok ==> Valid(open, rank) && id in isExported && old(isExported) <= isExported && old(rows) <= rows
      ensures ok ==> IsBelow(isExported - old(isExported), rank, rank[id] + 1)
      ensures (forall x | x in index :: !fails(x)) ==> ok
      decreases rank[id], 1
    {
      ChildrenMayCome(p, index, links, rank, rows, id);
      ok := ExportEach(ChildIds(index[id]), open + {id}, rank, rank[id]);
      if !ok {
        return;
      }
      CloseRow(index, links, isExported, rows, open, id);
      isExported := isExported + {id};
    }

    method ExportEach(ids: seq<uint32>, ghost open: set<uint32>, ghost rank: map<uint32, nat>, ghost bound: nat)
      returns (ok: bool)
      requires Valid(open, rank) && IsAbove(open, rank, bound - 1)
      requires AllMayCome(p, links, rows, ids) && forall x | x in ids :: x in index && rank[x] < bound
      modifies this`isExported, this`rows
      ensures ok ==> Valid(open, rank) && old(isExported) <= isExported && old(rows) <= rows
      ensures ok ==> forall x | x in ids :: x in isExported
      ensures ok ==> IsBelow(isExported - old(isExported), rank, bound)
      ensures (forall x | x in index :: !fails(x)) ==> ok
      decreases bound, 0
    {
      for i := 0 to |ids|
        invariant Valid(open, rank) && old(isExported) <= isExported && old(rows) <= rows
        invariant AreFirstIn(ids, i, isExported)
        invariant IsBelow(isExported - old(isExported), rank, bound)
      {
        assert ids[i] in ids;
        StillMayCome(p, links, old(rows), rows, ids);
        ghost var before := isExported;
        ok := ExportRow(ids[i], open, rank);
        if !ok {
          return;
        }
        OneMoreIn(ids, i, before, isExported);
      }
      ok := true;
    }
  }

  ghost predicate IsAbove(open: set<uint32>, rank: map<uint32, nat>, bound: int) {
    forall x | x in open :: x in rank && rank[x] > bound
  }

  ghost predicate IsBelow(ids: set<uint32>, rank: map<uint32, nat>, bound: nat) {
    forall x | x in ids :: x in rank && rank[x] < bound
  }

  // ---------- the whole export ----------

  /** Power sources and children never lead back. */
  ghost predicate IsUnionRank(p: map<uint32, uint32>, sources: Sources, rank: map<uint32, nat>) {
    && p.Keys <= rank.Keys
    && (forall c | c in p && p[c] in p :: rank[c] < rank[p[c]])
    && (forall id, s | id in p && id in sources && s in sources[id] && s in p :: rank[s] < rank[id])
  }

  lemma {:induction false} RankFalls(p: map<uint32, uint32>, sources: Sources, rank: map<uint32, nat>, a: uint32,
          y: uint32)
    requires IsForest(p) && IsUnionRank(p, sources, rank) && a in p && y in p && Above(p, a, y)
    ensures rank[y] < rank[a]
    decreases Depth(p)[y]
  {
    if p[y] != a { RankFalls(p, sources, rank, a, p[y]); }
  }

  lemma {:induction false} IndexedAreSubTrees(p: map<uint32, uint32>, nodes: seq<Node>)
    requires IsForest(p) && forall n | n in nodes :: IsSubTree(p, n.id, n.children)
    ensures HoldsSubTrees(p, Index(nodes))
  {
    if nodes != [] {
      var front, last := nodes[..|nodes| - 1], nodes[|nodes| - 1];
      assert last in nodes;
      IndexedAreSubTrees(p, front);
      IndexedAreSubTrees(p, last.children);
      JoinedSubTrees(p, Index(front), Index(last.children), last);
    }
  }

  ghost predicate HoldsSubTrees(p: map<uint32, uint32>, m: map<uint32, Node>)
    requires IsForest(p)
  {
    forall id | id in m :: IsSubTree(p, m[id].id, m[id].children)
  }

  lemma JoinedSubTrees(p: map<uint32, uint32>, a: map<uint32, Node>, c: map<uint32, Node>, last: Node)
    requires IsForest(p) && HoldsSubTrees(p, a) && HoldsSubTrees(p, c) && IsSubTree(p, last.id, last.children)
    ensures HoldsSubTrees(p, a + map[last.id := last] + c)
  {
  }

  lemma {:induction false} NodeIdsAreIds(nodes: seq<Node>, n: Node)
    requires n in nodes
    ensures n.id in Ids(nodes)
  {
    if n != nodes[|nodes| - 1] {
      assert n in nodes[..|nodes| - 1];
      NodeIdsAreIds(nodes[..|nodes| - 1], n);
    }
  }

  /** The tree of the whole export. */
  ghost predicate IsWholeTree(p: map<uint32, uint32>, nodes: seq<Node>) {
    IsForest(p) && IsSubTree(p, 0, nodes) && Elements(Ids(nodes)) == p.Keys
  }

  lemma ChildHasLowerRank(p: map<uint32, uint32>, sources: Sources, nodes: seq<Node>, rank: map<uint32, nat>,
          id: uint32, c: uint32)
    requires IsWholeTree(p, nodes) && IsUnionRank(p, sources, rank)
    requires id in Index(nodes) && c in ChildIds(Index(nodes)[id])
    ensures c in Index(nodes) && id in p && c in p && p[c] == id && rank[c] < rank[id]
  {
    var index := Index(nodes);
    IndexIs(nodes);
    IndexedAreSubTrees(p, nodes);
    var i :| 0 <= i < |index[id].children| && index[id].children[i].id == c;
    NodeIdsAreIds(index[id].children, index[id].children[i]);
    assert IsSubTree(p, id, index[id].children);
    RankFalls(p, sources, rank, id, c);
  }

  lemma LinkHasLowerRank(p: map<uint32, uint32>, sources: Sources, nodes: seq<Node>, links: map<uint32, seq<uint32>>,
          rank: map<uint32, nat>, id: uint32, s: uint32)
    requires IsWholeTree(p, nodes) && IsUnionRank(p, sources, rank)
    requires AreAllLinks(sources, nodes, Ids(nodes), links) && id in links && s in links[id]
    ensures id in p && s in p && rank[s] < rank[id]
  {
    assert AreLinks(sources, nodes, id, links[id]);
    assert s in Elements(Ids(nodes)) && id in Elements(Ids(nodes));
  }

  lemma IndexHasRank(p: map<uint32, uint32>, sources: Sources, nodes: seq<Node>, links: map<uint32, seq<uint32>>,
          rank: map<uint32, nat>)
    requires IsWholeTree(p, nodes) && IsUnionRank(p, sources, rank)
    requires AreAllLinks(sources, nodes, Ids(nodes), links)
    ensures IsVisitRank(p, Index(nodes), links, rank) && Index(nodes).Keys == p.Keys
  {
    IndexIs(nodes);
    var index := Index(nodes);
    assert index.Keys == links.Keys == p.Keys;
    forall id | id in index
      ensures forall s | s in links[id] :: s in index && rank[s] < rank[id]
      ensures forall c | c in ChildIds(index[id]) :: c in index && rank[c] < rank[id] && c in p && p[c] == id
    {
      forall c | c in ChildIds(index[id]) ensures c in index && rank[c] < rank[id] && c in p && p[c] == id {
        ChildHasLowerRank(p, sources, nodes, rank, id, c);
      }
      forall s | s in links[id] ensures s in index && rank[s] < rank[id] {
        LinkHasLowerRank(p, sources, nodes, links, rank, id, s);
      }
    }
  }

  lemma {:induction false} AllExported(nodes: seq<Node>, isExported: set<uint32>)
    requires forall n | n in nodes :: n.id in isExported && AreClosed(n.children, isExported)
    ensures forall y | y in Ids(nodes) :: y in isExported
  {
    if nodes != [] {
      var front, last := nodes[..|nodes| - 1], nodes[|nodes| - 1];
      assert last in nodes;
      AllExported(front, isExported);
      AllExported(last.children, isExported);
    }
  }

  /** The nodes and all below them are exported. */
  ghost predicate AreClosed(nodes: seq<Node>, isExported: set<uint32>) {
    forall n | n in nodes :: n.id in isExported && AreClosed(n.children, isExported)
  }

  lemma {:induction false} ExportedAreClosed(index: map<uint32, Node>, links: map<uint32, seq<uint32>>,
          isExported: set<uint32>, rows: seq<uint32>, nodes: seq<Node>)
    requires IsIndex(index) && AreIndexed(index, nodes) && IsConsistent(index, links, isExported, rows, {})
    requires forall n | n in nodes :: n.id in isExported
    ensures AreClosed(nodes, isExported)
  {
    forall n | n in nodes ensures AreClosed(n.children, isExported) {
      forall c | c in n.children ensures c.id in isExported {
        var i :| 0 <= i < |n.children| && n.children[i] == c;
        assert ChildIds(n)[i] == c.id;
      }
      ExportedAreClosed(index, links, isExported, rows, n.children);
    }
  }

  lemma {:induction false} EveryoneIsBelowNone(p: map<uint32, uint32>, y: uint32)
    requires IsForest(p) && y in p && forall n | n in p :: p[n] == 0 || p[n] in p
    ensures Above(p, 0, y)
    decreases Depth(p)[y]
  {
    if p[y] != 0 { EveryoneIsBelowNone(p, p[y]); }
  }

  lemma TreeIsWhole(elements: seq<WebElement>, p: map<uint32, uint32>, nodes: seq<Node>)
    requires IsExport(elements, p) && IsSubTree(p, 0, nodes)
    ensures IsWholeTree(p, nodes)
  {
    RootedIsForest(ParentMap(elements));
    forall y ensures y in Elements(Ids(nodes)) <==> y in p {
      if y in p { EveryoneIsBelowNone(p, y); }
    }
  }

  ghost predicate IsSource(p: map<uint32, uint32>, sources: Sources, id: uint32) {
    exists y :: y in p && y in sources && id in sources[y]
  }

  /** One row for each element of p, after the rows of all its sources in p, and
      after the row of its location unless it is a source itself. */
  ghost predicate IsFullExport(p: map<uint32, uint32>, sources: Sources, rows: seq<uint32>) {
    && NoDuplicates(rows)
    && (forall y :: y in rows <==> y in p)
    && (forall i, s | 0 <= i < |rows| && rows[i] in sources && s in sources[rows[i]] && s in p :: s in rows[..i])
    && (forall i | 0 <= i < |rows| && rows[i] in p ::
          p[rows[i]] == 0 || p[rows[i]] in rows[..i] || IsSource(p, sources, rows[i]))
  }

  lemma LinkedIsSource(p: map<uint32, uint32>, sources: Sources, nodes: seq<Node>, links: map<uint32, seq<uint32>>,
          id: uint32)
    requires IsWholeTree(p, nodes) && AreAllLinks(sources, nodes, Ids(nodes), links) && IsLinked(links, id)
    ensures IsSource(p, sources, id)
  {
    var y :| y in links && id in links[y];
    assert AreLinks(sources, nodes, y, links[y]);
    assert y in Elements(Ids(nodes));
  }

  lemma RowsAreComplete(p: map<uint32, uint32>, sources: Sources, nodes: seq<Node>, links: map<uint32, seq<uint32>>,
          isExported: set<uint32>, rows: seq<uint32>)
    requires IsWholeTree(p, nodes) && AreAllLinks(sources, nodes, Ids(nodes), links)
    requires IsConsistent(Index(nodes), links, isExported, rows, {}) && ComeInOrder(p, links, rows)
    requires forall n | n in nodes :: n.id in isExported
    ensures IsFullExport(p, sources, rows)
  {
    IndexIs(nodes);
    ExportedAreClosed(Index(nodes), links, isExported, rows, nodes);
    assert forall n | n in nodes :: AreClosed(n.children, isExported);
    AllExported(nodes, isExported);
    forall y ensures y in rows <==> y in p {
      assert y in p <==> y in Elements(Ids(nodes));
    }
    forall i, s | 0 <= i < |rows| && rows[i] in sources && s in sources[rows[i]] && s in p ensures s in rows[..i] {
      assert s in Elements(Ids(nodes));
      assert AreLinks(sources, nodes, rows[i], links[rows[i]]);
      assert s in links[rows[i]];
    }
    forall i | 0 <= i < |rows| && rows[i] in p
      ensures p[rows[i]] == 0 || p[rows[i]] in rows[..i] || IsSource(p, sources, rows[i])
    {
      assert MayCome(p, links, rows[..i], rows[i]);
      if IsLinked(links, rows[i]) { LinkedIsSource(p, sources, nodes, links, rows[i]); }
    }
  }

  function RootIds(nodes: seq<Node>): seq<uint32> {
    seq(|nodes|, i requires 0 <= i < |nodes| => nodes[i].id)
  }

  lemma RootIdsAre(nodes: seq<Node>)
    ensures forall n | n in nodes :: n.id in RootIds(nodes)
    ensures forall x | x in RootIds(nodes) :: x in Ids(nodes) && exists n :: n in nodes && n.id == x
  {
    forall n | n in nodes ensures n.id in RootIds(nodes) {
      var i :| 0 <= i < |nodes| && nodes[i] == n;
      assert RootIds(nodes)[i] == n.id;
    }
    forall x | x in RootIds(nodes) ensures x in Ids(nodes) && exists n :: n in nodes && n.id == x {
      var i :| 0 <= i < |nodes| && nodes[i].id == x;
      assert nodes[i] in nodes;
      NodeIdsAreIds(nodes, nodes[i]);
    }
  }

  /** exportCsv: if a row cannot be written there is no export at all, else each element whose parents
      lead to the top gets exactly one row, after the rows of all its exported power sources. */
  method ExportCsv(elements: seq<WebElement>, sources: Sources, fails: uint32 -> bool, ghost rank: map<uint32, nat>)
    returns (ok: bool, rows: seq<uint32>)
    requires HaveIds(elements) && IsUnionRank(Rooted(ParentMap(elements)), sources, rank)
    ensures ok <==> forall x | x in Rooted(ParentMap(elements)) :: !fails(x)
    ensures if ok then IsFullExport(Rooted(ParentMap(elements)), sources, rows) else rows == []
  {
    ghost var p := Rooted(ParentMap(elements));
    RootedIsForest(ParentMap(elements));
    var nodes := CreateTree(elements, 0, p);
    TreeIsWhole(elements, p, nodes);
    var links := CollectLinks(nodes, nodes, sources);
    ok, rows := ExportNodes(nodes, links, sources, fails, p, rank);
  }

  /** The rows of all roots, with everything they pull in. */
  method ExportNodes(nodes: seq<Node>, links: map<uint32, seq<uint32>>, ghost sources: Sources,
          fails: uint32 -> bool, ghost p: map<uint32, uint32>, ghost rank: map<uint32, nat>)
    returns (ok: bool, rows: seq<uint32>)
    requires IsWholeTree(p, nodes) && AreAllLinks(sources, nodes, Ids(nodes), links) && IsUnionRank(p, sources, rank)
    ensures ok <==> forall x | x in p :: !fails(x)
    ensures if ok then IsFullExport(p, sources, rows) else rows == []
  {
    IndexHasRank(p, sources, nodes, links, rank);
    IndexIs(nodes);
    RootIdsAre(nodes);
    var exporter := new Exporter(p, Index(nodes), links, fails);
    ghost var bound := BoundOn(rank, rank.Keys);
    assert forall x | x in RootIds(nodes) :: x in Elements(Ids(nodes));
    assert AllMayCome(p, links, [], RootIds(nodes));
    ok := exporter.ExportEach(RootIds(nodes), {}, rank, bound + 1);
    rows := [];
    if ok {
      rows := exporter.rows;
      RowsAreComplete(p, sources, nodes, links, exporter.isExported, rows);
    }
  }

  // ---------- when the export ends ----------

  /** All that a visit calls is there. */
  ghost predicate CallsAreIndexed(index: map<uint32, Node>, links: map<uint32, seq<uint32>>) {
    && index.Keys == links.Keys
    && forall id | id in index ::
         (forall s | s in links[id] :: s in index) && (forall c | c in ChildIds(index[id]) :: c in index)
  }

  ghost predicate AreKeys(index: map<uint32, Node>, ids: seq<uint32>) {
    forall x | x in ids :: x in index
  }

  /** exportRow with a limit on the depth of its recursion: the elements it has
      flagged, in that order, or nothing if it meets the limit. */
  ghost function VisitOne(index: map<uint32, Node>, links: map<uint32, seq<uint32>>, id: uint32,
          flagged: seq<uint32>, depth: nat): Option<seq<uint32>>
    requires CallsAreIndexed(index, links) && id in index
    decreases depth, 0, 0
  {
    if id in flagged then Some(flagged)
    else if depth == 0 then None
    else match VisitEach(index, links, links[id], flagged, depth - 1)
      case None => None
      case Some(a) =>
        match VisitEach(index, links, ChildIds(index[id]), a, depth - 1)
        case None => None
        case Some(b) => Some(b + [id])
  }

  ghost function VisitEach(index: map<uint32, Node>, links: map<uint32, seq<uint32>>, ids: seq<uint32>,
          flagged: seq<uint32>, depth: nat): Option<seq<uint32>>
    requires CallsAreIndexed(index, links) && AreKeys(index, ids)
    decreases depth, 1, |ids|
  {
    if ids == [] then Some(flagged)
    else match VisitOne(index, links, ids[0], flagged, depth)
      case None => None
      case Some(a) => VisitEach(index, links, ids[1..], a, depth)
  }

  /** Some depth is enough. */
  ghost predicate Ends(index: map<uint32, Node>, links: map<uint32, seq<uint32>>, ids: seq<uint32>)
    requires CallsAreIndexed(index, links) && AreKeys(index, ids)
  {
    exists depth: nat :: VisitEach(index, links, ids, [], depth).Some?
  }

  /** Each element was flagged after all it calls. */
  ghost predicate IsFlagOrder(index: map<uint32, Node>, links: map<uint32, seq<uint32>>, flagged: seq<uint32>)
    requires CallsAreIndexed(index, links)
  {
    forall i | 0 <= i < |flagged| ::
      && flagged[i] in index
      && (forall s | s in links[flagged[i]] :: s in flagged[..i])
      && (forall c | c in ChildIds(index[flagged[i]]) :: c in flagged[..i])
  }

  lemma FlagOneMore(index: map<uint32, Node>, links: map<uint32, seq<uint32>>, flagged: seq<uint32>, id: uint32)
    requires CallsAreIndexed(index, links) && IsFlagOrder(index, links, flagged) && id in index
    requires forall s | s in links[id] :: s in flagged
    requires forall c | c in ChildIds(index[id]) :: c in flagged
    ensures IsFlagOrder(index, links, flagged + [id])
  {
    var more := flagged + [id];
    forall i | 0 <= i < |more| ensures more[..i] == if i < |flagged| then flagged[..i] else flagged {
    }
  }

  lemma {:induction false} VisitOneFlags(index: map<uint32, Node>, links: map<uint32, seq<uint32>>, id: uint32,
          flagged: seq<uint32>, depth: nat)
    requires CallsAreIndexed(index, links) && id in index && IsFlagOrder(index, links, flagged)
    requires VisitOne(index, links, id, flagged, depth).Some?
    ensures var f := VisitOne(index, links, id, flagged, depth).value;
      IsFlagOrder(index, links, f) && flagged <= f && id in f
    decreases depth, 0, 0
  {
    if id !in flagged {
      VisitEachFlags(index, links, links[id], flagged, depth - 1);
      var a := VisitEach(index, links, links[id], flagged, depth - 1).value;
      VisitEachFlags(index, links, ChildIds(index[id]), a, depth - 1);
      var b := VisitEach(index, links, ChildIds(index[id]), a, depth - 1).value;
      FlagOneMore(index, links, b, id);
    }
  }

  lemma {:induction false} VisitEachFlags(index: map<uint32, Node>, links: map<uint32, seq<uint32>>,
          ids: seq<uint32>, flagged: seq<uint32>, depth: nat)
    requires CallsAreIndexed(index, links) && AreKeys(index, ids) && IsFlagOrder(index, links, flagged)
    requires VisitEach(index, links, ids, flagged, depth).Some?
    ensures var f := VisitEach(index, links, ids, flagged, depth).value;
      IsFlagOrder(index, links, f) && flagged <= f && forall x | x in ids :: x in f
    decreases depth, 1, |ids|
  {
    if ids != [] {
      VisitOneFlags(index, links, ids[0], flagged, depth);
      var a := VisitOne(index, links, ids[0], flagged, depth).value;
      VisitEachFlags(index, links, ids[1..], a, depth);
      assert ids == [ids[0]] + ids[1..];
    }
  }

  /** The first place of an element. */
  ghost function Place(s: seq<uint32>, x: uint32): (k: nat)
    requires x in s
    ensures k < |s| && s[k] == x && forall j | 0 <= j < k :: s[j] != x
  {
    if s[0] == x then 0 else
      assert s == [s[0]] + s[1..];
      var k := Place(s[1..], x);
      k + 1
  }

  ghost function PlaceRank(s: seq<uint32>): map<uint32, nat> {
    map x | x in s :: Place(s, x)
  }

  lemma EarlierPlace(s: seq<uint32>, i: nat, x: uint32)
    requires i < |s| && x in s[..i]
    ensures x in s && Place(s, x) < i
  {
    var j :| 0 <= j < i && s[j] == x;
  }

  lemma {:induction false} FlaggedAreClosed(index: map<uint32, Node>, links: map<uint32, seq<uint32>>,
          flagged: seq<uint32>, nodes: seq<Node>)
    requires CallsAreIndexed(index, links) && IsFlagOrder(index, links, flagged)
    requires IsIndex(index) && AreIndexed(index, nodes) && forall n | n in nodes :: n.id in flagged
    ensures AreClosed(nodes, Elements(flagged))
  {
    forall n | n in nodes ensures AreClosed(n.children, Elements(flagged)) {
      var k := Place(flagged, n.id);
      forall c | c in n.children ensures c.id in flagged {
        var i :| 0 <= i < |n.children| && n.children[i] == c;
        assert ChildIds(n)[i] == c.id;
        assert c.id in ChildIds(index[flagged[k]]);
        assert c.id in flagged[..k];
      }
      FlaggedAreClosed(index, links, flagged, n.children);
    }
  }

  lemma FlagOrderIsRank(p: map<uint32, uint32>, nodes: seq<Node>, links: map<uint32, seq<uint32>>, flagged: seq<uint32>)
    requires IsWholeTree(p, nodes) && CallsAreIndexed(Index(nodes), links)
    requires forall id | id in Index(nodes) :: forall c | c in ChildIds(Index(nodes)[id]) :: c in p && p[c] == id
    requires IsFlagOrder(Index(nodes), links, flagged) && Index(nodes).Keys <= Elements(flagged)
    ensures IsVisitRank(p, Index(nodes), links, PlaceRank(flagged))
  {
    var index, rank := Index(nodes), PlaceRank(flagged);
    forall id | id in index
      ensures forall s | s in links[id] :: s in index && rank[s] < rank[id]
      ensures forall c | c in ChildIds(index[id]) :: c in index && rank[c] < rank[id]
    {
      assert id in Elements(flagged);
      var i := Place(flagged, id);
      forall s | s in links[id] ensures s in index && rank[s] < rank[id] {
        EarlierPlace(flagged, i, s);
      }
      forall c | c in ChildIds(index[id]) ensures c in index && rank[c] < rank[id] {
        EarlierPlace(flagged, i, c);
      }
    }
  }

  lemma {:induction false} RankedOneEnds(p: map<uint32, uint32>, index: map<uint32, Node>,
          links: map<uint32, seq<uint32>>, rank: map<uint32, nat>, id: uint32, flagged: seq<uint32>, depth: nat)
    requires IsVisitRank(p, index, links, rank) && CallsAreIndexed(index, links) && id in index && rank[id] < depth
    ensures VisitOne(index, links, id, flagged, depth).Some?
    decreases depth, 0, 0
  {
    if id !in flagged {
      RankedEachEnds(p, index, links, rank, links[id], flagged, depth - 1);
      var a := VisitEach(index, links, links[id], flagged, depth - 1).value;
      RankedEachEnds(p, index, links, rank, ChildIds(index[id]), a, depth - 1);
    }
  }

  lemma {:induction false} RankedEachEnds(p: map<uint32, uint32>, index: map<uint32, Node>,
          links: map<uint32, seq<uint32>>, rank: map<uint32, nat>, ids: seq<uint32>, flagged: seq<uint32>, depth: nat)
    requires IsVisitRank(p, index, links, rank) && CallsAreIndexed(index, links)
    requires forall x | x in ids :: x in index && rank[x] < depth
    ensures VisitEach(index, links, ids, flagged, depth).Some?
    decreases depth, 1, |ids|
  {
    if ids != [] {
      RankedOneEnds(p, index, links, rank, ids[0], flagged, depth);
      var a := VisitOne(index, links, ids[0], flagged, depth).value;
      assert forall x | x in ids[1..] :: x in ids;
      RankedEachEnds(p, index, links, rank, ids[1..], a, depth);
    }
  }

  /** The tree and the links an export works with. */
  ghost predicate IsExportGraph(p: map<uint32, uint32>, nodes: seq<Node>, links: map<uint32, seq<uint32>>) {
    && IsWholeTree(p, nodes) && CallsAreIndexed(Index(nodes), links)
    && forall id | id in Index(nodes) :: forall c | c in ChildIds(Index(nodes)[id]) :: c in p && p[c] == id
  }

  /** Whatever createTree and collectLinks have made is one. */
  lemma MadeForExport(p: map<uint32, uint32>, sources: Sources, nodes: seq<Node>, links: map<uint32, seq<uint32>>)
    requires IsWholeTree(p, nodes) && AreAllLinks(sources, nodes, Ids(nodes), links)
    ensures IsExportGraph(p, nodes, links)
  {
    IndexIs(nodes);
    var index := Index(nodes);
    assert index.Keys == p.Keys;
    forall id | id in index
      ensures forall s | s in links[id] :: s in index
      ensures forall c | c in ChildIds(index[id]) :: c in index && c in p && p[c] == id
    {
      forall s | s in links[id] ensures s in index {
        assert AreLinks(sources, nodes, id, links[id]);
        assert s in Elements(Ids(nodes));
      }
      forall c | c in ChildIds(index[id]) ensures c in index && c in p && p[c] == id {
        ChildIsBelow(p, nodes, id, c);
      }
    }
  }

  lemma ChildIsBelow(p: map<uint32, uint32>, nodes: seq<Node>, id: uint32, c: uint32)
    requires IsWholeTree(p, nodes) && id in Index(nodes) && c in ChildIds(Index(nodes)[id])
    ensures c in p && p[c] == id
  {
    var index := Index(nodes);
    IndexIs(nodes);
    IndexedAreSubTrees(p, nodes);
    var i :| 0 <= i < |index[id].children| && index[id].children[i].id == c;
    assert IsSubTree(p, id, index[id].children);
    assert index[id].children[i] in index[id].children;
  }

  lemma RootsAreKeys(p: map<uint32, uint32>, nodes: seq<Node>)
    requires IsWholeTree(p, nodes)
    ensures AreKeys(Index(nodes), RootIds(nodes))
  {
    RootIdsAre(nodes);
    IndexIs(nodes);
    assert forall x | x in RootIds(nodes) :: x in Elements(Ids(nodes));
  }

  /** The recursion of exportRow ends exactly if neither children nor links lead back. */
  lemma EndsIffRanked(p: map<uint32, uint32>, nodes: seq<Node>, links: map<uint32, seq<uint32>>)
    requires IsExportGraph(p, nodes, links)
    ensures AreKeys(Index(nodes), RootIds(nodes))
    ensures Ends(Index(nodes), links, RootIds(nodes)) <==> exists rank :: IsVisitRank(p, Index(nodes), links, rank)
  {
    var index, ids := Index(nodes), RootIds(nodes);
    RootsAreKeys(p, nodes);
    if rank :| IsVisitRank(p, index, links, rank) {
      var bound := BoundOn(rank, rank.Keys);
      RankedEachEnds(p, index, links, rank, ids, [], bound + 1);
    }
    if Ends(index, links, ids) {
      var depth: nat :| VisitEach(index, links, ids, [], depth).Some?;
      VisitEachFlags(index, links, ids, [], depth);
      EndedIsRanked(p, nodes, links, VisitEach(index, links, ids, [], depth).value);
    }
  }

  lemma EndedIsRanked(p: map<uint32, uint32>, nodes: seq<Node>, links: map<uint32, seq<uint32>>, flagged: seq<uint32>)
    requires IsExportGraph(p, nodes, links) && IsFlagOrder(Index(nodes), links, flagged)
    requires forall x | x in RootIds(nodes) :: x in flagged
    ensures exists rank :: IsVisitRank(p, Index(nodes), links, rank)
  {
    IndexIs(nodes);
    RootIdsAre(nodes);
    FlaggedAreClosed(Index(nodes), links, flagged, nodes);
    assert forall n | n in nodes :: AreClosed(n.children, Elements(flagged));
    AllExported(nodes, Elements(flagged));
    FlagOrderIsRank(p, nodes, links, flagged);
  }

  /** A device that is powered by the device it sits in: no depth is enough. */
  lemma HostAsSourceNeverEnds(p: map<uint32, uint32>, nodes: seq<Node>, links: map<uint32, seq<uint32>>, host: uint32,
          c: uint32)
    requires IsExportGraph(p, nodes, links) && host in Index(nodes)
    requires c in ChildIds(Index(nodes)[host]) && host in links[c]
    ensures AreKeys(Index(nodes), RootIds(nodes)) && !Ends(Index(nodes), links, RootIds(nodes))
  {
    EndsIffRanked(p, nodes, links);
  }
}
