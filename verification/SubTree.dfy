/** Collecting the assets below an asset, addSubTree of server/src/asset/asset.cc. */
module SubTree {
  import opened AssetModel
  import opened Forest
  import opened Sequences
  import opened Storage

  /** The stored parents form a forest. */
  ghost predicate StoredForest(t: Tables) {
    Consistent(t) && IsForest(ParentsOf(t))
  }

  lemma {:induction false} ChildrenAre(t: Tables, order: seq<string>, n: string)
    ensures forall c :: c in ChildrenIn(t.rows, order, n) <==> c in order && c in t.rows && t.rows[c].parent == n
    ensures NoDuplicates(order) ==> NoDuplicates(ChildrenIn(t.rows, order, n))
  {
    if order != [] {
      var front, last := order[..|order| - 1], order[|order| - 1];
      ChildrenAre(t, front, n);
      assert order == front + [last];
      if NoDuplicates(order) { assert last !in front; }
    }
  }

  lemma ChildIsDeeper(t: Tables, n: string, i: nat)
    requires StoredForest(t) && n in t.rows && i < |ChildrenOf(t, n)|
    ensures ChildrenOf(t, n)[i] in t.rows && t.rows[ChildrenOf(t, n)[i]].parent == n
    ensures Depth(ParentsOf(t))[ChildrenOf(t, n)[i]] == Depth(ParentsOf(t))[n] + 1 <= Height(ParentsOf(t))
  {
    ChildrenAre(t, t.order, n);
    var c := ChildrenOf(t, n)[i];
    assert c in ChildrenOf(t, n);
    assert BoundsDepth(ParentsOf(t), Height(ParentsOf(t)));
    assert ParentsOf(t)[c] == n;
  }

  /** The recursive preorder walk below n, from its i-th child on. */
  ghost function Preorder(t: Tables, n: string, i: nat): seq<string>
    requires StoredForest(t) && n in t.rows
    decreases Height(ParentsOf(t)) - Depth(ParentsOf(t))[n], |ChildrenOf(t, n)| - i
  {
    if i >= |ChildrenOf(t, n)| then [] else
      ChildIsDeeper(t, n, i);
      var c := ChildrenOf(t, n)[i];
      [c] + Preorder(t, c, 0) + Preorder(t, n, i + 1)
  }

  /** Append what is not there yet, in order. */
  ghost function AddMissing(acc: seq<string>, list: seq<string>): seq<string>
    decreases list
  {
    if list == [] then acc else
      AddMissing(if list[0] in acc then acc else acc + [list[0]], list[1..])
  }

  lemma AddFirst(acc: seq<string>, c: string, rest: seq<string>)
    ensures AddMissing(acc, [c] + rest) == AddMissing(if c in acc then acc else acc + [c], rest)
  {
    assert ([c] + rest)[1..] == rest;
  }

  /** An asset on the stack, with the child to continue at. */
  datatype Frame = Frame(ref: string, next: nat)

  ghost predicate AreStored(t: Tables, stack: seq<Frame>) {
    forall i | 0 <= i < |stack| :: stack[i].ref in t.rows
  }

  /** What is still to visit below the stacked assets, top first. */
  ghost function Pending(t: Tables, stack: seq<Frame>): seq<string>
    requires StoredForest(t) && AreStored(t, stack)
    decreases |stack|
  {
    if stack == [] then [] else
      var top := stack[|stack| - 1];
      Preorder(t, top.ref, top.next) + Pending(t, stack[..|stack| - 1])
  }

  ghost function ToVisit(t: Tables, ref: string, next: nat, stack: seq<Frame>): seq<string>
    requires StoredForest(t) && ref in t.rows && AreStored(t, stack)
  {
    Preorder(t, ref, next) + Pending(t, stack)
  }

  lemma Descend(t: Tables, ref: string, next: nat, stack: seq<Frame>, c: string)
    requires StoredForest(t) && ref in t.rows && AreStored(t, stack)
    requires next < |ChildrenOf(t, ref)| && c == ChildrenOf(t, ref)[next]
    ensures c in t.rows && AreStored(t, stack + [Frame(ref, next + 1)])
    ensures ToVisit(t, ref, next, stack) == [c] + ToVisit(t, c, 0, stack + [Frame(ref, next + 1)])
  {
    ChildIsDeeper(t, ref, next);
    var stack' := stack + [Frame(ref, next + 1)];
    assert stack'[..|stack'| - 1] == stack;
    var below, later, rest := Preorder(t, c, 0), Preorder(t, ref, next + 1), Pending(t, stack);
    assert Pending(t, stack') == later + rest;
    Regroup([c], below, later, rest);
    assert below + later + rest == below + (later + rest);
  }

  lemma Ascend(t: Tables, ref: string, next: nat, stack: seq<Frame>)
    requires StoredForest(t) && ref in t.rows && AreStored(t, stack)
    requires next >= |ChildrenOf(t, ref)| && stack != []
    ensures AreStored(t, stack[..|stack| - 1])
    ensures ToVisit(t, ref, next, stack)
      == ToVisit(t, stack[|stack| - 1].ref, stack[|stack| - 1].next, stack[..|stack| - 1])
  {
  }

  /** addSubTree: the explicit stack visits exactly what the recursive walk visits,
      and a name already collected is not collected again. */
  method AddSubTree(db: Db, name: string, toDel: seq<string>) returns (r: seq<string>)
    requires StoredForest(db.Now()) && name in db.rows
    ensures r == AddMissing(toDel, Preorder(db.Now(), name, 0))
  {
    ghost var t := db.Now();
    var stack: seq<Frame> := [];
    var ref, next: nat, end := name, 0, false;
    r := toDel;
    ghost var todo := Preorder(t, name, 0);
    while !end
      invariant ref in t.rows && AreStored(t, stack)
      invariant todo == ToVisit(t, ref, next, stack)
      invariant AddMissing(r, todo) == AddMissing(toDel, Preorder(t, name, 0))
      invariant end ==> todo == []
      decreases 2 * |todo| + |stack| + if end then 0 else 1
    {
      var children := db.GetChildren(ref);
      if next < |children| {
        var c := children[next];
        Descend(t, ref, next, stack, c);
        stack := stack + [Frame(ref, next + 1)];
        ref, next := c, 0;
        todo := ToVisit(t, ref, next, stack);
        AddFirst(r, c, todo);
        if ref !in r {
          r := r + [ref];
        }
      } else if stack == [] {
        end := true;
      } else {
        Ascend(t, ref, next, stack);
        ref, next := stack[|stack| - 1].ref, stack[|stack| - 1].next;
        stack := stack[..|stack| - 1];
      }
    }
  }

  // ---------- what the walk visits ----------

  /** Every strict descendant, each once. */
  lemma {:induction false} PreorderVisits(t: Tables, n: string, i: nat)
    requires StoredForest(t) && n in t.rows
    ensures forall y :: y in Preorder(t, n, i) <==> y in t.rows && UnderChild(t, n, i, y)
    ensures NoDuplicates(Preorder(t, n, i))
    decreases Height(ParentsOf(t)) - Depth(ParentsOf(t))[n], |ChildrenOf(t, n)| - i
  {
    var ch := ChildrenOf(t, n);
    if i < |ch| {
      ChildIsDeeper(t, n, i);
      var c := ch[i];
      PreorderVisits(t, c, 0);
      PreorderVisits(t, n, i + 1);
      var below, later := Preorder(t, c, 0), Preorder(t, n, i + 1);
      UnderAnyChild(t, c);
      forall y ensures y in below <==> y in t.rows && Above(ParentsOf(t), c, y) {
      }
      forall y | y in later ensures y != c && y !in below {
        OtherChild(t, n, i, y);
      }
      assert c !in below by {
        if c in below { AboveIsShallower(ParentsOf(t), c, c); }
      }
      assert NoDuplicates([c] + below) by { NoDuplicatesInSum([c], below); }
      NoDuplicatesInSum([c] + below, later);
      UnderThisOrLater(t, n, i);
    }
  }

  /** y is the j-th child of n for some j from i on, or sits below it. */
  ghost predicate UnderChild(t: Tables, n: string, i: nat, y: string)
    requires StoredForest(t) && n in t.rows && y in t.rows
  {
    exists j | i <= j < |ChildrenOf(t, n)| :: y == ChildrenOf(t, n)[j] || Above(ParentsOf(t), ChildrenOf(t, n)[j], y)
  }

  lemma UnderThisOrLater(t: Tables, n: string, i: nat)
    requires StoredForest(t) && n in t.rows && i < |ChildrenOf(t, n)|
    ensures var c := ChildrenOf(t, n)[i];
      forall y | y in t.rows ::
        UnderChild(t, n, i, y) <==> y == c || Above(ParentsOf(t), c, y) || UnderChild(t, n, i + 1, y)
  {
  }

  lemma UnderAnyChild(t: Tables, n: string)
    requires StoredForest(t) && n in t.rows
    ensures forall y | y in t.rows :: UnderChild(t, n, 0, y) <==> Above(ParentsOf(t), n, y)
  {
    var p, ch := ParentsOf(t), ChildrenOf(t, n);
    ChildrenAre(t, t.order, n);
    forall y | y in t.rows ensures UnderChild(t, n, 0, y) <==> Above(p, n, y) {
      if Above(p, n, y) {
        var c := ChildTowards(p, n, y);
        assert c in ch;
        var j :| 0 <= j < |ch| && ch[j] == c;
        assert UnderChild(t, n, 0, y);
      }
      if UnderChild(t, n, 0, y) {
        var j :| 0 <= j < |ch| && (y == ch[j] || Above(p, ch[j], y));
        assert ch[j] in ch;
        if y != ch[j] { AboveIsTransitive(p, n, ch[j], y); }
      }
    }
  }

  lemma OtherChild(t: Tables, n: string, i: nat, y: string)
    requires StoredForest(t) && n in t.rows && y in t.rows && i < |ChildrenOf(t, n)|
    requires UnderChild(t, n, i + 1, y)
    ensures y != ChildrenOf(t, n)[i] && !Above(ParentsOf(t), ChildrenOf(t, n)[i], y)
  {
    var p, ch := ParentsOf(t), ChildrenOf(t, n);
    ChildrenAre(t, t.order, n);
    var j :| i + 1 <= j < |ch| && (y == ch[j] || Above(p, ch[j], y));
    ChildIsDeeper(t, n, i);
    ChildIsDeeper(t, n, j);
    if y == ch[i] || Above(p, ch[i], y) {
      AncestorAtDepthIsUnique(p, ch[i], ch[j], y);
    }
  }

  lemma DescendantsOnce(t: Tables, n: string)
    requires StoredForest(t) && n in t.rows
    ensures NoDuplicates(Preorder(t, n, 0))
    ensures forall y :: y in Preorder(t, n, 0) <==> y in t.rows && Above(ParentsOf(t), n, y)
  {
    PreorderVisits(t, n, 0);
    UnderAnyChild(t, n);
  }

  lemma {:induction false} AddMissingIs(acc: seq<string>, list: seq<string>)
    ensures forall y :: y in AddMissing(acc, list) <==> y in acc || y in list
    ensures NoDuplicates(AddMissing(acc, list)) <==> NoDuplicates(acc)
    ensures acc <= AddMissing(acc, list)
    decreases list
  {
    if list != [] {
      var acc' := if list[0] in acc then acc else acc + [list[0]];
      AddMissingIs(acc', list[1..]);
      assert list == [list[0]] + list[1..];
      if NoDuplicates(acc') {
        forall i, j | 0 <= i < j < |acc| ensures acc[i] != acc[j] { assert acc[i] == acc'[i] && acc[j] == acc'[j]; }
      }
    }
  }
}
