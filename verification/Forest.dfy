/** Parent maps.  A key is an asset, its value the asset it sits in; a chain of
    parents ends at a value that is not itself a key (the empty name, id 0, or a
    parent that is not part of the collection). */
module Forest {
  import opened Sequences

  ghost predicate IsDepth<K>(p: map<K, K>, d: map<K, nat>) {
    && d.Keys == p.Keys
    && forall n | n in p :: d[n] == if p[n] in p then d[p[n]] + 1 else 0
  }

  /** No chain of parents runs in a circle. */
  ghost predicate IsForest<K(!new)>(p: map<K, K>) {
    exists d :: IsDepth(p, d)
  }

  ghost function Depth<K(!new)>(p: map<K, K>): (d: map<K, nat>)
    requires IsForest(p)
    ensures IsDepth(p, d)
  {
    var d :| IsDepth(p, d); d
  }

  ghost predicate IsRank<K>(p: map<K, K>, rank: map<K, nat>) {
    && p.Keys <= rank.Keys
    && forall n | n in p && p[n] in p :: rank[p[n]] < rank[n]
  }

  ghost function DepthBy<K>(p: map<K, K>, rank: map<K, nat>, n: K): (r: nat)
    requires IsRank(p, rank) && n in p
    decreases rank[n]
  {
    if p[n] in p then DepthBy(p, rank, p[n]) + 1 else 0
  }

  /** Any numbering that grows from parent to child shows that the map is a forest. */
  lemma RankedIsForest<K(!new)>(p: map<K, K>, rank: map<K, nat>)
    requires IsRank(p, rank)
    ensures IsForest(p)
  {
    var d := map n | n in p :: DepthBy(p, rank, n);
    assert IsDepth(p, d);
  }

  /** a is a strict ancestor of n. */
  ghost predicate Above<K(!new)>(p: map<K, K>, a: K, n: K)
    requires IsForest(p) && n in p
    decreases Depth(p)[n]
  {
    p[n] == a || (p[n] in p && Above(p, a, p[n]))
  }

  lemma {:induction false} AboveIsShallower<K(!new)>(p: map<K, K>, a: K, n: K)
    requires IsForest(p) && n in p && a in p && Above(p, a, n)
    ensures Depth(p)[a] < Depth(p)[n]
    decreases Depth(p)[n]
  {
    if p[n] != a {
      AboveIsShallower(p, a, p[n]);
    }
  }

  lemma {:induction false} AboveIsTransitive<K(!new)>(p: map<K, K>, a: K, b: K, n: K)
    requires IsForest(p) && n in p && b in p && Above(p, a, b) && Above(p, b, n)
    ensures Above(p, a, n)
    decreases Depth(p)[n]
  {
    if p[n] != b {
      AboveIsTransitive(p, a, b, p[n]);
    }
  }

  /** Two ancestors-or-self of one asset that lie equally deep are the same asset. */
  lemma {:induction false} AncestorAtDepthIsUnique<K(!new)>(p: map<K, K>, a: K, b: K, n: K)
    requires IsForest(p) && n in p && a in p && b in p
    requires a == n || Above(p, a, n)
    requires b == n || Above(p, b, n)
    requires Depth(p)[a] == Depth(p)[b]
    ensures a == b
    decreases Depth(p)[n]
  {
    if a == n {
      if b != n { AboveIsShallower(p, b, n); }
    } else if b == n {
      AboveIsShallower(p, a, n);
    } else {
      AncestorAtDepthIsUnique(p, a, b, p[n]);
    }
  }

  /** The step of an ancestor towards its descendant. */
  lemma {:induction false} ChildTowards<K(!new)>(p: map<K, K>, a: K, n: K) returns (c: K)
    requires IsForest(p) && n in p && Above(p, a, n)
    ensures c in p && p[c] == a && (c == n || Above(p, c, n))
    decreases Depth(p)[n]
  {
    if p[n] == a {
      c := n;
    } else {
      c := ChildTowards(p, a, p[n]);
      if c != p[n] { assert Above(p, c, n); }
    }
  }

  /** The keys with the same parent, in some order. */
  ghost predicate AreChildren<K(!new)>(p: map<K, K>, id: K, siblings: seq<K>) {
    NoDuplicates(siblings) && forall n :: n in siblings <==> n in p && p[n] == id
  }

  /** One of the first i siblings, or below one of them. */
  ghost predicate UnderSome<K(!new)>(p: map<K, K>, siblings: seq<K>, i: nat, y: K)
    requires IsForest(p) && y in p && i <= |siblings|
  {
    exists j | 0 <= j < i :: y == siblings[j] || Above(p, siblings[j], y)
  }

  lemma SiblingsApart<K(!new)>(p: map<K, K>, id: K, siblings: seq<K>, i: nat, y: K)
    requires IsForest(p) && AreChildren(p, id, siblings) && i < |siblings|
    requires y in p && UnderSome(p, siblings, i, y)
    ensures y != siblings[i] && !Above(p, siblings[i], y)
  {
    var j :| 0 <= j < i && (y == siblings[j] || Above(p, siblings[j], y));
    assert siblings[i] in siblings && siblings[j] in siblings;
    assert Depth(p)[siblings[i]] == Depth(p)[siblings[j]];
    if y == siblings[i] || Above(p, siblings[i], y) {
      AncestorAtDepthIsUnique(p, siblings[i], siblings[j], y);
    }
  }

  lemma UnderAllSiblings<K(!new)>(p: map<K, K>, id: K, siblings: seq<K>)
    requires IsForest(p) && AreChildren(p, id, siblings)
    ensures forall y | y in p :: UnderSome(p, siblings, |siblings|, y) <==> Above(p, id, y)
  {
    forall y | y in p ensures UnderSome(p, siblings, |siblings|, y) <==> Above(p, id, y) {
      if Above(p, id, y) {
        var c := ChildTowards(p, id, y);
        assert c in siblings;
        var j :| 0 <= j < |siblings| && siblings[j] == c;
        assert UnderSome(p, siblings, |siblings|, y);
      }
      if UnderSome(p, siblings, |siblings|, y) {
        var j :| 0 <= j < |siblings| && (y == siblings[j] || Above(p, siblings[j], y));
        assert siblings[j] in siblings;
        if y != siblings[j] { AboveChild(p, id, siblings[j], y); }
      }
    }
  }

  /** Above a child is above all below it; id itself need not be a key. */
  lemma {:induction false} AboveChild<K(!new)>(p: map<K, K>, id: K, c: K, y: K)
    requires IsForest(p) && y in p && c in p && p[c] == id && Above(p, c, y)
    ensures Above(p, id, y)
    decreases Depth(p)[y]
  {
    if p[y] != c { AboveChild(p, id, c, p[y]); }
  }

  lemma NotBelowItself<K(!new)>(p: map<K, K>, n: K)
    requires IsForest(p) && n in p
    ensures !Above(p, n, n)
  {
    if Above(p, n, n) { AboveIsShallower(p, n, n); }
  }

  /** A sibling and what is below it join what is below the earlier siblings, each name once. */
  lemma JoinSibling<K(!new)>(p: map<K, K>, id: K, siblings: seq<K>, i: nat, found: seq<K>, self: seq<K>, below: seq<K>)
    requires IsForest(p) && AreChildren(p, id, siblings) && i < |siblings|
    requires NoDuplicates(found) && forall y | y in found :: y in p && UnderSome(p, siblings, i, y)
    requires NoDuplicates(below) && forall y | y in below :: y in p && Above(p, siblings[i], y)
    requires self == [] || self == [siblings[i]]
    ensures NoDuplicates(found + self + below)
    ensures forall y | y in p ::
      UnderSome(p, siblings, i + 1, y) <==> UnderSome(p, siblings, i, y) || y == siblings[i] || Above(p, siblings[i], y)
  {
    assert siblings[i] in siblings;
    NotBelowItself(p, siblings[i]);
    NoDuplicatesInSum(self, below);
    forall y | y in self + below ensures y !in found {
      if y in found { SiblingsApart(p, id, siblings, i, y); }
    }
    NoDuplicatesInSum(found, self + below);
    assert found + self + below == found + (self + below);
  }

  ghost predicate BoundsDepth<K(!new)>(p: map<K, K>, bound: nat)
    requires IsForest(p)
  {
    forall n | n in p :: Depth(p)[n] <= bound
  }

  lemma {:induction false} BoundOn<K(!new)>(d: map<K, nat>, keys: set<K>) returns (bound: nat)
    requires keys <= d.Keys
    ensures forall n | n in keys :: d[n] <= bound
  {
    if keys == {} {
      bound := 0;
    } else {
      var k :| k in keys;
      bound := BoundOn(d, keys - {k});
      bound := if bound < d[k] then d[k] else bound;
    }
  }

  lemma DepthIsBounded<K(!new)>(p: map<K, K>)
    requires IsForest(p)
    ensures exists bound :: BoundsDepth(p, bound)
  {
    var bound := BoundOn(Depth(p), p.Keys);
    assert BoundsDepth(p, bound);
  }

  ghost function Height<K(!new)>(p: map<K, K>): (bound: nat)
    requires IsForest(p)
    ensures BoundsDepth(p, bound)
  {
    DepthIsBounded(p);
    var bound :| BoundsDepth(p, bound); bound
  }
}
