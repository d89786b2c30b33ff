/** The element and link tables by id, as asset/src/asset-db.cpp reads them and
    asset/src/manager/delete.cpp deletes from them. */
module ElementDb {
  import opened AssetModel
  import opened Sequences

  datatype Kind = Group | DataCenter | Room | RackRow | Rack | Device | OtherKind

  /** parent is 0 for an element without one. */
  datatype ElementRow = ElementRow(kind: Kind, isSensor: bool, parent: uint32, nonactive: bool)

  /** From source to destination. */
  type Link = (uint32, uint32)

  /** What each call of deleteAsset came to. */
  datatype Event = Deleted(id: uint32) | Refused(id: uint32) | Restricted(id: uint32) | Cascaded(id: uint32)

  datatype State = State(rows: map<uint32, ElementRow>, links: multiset<Link>)

  /** The foreign keys: parents and link ends exist. */
  ghost predicate Integrity(s: State) {
    && 0 !in s.rows
    && (forall n | n in s.rows :: s.rows[n].parent == 0 || s.rows[n].parent in s.rows)
    && (forall l | l in s.links :: l.0 in s.rows && l.1 in s.rows)
  }

  ghost function ParentsOf(s: State): map<uint32, uint32> {
    map n | n in s.rows :: s.rows[n].parent
  }

  ghost predicate HasChild(s: State, id: uint32) {
    exists n :: n in s.rows && s.rows[n].parent == id
  }

  ghost predicate HasLinkFrom(s: State, id: uint32) {
    exists l :: l in s.links && l.0 == id
  }

  ghost predicate HasLinkAt(links: multiset<Link>, id: uint32) {
    exists l :: l in links && (l.0 == id || l.1 == id)
  }

  /** deleteDevice drops the links to the device, the deletions of containers and groups do not. */
  predicate DropsLinksTo(kind: Kind) {
    kind.Device? || kind.OtherKind?
  }

  /** A RESTRICT key stops the deletion: a child, or a link that is not dropped first. */
  ghost predicate Restricts(s: State, id: uint32, kind: Kind) {
    && id in s.rows
    && (HasChild(s, id) || exists l :: l in s.links && (l.0 == id || l.1 == id) && !(l.1 == id && DropsLinksTo(kind)))
  }

  ghost predicate WithoutLinksTo(a: multiset<Link>, b: multiset<Link>, id: uint32) {
    forall l: Link :: a[l] == if l.1 == id then 0 else b[l]
  }

  /** Rows and links only ever go, and a link only with a destination whose deletion drops it. */
  ghost predicate Shrinks(s: State, s0: State) {
    && s.links <= s0.links
    && (forall l | s.links[l] < s0.links[l] :: l.1 !in s.rows && l.1 in s0.rows && DropsLinksTo(s0.rows[l.1].kind))
    && forall n | n in s.rows :: n in s0.rows && s.rows[n] == s0.rows[n]
  }

  lemma ShrinksOn(s: State, s1: State, s0: State)
    requires Shrinks(s, s1) && Shrinks(s1, s0)
    ensures Shrinks(s, s0)
  {
    forall l | s.links[l] < s0.links[l]
      ensures l.1 !in s.rows && l.1 in s0.rows && DropsLinksTo(s0.rows[l.1].kind)
    {
      assert s.links[l] < s1.links[l] || s1.links[l] < s0.links[l];
    }
  }

  /** So the rows that are left decide which links are. */
  lemma LinksFollowRows(s: State, s0: State, l: Link)
    requires Shrinks(s, s0) && Integrity(s)
    ensures s.links[l] == if l.1 in s.rows then s0.links[l] else 0
  {
    if l in s.links { assert l.1 in s.rows; }
  }

  class Db {
    var rows: map<uint32, ElementRow>
    var links: multiset<Link>
    var log: seq<Event>

    constructor ()
      ensures Now() == State(map[], multiset{}) && Integrity(Now()) && log == []
    {
      rows, links, log := map[], multiset{}, [];
    }

    ghost function Now(): State
      reads this`rows, this`links
    {
      State(rows, links)
    }

    method SelectAssetsByParent(id: uint32) returns (ids: seq<uint32>)
      ensures NoDuplicates(ids)
      ensures forall n :: n in ids <==> n in rows && rows[n].parent == id
    {
      ids := [];
      var todo := rows.Keys;
      while todo != {}
        invariant todo <= rows.Keys && NoDuplicates(ids)
        invariant forall n :: n in ids <==> n in rows.Keys - todo && rows[n].parent == id
        decreases todo
      {
        var n :| n in todo;
        if rows[n].parent == id {
          ids := ids + [n];
        }
        todo := todo - {n};
      }
    }

    /** The destinations of the links from id. */
    method SelectAssetDeviceLinksSrc(id: uint32) returns (ids: seq<uint32>)
      ensures forall n :: n in ids <==> (id, n) in links
    {
      ids := [];
      var todo := links;
      while |todo| > 0
        invariant todo <= links
        invariant forall n | n in ids :: (id, n) in links
        invariant forall n | (id, n) in links :: n in ids || (id, n) in todo
        decreases |todo|
      {
        var l :| l in todo;
        todo := todo - multiset{l};
        if l.0 == id {
          ids := ids + [l.1];
        }
      }
    }

    method DeleteAssetLinksTo(id: uint32)
      modifies this`links
      ensures WithoutLinksTo(links, old(links), id)
    {
      var kept: multiset<Link> := multiset{};
      var todo := links;
      while |todo| > 0
        invariant forall l: Link :: if l.1 == id then kept[l] == 0 else kept[l] + todo[l] == links[l]
        decreases |todo|
      {
        var l :| l in todo;
        todo := todo - multiset{l};
        if l.1 != id {
          kept := kept + multiset{l};
        }
      }
      links := kept;
    }

    /** DELETE of one row; a row that is not there is no error. */
    method DeleteAssetElement(id: uint32) returns (ok: bool)
      modifies this`rows
      ensures ok <==> !(id in old(rows) && (HasChild(old(Now()), id) || HasLinkAt(links, id)))
      ensures rows == if ok then old(rows) - {id} else old(rows)
    {
      ok := id !in rows
        || ((forall n | n in rows.Keys :: rows[n].parent != id) && (forall l | l in links :: l.0 != id && l.1 != id));
      if ok {
        rows := rows - {id};
      }
    }

    /** The transactions deleteDevice, deleteDcRoomRowRack and deleteGroup. */
    method DeleteByKind(id: uint32, kind: Kind) returns (ok: bool)
      modifies this`rows, this`links
      ensures ok <==> !Restricts(old(Now()), id, kind)
      ensures !ok ==> Now() == old(Now())
      ensures ok ==> rows == old(rows) - {id}
      ensures ok ==> if DropsLinksTo(kind) then WithoutLinksTo(links, old(links), id) else links == old(links)
      ensures !HasChild(old(Now()), id) && !HasLinkFrom(old(Now()), id) ==>
        (ok <==> id !in old(rows) || kind == Device || kind == OtherKind || forall l | l in old(links) :: l.1 != id)
    {
      var before := links;
      if DropsLinksTo(kind) {
        DeleteAssetLinksTo(id);
        OthersStayLinked(links, before, id);
      }
      ok := DeleteAssetElement(id);
      if !ok {
        links := before;
      }
    }
  }

  lemma OthersStayLinked(a: multiset<Link>, b: multiset<Link>, id: uint32)
    requires WithoutLinksTo(a, b, id)
    ensures HasLinkAt(a, id) <==> exists l :: l in b && (l.0 == id || l.1 == id) && l.1 != id
  {
    if l :| l in a && (l.0 == id || l.1 == id) {
      assert a[l] > 0 && l in b;
    }
    if l :| l in b && (l.0 == id || l.1 == id) && l.1 != id {
      assert a[l] == b[l];
    }
  }
}
