/** Deleting a batch of elements, asset/src/manager/delete.cpp. */
module ManagerDelete {
  import opened AssetModel
  import opened Forest
  import opened Sequences
  import opened ElementDb

  /** An element to delete with the children and link destinations that are deleted too. */
  datatype Element = Element(row: ElementRow, children: seq<uint32>, links: seq<uint32>)

  type Graph = map<uint32, Element>

  function Needs(el: Element): seq<uint32> {
    el.links + el.children
  }

  /** Why deleteAsset refuses an element although the tables would let it go: before
      the cascade (rack controller, last feed) and after it (logical asset,
      deactivation, last data center, group tables).  The answer may change from
      call to call; the number counts the calls so far. */
  datatype Refusals = Refusals(early: (uint32, nat) -> bool, late: (uint32, nat) -> bool)

  predicate IsRefused(r: Refusals, id: uint32, call: nat) {
    r.early(id, call) || r.late(id, call)
  }

  ghost predicate IsNeverRefused(r: Refusals, id: uint32) {
    forall call: nat :: !IsRefused(r, id, call)
  }

  // ---------- one element ----------

  ghost predicate AreCascades(events: seq<Event>) {
    forall i | 0 <= i < |events| :: events[i].Cascaded?
  }

  /** The cascades on record from some point on are of inactive sensors. */
  ghost predicate CascadesAreSensors(s0: State, log: seq<Event>, from: nat) {
    forall i | from <= i < |log| && log[i].Cascaded? :: log[i].id in s0.rows && IsInactiveSensor(s0.rows[log[i].id])
  }

  /** No row vanishes without a trace, and the cascade takes only inactive sensors. */
  ghost predicate GoneAreLogged(s0: State, s: State, log: seq<Event>) {
    forall n | n in s0.rows && n !in s.rows ::
      Deleted(n) in log || (Cascaded(n) in log && IsInactiveSensor(s0.rows[n]))
  }

  /** The rows and links after the deletion of one element. */
  ghost predicate IsDeletion(s: State, s': State, id: uint32, kind: Kind) {
    && s'.rows == s.rows - {id}
    && (if DropsLinksTo(kind) then WithoutLinksTo(s'.links, s.links, id) else s'.links == s.links)
  }

  /** deleteAsset on a child in the cascade: its own answer is ignored. */
  method DeleteSensor(db: Db, id: uint32, row: ElementRow, r: Refusals)
    requires Integrity(db.Now()) && id in db.rows && row == db.rows[id] && IsInactiveSensor(row)
    modifies db
    ensures Integrity(db.Now()) && Shrinks(db.Now(), old(db.Now()))
    ensures db.log == old(db.log) + [Cascaded(id)]
    ensures GoneAreLogged(old(db.Now()), db.Now(), [Cascaded(id)])
    ensures if IsRefused(r, id, |old(db.log)|) || Restricts(old(db.Now()), id, row.kind) then db.Now() == old(db.Now())
            else IsDeletion(old(db.Now()), db.Now(), id, row.kind)
  {
    var refused := IsRefused(r, id, |db.log|);
    db.log := db.log + [Cascaded(id)];
    if !refused {
      ghost var s := db.Now();
      var ok := db.DeleteByKind(id, row.kind);
      if ok { DeletionKeepsIntegrity(s, db.Now(), id, row.kind); }
    }
  }

  /** A device at the top of the tree takes its inactive sensors along. */
  predicate TakesSensors(row: ElementRow) {
    row.kind.Device? && row.parent == 0 && row.nonactive
  }

  predicate IsInactiveSensor(row: ElementRow) {
    row.kind.Device? && row.isSensor && row.nonactive
  }

  /** Sensors went, and the log names them. */
  ghost predicate IsCascade(s0: State, s: State, cascades: seq<Event>) {
    && Integrity(s) && Shrinks(s, s0)
    && AreCascades(cascades) && CascadesAreSensors(s0, cascades, 0) && GoneAreLogged(s0, s, cascades)
  }

  lemma CascadeOn(s0: State, s: State, s': State, log: seq<Event>, more: seq<Event>)
    requires IsCascade(s0, s, log) && IsCascade(s, s', more)
    ensures IsCascade(s0, s', log + more)
  {
    ShrinksOn(s', s, s0);
    LoggedOn(s0, s, s', log, more);
  }

  method DeleteIfSensor(db: Db, id: uint32, r: Refusals) returns (ghost cascades: seq<Event>)
    requires Integrity(db.Now())
    modifies db
    ensures IsCascade(old(db.Now()), db.Now(), cascades) && db.log == old(db.log) + cascades
    ensures IsSensorTurn(old(db.Now()), db.Now(), id, r, |old(db.log)|)
    ensures cascades == if id in old(db.rows) && IsInactiveSensor(old(db.rows)[id]) then [Cascaded(id)] else []
  {
    cascades := [];
    if id in db.rows && IsInactiveSensor(db.rows[id]) {
      DeleteSensor(db, id, db.rows[id], r);
      cascades := [Cascaded(id)];
    }
  }

  /** The cascade's turn at one child: an inactive sensor goes unless it is refused or held. */
  ghost predicate IsSensorTurn(s: State, s': State, id: uint32, r: Refusals, call: nat) {
    if id in s.rows && IsInactiveSensor(s.rows[id]) && !IsRefused(r, id, call)
      && !Restricts(s, id, s.rows[id].kind)
    then
      IsDeletion(s, s', id, s.rows[id].kind)
    else
      s' == s
  }

  /** Nothing but a refusal stops the deletion of this sensor. */
  ghost predicate IsLooseSensor(s: State, id: uint32) {
    id in s.rows && IsInactiveSensor(s.rows[id]) && !HasChild(s, id) && !HasLinkFrom(s, id)
  }

  /** Among these ids the loose sensors that are never refused are gone, and no
      others than inactive sensors that were not refused. */
  ghost predicate SensorsGo(s0: State, s: State, ids: seq<uint32>, i: nat, r: Refusals) {
    && i <= |ids|
    && (forall j | 0 <= j < i && IsLooseSensor(s0, ids[j]) && IsNeverRefused(r, ids[j]) :: ids[j] !in s.rows)
    && (forall n | n in s0.rows && n !in s.rows :: n in ids && exists call: nat :: !IsRefused(r, n, call))
  }

  lemma LooseSensorGoes(s0: State, s: State, s': State, id: uint32, r: Refusals, call: nat)
    requires Shrinks(s, s0) && Integrity(s) && IsSensorTurn(s, s', id, r, call)
    requires IsLooseSensor(s0, id) && !IsRefused(r, id, call)
    ensures id !in s'.rows
  {
    if id in s.rows {
      assert DropsLinksTo(s.rows[id].kind);
      forall l | l in s.links ensures l.0 != id {
        assert s.links[l] <= s0.links[l] && l in s0.links;
      }
      assert !HasChild(s, id);
    }
  }

  lemma SensorsGoOn(s0: State, s: State, s': State, ids: seq<uint32>, i: nat, r: Refusals, call: nat)
    requires Shrinks(s, s0) && Integrity(s) && i < |ids| && SensorsGo(s0, s, ids, i, r)
    requires IsSensorTurn(s, s', ids[i], r, call)
    ensures SensorsGo(s0, s', ids, i + 1, r)
  {
    if IsLooseSensor(s0, ids[i]) && IsNeverRefused(r, ids[i]) {
      assert !IsRefused(r, ids[i], call);
      LooseSensorGoes(s0, s, s', ids[i], r, call);
    }
    assert ids[i] in ids;
  }

  method DeleteSensors(db: Db, children: seq<uint32>, r: Refusals) returns (ghost cascades: seq<Event>)
    requires Integrity(db.Now())
    modifies db
    ensures IsCascade(old(db.Now()), db.Now(), cascades) && db.log == old(db.log) + cascades
    ensures children == [] ==> cascades == [] && db.Now() == old(db.Now())
    ensures SensorsGo(old(db.Now()), db.Now(), children, |children|, r)
  {
    cascades := [];
    ghost var s0, log0 := db.Now(), db.log;
    for i := 0 to |children|
      invariant IsCascade(s0, db.Now(), cascades) && db.log == log0 + cascades
      invariant children == [] ==> cascades == [] && db.Now() == s0
      invariant SensorsGo(s0, db.Now(), children, i, r)
    {
      ghost var s, log := db.Now(), db.log;
      ghost var more := DeleteIfSensor(db, children[i], r);
      CascadeOn(s0, s, db.Now(), cascades, more);
      LogOn(log0, log, db.log, cascades, more);
      SensorsGoOn(s0, s, db.Now(), children, i, r, |log|);
      cascades := cascades + more;
    }
  }

  lemma LogOn(log0: seq<Event>, log: seq<Event>, log': seq<Event>, cascades: seq<Event>, more: seq<Event>)
    requires log == log0 + cascades && log' == log + more
    ensures log' == log0 + (cascades + more)
  {
  }

  lemma LoggedOn(s0: State, s: State, s': State, log: seq<Event>, more: seq<Event>)
    requires Shrinks(s, s0) && GoneAreLogged(s0, s, log) && GoneAreLogged(s, s', more)
    ensures GoneAreLogged(s0, s', log + more)
  {
  }

  lemma DeletionKeepsIntegrity(s: State, s': State, id: uint32, kind: Kind)
    requires Integrity(s) && !Restricts(s, id, kind) && (id in s.rows ==> s.rows[id].kind == kind)
    requires s'.rows == s.rows - {id}
    requires if DropsLinksTo(kind) then WithoutLinksTo(s'.links, s.links, id) else s'.links == s.links
    ensures Integrity(s') && Shrinks(s', s)
  {
    forall l | l in s'.links ensures l.0 in s'.rows && l.1 in s'.rows {
      assert s'.links[l] > 0 && l in s.links;
    }
    forall l
      ensures s'.links[l] <= s.links[l]
      ensures s'.links[l] < s.links[l] ==> l.1 !in s'.rows && l.1 in s.rows && DropsLinksTo(s.rows[l.1].kind)
    {
      if s'.links[l] < s.links[l] { assert l in s.links; }
    }
  }

  /** The inactive sensors right below an element: the loose ones that are never
      refused go, and only ones that were not refused do. */
  ghost predicate TakesItsSensors(s0: State, s: State, id: uint32, r: Refusals) {
    && (forall c | IsLooseSensor(s0, c) && s0.rows[c].parent == id && IsNeverRefused(r, c) :: c !in s.rows)
    && (forall c | c in s0.rows && c !in s.rows ::
          s0.rows[c].parent == id && exists call: nat :: !IsRefused(r, c, call))
  }

  lemma ChildrenGo(s0: State, s: State, id: uint32, children: seq<uint32>, r: Refusals)
    requires SensorsGo(s0, s, children, |children|, r)
    requires forall n :: n in children <==> n in s0.rows && s0.rows[n].parent == id
    ensures TakesItsSensors(s0, s, id, r)
  {
    forall c | IsLooseSensor(s0, c) && s0.rows[c].parent == id && IsNeverRefused(r, c) ensures c !in s.rows {
      var j :| 0 <= j < |children| && children[j] == c;
    }
  }

  /** The cascade at the start of deleteAsset. */
  method DeleteSensorsOf(db: Db, id: uint32, row: ElementRow, r: Refusals) returns (ghost cascades: seq<Event>)
    requires Integrity(db.Now())
    modifies db
    ensures IsCascade(old(db.Now()), db.Now(), cascades) && db.log == old(db.log) + cascades
    ensures !HasChild(old(db.Now()), id) ==> cascades == [] && db.Now() == old(db.Now())
    ensures if TakesSensors(row) then TakesItsSensors(old(db.Now()), db.Now(), id, r)
            else cascades == [] && db.Now() == old(db.Now())
  {
    cascades := [];
    if TakesSensors(row) {
      var children := db.SelectAssetsByParent(id);
      if children != [] { assert children[0] in children; }
      cascades := DeleteSensors(db, children, r);
      ChildrenGo(old(db.Now()), db.Now(), id, children, r);
    }
  }

  /** The end of deleteAsset: the transaction for this kind of element, unless refused. */
  method DeleteRow(db: Db, id: uint32, row: ElementRow, r: Refusals) returns (ok: bool)
    modifies db
    ensures ok <==> !r.late(id, |old(db.log)|) && !Restricts(old(db.Now()), id, row.kind)
    ensures if ok then IsDeletion(old(db.Now()), db.Now(), id, row.kind) else db.Now() == old(db.Now())
    ensures db.log == old(db.log) + [EndOf(id, r.late(id, |old(db.log)|), ok)]
  {
    if r.late(id, |db.log|) {
      ok := false;
      db.log := db.log + [Refused(id)];
    } else {
      ok := db.DeleteByKind(id, row.kind);
      db.log := db.log + [EndOf(id, false, ok)];
    }
  }

  function EndOf(id: uint32, refused: bool, ok: bool): Event {
    if refused then Refused(id) else if ok then Deleted(id) else Restricted(id)
  }

  /** What deleteAsset does to the tables, with the state between cascade and transaction. */
  ghost predicate IsDeleteAsset(s0: State, mid: State, s: State, id: uint32, row: ElementRow, r: Refusals, call: nat,
          cascades: seq<Event>, ok: bool, end: Event)
  {
    && IsCascade(s0, mid, cascades)
    && (if TakesSensors(row) && !r.early(id, call) then TakesItsSensors(s0, mid, id, r)
        else cascades == [] && mid == s0)
    && (!HasChild(s0, id) ==> cascades == [] && mid == s0)
    && (ok <==> !r.early(id, call) && !r.late(id, call + |cascades|) && !Restricts(mid, id, row.kind))
    && end == (if r.early(id, call) || r.late(id, call + |cascades|) then Refused(id)
               else if ok then Deleted(id) else Restricted(id))
    && (if ok then IsDeletion(mid, s, id, row.kind) else s == mid)
  }

  /** deleteAsset. */
  method DeleteAsset(db: Db, id: uint32, row: ElementRow, r: Refusals)
    returns (ok: bool, ghost cascades: seq<Event>, ghost end: Event, ghost mid: State)
    requires Integrity(db.Now())
    modifies db
    ensures IsDeleteAsset(old(db.Now()), mid, db.Now(), id, row, r, |old(db.log)|, cascades, ok, end)
    ensures db.log == old(db.log) + cascades + [end]
  {
    if r.early(id, |db.log|) {
      ok, cascades, end, mid := false, [], Refused(id), db.Now();
      db.log := db.log + [Refused(id)];
      NoCascade(mid);
    } else {
      cascades := DeleteSensorsOf(db, id, row, r);
      mid := db.Now();
      ghost var late := r.late(id, |db.log|);
      ok := DeleteRow(db, id, row, r);
      end := EndOf(id, late, ok);
    }
  }

  lemma NoCascade(s: State)
    requires Integrity(s)
    ensures IsCascade(s, s, [])
  {
  }

  /** What is known after any deleteAsset. */
  lemma DeleteAssetIs(s0: State, mid: State, s: State, id: uint32, row: ElementRow, r: Refusals, call: nat,
          cascades: seq<Event>, ok: bool, end: Event)
    requires IsDeleteAsset(s0, mid, s, id, row, r, call, cascades, ok, end)
    requires Integrity(s0) && (id in s0.rows ==> s0.rows[id] == row)
    ensures Integrity(s) && Shrinks(s, s0) && (ok ==> id !in s.rows)
    ensures AreCascades(cascades) && CascadesAreSensors(s0, cascades, 0)
    ensures GoneAreLogged(s0, s, cascades + [end])
    ensures end.id == id && IsAttempt(end) && (ok <==> end.Deleted?)
    ensures end.Restricted? ==> Restricts(mid, id, row.kind)
  {
    if ok {
      DeletionKeepsIntegrity(mid, s, id, row.kind);
      ShrinksOn(s, mid, s0);
    }
    LoggedOn(s0, mid, s, cascades, [end]);
  }

  // ---------- the recursion ----------

  /** An element comes after everything it needs gone. */
  ghost predicate IsOrderedBy(graph: Graph, rank: map<uint32, nat>) {
    && graph.Keys <= rank.Keys
    && forall id | id in graph :: forall n | n in Needs(graph[id]) :: n in graph && rank[n] < rank[id]
  }

  ghost predicate IsAttempt(e: Event) {
    !e.Cascaded?
  }

  /** Every element is tried only after all it needs is deleted. */
  ghost predicate AfterItsNeeds(graph: Graph, log: seq<Event>) {
    forall i | 0 <= i < |log| && IsAttempt(log[i]) ::
      log[i].id in graph && forall n | n in Needs(graph[log[i].id]) :: Deleted(n) in log[..i]
  }

  /** No element is tried again once it is deleted. */
  ghost predicate DeletedOnce(log: seq<Event>) {
    forall i, j | 0 <= i < j < |log| && log[i].Deleted? && IsAttempt(log[j]) :: log[i].id != log[j].id
  }

  ghost predicate IsFlagged(isDeleted: set<uint32>, log: seq<Event>) {
    forall n :: n in isDeleted <==> Deleted(n) in log
  }

  ghost predicate InStep(graph: Graph, isDeleted: set<uint32>, s: State, log: seq<Event>) {
    && Integrity(s)
    && AfterItsNeeds(graph, log) && DeletedOnce(log) && IsFlagged(isDeleted, log)
    && (forall n | n in isDeleted :: n in graph && n !in s.rows)
    && (forall n | n in graph && n in s.rows :: s.rows[n] == graph[n].row)
  }

  /** The graph knows every child and every link destination of its elements, and
      links lead to elements whose deletion drops them. */
  ghost predicate IsCovering(graph: Graph, s: State) {
    KnowsChildren(graph, s) && KnowsLinks(graph, s) && DropsLinks(graph, s)
  }

  ghost predicate KnowsChildren(graph: Graph, s: State) {
    forall c | c in s.rows && s.rows[c].parent in graph :: c in graph[s.rows[c].parent].children
  }

  ghost predicate KnowsLinks(graph: Graph, s: State) {
    forall l | l in s.links && l.0 in graph :: l.1 in graph[l.0].links
  }

  ghost predicate DropsLinks(graph: Graph, s: State) {
    forall l | l in s.links && l.1 in graph :: DropsLinksTo(graph[l.1].row.kind)
  }

  ghost predicate NeverRestricted(log: seq<Event>) {
    forall i | 0 <= i < |log| :: !log[i].Restricted? && !log[i].Cascaded?
  }

  lemma CoveringStays(graph: Graph, s: State, s0: State)
    requires IsCovering(graph, s0) && Shrinks(s, s0)
    ensures IsCovering(graph, s)
  {
    forall l | l in s.links ensures l in s0.links {
    }
  }

  /** With all its needs gone, nothing in the tables holds the element. */
  lemma NothingHolds(graph: Graph, isDeleted: set<uint32>, s: State, id: uint32)
    requires Integrity(s) && IsCovering(graph, s) && id in graph
    requires forall n | n in Needs(graph[id]) :: n in isDeleted
    requires forall n | n in isDeleted :: n !in s.rows
    ensures !HasChild(s, id) && !Restricts(s, id, graph[id].row.kind)
  {
    assert forall c | c in graph[id].children + graph[id].links :: c in Needs(graph[id]);
  }

  lemma LogOneMore(graph: Graph, isDeleted: set<uint32>, log: seq<Event>, cascades: seq<Event>, end: Event, id: uint32)
    requires AfterItsNeeds(graph, log) && DeletedOnce(log) && IsFlagged(isDeleted, log)
    requires id in graph && id !in isDeleted && end.id == id && IsAttempt(end) && AreCascades(cascades)
    requires forall n | n in Needs(graph[id]) :: n in isDeleted
    ensures AfterItsNeeds(graph, log + cascades + [end]) && DeletedOnce(log + cascades + [end])
    ensures IsFlagged(if end.Deleted? then isDeleted + {id} else isDeleted, log + cascades + [end])
  {
    var after := log + cascades + [end];
    forall i | 0 <= i < |after| && IsAttempt(after[i])
      ensures after[i].id in graph && forall n | n in Needs(graph[after[i].id]) :: Deleted(n) in after[..i]
    {
      if i < |log| {
        assert after[..i] == log[..i];
      } else {
        assert i == |log + cascades|;
        assert after[..i] == log + cascades;
        forall n | n in Needs(graph[id]) ensures Deleted(n) in after[..i] {
          assert Deleted(n) in log;
        }
      }
    }
    forall n ensures Deleted(n) in after <==> Deleted(n) in log || (end.Deleted? && n == id) {
      if Deleted(n) in after {
        var i :| 0 <= i < |after| && after[i] == Deleted(n);
      }
      if Deleted(n) in log {
        var i :| 0 <= i < |log| && log[i] == Deleted(n);
        assert after[i] == Deleted(n);
      }
      if end == Deleted(n) { assert after[|after| - 1] == Deleted(n); }
    }
    OnceMore(log, cascades, end);
  }

  lemma OnceMore(log: seq<Event>, cascades: seq<Event>, end: Event)
    requires DeletedOnce(log) && AreCascades(cascades) && IsAttempt(end) && Deleted(end.id) !in log
    ensures DeletedOnce(log + cascades + [end])
  {
    var after := log + cascades + [end];
    forall i, j | 0 <= i < j < |after| && after[i].Deleted? && IsAttempt(after[j]) ensures after[i].id != after[j].id {
      if i < |log| {
        assert after[i] == log[i];
        if j < |log| { assert after[j] == log[j]; }
      }
    }
  }

  /** What the recursion knows and what it has done, at one moment. */
  datatype Moment = Moment(isDeleted: set<uint32>, s: State, log: seq<Event>)

  /** From one moment to a later one: rows only go, the log only grows, and a
      covering graph never meets a RESTRICT key. */
  ghost predicate Progress(graph: Graph, a: Moment, b: Moment) {
    && InStep(graph, b.isDeleted, b.s, b.log)
    && a.isDeleted <= b.isDeleted
    && Shrinks(b.s, a.s)
    && a.log <= b.log
    && GoneAreLogged(a.s, b.s, b.log)
    && CascadesAreSensors(a.s, b.log, |a.log|)
    && (IsCovering(graph, a.s) && NeverRestricted(a.log) ==> NeverRestricted(b.log))
  }

  lemma CascadesOn(a: State, b: State, log: seq<Event>, log': seq<Event>, from: nat)
    requires Shrinks(b, a) && log <= log' && from <= |log|
    requires CascadesAreSensors(a, log, from) && CascadesAreSensors(b, log', |log|)
    ensures CascadesAreSensors(a, log', from)
  {
    forall i | from <= i < |log'| && log'[i].Cascaded?
      ensures log'[i].id in a.rows && IsInactiveSensor(a.rows[log'[i].id])
    {
      if i < |log| { assert log'[i] == log[i]; }
    }
  }

  lemma ProgressOn(graph: Graph, a: Moment, b: Moment, c: Moment)
    requires Progress(graph, a, b) && Progress(graph, b, c)
    ensures Progress(graph, a, c)
  {
    ShrinksOn(c.s, b.s, a.s);
    CascadesOn(a.s, b.s, b.log, c.log, |a.log|);
    if IsCovering(graph, a.s) { CoveringStays(graph, b.s, a.s); }
  }

  ghost predicate HasFailure(log: seq<Event>) {
    exists i :: 0 <= i < |log| && (log[i].Refused? || log[i].Restricted?)
  }

  /** An attempt on an element whose needs are all deleted. */
  ghost predicate IsAttemptOn(graph: Graph, a: Moment, b: Moment, id: uint32, cascades: seq<Event>, end: Event) {
    && InStep(graph, a.isDeleted, a.s, a.log) && id in graph && id !in a.isDeleted
    && (forall n | n in Needs(graph[id]) :: n in a.isDeleted)
    && Integrity(b.s) && Shrinks(b.s, a.s) && end.id == id && IsAttempt(end)
    && b.log == a.log + cascades + [end] && AreCascades(cascades) && CascadesAreSensors(a.s, cascades, 0)
    && b.isDeleted == (if end.Deleted? then a.isDeleted + {id} else a.isDeleted)
    && (end.Deleted? ==> id !in b.s.rows)
  }

  lemma AttemptKeepsStep(graph: Graph, a: Moment, b: Moment, id: uint32, cascades: seq<Event>, end: Event)
    requires IsAttemptOn(graph, a, b, id, cascades, end)
    ensures InStep(graph, b.isDeleted, b.s, b.log)
  {
    LogOneMore(graph, a.isDeleted, a.log, cascades, end, id);
  }

  lemma AttemptMeetsNoKey(graph: Graph, a: Moment, b: Moment, id: uint32, cascades: seq<Event>, end: Event)
    requires IsAttemptOn(graph, a, b, id, cascades, end) && IsCovering(graph, a.s)
    requires !HasChild(a.s, id) ==> cascades == []
    requires !HasChild(a.s, id) && end.Restricted? ==> Restricts(a.s, id, graph[id].row.kind)
    ensures NeverRestricted(a.log) ==> NeverRestricted(b.log)
  {
    NothingHolds(graph, a.isDeleted, a.s, id);
    StaysUnrestricted(a.log, cascades, end);
  }

  lemma AttemptIsProgress(graph: Graph, a: Moment, b: Moment, id: uint32, cascades: seq<Event>, end: Event)
    requires IsAttemptOn(graph, a, b, id, cascades, end)
    requires !HasChild(a.s, id) ==> cascades == []
    requires !HasChild(a.s, id) && end.Restricted? ==> Restricts(a.s, id, graph[id].row.kind)
    requires GoneAreLogged(a.s, b.s, cascades + [end])
    ensures Progress(graph, a, b)
  {
    AttemptKeepsStep(graph, a, b, id, cascades, end);
    if IsCovering(graph, a.s) {
      AttemptMeetsNoKey(graph, a, b, id, cascades, end);
    }
    assert b.log == a.log + (cascades + [end]);
    LoggedLater(a.s, b.s, a.log, cascades + [end]);
  }

  lemma StaysUnrestricted(log: seq<Event>, cascades: seq<Event>, end: Event)
    requires cascades == [] && !end.Restricted? && IsAttempt(end)
    ensures NeverRestricted(log) ==> NeverRestricted(log + cascades + [end])
  {
  }

  lemma LoggedLater(s0: State, s: State, log: seq<Event>, more: seq<Event>)
    requires GoneAreLogged(s0, s, more)
    ensures GoneAreLogged(s0, s, log + more)
  {
  }

  ghost predicate OnlyBelow(ids: set<uint32>, rank: map<uint32, nat>, bound: nat) {
    forall n | n in ids :: n in rank && rank[n] < bound
  }

  /** The answers do not change from call to call: these ids are refused, the others are not. */
  ghost predicate IsSteady(r: Refusals, ids: set<uint32>, refused: set<uint32>) {
    forall n, call: nat | n in ids :: IsRefused(r, n, call) <==> n in refused
  }

  /** Held back: refused, or in need of something that is held back. */
  ghost predicate AreHeldBack(graph: Graph, refused: set<uint32>, held: set<uint32>) {
    forall id | id in graph :: id in held <==> id in refused || exists n :: n in Needs(graph[id]) && n in held
  }

  /** What a visit leaves on record when the answers are steady and no key is in the way: the links
      come first and then the children, up to one that is held back, and last the element. */
  ghost function Record(graph: Graph, rank: map<uint32, nat>, refused: set<uint32>, held: set<uint32>, id: uint32,
          log: seq<Event>): seq<Event>
    requires IsOrderedBy(graph, rank) && id in graph
    decreases rank[id], 2, 0
  {
    if Deleted(id) in log then log
    else
      var needs := RecordNeeds(graph, rank, refused, held, id, log);
      if !AreFree(graph[id].links, held) || !AreFree(graph[id].children, held) then needs
      else needs + [if id in refused then Refused(id) else Deleted(id)]
  }

  ghost function RecordNeeds(graph: Graph, rank: map<uint32, nat>, refused: set<uint32>, held: set<uint32>, id: uint32,
          log: seq<Event>): seq<Event>
    requires IsOrderedBy(graph, rank) && id in graph
    decreases rank[id], 1, 0
  {
    NeedsAreLower(graph, rank, id);
    var linked := RecordEach(graph, rank, refused, held, graph[id].links, log, rank[id]);
    if !AreFree(graph[id].links, held) then linked
    else RecordEach(graph, rank, refused, held, graph[id].children, linked, rank[id])
  }

  ghost function RecordEach(graph: Graph, rank: map<uint32, nat>, refused: set<uint32>, held: set<uint32>,
          ids: seq<uint32>, log: seq<Event>, bound: nat): seq<Event>
    requires IsOrderedBy(graph, rank) && AreLower(graph, rank, ids, bound)
    decreases bound, 0, |ids|
  {
    if ids == [] then log
    else
      var first := Record(graph, rank, refused, held, ids[0], log);
      if ids[0] in held then first else RecordEach(graph, rank, refused, held, ids[1..], first, bound)
  }

  /** The loop over the list goes on whatever becomes of an element. */
  ghost function RecordAll(graph: Graph, rank: map<uint32, nat>, refused: set<uint32>, held: set<uint32>,
          ids: seq<uint32>, log: seq<Event>): seq<Event>
    requires IsOrderedBy(graph, rank) && forall n | n in ids :: n in graph
  {
    if ids == [] then log
    else RecordAll(graph, rank, refused, held, ids[1..], Record(graph, rank, refused, held, ids[0], log))
  }

  /** The loop over ids is at i: what is left to visit decides the rest of the record. */
  ghost predicate IsOnRecord(graph: Graph, rank: map<uint32, nat>, refused: set<uint32>, held: set<uint32>,
          ids: seq<uint32>, i: nat, bound: nat, log0: seq<Event>, log: seq<Event>)
  {
    && IsOrderedBy(graph, rank) && AreLower(graph, rank, ids, bound) && i <= |ids| && AreFree(ids[..i], held)
    && RecordEach(graph, rank, refused, held, ids, log0, bound)
      == RecordEach(graph, rank, refused, held, ids[i..], log, bound)
  }

  lemma RecordOneMore(graph: Graph, rank: map<uint32, nat>, refused: set<uint32>, held: set<uint32>,
          ids: seq<uint32>, i: nat, bound: nat, log0: seq<Event>, log: seq<Event>)
    requires IsOrderedBy(graph, rank) && i < |ids| && ids[i] in graph
    ensures IsOnRecord(graph, rank, refused, held, ids, i, bound, log0, log) ==>
      var log' := Record(graph, rank, refused, held, ids[i], log);
      if ids[i] in held then RecordEach(graph, rank, refused, held, ids, log0, bound) == log' && !AreFree(ids, held)
      else IsOnRecord(graph, rank, refused, held, ids, i + 1, bound, log0, log')
  {
    FreeOneMore(ids, i, held);
    assert ids[i..][1..] == ids[i + 1..];
  }

  ghost predicate AreLower(graph: Graph, rank: map<uint32, nat>, ids: seq<uint32>, bound: nat) {
    forall n | n in ids :: n in graph && n in rank && rank[n] < bound
  }

  lemma NeedsAreLower(graph: Graph, rank: map<uint32, nat>, id: uint32)
    requires IsOrderedBy(graph, rank) && id in graph
    ensures AreLower(graph, rank, graph[id].links, rank[id]) && AreLower(graph, rank, graph[id].children, rank[id])
  {
    forall n ensures n in Needs(graph[id]) <==> n in graph[id].links || n in graph[id].children {
    }
  }

  /** The loop over ids at i, from moment a to moment b. */
  ghost predicate IsEachTurn(graph: Graph, rank: map<uint32, nat>, ids: seq<uint32>, i: nat, bound: nat, a: Moment,
          b: Moment)
  {
    Progress(graph, a, b) && AreFirstIn(ids, i, b.isDeleted) && OnlyBelow(b.isDeleted - a.isDeleted, rank, bound)
  }

  lemma EachTurnDone(graph: Graph, rank: map<uint32, nat>, ids: seq<uint32>, i: nat, bound: nat, a: Moment, b: Moment,
          c: Moment)
    requires IsEachTurn(graph, rank, ids, i, bound, a, b) && Progress(graph, b, c)
    requires i < |ids| && ids[i] in rank && rank[ids[i]] < bound
    requires OnlyBelow(c.isDeleted - b.isDeleted, rank, rank[ids[i]] + 1)
    ensures Progress(graph, a, c) && OnlyBelow(c.isDeleted - a.isDeleted, rank, bound)
    ensures ids[i] in c.isDeleted ==> IsEachTurn(graph, rank, ids, i + 1, bound, a, c)
  {
    ProgressOn(graph, a, b, c);
  }

  class Batch {
    const db: Db
    const graph: Graph
    const r: Refusals
    ghost const refused: set<uint32>
    ghost const held: set<uint32>
    var isDeleted: set<uint32>

    constructor (db: Db, graph: Graph, r: Refusals, ghost refused: set<uint32>, ghost held: set<uint32>)
      ensures this.db == db && this.graph == graph && this.r == r && isDeleted == {}
      ensures this.refused == refused && this.held == held
    {
      this.db, this.graph, this.r, isDeleted := db, graph, r, {};
      this.refused, this.held := refused, held;
    }

    /** With steady answers and a covering graph, what is held back decides everything. */
    ghost predicate IsDecided()
      reads this`isDeleted, db
    {
      && IsSteady(r, graph.Keys, refused) && AreHeldBack(graph, refused, held)
      && IsCovering(graph, db.Now()) && isDeleted !! held
    }

    ghost function Now(): Moment
      reads this`isDeleted, db
    {
      Moment(isDeleted, db.Now(), db.log)
    }

    ghost predicate Ready(rank: map<uint32, nat>)
      reads this`isDeleted, db
    {
      InStep(graph, isDeleted, db.Now(), db.log) && IsOrderedBy(graph, rank)
    }

    /** deleteAssetRec: links first, then children, then the element itself. */
    method DeleteAssetRec(id: uint32, ghost rank: map<uint32, nat>) returns (ok: bool)
      requires Ready(rank) && id in graph
      modifies this`isDeleted, db
      ensures Progress(graph, old(Now()), Now())
      ensures if ok then id in isDeleted else HasFailure(db.log)
      ensures OnlyBelow(isDeleted - old(isDeleted), rank, rank[id] + 1)
      ensures old(IsDecided()) ==> IsDecided() && (ok <==> id !in held)
      ensures old(IsDecided()) ==> db.log == Record(graph, rank, refused, held, id, old(db.log))
      decreases rank[id], 2
    {
      ghost var a := Now();
      if id in isDeleted {
        return true;
      }
      NeedsAreHeldBack(graph, refused, held, id);
      NeedsAreLower(graph, rank, id);
      ok := DeleteNeeds(id, rank);
      ghost var c := Now();
      if !ok {
        return;
      }
      ok := DeleteItself(id);
      ProgressOn(graph, a, c, Now());
    }

    /** The links, then the children. */
    method DeleteNeeds(id: uint32, ghost rank: map<uint32, nat>) returns (ok: bool)
      requires Ready(rank) && id in graph
      modifies this`isDeleted, db
      ensures Progress(graph, old(Now()), Now())
      ensures if ok then forall n | n in Needs(graph[id]) :: n in isDeleted else HasFailure(db.log)
      ensures OnlyBelow(isDeleted - old(isDeleted), rank, rank[id])
      ensures old(IsDecided()) ==>
        IsDecided() && (ok <==> AreFree(graph[id].links, held) && AreFree(graph[id].children, held))
      ensures old(IsDecided()) ==> db.log == RecordNeeds(graph, rank, refused, held, id, old(db.log))
      decreases rank[id], 1
    {
      ghost var a := Now();
      NeedsAreLower(graph, rank, id);
      ok := DeleteEach(graph[id].links, rank, rank[id]);
      ghost var b := Now();
      if !ok {
        return;
      }
      ok := DeleteEach(graph[id].children, rank, rank[id]);
      ProgressOn(graph, a, b, Now());
    }

    method DeleteEach(ids: seq<uint32>, ghost rank: map<uint32, nat>, ghost bound: nat) returns (ok: bool)
      requires Ready(rank) && AreLower(graph, rank, ids, bound)
      modifies this`isDeleted, db
      ensures Progress(graph, old(Now()), Now())
      ensures if ok then forall n | n in ids :: n in isDeleted else HasFailure(db.log)
      ensures OnlyBelow(isDeleted - old(isDeleted), rank, bound)
      ensures old(IsDecided()) ==> IsDecided() && (ok <==> AreFree(ids, held))
      ensures old(IsDecided()) ==> db.log == RecordEach(graph, rank, refused, held, ids, old(db.log), bound)
      decreases bound, 0
    {
      ghost var a, decided := Now(), IsDecided();
      for i := 0 to |ids|
        invariant IsEachTurn(graph, rank, ids, i, bound, a, Now())
        invariant decided ==> IsDecided() && IsOnRecord(graph, rank, refused, held, ids, i, bound, a.log, db.log)
      {
        ghost var b := Now();
        assert ids[i] in ids;
        RecordOneMore(graph, rank, refused, held, ids, i, bound, a.log, b.log);
        ok := DeleteAssetRec(ids[i], rank);
        EachTurnDone(graph, rank, ids, i, bound, a, b, Now());
        if !ok {
          return;
        }
      }
      assert ids[..|ids|] == ids;
      ok := true;
    }

    method DeleteItself(id: uint32) returns (ok: bool)
      requires InStep(graph, isDeleted, db.Now(), db.log) && id in graph && id !in isDeleted
      requires forall n | n in Needs(graph[id]) :: n in isDeleted
      modifies this`isDeleted, db
      ensures Progress(graph, old(Now()), Now())
      ensures if ok then isDeleted == old(isDeleted) + {id} else isDeleted == old(isDeleted) && HasFailure(db.log)
      ensures old(IsDecided()) ==> (ok <==> id !in refused)
      ensures old(IsDecided()) ==> db.log == old(db.log) + [if ok then Deleted(id) else Refused(id)]
    {
      ghost var a := Now();
      ghost var cascades, end, mid;
      ok, cascades, end, mid := DeleteAsset(db, id, graph[id].row, r);
      if ok {
        isDeleted := isDeleted + {id};
      }
      DeleteAssetIs(a.s, mid, db.Now(), id, graph[id].row, r, |a.log|, cascades, ok, end);
      AttemptIsProgress(graph, a, Now(), id, cascades, end);
      EndIsLogged(db.log, a.log + cascades, end);
      if IsSteady(r, graph.Keys, refused) && IsCovering(graph, a.s) {
        AttemptIsDecided(graph, a, mid, Now(), id, r, refused, cascades, ok, end);
      }
    }
  }

  lemma EndIsLogged(log: seq<Event>, before: seq<Event>, end: Event)
    requires log == before + [end]
    ensures end.Refused? || end.Restricted? ==> HasFailure(log)
  {
    assert log[|before|] == end;
  }

  /** With nothing left that holds the element, only a refusal stops its deletion. */
  lemma AttemptIsDecided(graph: Graph, a: Moment, mid: State, b: Moment, id: uint32, r: Refusals, refused: set<uint32>,
          cascades: seq<Event>, ok: bool, end: Event)
    requires InStep(graph, a.isDeleted, a.s, a.log) && id in graph && IsCovering(graph, a.s)
    requires forall n | n in Needs(graph[id]) :: n in a.isDeleted
    requires IsDeleteAsset(a.s, mid, b.s, id, graph[id].row, r, |a.log|, cascades, ok, end)
    requires IsSteady(r, graph.Keys, refused)
    ensures ok <==> id !in refused
    ensures cascades == [] && end == if ok then Deleted(id) else Refused(id)
  {
    NothingHolds(graph, a.isDeleted, a.s, id);
    assert IsRefused(r, id, |a.log|) <==> id in refused;
  }

  ghost predicate AreFree(ids: seq<uint32>, held: set<uint32>) {
    forall n | n in ids :: n !in held
  }

  lemma FreeOneMore(ids: seq<uint32>, i: nat, held: set<uint32>)
    requires i < |ids|
    ensures AreFree(ids[..i + 1], held) <==> AreFree(ids[..i], held) && ids[i] !in held
    ensures AreFree(ids, held) ==> ids[i] !in held
  {
    assert ids[..i + 1] == ids[..i] + [ids[i]];
    assert ids[i] in ids[..i + 1];
  }

  lemma NeedsAreHeldBack(graph: Graph, refused: set<uint32>, held: set<uint32>, id: uint32)
    requires id in graph
    ensures AreHeldBack(graph, refused, held) ==>
      (id in held <==> id in refused || !AreFree(graph[id].links, held) || !AreFree(graph[id].children, held))
  {
    forall n ensures n in Needs(graph[id]) <==> n in graph[id].links || n in graph[id].children {
    }
  }

  // ---------- choosing what to delete ----------

  ghost predicate StoredForest(s: State) {
    Integrity(s) && IsForest(ParentsOf(s))
  }

  /** The descendants that are not to be deleted, each once. */
  ghost predicate AreOutsideBelow(p: map<uint32, uint32>, id: uint32, ids: set<uint32>, found: seq<uint32>)
    requires IsForest(p)
  {
    NoDuplicates(found) && forall y :: y in found <==> y in p && y !in ids && Above(p, id, y)
  }

  ghost predicate AreOutsideUnder(p: map<uint32, uint32>, siblings: seq<uint32>, i: nat, ids: set<uint32>,
          found: seq<uint32>)
    requires IsForest(p) && i <= |siblings|
  {
    NoDuplicates(found) && forall y :: y in found <==> y in p && y !in ids && UnderSome(p, siblings, i, y)
  }

  /** The id itself, if it is not one of those to delete. */
  function Outside(id: uint32, ids: set<uint32>): seq<uint32> {
    if id in ids then [] else [id]
  }

  lemma OneMoreSibling(p: map<uint32, uint32>, id: uint32, siblings: seq<uint32>, i: nat, ids: set<uint32>,
          found: seq<uint32>, below: seq<uint32>)
    requires IsForest(p) && AreChildren(p, id, siblings) && i < |siblings|
    requires AreOutsideUnder(p, siblings, i, ids, found)
    requires AreOutsideBelow(p, siblings[i], ids, below)
    ensures AreOutsideUnder(p, siblings, i + 1, ids, found + Outside(siblings[i], ids) + below)
  {
    assert siblings[i] in siblings;
    JoinSibling(p, id, siblings, i, found, Outside(siblings[i], ids), below);
    var sum := found + Outside(siblings[i], ids) + below;
    forall y ensures y in sum <==> y in p && y !in ids && UnderSome(p, siblings, i + 1, y) {
      assert y in sum <==> y in found || y in Outside(siblings[i], ids) || y in below;
    }
  }

  lemma AllSiblings(p: map<uint32, uint32>, id: uint32, siblings: seq<uint32>, ids: set<uint32>, found: seq<uint32>)
    requires IsForest(p) && AreChildren(p, id, siblings) && AreOutsideUnder(p, siblings, |siblings|, ids, found)
    ensures AreOutsideBelow(p, id, ids, found)
  {
    UnderAllSiblings(p, id, siblings);
  }

  method SelectChildren(db: Db, id: uint32) returns (children: seq<uint32>)
    requires StoredForest(db.Now()) && id in db.rows
    ensures AreChildren(ParentsOf(db.Now()), id, children)
    ensures forall i | 0 <= i < |children| :: IsChild(db.Now(), id, children[i])
  {
    children := db.SelectAssetsByParent(id);
    forall i | 0 <= i < |children| ensures IsChild(db.Now(), id, children[i]) {
      assert children[i] in children;
      ChildDeeper(db.Now(), id, children[i]);
    }
  }

  ghost predicate IsChild(s: State, id: uint32, c: uint32)
    requires StoredForest(s) && id in s.rows
  {
    c in s.rows && Depth(ParentsOf(s))[c] == Depth(ParentsOf(s))[id] + 1 <= Height(ParentsOf(s))
  }

  /** collectChildren appends to the list it is given. */
  method CollectChildren(db: Db, parentId: uint32, children: seq<uint32>, ids: set<uint32>) returns (r: seq<uint32>)
    requires StoredForest(db.Now()) && parentId in db.rows
    ensures children <= r && AreOutsideBelow(ParentsOf(db.Now()), parentId, ids, r[|children|..])
    decreases Height(ParentsOf(db.Now())) - Depth(ParentsOf(db.Now()))[parentId], 0
  {
    r := children;
    ghost var p := ParentsOf(db.Now());
    var ret := SelectChildren(db, parentId);
    for i := 0 to |ret|
      invariant children <= r && AreOutsideUnder(p, ret, i, ids, r[|children|..])
    {
      assert IsChild(db.Now(), parentId, ret[i]);
      ghost var found := r[|children|..];
      ghost var before := r + Outside(ret[i], ids);
      r := CollectChild(db, ret[i], r, ids);
      OneMoreCollected(p, parentId, ret, i, ids, children, found, before, r);
    }
    AllSiblings(p, parentId, ret, ids, r[|children|..]);
  }

  /** One child, and all below it. */
  method CollectChild(db: Db, id: uint32, children: seq<uint32>, ids: set<uint32>) returns (r: seq<uint32>)
    requires StoredForest(db.Now()) && id in db.rows
    ensures var before := children + Outside(id, ids);
      before <= r && AreOutsideBelow(ParentsOf(db.Now()), id, ids, r[|before|..])
    decreases Height(ParentsOf(db.Now())) - Depth(ParentsOf(db.Now()))[id], 1
  {
    r := CollectChildren(db, id, children + Outside(id, ids), ids);
  }

  lemma OneMoreCollected(p: map<uint32, uint32>, id: uint32, siblings: seq<uint32>, i: nat, ids: set<uint32>,
                         children: seq<uint32>, found: seq<uint32>, before: seq<uint32>, r: seq<uint32>)
    requires IsForest(p) && AreChildren(p, id, siblings) && i < |siblings|
    requires AreOutsideUnder(p, siblings, i, ids, found)
    requires before == children + found + Outside(siblings[i], ids)
    requires before <= r && AreOutsideBelow(p, siblings[i], ids, r[|before|..])
    ensures children <= r && AreOutsideUnder(p, siblings, i + 1, ids, r[|children|..])
  {
    var below := r[|before|..];
    OneMoreSibling(p, id, siblings, i, ids, found, below);
    assert r == before + below;
    Regroup(children, found, Outside(siblings[i], ids), below);
    assert r[|children|..] == found + Outside(siblings[i], ids) + below;
  }

  lemma ChildDeeper(s: State, id: uint32, c: uint32)
    requires StoredForest(s) && id in s.rows && c in s.rows && s.rows[c].parent == id
    ensures Depth(ParentsOf(s))[c] == Depth(ParentsOf(s))[id] + 1 <= Height(ParentsOf(s))
  {
    assert BoundsDepth(ParentsOf(s), Height(ParentsOf(s)));
    assert ParentsOf(s)[c] == id;
  }

  /** collectLinks: the destinations that are not to be deleted. */
  method CollectLinks(db: Db, id: uint32, ids: set<uint32>) returns (links: seq<uint32>)
    ensures forall n :: n in links <==> (id, n) in db.links && n !in ids
  {
    links := [];
    var ret := db.SelectAssetDeviceLinksSrc(id);
    for i := 0 to |ret|
      invariant forall n :: n in links <==> n in ret[..i] && n !in ids
    {
      assert ret[..i + 1] == ret[..i] + [ret[i]];
      if ret[i] !in ids {
        links := links + [ret[i]];
      }
    }
    assert ret[..|ret|] == ret;
  }

  /** The loop that moves inactive sensors from the children to the list. */
  method MoveSensors(db: Db, children: seq<uint32>) returns (sensors: seq<uint32>, rest: seq<uint32>)
    requires NoDuplicates(children) && forall n | n in children :: n in db.rows
    ensures NoDuplicates(sensors)
    ensures forall n :: n in sensors <==> n in children && IsInactiveSensor(db.rows[n])
    ensures forall n :: n in rest <==> n in children && !IsInactiveSensor(db.rows[n])
  {
    sensors, rest := [], [];
    for i := 0 to |children|
      invariant NoDuplicates(sensors)
      invariant forall n :: n in sensors <==> n in children[..i] && IsInactiveSensor(db.rows[n])
      invariant forall n :: n in rest <==> n in children[..i] && !IsInactiveSensor(db.rows[n])
    {
      assert children[..i + 1] == children[..i] + [children[i]];
      assert children[i] in children && children[i] !in children[..i];
      if IsInactiveSensor(db.rows[children[i]]) {
        sensors := sensors + [children[i]];
      } else {
        rest := rest + [children[i]];
      }
    }
    assert children[..|children|] == children;
  }

  /** What is below the element and not deleted are sensors it takes along. */
  ghost predicate OnlyTakenBelow(s: State, ids: set<uint32>, id: uint32)
    requires StoredForest(s) && id in s.rows
  {
    forall y | y in s.rows && y !in ids && Above(ParentsOf(s), id, y) ::
      TakesSensors(s.rows[id]) && IsInactiveSensor(s.rows[y])
  }

  /** Everything below the element is deleted too or is a sensor it takes along,
      and so is every destination of its links. */
  ghost predicate IsAccepted(s: State, ids: set<uint32>, id: uint32)
    requires StoredForest(s)
  {
    && id in s.rows
    && OnlyTakenBelow(s, ids, id)
    && (forall n | (id, n) in s.links :: n in ids)
  }

  ghost predicate IsTakenSensor(s: State, ids: set<uint32>, hosts: set<uint32>, y: uint32)
    requires StoredForest(s)
  {
    && y in s.rows && y !in ids && IsInactiveSensor(s.rows[y])
    && exists h :: h in hosts && h in s.rows && TakesSensors(s.rows[h]) && Above(ParentsOf(s), h, y)
  }

  /** The list after the elements in done; a sensor is taken even when its host is rejected. */
  ghost predicate IsSelection(s: State, ids: set<uint32>, done: set<uint32>, toDel: seq<uint32>)
    requires StoredForest(s)
  {
    && NoDuplicates(toDel)
    && forall y :: y in toDel <==> (y in done && IsAccepted(s, ids, y)) || IsTakenSensor(s, ids, done, y)
  }

  /** A sensor below two hosts without parents would be below one. */
  lemma OneHost(s: State, h: uint32, id: uint32, y: uint32)
    requires StoredForest(s) && h in s.rows && id in s.rows && y in s.rows
    requires s.rows[h].parent == 0 && s.rows[id].parent == 0
    requires Above(ParentsOf(s), h, y) && Above(ParentsOf(s), id, y)
    ensures h == id
  {
    assert ParentsOf(s)[h] == 0 && ParentsOf(s)[id] == 0;
    AncestorAtDepthIsUnique(ParentsOf(s), h, id, y);
  }

  lemma SensorsAreNew(s: State, ids: set<uint32>, done: set<uint32>, toDel: seq<uint32>, id: uint32, y: uint32)
    requires StoredForest(s) && IsSelection(s, ids, done, toDel) && done <= ids && id !in done
    requires id in s.rows && TakesSensors(s.rows[id]) && y in s.rows && y !in ids && Above(ParentsOf(s), id, y)
    ensures y !in toDel
  {
    if y in toDel {
      var h :| h in done && h in s.rows && TakesSensors(s.rows[h]) && Above(ParentsOf(s), h, y);
      OneHost(s, h, id, y);
    }
  }

  lemma TakenGrow(s: State, ids: set<uint32>, done: set<uint32>, id: uint32, y: uint32)
    requires StoredForest(s)
    ensures IsTakenSensor(s, ids, done + {id}, y)
      <==> IsTakenSensor(s, ids, done, y) || IsTakenSensor(s, ids, {id}, y)
  {
  }

  /** The sensors one element takes along. */
  method ChooseSensors(db: Db, id: uint32, ids: set<uint32>, allChildren: seq<uint32>)
    returns (sensors: seq<uint32>, rest: seq<uint32>)
    requires StoredForest(db.Now()) && id in db.rows && AreOutsideBelow(ParentsOf(db.Now()), id, ids, allChildren)
    ensures NoDuplicates(sensors)
    ensures forall y :: y in sensors <==> IsTakenSensor(db.Now(), ids, {id}, y)
    ensures rest == [] <==> OnlyTakenBelow(db.Now(), ids, id)
  {
    if TakesSensors(db.rows[id]) {
      sensors, rest := MoveSensors(db, allChildren);
    } else {
      sensors, rest := [], allChildren;
    }
    ChosenAre(db.Now(), id, ids, allChildren, sensors, rest);
  }

  lemma ChosenAre(s: State, id: uint32, ids: set<uint32>, below: seq<uint32>, sensors: seq<uint32>, rest: seq<uint32>)
    requires StoredForest(s) && id in s.rows && AreOutsideBelow(ParentsOf(s), id, ids, below)
    requires forall n :: n in sensors <==>
      n in below && TakesSensors(s.rows[id]) && n in s.rows && IsInactiveSensor(s.rows[n])
    requires forall n :: n in rest <==> n in below && n !in sensors
    ensures forall y :: y in sensors <==> IsTakenSensor(s, ids, {id}, y)
    ensures rest == [] <==> OnlyTakenBelow(s, ids, id)
  {
    forall y ensures y in sensors <==> IsTakenSensor(s, ids, {id}, y) {
      if y in sensors { assert id in {id}; }
    }
    if rest != [] { assert rest[0] in rest; }
  }

  /** One turn of the first loop. */
  method ChooseOne(db: Db, id: uint32, ids: set<uint32>, toDel: seq<uint32>, ghost done: set<uint32>)
    returns (r: seq<uint32>, accepted: bool)
    requires StoredForest(db.Now()) && done <= ids && id in ids && id !in done
    requires IsSelection(db.Now(), ids, done, toDel)
    ensures accepted <==> IsAccepted(db.Now(), ids, id)
    ensures IsSelection(db.Now(), ids, done + {id}, r)
  {
    ghost var s := db.Now();
    forall y ensures IsTakenSensor(s, ids, done + {id}, y)
      <==> IsTakenSensor(s, ids, done, y) || IsTakenSensor(s, ids, {id}, y)
    {
      TakenGrow(s, ids, done, id, y);
    }
    if id !in db.rows {
      return toDel, false;
    }
    var allChildren := CollectChildren(db, id, [], ids);
    assert allChildren[0..] == allChildren;
    var links := CollectLinks(db, id, ids);
    var sensors, rest := ChooseSensors(db, id, ids, allChildren);
    accepted := rest == [] && links == [];
    if links != [] { assert links[0] in links; }
    r := toDel + sensors + if accepted then [id] else [];
    ChosenOnce(s, ids, done, toDel, id, sensors, accepted);
  }

  lemma ChosenOnce(s: State, ids: set<uint32>, done: set<uint32>, toDel: seq<uint32>, id: uint32,
          sensors: seq<uint32>, accepted: bool)
    requires StoredForest(s) && done <= ids && id in ids && id !in done && id in s.rows
    requires IsSelection(s, ids, done, toDel) && NoDuplicates(sensors)
    requires forall y :: y in sensors <==> IsTakenSensor(s, ids, {id}, y)
    ensures NoDuplicates(toDel + sensors + if accepted then [id] else [])
  {
    forall y | y in sensors ensures y !in toDel {
      SensorsAreNew(s, ids, done, toDel, id, y);
    }
    NoDuplicatesInSum(toDel, sensors);
    NoDuplicatesInSum(toDel + sensors, if accepted then [id] else []);
  }

  // ---------- the batch ----------

  /** Neither children nor link destinations ever lead back: every row has a rank
      above those of its children and of its link destinations. */
  ghost predicate IsUnionRank(s: State, rank: map<uint32, nat>) {
    && s.rows.Keys <= rank.Keys
    && (forall c | c in s.rows && s.rows[c].parent in s.rows :: rank[c] < rank[s.rows[c].parent])
    && (forall l | l in s.links && l.0 in s.rows && l.1 in s.rows :: rank[l.1] < rank[l.0])
  }

  ghost predicate IsClosed(s: State, ids: set<uint32>) {
    && (forall c | c in s.rows && s.rows[c].parent in ids :: c in ids)
    && (forall l | l in s.links && l.0 in ids :: l.1 in ids)
  }

  /** Links lead to devices, as the link table's column names say. */
  ghost predicate LinksEndAtDevices(s: State) {
    forall l | l in s.links && l.1 in s.rows :: DropsLinksTo(s.rows[l.1].kind)
  }

  ghost predicate IsGraphOf(s: State, toDel: seq<uint32>, graph: Graph) {
    && graph.Keys == Elements(toDel)
    && forall id | id in graph ::
         && id in s.rows && graph[id].row == s.rows[id]
         && (forall n :: n in graph[id].children <==> n in toDel && n in s.rows && s.rows[n].parent == id)
         && (forall n :: n in graph[id].links <==> n in toDel && (id, n) in s.links)
  }

  /** find: the ids that are on the list. */
  method Find(found: seq<uint32>, toDel: seq<uint32>) returns (r: seq<uint32>)
    ensures forall n :: n in r <==> n in found && n in toDel
  {
    r := [];
    for i := 0 to |found|
      invariant forall n :: n in r <==> n in found[..i] && n in toDel
    {
      assert found[..i + 1] == found[..i] + [found[i]];
      if found[i] in toDel {
        r := r + [found[i]];
      }
    }
    assert found[..|found|] == found;
  }

  method BuildElement(db: Db, id: uint32, toDel: seq<uint32>) returns (el: Element)
    requires id in db.rows
    ensures el.row == db.rows[id]
    ensures forall n :: n in el.children <==> n in toDel && n in db.rows && db.rows[n].parent == id
    ensures forall n :: n in el.links <==> n in toDel && (id, n) in db.links
  {
    var children := db.SelectAssetsByParent(id);
    children := Find(children, toDel);
    var links := db.SelectAssetDeviceLinksSrc(id);
    links := Find(links, toDel);
    el := Element(db.rows[id], children, links);
  }

  ghost predicate IsPartOfGraph(s: State, toDel: seq<uint32>, graph: Graph, i: nat)
    requires i <= |toDel|
  {
    && graph.Keys == Elements(toDel[..i])
    && forall id | id in graph ::
         && id in s.rows && graph[id].row == s.rows[id]
         && (forall n :: n in graph[id].children <==> n in toDel && n in s.rows && s.rows[n].parent == id)
         && (forall n :: n in graph[id].links <==> n in toDel && (id, n) in s.links)
  }

  method BuildGraph(db: Db, toDel: seq<uint32>) returns (graph: Graph)
    requires forall id | id in toDel :: id in db.rows
    ensures IsGraphOf(db.Now(), toDel, graph)
  {
    graph := map[];
    for i := 0 to |toDel|
      invariant IsPartOfGraph(db.Now(), toDel, graph, i)
    {
      assert toDel[..i + 1] == toDel[..i] + [toDel[i]];
      assert toDel[i] in toDel;
      var el := BuildElement(db, toDel[i], toDel);
      graph := graph[toDel[i] := el];
    }
    assert toDel[..|toDel|] == toDel;
  }

  lemma GraphIsOrdered(s: State, toDel: seq<uint32>, graph: Graph, rank: map<uint32, nat>)
    requires Integrity(s) && IsGraphOf(s, toDel, graph) && IsUnionRank(s, rank)
    ensures IsOrderedBy(graph, rank)
  {
    forall id, n | id in graph && n in Needs(graph[id]) ensures n in graph && rank[n] < rank[id] {
      if n in graph[id].links {
        assert (id, n) in s.links;
      }
    }
  }

  /** What ends up on the list: the accepted ids and the sensors taken along. */
  ghost predicate IsChosen(s: State, ids: set<uint32>, n: uint32)
    requires StoredForest(s)
  {
    (n in ids && IsAccepted(s, ids, n)) || IsTakenSensor(s, ids, ids, n)
  }

  /** Whatever the chosen elements are a parent or a link source of is chosen too,
      and the deletions of the chosen elements drop the links to them. */
  ghost predicate IsSafe(s: State, ids: set<uint32>)
    requires StoredForest(s)
  {
    && (forall c | c in s.rows && IsChosen(s, ids, s.rows[c].parent) :: IsChosen(s, ids, c))
    && (forall l | l in s.links && IsChosen(s, ids, l.0) :: IsChosen(s, ids, l.1))
    && (forall l | l in s.links && IsChosen(s, ids, l.1) :: DropsLinksTo(s.rows[l.1].kind))
  }

  /** A safe batch is one whose graph knows all there is to know about its elements. */
  lemma SafeIsCovering(s: State, ids: set<uint32>, toDel: seq<uint32>, graph: Graph)
    requires StoredForest(s) && IsSelection(s, ids, ids, toDel) && IsGraphOf(s, toDel, graph)
    ensures IsSafe(s, ids) <==> IsCovering(graph, s)
  {
    assert forall n :: n in toDel <==> IsChosen(s, ids, n);
    ListKnowsChildren(s, toDel, graph);
    ListKnowsLinks(s, toDel, graph);
    ListDropsLinks(s, toDel, graph);
  }

  lemma ListKnowsChildren(s: State, toDel: seq<uint32>, graph: Graph)
    requires IsGraphOf(s, toDel, graph)
    ensures KnowsChildren(graph, s) <==> forall c | c in s.rows && s.rows[c].parent in toDel :: c in toDel
  {
    assert forall n :: n in graph <==> n in Elements(toDel);
  }

  lemma ListKnowsLinks(s: State, toDel: seq<uint32>, graph: Graph)
    requires IsGraphOf(s, toDel, graph)
    ensures KnowsLinks(graph, s) <==> forall l | l in s.links && l.0 in toDel :: l.1 in toDel
  {
    assert forall n :: n in graph <==> n in Elements(toDel);
    assert forall l | l in s.links :: (l.0, l.1) == l;
  }

  lemma ListDropsLinks(s: State, toDel: seq<uint32>, graph: Graph)
    requires Integrity(s) && IsGraphOf(s, toDel, graph)
    ensures DropsLinks(graph, s) <==> forall l | l in s.links && l.1 in toDel :: DropsLinksTo(s.rows[l.1].kind)
  {
    assert forall n :: n in graph <==> n in Elements(toDel);
  }

  /** Closed under children and link destinations is safe, and then all requested rows are chosen. */
  lemma ClosedIsSafe(s: State, ids: set<uint32>)
    requires StoredForest(s) && IsClosed(s, ids) && LinksEndAtDevices(s)
    ensures IsSafe(s, ids)
    ensures forall n :: IsChosen(s, ids, n) <==> n in ids && n in s.rows
  {
    forall id, y | id in ids && y in s.rows && Above(ParentsOf(s), id, y) ensures y in ids {
      ClosedBelow(s, ids, id, y);
    }
    forall n ensures IsChosen(s, ids, n) <==> n in ids && n in s.rows {
      if n in ids && n in s.rows { assert IsAccepted(s, ids, n); }
    }
  }

  lemma {:induction false} ClosedBelow(s: State, ids: set<uint32>, id: uint32, y: uint32)
    requires StoredForest(s) && IsClosed(s, ids) && id in ids && y in s.rows && Above(ParentsOf(s), id, y)
    ensures y in ids
    decreases Depth(ParentsOf(s))[y]
  {
    var p := ParentsOf(s);
    if p[y] != id {
      ClosedBelow(s, ids, id, p[y]);
    }
  }

  /** A positive answer stands for a deleted element, a negative one for a failure on record. */
  ghost predicate AnswersHold(toDel: seq<uint32>, done: seq<bool>, isDeleted: set<uint32>, log: seq<Event>) {
    |done| <= |toDel| && forall i | 0 <= i < |done| :: if done[i] then toDel[i] in isDeleted else HasFailure(log)
  }

  lemma OneMoreAnswer(toDel: seq<uint32>, done: seq<bool>, isDeleted: set<uint32>, log: seq<Event>,
          isDeleted': set<uint32>, log': seq<Event>, ok: bool)
    requires AnswersHold(toDel, done, isDeleted, log) && |done| < |toDel|
    requires isDeleted <= isDeleted' && log <= log'
    requires if ok then toDel[|done|] in isDeleted' else HasFailure(log')
    ensures AnswersHold(toDel, done + [ok], isDeleted', log')
  {
    FailuresStay(log, log');
  }

  ghost predicate AreDecided(toDel: seq<uint32>, done: seq<bool>, held: set<uint32>) {
    |done| <= |toDel| && forall i | 0 <= i < |done| :: done[i] <==> toDel[i] !in held
  }

  /** The loop over the list. */
  method DeleteListed(batch: Batch, toDel: seq<uint32>, ghost rank: map<uint32, nat>) returns (done: seq<bool>)
    requires batch.Ready(rank) && batch.graph.Keys == Elements(toDel)
    modifies batch`isDeleted, batch.db
    ensures Progress(batch.graph, old(batch.Now()), batch.Now())
    ensures |done| == |toDel| && AnswersHold(toDel, done, batch.isDeleted, batch.db.log)
    ensures old(batch.IsDecided()) ==> batch.IsDecided() && AreDecided(toDel, done, batch.held)
    ensures old(batch.IsDecided()) ==>
      batch.db.log == RecordAll(batch.graph, rank, batch.refused, batch.held, toDel, old(batch.db.log))
  {
    done := [];
    ghost var a := batch.Now();
    for i := 0 to |toDel|
      invariant IsListTurn(batch.graph, a, batch.Now(), toDel, done, i)
      invariant old(batch.IsDecided()) ==> batch.IsDecided() && AreDecided(toDel, done, batch.held)
      invariant old(batch.IsDecided()) ==>
        IsAllOnRecord(batch.graph, rank, batch.refused, batch.held, toDel, i, a.log, batch.db.log)
    {
      AllOneMore(batch.graph, rank, batch.refused, batch.held, toDel, i, a.log, batch.db.log);
      ghost var b := batch.Now();
      assert toDel[i] in Elements(toDel);
      var ok := batch.DeleteAssetRec(toDel[i], rank);
      ListTurnDone(batch.graph, a, b, batch.Now(), toDel, done, i, ok);
      DecidedOneMore(toDel, done, batch.held, ok);
      done := done + [ok];
    }
  }

  ghost predicate IsAllOnRecord(graph: Graph, rank: map<uint32, nat>, refused: set<uint32>, held: set<uint32>,
          ids: seq<uint32>, i: nat, log0: seq<Event>, log: seq<Event>)
  {
    && IsOrderedBy(graph, rank) && (forall n | n in ids :: n in graph) && i <= |ids|
    && RecordAll(graph, rank, refused, held, ids, log0) == RecordAll(graph, rank, refused, held, ids[i..], log)
  }

  lemma AllOneMore(graph: Graph, rank: map<uint32, nat>, refused: set<uint32>, held: set<uint32>,
          ids: seq<uint32>, i: nat, log0: seq<Event>, log: seq<Event>)
    requires i < |ids|
    ensures IsAllOnRecord(graph, rank, refused, held, ids, i, log0, log) ==>
      IsAllOnRecord(graph, rank, refused, held, ids, i + 1, log0, Record(graph, rank, refused, held, ids[i], log))
  {
    assert ids[i..][1..] == ids[i + 1..];
  }

  ghost predicate IsListTurn(graph: Graph, a: Moment, b: Moment, toDel: seq<uint32>, done: seq<bool>, i: nat) {
    Progress(graph, a, b) && |done| == i && AnswersHold(toDel, done, b.isDeleted, b.log)
  }

  lemma ListTurnDone(graph: Graph, a: Moment, b: Moment, c: Moment, toDel: seq<uint32>, done: seq<bool>, i: nat,
          ok: bool)
    requires IsListTurn(graph, a, b, toDel, done, i) && i < |toDel| && Progress(graph, b, c)
    requires if ok then toDel[i] in c.isDeleted else HasFailure(c.log)
    ensures IsListTurn(graph, a, c, toDel, done + [ok], i + 1)
  {
    ProgressOn(graph, a, b, c);
    OneMoreAnswer(toDel, done, b.isDeleted, b.log, c.isDeleted, c.log, ok);
  }

  lemma DecidedOneMore(toDel: seq<uint32>, done: seq<bool>, held: set<uint32>, ok: bool)
    requires |done| < |toDel|
    ensures AreDecided(toDel, done, held) && (ok <==> toDel[|done|] !in held) ==> AreDecided(toDel, done + [ok], held)
  {
  }

  lemma FailuresStay(before: seq<Event>, after: seq<Event>)
    requires before <= after
    ensures HasFailure(before) ==> HasFailure(after)
  {
    if i :| 0 <= i < |before| && (before[i].Refused? || before[i].Restricted?) {
      assert after[i] == before[i];
    }
  }

  /** The first loop of the batch. */
  method Choose(db: Db, ids: set<uint32>) returns (toDel: seq<uint32>)
    requires StoredForest(db.Now())
    ensures IsSelection(db.Now(), ids, ids, toDel) && AddsSensorsOfHosts(db.Now(), ids, toDel)
  {
    toDel := [];
    var todo := ids;
    ghost var done: set<uint32> := {};
    while todo != {}
      invariant todo == ids - done && done <= ids
      invariant IsSelection(db.Now(), ids, done, toDel)
      decreases todo
    {
      var id :| id in todo;
      var accepted;
      toDel, accepted := ChooseOne(db, id, ids, toDel, done);
      todo, done := todo - {id}, done + {id};
    }
    assert done == ids;
    SelectionAddsSensors(db.Now(), ids, toDel);
  }

  /** Beside the requested elements the list holds sensors and nothing else: the nonactive
      ones below a requested device that is nonactive and has no parent. */
  ghost predicate AddsSensorsOfHosts(s: State, ids: set<uint32>, toDel: seq<uint32>)
    requires StoredForest(s)
  {
    forall y | y !in ids :: y in toDel <==>
      && y in s.rows && s.rows[y].kind == Device && s.rows[y].isSensor && s.rows[y].nonactive
      && exists h :: h in ids && h in s.rows && Above(ParentsOf(s), h, y)
           && s.rows[h].kind == Device && s.rows[h].parent == 0 && s.rows[h].nonactive
  }

  lemma SelectionAddsSensors(s: State, ids: set<uint32>, toDel: seq<uint32>)
    requires StoredForest(s) && IsSelection(s, ids, ids, toDel)
    ensures AddsSensorsOfHosts(s, ids, toDel)
  {
    forall y | y !in ids ensures y in toDel <==>
      && y in s.rows && s.rows[y].kind == Device && s.rows[y].isSensor && s.rows[y].nonactive
      && exists h :: h in ids && h in s.rows && Above(ParentsOf(s), h, y)
           && s.rows[h].kind == Device && s.rows[h].parent == 0 && s.rows[h].nonactive
    {
      assert y in toDel <==> IsTakenSensor(s, ids, ids, y);
    }
  }

  ghost predicate HasRefusal(log: seq<Event>) {
    exists i :: 0 <= i < |log| && log[i].Refused?
  }

  lemma NoRefusalNoFailure(log: seq<Event>)
    requires NeverRestricted(log) && !HasRefusal(log)
    ensures !HasFailure(log)
  {
  }

  /** Some refused element is reached from n through children and link destinations, n included. */
  ghost predicate IsHeldBack(s: State, rank: map<uint32, nat>, refused: set<uint32>, n: uint32)
    requires IsUnionRank(s, rank) && n in s.rows
    decreases rank[n]
  {
    || n in refused
    || (exists c | c in s.rows && s.rows[c].parent == n :: IsHeldBack(s, rank, refused, c))
    || (exists l | l in s.links && l.0 == n && l.1 in s.rows :: IsHeldBack(s, rank, refused, l.1))
  }

  ghost function HeldBack(s: State, rank: map<uint32, nat>, refused: set<uint32>): set<uint32>
    requires IsUnionRank(s, rank)
  {
    set n | n in s.rows && IsHeldBack(s, rank, refused, n)
  }

  /** A graph that knows all about its elements holds back what the tables hold back. */
  lemma GraphHoldsBack(s: State, rank: map<uint32, nat>, refused: set<uint32>, toDel: seq<uint32>, graph: Graph)
    requires Integrity(s) && IsUnionRank(s, rank) && IsGraphOf(s, toDel, graph) && IsCovering(graph, s)
    ensures AreHeldBack(graph, refused, HeldBack(s, rank, refused))
  {
    var held := HeldBack(s, rank, refused);
    forall id | id in graph ensures id in held <==> id in refused || exists n :: n in Needs(graph[id]) && n in held {
      NeedsAre(s, toDel, graph, id);
      HeldBackBy(s, rank, refused, id, Needs(graph[id]));
    }
  }

  lemma HeldBackBy(s: State, rank: map<uint32, nat>, refused: set<uint32>, id: uint32, needs: seq<uint32>)
    requires Integrity(s) && IsUnionRank(s, rank) && id in s.rows
    requires forall n :: n in needs <==> (n in s.rows && s.rows[n].parent == id) || (id, n) in s.links
    ensures IsHeldBack(s, rank, refused, id)
      <==> id in refused || exists n :: n in needs && n in HeldBack(s, rank, refused)
  {
    var held := HeldBack(s, rank, refused);
    if n :| n in needs && n in held {
      if s.rows[n].parent != id {
        assert (id, n) in s.links && (id, n).0 == id && (id, n).1 == n;
      }
    }
    if c :| c in s.rows && s.rows[c].parent == id && IsHeldBack(s, rank, refused, c) {
      assert c in needs && c in held;
    }
    if l :| l in s.links && l.0 == id && l.1 in s.rows && IsHeldBack(s, rank, refused, l.1) {
      assert (id, l.1) == l && l.1 in needs && l.1 in held;
    }
  }

  lemma NeedsAre(s: State, toDel: seq<uint32>, graph: Graph, id: uint32)
    requires Integrity(s) && IsGraphOf(s, toDel, graph) && IsCovering(graph, s) && id in graph
    ensures forall n :: n in Needs(graph[id]) <==> (n in s.rows && s.rows[n].parent == id) || (id, n) in s.links
    ensures forall n | n in Needs(graph[id]) :: n in s.rows
  {
    forall n ensures n in Needs(graph[id]) <==> n in graph[id].links || n in graph[id].children {
    }
    forall n | (id, n) in s.links ensures n in graph[id].links && n in s.rows {
      assert (id, n).0 == id && (id, n).1 == n;
    }
  }

  lemma {:induction false} NothingIsHeldBack(s: State, rank: map<uint32, nat>, n: uint32)
    requires IsUnionRank(s, rank) && n in s.rows
    ensures !IsHeldBack(s, rank, {}, n)
    decreases rank[n]
  {
    forall c | c in s.rows && s.rows[c].parent == n ensures !IsHeldBack(s, rank, {}, c) {
      NothingIsHeldBack(s, rank, c);
    }
    forall l | l in s.links && l.0 == n && l.1 in s.rows ensures !IsHeldBack(s, rank, {}, l.1) {
      NothingIsHeldBack(s, rank, l.1);
    }
  }

  /** The outcome of a safe batch with steady answers: what is not held back goes, and nothing else. */
  ghost predicate IsSteadyOutcome(s0: State, s: State, rank: map<uint32, nat>, refused: set<uint32>,
          toDel: seq<uint32>, done: seq<bool>)
    requires IsUnionRank(s0, rank)
  {
    && |done| == |toDel|
    && (forall i | 0 <= i < |toDel| :: toDel[i] in s0.rows && (done[i] <==> !IsHeldBack(s0, rank, refused, toDel[i])))
    && s.rows == s0.rows - (Elements(toDel) - HeldBack(s0, rank, refused))
  }

  lemma DecidedIsOutcome(s0: State, s: State, rank: map<uint32, nat>, refused: set<uint32>, toDel: seq<uint32>,
          done: seq<bool>, graph: Graph, isDeleted: set<uint32>, log: seq<Event>)
    requires IsUnionRank(s0, rank) && IsGraphOf(s0, toDel, graph)
    requires Shrinks(s, s0) && GoneAreLogged(s0, s, log) && InStep(graph, isDeleted, s, log) && NeverRestricted(log)
    requires |done| == |toDel| && AnswersHold(toDel, done, isDeleted, log)
    requires AreDecided(toDel, done, HeldBack(s0, rank, refused)) && isDeleted !! HeldBack(s0, rank, refused)
    ensures IsSteadyOutcome(s0, s, rank, refused, toDel, done)
  {
    var held := HeldBack(s0, rank, refused);
    forall i | 0 <= i < |toDel| ensures toDel[i] in s0.rows && (done[i] <==> !IsHeldBack(s0, rank, refused, toDel[i])) {
      assert toDel[i] in Elements(toDel);
    }
    forall n | n in Elements(toDel) - held ensures n !in s.rows {
      var i :| 0 <= i < |toDel| && toDel[i] == n;
      assert done[i];
    }
    forall n | n in s0.rows && n !in s.rows ensures n in Elements(toDel) - held {
      OnlyDeletedGo(s0, s, log, n);
      assert n in isDeleted && n in graph;
    }
  }

  /** Without a refusal of a chosen element all of a safe batch goes. */
  lemma UnrefusedOutcome(s0: State, s: State, rank: map<uint32, nat>, toDel: seq<uint32>, done: seq<bool>)
    requires IsUnionRank(s0, rank) && IsSteadyOutcome(s0, s, rank, {}, toDel, done)
    ensures false !in done && s.rows == s0.rows - Elements(toDel)
  {
    forall n | n in s0.rows ensures !IsHeldBack(s0, rank, {}, n) {
      NothingIsHeldBack(s0, rank, n);
    }
    assert HeldBack(s0, rank, {}) == {};
  }

  /** deleteAsset on a set of ids.  For any ids the foreign keys hold afterwards,
      each element is tried only after what it needs, and never again once deleted.
      A run in which no element is refused meets no RESTRICT key, and leaves nothing
      to the cascade, exactly if the batch is safe; then exactly the chosen rows go.
      In a safe batch with steady answers a chosen element goes exactly if no refused
      one is reached from it. */
  method DeleteBatch(db: Db, ids: set<uint32>, r: Refusals, ghost rank: map<uint32, nat>, ghost refused: set<uint32>)
    returns (toDel: seq<uint32>, done: seq<bool>, ghost graph: Graph)
    requires StoredForest(db.Now()) && IsUnionRank(db.Now(), rank) && db.log == []
    modifies db
    ensures Integrity(db.Now()) && Shrinks(db.Now(), old(db.Now())) && GoneAreLogged(old(db.Now()), db.Now(), db.log)
    ensures forall l :: db.links[l] == if l.1 in db.rows then old(db.links)[l] else 0
    ensures IsSelection(old(db.Now()), ids, ids, toDel) && IsGraphOf(old(db.Now()), toDel, graph)
    ensures AddsSensorsOfHosts(old(db.Now()), ids, toDel) && IsOrderedBy(graph, rank)
    ensures IsSafe(old(db.Now()), ids) && IsSteady(r, Elements(toDel), refused) ==>
      db.log == RecordAll(graph, rank, refused, HeldBack(old(db.Now()), rank, refused), toDel, [])
    ensures IsSafe(old(db.Now()), ids) && IsSteady(r, Elements(toDel), refused) ==>
      IsSteadyOutcome(old(db.Now()), db.Now(), rank, refused, toDel, done)
    ensures IsSafe(old(db.Now()), ids) && refused == {} && IsSteady(r, Elements(toDel), refused) ==>
      false !in done && db.rows == old(db.rows) - Elements(toDel)
    ensures AfterItsNeeds(graph, db.log) && DeletedOnce(db.log) && CascadesAreSensors(old(db.Now()), db.log, 0)
    ensures |done| == |toDel| && forall i | 0 <= i < |toDel| :: done[i] ==> toDel[i] !in db.rows
    ensures false in done ==> HasFailure(db.log)
    ensures IsSafe(old(db.Now()), ids) ==> NeverRestricted(db.log)
    ensures !HasRefusal(db.log) ==> (IsSafe(old(db.Now()), ids) <==> NeverRestricted(db.log))
    ensures !HasFailure(db.log) && NeverRestricted(db.log) ==>
      && IsSafe(old(db.Now()), ids)
      && db.rows == old(db.rows) - Elements(toDel)
    ensures IsClosed(old(db.Now()), ids) && LinksEndAtDevices(old(db.Now())) ==>
      && IsSafe(old(db.Now()), ids)
      && old(db.rows) - Elements(toDel) == old(db.rows) - ids
  {
    ghost var s0 := db.Now();
    toDel := Choose(db, ids);
    var g := BuildGraph(db, toDel);
    graph := g;
    GraphIsOrdered(s0, toDel, g, rank);
    SafeIsCovering(s0, ids, toDel, g);
    if IsClosed(s0, ids) && LinksEndAtDevices(s0) {
      ClosedIsSafe(s0, ids);
      ClosedIsListed(s0, ids, toDel);
    }
    ghost var held := HeldBack(s0, rank, refused);
    if IsCovering(g, s0) { GraphHoldsBack(s0, rank, refused, toDel, g); }
    var batch := new Batch(db, g, r, refused, held);
    done := DeleteListed(batch, toDel, rank);
    RunIs(s0, db.Now(), ids, rank, refused, toDel, done, g, r, batch.isDeleted, db.log, held);
  }

  /** What is known of a run at its end. */
  lemma RunIs(s0: State, s: State, ids: set<uint32>, rank: map<uint32, nat>, refused: set<uint32>, toDel: seq<uint32>,
          done: seq<bool>, graph: Graph, r: Refusals, isDeleted: set<uint32>, log: seq<Event>, held: set<uint32>)
    requires StoredForest(s0) && IsUnionRank(s0, rank) && IsGraphOf(s0, toDel, graph)
    requires IsSelection(s0, ids, ids, toDel) && held == HeldBack(s0, rank, refused)
    requires Shrinks(s, s0) && GoneAreLogged(s0, s, log) && InStep(graph, isDeleted, s, log)
    requires IsCovering(graph, s0) ==> NeverRestricted(log)
    requires |done| == |toDel| && AnswersHold(toDel, done, isDeleted, log)
    requires IsCovering(graph, s0) && IsSteady(r, graph.Keys, refused) ==>
      AreDecided(toDel, done, held) && isDeleted !! held
    ensures IsSafe(s0, ids) && IsSteady(r, Elements(toDel), refused) ==>
      IsSteadyOutcome(s0, s, rank, refused, toDel, done)
    ensures IsSafe(s0, ids) && refused == {} && IsSteady(r, Elements(toDel), refused) ==>
      false !in done && s.rows == s0.rows - Elements(toDel)
    ensures !HasRefusal(log) ==> (IsSafe(s0, ids) <==> NeverRestricted(log))
    ensures !HasFailure(log) && NeverRestricted(log) ==> IsSafe(s0, ids) && s.rows == s0.rows - Elements(toDel)
    ensures forall l :: s.links[l] == if l.1 in s.rows then s0.links[l] else 0
  {
    SafeIsCovering(s0, ids, toDel, graph);
    if IsSafe(s0, ids) && IsSteady(r, Elements(toDel), refused) {
      DecidedIsOutcome(s0, s, rank, refused, toDel, done, graph, isDeleted, log);
      if refused == {} { UnrefusedOutcome(s0, s, rank, toDel, done); }
    }
    if NeverRestricted(log) && !HasRefusal(log) { NoRefusalNoFailure(log); }
    if NeverRestricted(log) && !HasFailure(log) {
      AllGone(s0, s, toDel, done, graph, isDeleted, log);
      FailureFreeIsCovering(s0, s, toDel, graph, isDeleted, log);
    }
    forall l ensures s.links[l] == if l.1 in s.rows then s0.links[l] else 0 {
      LinksFollowRows(s, s0, l);
    }
  }

  /** For closed ids exactly the requested rows are listed. */
  lemma ClosedIsListed(s: State, ids: set<uint32>, toDel: seq<uint32>)
    requires StoredForest(s) && IsClosed(s, ids) && LinksEndAtDevices(s) && IsSelection(s, ids, ids, toDel)
    ensures s.rows - Elements(toDel) == s.rows - ids
  {
    ClosedIsSafe(s, ids);
    assert forall n :: n in Elements(toDel) <==> IsChosen(s, ids, n);
  }

  /** Without a failure all that is listed is gone, and nothing else. */
  lemma AllGone(s0: State, s: State, toDel: seq<uint32>, done: seq<bool>, graph: Graph, isDeleted: set<uint32>,
          log: seq<Event>)
    requires graph.Keys == Elements(toDel)
    requires Shrinks(s, s0) && GoneAreLogged(s0, s, log) && InStep(graph, isDeleted, s, log)
    requires NeverRestricted(log) && !HasFailure(log)
    requires |done| == |toDel| && AnswersHold(toDel, done, isDeleted, log)
    ensures s.rows == s0.rows - Elements(toDel)
    ensures forall n | n in graph :: n !in s.rows
  {
    forall n | n in toDel ensures n !in s.rows {
      var i :| 0 <= i < |toDel| && toDel[i] == n;
      assert n in isDeleted;
    }
    forall n | n in s0.rows && n !in s.rows ensures n in Elements(toDel) {
      OnlyDeletedGo(s0, s, log, n);
      assert n in graph;
    }
  }

  lemma OnlyDeletedGo(s0: State, s: State, log: seq<Event>, n: uint32)
    requires GoneAreLogged(s0, s, log) && NeverRestricted(log) && n in s0.rows && n !in s.rows
    ensures Deleted(n) in log
  {
  }

  /** If everything listed is gone without a failure or a cascade, the graph was covering. */
  lemma FailureFreeIsCovering(s0: State, s: State, toDel: seq<uint32>, graph: Graph, isDeleted: set<uint32>,
          log: seq<Event>)
    requires Integrity(s0) && IsGraphOf(s0, toDel, graph)
    requires Shrinks(s, s0) && GoneAreLogged(s0, s, log) && InStep(graph, isDeleted, s, log) && NeverRestricted(log)
    requires forall n | n in graph :: n !in s.rows
    ensures IsCovering(graph, s0)
  {
    forall n | n in s0.rows && n !in s.rows ensures n in toDel {
      OnlyDeletedGo(s0, s, log, n);
      assert n in graph && n in Elements(toDel);
    }
    forall l ensures l in s.links ==> l.0 in s.rows && l.1 in s.rows {
    }
    LossIsCovered(s0, s, toDel, graph);
  }

  lemma LossIsCovered(s0: State, s: State, toDel: seq<uint32>, graph: Graph)
    requires Integrity(s0) && Integrity(s) && IsGraphOf(s0, toDel, graph) && Shrinks(s, s0)
    requires forall n | n in graph :: n !in s.rows
    requires forall n | n in s0.rows && n !in s.rows :: n in toDel
    ensures IsCovering(graph, s0)
  {
    ListKnowsChildren(s0, toDel, graph);
    ListKnowsLinks(s0, toDel, graph);
    ListDropsLinks(s0, toDel, graph);
    forall n ensures n in toDel ==> n !in s.rows {
      assert n in graph <==> n in Elements(toDel);
    }
    forall c | c in s0.rows && s0.rows[c].parent in toDel ensures c in toDel {
      assert c !in s.rows;
    }
    forall l | l in s0.links && l.0 in toDel ensures l.1 in toDel {
      LinksFollowRows(s, s0, l);
      assert l !in s.links;
    }
    forall l | l in s0.links && l.1 in toDel ensures DropsLinksTo(s0.rows[l.1].kind) {
      LinksFollowRows(s, s0, l);
      assert s.links[l] < s0.links[l];
    }
  }

  /** Closure is needed: a host is accepted although its child is rejected for a
      link to a device that stays. */
  lemma RejectedChildIsUnsafe(s: State, ids: set<uint32>, host: uint32, child: uint32, n: uint32)
    requires StoredForest(s) && host in ids && IsAccepted(s, ids, host)
    requires child in s.rows && s.rows[child].parent == host && child in ids
    requires (child, n) in s.links && n !in ids
    ensures !IsAccepted(s, ids, child) && !IsSafe(s, ids)
  {
    assert IsChosen(s, ids, host) && !IsChosen(s, ids, child);
  }

  /** A batch that is not safe, in tables without inactive sensors. */
  ghost predicate IsUnsafe(s: State, ids: set<uint32>, rank: map<uint32, nat>) {
    && StoredForest(s) && IsUnionRank(s, rank) && !IsSafe(s, ids)
    && forall n | n in s.rows :: !IsInactiveSensor(s.rows[n])
  }

  lemma UnsafeFails(s: State, ids: set<uint32>, rank: map<uint32, nat>, log: seq<Event>)
    requires IsUnsafe(s, ids, rank) && CascadesAreSensors(s, log, 0)
    requires !HasFailure(log) && NeverRestricted(log) ==> IsSafe(s, ids)
    ensures HasFailure(log)
    ensures !HasRefusal(log) ==> exists i :: 0 <= i < |log| && log[i].Restricted?
  {
    assert forall i | 0 <= i < |log| :: !log[i].Cascaded?;
    assert (forall i | 0 <= i < |log| :: !log[i].Restricted?) ==> NeverRestricted(log);
  }

  /** Such a batch fails, and on a RESTRICT key unless an element is refused. */
  method UnsafeBatch(db: Db, ids: set<uint32>, r: Refusals, ghost rank: map<uint32, nat>)
    requires IsUnsafe(db.Now(), ids, rank) && db.log == []
    modifies db
    ensures HasFailure(db.log)
    ensures !HasRefusal(db.log) ==> exists i :: 0 <= i < |db.log| && db.log[i].Restricted?
  {
    ghost var s0 := db.Now();
    var toDel, done;
    ghost var graph;
    toDel, done, graph := DeleteBatch(db, ids, r, rank, {});
    UnsafeFails(s0, ids, rank, db.log);
  }

  /** A rack with a device that feeds a device outside: a batch of the first two. */
  ghost function RackWithLinkedDevice(): State {
    State(map[1 := ElementRow(Rack, false, 0, true), 2 := ElementRow(Device, false, 1, true),
              3 := ElementRow(Device, false, 0, true)],
          multiset{(2 as uint32, 3 as uint32)})
  }

  lemma RackHasIntegrity()
    ensures var s := RackWithLinkedDevice();
      Integrity(s) && (2 as uint32, 3 as uint32) in s.links && forall l | l in s.links :: l.0 == 2 && l.1 == 3
  {
  }

  lemma RackIsForest()
    ensures IsForest(ParentsOf(RackWithLinkedDevice()))
  {
    RankedIsForest(ParentsOf(RackWithLinkedDevice()), map[1 := 0, 2 := 1, 3 := 0]);
  }

  lemma RackIsRanked()
    ensures IsUnionRank(RackWithLinkedDevice(), map[1 := 3, 2 := 2, 3 := 1])
    ensures forall n | n in RackWithLinkedDevice().rows :: !IsInactiveSensor(RackWithLinkedDevice().rows[n])
  {
  }

  lemma RackIsAccepted()
    requires StoredForest(RackWithLinkedDevice())
    ensures IsAccepted(RackWithLinkedDevice(), {1, 2}, 1)
  {
    RackHasIntegrity();
    assert !Above(ParentsOf(RackWithLinkedDevice()), 1, 3);
  }

  lemma RackIsUnsafe(s: State)
    requires s == RackWithLinkedDevice()
    ensures StoredForest(s) && IsAccepted(s, {1, 2}, 1) && !IsAccepted(s, {1, 2}, 2) && !IsSafe(s, {1, 2})
  {
    RackHasIntegrity();
    RackIsForest();
    RackIsAccepted();
    RejectedChildIsUnsafe(s, {1, 2}, 1, 2, 3);
  }

  /** The rack is accepted although its device is not, so the run on it fails. */
  lemma RejectedChildRestricts()
    ensures var s := RackWithLinkedDevice();
      && StoredForest(s) && IsAccepted(s, {1, 2}, 1) && !IsAccepted(s, {1, 2}, 2) && Restricts(s, 1, Rack)
      && IsUnsafe(s, {1, 2}, map[1 := 3, 2 := 2, 3 := 1])
  {
    var s := RackWithLinkedDevice();
    RackIsUnsafe(s);
    RackIsRanked();
    assert 2 in s.rows && s.rows[2].parent == 1;
  }
}
