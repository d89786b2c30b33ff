/** The devices whose readings add up to the power of a container, total_power_v2
    of server/src/total_power.cc. */
module TotalPower {
  import opened AssetModel
  import opened Sequences

  datatype Subtype = Ups | Epdu | Other(code: int)

  datatype Device = Device(name: string, subtype: Subtype)

  /** A link leads from the powering to the powered device. */
  type Link = (uint32, uint32)

  /** The devices of a container, and the links with at least one end among them. */
  datatype Grid = Grid(devices: map<uint32, Device>, links: set<Link>)

  /** No link lies wholly outside the container. */
  ghost predicate AreContainerLinks(g: Grid) {
    forall l | l in g.links :: l.0 in g.devices || l.1 in g.devices
  }

  ghost function Dests(g: Grid, id: uint32): set<uint32> {
    set l | l in g.links && l.0 == id :: l.1
  }

  method FindDests(g: Grid, id: uint32) returns (dests: set<uint32>)
    ensures dests == Dests(g, id)
  {
    dests := {};
    var todo := g.links;
    while todo != {}
      invariant todo <= g.links
      invariant dests == set l | l in g.links - todo && l.0 == id :: l.1
      decreases todo
    {
      var l :| l in todo;
      if l.0 == id {
        dests := dests + {l.1};
      }
      assert g.links - (todo - {l}) == g.links - todo + {l};
      todo := todo - {l};
    }
    assert g.links - todo == g.links;
  }

  ghost predicate PowersOutside(g: Grid, id: uint32) {
    exists d :: d in Dests(g, id) && d !in g.devices
  }

  method IsPoweringOtherRack(g: Grid, id: uint32) returns (b: bool)
    ensures b <==> PowersOutside(g, id)
  {
    var dests := FindDests(g, id);
    b := exists d | d in dests :: d !in g.devices;
  }

  /** Measures its own load: an ePDU, or a UPS that feeds nothing outside. */
  ghost predicate Smart(g: Grid, id: uint32)
    requires id in g.devices
  {
    g.devices[id].subtype.Epdu? || (g.devices[id].subtype.Ups? && !PowersOutside(g, id))
  }

  /** In a reading of its own nothing is metered twice: an ePDU, or a UPS whose every link stays inside. */
  ghost predicate IsMeter(g: Grid, id: uint32) {
    && id in g.devices
    && match g.devices[id].subtype
       case Epdu => true
       case Ups => forall l | l in g.links && l.0 == id :: l.1 in g.devices
       case Other(_) => false
  }

  lemma SmartIsMeter(g: Grid, id: uint32)
    requires id in g.devices
    ensures Smart(g, id) <==> IsMeter(g, id)
  {
    forall l | l in g.links && l.0 == id ensures l.1 in Dests(g, id) {
    }
  }

  /** Fed from outside the container, or from nowhere. */
  ghost predicate OnBorder(g: Grid, id: uint32) {
    && id in g.devices
    && (|| (exists l :: l in g.links && l.1 == id && l.0 !in g.devices)
        || (forall l | l in g.links :: l.1 != id))
  }

  /** A power chain inside the container that starts on its border. */
  ghost predicate IsChain(g: Grid, path: seq<uint32>) {
    && path != []
    && OnBorder(g, path[0])
    && (forall i | 0 <= i < |path| :: path[i] in g.devices)
    && (forall i | 0 <= i < |path| - 1 :: (path[i], path[i + 1]) in g.links)
  }

  /** A chain with no smart device before its end. */
  ghost predicate IsBlindChain(g: Grid, path: seq<uint32>) {
    IsChain(g, path) && forall i | 0 <= i < |path| - 1 :: !Smart(g, path[i])
  }

  /** The first smart device of some power chain. */
  ghost predicate IsFirstSmart(g: Grid, id: uint32) {
    id in g.devices && Smart(g, id) && exists path :: IsBlindChain(g, path) && path[|path| - 1] == id
  }

  // ---------- the frontier ----------

  ghost function Border(g: Grid): set<uint32> {
    set id | id in g.devices && OnBorder(g, id)
  }

  /** The in-container devices powered by one of ids. */
  ghost function Powered(g: Grid, ids: set<uint32>): set<uint32> {
    set l | l in g.links && l.0 in ids && l.1 in g.devices :: l.1
  }

  ghost function Blind(g: Grid, ids: set<uint32>): set<uint32>
    requires ids <= g.devices.Keys
  {
    set id | id in ids && !Smart(g, id)
  }

  /** border_devices at the start of round k. */
  ghost function Frontier(g: Grid, k: nat): (ids: set<uint32>)
    ensures ids <= g.devices.Keys
  {
    if k == 0 then Border(g) else Powered(g, Blind(g, Frontier(g, k - 1)))
  }

  /** Round k looks at exactly the ends of the blind chains of k + 1 devices. */
  lemma {:induction false} FrontierEndsChains(g: Grid, k: nat, id: uint32)
    ensures id in Frontier(g, k) <==> exists path :: IsBlindChain(g, path) && |path| == k + 1 && path[k] == id
  {
    if k == 0 {
      if id in Border(g) {
        assert IsBlindChain(g, [id]) && |[id]| == k + 1 && [id][k] == id;
      }
    } else {
      if id in Frontier(g, k) {
        var l :| l in g.links && l.0 in Blind(g, Frontier(g, k - 1)) && l.1 in g.devices && l.1 == id;
        FrontierEndsChains(g, k - 1, l.0);
        var path :| IsBlindChain(g, path) && |path| == k && path[k - 1] == l.0;
        var longer := path + [id];
        assert IsBlindChain(g, longer) && |longer| == k + 1 && longer[k] == id;
      }
      if path :| IsBlindChain(g, path) && |path| == k + 1 && path[k] == id {
        var shorter := path[..k];
        assert IsBlindChain(g, shorter) && |shorter| == k && shorter[k - 1] == path[k - 1];
        FrontierEndsChains(g, k - 1, path[k - 1]);
        assert (path[k - 1], path[k]) in g.links;
      }
    }
  }

  // ---------- when the search ends ----------

  /** A blind chain that comes back to one of its own devices. */
  ghost predicate IsBlindLoop(g: Grid, path: seq<uint32>, i: nat) {
    IsBlindChain(g, path) && i < |path| - 1 && path[i] == path[|path| - 1]
  }

  ghost predicate Drains(g: Grid) {
    exists k :: Frontier(g, k) == {}
  }

  lemma {:induction false} DistinctFit(s: seq<uint32>, ids: set<uint32>)
    requires NoDuplicates(s) && forall x | x in s :: x in ids
    ensures |s| <= |ids|
  {
    if s != [] {
      var front, last := s[..|s| - 1], s[|s| - 1];
      assert s == front + [last];
      DistinctFit(front, ids - {last});
    }
  }

  /** A chain longer than the container has devices passes one of them twice. */
  lemma LongChainsLoop(g: Grid, path: seq<uint32>)
    requires IsBlindChain(g, path) && |path| > |g.devices|
    ensures exists p, i :: IsBlindLoop(g, p, i)
  {
    if NoDuplicates(path) {
      DistinctFit(path, g.devices.Keys);
    } else {
      var i, j :| 0 <= i < j < |path| && path[i] == path[j];
      assert IsBlindLoop(g, path[..j + 1], i);
    }
  }

  /** A loop can be followed for any number of rounds. */
  lemma {:induction false} LoopsGoOn(g: Grid, path: seq<uint32>, i: nat, k: nat) returns (at: nat)
    requires IsBlindLoop(g, path, i)
    ensures at < |path| && path[at] in Frontier(g, k)
  {
    if k == 0 {
      at := 0;
    } else {
      var before := LoopsGoOn(g, path, i, k - 1);
      if before == |path| - 1 {
        before := i;
      }
      at := before + 1;
      assert (path[before], path[at]) in g.links;
      assert path[before] in Blind(g, Frontier(g, k - 1));
    }
  }

  /** The search ends exactly when no loop of devices without a meter can be
      reached from the border, and then within one round per device. */
  lemma DrainsUnlessLooped(g: Grid)
    ensures Drains(g) <==> !exists path, i :: IsBlindLoop(g, path, i)
    ensures Drains(g) ==> Frontier(g, |g.devices|) == {}
  {
    if path, i :| IsBlindLoop(g, path, i) {
      forall k: nat ensures Frontier(g, k) != {} {
        var at := LoopsGoOn(g, path, i, k);
      }
    } else {
      var n := |g.devices|;
      forall id ensures id !in Frontier(g, n) {
        FrontierEndsChains(g, n, id);
        if path :| IsBlindChain(g, path) && |path| == n + 1 && path[n] == id {
          LongChainsLoop(g, path);
        }
      }
      assert Frontier(g, n) == {};
    }
  }

  /** A feeds B, and B and C feed each other, none of them metering: the search goes on for ever. */
  lemma LoopNeverDrains(a: uint32, b: uint32, c: uint32, code: int)
    requires a != b && b != c && a != c
    ensures var dumb := Device("", Other(code));
      !Drains(Grid(map[a := dumb, b := dumb, c := dumb], {(a, b), (b, c), (c, b)}))
  {
    var dumb := Device("", Other(code));
    var g := Grid(map[a := dumb, b := dumb, c := dumb], {(a, b), (b, c), (c, b)});
    assert OnBorder(g, a);
    assert (a, b) in g.links && (b, c) in g.links && (c, b) in g.links;
    assert IsBlindLoop(g, [a, b, c, b], 1);
    DrainsUnlessLooped(g);
  }

  ghost predicate FeedsForward(g: Grid, rank: map<uint32, nat>) {
    && g.devices.Keys <= rank.Keys
    && forall l | l in g.links && l.0 in g.devices && l.1 in g.devices :: rank[l.0] < rank[l.1]
  }

  lemma {:induction false} ChainsClimb(g: Grid, rank: map<uint32, nat>, path: seq<uint32>, i: nat, j: nat)
    requires FeedsForward(g, rank) && IsChain(g, path) && i < j < |path|
    ensures rank[path[i]] < rank[path[j]]
  {
    assert (path[j - 1], path[j]) in g.links;
    if i < j - 1 { ChainsClimb(g, rank, path, i, j - 1); }
  }

  lemma AcyclicDrains(g: Grid, rank: map<uint32, nat>)
    requires FeedsForward(g, rank)
    ensures Drains(g)
  {
    DrainsUnlessLooped(g);
    if path, i :| IsBlindLoop(g, path, i) {
      ChainsClimb(g, rank, path, i, |path| - 1);
    }
  }

  // ---------- what is found ----------

  ghost predicate FoundBefore(g: Grid, k: nat, id: uint32) {
    exists j | 0 <= j < k :: id in Frontier(g, j) && Smart(g, id)
  }

  lemma {:induction false} EmptyStaysEmpty(g: Grid, k: nat, j: nat)
    requires Frontier(g, k) == {} && k <= j
    ensures Frontier(g, j) == {}
  {
    if k < j {
      EmptyStaysEmpty(g, k, j - 1);
    }
  }

  /** Once the frontier is empty, the devices found are the first smart ones of all chains. */
  lemma FoundIsFirstSmart(g: Grid, k: nat, id: uint32)
    requires Frontier(g, k) == {}
    ensures FoundBefore(g, k, id) <==> IsFirstSmart(g, id)
  {
    if FoundBefore(g, k, id) {
      var j :| 0 <= j < k && id in Frontier(g, j) && Smart(g, id);
      FrontierEndsChains(g, j, id);
    }
    if IsFirstSmart(g, id) {
      var path :| IsBlindChain(g, path) && path[|path| - 1] == id;
      var j := |path| - 1;
      FrontierEndsChains(g, j, id);
      if k <= j { EmptyStaysEmpty(g, k, j); }
      assert FoundBefore(g, k, id);
    }
  }

  // ---------- the algorithm ----------

  /** The two ways onto the border, in two loops. */
  method InitialBorder(g: Grid) returns (border: set<uint32>)
    requires AreContainerLinks(g)
    ensures border == Border(g)
  {
    border := {};
    var destDvcs: set<uint32> := {};
    var todo := g.links;
    while todo != {}
      invariant todo <= g.links
      invariant border == set l | l in g.links - todo && l.0 !in g.devices :: l.1
      invariant destDvcs == set l | l in g.links - todo :: l.1
      decreases todo
    {
      var l :| l in todo;
      if l.0 !in g.devices {
        border := border + {l.1};
      }
      destDvcs := destDvcs + {l.1};
      assert g.links - (todo - {l}) == g.links - todo + {l};
      todo := todo - {l};
    }
    assert g.links - todo == g.links;
    border := border + set id | id in g.devices && id !in destDvcs;
    BorderIsTwofold(g, border, destDvcs);
  }

  lemma BorderIsTwofold(g: Grid, border: set<uint32>, destDvcs: set<uint32>)
    requires AreContainerLinks(g)
    requires destDvcs == set l | l in g.links :: l.1
    requires border == (set l | l in g.links && l.0 !in g.devices :: l.1) + set id | id in g.devices && id !in destDvcs
    ensures border == Border(g)
  {
    forall id | id in border ensures id in Border(g) {
      if id in destDvcs {
        var l :| l in g.links && l.0 !in g.devices && l.1 == id;
      }
    }
    forall id | id in Border(g) ensures id in border {
      if id in destDvcs {
        var l0 :| l0 in g.links && l0.1 == id;
        var l :| l in g.links && l.1 == id && l.0 !in g.devices;
      }
    }
  }

  /** update_border_devices: each device is replaced by the in-container devices it powers. */
  method UpdateBorderDevices(g: Grid, border: set<uint32>) returns (next: set<uint32>)
    ensures next == Powered(g, border)
  {
    next := {};
    var todo := border;
    while todo != {}
      invariant todo <= border
      invariant next == Powered(g, border - todo)
      decreases todo
    {
      var id :| id in todo;
      var dests := FindDests(g, id);
      next := next + set d | d in dests && d in g.devices;
      assert border - (todo - {id}) == border - todo + {id};
      todo := todo - {id};
    }
    assert border - todo == border;
  }

  /** ids' are ids and the smart devices among seen, each once more. */
  ghost predicate IsWithSmart(g: Grid, ids: seq<uint32>, seen: set<uint32>, ids': seq<uint32>)
    requires seen <= g.devices.Keys
  {
    forall id ::
      && (id in ids' <==> id in ids || (id in seen && Smart(g, id)))
      && multiset(ids')[id] == multiset(ids)[id] + if id in seen && Smart(g, id) then 1 else 0
  }

  lemma OneMoreSeen(g: Grid, ids: seq<uint32>, seen: set<uint32>, ids': seq<uint32>, id: uint32)
    requires seen <= g.devices.Keys && id in g.devices && id !in seen && IsWithSmart(g, ids, seen, ids')
    ensures IsWithSmart(g, ids, seen + {id}, if Smart(g, id) then ids' + [id] else ids')
  {
  }

  ghost predicate AreSmart(g: Grid, ids: set<uint32>) {
    forall id | id in ids :: id in g.devices && Smart(g, id)
  }

  /** One pass over the border: every smart device is reported and marked for removal. */
  method TakeSmart(g: Grid, border: set<uint32>, dvc: seq<string>, todelete: set<uint32>, ghost ids: seq<uint32>)
    returns (dvc': seq<string>, todelete': set<uint32>, ghost ids': seq<uint32>)
    requires border <= g.devices.Keys && AreNames(g, ids, dvc) && AreSmart(g, todelete)
    ensures AreNames(g, ids', dvc') && IsWithSmart(g, ids, border, ids')
    ensures AreSmart(g, todelete') && border - todelete' == Blind(g, border)
  {
    dvc', todelete', ids' := dvc, todelete, ids;
    var todo := border;
    while todo != {}
      invariant todo <= border && AreNames(g, ids', dvc')
      invariant IsWithSmart(g, ids, border - todo, ids')
      invariant AreSmart(g, todelete')
      invariant forall id | id in border - todo && Smart(g, id) :: id in todelete'
      decreases todo
    {
      var id :| id in todo;
      OneMoreSeen(g, ids, border - todo, ids', id);
      assert border - (todo - {id}) == border - todo + {id};
      var feedsOther := IsPoweringOtherRack(g, id);
      var subtype := g.devices[id].subtype;
      if subtype.Epdu? || (subtype.Ups? && !feedsOther) {
        dvc', ids' := dvc' + [g.devices[id].name], ids' + [id];
        todelete' := todelete' + {id};
      }
      todo := todo - {id};
    }
  }

  /** The names reported, for the devices with these ids. */
  ghost predicate AreNames(g: Grid, ids: seq<uint32>, dvc: seq<string>) {
    && |ids| == |dvc|
    && forall i | 0 <= i < |ids| :: ids[i] in g.devices && dvc[i] == g.devices[ids[i]].name
  }

  /** At how many depths a metering device is reached in the first k rounds. */
  ghost function TimesFound(g: Grid, k: nat, id: uint32): nat {
    if k == 0 then 0 else TimesFound(g, k - 1, id) + if id in Frontier(g, k - 1) && Smart(g, id) then 1 else 0
  }

  lemma {:induction false} NothingFoundLater(g: Grid, k: nat, n: nat, id: uint32)
    requires Frontier(g, k) == {} && k <= n
    ensures TimesFound(g, n, id) == TimesFound(g, k, id)
  {
    if k < n {
      NothingFoundLater(g, k, n - 1, id);
      EmptyStaysEmpty(g, k, n - 1);
    }
  }

  /** The variables at the start of round k. */
  ghost predicate IsRound(g: Grid, k: nat, border: set<uint32>, dvc: seq<string>, todelete: set<uint32>,
          ids: seq<uint32>)
  {
    border == Frontier(g, k) && AreNames(g, ids, dvc) && AreSmart(g, todelete) && FoundSoFar(g, k, ids)
  }

  method Round(g: Grid, ghost k: nat, border: set<uint32>, dvc: seq<string>, todelete: set<uint32>,
          ghost ids: seq<uint32>)
    returns (border': set<uint32>, dvc': seq<string>, todelete': set<uint32>, ghost ids': seq<uint32>)
    requires IsRound(g, k, border, dvc, todelete, ids)
    ensures border' == Frontier(g, k + 1) && AreSmart(g, todelete')
    ensures IsRound(g, k + 1, border', dvc', todelete', ids')
  {
    dvc', todelete', ids' := TakeSmart(g, border, dvc, todelete, ids);
    border' := border - todelete';
    border' := UpdateBorderDevices(g, border');
    FoundOneMore(g, k, ids, ids');
  }

  lemma NotYetDrained(g: Grid, k: nat)
    requires Drains(g) && Frontier(g, k) != {} && k <= |g.devices|
    ensures k < |g.devices|
  {
    DrainsUnlessLooped(g);
  }

  /** total_power_v2: the reported devices are exactly the first smart devices of
      the power chains, each as often as there are depths it is reached at. */
  method TotalPowerV2(g: Grid) returns (dvc: seq<string>, ghost ids: seq<uint32>, ghost rounds: nat)
    requires AreContainerLinks(g) && Drains(g)
    ensures AreNames(g, ids, dvc)
    ensures forall id :: id in ids <==> IsFirstSmart(g, id)
    ensures forall name :: name in dvc <==> NamesFirstSmart(g, name)
    ensures forall id | id in ids :: IsMeter(g, id)
    ensures forall id :: multiset(ids)[id] == TimesFound(g, |g.devices|, id)
    ensures rounds <= |g.devices|
  {
    DrainsUnlessLooped(g);
    var border := InitialBorder(g);
    dvc, ids, rounds := [], [], 0;
    var todelete: set<uint32> := {};
    while border != {}
      invariant rounds <= |g.devices| && IsRound(g, rounds, border, dvc, todelete, ids)
      decreases |g.devices| - rounds
    {
      NotYetDrained(g, rounds);
      border, dvc, todelete, ids := Round(g, rounds, border, dvc, todelete, ids);
      rounds := rounds + 1;
    }
    AllFound(g, rounds, ids);
    FoundAreNamed(g, ids, dvc);
    forall id | id in ids ensures IsMeter(g, id) {
      SmartIsMeter(g, id);
    }
  }

  ghost predicate NamesFirstSmart(g: Grid, name: string) {
    exists id :: IsFirstSmart(g, id) && g.devices[id].name == name
  }

  lemma FoundAreNamed(g: Grid, ids: seq<uint32>, dvc: seq<string>)
    requires AreNames(g, ids, dvc) && forall id :: id in ids <==> IsFirstSmart(g, id)
    ensures forall name :: name in dvc <==> NamesFirstSmart(g, name)
  {
    forall name ensures name in dvc <==> NamesFirstSmart(g, name) {
      if name in dvc {
        var i :| 0 <= i < |dvc| && dvc[i] == name;
        assert ids[i] in ids;
      }
      if id :| IsFirstSmart(g, id) && g.devices[id].name == name {
        var i :| 0 <= i < |ids| && ids[i] == id;
        assert dvc[i] == name;
      }
    }
  }

  /** The devices found in the first k rounds, as often as they were found. */
  ghost predicate FoundSoFar(g: Grid, k: nat, ids: seq<uint32>) {
    forall id :: (id in ids <==> FoundBefore(g, k, id)) && multiset(ids)[id] == TimesFound(g, k, id)
  }

  lemma FoundOneMore(g: Grid, k: nat, before: seq<uint32>, ids: seq<uint32>)
    requires FoundSoFar(g, k, before)
    requires IsWithSmart(g, before, Frontier(g, k), ids)
    ensures FoundSoFar(g, k + 1, ids)
  {
    forall id ensures FoundBefore(g, k + 1, id) <==> FoundBefore(g, k, id) || (id in Frontier(g, k) && Smart(g, id)) {
    }
  }

  lemma AllFound(g: Grid, k: nat, ids: seq<uint32>)
    requires FoundSoFar(g, k, ids) && Frontier(g, k) == {} && k <= |g.devices|
    ensures forall id :: id in ids <==> IsFirstSmart(g, id)
    ensures forall id :: multiset(ids)[id] == TimesFound(g, |g.devices|, id)
  {
    forall id ensures id in ids <==> IsFirstSmart(g, id) {
      FoundIsFirstSmart(g, k, id);
    }
    forall id ensures TimesFound(g, |g.devices|, id) == TimesFound(g, k, id) {
      NothingFoundLater(g, k, |g.devices|, id);
    }
  }

  // ---------- no chain is missed ----------

  /** Every power chain that reaches a smart device passes a reported one, the first on it. */
  lemma {:induction false} EveryChainIsMeasured(g: Grid, path: seq<uint32>) returns (i: nat)
    requires IsChain(g, path) && Smart(g, path[|path| - 1])
    ensures i < |path| && IsFirstSmart(g, path[i]) && forall j | 0 <= j < i :: !Smart(g, path[j])
  {
    if j :| 0 <= j < |path| - 1 && Smart(g, path[j]) {
      var front := path[..j + 1];
      i := EveryChainIsMeasured(g, front);
    } else {
      i := |path| - 1;
      assert IsBlindChain(g, path);
    }
  }

  /** Without loops every device hangs on a chain from the border. */
  lemma {:induction false} EveryDeviceIsFed(g: Grid, rank: map<uint32, nat>, id: uint32) returns (path: seq<uint32>)
    requires FeedsForward(g, rank) && id in g.devices
    ensures IsChain(g, path) && path[|path| - 1] == id
    decreases rank[id]
  {
    if OnBorder(g, id) {
      path := [id];
    } else {
      var l :| l in g.links && l.1 == id;
      assert l.0 in g.devices;
      path := EveryDeviceIsFed(g, rank, l.0);
      path := path + [id];
    }
  }

  /** So every smart device is reported or fed, at some remove, by a reported one. */
  lemma EverySmartDeviceCounts(g: Grid, rank: map<uint32, nat>, id: uint32) returns (path: seq<uint32>, i: nat)
    requires FeedsForward(g, rank) && id in g.devices && Smart(g, id)
    ensures IsChain(g, path) && path[|path| - 1] == id
    ensures i < |path| && IsFirstSmart(g, path[i])
  {
    path := EveryDeviceIsFed(g, rank, id);
    i := EveryChainIsMeasured(g, path);
  }
}
