/** The extended attributes of an asset in memory and in the table: setExtEntry of
    lib/src/fty_asset_dto.cc against loadExtMap and saveExtMap of
    server/src/asset/asset-db.cc. */
module ExtMapSync {
  import opened AssetModel
  import opened Storage

  function SetValue(e: ExtMapElement, value: string): ExtMapElement {
    e.(updated := e.updated || e.value != value, value := value)
  }

  function SetReadOnly(e: ExtMapElement, readOnly: bool): ExtMapElement {
    e.(updated := e.updated || e.readOnly != readOnly, readOnly := readOnly)
  }

  class AssetObject {
    var ext: ExtMap

    constructor ()
      ensures ext == map[]
    {
      ext := map[];
    }

    /** setExtEntry, setter by setter. */
    method SetExtEntry(key: string, value: string, readOnly: bool, forceUpdatedFalse: bool)
      modifies this
      ensures ext == WithEntry(old(ext), key, value, readOnly, forceUpdatedFalse)
    {
      if key in ext {
        ext := ext[key := SetValue(ext[key], value)];
        ext := ext[key := SetReadOnly(ext[key], readOnly)];
      } else {
        var e := ExtMapElement("", false, false);
        e := SetReadOnly(SetValue(e, value), readOnly);
        if forceUpdatedFalse {
          e := e.(updated := false);
        }
        ext := ext[key := e];
      }
    }

    /** loadExtMap: clear, then one clean entry for each row. */
    method LoadExtMap(stored: map<string, Attribute>)
      modifies this
      ensures ext == Loaded(stored)
    {
      ext := map[];
      var todo := stored.Keys;
      while todo != {}
        invariant todo <= stored.Keys && ext.Keys == stored.Keys - todo
        invariant forall k | k in ext :: ext[k] == Loaded(stored)[k]
        decreases todo
      {
        var k :| k in todo;
        SetExtEntry(k, stored[k].value, stored[k].readOnly, true);
        todo := todo - {k};
      }
    }
  }

  function Loaded(stored: map<string, Attribute>): ExtMap {
    map k | k in stored :: ExtMapElement(stored[k].value, stored[k].readOnly, false)
  }

  // ---------- runs ----------

  datatype Op = Load | Set(key: string, value: string, readOnly: bool) | Save

  /** The attributes of one asset in the table, and its object. */
  datatype World = World(stored: map<string, Attribute>, mem: ExtMap)

  /** A save whose name cannot be normalised is rolled back. */
  ghost function Step(w: World, op: Op, norm: string -> Option<string>): World {
    match op
    case Load => w.(mem := Loaded(w.stored))
    case Set(key, value, readOnly) => w.(mem := WithEntry(w.mem, key, value, readOnly, false))
    case Save => if Normable(w.mem, norm) then w.(stored := SavedExt(w.stored, w.mem, norm)) else w
  }

  ghost function Run(w: World, ops: seq<Op>, norm: string -> Option<string>): World {
    if ops == [] then w else Step(Run(w, ops[..|ops| - 1], norm), ops[|ops| - 1], norm)
  }

  /** An entry that is not marked updated agrees with the table, and the object
      knows every attribute of the table. */
  ghost predicate InSync(w: World) {
    && w.stored.Keys <= w.mem.Keys
    && forall k | k in w.mem && !w.mem[k].updated ::
         if k in w.stored then w.stored[k] == Attribute(w.mem[k].value, w.mem[k].readOnly)
         else w.mem[k].value == "" && !w.mem[k].readOnly
  }

  /** What a save that wrote every entry would leave: the non-empty ones, and the
      empty ones another writer left in the table that nobody touched. */
  ghost function FullyWritten(w: World, norm: string -> Option<string>): map<string, Attribute> {
    map k | k in w.mem && (w.mem[k].value != "" || (!w.mem[k].updated && k in w.stored)) ::
      StoredAs(k, w.mem[k], norm)
  }

  /** Writing only the dirty entries leaves the same table as writing all of them. */
  lemma DirtyWriteIsFullWrite(w: World, norm: string -> Option<string>)
    requires InSync(w) && Normable(w.mem, norm)
    ensures SavedExt(w.stored, w.mem, norm) == FullyWritten(w, norm)
  {
    var saved := SavedExt(w.stored, w.mem, norm);
    forall k ensures k in saved <==> k in FullyWritten(w, norm) {
    }
  }

  lemma StepKeepsSync(w: World, op: Op, norm: string -> Option<string>)
    requires InSync(w)
    ensures InSync(Step(w, op, norm))
  {
    if op.Save? && Normable(w.mem, norm) {
      DirtyWriteIsFullWrite(w, norm);
    }
  }

  /** Over every run that starts with a load. */
  lemma {:induction false} RunsStayInSync(stored: map<string, Attribute>, ops: seq<Op>, norm: string -> Option<string>)
    ensures InSync(Run(World(stored, Loaded(stored)), ops, norm))
  {
    if ops != [] {
      RunsStayInSync(stored, ops[..|ops| - 1], norm);
      StepKeepsSync(Run(World(stored, Loaded(stored)), ops[..|ops| - 1], norm), ops[|ops| - 1], norm);
    }
  }

  /** However an object came about, saving and loading it again gives its own
      entries back, clean, without the empty ones that are not in the table anyway. */
  lemma SaveThenLoad(stored: map<string, Attribute>, ops: seq<Op>, norm: string -> Option<string>)
    requires Normable(Run(World(stored, Loaded(stored)), ops, norm).mem, norm)
    ensures var written := FullyWritten(Run(World(stored, Loaded(stored)), ops, norm), norm);
      Run(World(stored, Loaded(stored)), ops + [Save] + [Load], norm) == World(written, Loaded(written))
  {
    var w := World(stored, Loaded(stored));
    assert (ops + [Save] + [Load])[..|ops| + 1] == ops + [Save];
    assert (ops + [Save])[..|ops|] == ops;
    RunsStayInSync(stored, ops, norm);
    DirtyWriteIsFullWrite(Run(w, ops, norm), norm);
  }

  /** Setting an entry to what it is changes nothing, so the next save does not touch its row. */
  lemma OnlyChangesAreDirty(w: World, key: string, value: string, readOnly: bool, norm: string -> Option<string>)
    requires key in w.mem
    ensures var w' := Step(w, Set(key, value, readOnly), norm);
      if w.mem[key].value == value && w.mem[key].readOnly == readOnly then w' == w
      else w'.mem == w.mem[key := ExtMapElement(value, readOnly, true)] && w'.stored == w.stored
  {
    var w' := Step(w, Set(key, value, readOnly), norm);
    if w.mem[key].value == value && w.mem[key].readOnly == readOnly {
      assert w'.mem[key] == w.mem[key];
      assert w'.mem == w.mem;
    }
  }

  /** Whether setting an entry leaves it marked. */
  ghost predicate IsMarked(mem: ExtMap, key: string, value: string, readOnly: bool) {
    if key in mem then mem[key].updated || mem[key].value != value || mem[key].readOnly != readOnly
    else value != "" || readOnly
  }

  /** The table holds what was set last, unless that was empty; an empty value stays
      in the table only if setting it changed nothing.  A long name is shortened as soon as it is written. */
  lemma LastValueWins(w: World, key: string, value: string, readOnly: bool, norm: string -> Option<string>)
    requires InSync(w)
    requires Normable(Step(w, Set(key, value, readOnly), norm).mem, norm)
    ensures var stored := Step(Step(w, Set(key, value, readOnly), norm), Save, norm).stored;
      && (value != "" ==> key in stored)
      && (key in stored && !(key == "name" && |value| > 50 && IsMarked(w.mem, key, value, readOnly)) ==>
            stored[key] == Attribute(value, readOnly))
      && (key == "name" && |value| > 50 && IsMarked(w.mem, key, value, readOnly) ==>
            norm(value).Some? && stored[key] == Attribute(norm(value).value, readOnly))
      && (value == "" && key in stored ==>
            key in w.mem && !w.mem[key].updated && w.stored[key] == Attribute("", readOnly))
  {
    var w' := Step(w, Set(key, value, readOnly), norm);
    StepKeepsSync(w, Set(key, value, readOnly), norm);
    DirtyWriteIsFullWrite(w', norm);
  }
}
