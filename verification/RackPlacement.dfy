/** Placing assets in a rack, tryToPlaceAsset of asset/src/asset-helpers.cpp, and the
    room that is left, free_u_size of asset/src/asset-computed.cpp. */
module RackPlacement {
  import opened AssetModel

  /** u_size and location_u_pos of an asset, when they are set. */
  datatype Placing = Placing(size: Option<nat>, pos: Option<nat>)

  /** A child and its attributes, when they can be read. */
  datatype Child = Child(id: uint32, attrs: Option<Placing>)

  datatype Answer = Placed | WrongPosition | WrongSize | NoRackSize | OutOfBounds | Occupied | Threw

  /** One entry of the bitmap. */
  datatype Cell = Free | Taken

  const UINT32_END: nat := 0x1_0000_0000
  const SIZE_T_END: nat := 0x1_0000_0000_0000_0000

  /** Reading only one of the two attributes throws; with neither the child takes no room. */
  predicate IsHalfPlaced(c: Child) {
    c.attrs.Some? && c.attrs.value.size.Some? != c.attrs.value.pos.Some?
  }

  predicate TakesRoom(c: Child) {
    c.attrs.Some? && c.attrs.value.size.Some? && c.attrs.value.pos.Some?
  }

  /** Unsigned arithmetic of 64 bits: position 0 starts behind every cell. */
  function FirstCell(pos: nat): nat
  {
    (pos + SIZE_T_END - 1) % SIZE_T_END
  }

  function EndCell(pos: nat, size: nat): nat
  {
    (FirstCell(pos) + size) % SIZE_T_END
  }

  /** The child's loop marks this cell. */
  ghost predicate Covers(c: Child, cell: nat) {
    && TakesRoom(c)
    && var at := c.attrs.value;
    FirstCell(at.pos.value) <= cell < EndCell(at.pos.value, at.size.value)
  }

  /** For positions from 1 on and no overflow: the cells from pos up to pos + size - 1. */
  lemma CoversInterval(c: Child, cell: nat)
    requires TakesRoom(c) && 1 <= c.attrs.value.pos.value
    requires c.attrs.value.pos.value + c.attrs.value.size.value <= SIZE_T_END
    ensures Covers(c, cell)
      <==> c.attrs.value.pos.value <= cell + 1 < c.attrs.value.pos.value + c.attrs.value.size.value
  {
    var pos, size := c.attrs.value.pos.value, c.attrs.value.size.value;
    assert pos + SIZE_T_END - 1 == (pos - 1) + 1 * SIZE_T_END;
    assert FirstCell(pos) == pos - 1;
    assert EndCell(pos, size) == pos - 1 + size;
  }

  /** Position 0, and an end that leaves 64 bits, make a child that is nowhere. */
  lemma WrappedCoversNothing(c: Child, cell: nat)
    requires TakesRoom(c) && c.attrs.value.pos.value < SIZE_T_END && c.attrs.value.size.value < SIZE_T_END
    requires c.attrs.value.pos.value == 0 || c.attrs.value.pos.value + c.attrs.value.size.value > SIZE_T_END
    ensures !Covers(c, cell)
  {
    var pos, size := c.attrs.value.pos.value, c.attrs.value.size.value;
    if pos == 0 {
      assert FirstCell(pos) == SIZE_T_END - 1;
    } else {
      assert pos + SIZE_T_END - 1 == (pos - 1) + 1 * SIZE_T_END;
      assert FirstCell(pos) == pos - 1;
      assert pos - 1 + size == (pos - 1 + size - SIZE_T_END) + 1 * SIZE_T_END;
    }
  }

  ghost predicate IsOccupied(children: seq<Child>, id: uint32, cell: nat) {
    exists c :: c in children && c.id != id && Covers(c, cell)
  }

  /** The rack's bitmap after the children other than id, or the exception. */
  method MarkChildren(rackSize: nat, children: seq<Child>, id: uint32) returns (threw: bool, place: array<Cell>)
    ensures fresh(place) && place.Length == rackSize
    ensures threw <==> exists c :: c in children && c.id != id && IsHalfPlaced(c)
    ensures !threw ==> forall cell | 0 <= cell < rackSize :: place[cell].Taken? <==> IsOccupied(children, id, cell)
  {
    place := new Cell[rackSize](_ => Free);
    for k := 0 to |children|
      invariant forall c | c in children[..k] && c.id != id :: !IsHalfPlaced(c)
      invariant forall cell | 0 <= cell < rackSize :: place[cell].Taken? <==> IsOccupied(children[..k], id, cell)
    {
      var child := children[k];
      assert children[..k + 1] == children[..k] + [child];
      assert child in children;
      if child.id != id && child.attrs.Some? {
        var attrs := child.attrs.value;
        if attrs.size.Some? || attrs.pos.Some? {
          if attrs.size.None? || attrs.pos.None? {
            return true, place;
          }
          MarkCells(place, FirstCell(attrs.pos.value), EndCell(attrs.pos.value, attrs.size.value));
        }
      }
    }
    assert children[..|children|] == children;
    threw := false;
  }

  method MarkCells(place: array<Cell>, from: nat, end: nat)
    modifies place
    ensures forall cell | 0 <= cell < place.Length ::
      place[cell].Taken? <==> old(place[cell].Taken?) || from <= cell < end
  {
    var i := from;
    while i < end
      invariant from <= i && (i <= end || i == from)
      invariant forall cell | 0 <= cell < place.Length ::
        place[cell].Taken? <==> old(place[cell].Taken?) || from <= cell < i
      decreases end - i
    {
      if i < place.Length {
        place[i] := Taken;
      }
      i := i + 1;
    }
  }

  /** loc + size - 1 leaves 32 bits: the loop that checks the cells does not run. */
  predicate Overflows(size: nat, loc: nat) {
    loc + size - 1 >= UINT32_END
  }

  lemma EndOfCheck(size: nat, loc: nat)
    requires 1 <= loc < UINT32_END && 1 <= size < UINT32_END
    ensures (loc + size - 1) % UINT32_END
      == if Overflows(size, loc) then loc + size - 1 - UINT32_END else loc + size - 1
  {
    if Overflows(size, loc) {
      assert loc + size - 1 == (loc + size - 1 - UINT32_END) + 1 * UINT32_END;
    }
  }

  ghost predicate IsFreeCell(rackSize: nat, children: seq<Child>, id: uint32, cell: int) {
    0 <= cell < rackSize && !IsOccupied(children, id, cell)
  }

  /** All the cells asked for are in the rack and free of other children. */
  ghost predicate IsRoom(rackSize: nat, children: seq<Child>, id: uint32, size: nat, loc: nat) {
    forall cell | loc - 1 <= cell < loc + size - 1 :: IsFreeCell(rackSize, children, id, cell)
  }

  ghost predicate Accepts(rackSize: nat, children: seq<Child>, id: uint32, size: nat, loc: nat) {
    Overflows(size, loc) || IsRoom(rackSize, children, id, size, loc)
  }

  /** The cells in the rack are free, but there are not enough of them. */
  ghost predicate LeavesRack(rackSize: nat, children: seq<Child>, id: uint32, size: nat, loc: nat) {
    && loc + size - 1 > rackSize
    && forall cell | loc - 1 <= cell < rackSize :: IsFreeCell(rackSize, children, id, cell)
  }

  /** A cell asked for is in the rack and another child's. */
  ghost predicate MeetsAnother(rackSize: nat, children: seq<Child>, id: uint32, size: nat, loc: nat) {
    exists cell: nat :: loc - 1 <= cell < loc + size - 1 && cell < rackSize && IsOccupied(children, id, cell)
  }

  /** tryToPlaceAsset.  What cannot be read counts as placed; otherwise the asset is
      placed exactly when its cells are in the rack and free, or overflow. */
  method TryToPlaceAsset(id: uint32, rack: Option<Option<nat>>, children: Option<seq<Child>>, size: uint32, loc: uint32)
    returns (r: Answer)
    ensures rack.None? ==> r == Placed
    ensures rack.Some? && loc == 0 ==> r == WrongPosition
    ensures rack.Some? && loc != 0 && size == 0 ==> r == WrongSize
    ensures rack.Some? && loc != 0 && size != 0 && rack.value.None? ==> r == NoRackSize
    ensures rack.Some? && loc != 0 && size != 0 && rack.value.Some? && children.None? ==> r == Placed
    ensures rack.Some? && loc != 0 && size != 0 && rack.value.Some? && children.Some? ==>
      && (r == Threw <==> exists c :: c in children.value && c.id != id && IsHalfPlaced(c))
      && (r != Threw ==> (r == Placed <==> Accepts(rack.value.value, children.value, id, size as nat, loc as nat)))
      && (r == OutOfBounds ==> LeavesRack(rack.value.value, children.value, id, size as nat, loc as nat))
      && (r == Occupied ==> MeetsAnother(rack.value.value, children.value, id, size as nat, loc as nat))
      && r in {Placed, OutOfBounds, Occupied, Threw}
  {
    if rack.None? {
      return Placed;
    }
    if loc == 0 {
      return WrongPosition;
    }
    if size == 0 {
      return WrongSize;
    }
    if rack.value.None? {
      return NoRackSize;
    }
    if children.None? {
      return Placed;
    }
    var threw, place := MarkChildren(rack.value.value, children.value, id);
    if threw {
      return Threw;
    }
    var i := loc as nat - 1;
    var end := (loc as nat + size as nat - 1) % UINT32_END;
    EndOfCheck(size as nat, loc as nat);
    while i < end
      invariant loc as nat - 1 <= i
      invariant i <= end || i == loc as nat - 1
      invariant forall cell | loc as nat - 1 <= cell < i :: IsFreeCell(place.Length, children.value, id, cell)
      decreases end - i
    {
      assert !IsFreeCell(place.Length, children.value, id, i) <==> i >= place.Length || place[i].Taken?;
      if i >= place.Length {
        return OutOfBounds;
      }
      if place[i].Taken? {
        return Occupied;
      }
      i := i + 1;
    }
    r := Placed;
  }

  // ---------- runs of placements ----------

  /** An asset in its place; positions count from 1. */
  datatype Slot = Slot(id: uint32, pos: nat, size: nat)

  function AsChild(s: Slot): Child {
    Child(s.id, Some(Placing(Some(s.size), Some(s.pos))))
  }

  function AsChildren(slots: seq<Slot>): seq<Child> {
    seq(|slots|, i requires 0 <= i < |slots| => AsChild(slots[i]))
  }

  predicate IsApart(a: Slot, b: Slot) {
    a.pos + a.size <= b.pos || b.pos + b.size <= a.pos
  }

  predicate FitsRack(rackSize: nat, s: Slot) {
    1 <= s.pos && 1 <= s.size && s.pos + s.size - 1 <= rackSize
  }

  /** Everything lies in the rack and nothing overlaps. */
  ghost predicate IsTidy(rackSize: nat, slots: seq<Slot>) {
    && (forall i | 0 <= i < |slots| :: FitsRack(rackSize, slots[i]))
    && (forall i, j | 0 <= i < j < |slots| :: slots[i].id != slots[j].id && IsApart(slots[i], slots[j]))
  }

  lemma SlotCovers(rackSize: nat, s: Slot, cell: nat)
    requires FitsRack(rackSize, s) && rackSize < UINT32_END
    ensures Covers(AsChild(s), cell) <==> s.pos <= cell + 1 < s.pos + s.size
  {
    CoversInterval(AsChild(s), cell);
  }

  /** In a tidy rack the answer is about intervals: inside, and apart from all others. */
  lemma RoomIsApartness(rackSize: nat, slots: seq<Slot>, s: Slot)
    requires IsTidy(rackSize, slots) && rackSize < UINT32_END && 1 <= s.pos && 1 <= s.size
    ensures IsRoom(rackSize, AsChildren(slots), s.id, s.size, s.pos)
      <==> FitsRack(rackSize, s) && forall i | 0 <= i < |slots| && slots[i].id != s.id :: IsApart(slots[i], s)
  {
    var children := AsChildren(slots);
    if IsRoom(rackSize, children, s.id, s.size, s.pos) {
      assert IsFreeCell(rackSize, children, s.id, s.pos + s.size - 2);
      forall i | 0 <= i < |slots| && slots[i].id != s.id ensures IsApart(slots[i], s) {
        var cell := (if slots[i].pos < s.pos then s.pos else slots[i].pos) - 1;
        SlotCovers(rackSize, slots[i], cell);
        assert children[i] in children;
        assert Covers(children[i], cell) ==> IsOccupied(children, s.id, cell);
        assert s.pos - 1 <= cell < s.pos + s.size - 1 ==> IsFreeCell(rackSize, children, s.id, cell);
      }
    }
    if FitsRack(rackSize, s) && forall i | 0 <= i < |slots| && slots[i].id != s.id :: IsApart(slots[i], s) {
      forall cell | s.pos - 1 <= cell < s.pos + s.size - 1 ensures IsFreeCell(rackSize, children, s.id, cell) {
        forall c | c in children && c.id != s.id ensures !Covers(c, cell) {
          var i :| 0 <= i < |slots| && children[i] == c;
          SlotCovers(rackSize, slots[i], cell);
          assert IsApart(slots[i], s);
        }
      }
    }
  }

  datatype Move = Put(s: Slot) | Take(id: uint32)

  function Without(slots: seq<Slot>, id: uint32): seq<Slot> {
    if slots == [] then [] else
      var last := slots[|slots| - 1];
      Without(slots[..|slots| - 1], id) + if last.id == id then [] else [last]
  }

  /** An asset is put where tryToPlaceAsset accepts it, and leaves its old place. */
  ghost predicate IsMove(rackSize: nat, slots: seq<Slot>, m: Move, slots': seq<Slot>) {
    match m
    case Put(s) =>
      && 0 < s.pos < UINT32_END && 0 < s.size < UINT32_END
      && Accepts(rackSize, AsChildren(slots), s.id, s.size, s.pos)
      && slots' == Without(slots, s.id) + [s]
    case Take(id) => slots' == Without(slots, id)
  }

  lemma {:induction false} WithoutIs(slots: seq<Slot>, id: uint32)
    ensures forall s :: s in Without(slots, id) <==> s in slots && s.id != id
    ensures forall rackSize :: IsTidy(rackSize, slots) ==> IsTidy(rackSize, Without(slots, id))
  {
    if slots != [] {
      var front, last := slots[..|slots| - 1], slots[|slots| - 1];
      WithoutIs(front, id);
      assert slots == front + [last];
      forall rackSize | IsTidy(rackSize, slots) ensures IsTidy(rackSize, Without(slots, id)) {
        assert IsTidy(rackSize, front);
        var w := Without(front, id);
        forall i | 0 <= i < |w| ensures w[i].id != last.id && IsApart(w[i], last) {
          assert w[i] in w;
          var j :| 0 <= j < |front| && front[j] == w[i];
          assert slots[j] == w[i] && slots[|slots| - 1] == last;
        }
      }
    }
  }

  /** The guard a caller would have to add. */
  predicate IsInRange(m: Move) {
    m.Put? ==> !Overflows(m.s.size, m.s.pos)
  }

  /** A placement that overflows is accepted and leaves the rack; no other move makes a mess. */
  lemma MoveKeepsTidy(rackSize: nat, slots: seq<Slot>, m: Move, slots': seq<Slot>)
    requires rackSize < UINT32_END && IsTidy(rackSize, slots) && IsMove(rackSize, slots, m, slots')
    ensures IsTidy(rackSize, slots') <==> IsInRange(m)
  {
    match m
    case Take(id) => WithoutIs(slots, id);
    case Put(s) =>
      if IsInRange(m) {
        WithoutIs(slots, s.id);
        RoomIsApartness(rackSize, slots, s);
        var w := Without(slots, s.id);
        forall i | 0 <= i < |w| ensures w[i].id != s.id && IsApart(w[i], s) {
          assert w[i] in w;
          var j :| 0 <= j < |slots| && slots[j] == w[i];
        }
      } else {
        assert slots'[|slots'| - 1] == s && !FitsRack(rackSize, s);
      }
  }

  /** Two units from position 4294967295 on are accepted in an empty rack of 42 units. */
  lemma OverflowIsAccepted()
    ensures var s := Slot(1, UINT32_END - 1, 2); IsMove(42, [], Put(s), [s]) && !IsTidy(42, [s])
  {
    var s := Slot(1, UINT32_END - 1, 2);
    assert Without([], s.id) + [s] == [s];
    assert !FitsRack(42, [s][0]);
  }

  ghost predicate IsRun(rackSize: nat, states: seq<seq<Slot>>, moves: seq<Move>) {
    && |states| == |moves| + 1 && states[0] == []
    && forall i | 0 <= i < |moves| :: IsMove(rackSize, states[i], moves[i], states[i + 1])
  }

  /** Over every run of accepted placements and removals nothing overlaps or leaves
      the rack, exactly as long as no placement overflows. */
  lemma {:induction false} RunsStayTidy(rackSize: nat, states: seq<seq<Slot>>, moves: seq<Move>, k: nat)
    requires rackSize < UINT32_END && IsRun(rackSize, states, moves) && k < |states|
    ensures (forall j | 0 <= j <= k :: IsTidy(rackSize, states[j])) <==> (forall j | 0 <= j < k :: IsInRange(moves[j]))
  {
    if k > 0 {
      RunsStayTidy(rackSize, states, moves, k - 1);
      if IsTidy(rackSize, states[k - 1]) {
        MoveKeepsTidy(rackSize, states[k - 1], moves[k - 1], states[k]);
      }
    }
  }

  // ---------- the room that is left ----------

  function SumSizes(slots: seq<Slot>): nat {
    if slots == [] then 0 else SumSizes(slots[..|slots| - 1]) + slots[|slots| - 1].size
  }

  /** The cells of a rack, counted from 0, and the taken ones among them. */
  ghost function CellRange(from: nat, end: nat): (cells: set<nat>)
    ensures forall c :: c in cells <==> from <= c < end
    decreases end
  {
    if end <= from then {} else CellRange(from, end - 1) + {end - 1}
  }

  /** The cells of one slot. */
  ghost function SlotCells(s: Slot): set<nat> {
    var start := if s.pos == 0 then 0 else s.pos - 1;
    CellRange(start, start + s.size)
  }

  ghost function TakenCells(slots: seq<Slot>): set<nat> {
    if slots == [] then {} else TakenCells(slots[..|slots| - 1]) + SlotCells(slots[|slots| - 1])
  }

  lemma {:induction false} RangeSize(from: nat, end: nat)
    requires from <= end
    ensures |CellRange(from, end)| == end - from
    decreases end
  {
    if from < end {
      RangeSize(from, end - 1);
    }
  }

  lemma {:induction false} TakenCellsAre(slots: seq<Slot>)
    ensures forall c :: c in TakenCells(slots) <==> IsTaken(slots, c)
  {
    if slots != [] {
      var front, last := slots[..|slots| - 1], slots[|slots| - 1];
      TakenCellsAre(front);
      forall c ensures IsTaken(slots, c) <==> IsTaken(front, c) || c in SlotCells(last) {
        OneMoreTaken(front, last, c);
        assert slots == front + [last];
      }
    }
  }

  ghost predicate IsTaken(slots: seq<Slot>, c: nat) {
    exists s :: s in slots && c in SlotCells(s)
  }

  lemma OneMoreTaken(front: seq<Slot>, last: Slot, c: nat)
    ensures IsTaken(front + [last], c) <==> IsTaken(front, c) || c in SlotCells(last)
  {
    if c in SlotCells(last) {
      assert last in front + [last];
    }
    if IsTaken(front, c) {
      var s :| s in front && c in SlotCells(s);
      assert s in front + [last];
    }
  }

  lemma TakenIsInRack(rackSize: nat, slots: seq<Slot>, c: nat)
    requires IsTidy(rackSize, slots) && IsTaken(slots, c)
    ensures c < rackSize
  {
    var s :| s in slots && c in SlotCells(s);
    assert FitsRack(rackSize, s);
  }

  lemma TakenBeforeLast(rackSize: nat, slots: seq<Slot>, c: nat)
    requires IsTidy(rackSize, slots) && slots != [] && IsTaken(slots[..|slots| - 1], c)
    ensures c !in SlotCells(slots[|slots| - 1])
  {
    var s :| s in slots[..|slots| - 1] && c in SlotCells(s);
    var i :| 0 <= i < |slots| - 1 && slots[i] == s;
    assert IsApart(slots[i], slots[|slots| - 1]);
    assert FitsRack(rackSize, slots[i]) && FitsRack(rackSize, slots[|slots| - 1]);
  }

  lemma LastIsApart(rackSize: nat, slots: seq<Slot>)
    requires IsTidy(rackSize, slots) && slots != []
    ensures IsTidy(rackSize, slots[..|slots| - 1])
    ensures TakenCells(slots[..|slots| - 1]) !! SlotCells(slots[|slots| - 1])
  {
    var front, last := slots[..|slots| - 1], slots[|slots| - 1];
    TakenCellsAre(front);
    forall c: nat | c in TakenCells(front) ensures c !in SlotCells(last) {
      TakenBeforeLast(rackSize, slots, c);
    }
  }

  lemma CountOneMore(taken: set<nat>, s: Slot)
    requires taken !! SlotCells(s)
    ensures |taken + SlotCells(s)| == |taken| + s.size
  {
    var start := if s.pos == 0 then 0 else s.pos - 1;
    RangeSize(start, start + s.size);
  }

  /** No two slots share a cell, so the sizes add up to the number of taken cells. */
  lemma {:induction false} SizesCountCells(rackSize: nat, slots: seq<Slot>)
    requires IsTidy(rackSize, slots)
    ensures |TakenCells(slots)| == SumSizes(slots)
  {
    if slots != [] {
      LastIsApart(rackSize, slots);
      SizesCountCells(rackSize, slots[..|slots| - 1]);
      CountOneMore(TakenCells(slots[..|slots| - 1]), slots[|slots| - 1]);
    }
  }

  /** In every state a run can reach the sizes fit the rack. */
  lemma SizesFit(rackSize: nat, slots: seq<Slot>)
    requires IsTidy(rackSize, slots)
    ensures SumSizes(slots) <= rackSize
    ensures |CellRange(0, rackSize) - TakenCells(slots)| == rackSize - SumSizes(slots)
  {
    SizesCountCells(rackSize, slots);
    TakenCellsAre(slots);
    forall c | c in TakenCells(slots) ensures c in CellRange(0, rackSize) {
      TakenIsInRack(rackSize, slots, c);
    }
    RangeSize(0, rackSize);
    var all, taken := CellRange(0, rackSize), TakenCells(slots);
    assert all == taken + (all - taken);
    assert |all| == |taken| + |all - taken|;
  }

  /** An unsigned value of 32 bits. */
  type Word = n: nat | n < 0x1_0000_0000

  const INT_END: nat := 0x8000_0000

  /** What a row adds to the sum: the conversion to int wraps, and the largest value is skipped. */
  function Summand(value: Word): int {
    if value == UINT32_END - 1 then 0
    else if value < INT_END then value
    else value - UINT32_END
  }

  /** The same 32 bits as a signed number, except that all ones count as none. */
  lemma SummandIsSigned(value: Word)
    ensures value == 0xFFFF_FFFF ==> Summand(value) == 0
    ensures value != 0xFFFF_FFFF ==>
      -0x8000_0000 <= Summand(value) < 0x8000_0000 && Summand(value) % 0x1_0000_0000 == value
  {
    if value >= INT_END {
      assert value - UINT32_END == value + -1 * UINT32_END;
    }
  }

  function Total(rows: seq<Word>): int {
    if rows == [] then 0 else Total(rows[..|rows| - 1]) + Summand(rows[|rows| - 1])
  }

  /** s_get_devices_usize: the sum over the rows, or -1 for a failed query. */
  method DevicesUSize(rows: Option<seq<Word>>) returns (size: int)
    ensures rows.None? ==> size == -1
    ensures rows.Some? ==> size == Total(rows.value)
  {
    if rows.None? {
      return -1;
    }
    size := 0;
    for i := 0 to |rows.value|
      invariant size == Total(rows.value[..i])
    {
      assert rows.value[..i + 1][..i] == rows.value[..i];
      if rows.value[i] != UINT32_END - 1 {
        size := size + Summand(rows.value[i]);
      }
    }
    assert rows.value[..|rows.value|] == rows.value;
  }

  /** A failed query, or one with a sum. */
  predicate HasTotal(rows: Option<seq<Word>>) {
    rows.Some? ==> Total(rows.value) != 0
  }

  /** free_u_size: -1 when the rack has no size, when its contents cannot be read and
      when they have no size; but a failed query for sizes goes on as the size -1. */
  method FreeUSize(rackRows: Option<seq<Word>>, contents: Option<seq<uint32>>, sizeRows: Option<seq<Word>>)
    returns (free: int)
    ensures rackRows.Some? && Total(rackRows.value) == 0 ==> free == -1
    ensures contents.None? ==> free == -1
    ensures sizeRows.Some? && Total(sizeRows.value) == 0 ==> free == -1
    ensures contents.Some? && HasTotal(rackRows) && HasTotal(sizeRows) ==>
      free == (if rackRows.Some? then Total(rackRows.value) else -1)
        - (if contents.value == [] then 0 else if sizeRows.Some? then Total(sizeRows.value) else -1)
  {
    free := DevicesUSize(rackRows);
    if free == 0 {
      return -1;
    }
    if contents.None? {
      return -1;
    }
    var used := DevicesUSize(sizeRows);
    if used == 0 {
      return -1;
    }
    free := free - if contents.value == [] then 0 else used;
  }

  function Sizes(slots: seq<Slot>): seq<Word>
    requires forall i | 0 <= i < |slots| :: slots[i].size < INT_END
  {
    seq(|slots|, i requires 0 <= i < |slots| => slots[i].size)
  }

  lemma {:induction false} TotalIsSum(slots: seq<Slot>)
    requires forall i | 0 <= i < |slots| :: slots[i].size < INT_END
    ensures Total(Sizes(slots)) == SumSizes(slots)
  {
    if slots != [] {
      TotalIsSum(slots[..|slots| - 1]);
      assert Sizes(slots)[..|slots| - 1] == Sizes(slots[..|slots| - 1]);
    }
  }

  /** For a rack that holds just its placed children, and at least one, the answer
      is the number of free cells.  For an empty rack it hangs on the query for the
      sizes of no assets at all: its size if that fails, and -1 if it finds nothing. */
  method FreeUSizeOfRack(rackSize: nat, slots: seq<Slot>, ids: seq<uint32>, failsOnNone: bool) returns (free: int)
    requires IsTidy(rackSize, slots) && 0 < rackSize < INT_END && |ids| == |slots|
    ensures slots != [] || failsOnNone ==> free == |CellRange(0, rackSize) - TakenCells(slots)|
    ensures slots == [] && !failsOnNone ==> free == -1
  {
    assert forall i | 0 <= i < |slots| :: FitsRack(rackSize, slots[i]);
    TotalIsSum(slots);
    SizesFit(rackSize, slots);
    assert Total([rackSize]) == rackSize by { assert [rackSize][..0] == []; }
    var sizeRows := if ids == [] && failsOnNone then None else Some(Sizes(slots));
    free := FreeUSize(Some([rackSize]), Some(ids), sizeRows);
    if slots != [] { assert FitsRack(rackSize, slots[|slots| - 1]); }
  }
}
