/**
  The table driver: a fixed array of slots, one per table type, whose tables are laid end to end
  in the setup trace. Offsets are recomputed on every addition.
 */
module TableDriver {
  import opened Options
  import opened LookupTables

  /** As many slots as table types, but at most 48. */
  const TABLE_TYPES: nat := 44
  const SLOTS: nat := if TABLE_TYPES < 48 then TABLE_TYPES else 48
  const DUMP_WIDTH: nat := 4

  /** A slot is empty or holds a table of width one to three. */
  datatype Slot = Uninitialized | Loaded(table: Table) {
    function Size(): nat { if Uninitialized? then 0 else table.Size() }

    ghost predicate Sound() { Loaded? ==> Created(table) && 1 <= table.gen.width < DUMP_WIDTH }
  }

  /** A dumped row: the content, then the table id, then zeros. */
  function Assembled(row: Row, id: nat): Row { row + [id] + (if |row| < DUMP_WIDTH then Zeros(DUMP_WIDTH - 1 - |row|) else []) }

  /** A dumped row by its columns: the row, the table id right behind it, and zeros up to the width of the dump. */
  ghost predicate RowWithId(d: Row, row: Row, id: nat) {
    && |d| == 4 && |row| < 4
    && (forall j :: 0 <= j < |row| ==> d[j] == row[j])
    && d[|row|] == id
    && forall j :: |row| < j < 4 ==> d[j] == 0
  }

  lemma AssembledColumns(row: Row, id: nat)
    requires |row| < DUMP_WIDTH
    ensures RowWithId(Assembled(row, id), row, id)
  {
  }

  /** Positions taken by the slots before `i`. */
  ghost function Before(tables: seq<Slot>, i: nat): nat
    requires i <= |tables|
  {
    if i == 0 then 0 else Before(tables, i - 1) + tables[i - 1].Size()
  }

  /** The concatenation of the dumped slots. */
  ghost function Dumped(tables: seq<Slot>, i: nat): seq<Row>
    requires i <= |tables|
  {
    if i == 0 then [] else Dumped(tables, i - 1) + DumpedSlot(tables[i - 1])
  }

  ghost function DumpedSlot(s: Slot): seq<Row> {
    if s.Uninitialized? then []
    else seq(|s.table.data|, r requires 0 <= r < |s.table.data| => Assembled(s.table.data[r], s.table.id))
  }

  ghost predicate Sound(tables: seq<Slot>) { forall k :: 0 <= k < |tables| ==> tables[k].Sound() }

  lemma SlotLength(s: Slot)
    requires s.Sound()
    ensures |DumpedSlot(s)| == s.Size()
  {
    if s.Loaded? { TableSize(s.table); }
  }

  lemma {:induction false} DumpedLength(tables: seq<Slot>, i: nat)
    requires i <= |tables| && Sound(tables)
    ensures |Dumped(tables, i)| == Before(tables, i)
  {
    hide Slot.Sound, Slot.Size, DumpedSlot;
    if i > 0 {
      DumpedLength(tables, i - 1);
      SlotLength(tables[i - 1]);
    }
  }

  /** Row r of slot i is at the slot's offset plus r, however many slots follow. */
  lemma {:induction false} DumpedAt(tables: seq<Slot>, i: nat, r: nat, n: nat)
    requires i < n <= |tables| && Sound(tables) && tables[i].Loaded? && r < |tables[i].table.data|
    ensures Before(tables, i) + r < |Dumped(tables, n)|
    ensures Dumped(tables, n)[Before(tables, i) + r] == Assembled(tables[i].table.data[r], tables[i].table.id)
    decreases n
  {
    hide Slot.Sound, Slot.Size, Assembled, DumpedSlot, Sound;
    var prior := Dumped(tables, n - 1);
    assert Dumped(tables, n) == prior + DumpedSlot(tables[n - 1]);
    DumpedLength(tables, n - 1);
    if i < n - 1 { DumpedAt(tables, i, r, n - 1); } else { SlotRow(tables[i], r); }
  }

  lemma SlotRow(s: Slot, r: nat)
    requires s.Loaded? && r < |s.table.data|
    ensures r < |DumpedSlot(s)| && DumpedSlot(s)[r] == Assembled(s.table.data[r], s.table.id)
  {
  }

  method DumpInto(s: Slot) returns (result: seq<Row>)
    requires s.Loaded?
    ensures result == DumpedSlot(s)
    ensures s.Sound() ==> |result| == |s.table.data| && forall r :: 0 <= r < |result| ==> RowWithId(result[r], s.table.data[r], s.table.id)
  {
    hide Slot.Sound, Assembled, RowWithId;
    result := [];
    for k := 0 to |s.table.data|
      invariant result == DumpedSlot(s)[..k]
    {
      result := result + [Assembled(s.table.data[k], s.table.id)];
    }
    if s.Sound() {
      forall r | 0 <= r < |result|
        ensures RowWithId(result[r], s.table.data[r], s.table.id)
      {
        SlotColumns(s, r);
      }
    }
  }

  /** The columns of a dumped row of a sound slot. */
  lemma SlotColumns(s: Slot, r: nat)
    requires s.Sound() && s.Loaded? && r < |s.table.data|
    ensures RowWithId(Assembled(s.table.data[r], s.table.id), s.table.data[r], s.table.id)
  {
    hide Assembled, RowWithId, Created;
    RowFacts(s.table, r);
    AssembledColumns(s.table.data[r], s.table.id);
  }

  class Driver {
    var tables: seq<Slot>
    var offsets: seq<nat>
    var total: nat

    ghost predicate Valid()
      reads this
    {
      && |tables| == |offsets| == SLOTS
      && Sound(tables)
      && (forall i :: 0 <= i < SLOTS && tables[i].Loaded? ==> tables[i].table.id == i)
      && (forall i :: 0 <= i < SLOTS ==> offsets[i] == Before(tables, i))
      && total == Before(tables, SLOTS)
    }

    constructor ()
      ensures Valid() && tables == seq(SLOTS, _ => Uninitialized)
    {
      tables := seq(SLOTS, _ => Uninitialized);
      offsets := seq(SLOTS, _ => 0);
      total := 0;
      new;
      AllEmpty(tables, SLOTS);
      forall i | 0 <= i < SLOTS
        ensures Before(tables, i) == 0
      {
        AllEmpty(tables, i);
      }
    }

    /** Recomputes the offsets; its closing assertion holds because the total counts every loaded table once. */
    method UpdateOffsets()
      requires |tables| == |offsets| == SLOTS && total == Before(tables, SLOTS)
      modifies this`offsets
      ensures |offsets| == SLOTS && forall i :: 0 <= i < SLOTS ==> offsets[i] == Before(tables, i)
    {
      hide Slot.Size;
      var offset := 0;
      for i := 0 to SLOTS
        invariant |offsets| == SLOTS && offset == Before(tables, i)
        invariant forall k :: 0 <= k < i ==> offsets[k] == Before(tables, k)
      {
        offsets := offsets[i := offset];
        offset := offset + tables[i].Size();
      }
      assert offset == total;
    }

    /** Panics on an uninitialized table, a wrong id or an unknown one; a type already loaded keeps its first table. */
    method AddTable(tableType: nat, slot: Slot) returns (ok: bool)
      requires Valid() && slot.Sound()
      modifies this
      ensures Valid()
      ensures ok <==> slot.Loaded? && slot.table.id == tableType && tableType < SLOTS
      ensures tables == if ok then Added(old(tables), slot) else old(tables)
    {
      if slot.Uninitialized? { return false; }
      var id := slot.table.id;
      if id != tableType || id >= SLOTS { return false; }
      ok := true;
      hide Slot.Size, Slot.Sound;
      if tables[id].Loaded? { return; }
      AddedSum(tables, slot, SLOTS);
      tables := tables[id := slot];
      total := total + slot.Size();
      UpdateOffsets();
    }

    /** Any number of additions to a fresh driver: the slots are those of the whole sequence. */
    method AddTables(adds: seq<Slot>)
      requires Valid() && tables == seq(SLOTS, _ => Uninitialized)
      requires forall k :: 0 <= k < |adds| ==> adds[k].Sound() && adds[k].Loaded? && adds[k].table.id < SLOTS
      modifies this
      ensures Valid() && tables == AddAll(adds)
    {
      hide Slot.Sound;
      for k := 0 to |adds|
        invariant Valid() && tables == AddAll(adds[..k])
      {
        var ok := AddTable(adds[k].table.id, adds[k]);
        assert adds[..k + 1][..k] == adds[..k];
      }
      assert adds[..|adds|] == adds;
    }

    /** The tables of the setup trace, slot by slot; empty tables contribute nothing. */
    method DumpTables() returns (result: seq<Row>)
      requires Valid()
      ensures result == Dumped(tables, SLOTS) && |result| == total
      ensures forall i, r :: 0 <= i < SLOTS && tables[i].Loaded? && 0 <= r < |tables[i].table.data| ==> DumpedRow(result, i, r)
    {
      hide Slot.Sound, Slot.Size, DumpedSlot, Assembled, RowWithId;
      result := [];
      for i := 0 to SLOTS
        invariant result == Dumped(tables, i)
      {
        SlotLength(tables[i]);
        if tables[i].Size() != 0 {
          SizedLoaded(tables[i]);
          var part := DumpInto(tables[i]);
          result := result + part;
        }
      }
      DumpedLength(tables, SLOTS);
      forall i, r | 0 <= i < SLOTS && tables[i].Loaded? && 0 <= r < |tables[i].table.data|
        ensures DumpedRow(result, i, r)
      {
        DumpedAt(tables, i, r, SLOTS);
        SlotColumns(tables[i], r);
      }
    }

    /** Row r of the table in slot i stands at the offset of the slot plus r, with the number of the slot as its id. */
    ghost predicate DumpedRow(result: seq<Row>, i: nat, r: nat)
      requires |tables| == |offsets| == SLOTS && i < SLOTS && tables[i].Loaded? && r < |tables[i].table.data|
      reads this
    {
      offsets[i] + r < |result| && RowWithId(result[offsets[i] + r], tables[i].table.data[r], i)
    }

    /** The row stands at this position of the dump. */
    ghost predicate Dumps(index: nat, row: Row, id: nat)
      requires |tables| == SLOTS
      reads this
    {
      index < |Dumped(tables, SLOTS)| && RowWithId(Dumped(tables, SLOTS)[index], row, id)
    }

    /**
      The values for a key and where they stand. It panics on an unknown or empty slot, on a key
      that is empty or as wide as the table, and where the generation function of the table does;
      for the key of any row of the table, key and values stand at the returned position of the dump.
     */
    method LookupValuesAndGetAbsoluteIndex(key: Row, id: nat) returns (r: Option<(nat, Row)>)
      requires Valid()
      ensures r.Some? <==>
                && id < SLOTS && tables[id].Loaded? && 0 < |key| < tables[id].table.gen.width
                && Generates(tables[id].table.gen, key + Zeros(tables[id].table.gen.width - |key|))
      ensures KeyOfTable(key, id) ==> forall i ::
                0 <= i < |tables[id].table.data| && key <= tables[id].table.data[i] ==>
                  && r.Some? && r.value.0 == Before(tables, id) + i && key + r.value.1 == tables[id].table.data[i]
                  && Dumps(r.value.0, key + r.value.1, id)
      ensures KeyOfTable(key, id) && KeysGuarded(tables[id].table) ==> (r.Some? <==> HasKey(tables[id].table, key))
    {
      hide Created, Dumped, Assembled, RowWithId, Slot.Size, Before, Generates, HasKey, KeysGuarded;
      if id >= SLOTS || tables[id].Uninitialized? { return None; }
      var t := tables[id].table;
      var found := LookupValuesAndGetIndex(t, key);
      r := if found.Some? then Some((found.value.0 + offsets[id], found.value.1)) else None;
      if KeyOfTable(key, id) {
        forall i | 0 <= i < |t.data| && key <= t.data[i]
          ensures r.Some? && r.value.0 == Before(tables, id) + i && key + r.value.1 == t.data[i] && Dumps(r.value.0, key + r.value.1, id)
        {
          DumpedAt(tables, id, i, SLOTS);
          SlotColumns(tables[id], i);
        }
      }
    }

    /** A key with as many columns as the table's keys, which leaves values to look up. */
    ghost predicate KeyOfTable(key: Row, id: nat)
      requires |tables| == SLOTS
      reads this
    {
      id < SLOTS && tables[id].Loaded? && 0 < |key| == tables[id].table.gen.keyColumns < tables[id].table.gen.width
    }

    /**
      The position of a row; for any row of the table it is its position in the dump. Under guarded
      rows the position holds a row of the same key, and a table without an index function of its own
      returns only for its rows.
     */
    method EnforceValuesAndGetAbsoluteIndex(row: Row, id: nat) returns (r: Option<nat>)
      requires Valid()
      ensures r.Some? ==> id < SLOTS && tables[id].Loaded?
      ensures id < SLOTS && tables[id].Loaded? ==>
                && tables[id].table.gen.keyColumns <= tables[id].table.gen.width && (r.Some? <==> RowAccepted(tables[id].table, row))
      ensures id < SLOTS && tables[id].Loaded? ==> forall i ::
                0 <= i < |tables[id].table.data| && row == tables[id].table.data[i] ==>
                  r == Some(Before(tables, id) + i) && Dumps(Before(tables, id) + i, row, id)
      ensures r.Some? && RowsGuarded(tables[id].table) ==> KeyDumped(row, id, r.value)
      ensures r.Some? && RowsGuarded(tables[id].table) && tables[id].table.gen.quick.None? ==> Dumps(r.value, row, id)
    {
      hide Created, Dumped, Assembled, RowWithId, Slot.Size, Before, RowsGuarded, HasKey, RowAccepted;
      if id >= SLOTS || tables[id].Uninitialized? { return None; }
      var t := tables[id].table;
      var found := LookupRow(t, row);
      r := if found.Some? then Some(found.value + offsets[id]) else None;
      forall i | 0 <= i < |t.data|
        ensures Dumps(Before(tables, id) + i, t.data[i], id)
      {
        DumpedAt(tables, id, i, SLOTS);
        SlotColumns(tables[id], i);
      }
      if found.Some? && RowsGuarded(t) {
        assert |row| == t.gen.width by { AcceptedWidth(t, row); }
        assert Dumps(r.value, t.data[found.value], id);
      }
    }

    /** The row at this position of the dump has the key of the given row. */
    ghost predicate KeyDumped(row: Row, id: nat, index: nat)
      requires |tables| == SLOTS && id < SLOTS && tables[id].Loaded?
      reads this
    {
      var t := tables[id].table;
      t.gen.keyColumns <= |row| && exists i ::
        0 <= i < |t.data| && row[..t.gen.keyColumns] <= t.data[i] && index == Before(tables, id) + i && Dumps(index, t.data[i], id)
    }
  }

  lemma AcceptedWidth(t: Table, row: Row)
    requires t.gen.keyColumns <= t.gen.width && RowAccepted(t, row)
    ensures |row| == t.gen.width
  {
  }

  lemma EmptySize(s: Slot)
    ensures s.Uninitialized? ==> s.Size() == 0
  {
  }

  lemma SizedLoaded(s: Slot)
    requires s.Size() != 0
    ensures s.Loaded?
  {
  }

  lemma {:induction false} AllEmpty(tables: seq<Slot>, i: nat)
    requires i <= |tables| && forall k :: 0 <= k < |tables| ==> tables[k] == Uninitialized
    ensures Before(tables, i) == 0
  {
    if i > 0 { AllEmpty(tables, i - 1); }
  }

  /** The first table of a type wins. */
  ghost function Added(tables: seq<Slot>, slot: Slot): seq<Slot>
    requires slot.Loaded? && slot.table.id < |tables|
  {
    if tables[slot.table.id].Loaded? then tables else tables[slot.table.id := slot]
  }

  lemma {:induction false} AddedSum(tables: seq<Slot>, slot: Slot, n: nat)
    requires n <= |tables| && slot.Loaded? && slot.table.id < |tables| && tables[slot.table.id].Uninitialized?
    ensures Before(tables[slot.table.id := slot], n) == Before(tables, n) + if slot.table.id < n then slot.Size() else 0
  {
    hide Slot.Size;
    if n > 0 {
      AddedSum(tables, slot, n - 1);
      assert tables[n - 1].Uninitialized? ==> tables[n - 1].Size() == 0 by { EmptySize(tables[n - 1]); }
    }
  }

  // ------------------------------------------------------- order of additions

  /** The slots after a sequence of additions. */
  ghost function AddAll(adds: seq<Slot>): (r: seq<Slot>)
    requires forall k :: 0 <= k < |adds| ==> adds[k].Loaded? && adds[k].table.id < SLOTS
    ensures |r| == SLOTS
  {
    if adds == [] then seq(SLOTS, _ => Uninitialized)
    else Added(AddAll(adds[..|adds| - 1]), adds[|adds| - 1])
  }

  /** A slot holds a table that was added for it, and is empty exactly if none was. */
  lemma {:induction false} AddAllAt(adds: seq<Slot>, i: nat)
    requires i < SLOTS && forall k :: 0 <= k < |adds| ==> adds[k].Loaded? && adds[k].table.id < SLOTS
    ensures AddAll(adds)[i].Loaded? ==> AddAll(adds)[i] in adds && AddAll(adds)[i].table.id == i
    ensures AddAll(adds)[i].Uninitialized? ==> forall k :: 0 <= k < |adds| ==> adds[k].table.id != i
  {
    if adds != [] {
      var n := |adds| - 1;
      AddAllAt(adds[..n], i);
      assert adds == adds[..n] + [adds[n]];
    }
  }

  /** If every type always brings the same table, the order and the repetitions of the additions do not matter. */
  lemma OrderIrrelevant(adds: seq<Slot>, other: seq<Slot>)
    requires forall k :: 0 <= k < |adds| ==> adds[k].Loaded? && adds[k].table.id < SLOTS
    requires forall k :: 0 <= k < |other| ==> other[k].Loaded? && other[k].table.id < SLOTS
    requires forall s, t :: s in adds && t in adds && s.table.id == t.table.id ==> s == t
    requires forall s :: s in adds <==> s in other
    ensures AddAll(adds) == AddAll(other)
  {
    forall i | 0 <= i < SLOTS
      ensures AddAll(adds)[i] == AddAll(other)[i]
    {
      AddAllAt(adds, i);
      AddAllAt(other, i);
    }
  }
}
