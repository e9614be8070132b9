/**
  What the created tables hold: a lookup of a key and its values succeeds in the enumerated rows
  exactly when the circuit's view of the table says so. The key is compared as a field element.
 */
module TableContents {
  import opened Options
  import opened Mersenne31Prime
  import opened LookupTables
  import opened ShiftTables
  import ShiftRows
  import ConditionalRows
  import MulAddChain

  /** Rows `k, entry(k)` for all keys below `size`, in order. */
  ghost predicate Lists(size: nat, entry: int -> (int, int), data: seq<Row>) {
    |data| == size && forall k :: 0 <= k < size ==> data[k] == [k, entry(k).0, entry(k).1]
  }

  /** Rows are looked up exactly by the keys below the size; keys also, exactly if the generation function has a bound. */
  method CreateContinuous(id: nat, size: nat, bounded: bool, entry: int -> (int, int)) returns (ok: bool, t: Table)
    requires 0 < size <= P
    ensures ok && t.id == id && Created(t) && Lists(size, entry, t.data) && Takes(t, size, bounded)
  {
    hide WellBehaved, Indexed, KeysDiffer, KeyShaped, AllGenerate, Enumerates, ContinuousGenerator, ContinuousKeys, Lists, TakesBelow,
         KeysGuarded, RowsGuarded;
    var low, high := (k: int) => entry(k).0, (k: int) => entry(k).1;
    var bound := if bounded then Some(size) else None;
    ContinuousTable(size - 1, bound, low, high);
    ContinuousTakes(bound, low, high);
    var keys := ContinuousKeysSerial(size - 1, 2);
    ok, t := CreateTable(id, ContinuousGenerator(bound, low, high), keys);
    assert CreatedFrom(t, keys);
    RowsListed(size, bound, entry, low, high, t.data);
    Guards(t, size, bounded, entry);
  }

  /** The functions of the table and what they let through. */
  ghost predicate Takes(t: Table, size: nat, bounded: bool) {
    TakesBelow(t.gen, if bounded then Some(size) else None) && RowsGuarded(t) && (KeysGuarded(t) <==> bounded)
  }

  lemma ListsKey(size: nat, entry: int -> (int, int), t: Table, k: Row)
    requires Lists(size, entry, t.data) && |k| == 3
    ensures HasKey(t, k[..1]) <==> 0 <= k[0] < size
  {
    assert k[..1] == [k[0]];
    if 0 <= k[0] < size { assert k[..1] <= t.data[k[0]]; }
    if i :| 0 <= i < |t.data| && k[..1] <= t.data[i] { assert t.data[i][0] == i; }
  }

  lemma Guards(t: Table, size: nat, bounded: bool, entry: int -> (int, int))
    requires Lists(size, entry, t.data) && TakesBelow(t.gen, if bounded then Some(size) else None)
    ensures RowsGuarded(t) && (KeysGuarded(t) <==> bounded)
  {
    assert |t.data| == size;
    forall k: Row | |k| == 3
      ensures HasKey(t, k[..1]) <==> 0 <= k[0] < size
    {
      ListsKey(size, entry, t, k);
    }
    hide Lists, HasKey, Generator.RowIndex;
    if !bounded { assert Generates(t.gen, [size, 0, 0]) && !HasKey(t, [size, 0, 0][..1]); }
  }

  lemma RowsListed(size: nat, bound: Option<nat>, entry: int -> (int, int), low: int -> int, high: int -> int, data: seq<Row>)
    requires 0 < size <= P && low == ((k: int) => entry(k).0) && high == ((k: int) => entry(k).1)
    requires ContinuousGenerator(bound, low, high).keyColumns <= ContinuousGenerator(bound, low, high).width
    requires Enumerates(ContinuousGenerator(bound, low, high), ContinuousKeys(size - 1, 2), data)
    ensures Lists(size, entry, data)
  {
    var g, keys := ContinuousGenerator(bound, low, high), ContinuousKeys(size - 1, 2);
    forall k | 0 <= k < size
      ensures data[k] == [k, entry(k).0, entry(k).1]
    {
      assert data[k] == RowOf(g, keys[k]);
      RowAt(size, bound, low, high, k);
    }
  }

  lemma RowAt(size: nat, bound: Option<nat>, low: int -> int, high: int -> int, k: int)
    requires 0 <= k < size <= P && Generates(ContinuousGenerator(bound, low, high), ContinuousKeys(size - 1, 2)[k])
    ensures RowOf(ContinuousGenerator(bound, low, high), ContinuousKeys(size - 1, 2)[k]) == [k, low(k), high(k)]
  {
    var key := ContinuousKeys(size - 1, 2)[k];
    assert key == [k] + Zeros(2) && key[0] == k && key[..1] == [k];
    assert ContinuousGenerator(bound, low, high).generate(key).value.1 == [low(k), high(k), 0];
  }

  /** Key `k` of the table is the looked-up one in the field, with these values. */
  ghost predicate Hit(size: nat, entry: int -> (int, int), key: int, k: int, v0: int, v1: int) {
    0 <= k < size && (key - k) % P == 0 && entry(k) == (v0, v1)
  }

  /** A reduced key finds its row, and nothing else is there. */
  lemma LookupExact(size: nat, entry: int -> (int, int), data: seq<Row>, key: int, v0: int, v1: int)
    requires size <= P && Lists(size, entry, data)
    ensures [key % P, v0, v1] in data <==> exists k :: Hit(size, entry, key, k, v0, v1)
  {
    if [key % P, v0, v1] in data {
      var i :| 0 <= i < |data| && data[i] == [key % P, v0, v1];
      assert data[i] == [i, entry(i).0, entry(i).1] && data[i][0] == i && data[i][1] == v0 && data[i][2] == v1;
      assert Hit(size, entry, key, i, v0, v1);
    }
    if l :| Hit(size, entry, key, l, v0, v1) {
      SameResidue(key, l);
      assert data[l] == [l, v0, v1];
    }
  }

  lemma SameResidue(key: int, l: int)
    requires 0 <= l < P && (key - l) % P == 0
    ensures key % P == l
  {
  }

  function ShiftRow(k: int): (int, int) { if 0 <= k then ShiftEntry(k) else (0, 0) }
  function FillerRow(k: int): (int, int) { if 0 <= k < 0x80 then SraFiller(k) else (0, 0) }
  function LowerFiveRow(k: int): (int, int) { (LowerFiveBits(k), 0) }
  function ConditionRow(k: int): (int, int) { if 0 <= k < 0x80 then ConditionalRows.ConditionEntry(k) else (0, 0) }

  lemma ShiftLookup(data: seq<Row>, key: int, v0: int, v1: int)
    requires Lists(0x40_0000, ShiftRow, data)
    ensures ShiftRows.InShiftTable(key, v0, v1) <==> [key % P, v0, v1] in data
  {
    hide ShiftEntry, Lists;
    LookupExact(0x40_0000, ShiftRow, data, key, v0, v1);
    if k :| 0 <= k < 0x40_0000 && ShiftRows.Same(key, k) && ShiftEntry(k) == (v0, v1) {
      assert Hit(0x40_0000, ShiftRow, key, k, v0, v1);
    }
    if k :| Hit(0x40_0000, ShiftRow, key, k, v0, v1) {
      assert ShiftRows.Same(key, k) && ShiftEntry(k) == (v0, v1);
    }
  }

  lemma FillerLookup(data: seq<Row>, key: int, v0: int, v1: int)
    requires Lists(0x80, FillerRow, data)
    ensures ShiftRows.InFillerTable(key, v0, v1) <==> [key % P, v0, v1] in data
  {
    hide SraFiller, Lists;
    LookupExact(0x80, FillerRow, data, key, v0, v1);
    if k :| 0 <= k < 0x80 && ShiftRows.Same(key, k) && SraFiller(k) == (v0, v1) {
      assert Hit(0x80, FillerRow, key, k, v0, v1);
    }
    if k :| Hit(0x80, FillerRow, key, k, v0, v1) {
      assert ShiftRows.Same(key, k) && SraFiller(k) == (v0, v1);
    }
  }

  lemma LowerFiveLookup(data: seq<Row>, key: int, v: int)
    requires Lists(HALFWORD, LowerFiveRow, data)
    ensures ShiftRows.InLowerFive(key, v) <==> [key % P, v, 0] in data
  {
    hide LowerFiveBits, Lists;
    LookupExact(HALFWORD, LowerFiveRow, data, key, v, 0);
    if k :| 0 <= k < HALFWORD && ShiftRows.Same(key, k) && LowerFiveBits(k) == v {
      assert Hit(HALFWORD, LowerFiveRow, key, k, v, 0);
    }
    if k :| Hit(HALFWORD, LowerFiveRow, key, k, v, 0) {
      assert ShiftRows.Same(key, k) && LowerFiveBits(k) == v;
    }
  }

  lemma ConditionLookup(data: seq<Row>, w: ConditionalRows.Row)
    requires Lists(0x80, ConditionRow, data)
    ensures ConditionalRows.Resolved(w) <==> [ConditionalRows.Key(w) % P, w.branch, w.store] in data
  {
    hide ConditionalRows.ConditionEntry, ConditionalRows.Key, Lists;
    var key := ConditionalRows.Key(w);
    LookupExact(0x80, ConditionRow, data, key, w.branch, w.store);
    if k :| 0 <= k < 0x80 && MulAddChain.Zero(key - k) && ConditionalRows.ConditionEntry(k) == (w.branch, w.store) {
      assert Hit(0x80, ConditionRow, key, k, w.branch, w.store);
    }
    if k :| Hit(0x80, ConditionRow, key, k, w.branch, w.store) {
      assert MulAddChain.Zero(key - k) && ConditionalRows.ConditionEntry(k) == (w.branch, w.store);
    }
  }

  /** The table of half-word shifts, whose generation function takes any key. */
  method CreateShiftTable(id: nat) returns (ok: bool, t: Table)
    ensures ok && t.id == id && Created(t) && |t.data| == 0x40_0000 && Takes(t, 0x40_0000, false)
    ensures forall key, v0, v1 :: ShiftRows.InShiftTable(key, v0, v1) <==> [key % P, v0, v1] in t.data
  {
    hide Created, Takes;
    ok, t := CreateContinuous(id, 0x40_0000, false, ShiftRow);
    forall key, v0, v1
      ensures ShiftRows.InShiftTable(key, v0, v1) <==> [key % P, v0, v1] in t.data
    {
      ShiftLookup(t.data, key, v0, v1);
    }
  }

  /** The table of sign fillers. */
  method CreateFillerTable(id: nat) returns (ok: bool, t: Table)
    ensures ok && t.id == id && Created(t) && |t.data| == 0x80 && Takes(t, 0x80, true)
    ensures forall key, v0, v1 :: ShiftRows.InFillerTable(key, v0, v1) <==> [key % P, v0, v1] in t.data
  {
    hide Created, Takes;
    ok, t := CreateContinuous(id, 0x80, true, FillerRow);
    forall key, v0, v1
      ensures ShiftRows.InFillerTable(key, v0, v1) <==> [key % P, v0, v1] in t.data
    {
      FillerLookup(t.data, key, v0, v1);
    }
  }

  /** The table that cuts a shift amount to five bits; its third column is zero. */
  method CreateLowerFiveTable(id: nat) returns (ok: bool, t: Table)
    ensures ok && t.id == id && Created(t) && |t.data| == HALFWORD && Takes(t, HALFWORD, true)
    ensures forall key, v :: ShiftRows.InLowerFive(key, v) <==> [key % P, v, 0] in t.data
  {
    hide Created, Takes;
    ok, t := CreateContinuous(id, HALFWORD, true, LowerFiveRow);
    forall key, v
      ensures ShiftRows.InLowerFive(key, v) <==> [key % P, v, 0] in t.data
    {
      LowerFiveLookup(t.data, key, v);
    }
  }

  /** The table that resolves conditions. */
  method CreateConditionTable(id: nat) returns (ok: bool, t: Table)
    ensures ok && t.id == id && Created(t) && |t.data| == 0x80 && Takes(t, 0x80, true)
    ensures forall w: ConditionalRows.Row :: ConditionalRows.Resolved(w) <==> [ConditionalRows.Key(w) % P, w.branch, w.store] in t.data
  {
    hide Created, Takes;
    ok, t := CreateContinuous(id, 0x80, true, ConditionRow);
    forall w: ConditionalRows.Row
      ensures ConditionalRows.Resolved(w) <==> [ConditionalRows.Key(w) % P, w.branch, w.store] in t.data
    {
      ConditionLookup(t.data, w);
    }
  }
}
