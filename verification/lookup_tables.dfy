/**
  Lookup tables: rows enumerated from a list of keys, closed-form functions that say at which row a
  key is found, and the key generators.
 */
module LookupTables {
  import opened Options
  import opened Mersenne31Prime

  type Row = seq<int>

  /**
    Keys are padded to the table's width; only the key columns matter to the functions. The
    generation function returns an index and the values; a table may bring a separate index function
    for rows, and otherwise the generation function is asked again. `None` is a failed assertion.
   */
  datatype Generator = Generator(width: nat, keyColumns: nat, generate: Row -> Option<(nat, Row)>,
                                 quick: Option<Row -> Option<nat>>) {
    function RowIndex(row: Row): Option<nat> {
      if quick.Some? then quick.value(row) else if generate(row).Some? then Some(generate(row).value.0) else None
    }
  }

  /** The functions read only the key columns, and the values fill the remaining ones. */
  ghost predicate WellBehaved(g: Generator) {
    && g.keyColumns <= g.width
    && (forall k: Row, l: Row :: |k| == |l| == g.width && k[..g.keyColumns] == l[..g.keyColumns] ==>
          g.generate(k) == g.generate(l) && g.RowIndex(k) == g.RowIndex(l))
    && (forall k: Row :: |k| == g.width && g.generate(k).Some? ==> |g.generate(k).value.1| == g.width)
  }

  /** The key passes the assertions of the generation function. */
  predicate Generates(g: Generator, key: Row) {
    |key| == g.width && g.generate(key).Some? && |g.generate(key).value.1| == g.width
  }

  function RowOf(g: Generator, key: Row): Row
    requires g.keyColumns <= g.width && Generates(g, key)
  {
    key[..g.keyColumns] + g.generate(key).value.1[..g.width - g.keyColumns]
  }

  ghost predicate KeyShaped(g: Generator, keys: seq<Row>) { forall i :: 0 <= i < |keys| ==> |keys[i]| == g.width }

  ghost predicate AllGenerate(g: Generator, keys: seq<Row>) { forall i :: 0 <= i < |keys| ==> Generates(g, keys[i]) }

  /** Logical keys are pairwise different: what the cache construction asserts. */
  ghost predicate KeysDiffer(g: Generator, keys: seq<Row>)
    requires g.keyColumns <= g.width && KeyShaped(g, keys)
  {
    forall i, j :: 0 <= i < j < |keys| ==> keys[i][..g.keyColumns] != keys[j][..g.keyColumns]
  }

  /** Both closed-form indices are the position in the enumeration. */
  ghost predicate Indexed(g: Generator, keys: seq<Row>) {
    forall i :: 0 <= i < |keys| ==> Generates(g, keys[i]) && g.generate(keys[i]).value.0 == i && g.RowIndex(keys[i]) == Some(i)
  }

  datatype Table = Table(id: nat, gen: Generator, data: seq<Row>) {
    /** The size is that of the hash map from rows to positions. */
    function Size(): nat { |set r | r in data| }
  }

  ghost function RowSet(data: seq<Row>): set<Row> { set r | r in data }

  lemma {:induction false} DistinctSize(data: seq<Row>)
    requires forall i, j :: 0 <= i < j < |data| ==> data[i] != data[j]
    ensures |RowSet(data)| == |data|
  {
    if data != [] {
      var n := |data| - 1;
      DistinctSize(data[..n]);
      assert RowSet(data) == RowSet(data[..n]) + {data[n]} by { assert data == data[..n] + [data[n]]; }
      assert data[n] !in RowSet(data[..n]);
    }
  }

  /** One row per key, in order. */
  ghost predicate Enumerates(g: Generator, keys: seq<Row>, data: seq<Row>)
    requires g.keyColumns <= g.width
  {
    |data| == |keys| && AllGenerate(g, keys) && forall i :: 0 <= i < |keys| ==> data[i] == RowOf(g, keys[i])
  }

  /** Panics exactly when a key fails an assertion of the generation function. */
  method EnumerateRows(g: Generator, keys: seq<Row>) returns (ok: bool, content: seq<Row>)
    requires WellBehaved(g) && KeyShaped(g, keys)
    ensures ok <==> AllGenerate(g, keys)
    ensures ok ==> Enumerates(g, keys, content)
  {
    content := [];
    for i := 0 to |keys|
      invariant |content| == i && forall j :: 0 <= j < i ==> Generates(g, keys[j]) && content[j] == RowOf(g, keys[j])
    {
      if g.generate(keys[i]).None? { return false, content; }
      content := content + [RowOf(g, keys[i])];
    }
    ok := true;
  }

  /** The construction of the cache: one entry per logical key, or a failed assertion. */
  method LogicalKeysDiffer(rows: seq<Row>, n: nat) returns (ok: bool)
    requires forall i :: 0 <= i < |rows| ==> n <= |rows[i]|
    ensures ok <==> forall i, j :: 0 <= i < j < |rows| ==> rows[i][..n] != rows[j][..n]
  {
    var seen: set<Row> := {};
    for i := 0 to |rows|
      invariant forall j :: 0 <= j < i ==> rows[j][..n] in seen
      invariant forall r :: r in seen ==> exists j :: 0 <= j < i && rows[j][..n] == r
      invariant forall j, k :: 0 <= j < k < i ==> rows[j][..n] != rows[k][..n]
    {
      if rows[i][..n] in seen { return false; }
      seen := seen + {rows[i][..n]};
    }
    ok := true;
  }

  /** Enumerates the rows; panics exactly when a key fails an assertion or two logical keys coincide. */
  method CreateTable(id: nat, g: Generator, keys: seq<Row>) returns (ok: bool, t: Table)
    requires WellBehaved(g) && KeyShaped(g, keys)
    ensures ok <==> AllGenerate(g, keys) && KeysDiffer(g, keys)
    ensures ok ==> t.id == id && t.gen == g && Enumerates(g, keys, t.data)
  {
    var content;
    ok, content := EnumerateRows(g, keys);
    t := Table(id, g, content);
    hide Generates, AllGenerate;
    if ok {
      CutKeys(g, keys, content);
      ok := LogicalKeysDiffer(content, g.keyColumns);
    }
  }

  lemma CutKeys(g: Generator, keys: seq<Row>, data: seq<Row>)
    requires g.keyColumns <= g.width && Enumerates(g, keys, data)
    ensures |data| == |keys|
    ensures forall i :: 0 <= i < |keys| ==> |data[i]| == |keys[i]| == g.width && data[i][..g.keyColumns] == keys[i][..g.keyColumns]
  {
  }

  /** The table holds one row per key, in order, and its indices are positions. */
  ghost predicate CreatedFrom(t: Table, keys: seq<Row>) {
    && WellBehaved(t.gen) && KeyShaped(t.gen, keys) && KeysDiffer(t.gen, keys) && Indexed(t.gen, keys)
    && Enumerates(t.gen, keys, t.data)
  }

  ghost predicate Created(t: Table) { exists keys :: CreatedFrom(t, keys) }

  /** A row of a created table: its width, both indices, and the values behind its key. */
  lemma RowFacts(t: Table, i: nat)
    requires Created(t) && i < |t.data|
    ensures t.gen.keyColumns <= t.gen.width && Generates(t.gen, t.data[i])
    ensures t.gen.generate(t.data[i]).value.0 == i && t.gen.RowIndex(t.data[i]) == Some(i) && ValuesMatch(t.gen, t.data[i])
  {
    var keys :| CreatedFrom(t, keys);
    assert t.data[i] == RowOf(t.gen, keys[i]);
    assert t.data[i][..t.gen.keyColumns] == keys[i][..t.gen.keyColumns];
  }

  /** The values of a row are those behind its key. */
  predicate ValuesMatch(g: Generator, row: Row)
    requires g.keyColumns <= g.width && Generates(g, row)
  {
    row[g.keyColumns..] == g.generate(row).value.1[..g.width - g.keyColumns]
  }

  /** So the rows differ, and the hash map over them has one entry per row. */
  lemma TableSize(t: Table)
    requires Created(t)
    ensures t.Size() == |t.data| && forall i, j :: 0 <= i < j < |t.data| ==> t.data[i] != t.data[j]
  {
    forall i, j | 0 <= i < j < |t.data|
      ensures t.data[i] != t.data[j]
    {
      hide Created;
      RowFacts(t, i);
      RowFacts(t, j);
    }
    DistinctSize(t.data);
  }

  /** Some row begins with the key. */
  ghost predicate HasKey(t: Table, key: Row) { exists i :: 0 <= i < |t.data| && key <= t.data[i] }

  /** The assertions of the generation function let only keys of the table through. */
  ghost predicate KeysGuarded(t: Table) {
    && t.gen.keyColumns <= t.gen.width
    && forall k: Row :: Generates(t.gen, k) ==> HasKey(t, k[..t.gen.keyColumns])
  }

  /** The assertions of the index function, and the bound on the index, let only keys of the table through. */
  ghost predicate RowsGuarded(t: Table) {
    && t.gen.keyColumns <= t.gen.width
    && forall k: Row :: |k| == t.gen.width && t.gen.RowIndex(k).Some? && t.gen.RowIndex(k).value < |t.data| ==>
         HasKey(t, k[..t.gen.keyColumns])
  }

  /** Rows with one key have one position and one set of values. */
  lemma SameKey(t: Table, k: Row, key: Row, i: nat)
    requires Created(t) && |k| == t.gen.width && |key| == t.gen.keyColumns && key <= k && i < |t.data| && key <= t.data[i]
    ensures Generates(t.gen, k) && t.gen.generate(k).value.0 == i && t.gen.RowIndex(k) == Some(i)
    ensures t.data[i] == key + t.gen.generate(k).value.1[..t.gen.width - |key|]
  {
    RowFacts(t, i);
    assert WellBehaved(t.gen);
    hide Created;
    assert k[..|key|] == key == t.data[i][..|key|];
    assert t.data[i] == key + t.data[i][|key|..];
  }

  /**
    Looking a key up through the generation function, the key being padded with zeros. It panics on
    an empty or a full-width key and where the generation function does; the key of a row finds the
    position of the row and its values, and under guarded keys nothing else is found.
   */
  method LookupValuesAndGetIndex(t: Table, key: Row) returns (r: Option<(nat, Row)>)
    requires Created(t)
    ensures r.Some? <==> 0 < |key| < t.gen.width && Generates(t.gen, key + Zeros(t.gen.width - |key|))
    ensures 0 < |key| == t.gen.keyColumns < t.gen.width ==> forall i ::
              0 <= i < |t.data| && key <= t.data[i] ==> r.Some? && r.value.0 == i && key + r.value.1 == t.data[i]
    ensures r.Some? && |key| == t.gen.keyColumns ==> (HasKey(t, key) <==> r.value.0 < |t.data| && key <= t.data[r.value.0])
    ensures KeysGuarded(t) && 0 < |key| == t.gen.keyColumns < t.gen.width ==> (r.Some? <==> HasKey(t, key))
  {
    var g := t.gen;
    if !(0 < |key| < g.width) { return None; }
    var input := key + Zeros(g.width - |key|);
    assert WellBehaved(g);
    hide Created, WellBehaved;
    forall i | 0 <= i < |t.data| && |key| == g.keyColumns && key <= t.data[i]
      ensures Generates(g, input) && g.generate(input).value.0 == i
      ensures t.data[i] == key + g.generate(input).value.1[..g.width - |key|]
    {
      SameKey(t, input, key, i);
    }
    assert |key| == g.keyColumns ==> input[..g.keyColumns] == key;
    if g.generate(input).None? { return None; }
    assert Generates(g, input) by { WidthOfValues(g, input); }
    r := Some((g.generate(input).value.0, g.generate(input).value.1[..g.width - |key|]));
  }

  lemma WidthOfValues(g: Generator, k: Row)
    requires WellBehaved(g) && |k| == g.width && g.generate(k).Some?
    ensures Generates(g, k)
  {
  }

  /** What the lookup of a row asserts: the width, the index, and without an index function of its own the values. */
  predicate RowAccepted(t: Table, row: Row)
    requires t.gen.keyColumns <= t.gen.width
  {
    && |row| == t.gen.width && t.gen.RowIndex(row).Some? && t.gen.RowIndex(row).value < t.Size()
    && (t.gen.quick.None? ==> Generates(t.gen, row) && ValuesMatch(t.gen, row))
  }

  /**
    Looking a row up. A row of the table finds its position. Under guarded rows the lookup returns
    exactly for the keys of the table, with the position of the key, and a table without an index
    function of its own returns exactly for its rows.
   */
  method LookupRow(t: Table, row: Row) returns (r: Option<nat>)
    requires Created(t)
    ensures t.gen.keyColumns <= t.gen.width && (r.Some? <==> RowAccepted(t, row))
    ensures forall i :: 0 <= i < |t.data| && row == t.data[i] ==> r == Some(i)
    ensures RowsGuarded(t) && t.gen.quick.Some? ==> (r.Some? <==> |row| == t.gen.width && HasKey(t, row[..t.gen.keyColumns]))
    ensures RowsGuarded(t) && t.gen.quick.None? ==> (r.Some? <==> row in t.data)
    ensures RowsGuarded(t) && r.Some? ==> r.value < |t.data| && row[..t.gen.keyColumns] <= t.data[r.value]
  {
    var g := t.gen;
    assert WellBehaved(g);
    TableSize(t);
    if |row| != g.width { OtherWidth(t, row); return None; }
    hide Created, WellBehaved, Table.Size;
    var key := row[..g.keyColumns];
    assert row == key + row[g.keyColumns..];
    forall i | 0 <= i < |t.data| && key <= t.data[i]
      ensures g.RowIndex(row) == Some(i) && Generates(g, row) && (row == t.data[i] <==> ValuesMatch(g, row))
    {
      SameKey(t, row, key, i);
    }
    if g.RowIndex(row).None? || g.RowIndex(row).value >= t.Size() { return None; }
    if g.quick.None? {
      WidthOfValues(g, row);
      if !ValuesMatch(g, row) { return None; }
    }
    r := g.RowIndex(row);
  }

  lemma OtherWidth(t: Table, row: Row)
    requires Created(t) && |row| != t.gen.width
    ensures row !in t.data
  {
    if row in t.data {
      var i :| 0 <= i < |t.data| && t.data[i] == row;
      RowFacts(t, i);
    }
  }

  // ------------------------------------------------------------- key generators

  function Zeros(n: nat): Row { seq(n, _ => 0) }

  /** Consecutive numbers as field elements, padded: serial below 2^20 entries, by position above. */
  method ContinuousKeysSerial(maxInclusive: nat, pad: nat) returns (keys: seq<Row>)
    ensures keys == ContinuousKeys(maxInclusive, pad)
  {
    keys := [];
    for a := 0 to maxInclusive + 1
      invariant keys == seq(a, i => [i % P] + Zeros(pad))
    {
      keys := keys + [[a % P] + Zeros(pad)];
    }
  }

  function ContinuousKeys(maxInclusive: nat, pad: nat): (r: seq<Row>)
    ensures |r| == maxInclusive + 1
  {
    seq(maxInclusive + 1, i => [i % P] + Zeros(pad))
  }

  /** The numbers stay apart exactly while they are below the characteristic; then the key is its own position. */
  lemma ContinuousIndexed(maxInclusive: nat, pad: nat)
    ensures (forall i :: 0 <= i <= maxInclusive ==> ContinuousKeys(maxInclusive, pad)[i][0] == i) <==> maxInclusive < P
  {
    var keys := ContinuousKeys(maxInclusive, pad);
    if maxInclusive >= P {
      assert keys[P][0] == 0;
    }
  }

  // ------------------------------------------------------------ table families

  /** Tables indexed by position have different keys. */
  lemma IndexedDiffer(g: Generator, keys: seq<Row>)
    requires WellBehaved(g) && KeyShaped(g, keys) && Indexed(g, keys)
    ensures AllGenerate(g, keys) && KeysDiffer(g, keys)
  {
    forall i, j | 0 <= i < j < |keys|
      ensures keys[i][..g.keyColumns] != keys[j][..g.keyColumns]
    {
      assert g.RowIndex(keys[i]) != g.RowIndex(keys[j]);
    }
  }

  function FirstKey(k: Row): Option<nat> { if |k| >= 1 && k[0] >= 0 then Some(k[0]) else None }

  predicate Below(bound: Option<nat>, a: nat) { bound.Some? ==> a < bound.value }

  /** One key and two results: the tables over a continuous range. Most generation functions bound the key. */
  function ContinuousGenerator(bound: Option<nat>, low: int -> int, high: int -> int): Generator {
    Generator(3, 1,
              (k: Row) => if FirstKey(k).Some? && Below(bound, k[0]) then Some((k[0], [low(k[0]), high(k[0]), 0])) else None,
              Some(FirstKey))
  }

  /** What the generation function takes, and where it says the key is. */
  ghost predicate TakesBelow(g: Generator, bound: Option<nat>) {
    && g.width == 3 && g.keyColumns == 1
    && forall k: Row :: |k| == 3 ==>
         && (Generates(g, k) <==> k[0] >= 0 && Below(bound, k[0]))
         && (Generates(g, k) ==> g.generate(k).value.0 == k[0])
         && g.RowIndex(k) == FirstKey(k)
  }

  lemma ContinuousTakes(bound: Option<nat>, low: int -> int, high: int -> int)
    ensures TakesBelow(ContinuousGenerator(bound, low, high), bound)
  {
  }

  lemma ContinuousWellBehaved(bound: Option<nat>, low: int -> int, high: int -> int)
    ensures WellBehaved(ContinuousGenerator(bound, low, high))
  {
    var g := ContinuousGenerator(bound, low, high);
    forall k: Row, l: Row | |k| == |l| == 3 && k[..1] == l[..1]
      ensures g.generate(k) == g.generate(l) && g.RowIndex(k) == g.RowIndex(l)
    {
      FirstColumn(k, l);
    }
    assert g.width == 3 && g.keyColumns == 1 && forall k: Row :: g.generate(k).Some? ==> |g.generate(k).value.1| == 3;
  }

  lemma FirstColumn(k: Row, l: Row)
    requires |k| > 0 && |l| > 0 && k[..1] == l[..1]
    ensures k[0] == l[0]
  {
    assert k[0] == k[..1][0] && l[0] == l[..1][0];
  }

  lemma ContinuousShape(maxInclusive: nat, i: nat)
    requires i <= maxInclusive < P
    ensures var k := ContinuousKeys(maxInclusive, 2)[i]; |k| == 3 && k[0] == i
  {
  }

  /** For every width that fits the field and every pair of value functions. */
  lemma ContinuousTable(maxInclusive: nat, bound: Option<nat>, low: int -> int, high: int -> int)
    requires maxInclusive < P && Below(bound, maxInclusive)
    ensures WellBehaved(ContinuousGenerator(bound, low, high))
    ensures KeyShaped(ContinuousGenerator(bound, low, high), ContinuousKeys(maxInclusive, 2))
    ensures AllGenerate(ContinuousGenerator(bound, low, high), ContinuousKeys(maxInclusive, 2))
    ensures KeysDiffer(ContinuousGenerator(bound, low, high), ContinuousKeys(maxInclusive, 2))
    ensures Indexed(ContinuousGenerator(bound, low, high), ContinuousKeys(maxInclusive, 2))
  {
    var g, keys := ContinuousGenerator(bound, low, high), ContinuousKeys(maxInclusive, 2);
    ContinuousTakes(bound, low, high);
    ContinuousWellBehaved(bound, low, high);
    hide ContinuousKeys, ContinuousGenerator, WellBehaved, Generator.RowIndex, Generates;
    forall i | 0 <= i < |keys|
      ensures |keys[i]| == 3 && Generates(g, keys[i]) && g.generate(keys[i]).value.0 == i && g.RowIndex(keys[i]) == Some(i)
    {
      ContinuousShape(maxInclusive, i);
    }
    IndexedDiffer(g, keys);
  }
}
