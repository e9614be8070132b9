/**
  Tables keyed by several small numbers. Nested loops over bit widths enumerate the tuples, the
  index shifts and ors the numbers together, and the index is the position, for any list of widths:
  the tables of binary operations, of a half-word and a bit, the three-way decoders, and the range
  checks, whose unused key columns have width zero.
 */
module TupleTables {
  import opened Options
  import opened ModArith
  import opened LookupTables

  type Widths = seq<nat>

  function Total(w: Widths): nat { if w == [] then 0 else Total(w[..|w| - 1]) + w[|w| - 1] }

  predicate Fits(w: Widths, key: Row) { |key| == |w| && forall j :: 0 <= j < |w| ==> 0 <= key[j] < Exp2(w[j]) }

  /** The place of a tuple in range, as a number in mixed radix. */
  function TupleIndex(w: Widths, key: Row): nat
    requires Fits(w, key)
  {
    if w == [] then 0 else var n := |w| - 1; TupleIndex(w[..n], key[..n]) * Exp2(w[n]) + key[n]
  }

  lemma {:induction false} IndexBound(w: Widths, key: Row)
    requires Fits(w, key)
    ensures TupleIndex(w, key) < Exp2(Total(w))
  {
    if w != [] {
      var n := |w| - 1;
      IndexBound(w[..n], key[..n]);
      Exp2Adds(Total(w[..n]), w[n]);
      Shifted(TupleIndex(w[..n], key[..n]), key[n], Exp2(Total(w[..n])), Exp2(w[n]));
    }
  }

  lemma Shifted(a: nat, b: nat, e: nat, f: nat)
    requires a < e && b < f
    ensures a * f + b < e * f
  {
    Scale(a + 1, e, f);
    assert (a + 1) * f == a * f + f;
  }

  /** The tuple at a position: its numbers cut out of the position, the last one first. */
  function TupleAt(w: Widths, i: nat): Row {
    if w == [] then [] else
      var n := |w| - 1;
      QuotientBound(i, Exp2(w[n]));
      TupleAt(w[..n], i / Exp2(w[n])) + [i % Exp2(w[n])]
  }

  lemma CutBound(i: nat, e: nat, f: nat)
    requires f > 0 && i < e * f
    ensures 0 <= i / f < e && (i / f) * f + i % f == i
  {
    var q := i / f;
    assert q * f + i % f == i;
    Scale(e, q, f);
  }

  /** Position, tuple, position. */
  lemma {:induction false} PositionIndexed(w: Widths, i: nat)
    requires i < Exp2(Total(w))
    ensures Fits(w, TupleAt(w, i)) && TupleIndex(w, TupleAt(w, i)) == i
  {
    if w != [] {
      var n := |w| - 1;
      var f, t := Exp2(w[n]), TupleAt(w, i);
      Exp2Adds(Total(w[..n]), w[n]);
      CutBound(i, Exp2(Total(w[..n])), f);
      PositionIndexed(w[..n], i / f);
      assert t[..n] == TupleAt(w[..n], i / f);
      FitsSnoc(w, t);
    }
  }

  lemma FitsSnoc(w: Widths, key: Row)
    requires w != [] && |key| == |w|
    ensures Fits(w, key) <==> Fits(w[..|w| - 1], key[..|w| - 1]) && 0 <= key[|w| - 1] < Exp2(w[|w| - 1])
  {
  }

  /** Tuple, position, tuple: every tuple in range is enumerated. */
  lemma {:induction false} TuplePositioned(w: Widths, key: Row)
    requires Fits(w, key)
    ensures TupleAt(w, TupleIndex(w, key)) == key
  {
    if w != [] {
      var n := |w| - 1;
      TuplePositioned(w[..n], key[..n]);
      DivModUnique(TupleIndex(w, key), TupleIndex(w[..n], key[..n]), key[n], Exp2(w[n]));
      assert key == key[..n] + [key[n]];
    }
  }

  /** The tuples by position, as the parallel generators map them. */
  function Tuples(w: Widths): (r: seq<Row>)
    ensures |r| == Exp2(Total(w))
  {
    seq(Exp2(Total(w)), i requires 0 <= i => TupleAt(w, i))
  }

  /** The nested loops, the innermost over the last width, produce the same list. */
  method TuplesSerial(w: Widths) returns (keys: seq<Row>)
    ensures keys == Tuples(w)
    decreases |w|
  {
    if w == [] {
      assert Exp2(0) == 1 && TupleAt(w, 0) == [];
      return [[]];
    }
    var n := |w| - 1;
    var outer := TuplesSerial(w[..n]);
    var f := Exp2(w[n]);
    keys := [];
    for a := 0 to |outer|
      invariant |keys| == a * f && forall i :: 0 <= i < a * f ==> keys[i] == TupleAt(w, i)
    {
      for b := 0 to f
        invariant |keys| == a * f + b && forall i :: 0 <= i < a * f + b ==> keys[i] == TupleAt(w, i)
      {
        InnerStep(w, a, b);
        keys := keys + [outer[a] + [b]];
      }
      assert (a + 1) * f == a * f + f;
    }
    Exp2Adds(Total(w[..n]), w[n]);
  }

  lemma InnerStep(w: Widths, a: nat, b: nat)
    requires w != [] && b < Exp2(w[|w| - 1])
    ensures TupleAt(w, a * Exp2(w[|w| - 1]) + b) == TupleAt(w[..|w| - 1], a) + [b]
  {
    DivModUnique(a * Exp2(w[|w| - 1]) + b, a, b, Exp2(w[|w| - 1]));
  }

  // ------------------------------------------------------------- shift and or

  /** The bitwise or of two numbers. */
  function Or(a: nat, b: nat): nat
    decreases a + b
  {
    if a == 0 && b == 0 then 0 else 2 * Or(a / 2, b / 2) + (if a % 2 == 1 || b % 2 == 1 then 1 else 0)
  }

  lemma {:induction false} OrZero(a: nat)
    ensures Or(a, 0) == a && Or(0, a) == a
  {
    if a > 0 { OrZero(a / 2); }
  }

  /** Numbers that share no bit: or is plus. */
  lemma {:induction false} OrDisjoint(a: nat, k: nat, b: nat)
    requires b < Exp2(k)
    ensures Or(a * Exp2(k), b) == a * Exp2(k) + b
  {
    if k == 0 {
      OrZero(a);
    } else {
      OrDisjoint(a, k - 1, b / 2);
      var h := a * Exp2(k - 1);
      assert a * Exp2(k) == 2 * h;
    }
  }

  predicate Numbers(w: Widths, key: Row) { |key| == |w| && forall j :: 0 <= j < |w| ==> key[j] >= 0 }

  /** The index as the tables compute it, of any numbers. */
  function ShiftOr(w: Widths, key: Row): nat
    requires Numbers(w, key)
  {
    if w == [] then 0 else var n := |w| - 1; Or(ShiftOr(w[..n], key[..n]) * Exp2(w[n]), key[n])
  }

  /** In range it is the place of the tuple. */
  lemma {:induction false} ShiftOrIndex(w: Widths, key: Row)
    requires Fits(w, key)
    ensures ShiftOr(w, key) == TupleIndex(w, key)
  {
    if w != [] {
      var n := |w| - 1;
      ShiftOrIndex(w[..n], key[..n]);
      OrDisjoint(TupleIndex(w[..n], key[..n]), w[n], key[n]);
    }
  }

  // ----------------------------------------------------------------- the tables

  function Padded(keys: seq<Row>, pad: nat): (r: seq<Row>)
    ensures |r| == |keys| && forall i :: 0 <= i < |keys| ==> r[i] == keys[i] + Zeros(pad)
  {
    seq(|keys|, i requires 0 <= i < |keys| => keys[i] + Zeros(pad))
  }

  /** Values cut or filled with zeros to the width. */
  function Fill(width: nat, s: Row): (r: Row)
    ensures |r| == width
  {
    if |s| >= width then s[..width] else s + Zeros(width - |s|)
  }

  /** A function that asserts a condition of the key, and gives the index. */
  function IndexOf(w: Widths, checks: Row -> bool, k: Row): Option<nat> {
    if |k| >= |w| && Numbers(w, k[..|w|]) && checks(k[..|w|]) then Some(ShiftOr(w, k[..|w|])) else None
  }

  function EntryOf(width: nat, w: Widths, checks: Row -> bool, val: Row -> Row, k: Row): Option<(nat, Row)> {
    if IndexOf(w, checks, k).Some? then Some((IndexOf(w, checks, k).value, Fill(width, val(k[..|w|])))) else None
  }

  /**
    Key columns as many as widths, any values. The generation function asserts `checks`, and the
    index function, if the table brings its own, asserts `own`.
   */
  function TupleGenerator(width: nat, w: Widths, checks: Row -> bool, val: Row -> Row, own: Option<Row -> bool>): Generator {
    Generator(width, |w|, (k: Row) => EntryOf(width, w, checks, val, k),
              if own.Some? then Some((k: Row) => IndexOf(w, own.value, k)) else None)
  }

  /** What the lookup of a row asserts of its key. */
  function RowChecks(checks: Row -> bool, own: Option<Row -> bool>): Row -> bool { if own.Some? then own.value else checks }

  lemma TupleFunctions(width: nat, w: Widths, checks: Row -> bool, val: Row -> Row, own: Option<Row -> bool>, k: Row)
    requires |w| <= width == |k|
    ensures var g := TupleGenerator(width, w, checks, val, own);
      && g.width == width && g.keyColumns == |w|
      && (Generates(g, k) <==> Numbers(w, k[..|w|]) && checks(k[..|w|]))
      && (g.generate(k).Some? ==> g.generate(k).value == (ShiftOr(w, k[..|w|]), Fill(width, val(k[..|w|]))))
      && g.RowIndex(k) == IndexOf(w, RowChecks(checks, own), k)
  {
    hide ShiftOr, Fill, Numbers;
    var g := TupleGenerator(width, w, checks, val, own);
    assert g.generate(k) == EntryOf(width, w, checks, val, k);
  }

  /** The assertions hold of every tuple of the table. */
  ghost predicate Passes(w: Widths, checks: Row -> bool) { forall key: Row :: Fits(w, key) ==> checks(key) }

  /** The assertions hold of nothing else. */
  ghost predicate Strict(w: Widths, checks: Row -> bool) {
    forall key: Row :: Numbers(w, key) && checks(key) ==> Fits(w, key)
  }

  /** They do so at least where the index is below the size of the table. */
  ghost predicate StrictInTable(w: Widths, checks: Row -> bool) {
    forall key: Row :: Numbers(w, key) && checks(key) && ShiftOr(w, key) < Exp2(Total(w)) ==> Fits(w, key)
  }

  ghost function TupleKeys(width: nat, w: Widths): seq<Row>
    requires |w| <= width
  {
    Padded(Tuples(w), width - |w|)
  }

  lemma TupleWellBehaved(width: nat, w: Widths, checks: Row -> bool, val: Row -> Row, own: Option<Row -> bool>)
    requires |w| <= width
    ensures WellBehaved(TupleGenerator(width, w, checks, val, own))
  {
    hide Fill, ShiftOr, Numbers;
    var g := TupleGenerator(width, w, checks, val, own);
    forall k: Row, l: Row | |k| == |l| == width && k[..|w|] == l[..|w|]
      ensures g.generate(k) == g.generate(l) && g.RowIndex(k) == g.RowIndex(l)
    {
      assert g.generate(k) == EntryOf(width, w, checks, val, k) && g.generate(l) == EntryOf(width, w, checks, val, l);
    }
    forall k: Row | g.generate(k).Some?
      ensures |g.generate(k).value.1| == width
    {
      assert g.generate(k) == EntryOf(width, w, checks, val, k);
    }
  }

  lemma TupleKeyAt(width: nat, w: Widths, i: nat)
    requires |w| <= width && i < Exp2(Total(w))
    ensures |TupleKeys(width, w)[i]| == width && TupleKeys(width, w)[i][..|w|] == TupleAt(w, i)
    ensures Fits(w, TupleAt(w, i)) && ShiftOr(w, TupleAt(w, i)) == i
  {
    PositionIndexed(w, i);
    ShiftOrIndex(w, TupleAt(w, i));
    hide TupleAt, TupleIndex, ShiftOr;
    var t := TupleAt(w, i);
    assert TupleKeys(width, w)[i] == t + Zeros(width - |w|);
    assert (t + Zeros(width - |w|))[..|w|] == t;
  }

  /** For every list of widths and all values, the shifted-or index is the position, for keys and for rows. */
  lemma TupleTable(width: nat, w: Widths, checks: Row -> bool, val: Row -> Row, own: Option<Row -> bool>)
    requires |w| <= width && Passes(w, checks) && (own.Some? ==> Passes(w, own.value))
    ensures WellBehaved(TupleGenerator(width, w, checks, val, own))
    ensures KeyShaped(TupleGenerator(width, w, checks, val, own), TupleKeys(width, w))
    ensures AllGenerate(TupleGenerator(width, w, checks, val, own), TupleKeys(width, w))
    ensures KeysDiffer(TupleGenerator(width, w, checks, val, own), TupleKeys(width, w))
    ensures Indexed(TupleGenerator(width, w, checks, val, own), TupleKeys(width, w))
  {
    var g, keys := TupleGenerator(width, w, checks, val, own), TupleKeys(width, w);
    TupleWellBehaved(width, w, checks, val, own);
    hide TupleGenerator, WellBehaved, Generator.RowIndex, ShiftOr, Generates;
    forall i | 0 <= i < |keys|
      ensures |keys[i]| == width && Generates(g, keys[i]) && g.generate(keys[i]).value.0 == i && g.RowIndex(keys[i]) == Some(i)
    {
      TupleKeyAt(width, w, i);
      TupleFunctions(width, w, checks, val, own, keys[i]);
    }
    hide TupleKeys;
    assert g.width == width by { TupleFunctions(width, w, checks, val, own, Zeros(width)); }
    IndexedDiffer(g, keys);
  }

  /** The rows of such a table: every tuple in range once, at its index, with its values. */
  ghost predicate Holds(width: nat, w: Widths, val: Row -> Row, data: seq<Row>) {
    && |w| <= width && |data| == Exp2(Total(w))
    && forall i :: 0 <= i < |data| ==> data[i] == TupleAt(w, i) + Fill(width, val(TupleAt(w, i)))[..width - |w|]
  }

  method CreateTupleTable(id: nat, width: nat, w: Widths, checks: Row -> bool, val: Row -> Row, own: Option<Row -> bool>)
    returns (ok: bool, t: Table)
    requires |w| <= width && Passes(w, checks) && (own.Some? ==> Passes(w, own.value))
    ensures ok && t.id == id && t.gen == TupleGenerator(width, w, checks, val, own) && Created(t) && Holds(width, w, val, t.data)
    ensures KeysGuarded(t) <==> Strict(w, checks)
    ensures RowsGuarded(t) <==> StrictInTable(w, RowChecks(checks, own))
  {
    var tuples := TuplesSerial(w);
    var keys := Padded(tuples, width - |w|);
    var g := TupleGenerator(width, w, checks, val, own);
    TupleTable(width, w, checks, val, own);
    assert keys == TupleKeys(width, w);
    hide WellBehaved, KeyShaped, AllGenerate, KeysDiffer, Indexed, Enumerates, TupleGenerator, TupleKeys, Holds, KeysGuarded, RowsGuarded,
         Strict, StrictInTable, Passes;
    ok, t := CreateTable(id, g, keys);
    assert CreatedFrom(t, keys);
    RowsHeld(width, w, checks, val, own, t.data);
    TupleKeysGuarded(width, w, checks, val, own, t);
    TupleRowsGuarded(width, w, checks, val, own, t);
  }

  lemma RowsHeld(width: nat, w: Widths, checks: Row -> bool, val: Row -> Row, own: Option<Row -> bool>, data: seq<Row>)
    requires |w| <= width && Enumerates(TupleGenerator(width, w, checks, val, own), TupleKeys(width, w), data)
    ensures Holds(width, w, val, data)
  {
    var g, keys := TupleGenerator(width, w, checks, val, own), TupleKeys(width, w);
    forall i | 0 <= i < |data|
      ensures data[i] == TupleAt(w, i) + Fill(width, val(TupleAt(w, i)))[..width - |w|]
    {
      TupleKeyAt(width, w, i);
      hide TupleKeys, Fill;
      assert data[i] == RowOf(g, keys[i]);
      TupleFunctions(width, w, checks, val, own, keys[i]);
    }
  }

  /** The keys of the table are the tuples in range. */
  lemma TupleHasKey(width: nat, w: Widths, val: Row -> Row, t: Table, key: Row)
    requires Holds(width, w, val, t.data) && |key| == |w|
    ensures HasKey(t, key) <==> Fits(w, key)
  {
    if Fits(w, key) {
      TuplePositioned(w, key);
      IndexBound(w, key);
      assert key <= t.data[TupleIndex(w, key)];
    }
    if i :| 0 <= i < |t.data| && key <= t.data[i] {
      PositionIndexed(w, i);
      assert t.data[i][..|w|] == TupleAt(w, i) == key;
    }
  }

  /** A key is looked up only if it is in the table exactly when the generation function asserts the range of every number. */
  lemma TupleKeysGuarded(width: nat, w: Widths, checks: Row -> bool, val: Row -> Row, own: Option<Row -> bool>, t: Table)
    requires t.gen == TupleGenerator(width, w, checks, val, own) && Holds(width, w, val, t.data)
    ensures KeysGuarded(t) <==> Strict(w, checks)
  {
    assert |w| <= width;
    hide TupleGenerator, Holds, Fits, Numbers, HasKey, Generates;
    TupleFunctions(width, w, checks, val, own, Zeros(width));
    if Strict(w, checks) {
      forall k: Row | Generates(t.gen, k)
        ensures |k| == width && HasKey(t, k[..|w|])
      {
        GeneratedWidth(t.gen, k);
        TupleFunctions(width, w, checks, val, own, k);
        TupleHasKey(width, w, val, t, k[..|w|]);
      }
    }
    if KeysGuarded(t) {
      forall key: Row | Numbers(w, key) && checks(key)
        ensures Fits(w, key)
      {
        assert |key| == |w| by { NumbersLength(w, key); }
        var k := key + Zeros(width - |w|);
        assert k[..|w|] == key;
        TupleFunctions(width, w, checks, val, own, k);
        TupleHasKey(width, w, val, t, key);
      }
    }
  }

  /** The same for rows, where the index is compared with the size as well. */
  lemma TupleRowsGuarded(width: nat, w: Widths, checks: Row -> bool, val: Row -> Row, own: Option<Row -> bool>, t: Table)
    requires t.gen == TupleGenerator(width, w, checks, val, own) && Holds(width, w, val, t.data)
    ensures RowsGuarded(t) <==> StrictInTable(w, RowChecks(checks, own))
  {
    var c := RowChecks(checks, own);
    hide TupleGenerator, Fits, Numbers, HasKey, Generates, ShiftOr, Generator.RowIndex, RowChecks;
    TupleFunctions(width, w, checks, val, own, Zeros(width));
    assert |t.data| == Exp2(Total(w));
    hide Holds, Exp2, Total;
    if StrictInTable(w, c) {
      forall k: Row | |k| == width && t.gen.RowIndex(k).Some? && t.gen.RowIndex(k).value < |t.data|
        ensures HasKey(t, k[..|w|])
      {
        TupleFunctions(width, w, checks, val, own, k);
        TupleHasKey(width, w, val, t, k[..|w|]);
      }
    }
    if RowsGuarded(t) {
      forall key: Row | Numbers(w, key) && c(key) && ShiftOr(w, key) < Exp2(Total(w))
        ensures Fits(w, key)
      {
        assert |key| == |w| by { NumbersLength(w, key); }
        var k := key + Zeros(width - |w|);
        assert k[..|w|] == key;
        TupleFunctions(width, w, checks, val, own, k);
        TupleHasKey(width, w, val, t, key);
      }
    }
  }

  lemma GeneratedWidth(g: Generator, k: Row)
    requires Generates(g, k)
    ensures |k| == g.width
  {
  }

  lemma NumbersLength(w: Widths, key: Row)
    requires Numbers(w, key)
    ensures |key| == |w|
  {
  }

  /** A key and its values are in the table exactly when the key is in range, and then at its index. */
  lemma TupleRow(width: nat, w: Widths, val: Row -> Row, data: seq<Row>, key: Row, values: Row)
    requires Holds(width, w, val, data) && |key| == |w|
    ensures key + values in data <==> Fits(w, key) && values == Fill(width, val(key))[..width - |w|]
    ensures key + values in data ==> TupleIndex(w, key) < |data| && data[TupleIndex(w, key)] == key + values
  {
    hide Fill;
    if Fits(w, key) {
      TuplePositioned(w, key);
      IndexBound(w, key);
      assert data[TupleIndex(w, key)] == key + Fill(width, val(key))[..width - |w|];
    }
    if key + values in data {
      var i :| 0 <= i < |data| && data[i] == key + values;
      PositionIndexed(w, i);
      hide Holds, TupleAt, TupleIndex;
      var t := TupleAt(w, i);
      var v := Fill(width, val(t))[..width - |w|];
      assert (t + v)[..|w|] == t && (key + values)[..|w|] == key;
      assert (t + v)[|w|..] == v && (key + values)[|w|..] == values;
    }
  }

  // ------------------------------------------------------------------ instances

  /** One more number behind a key. */
  lemma IndexSnoc(w: Widths, key: Row, x: nat, c: nat)
    requires Fits(w, key) && c < Exp2(x)
    ensures Fits(w + [x], key + [c]) && TupleIndex(w + [x], key + [c]) == TupleIndex(w, key) * Exp2(x) + c
  {
    assert (w + [x])[..|w|] == w && (key + [c])[..|key|] == key;
    FitsSnoc(w + [x], key + [c]);
  }

  lemma AtSnoc(w: Widths, x: nat, i: nat)
    ensures i / Exp2(x) >= 0 && TupleAt(w + [x], i) == TupleAt(w, i / Exp2(x)) + [i % Exp2(x)]
  {
    hide Exp2;
    QuotientBound(i, Exp2(x));
    assert (w + [x])[..|w|] == w;
  }

  /** The index of a single number, a pair and a triple, written out as the tables shift them together. */
  lemma OneIndex(a: nat, u: nat)
    requires a < Exp2(u)
    ensures Fits([u], [a]) && TupleIndex([u], [a]) == a
  {
    var w: Widths, key: Row := [], [];
    assert Fits(w, key) && TupleIndex(w, key) == 0;
    hide TupleIndex, Exp2, Fits;
    IndexSnoc(w, key, u, a);
    assert w + [u] == [u] && key + [a] == [a];
  }

  lemma PairIndex(a: nat, u: nat, b: nat, v: nat)
    requires a < Exp2(u) && b < Exp2(v)
    ensures Fits([u, v], [a, b]) && TupleIndex([u, v], [a, b]) == a * Exp2(v) + b
  {
    hide TupleIndex, Exp2, Fits;
    OneIndex(a, u);
    IndexSnoc([u], [a], v, b);
    assert [u] + [v] == [u, v] && [a] + [b] == [a, b];
  }

  lemma TripleIndex(a: nat, u: nat, b: nat, v: nat, c: nat, x: nat)
    requires a < Exp2(u) && b < Exp2(v) && c < Exp2(x)
    ensures Fits([u, v, x], [a, b, c]) && TupleIndex([u, v, x], [a, b, c]) == (a * Exp2(v) + b) * Exp2(x) + c
  {
    hide TupleIndex, Exp2, Fits;
    PairIndex(a, u, b, v);
    IndexSnoc([u, v], [a, b], x, c);
    assert [u, v] + [x] == [u, v, x] && [a, b] + [c] == [a, b, c];
  }

  lemma AtOne(u: nat, q: nat)
    requires q < Exp2(u)
    ensures TupleAt([u], q) == [q]
  {
    hide Exp2;
    var w: Widths := [];
    assert [u][..0] == w;
    Small(q, Exp2(u));
    assert TupleAt(w, 0) == [];
  }

  lemma Small(q: nat, e: nat)
    requires q < e
    ensures q % e == q && q / e == 0
  {
  }

  /** The positional generator for pairs cuts a position at the width. */
  lemma PairAt(u: nat, v: nat, i: nat, q: int)
    requires i < Exp2(u + v) && q == i / Exp2(v)
    ensures TupleAt([u, v], i) == [q, i % Exp2(v)]
  {
    Exp2Adds(u, v);
    CutBound(i, Exp2(u), Exp2(v));
    hide TupleAt, Exp2;
    AtOne(u, q);
    assert [u] + [v] == [u, v];
    AtSnoc([u], v, i);
  }

  function TruncatedAmount(k: Row): Row {
    if |k| < 2 then [] else [if k[1] != 0 then k[0] % 32 else 32 - k[0] % 32]
  }

  function SourceContribution(k: Row): Row {
    if |k| < 2 then [] else [if k[1] != 0 then k[0] % 0x100 * 0x100 else k[0] % 0x100]
  }

  function ExistingContribution(k: Row): Row {
    if |k| < 2 then [] else [if k[1] != 0 then k[0] % 0x100 else k[0] % 0x1_0000 - k[0] % 0x100]
  }

  function NoValues(k: Row): Row { [] }

  function Op(op: (int, int) -> int): Row -> Row { (k: Row) => if |k| < 2 then [] else [op(k[0], k[1])] }

  /** A pair and one value form a row exactly when they are in range and the value is right, and then at the shifted-or index. */
  ghost predicate PairEntry(u: nat, v: nat, val: Row -> Row, data: seq<Row>, a: nat, b: nat, x: int) {
    && ([a, b, x] in data <==> a < Exp2(u) && b < Exp2(v) && val([a, b]) == [x])
    && ([a, b, x] in data ==> At(data, a * Exp2(v) + b, [a, b, x]))
  }

  ghost predicate At(data: seq<Row>, i: int, row: Row) { 0 <= i < |data| && data[i] == row }

  /** The table of a pair; rows are looked up exactly by its keys. */
  ghost predicate PairTable(u: nat, v: nat, val: Row -> Row, t: Table) {
    && Created(t) && RowsGuarded(t) && |t.data| == Exp2(u + v)
    && forall a: nat, b: nat, x :: PairEntry(u, v, val, t.data, a, b, x)
  }

  /** What a pair is looked up as: the shifted-or index and the value, or a failed assertion. */
  ghost predicate PairLookup(v: nat, checks: Row -> bool, val: Row -> Row, t: Table) {
    forall a: nat, b: nat, c :: PairGenerated(v, checks, val, t, a, b, c)
  }

  ghost predicate PairGenerated(v: nat, checks: Row -> bool, val: Row -> Row, t: Table, a: nat, b: nat, c: int) {
    t.gen.generate([a, b, c]) == if checks([a, b]) then Some((Or(a * Exp2(v), b), Fill(3, val([a, b])))) else None
  }

  /** The assertion that all numbers are in range. */
  function InRange(w: Widths): Row -> bool { (k: Row) => Fits(w, k) }

  lemma InRangeStrict(w: Widths)
    ensures Passes(w, InRange(w)) && Strict(w, InRange(w)) && StrictInTable(w, InRange(w))
  {
    hide Fits, ShiftOr;
    assert forall k: Row :: InRange(w)(k) == Fits(w, k);
  }

  /**
    Two numbers and one value: all tables of this shape. Their index functions assert both ranges;
    what their generation functions assert differs.
   */
  method CreatePairTable(id: nat, u: nat, v: nat, checks: Row -> bool, val: Row -> Row) returns (ok: bool, t: Table)
    requires Passes([u, v], checks) && forall k: Row :: |k| == 2 ==> |val(k)| == 1
    ensures ok && t.id == id && PairTable(u, v, val, t) && PairLookup(v, checks, val, t)
    ensures KeysGuarded(t) <==> Strict([u, v], checks)
  {
    InRangeStrict([u, v]);
    hide Created, Holds, PairEntry, Passes, Strict, StrictInTable, InRange, KeysGuarded, RowsGuarded, PairGenerated, TupleGenerator;
    ok, t := CreateTupleTable(id, 3, [u, v], checks, val, Some(InRange([u, v])));
    PairTotal(u, v, val, t.data);
    forall a: nat, b: nat, x
      ensures PairEntry(u, v, val, t.data, a, b, x)
    {
      PairRow(u, v, val, t.data, a, b, x);
    }
    forall a: nat, b: nat, c
      ensures PairGenerated(v, checks, val, t, a, b, c)
    {
      PairShifted(u, v, checks, val, t, a, b, c);
    }
  }

  lemma PairShifted(u: nat, v: nat, checks: Row -> bool, val: Row -> Row, t: Table, a: nat, b: nat, c: int)
    requires t.gen == TupleGenerator(3, [u, v], checks, val, Some(InRange([u, v])))
    ensures PairGenerated(v, checks, val, t, a, b, c)
  {
    var w, key := [u, v], [a, b];
    assert [a, b, c][..2] == key && w[..1] == [u] && [u][..0] == [] && key[..1] == [a];
    assert ShiftOr([u], [a]) == a by { OrZero(a); assert ShiftOr([], [a][..0]) == 0; }
    assert ShiftOr(w, key) == Or(a * Exp2(v), b);
    hide ShiftOr, Or, Exp2, Fill;
    assert Numbers(w, key);
    assert t.gen.generate([a, b, c]) == EntryOf(3, w, checks, val, [a, b, c]);
  }

  lemma PairTotal(u: nat, v: nat, val: Row -> Row, data: seq<Row>)
    requires Holds(3, [u, v], val, data)
    ensures |data| == Exp2(u + v)
  {
    hide Exp2, TupleAt;
    assert [u, v][..1] == [u] && [u][..0] == [];
    assert Total([u]) == u;
  }

  lemma PairRow(u: nat, v: nat, val: Row -> Row, data: seq<Row>, a: nat, b: nat, x: int)
    requires Holds(3, [u, v], val, data) && |val([a, b])| == 1
    ensures PairEntry(u, v, val, data, a, b, x)
  {
    hide Holds, Exp2, TupleIndex;
    TupleRow(3, [u, v], val, data, [a, b], [x]);
    assert [a, b] + [x] == [a, b, x];
    assert Fill(3, val([a, b]))[..1] == val([a, b]);
    PairFits(u, v, a, b);
    if a < Exp2(u) && b < Exp2(v) { PairIndex(a, u, b, v); }
  }

  lemma PairFits(u: nat, v: nat, a: nat, b: nat)
    ensures Fits([u, v], [a, b]) <==> a < Exp2(u) && b < Exp2(v)
  {
    hide Exp2;
    if Fits([u, v], [a, b]) { assert [a, b][0] < Exp2([u, v][0]) && [a, b][1] < Exp2([u, v][1]); }
  }

  /** Two operands of one width and a result: and, or, xor, and-not. Exactly the operands in range are looked up. */
  method CreateBinaryTable(id: nat, width: nat, op: (int, int) -> int) returns (ok: bool, t: Table)
    ensures ok && t.id == id && PairTable(width, width, Op(op), t) && KeysGuarded(t)
  {
    InRangeStrict([width, width]);
    hide PairTable, PairLookup, KeysGuarded, Passes, Strict, StrictInTable, InRange;
    ok, t := CreatePairTable(id, width, width, InRange([width, width]), Op(op));
  }

  function AsByte(k: Row): bool { |k| >= 1 && k[0] < 0x100 }

  function Unchecked(k: Row): bool { true }

  /** A byte and a direction: the amount to shift by. The generation function asserts the byte and not the direction. */
  method CreateTruncateShiftTable(id: nat) returns (ok: bool, t: Table)
    ensures ok && t.id == id && PairTable(8, 1, TruncatedAmount, t) && PairLookup(1, AsByte, TruncatedAmount, t)
  {
    BytePasses();
    hide PairTable, PairLookup, KeysGuarded, Passes, Strict;
    ok, t := CreatePairTable(id, 8, 1, AsByte, TruncatedAmount);
  }

  lemma BytePasses()
    ensures Passes([8, 1], AsByte)
  {
    forall key: Row | Fits([8, 1], key)
      ensures AsByte(key)
    {
      assert key[0] < Exp2([8, 1][0]);
      assert Exp2(8) == 0x100;
    }
  }

  /** A half-word and the low bit of an address: the byte stored, in its place. The generation function asserts nothing. */
  method CreateSourceContributionTable(id: nat) returns (ok: bool, t: Table)
    ensures ok && t.id == id && PairTable(16, 1, SourceContribution, t) && PairLookup(1, Unchecked, SourceContribution, t)
  {
    hide PairTable, PairLookup, KeysGuarded, Strict;
    ok, t := CreatePairTable(id, 16, 1, Unchecked, SourceContribution);
  }

  /** The same key: the byte that stays. */
  method CreateExistingContributionTable(id: nat) returns (ok: bool, t: Table)
    ensures ok && t.id == id && PairTable(16, 1, ExistingContribution, t) && PairLookup(1, Unchecked, ExistingContribution, t)
  {
    hide PairTable, PairLookup, KeysGuarded, Strict;
    ok, t := CreatePairTable(id, 16, 1, Unchecked, ExistingContribution);
  }

  /**
    Storing a byte: the source entry for `v` and the existing entry for `w`, with the same address
    bit, add up to `w` with the addressed byte replaced by the low byte of `v`.
   */
  lemma StoredByte(source: Table, existing: Table, v: nat, w: nat, b: nat, x: int, y: int)
    requires PairTable(16, 1, SourceContribution, source) && PairTable(16, 1, ExistingContribution, existing)
    requires [v, b, x] in source.data && [w, b, y] in existing.data
    ensures v < 0x1_0000 && w < 0x1_0000 && b < 2
    ensures b == 0 ==> x + y == w / 0x100 * 0x100 + v % 0x100
    ensures b == 1 ==> x + y == v % 0x100 * 0x100 + w % 0x100
  {
    hide PairTable, SourceContribution, ExistingContribution;
    PairLimits();
    PairOf(16, 1, SourceContribution, source, v, b, x);
    PairOf(16, 1, ExistingContribution, existing, w, b, y);
    ByteReplaced(v, w, b, x, y);
  }

  lemma PairOf(u: nat, v: nat, val: Row -> Row, t: Table, a: nat, b: nat, x: int)
    requires PairTable(u, v, val, t) && [a, b, x] in t.data
    ensures a < Exp2(u) && b < Exp2(v) && val([a, b]) == [x]
  {
    hide Created, RowsGuarded, Exp2;
    assert PairEntry(u, v, val, t.data, a, b, x);
  }

  lemma ByteReplaced(v: nat, w: nat, b: nat, x: int, y: int)
    requires w < 0x1_0000 && b < 2 && SourceContribution([v, b]) == [x] && ExistingContribution([w, b]) == [y]
    ensures b == 0 ==> x + y == w / 0x100 * 0x100 + v % 0x100
    ensures b == 1 ==> x + y == v % 0x100 * 0x100 + w % 0x100
  {
    assert x == SourceContribution([v, b])[0] && y == ExistingContribution([w, b])[0];
  }

  lemma PairLimits()
    ensures Exp2(16) == 0x1_0000 && Exp2(8) == 0x100 && Exp2(1) == 2
  {
    assert Exp2(8) == 0x100;
    Exp2Adds(8, 8);
  }

  /** The amounts of the two directions: the low five bits of the byte, and what is missing to 32. */
  lemma AmountsComplement(t: Table, a: nat, x: int, y: int)
    requires PairTable(8, 1, TruncatedAmount, t) && [a, 1, x] in t.data && [a, 0, y] in t.data
    ensures a < 0x100 && 0 <= x < 32 && (a - x) % 32 == 0 && x + y == 32
  {
    hide PairTable, TruncatedAmount;
    PairLimits();
    PairOf(8, 1, TruncatedAmount, t, a, 1, x);
    PairOf(8, 1, TruncatedAmount, t, a, 0, y);
    Amounts(a, x, y);
  }

  lemma Amounts(a: nat, x: int, y: int)
    requires TruncatedAmount([a, 1]) == [x] && TruncatedAmount([a, 0]) == [y]
    ensures 0 <= x < 32 && (a - x) % 32 == 0 && x + y == 32
  {
    assert x == TruncatedAmount([a, 1])[0] && y == TruncatedAmount([a, 0])[0];
  }

  /**
    So a direction other than a bit is looked up in these tables without a panic: the index is in
    the table, and the row there has another key.
   */
  lemma UncheckedDirection(t: Table)
    requires PairTable(8, 1, TruncatedAmount, t) && PairLookup(1, AsByte, TruncatedAmount, t)
    ensures t.gen.generate([0, 2, 0]) == Some((2, [0, 0, 0]))
    ensures At(t.data, 2, [1, 0, 31])
  {
    assert PairGenerated(1, AsByte, TruncatedAmount, t, 0, 2, 0) && PairEntry(8, 1, TruncatedAmount, t.data, 1, 0, 31);
    hide PairTable, PairLookup;
    OrZero(2);
    assert Exp2(1) == 2 && Exp2(8) == 0x100;
    assert TruncatedAmount([0, 2]) == [0] && TruncatedAmount([1, 0]) == [31];
    hide Exp2, TruncatedAmount;
    assert Fill(3, [0]) == [0, 0, 0];
  }

  /** Tables whose columns are all keys: a row is there exactly when it fits, at its index, and exactly then it is looked up. */
  ghost predicate KeyTable(w: Widths, t: Table) {
    && Created(t) && RowsGuarded(t) && |t.data| == Exp2(Total(w)) && t.gen.width == t.gen.keyColumns == |w|
    && forall row: Row :: |row| == |w| ==> KeyEntry(w, t.data, row)
  }

  ghost predicate KeyEntry(w: Widths, data: seq<Row>, row: Row) {
    (row in data <==> Fits(w, row)) && (Fits(w, row) ==> At(data, TupleIndex(w, row), row))
  }

  method CreateKeyTable(id: nat, w: Widths, own: Option<Row -> bool>) returns (ok: bool, t: Table)
    requires own.Some? ==> Passes(w, own.value) && StrictInTable(w, own.value)
    ensures ok && t.id == id && KeyTable(w, t)
  {
    InRangeStrict(w);
    KeyColumns(w, own);
    hide Created, KeyEntry, Passes, Strict, StrictInTable, InRange, KeysGuarded, RowsGuarded, TupleGenerator;
    ok, t := CreateTupleTable(id, |w|, w, InRange(w), NoValues, own);
    forall row: Row | |row| == |w|
      ensures KeyEntry(w, t.data, row)
    {
      KeyRow(w, t.data, row);
    }
  }

  lemma KeyColumns(w: Widths, own: Option<Row -> bool>)
    ensures var g := TupleGenerator(|w|, w, InRange(w), NoValues, own); g.width == g.keyColumns == |w|
  {
  }

  lemma KeyRow(w: Widths, data: seq<Row>, row: Row)
    requires Holds(|w|, w, NoValues, data) && |row| == |w|
    ensures KeyEntry(w, data, row)
  {
    hide Holds, TupleIndex, Fits;
    var none: Row := [];
    TupleRow(|w|, w, NoValues, data, row, none);
    assert row + none == row;
    assert Fill(|w|, NoValues(row))[..0] == none;
  }

  /** The opcode decoders split three numbers of four bits, or of seven, three and six; they have no index function of their own. */
  method CreateDecoderTables(id: nat, other: nat) returns (ok: bool, even: Table, uneven: Table)
    ensures ok && even.id == id && KeyTable([4, 4, 4], even) && uneven.id == other && KeyTable([7, 3, 6], uneven)
  {
    hide KeyTable;
    var ok1, ok2;
    ok1, even := CreateKeyTable(id, [4, 4, 4], None);
    ok2, uneven := CreateKeyTable(other, [7, 3, 6], None);
    ok := ok1 && ok2;
  }

  /** Range checks of one column, whose index function asserts nothing, of a pair, and of a single number in three columns. */
  method CreateRangeCheckTables(id: nat, bits: nat) returns (ok: bool, one: Table, pair: Table, single: Table)
    ensures ok && KeyTable([bits], one) && KeyTable([bits, bits, 0], pair) && KeyTable([bits, 0, 0], single)
  {
    InRangeStrict([bits, bits, 0]);
    InRangeStrict([bits, 0, 0]);
    OneNumber(bits);
    hide KeyTable, Passes, StrictInTable, InRange;
    var ok1, ok2, ok3;
    ok1, one := CreateKeyTable(id, [bits], Some(Unchecked));
    ok2, pair := CreateKeyTable(id, [bits, bits, 0], Some(InRange([bits, bits, 0])));
    ok3, single := CreateKeyTable(id, [bits, 0, 0], Some(InRange([bits, 0, 0])));
    ok := ok1 && ok2 && ok3;
  }

  /** A single number is its own index, so the size of the table bounds it. */
  lemma OneNumber(bits: nat)
    ensures Passes([bits], Unchecked) && StrictInTable([bits], Unchecked)
  {
    assert Total([bits]) == bits by { assert [bits][..0] == []; }
    forall key: Row | Numbers([bits], key) && ShiftOr([bits], key) < Exp2(bits)
      ensures Fits([bits], key)
    {
      assert [bits][..0] == [] && key[..0] == [] && ShiftOr([], []) == 0;
      OrZero(key[0]);
    }
  }

  function ZeroGenerator(): Generator {
    Generator(3, 3, (k: Row) => Some((0, [0, 0, 0])), Some((k: Row) => Some(0)))
  }

  /** The table of one zero row asserts nothing: every row of three numbers is looked up, at position zero. */
  method CreateZeroTable(id: nat) returns (ok: bool, t: Table)
    ensures ok && t.id == id && Created(t) && t.data == [[0, 0, 0]]
    ensures forall row: Row :: RowAccepted(t, row) <==> |row| == 3
  {
    var g, keys := ZeroGenerator(), [[0, 0, 0]];
    assert WellBehaved(g) && KeyShaped(g, keys) && Indexed(g, keys);
    ok, t := CreateTable(id, g, keys);
    assert CreatedFrom(t, keys);
    TableSize(t);
    assert t.data == [RowOf(g, keys[0])] && RowOf(g, keys[0]) == [0, 0, 0];
  }

  /** Columns of width zero hold zero and leave the index to the others. */
  lemma UnusedColumns(bits: nat, a: nat, b: nat, row: Row)
    requires a < Exp2(bits) && b < Exp2(bits)
    ensures Fits([bits, bits, 0], [a, b, 0]) && TupleIndex([bits, bits, 0], [a, b, 0]) == a * Exp2(bits) + b
    ensures Fits([bits, 0, 0], [a, 0, 0]) && TupleIndex([bits, 0, 0], [a, 0, 0]) == a
    ensures Fits([0, 0, 0], [0, 0, 0]) && TupleIndex([0, 0, 0], [0, 0, 0]) == 0
    ensures Fits([bits, bits, 0], row) ==> row[2] == 0
  {
    assert Exp2(0) == 1;
    TripleIndex(a, bits, b, bits, 0, 0);
    TripleIndex(a, bits, 0, 0, 0, 0);
    TripleIndex(0, 0, 0, 0, 0, 0);
    hide TupleIndex, Exp2;
    if Fits([bits, bits, 0], row) { assert row[2] < Exp2([bits, bits, 0][2]); }
  }
}
