/**
  Tables of powers: the serial loop, and the chunked form in which every chunk starts from a
  power of its own.
 */
module FieldPowers {
  import opened ModArith
  import opened FieldOps
  import opened FieldBatch
  import opened WorkerGeometry

  /** Starts with one, or with the base. */
  method PowersSerial<T(!new)>(f: Field<T>, base: T, size: nat, startWithOne: bool) returns (s: seq<T>)
    requires Lawful(f)
    ensures |s| == size
    ensures forall i :: 0 <= i < size ==> s[i] == Pow(f, base, if startWithOne then i else i + 1)
  {
    hide Lawful, Pow;
    if size == 0 { return []; }
    var shift := if startWithOne then 0 else 1;
    var current := if startWithOne then f.one else base;
    PowStart(f, base);
    s := [current];
    for i := 1 to size
      invariant |s| == i && current == Pow(f, base, i - 1 + shift)
      invariant forall j :: 0 <= j < i ==> s[j] == Pow(f, base, j + shift)
    {
      PowStep(f, base, i - 1 + shift);
      current := f.mul(current, base);
      s := s + [current];
    }
  }

  lemma PowStep<T(!new)>(f: Field<T>, a: T, e: nat)
    ensures Pow(f, a, e + 1) == f.mul(Pow(f, a, e), a)
  {
  }

  lemma PowStart<T(!new)>(f: Field<T>, a: T)
    requires Lawful(f)
    ensures Pow(f, a, 0) == f.one && Pow(f, a, 1) == a
  {
    hide Lawful;
    PowStep(f, a, 0);
    OneMul(f, a);
  }

  /** Entry i of a table with a given first element. */
  ghost function Entry<T(!new)>(f: Field<T>, first: T, step: T, i: nat): T { f.mul(Pow(f, step, i), first) }

  lemma EntryStep<T(!new)>(f: Field<T>, first: T, step: T, i: nat)
    requires Lawful(f)
    ensures f.mul(Entry(f, first, step, i), step) == Entry(f, first, step, i + 1)
  {
    hide Lawful;
    PowStep(f, step, i);
    var p := Pow(f, step, i);
    Assoc(f, p, first, step);
    Comm(f, first, step);
    Assoc(f, p, step, first);
  }

  /** The exponent a chunk that starts at `lo` uses at `i`: its start is cut to 32 bits, as in the source. */
  function Wrapped(lo: nat, i: nat): nat { if lo <= i then lo % TWO_32 + (i - lo) else i }

  /** The work of one thread: fills its chunk and nothing else. */
  method FillChunk<T(!new)>(f: Field<T>, storage: array<T>, lo: nat, hi: nat, first: T, step: T)
    requires Lawful(f) && lo <= hi <= storage.Length
    modifies storage
    ensures forall i :: lo <= i < hi ==> storage[i] == Entry(f, first, step, Wrapped(lo, i))
    ensures forall i :: 0 <= i < storage.Length && !(lo <= i < hi) ==> storage[i] == old(storage[i])
  {
    hide Lawful, Entry, Pow;
    if lo == hi { return; }
    var current := PowOf(f, step, lo % TWO_32);
    current := f.mul(current, first);
    EntryIs(f, first, step, lo % TWO_32);
    for i := lo to hi
      invariant current == Entry(f, first, step, Wrapped(lo, i))
      invariant forall j :: lo <= j < i ==> storage[j] == Entry(f, first, step, Wrapped(lo, j))
      invariant forall j :: 0 <= j < storage.Length && !(lo <= j < i) ==> storage[j] == old(storage[j])
    {
      storage[i] := current;
      EntryStep(f, first, step, Wrapped(lo, i));
      current := f.mul(current, step);
    }
  }

  lemma EntryIs<T(!new)>(f: Field<T>, first: T, step: T, i: nat)
    ensures Entry(f, first, step, i) == f.mul(Pow(f, step, i), first)
  {
  }

  /** Every chunk is filled from its own start. */
  ghost predicate Chunked<T(!new)>(f: Field<T>, first: T, step: T, g: Geometry, s: seq<T>)
    requires g.Covers(|s|)
  {
    forall i :: 0 <= i < |s| ==> s[i] == Entry(f, first, step, Wrapped(g.ChunkStart(g.ChunkOf(i)), i))
  }

  /** Sizes that are not a power of two are refused; the chunks may be filled in any order. */
  method PowersParallel<T(!new,0)>(f: Field<T>, first: T, step: T, size: nat, numCores: nat, order: seq<nat>)
    returns (ok: bool, storage: array<T>, ghost g: Geometry)
    requires Lawful(f) && numCores > 0
    requires Complete(order, if numCores < size then numCores else size)
    ensures ok <==> size == 0 || IsPowerOfTwo(size)
    ensures fresh(storage) && storage.Length == size
    ensures ok && size > 0 ==> g.Covers(size) && Chunked(f, first, step, g, storage[..])
    ensures ok && size > 0 ==> g.numChunks == (if numCores < size then numCores else size) && g.Even(size)
  {
    hide Lawful, Entry, Geometry.Covers, Geometry.ChunkOf, Geometry.Even, IsPowerOfTwo, Wrapped;
    storage := new T[size];
    g := Geometry(0, 0, 0);
    if size == 0 { return true, storage, g; }
    if !IsPowerOfTwo(size) { return false, storage, g; }
    var panicked, geometry, t, share := GeometryForCores(numCores, size);
    g := geometry;
    CoverNonempty(g, size);
    ChunkOfBound(g, size);
    for n := 0 to |order|
      invariant forall i :: 0 <= i < size && g.ChunkOf(i) in order[..n]
                  ==> storage[i] == Entry(f, first, step, Wrapped(g.ChunkStart(g.ChunkOf(i)), i))
    {
      var c := order[n];
      ChunkBounds(g, size, c);
      var lo, hi := geometry.ChunkStart(c), geometry.ChunkStart(c) + geometry.ChunkSize(c);
      forall i | 0 <= i < size
        ensures lo <= i < hi <==> g.ChunkOf(i) == c
      {
        ChunkRange(g, size, c, i);
      }
      FillChunk(f, storage, lo, hi, first, step);
      assert order[..n + 1] == order[..n] + [c];
    }
    assert order[..|order|] == order;
    ok := true;
  }

  // --------------------------------------------- when the chunked table is the serial one

  ghost predicate Serial<T(!new)>(f: Field<T>, first: T, step: T, s: seq<T>) {
    forall i :: 0 <= i < |s| ==> s[i] == Entry(f, first, step, i)
  }

  /** The part of the exponent that a chunk drops acts as one, or everything in the chunk is zero. */
  ghost predicate StartHarmless<T(!new)>(f: Field<T>, first: T, step: T, lo: nat) {
    first == f.zero || Pow(f, step, lo % TWO_32) == f.zero || Pow(f, step, lo - lo % TWO_32) == f.one
  }

  lemma CancelFactor<T(!new)>(f: Field<T>, v: T, w: T)
    requires Lawful(f)
    ensures f.mul(v, w) == v <==> v == f.zero || w == f.one
  {
    hide Lawful;
    InvMul(f, v);
    ZeroMul(f, w);
    OneMul(f, v);
    OneMul(f, w);
    if v != f.zero && f.mul(v, w) == v {
      var u := f.inv(v).value;
      Comm(f, v, u);
      Assoc(f, u, v, w);
    }
  }

  /** Two entries d apart are equal exactly if one is zero or d steps make one. */
  lemma EntriesEqual<T(!new)>(f: Field<T>, first: T, step: T, a: nat, d: nat)
    requires Lawful(f)
    ensures Entry(f, first, step, a) == Entry(f, first, step, a + d)
       <==> first == f.zero || Pow(f, step, a) == f.zero || Pow(f, step, d) == f.one
  {
    hide Lawful, Pow;
    var u, w := Pow(f, step, a), Pow(f, step, d);
    PowAdd(f, step, a, d);
    Assoc(f, u, w, first);
    Comm(f, w, first);
    Assoc(f, u, first, w);
    CancelFactor(f, f.mul(u, first), w);
    NoZeroProduct(f, u, first);
  }

  /** Once zero, a power stays zero. */
  lemma PowStaysZero<T(!new)>(f: Field<T>, step: T, a: nat, d: nat)
    requires Lawful(f) && Pow(f, step, a) == f.zero
    ensures Pow(f, step, a + d) == f.zero
  {
    hide Lawful, Pow;
    PowAdd(f, step, a, d);
    ZeroMul(f, Pow(f, step, d));
  }

  /** A chunk is right at all its positions exactly if its start is harmless. */
  lemma ChunkExactly<T(!new)>(f: Field<T>, first: T, step: T, lo: nat, i: nat)
    requires Lawful(f) && lo <= i
    ensures StartHarmless(f, first, step, lo) ==> Entry(f, first, step, Wrapped(lo, i)) == Entry(f, first, step, i)
    ensures i == lo && Entry(f, first, step, Wrapped(lo, i)) == Entry(f, first, step, i) ==> StartHarmless(f, first, step, lo)
  {
    hide Lawful, Pow, Entry;
    var a, d := Wrapped(lo, i), lo - lo % TWO_32;
    assert a + d == i;
    EntriesEqual(f, first, step, a, d);
    if Pow(f, step, lo % TWO_32) == f.zero { PowStaysZero(f, step, lo % TWO_32, i - lo); }
  }

  lemma StartInChunk(g: Geometry, work: nat, i: nat)
    requires g.Covers(work) && i < work
    ensures g.ChunkOf(i) < g.numChunks && g.ChunkStart(g.ChunkOf(i)) <= i
  {
    ChunkOfBound(g, work);
    ChunkRange(g, work, g.ChunkOf(i), i);
  }

  lemma StartOfChunk(g: Geometry, work: nat, c: nat)
    requires g.Covers(work) && c < g.numChunks
    ensures g.ChunkStart(c) < work && g.ChunkOf(g.ChunkStart(c)) == c
  {
    ChunkBounds(g, work, c);
    ChunkRange(g, work, c, g.ChunkStart(c));
  }

  /** At any size, the chunked table is the serial one exactly if every chunk start is harmless. */
  lemma SerialExactly<T(!new)>(f: Field<T>, first: T, step: T, g: Geometry, s: seq<T>)
    requires Lawful(f) && g.Covers(|s|) && Chunked(f, first, step, g, s)
    ensures Serial(f, first, step, s) <==> forall c :: 0 <= c < g.numChunks ==> StartHarmless(f, first, step, g.ChunkStart(c))
  {
    assert g.numChunks > 0 && g.ordinaryChunkSize > 0;
    hide Lawful, StartHarmless, Wrapped, Entry, Geometry.Covers, Geometry.ChunkOf, Geometry.ChunkStart;
    if Serial(f, first, step, s) {
      forall c | 0 <= c < g.numChunks
        ensures StartHarmless(f, first, step, g.ChunkStart(c))
      {
        StartOfChunk(g, |s|, c);
        ChunkExactly(f, first, step, g.ChunkStart(c), g.ChunkStart(c));
      }
    }
    if forall c :: 0 <= c < g.numChunks ==> StartHarmless(f, first, step, g.ChunkStart(c)) {
      forall i | 0 <= i < |s|
        ensures s[i] == Entry(f, first, step, i)
      {
        StartInChunk(g, |s|, i);
        ChunkExactly(f, first, step, g.ChunkStart(g.ChunkOf(i)), i);
      }
    }
  }

  lemma {:induction false} PowOneMultiple<T(!new)>(f: Field<T>, a: T, m: nat, q: nat)
    requires Lawful(f) && Pow(f, a, m) == f.one
    ensures Pow(f, a, m * q) == f.one
  {
    hide Lawful;
    if q > 0 {
      PowOneMultiple(f, a, m, q - 1);
      assert m * q == m * (q - 1) + m;
      PowAdd(f, a, m * (q - 1), m);
      OneMul(f, f.one);
    } else {
      assert m * q == 0;
    }
  }

  /** Every start below 2^32 is harmless, and every start at all if 2^32 steps make one. */
  lemma HarmlessStarts<T(!new)>(f: Field<T>, first: T, step: T, lo: nat)
    requires Lawful(f)
    ensures lo < TWO_32 || Pow(f, step, TWO_32) == f.one ==> StartHarmless(f, first, step, lo)
  {
    hide Lawful, Pow;
    PowZero(f, step);
    if Pow(f, step, TWO_32) == f.one {
      PowOneMultiple(f, step, TWO_32, lo / TWO_32);
      assert lo - lo % TWO_32 == TWO_32 * (lo / TWO_32);
    }
  }

  /** So up to 2^32 entries, and at every size if 2^32 steps make one, the chunked table is the serial one. */
  lemma SerialAtSize<T(!new)>(f: Field<T>, first: T, step: T, g: Geometry, s: seq<T>)
    requires Lawful(f) && g.Covers(|s|) && Chunked(f, first, step, g, s)
    requires |s| <= TWO_32 || Pow(f, step, TWO_32) == f.one
    ensures Serial(f, first, step, s)
  {
    hide Lawful, StartHarmless, Chunked, Serial, Pow, Geometry.Covers, Geometry.ChunkOf, Geometry.ChunkStart;
    forall c | 0 <= c < g.numChunks
      ensures StartHarmless(f, first, step, g.ChunkStart(c))
    {
      StartOfChunk(g, |s|, c);
      HarmlessStarts(f, first, step, g.ChunkStart(c));
    }
    SerialExactly(f, first, step, g, s);
  }

  lemma TwoPowersMeet(a: nat, b: nat, x: Residue, y: Residue)
    requires Pow(BaseField(), 2, a) == x && Pow(BaseField(), 2, b) == y
    ensures Pow(BaseField(), 2, a + b) == ResidueMul(x, y)
  {
    BaseFieldLawful();
    hide Lawful, Pow, ResidueMul, ResidueInv;
    PowAdd(BaseField(), 2, a, b);
  }

  /** In the base field 2 has order 31. */
  lemma TwoOrder()
    ensures Pow(BaseField(), 2, 4) == 16 && Pow(BaseField(), 2, 31) == 1
  {
    BaseFieldLawful();
    hide Pow, Lawful, ResidueInv;
    PowStart(BaseField(), 2);
    hide BaseField;
    TwoPowersMeet(1, 1, 2, 2);
    TwoPowersMeet(1, 2, 2, 4);
    TwoPowersMeet(2, 2, 4, 4);
    TwoPowersMeet(4, 3, 16, 8);
    TwoPowersMeet(4, 4, 16, 16);
    TwoPowersMeet(8, 8, 0x100, 0x100);
    TwoPowersMeet(16, 8, 0x1_0000, 0x100);
    TwoPowersMeet(24, 7, 0x100_0000, 0x80);
  }

  /** And 2^32 leaves 4 when divided by 31. */
  lemma TwoAtCut()
    ensures Pow(BaseField(), 2, TWO_32) == 16
  {
    BaseFieldLawful();
    TwoOrder();
    hide Lawful, Pow, ResidueInv;
    PowOneMultiple(BaseField(), 2, 31, 138547332);
    TwoPowersMeet(31 * 138547332, 4, 1, 16);
  }

  /** The table of 2^33 powers of two that two cores fill in the base field is not the serial one. */
  lemma NotSerial(g: Geometry, s: seq<Residue>)
    requires |s| == 2 * TWO_32 && g.Covers(|s|) && g.Even(|s|) && g.numChunks == 2 && Chunked(BaseField(), 1, 2, g, s)
    ensures !Serial(BaseField(), 1, 2, s)
  {
    hide Lawful, Pow, Chunked, Serial, BaseField, StartHarmless, Geometry.Covers, Geometry.Even;
    BaseFieldLawful();
    EvenStart(g, |s|);
    SerialExactly(BaseField(), 1, 2, g, s);
    CutHarms();
  }

  lemma EvenStart(g: Geometry, work: nat)
    requires work == 2 * TWO_32 && g.Even(work) && g.numChunks == 2
    ensures g.ChunkStart(1) == TWO_32
  {
  }

  lemma CutHarms()
    ensures !StartHarmless(BaseField(), 1, 2, TWO_32)
  {
    hide Pow, ResidueInv;
    TwoAtCut();
    PowZero(BaseField(), 2);
    assert TWO_32 % TWO_32 == 0;
  }

  /** With the unit as first element, or with the step itself, the chunked table is the serial one. */
  lemma ParallelIsSerial<T(!new)>(f: Field<T>, step: T, i: nat)
    requires Lawful(f)
    ensures Entry(f, f.one, step, i) == Pow(f, step, i)
    ensures Entry(f, step, step, i) == Pow(f, step, i + 1)
  {
    hide Lawful;
    OneMul(f, Pow(f, step, i));
    PowStep(f, step, i);
  }

  /** Scales element i, of the field itself or of an extension, by initial * step^i, in place. */
  method DistributePowers<T(!new), E>(f: Field<T>, scale: (E, T) -> E, input: array<E>, initial: T, step: T)
    requires Lawful(f)
    modifies input
    ensures forall i :: 0 <= i < input.Length ==> input[i] == scale(old(input[i]), Entry(f, initial, step, i))
  {
    hide Lawful, Entry;
    var shift := initial;
    EntryIs(f, initial, step, 0);
    PowStart(f, step);
    OneMul(f, initial);
    var idx := 0;
    while idx < input.Length
      invariant 0 <= idx <= input.Length && shift == Entry(f, initial, step, idx)
      invariant forall i :: 0 <= i < idx ==> input[i] == scale(old(input[i]), Entry(f, initial, step, i))
      invariant forall i :: idx <= i < input.Length ==> input[i] == old(input[i])
    {
      input[idx] := scale(input[idx], shift);
      EntryStep(f, initial, step, idx);
      shift := f.mul(shift, step);
      idx := idx + 1;
    }
  }
}
