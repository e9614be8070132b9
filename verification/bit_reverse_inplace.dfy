/**
  The in-place bit-reversal permutations. Each swaps an index with its reversal from one side
  of the pair only; the order in which the indices are visited does not matter.
 */
module BitReverseInPlace {
  import opened ModArith
  import opened BitReverse

  /** The sequence with every element moved to the reversed index. */
  function Reversed<T>(k: nat, s: seq<T>): (r: seq<T>)
    requires |s| == Exp2(k)
    ensures |r| == |s|
  {
    seq(|s|, i requires 0 <= i < |s| => s[Rev(k, i)])
  }

  /** Reversing twice restores the sequence. */
  lemma ReversedTwice<T>(k: nat, s: seq<T>)
    requires |s| == Exp2(k)
    ensures Reversed(k, Reversed(k, s)) == s
  {
    forall i | 0 <= i < |s|
      ensures Reversed(k, Reversed(k, s))[i] == s[i]
    {
      RevInvolution(k, i);
    }
  }

  // ------------------------------------------------------------- visiting

  /** The index of the pair at which the swap happens: the smaller one, or the larger one. */
  function Leader(k: nat, low: bool, i: nat): nat {
    var j := Rev(k, i);
    if (i < j) == low then i else j
  }

  predicate Leads(k: nat, low: bool, i: nat) { if low then i < Rev(k, i) else Rev(k, i) < i }

  /** What visiting one index does. */
  function Visit<T>(k: nat, low: bool, s: seq<T>, i: nat): (r: seq<T>)
    requires |s| == Exp2(k) && i < |s|
    ensures |r| == |s|
  {
    if Leads(k, low, i) then s[i := s[Rev(k, i)]][Rev(k, i) := s[i]] else s
  }

  /** The pairs whose leader has been visited are swapped, the others are untouched. */
  ghost predicate Mixed<T>(k: nat, low: bool, was: seq<T>, s: seq<T>, visited: set<nat>) {
    && |was| == |s| == Exp2(k)
    && forall i :: 0 <= i < |s| ==> s[i] == if Leader(k, low, i) in visited then was[Rev(k, i)] else was[i]
  }

  lemma PairFacts(k: nat, low: bool, i: nat, j: nat)
    requires i < Exp2(k) && j < Exp2(k)
    ensures Rev(k, Rev(k, i)) == i
    ensures Leads(k, low, i) ==> (Leader(k, low, j) == i <==> j == i || j == Rev(k, i))
    ensures !Leads(k, low, i) && Leader(k, low, j) == i ==> Rev(k, j) == j
  {
    RevInvolution(k, i);
    RevInvolution(k, j);
  }

  /** Visiting a new index keeps the shape. */
  lemma VisitMixed<T>(k: nat, low: bool, was: seq<T>, s: seq<T>, visited: set<nat>, i: nat)
    requires Mixed(k, low, was, s, visited) && i < |s| && i !in visited
    ensures Mixed(k, low, was, Visit(k, low, s, i), visited + {i})
  {
    var t := Visit(k, low, s, i);
    forall j | 0 <= j < |t|
      ensures t[j] == if Leader(k, low, j) in visited + {i} then was[Rev(k, j)] else was[j]
    {
      PairFacts(k, low, i, j);
      PairFacts(k, low, i, Rev(k, i));
      PairFacts(k, low, i, i);
    }
  }

  lemma AllVisited<T>(k: nat, low: bool, was: seq<T>, s: seq<T>, visited: set<nat>)
    requires Mixed(k, low, was, s, visited) && forall i :: 0 <= i < Exp2(k) ==> i in visited
    ensures s == Reversed(k, was)
  {
    forall i | 0 <= i < |s|
      ensures s[i] == was[Rev(k, i)]
    {
      assert Leader(k, low, i) < Exp2(k);
    }
  }

  lemma NoneVisited<T>(k: nat, low: bool, was: seq<T>)
    requires |was| == Exp2(k)
    ensures Mixed(k, low, was, was, {})
  {
  }

  /** The swap on an array is the visit on its contents. */
  method VisitArray<T>(a: array<T>, ghost k: nat, ghost low: bool, i: nat, j: nat, swap: bool)
    requires a.Length == Exp2(k) && i < a.Length && j == Rev(k, i) && swap == Leads(k, low, i)
    modifies a
    ensures a[..] == Visit(k, low, old(a[..]), i)
  {
    if swap {
      a[i], a[j] := a[j], a[i];
    }
  }

  // ---------------------------------------------------------- table lookups

  /** For lengths up to the table size; the source has this once with the 64-entry table and once with the 256-entry one. */
  method ViaLookup<T>(a: array<T>, k: nat, tableBits: nat)
    requires a.Length == Exp2(k) && k <= tableBits <= MEDIUM_BITS
    modifies a
    ensures a[..] == Reversed(k, old(a[..]))
  {
    hide Leads, Visit, Rev, Exp2;
    var table := BuildTable(tableBits);
    TableLongEnough(k, tableBits);
    ghost var was, visited := a[..], {};
    NoneVisited(k, true, was);
    var i := 0;
    while i < a.Length
      invariant 0 <= i <= a.Length
      invariant forall d :: d in visited <==> 0 <= d < i
      invariant Mixed(k, true, was, a[..], visited)
    {
      var j := table[i] / Exp2(tableBits - k);
      RevShift(k, tableBits, i);
      LeadsLow(k, i);
      VisitMixed(k, true, was, a[..], visited, i);
      VisitArray(a, k, true, i, j, i < j);
      visited := visited + {i};
      i := i + 1;
    }
    AllVisited(k, true, was, a[..], visited);
  }

  lemma LeadsLow(k: nat, i: nat)
    ensures Leads(k, true, i) <==> i < Rev(k, i)
    ensures Leads(k, false, i) <==> Rev(k, i) < i
  {
  }

  lemma {:induction false} TableLongEnough(k: nat, m: nat)
    requires k <= m
    ensures Exp2(k) <= Exp2(m)
  {
    if k < m { TableLongEnough(k, m - 1); }
  }

  // ------------------------------------------------------------- two levels

  function ShiftDown(word: nat, bits: nat): nat {
    QuotientBound(word, Exp2(bits));
    word / Exp2(bits)
  }

  /** Each byte through the table; the first one is simply cleared when the index is known to be short. */
  function LookupBytes(table: seq<nat>, b: seq<nat>, topZero: bool): (r: seq<nat>)
    requires |table| == 256 && |b| == 4 && forall j :: 0 <= j < 4 ==> b[j] < 256
    ensures |r| == 4
  {
    [if topZero then 0 else table[b[0]], table[b[1]], table[b[2]], table[b[3]]]
  }

  predicate MediumTable(table: seq<nat>) { |table| == 256 && forall d :: 0 <= d < 256 ==> table[d] == Rev(MEDIUM_BITS, d) }

  lemma ShortIndex(i: nat)
    requires i < 0x100_0000
    ensures SwappedBytes(i)[0] == 0
  {
  }

  lemma LookupWord(table: seq<nat>, i: nat, topZero: bool)
    requires MediumTable(table) && i < 0x1_0000_0000 && (topZero ==> i < 0x100_0000)
    ensures FromLeBytes(LookupBytes(table, SwappedBytes(i), topZero)) == Rev(32, i)
  {
    ReverseByBytes(i);
    RevZero(8);
    if topZero { ShortIndex(i); }
    hide Rev, SwappedBytes, FromLeBytes;
    var b := SwappedBytes(i);
    assert LookupBytes(table, b, topZero) == [Rev(8, b[0]), Rev(8, b[1]), Rev(8, b[2]), Rev(8, b[3])];
  }

  /** Reversal byte by byte through the 256-entry table. */
  method ReverseIndex(table: seq<nat>, i: nat, bits: nat, topZero: bool) returns (r: nat)
    requires MediumTable(table) && bits <= 32 && i < Exp2(bits) && (topZero ==> i < 0x100_0000)
    ensures r == Rev(bits, i)
  {
    WordBound(bits, i);
    LookupWord(table, i, topZero);
    RevShift(bits, 32, i);
    hide Rev, SwappedBytes, FromLeBytes, LookupBytes, Exp2;
    r := ShiftDown(FromLeBytes(LookupBytes(table, SwappedBytes(i), topZero)), 32 - bits);
  }

  lemma WordBound(bits: nat, i: nat)
    requires bits <= 32 && i < Exp2(bits)
    ensures i < 0x1_0000_0000
  {
    TableLongEnough(bits, 32);
    PowersOf256();
  }

  /** Low bits `i`, high bits `j`: bitwise or of numbers that share no bit. */
  function Joined(i: nat, j: nat, bits: nat): nat
    requires i < Exp2(bits)
  {
    i + j * Exp2(bits)
  }

  function LowPart(d: nat, bits: nat): nat { d % Exp2(bits) }
  function HighPart(d: nat, bits: nat): nat { ShiftDown(d, bits) }

  lemma BlockBound(i: nat, j: nat, e: nat, h: nat)
    requires i < e && j < h
    ensures i + j * e < e * h
  {
    var g := h - j - 1;
    assert g * e >= 0;
    assert e * h == e * (g + j + 1);
    assert e * (g + j + 1) == g * e + j * e + e;
  }

  lemma BlockSplit(d: nat, e: nat, h: nat)
    requires e > 0 && d < e * h
    ensures d == d % e + (d / e) * e && 0 <= d / e < h
  {
    var q := d / e;
    assert d == q * e + d % e;
    Scale(h, q, e);
    Scale(q, -1, e);
  }

  /** Joining and taking apart are inverse, within `bits + high` bits. */
  lemma JoinedParts(i: nat, j: nat, bits: nat, high: nat)
    requires i < Exp2(bits) && j < Exp2(high)
    ensures LowPart(Joined(i, j, bits), bits) == i && HighPart(Joined(i, j, bits), bits) == j
    ensures Joined(i, j, bits) < Exp2(bits + high)
  {
    DivModUnique(i + j * Exp2(bits), j, i, Exp2(bits));
    Exp2Adds(bits, high);
    BlockBound(i, j, Exp2(bits), Exp2(high));
  }

  lemma PartsJoined(d: nat, bits: nat, high: nat)
    requires d < Exp2(bits + high)
    ensures LowPart(d, bits) < Exp2(bits) && HighPart(d, bits) < Exp2(high)
    ensures d == Joined(LowPart(d, bits), HighPart(d, bits), bits)
  {
    Exp2Adds(bits, high);
    BlockSplit(d, Exp2(bits), Exp2(high));
  }

  /** A counter over the low bits, and inside it the eight values of the three high bits. */
  method Optimized<T>(a: array<T>, k: nat)
    requires a.Length == Exp2(k) && 9 <= k <= 27
    modifies a
    ensures a[..] == Reversed(k, old(a[..]))
  {
    hide Leads, Visit, Rev, Exp2, Joined, LowPart, HighPart, Mixed, Reversed;
    var tiny := BuildTable(TINY_BITS);
    var medium := BuildTable(MEDIUM_BITS);
    PowersOf256();
    TinySize();
    var common := k - TINY_BITS;
    TableLongEnough(common, 24);
    ghost var was, visited := a[..], {};
    NoneVisited(k, true, was);
    var i := 0;
    while i < Exp2(common)
      invariant 0 <= i <= Exp2(common)
      invariant forall d :: d in visited <==> 0 <= d < Exp2(k) && LowPart(d, common) < i
      invariant Mixed(k, true, was, a[..], visited)
    {
      var reversedI := ReverseIndex(medium, i, common, true);
      var j := 0;
      while j < |tiny|
        invariant 0 <= j <= |tiny|
        invariant forall d :: d in visited <==>
          0 <= d < Exp2(k) && (LowPart(d, common) < i || (LowPart(d, common) == i && HighPart(d, common) < j))
        invariant Mixed(k, true, was, a[..], visited)
      {
        var dst := Joined(i, j, common);
        var src := Joined(tiny[j], reversedI, TINY_BITS);
        JoinedReversed(k, i, j);
        JoinedParts(i, j, common, TINY_BITS);
        LeadsLow(k, dst);
        VisitMixed(k, true, was, a[..], visited, dst);
        VisitArray(a, k, true, dst, src, dst < src);
        forall d | 0 <= d < Exp2(k)
          ensures LowPart(d, common) == i && HighPart(d, common) == j ==> d == dst
        {
          PartsJoined(d, common, TINY_BITS);
        }
        visited := visited + {dst};
        j := j + 1;
      }
      forall d | 0 <= d < Exp2(k)
        ensures HighPart(d, common) < |tiny|
      {
        PartsJoined(d, common, TINY_BITS);
      }
      i := i + 1;
    }
    forall d | 0 <= d < Exp2(k)
      ensures d in visited
    {
      PartsJoined(d, common, TINY_BITS);
    }
    AllVisited(k, true, was, a[..], visited);
  }

  lemma TinySize()
    ensures Exp2(TINY_BITS) == 8
  {
    assert Exp2(1) == 2 && Exp2(2) == 4;
  }

  lemma JoinedReversed(k: nat, i: nat, j: nat)
    requires k >= TINY_BITS && i < Exp2(k - TINY_BITS) && j < Exp2(TINY_BITS)
    ensures Joined(i, j, k - TINY_BITS) < Exp2(k)
    ensures Rev(k, Joined(i, j, k - TINY_BITS)) == Joined(Rev(TINY_BITS, j), Rev(k - TINY_BITS, i), TINY_BITS)
  {
    JoinedParts(i, j, k - TINY_BITS, TINY_BITS);
    RevConcat(k - TINY_BITS, TINY_BITS, i, j);
  }

  // ------------------------------------------------------------------ simple

  /** Whole index through the byte table; here the larger index of a pair does the swap. */
  method Simple<T>(a: array<T>, k: nat)
    requires a.Length == Exp2(k) && 9 <= k <= 31
    modifies a
    ensures a[..] == Reversed(k, old(a[..]))
  {
    hide Leads, Visit, Rev, Exp2, Mixed, Reversed;
    var medium := BuildTable(MEDIUM_BITS);
    PowersOf256();
    ghost var was, visited := a[..], {};
    NoneVisited(k, false, was);
    var i := 0;
    while i < a.Length
      invariant 0 <= i <= a.Length
      invariant forall d :: d in visited <==> 0 <= d < i
      invariant Mixed(k, false, was, a[..], visited)
    {
      var j := ReverseIndex(medium, i, k, false);
      LeadsLow(k, i);
      VisitMixed(k, false, was, a[..], visited, i);
      VisitArray(a, k, false, i, j, j < i);
      visited := visited + {i};
      i := i + 1;
    }
    AllVisited(k, false, was, a[..], visited);
  }

  // -------------------------------------------------------------- dispatch

  function TrailingZeros(n: nat): nat
    requires n > 0
  {
    if n % 2 == 1 then 0 else 1 + TrailingZeros(n / 2)
  }

  lemma {:induction false} PowerOfTwoValue(n: nat)
    requires IsPowerOfTwo(n)
    ensures n == Exp2(TrailingZeros(n))
  {
    if n > 1 { PowerOfTwoValue(n / 2); }
  }

  /**
    Empty input is left alone. Otherwise the length must be a power of two, and one above 2^31
    fails the bound check of the last variant; every accepted input is bit-reversed.
   */
  method BitReverseEnumeration<T>(a: array<T>) returns (ok: bool)
    modifies a
    ensures ok <==> a.Length == 0 || (IsPowerOfTwo(a.Length) && a.Length <= 0x8000_0000)
    ensures ok && a.Length > 0 ==> a.Length == Exp2(TrailingZeros(a.Length)) && a[..] == Reversed(TrailingZeros(a.Length), old(a[..]))
    ensures !ok || a.Length == 0 ==> a[..] == old(a[..])
  {
    hide Exp2, Reversed;
    if a.Length == 0 { return true; }
    if !IsPowerOfTwo(a.Length) { return false; }
    var k := TrailingZeros(a.Length);
    PowerOfTwoValue(a.Length);
    Thresholds(k);
    if a.Length <= Exp2(SMALL_BITS) {
      ViaLookup(a, k, SMALL_BITS);
    } else if a.Length <= Exp2(MEDIUM_BITS) {
      ViaLookup(a, k, MEDIUM_BITS);
    } else if a.Length <= 0x800_0000 {
      Optimized(a, k);
    } else {
      if a.Length > 0x8000_0000 { return false; }
      Simple(a, k);
    }
    ok := true;
  }

  lemma Thresholds(k: nat)
    ensures Exp2(SMALL_BITS) == 64 && Exp2(MEDIUM_BITS) == 256
    ensures Exp2(k) <= 64 <==> k <= 6
    ensures Exp2(k) <= 256 <==> k <= 8
    ensures Exp2(k) <= 0x800_0000 <==> k <= 27
    ensures Exp2(k) <= 0x8000_0000 <==> k <= 31
  {
    PowersOf256();
    TinySize();
    Exp2Adds(3, 3);
    Exp2Adds(24, 3);
    Exp2Adds(27, 4);
    assert Exp2(4) == 16;
    Threshold(k, 6);
    Threshold(k, 8);
    Threshold(k, 27);
    Threshold(k, 31);
  }

  lemma Threshold(k: nat, m: nat)
    ensures Exp2(k) <= Exp2(m) <==> k <= m
  {
    if k <= m {
      TableLongEnough(k, m);
    } else {
      TableLongEnough(m, k - 1);
      assert Exp2(k) == 2 * Exp2(k - 1);
    }
  }

  // ------------------------------------------------------------------- index

  /** Shifts the index to the top of a 64-bit word and reverses the word; a zero width would shift by the word size. */
  function BitReverseIndex(index: nat, numBits: nat): nat
    requires 1 <= numBits <= 64
  {
    Rev(64, (index * Exp2(64 - numBits)) % Exp2(64))
  }

  /** It is the reversal of the low bits, whatever lies above them. */
  lemma BitReverseIndexIsRev(index: nat, numBits: nat)
    requires 1 <= numBits <= 64
    ensures BitReverseIndex(index, numBits) == Rev(numBits, index % Exp2(numBits))
  {
    var e, s := Exp2(numBits), Exp2(64 - numBits);
    assert Exp2(64) == e * s by { Exp2Adds(numBits, 64 - numBits); }
    ShiftedWord(index, e, s);
    ReverseShifted(numBits, index % e);
  }

  lemma ReverseShifted(numBits: nat, lo: nat)
    requires numBits <= 64 && lo < Exp2(numBits)
    ensures Rev(64, lo * Exp2(64 - numBits)) == Rev(numBits, lo)
  {
    RevConcat(64 - numBits, numBits, 0, lo);
    RevZero(64 - numBits);
  }

  lemma ShiftedWord(index: nat, e: nat, s: nat)
    requires e > 0 && s > 0
    ensures (index * s) % (e * s) == (index % e) * s
  {
    var q, r := index / e, index % e;
    assert index == q * e + r;
    assert index * s == q * (e * s) + r * s by { assert (q * e) * s == q * (e * s); }
    assert 0 <= r * s < e * s by {
      assert (e - r) * s > 0;
      assert (e - r) * s == e * s - r * s;
    }
    DivModUnique(index * s, q, r * s, e * s);
  }
}
