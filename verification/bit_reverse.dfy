/**
  Reversal of the low bits of an index, and how it is computed from byte and bit tables.
 */
module BitReverse {
  import opened ModArith

  /** The low `k` bits of `i` in reverse order. */
  function Rev(k: nat, i: nat): (r: nat)
    ensures r < Exp2(k)
  {
    if k == 0 then 0 else (i % 2) * Exp2(k - 1) + Rev(k - 1, i / 2)
  }

  lemma HalveSum(i: nat, b: nat, h: nat)
    ensures (i + b * (2 * h)) % 2 == i % 2 && (i + b * (2 * h)) / 2 == i / 2 + b * h
  {
    assert i + b * (2 * h) == i + 2 * (b * h);
  }

  /** Two blocks change places and are reversed inside. */
  lemma {:induction false} RevConcat(a: nat, b: nat, lo: nat, hi: nat)
    requires lo < Exp2(a) && hi < Exp2(b)
    ensures Rev(a + b, lo + hi * Exp2(a)) == Rev(b, hi) + Rev(a, lo) * Exp2(b)
  {
    var n := lo + hi * Exp2(a);
    if a == 0 {
      assert lo == 0 && n == hi;
    } else {
      assert Exp2(a) == 2 * Exp2(a - 1);
      HalveSum(lo, hi, Exp2(a - 1));
      RevConcat(a - 1, b, lo / 2, hi);
      Exp2Adds(a - 1, b);
      Spread(lo % 2, Exp2(a - 1), Rev(a - 1, lo / 2), Exp2(b));
    }
  }

  lemma Spread(bit: nat, e: nat, r: nat, f: nat)
    ensures (bit * e + r) * f == bit * (e * f) + r * f
  {
    assert bit * e * f == bit * (e * f);
  }

  /** The last bit of the block becomes the first: the other end of the recursion. */
  lemma RevTop(k: nat, b: nat, i: nat)
    requires i < Exp2(k) && b < 2
    ensures Rev(k + 1, i + b * Exp2(k)) == 2 * Rev(k, i) + b
  {
    RevConcat(k, 1, i, b);
    RevBit(b);
  }

  lemma RevBit(b: nat)
    requires b < 2
    ensures Rev(1, b) == b && Exp2(1) == 2
  {
    assert Rev(0, b / 2) == 0 && Exp2(0) == 1;
  }

  /** Reversing twice gives the index back. */
  lemma {:induction false} RevInvolution(k: nat, i: nat)
    requires i < Exp2(k)
    ensures Rev(k, Rev(k, i)) == i
  {
    if k > 0 {
      RevInvolution(k - 1, i / 2);
      RevTop(k - 1, i % 2, Rev(k - 1, i / 2));
    }
  }

  /** Reversing in a wider word and shifting the surplus out. */
  lemma RevShift(k: nat, wide: nat, i: nat)
    requires k <= wide && i < Exp2(k)
    ensures Rev(wide, i) / Exp2(wide - k) == Rev(k, i)
  {
    var s := wide - k;
    RevConcat(k, s, i, 0);
    RevZero(s);
    assert Rev(wide, i) == Rev(k, i) * Exp2(s);
    DivModUnique(Rev(wide, i), Rev(k, i), 0, Exp2(s));
  }

  lemma {:induction false} RevZero(k: nat)
    ensures Rev(k, 0) == 0
  {
    if k > 0 { RevZero(k - 1); }
  }

  // ------------------------------------------------------------------ tables

  const TINY_BITS: nat := 3
  const SMALL_BITS: nat := 6
  const MEDIUM_BITS: nat := 8

  /** A lookup table built by reversing 64-bit words: entry i is the `k`-bit reversal of i. */
  method BuildTable(k: nat) returns (t: seq<nat>)
    requires k <= 8
    ensures |t| == Exp2(k) && forall i :: 0 <= i < |t| ==> t[i] == Rev(k, i)
  {
    t := [];
    var i := 0;
    while i < Exp2(k)
      invariant |t| == i <= Exp2(k)
      invariant forall j :: 0 <= j < i ==> t[j] == Rev(k, j)
    {
      RevShift(k, 64, i);
      t := t + [Rev(64, i) / Exp2(64 - k)];
      i := i + 1;
    }
  }

  // ------------------------------------------------------------- byte by byte

  /** The four bytes of a 32-bit word, most significant first: swapping, then little-endian. */
  function SwappedBytes(i: nat): (r: seq<nat>)
    ensures |r| == 4 && forall j :: 0 <= j < 4 ==> r[j] < 256
  {
    [(i / 0x100_0000) % 256, (i / 0x1_0000) % 256, (i / 256) % 256, i % 256]
  }

  function FromLeBytes(b: seq<nat>): nat
    requires |b| == 4
  {
    b[0] + 256 * b[1] + 0x1_0000 * b[2] + 0x100_0000 * b[3]
  }

  lemma PowersOf256()
    ensures Exp2(8) == 256 && Exp2(16) == 0x1_0000 && Exp2(24) == 0x100_0000 && Exp2(32) == 0x1_0000_0000
  {
    assert Exp2(4) == 16;
    Exp2Adds(4, 4);
    Exp2Adds(8, 8);
    Exp2Adds(16, 8);
    Exp2Adds(16, 16);
  }

  lemma SplitWord(i: nat)
    requires i < 0x1_0000_0000
    ensures var b := SwappedBytes(i); i == b[3] + (b[2] + (b[1] + b[0] * 256) * 256) * 256
  {
  }

  /** Reversing the order of the bytes and the bits of each byte reverses the word. */
  lemma ReverseByBytes(i: nat)
    requires i < 0x1_0000_0000
    ensures var b := SwappedBytes(i); Rev(32, i) == FromLeBytes([Rev(8, b[0]), Rev(8, b[1]), Rev(8, b[2]), Rev(8, b[3])])
  {
    var b := SwappedBytes(i);
    SplitWord(i);
    hide Rev;
    PrependByte16(b[1], b[0]);
    hide SwappedBytes;
    ReverseThreeBytes(b[1] + b[0] * 256, b[2], b[3]);
  }

  lemma ReverseThreeBytes(h: nat, b2: nat, b3: nat)
    requires h < 0x1_0000 && b2 < 256 && b3 < 256
    ensures Rev(32, b3 + (b2 + h * 256) * 256) == Rev(16, h) + 0x1_0000 * Rev(8, b2) + 0x100_0000 * Rev(8, b3)
  {
    hide Rev;
    PrependByte24(b2, h);
    PrependByte32(b3, b2 + h * 256);
  }

  lemma PrependByte16(lo: nat, hi: nat)
    requires lo < 256 && hi < 256
    ensures Rev(16, lo + hi * 256) == Rev(8, hi) + 256 * Rev(8, lo)
  {
    hide Rev, Exp2;
    PowersOf256();
    RevConcat(8, 8, lo, hi);
  }

  lemma PrependByte24(lo: nat, hi: nat)
    requires lo < 256 && hi < 0x1_0000
    ensures Rev(24, lo + hi * 256) == Rev(16, hi) + 0x1_0000 * Rev(8, lo)
  {
    hide Rev, Exp2;
    PowersOf256();
    RevConcat(8, 16, lo, hi);
  }

  lemma PrependByte32(lo: nat, hi: nat)
    requires lo < 256 && hi < 0x100_0000
    ensures Rev(32, lo + hi * 256) == Rev(24, hi) + 0x100_0000 * Rev(8, lo)
  {
    hide Rev, Exp2;
    PowersOf256();
    RevConcat(8, 24, lo, hi);
  }
}
