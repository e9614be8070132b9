/**
  Shifts by lookup: each 16-bit half is shifted inside a 32-bit window by a table, the parts that
  leave one half are added to the other, and a second table fills the sign bits.
 */
module ShiftTables {
  import opened ModArith
  import opened Rv32m

  const HALFWORD: int := 0x1_0000

  // ---------------------------------------------------------------- the tables

  /** Key: half-word, then five bits of shift amount, then the direction; result: the part that stays and the part that leaves. */
  function ShiftEntry(key: int): (int, int)
    requires 0 <= key
  {
    var word, amount, right := key % HALFWORD, key / HALFWORD % 32, key / 0x20_0000 > 0;
    if right then
      var t := word * HALFWORD / Exp2(amount);
      (t / HALFWORD % HALFWORD, t % HALFWORD)
    else
      var t := word * Exp2(amount) % WORD;
      (t % HALFWORD, t / HALFWORD % HALFWORD)
  }

  /** Key: sign, arithmetic flag, shift amount; result: the halves of the mask of copied sign bits. */
  function SraFiller(key: int): (int, int)
    requires 0 <= key < 0x80
  {
    var sign, sra, amount := key % 2 > 0, key / 2 % 2 > 0, key / 4;
    if !sign || !sra || amount == 0 then (0, 0)
    else
      var mask := 0xffff_ffff * Exp2(32 - amount) % WORD;
      (mask % HALFWORD, mask / HALFWORD % HALFWORD)
  }

  function LowerFiveBits(key: int): int { key % 32 }

  // ------------------------------------------------------------- the instructions

  /** Section 2.4 of the RISC-V unprivileged specification: logical left, logical right, arithmetic right. */
  function ShiftLeft(x: int, s: nat): int { x * Exp2(s) % WORD }
  function ShiftRight(x: int, s: nat): int { x / Exp2(s) }
  function ShiftArithmetic(x: int, s: nat): int { (Signed(x) / Exp2(s)) % WORD }

  // ------------------------------------------------------------- arithmetic

  /** A half-word cut at a bit position: c * d is 2^16. */
  lemma Cut(w: int, c: int, d: int) returns (q: int, r: int)
    requires 0 <= w < HALFWORD && c > 0 && d > 0 && c * d == HALFWORD
    ensures w == q * c + r && 0 <= r < c && 0 <= q < d
    ensures w * d == q * HALFWORD + r * d && 0 <= r * d <= HALFWORD - d
  {
    q, r := w / c, w % c;
    assert w == q * c + r;
    Scale(d, q, c);
    Scale(q, -1, c);
    Scale(0, r, d);
    Scale(r, c - 1, d);
    assert (c - 1) * d == c * d - d && d * c == c * d;
    assert w * d == (q * c) * d + r * d by { assert (q * c + r) * d == (q * c) * d + r * d; }
    assert (q * c) * d == q * (c * d);
  }

  lemma Complement(s: nat)
    requires s <= 16
    ensures Exp2(16 - s) * Exp2(s) == HALFWORD
  {
    Exp2Adds(16 - s, s);
    assert Exp2(4) == 16;
    Exp2Adds(4, 4);
    Exp2Adds(8, 8);
  }

  lemma Above16(s: nat)
    requires 16 <= s
    ensures Exp2(s) == HALFWORD * Exp2(s - 16)
  {
    Exp2Adds(16, s - 16);
    Complement(0);
  }

  predicate Halves(lo: int, hi: int, v: int) { 0 <= lo < HALFWORD && 0 <= hi < HALFWORD && lo + HALFWORD * hi == v }

  lemma HalvesUnique(t: int, lo: int, hi: int)
    requires Halves(lo, hi, t)
    ensures t % HALFWORD == lo && t / HALFWORD % HALFWORD == hi && t / HALFWORD == hi && t < WORD
  {
    DivModUnique(t, hi, lo, HALFWORD);
    DivModUnique(hi, 0, hi, HALFWORD);
  }

  // ------------------------------------------------------------------- left

  function LeftEntry(w: int, s: nat): (int, int) {
    var t := w * Exp2(s) % WORD;
    (t % HALFWORD, t / HALFWORD % HALFWORD)
  }

  /** What stays and what leaves, for a shift inside the half-word. */
  lemma LeftShort(w: int, s: nat, c: int, d: int, q: int, r: int)
    requires s <= 16 && d == Exp2(s) && d > 0 && 0 <= q < HALFWORD && 0 <= r * d <= HALFWORD - d
    requires w * d == q * HALFWORD + r * d
    ensures LeftEntry(w, s) == (r * d, q)
  {
    HalvesUnique(w * d, r * d, q);
    DivModUnique(w * d, 0, w * d, WORD);
  }

  /** Past the half-word everything leaves. */
  lemma LeftLong(w: int, s: nat, d: int, q: int, r: int)
    requires 16 < s && d == Exp2(s - 16) && d > 0 && 0 <= r * d <= HALFWORD - d
    requires w * d == q * HALFWORD + r * d
    ensures LeftEntry(w, s) == (0, r * d)
  {
    Above16(s);
    var v := r * d;
    assert w * Exp2(s) == HALFWORD * (w * d) by { assert w * (HALFWORD * d) == HALFWORD * (w * d); }
    assert HALFWORD * (q * HALFWORD + v) == q * WORD + HALFWORD * v;
    DivModUnique(w * Exp2(s), q, HALFWORD * v, WORD);
    HalvesUnique(HALFWORD * v, 0, v);
  }

  /** The two halves never carry into each other, and make up the left shift. */
  lemma LeftCorrect(lo: int, hi: int, s: nat)
    requires 0 <= lo < HALFWORD && 0 <= hi < HALFWORD && s < 32
    ensures Halves(LeftEntry(lo, s).0, LeftEntry(hi, s).0 + LeftEntry(lo, s).1, ShiftLeft(lo + HALFWORD * hi, s))
  {
    if s <= 16 { LeftCorrectShort(lo, hi, s); } else { LeftCorrectLong(lo, hi, s); }
  }

  lemma SplitProduct(lo: int, hi: int, d: int)
    ensures (lo + HALFWORD * hi) * d == lo * d + HALFWORD * (hi * d)
  {
    assert (lo + HALFWORD * hi) * d == lo * d + (HALFWORD * hi) * d;
    assert (HALFWORD * hi) * d == HALFWORD * (hi * d);
  }

  /** Residue of a sum of weighted halves modulo 2^32. */
  lemma JoinShort(xd: int, ld: int, hd: int, ql: int, a: int, qh: int, b: int)
    requires xd == ld + HALFWORD * hd && ld == ql * HALFWORD + a && hd == qh * HALFWORD + b
    requires 0 <= a < HALFWORD && 0 <= ql + b < HALFWORD
    ensures Halves(a, b + ql, xd % WORD)
  {
    DivModUnique(xd, qh, a + HALFWORD * (ql + b), WORD);
  }

  lemma LeftCorrectShort(lo: int, hi: int, s: nat)
    requires 0 <= lo < HALFWORD && 0 <= hi < HALFWORD && s <= 16
    ensures Halves(LeftEntry(lo, s).0, LeftEntry(hi, s).0 + LeftEntry(lo, s).1, ShiftLeft(lo + HALFWORD * hi, s))
  {
    var c, d := Exp2(16 - s), Exp2(s);
    hide LeftEntry, Exp2;
    Complement(s);
    var ql, rl := Cut(lo, c, d);
    var qh, rh := Cut(hi, c, d);
    assert d <= HALFWORD by { Scale(1, c, d); }
    LeftShort(lo, s, c, d, ql, rl);
    LeftShort(hi, s, c, d, qh, rh);
    SplitProduct(lo, hi, d);
    JoinShort((lo + HALFWORD * hi) * d, lo * d, hi * d, ql, rl * d, qh, rh * d);
  }

  lemma JoinLong(xs: int, ld: int, hd: int, q: int, a: int)
    requires xs == HALFWORD * (ld + HALFWORD * hd) && ld == q * HALFWORD + a && 0 <= a < HALFWORD
    ensures Halves(0, a, xs % WORD)
  {
    DivModUnique(xs, q + hd, HALFWORD * a, WORD);
  }

  lemma PullOut(x: int, d: int)
    ensures x * (HALFWORD * d) == HALFWORD * (x * d)
  {
  }

  lemma LeftCorrectLong(lo: int, hi: int, s: nat)
    requires 0 <= lo < HALFWORD && 0 <= hi < HALFWORD && 16 < s < 32
    ensures Halves(LeftEntry(lo, s).0, LeftEntry(hi, s).0 + LeftEntry(lo, s).1, ShiftLeft(lo + HALFWORD * hi, s))
  {
    var c, d, x := Exp2(32 - s), Exp2(s - 16), lo + HALFWORD * hi;
    hide LeftEntry, Exp2;
    Complement(s - 16);
    Above16(s);
    var ql, rl := Cut(lo, c, d);
    var qh, rh := Cut(hi, c, d);
    LeftLong(lo, s, d, ql, rl);
    LeftLong(hi, s, d, qh, rh);
    SplitProduct(lo, hi, d);
    PullOut(x, d);
    JoinLong(x * (HALFWORD * d), lo * d, hi * d, ql, rl * d);
  }

  // ------------------------------------------------------------------- right

  function RightEntry(w: int, s: nat): (int, int) {
    var t := w * HALFWORD / Exp2(s);
    (t / HALFWORD % HALFWORD, t % HALFWORD)
  }

  lemma RightShort(w: int, s: nat, c: int, d: int, q: int, r: int)
    requires s <= 16 && d == Exp2(s) && d > 0 && c * d == HALFWORD
    requires w == q * d + r && 0 <= q < HALFWORD && 0 <= r * c <= HALFWORD - c && c > 0
    ensures RightEntry(w, s) == (q, r * c)
  {
    RegroupRight(w, c, d, q, r);
    var wc, rc := w * c, r * c;
    DivModUnique(w * HALFWORD, wc, 0, d);
    HalvesUnique(wc, rc, q);
  }

  lemma RegroupRight(w: int, c: int, d: int, q: int, r: int)
    requires c * d == HALFWORD && w == q * d + r
    ensures w * HALFWORD == (w * c) * d && w * c == q * HALFWORD + r * c
  {
    assert w * (c * d) == (w * c) * d;
    assert (q * d + r) * c == (q * d) * c + r * c;
    assert (q * d) * c == q * (c * d);
  }

  lemma RightLong(w: int, s: nat, d: int, q: int, r: int)
    requires 16 < s && d == Exp2(s - 16) && w == q * d + r && 0 <= r < d && 0 <= q < HALFWORD
    ensures RightEntry(w, s) == (0, q)
  {
    Above16(s);
    assert w * HALFWORD == q * (HALFWORD * d) + HALFWORD * r by {
      assert (q * d + r) * HALFWORD == (q * d) * HALFWORD + r * HALFWORD;
      assert (q * d) * HALFWORD == q * (HALFWORD * d);
    }
    assert 0 <= HALFWORD * r < HALFWORD * d;
    DivModUnique(w * HALFWORD, q, HALFWORD * r, HALFWORD * d);
    HalvesUnique(q, q, 0);
  }

  lemma RightCorrect(lo: int, hi: int, s: nat)
    requires 0 <= lo < HALFWORD && 0 <= hi < HALFWORD && s < 32
    ensures Halves(RightEntry(lo, s).0 + RightEntry(hi, s).1, RightEntry(hi, s).0, ShiftRight(lo + HALFWORD * hi, s))
  {
    if s <= 16 { RightCorrectShort(lo, hi, s); } else { RightCorrectLong(lo, hi, s); }
  }

  lemma RightCorrectShort(lo: int, hi: int, s: nat)
    requires 0 <= lo < HALFWORD && 0 <= hi < HALFWORD && s <= 16
    ensures Halves(RightEntry(lo, s).0 + RightEntry(hi, s).1, RightEntry(hi, s).0, ShiftRight(lo + HALFWORD * hi, s))
  {
    var c, d, x := Exp2(16 - s), Exp2(s), lo + HALFWORD * hi;
    hide RightEntry, Exp2;
    Complement(s);
    assert d * c == HALFWORD by { assert d * c == c * d; }
    var ql, rl := Cut(lo, d, c);
    var qh, rh := Cut(hi, d, c);
    assert c <= HALFWORD by { Scale(1, d, c); }
    RightShort(lo, s, c, d, ql, rl);
    RightShort(hi, s, c, d, qh, rh);
    var b := rh * c;
    assert x == (ql + HALFWORD * qh + b) * d + rl by { RightSum(lo, hi, c, d, ql, rl, qh, rh); }
    DivModUnique(x, ql + HALFWORD * qh + b, rl, d);
  }

  lemma RightSum(lo: int, hi: int, c: int, d: int, ql: int, rl: int, qh: int, rh: int)
    requires c * d == HALFWORD && lo == ql * d + rl && hi == qh * d + rh
    ensures lo + HALFWORD * hi == (ql + HALFWORD * qh + rh * c) * d + rl
  {
    assert (ql + HALFWORD * qh + rh * c) * d == ql * d + (HALFWORD * qh) * d + (rh * c) * d;
    assert (HALFWORD * qh) * d == HALFWORD * (qh * d);
    assert (rh * c) * d == rh * (c * d);
  }

  lemma RightCorrectLong(lo: int, hi: int, s: nat)
    requires 0 <= lo < HALFWORD && 0 <= hi < HALFWORD && 16 < s < 32
    ensures Halves(RightEntry(lo, s).0 + RightEntry(hi, s).1, RightEntry(hi, s).0, ShiftRight(lo + HALFWORD * hi, s))
  {
    var c, d, x := Exp2(32 - s), Exp2(s - 16), lo + HALFWORD * hi;
    hide RightEntry, Exp2;
    Complement(s - 16);
    Above16(s);
    assert d * c == HALFWORD by { assert d * c == c * d; }
    var ql, rl := Cut(lo, d, c);
    var qh, rh := Cut(hi, d, c);
    assert c <= HALFWORD by { Scale(1, d, c); }
    RightLong(lo, s, d, ql, rl);
    RightLong(hi, s, d, qh, rh);
    PullOut(qh, d);
    var e := HALFWORD * d;
    assert x == qh * e + (HALFWORD * rh + lo);
    DivModUnique(x, qh, HALFWORD * rh + lo, e);
  }

  // -------------------------------------------------------------- arithmetic right

  /** The mask has the top `s` bits set. */
  lemma FillerMask(s: nat)
    requires 1 <= s < 32
    ensures 0xffff_ffff * Exp2(32 - s) % WORD == WORD - Exp2(32 - s)
    ensures Exp2(s) * Exp2(32 - s) == WORD && Exp2(32 - s) < WORD
  {
    var e := Exp2(32 - s);
    assert Exp2(s) * e == WORD by { Exp2Adds(s, 32 - s); Exp2At32(); }
    assert e < WORD by { Scale(2, Exp2(s), e); }
    hide Exp2;
    DivModUnique(0xffff_ffff * e, e - 1, WORD - e, WORD);
  }

  /** Adding the mask to a logical right shift of a negative word gives the arithmetic one. */
  lemma ArithmeticFromLogical(x: int, s: nat)
    requires HALF <= x < WORD && 1 <= s < 32
    ensures ShiftArithmetic(x, s) == ShiftRight(x, s) + (WORD - Exp2(32 - s))
    ensures 0 <= ShiftRight(x, s) < Exp2(32 - s)
  {
    var d, e := Exp2(s), Exp2(32 - s);
    FillerMask(s);
    hide Exp2;
    var q, r := x / d, x % d;
    assert x == q * d + r;
    assert x - WORD == (q - e) * d + r by { assert (q - e) * d == q * d - e * d; assert e * d == d * e; }
    DivModUnique(x - WORD, q - e, r, d);
    Scale(e, q, d);
    Scale(q, -1, d);
    DivModUnique(q - e, -1, q - e + WORD, WORD);
  }
}
