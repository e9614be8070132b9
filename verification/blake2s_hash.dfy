/**
  The streaming hasher: an eight-word state, a sixteen-word buffer and a byte counter, updated in
  place, against the unkeyed 32-byte hash of section 3.3 of RFC 7693.
 */
module Blake2sHash {
  import opened ModArith
  import opened Blake2sSpec

  // --------------------------------------------------------------- the standard

  lemma XorZero(a: Word)
    ensures Xor(0, a) == a
  {
  }

  /** Word i of the work vector of section 3.2: the counter goes into words 12 and 13, the final flag into word 14. */
  function WorkAt(h: State, t: nat, last: bool, i: Index): Word
    requires t < TWO_32 * TWO_32
  {
    if i < 8 then h[i]
    else if i == 12 then Xor((t % TWO_32) as Word, IV[4])
    else if i == 13 then Xor((t / TWO_32) as Word, IV[5])
    else if i == 14 && last then Xor(0xffff_ffff, IV[6])
    else IV[i - 8]
  }

  function WorkVector(h: State, t: nat, last: bool): Work
    requires t < TWO_32 * TWO_32
  {
    seq(16, i requires 0 <= i < 16 => WorkAt(h, t, last, i))
  }

  function Folded(h: State, v: Work): State {
    seq(8, i requires 0 <= i < 8 => Xor(Xor(h[i], v[i]), v[i + 8]))
  }

  /** The compression function F. */
  function Compress(rounds: nat, h: State, m: Work, t: nat, last: bool): State
    requires t < TWO_32 * TWO_32
  {
    Folded(h, Rounds(WorkVector(h, t, last), m, rounds))
  }

  /** Block k of a message, padded with zero words past its end. */
  function Block(message: seq<Word>, k: nat): Work {
    seq(16, i requires 0 <= i < 16 => if 16 * k + i < |message| then message[16 * k + i] else 0)
  }

  /** The state after the first `k` blocks. */
  ghost function AfterBlocks(rounds: nat, message: seq<Word>, k: nat): State
    requires 64 * k < TWO_32
    decreases k
  {
    if k == 0 then ConfiguredIv()
    else Compress(rounds, AfterBlocks(rounds, message, k - 1), Block(message, k - 1), 64 * k, false)
  }

  /** How many blocks come before the final one, which is empty only for the empty message. */
  function FullBlocks(bytes: nat): (k: nat)
    ensures if bytes == 0 then k == 0 else 64 * k < bytes <= 64 * k + 64
  {
    if bytes == 0 then 0 else (bytes - 1) / 64
  }

  /** Section 3.3, without a key: every block but the final one, then that one with the length and the flag. */
  ghost function Digest(rounds: nat, message: seq<Word>, bytes: nat): State
    requires bytes < TWO_32
  {
    var k := FullBlocks(bytes);
    Compress(rounds, AfterBlocks(rounds, message, k), Block(message, k), bytes, true)
  }

  // ------------------------------------------------------------------ in place

  method G(v: array<Word>, a: Index, b: Index, c: Index, d: Index, x: Word, y: Word)
    requires v.Length == 16 && Different(a, b, c, d)
    modifies v
    ensures v[..] == MixAt(old(v[..]), a, b, c, d, x, y)
  {
    hide Add, Xor, RotateRight, Put, HalfMix;
    ghost var q := Get(v[..], a, b, c, d);
    v[a] := Add(Add(v[a], v[b]), x);
    v[d] := RotateRight(Xor(v[d], v[a]), 16);
    v[c] := Add(v[c], v[d]);
    v[b] := RotateRight(Xor(v[b], v[c]), 12);
    ghost var half := Quad(v[a], v[b], v[c], v[d]);
    assert half == HalfMix(q, x, 16, 12) by { HalfIs(q, x, 16, 12); }
    v[a] := Add(Add(v[a], v[b]), y);
    v[d] := RotateRight(Xor(v[d], v[a]), 8);
    v[c] := Add(v[c], v[d]);
    v[b] := RotateRight(Xor(v[b], v[c]), 7);
    assert Quad(v[a], v[b], v[c], v[d]) == HalfMix(half, y, 8, 7) by { HalfIs(half, y, 8, 7); }
    IsPut(old(v[..]), a, b, c, d, Mix(q, x, y), v[..]);
  }

  lemma HalfIs(q: Quad, x: Word, r: Distance, s: Distance)
    ensures var h := HalfMix(q, x, r, s);
      && h.a == Add(Add(q.a, q.b), x) && h.d == RotateRight(Xor(q.d, h.a), r)
      && h.c == Add(q.c, h.d) && h.b == RotateRight(Xor(q.b, h.c), s)
  {
  }

  /** A vector that differs in the four words only. */
  lemma IsPut(v: Work, a: Index, b: Index, c: Index, d: Index, q: Quad, w: Work)
    requires Different(a, b, c, d) && Get(w, a, b, c, d) == q
    requires forall i :: 0 <= i < 16 && i != a && i != b && i != c && i != d ==> w[i] == v[i]
    ensures w == Put(v, a, b, c, d, q)
  {
  }

  /** Columns and diagonals. */
  method MixingFunction(v: array<Word>, m: Work, sigma: seq<Index>)
    requires v.Length == 16 && |sigma| == 16
    modifies v
    ensures v[..] == Mixings(old(v[..]), m, sigma, 8)
  {
    hide MixAt, Mixings;
    ghost var was: Work := v[..];
    MixingsStep(was, m, sigma, 0);
    G(v, 0, 4, 8, 12, m[sigma[0]], m[sigma[1]]);
    MixingsStep(was, m, sigma, 1);
    G(v, 1, 5, 9, 13, m[sigma[2]], m[sigma[3]]);
    MixingsStep(was, m, sigma, 2);
    G(v, 2, 6, 10, 14, m[sigma[4]], m[sigma[5]]);
    MixingsStep(was, m, sigma, 3);
    G(v, 3, 7, 11, 15, m[sigma[6]], m[sigma[7]]);
    MixingsStep(was, m, sigma, 4);
    G(v, 0, 5, 10, 15, m[sigma[8]], m[sigma[9]]);
    MixingsStep(was, m, sigma, 5);
    G(v, 1, 6, 11, 12, m[sigma[10]], m[sigma[11]]);
    MixingsStep(was, m, sigma, 6);
    G(v, 2, 7, 8, 13, m[sigma[12]], m[sigma[13]]);
    MixingsStep(was, m, sigma, 7);
    G(v, 3, 4, 9, 14, m[sigma[14]], m[sigma[15]]);
  }

  /** Seven rounds or ten. */
  method RoundFunction(v: array<Word>, m: Work, reduced: bool)
    requires v.Length == 16
    modifies v
    ensures v[..] == Rounds(old(v[..]), m, RoundCount(reduced))
  {
    hide Mixings, Sigma;
    ghost var was: Work := v[..];
    assert Rounds(was, m, 0) == was;
    for i := 0 to RoundCount(reduced)
      invariant v[..] == Rounds(was, m, i)
    {
      MixingFunction(v, m, Sigma(i));
    }
  }

  function RoundCount(reduced: bool): nat { if reduced then REDUCED_ROUNDS else FULL_ROUNDS }

  class Blake2sState {
    const state: array<Word>
    const inputBuffer: array<Word>
    var t: nat

    ghost predicate Valid()
      reads this
    {
      state.Length == 8 && inputBuffer.Length == 16 && state != inputBuffer && t < TWO_32
    }

    constructor ()
      ensures Valid() && fresh(state) && fresh(inputBuffer) && state[..] == ConfiguredIv() && t == 0
    {
      hide ConfiguredIv;
      var iv: State := ConfiguredIv();
      state := new Word[8](i requires 0 <= i < 8 => iv[i]);
      inputBuffer := new Word[16](_ => 0);
      t := 0;
    }

    method Reset()
      requires Valid()
      modifies this`t, state
      ensures Valid() && state[..] == ConfiguredIv() && t == 0
    {
      hide ConfiguredIv;
      for i := 0 to 8
        invariant state[..i] == ConfiguredIv()[..i]
      {
        state[i] := ConfiguredIv()[i];
      }
      t := 0;
    }

    /** Loads the work vector, runs the rounds and folds the result into `dst`, which starts as the state. */
    method RunInto(m: Work, reduced: bool, last: bool, dst: array<Word>)
      requires Valid() && dst.Length == 8
      modifies dst
      ensures dst[..] == Compress(RoundCount(reduced), old(state[..]), m, t, last)
    {
      hide Rounds, Xor, WorkAt, ExtendedAt;
      var h: State := state[..];
      var counter := t;
      var v := new Word[16](i requires 0 <= i < 16 => ExtendedAt(h, counter, last, i));
      forall i | 0 <= i < 16
        ensures v[i] == WorkAt(h, t, last, i)
      {
        ExtendedIsWork(h, t, last, i);
      }
      assert v[..] == WorkVector(h, t, last);
      RoundFunction(v, m, reduced);
      ghost var w: Work := v[..];
      for i := 0 to 8
        invariant v[..] == w && (dst == state ==> forall k :: i <= k < 8 ==> dst[k] == h[k]) && (dst != state ==> state[..] == h)
        invariant forall k :: 0 <= k < i ==> dst[k] == Xor(Xor(h[k], w[k]), w[k + 8])
      {
        dst[i] := Xor(state[i], v[i]);
        dst[i] := Xor(dst[i], v[i + 8]);
      }
      assert dst[..] == Folded(h, w);
    }

    /** A full block. */
    method Absorb(reduced: bool, m: Work)
      requires Valid() && t + 64 < TWO_32
      modifies this`t, state
      ensures Valid() && t == old(t) + 64
      ensures state[..] == Compress(RoundCount(reduced), old(state[..]), m, t, false)
    {
      hide Compress;
      t := t + 64;
      RunInto(m, reduced, false, state);
    }

    /** The final block, into the destination; the state itself is left as it was. */
    method AbsorbFinalBlock(reduced: bool, m: Work, blockWords: nat, dst: array<Word>)
      requires Valid() && t + 4 * blockWords < TWO_32 && dst.Length == 8 && dst != state
      modifies this`t, dst
      ensures Valid() && t == old(t) + 4 * blockWords
      ensures dst[..] == Compress(RoundCount(reduced), state[..], m, t, true)
    {
      hide Compress;
      t := t + 4 * blockWords;
      RunInto(m, reduced, true, dst);
    }

    /** The same on the internal buffer, for any number of bytes. */
    method RunRoundFunctionWithByteLen(reduced: bool, bytes: nat, last: bool)
      requires Valid() && t + bytes < TWO_32
      modifies this`t, state
      ensures Valid() && t == old(t) + bytes
      ensures state[..] == Compress(RoundCount(reduced), old(state[..]), inputBuffer[..], t, last)
    {
      hide Compress;
      t := t + bytes;
      RunInto(inputBuffer[..], reduced, last, state);
    }
  }

  /** Absorbing every block but the final one, and then that one, computes the standard's digest. */
  method HashByAbsorbing(reduced: bool, message: seq<Word>) returns (digest: array<Word>)
    requires 4 * |message| < TWO_32
    ensures fresh(digest) && digest.Length == 8
    ensures digest[..] == Digest(RoundCount(reduced), message, 4 * |message|)
  {
    hide Compress, ConfiguredIv, Block;
    var hasher := new Blake2sState();
    var full := FullBlocks(4 * |message|);
    for i := 0 to full
      invariant hasher.Valid() && fresh(hasher) && fresh(hasher.state)
      invariant hasher.t == 64 * i && hasher.state[..] == AfterBlocks(RoundCount(reduced), message, i)
      modifies hasher, hasher.state
    {
      hasher.Absorb(reduced, Block(message, i));
    }
    digest := new Word[8](_ => 0);
    hasher.AbsorbFinalBlock(reduced, Block(message, full), |message| - 16 * full, digest);
  }

  /** So does filling the buffer block by block and running the round function, to the byte. */
  method HashByBuffer(reduced: bool, message: seq<Word>, bytes: nat) returns (digest: State)
    requires bytes < TWO_32 && |message| == (bytes + 3) / 4
    ensures digest == Digest(RoundCount(reduced), message, bytes)
  {
    hide Compress, ConfiguredIv, Block;
    var hasher := new Blake2sState();
    var full := FullBlocks(bytes);
    for i := 0 to full
      invariant hasher.Valid() && fresh(hasher) && fresh(hasher.state) && fresh(hasher.inputBuffer)
      invariant hasher.t == 64 * i && hasher.state[..] == AfterBlocks(RoundCount(reduced), message, i)
      modifies hasher, hasher.state, hasher.inputBuffer
    {
      Fill(hasher.inputBuffer, Block(message, i));
      hasher.RunRoundFunctionWithByteLen(reduced, 64, false);
    }
    Fill(hasher.inputBuffer, Block(message, full));
    hasher.RunRoundFunctionWithByteLen(reduced, bytes - 64 * full, true);
    digest := hasher.state[..];
  }

  method Fill(buffer: array<Word>, m: Work)
    requires buffer.Length == 16
    modifies buffer
    ensures buffer[..] == m
  {
    for i := 0 to 16
      invariant buffer[..i] == m[..i]
    {
      buffer[i] := m[i];
    }
  }

  /** Hashing one full block in one call is the digest of that block. */
  method CompressTwoToOne(reduced: bool, m: Work) returns (dst: State)
    ensures dst == Digest(RoundCount(reduced), m, 64)
  {
    hide Compress, ConfiguredIv;
    var hasher := new Blake2sState();
    hasher.t := 64;
    var out := new Word[8](_ => 0);
    hasher.RunInto(m, reduced, true, out);
    dst := out[..];
    assert Block(m, 0) == m;
  }

  /** Word i of the work vector as the code writes it: no high counter word, and the flag always xored in. */
  function ExtendedAt(h: State, t: nat, last: bool, i: Index): Word
    requires t < TWO_32
  {
    if i < 8 then h[i]
    else if i == 12 then Xor(t as Word, IV[4])
    else if i == 14 then Xor(if last then 0xffff_ffff else 0, IV[6])
    else IV[i - 8]
  }

  lemma ExtendedIsWork(h: State, t: nat, last: bool, i: Index)
    requires t < TWO_32
    ensures ExtendedAt(h, t, last, i) == WorkAt(h, t, last, i)
  {
    XorZero(IV[5]);
    XorZero(IV[6]);
    hide Xor;
    assert t / TWO_32 == 0 && t % TWO_32 == t;
  }
}
