/**
  The Fiat-Shamir transcripts, which drive the hasher's buffer by hand. However the absorbed words
  are cut into calls, what comes out is the reduced-round digest of their concatenation: the buffer
  is compressed only once more words are known to follow, so that the final block is never empty.
 */
module Transcripts {
  import opened ModArith
  import opened Blake2sSpec
  import opened Blake2sHash

  /** The state after `k` blocks depends only on the words in them. */
  lemma {:induction false} AfterBlocksPrefix(rounds: nat, message: seq<Word>, more: seq<Word>, k: nat)
    requires 16 * k <= |message| && 64 * k < TWO_32
    ensures AfterBlocks(rounds, message + more, k) == AfterBlocks(rounds, message, k)
  {
    hide Compress, ConfiguredIv;
    if k > 0 {
      AfterBlocksPrefix(rounds, message, more, k - 1);
      assert Block(message + more, k - 1) == Block(message, k - 1);
    }
  }

  /**
    The hasher has compressed the first `k` blocks of the words absorbed so far, and the rest,
    at most one block of them, stand at the front of its buffer.
   */
  ghost predicate Pending(hasher: Blake2sState, offset: nat, words: seq<Word>, k: nat)
    reads hasher, hasher.state, hasher.inputBuffer
  {
    && hasher.Valid()
    && offset <= 16
    && |words| == 16 * k + offset
    && 4 * |words| < TWO_32
    && hasher.t == 64 * k
    && hasher.state[..] == AfterBlocks(REDUCED_ROUNDS, words, k)
    && hasher.inputBuffer[..offset] == words[16 * k..]
  }

  /** What the hasher holds between calls: the buffer is empty only if nothing was absorbed. */
  ghost predicate Holds(hasher: Blake2sState, offset: nat, words: seq<Word>)
    reads hasher, hasher.state, hasher.inputBuffer
  {
    Pending(hasher, offset, words, FullBlocks(4 * |words|)) && (offset == 0 ==> words == [])
  }

  lemma BlockCount(offset: nat, words: nat, k: nat)
    requires offset <= 16 && words == 16 * k + offset && (offset == 0 ==> words == 0)
    ensures k == FullBlocks(4 * words)
  {
    assert words > 0 ==> 4 * words - 1 == 64 * k + (4 * offset - 1);
  }

  /** Copies `source[from..from + count]` behind the first `offset` words of the buffer. */
  method Copy(source: seq<Word>, from: nat, count: nat, buffer: array<Word>, offset: nat)
    requires from + count <= |source| && offset + count <= buffer.Length
    modifies buffer
    ensures buffer[..offset + count] == old(buffer[..offset]) + source[from..from + count]
  {
    for i := 0 to count
      invariant buffer[..offset + i] == old(buffer[..offset]) + source[from..from + i]
    {
      buffer[offset + i] := source[from + i];
    }
  }

  method ZeroFrom(buffer: array<Word>, offset: nat)
    requires offset <= buffer.Length
    modifies buffer
    ensures buffer[..offset] == old(buffer[..offset])
    ensures forall i :: offset <= i < buffer.Length ==> buffer[i] == 0
  {
    for j := offset to buffer.Length
      invariant buffer[..offset] == old(buffer[..offset])
      invariant forall i :: offset <= i < j ==> buffer[i] == 0
    {
      buffer[j] := 0;
    }
  }

  lemma HoldsBounds(hasher: Blake2sState, offset: nat, words: seq<Word>)
    requires Holds(hasher, offset, words)
    ensures offset <= 16 && hasher.Valid()
  {
    hide AfterBlocks;
  }

  lemma PendingAtRest(hasher: Blake2sState, offset: nat, words: seq<Word>, k: nat)
    requires Pending(hasher, offset, words, k) && (offset == 0 ==> words == [])
    ensures Holds(hasher, offset, words)
  {
    hide AfterBlocks;
    BlockCount(offset, |words|, k);
  }

  /** Takes the next `count` words of the input, of which `done` are already in, behind the pending ones. */
  method Take(hasher: Blake2sState, offset: nat, ghost words: seq<Word>, ghost k: nat, input: seq<Word>, done: nat, count: nat)
    requires done + count <= |input| && offset + count <= 16 && 4 * (|words| + |input|) < TWO_32
    requires Pending(hasher, offset, words + input[..done], k)
    modifies hasher.inputBuffer
    ensures Pending(hasher, offset + count, words + input[..done + count], k)
  {
    hide AfterBlocks;
    ghost var more := input[done..done + count];
    AfterBlocksPrefix(REDUCED_ROUNDS, words + input[..done], more, k);
    Copy(input, done, count, hasher.inputBuffer, offset);
    assert words + input[..done + count] == words + input[..done] + more;
    assert (words + input[..done] + more)[16 * k..] == (words + input[..done])[16 * k..] + more;
  }

  /** Clears the buffer behind the pending words. */
  method ZeroRest(hasher: Blake2sState, offset: nat, ghost words: seq<Word>, ghost k: nat)
    requires Pending(hasher, offset, words, k)
    modifies hasher.inputBuffer
    ensures Pending(hasher, offset, words, k)
    ensures forall i :: offset <= i < 16 ==> hasher.inputBuffer[i] == 0
  {
    hide AfterBlocks;
    ZeroFrom(hasher.inputBuffer, offset);
  }

  /** Compresses a full buffer as a block that is not the last. */
  method RunAbsorb(hasher: Blake2sState, ghost words: seq<Word>, ghost k: nat)
    requires Pending(hasher, 16, words, k)
    modifies hasher`t, hasher.state
    ensures Pending(hasher, 0, words, k + 1)
  {
    hide Compress, ConfiguredIv;
    assert hasher.inputBuffer[..] == Block(words, k) by { assert hasher.inputBuffer[..] == words[16 * k..]; }
    hasher.RunRoundFunctionWithByteLen(true, 64, false);
  }

  /** The closing block: the digest of everything absorbed. */
  method Flush(hasher: Blake2sState, offset: nat, ghost words: seq<Word>)
    requires Holds(hasher, offset, words)
    requires forall i :: offset <= i < 16 ==> hasher.inputBuffer[i] == 0
    modifies hasher`t, hasher.state
    ensures hasher.Valid()
    ensures hasher.state[..] == Digest(REDUCED_ROUNDS, words, 4 * |words|)
  {
    hide Compress, AfterBlocks;
    ghost var k := FullBlocks(4 * |words|);
    assert hasher.inputBuffer[..] == Block(words, k) by {
      assert hasher.inputBuffer[..] == hasher.inputBuffer[..offset] + hasher.inputBuffer[offset..];
    }
    hasher.RunRoundFunctionWithByteLen(true, 4 * offset, true);
  }

  // ---------------------------------------------------------- the stateless form

  /** One round per sixteen words, pending ones included; the buffer behind them is kept zeroed. */
  method CommitInner(hasher: Blake2sState, input: seq<Word>, offset: nat, ghost words: seq<Word>) returns (after: nat)
    requires Holds(hasher, offset, words) && |input| > 0
    requires 4 * (|words| + |input|) < TWO_32
    modifies hasher`t, hasher.state, hasher.inputBuffer
    ensures Holds(hasher, after, words + input)
    ensures forall i :: after <= i < 16 ==> hasher.inputBuffer[i] == 0
  {
    hide AfterBlocks, Pending, FullBlocks;
    assert offset <= 16 && hasher.inputBuffer.Length == 16 by { HoldsBounds(hasher, offset, words); }
    var rounds := (offset + |input|) / 16;
    if (offset + |input|) % 16 > 0 { rounds := rounds + 1; }
    var remaining := |input|;
    after := offset;
    ghost var k := FullBlocks(4 * |words|);
    assert words + input[..0] == words;
    for r := 0 to rounds
      invariant 0 <= remaining <= |input| && after <= 16
      invariant Pending(hasher, after, words + input[..|input| - remaining], k)
      invariant after + remaining == (if r < rounds then offset + |input| - 16 * r else after)
      invariant r == rounds ==> after > 0 && forall i :: after <= i < 16 ==> hasher.inputBuffer[i] == 0
      invariant 0 < r < rounds ==> after == 0
    {
      var done := |input| - remaining;
      var use := if remaining < 16 - after then remaining else 16 - after;
      Take(hasher, after, words, k, input, done, use);
      remaining := remaining - use;
      after := after + use;
      ZeroRest(hasher, after, words + input[..done + use], k);
      if remaining > 0 {
        RunAbsorb(hasher, words + input[..done + use], k);
        k := k + 1;
        after := 0;
      }
    }
    assert input[..|input|] == input;
    PendingAtRest(hasher, after, words + input, k);
  }

  lemma FreshHolds(hasher: Blake2sState)
    requires hasher.Valid() && hasher.t == 0 && hasher.state[..] == ConfiguredIv()
    ensures Holds(hasher, 0, [])
  {
    hide ConfiguredIv;
  }

  /** The seed of a first message is its digest. */
  method CommitInitial(input: seq<Word>) returns (seed: State)
    requires |input| > 0 && 4 * |input| < TWO_32
    ensures seed == Digest(REDUCED_ROUNDS, input, 4 * |input|)
  {
    hide Digest, Holds, ConfiguredIv;
    var hasher := new Blake2sState();
    FreshHolds(hasher);
    var offset := CommitInner(hasher, input, 0, []);
    assert [] + input == input;
    Flush(hasher, offset, input);
    seed := hasher.state[..];
  }

  /** Folding a message into a seed digests the seed and the message together. */
  method CommitWithSeed(seed: State, input: seq<Word>) returns (next: State)
    requires |input| > 0 && 4 * (|input| + 8) < TWO_32
    ensures next == Digest(REDUCED_ROUNDS, seed + input, 4 * (|input| + 8))
  {
    hide Digest, Holds, ConfiguredIv;
    var hasher := new Blake2sState();
    FreshHolds(hasher);
    var offset := CommitInner(hasher, seed, 0, []);
    assert [] + seed == seed;
    offset := CommitInner(hasher, input, offset, seed);
    Flush(hasher, offset, seed + input);
    next := hasher.state[..];
  }

  // ---------------------------------------------------------- the buffering form

  class BufferingTranscript {
    const hasher: Blake2sState
    var bufferOffset: nat
    /** Everything absorbed since the last reset. */
    ghost var absorbed: seq<Word>

    ghost predicate Valid()
      reads this, hasher, hasher.state, hasher.inputBuffer
    {
      Holds(hasher, bufferOffset, absorbed)
    }

    constructor ()
      ensures Valid() && absorbed == [] && fresh(hasher) && fresh(hasher.state) && fresh(hasher.inputBuffer)
    {
      hide Holds, ConfiguredIv;
      hasher := new Blake2sState();
      bufferOffset := 0;
      absorbed := [];
      new;
      FreshHolds(hasher);
    }

    /** Absorbs as much as fits, compressing only when more follows. */
    method Absorb(values: seq<Word>)
      requires Valid() && 4 * (|absorbed| + |values|) < TWO_32
      modifies this, hasher`t, hasher.state, hasher.inputBuffer
      ensures Valid() && absorbed == old(absorbed) + values
    {
      hide AfterBlocks, Pending, FullBlocks;
      HoldsBounds(hasher, bufferOffset, absorbed);
      var toAbsorb := |values|;
      ghost var k := FullBlocks(4 * |absorbed|);
      assert absorbed + values[..0] == absorbed;
      while toAbsorb > 0
        invariant 0 <= toAbsorb <= |values| && bufferOffset <= 16
        invariant absorbed == old(absorbed) + values[..|values| - toAbsorb]
        invariant Pending(hasher, bufferOffset, absorbed, k)
        invariant bufferOffset == 0 && toAbsorb == 0 ==> absorbed == []
        decreases toAbsorb, bufferOffset
      {
        var done := |values| - toAbsorb;
        var round := if toAbsorb < 16 - bufferOffset then toAbsorb else 16 - bufferOffset;
        Take(hasher, bufferOffset, old(absorbed), k, values, done, round);
        absorbed := old(absorbed) + values[..done + round];
        bufferOffset := bufferOffset + round;
        toAbsorb := toAbsorb - round;
        if toAbsorb > 0 {
          RunAbsorb(hasher, absorbed, k);
          k := k + 1;
          bufferOffset := 0;
        }
      }
      assert values[..|values|] == values;
      PendingAtRest(hasher, bufferOffset, absorbed, k);
    }

    /** Fills the buffer with zeroes: as if that many zero words had been absorbed. */
    method Pad()
      requires Valid() && 4 * (|absorbed| + 16 - bufferOffset) < TWO_32
      modifies this, hasher.inputBuffer
      ensures Valid() && bufferOffset == 16
      ensures absorbed == old(absorbed) + seq(16 - old(bufferOffset), _ => 0)
    {
      hide AfterBlocks;
      ghost var zeroes := seq(16 - bufferOffset, _ => 0);
      ghost var k := FullBlocks(4 * |absorbed|);
      ZeroFrom(hasher.inputBuffer, bufferOffset);
      AfterBlocksPrefix(REDUCED_ROUNDS, absorbed, zeroes, k);
      assert hasher.inputBuffer[..16] == absorbed[16 * k..] + zeroes;
      absorbed := absorbed + zeroes;
      bufferOffset := 16;
      BlockCount(bufferOffset, |absorbed|, k);
    }

    /** The digest of everything absorbed; the transcript starts afresh. */
    method FinalizeReset() returns (seed: State)
      requires Valid()
      modifies this, hasher`t, hasher.state, hasher.inputBuffer
      ensures Valid() && absorbed == []
      ensures seed == Digest(REDUCED_ROUNDS, old(absorbed), 4 * |old(absorbed)|)
    {
      hide Digest, AfterBlocks, ConfiguredIv;
      ZeroFrom(hasher.inputBuffer, bufferOffset);
      Flush(hasher, bufferOffset, absorbed);
      seed := hasher.state[..];
      hasher.Reset();
      bufferOffset := 0;
      absorbed := [];
      FreshHolds(hasher);
    }
  }

  /** However a message is cut into pieces, the seed is the digest of the whole. */
  method Stream(pieces: seq<seq<Word>>) returns (seed: State)
    requires 4 * |Concat(pieces)| < TWO_32
    ensures seed == Digest(REDUCED_ROUNDS, Concat(pieces), 4 * |Concat(pieces)|)
  {
    hide Digest, Holds;
    var transcript := new BufferingTranscript();
    for i := 0 to |pieces|
      invariant transcript.Valid() && transcript.absorbed == Concat(pieces[..i])
      invariant fresh(transcript) && fresh(transcript.hasher) && fresh(transcript.hasher.state) && fresh(transcript.hasher.inputBuffer)
    {
      ConcatPrefix(pieces, i);
      transcript.Absorb(pieces[i]);
    }
    assert pieces[..|pieces|] == pieces;
    seed := transcript.FinalizeReset();
  }

  ghost function Concat(pieces: seq<seq<Word>>): seq<Word> {
    if pieces == [] then [] else Concat(pieces[..|pieces| - 1]) + pieces[|pieces| - 1]
  }

  lemma {:induction false} ConcatPrefix(pieces: seq<seq<Word>>, i: nat)
    requires i < |pieces|
    ensures Concat(pieces[..i + 1]) == Concat(pieces[..i]) + pieces[i]
    ensures |Concat(pieces[..i + 1])| <= |Concat(pieces)|
    decreases |pieces| - i
  {
    assert pieces[..i + 1][..i] == pieces[..i];
    if i + 1 == |pieces| {
      assert pieces[..i + 1] == pieces;
    } else {
      ConcatPrefix(pieces, i + 1);
    }
  }
}
