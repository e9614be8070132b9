/**
  The hash chain that records which programs were verified on the way to a proof: computed in one
  go from a list of layers, or one layer at a time, and the recursion loops that drive it.
 */
module ChainEncoding {
  import opened Options
  import opened ModArith
  import opened Blake2sSpec
  import Blake2sHash
  import Blake2sVectors
  import opened Transcripts

  type Digest = State
  type Preimage = Work
  type Hash = seq<Word> -> Digest

  const ZERO: Digest := [0, 0, 0, 0, 0, 0, 0, 0]

  /** The transcript's hash of a message; the chain laws below hold for any other in its place. */
  ghost function TranscriptHash(message: seq<Word>): Digest {
    if 4 * |message| < TWO_32 then Blake2sHash.Digest(REDUCED_ROUNDS, message, 4 * |message|) else ZERO
  }

  function Joined(a: Digest, b: Digest): (r: Preimage)
    ensures r[..8] == a && r[8..] == b
  {
    a + b
  }

  // ------------------------------------------------------------------- in one go

  /** The chain value of a nonempty list: a layer equal to its predecessor is skipped. */
  ghost function Chain(h: Hash, data: seq<Digest>): Digest
    requires data != []
  {
    var n := |data| - 1;
    if n == 0 then data[0]
    else if data[n] == data[n - 1] then Chain(h, data[..n])
    else h(Joined(Chain(h, data[..n]), data[n]))
  }

  lemma ChainStep(h: Hash, data: seq<Digest>, k: nat)
    requires 0 < k < |data|
    ensures Chain(h, data[..k + 1]) == if data[k] == data[k - 1] then Chain(h, data[..k]) else h(Joined(Chain(h, data[..k]), data[k]))
  {
    assert data[..k + 1][..k] == data[..k];
  }

  method ComputeChainEncoding(data: seq<Digest>) returns (previous: Digest)
    requires data != []
    ensures previous == Chain(TranscriptHash, data)
  {
    hide Chain, Transcripts.Holds, Blake2sHash.Digest;
    var hasher := new BufferingTranscript();
    previous := data[0];
    assert Chain(TranscriptHash, data[..1]) == data[0] by { ChainOne(TranscriptHash, data); }
    for index := 1 to |data|
      invariant previous == Chain(TranscriptHash, data[..index])
      invariant hasher.Valid() && hasher.absorbed == []
      invariant fresh(hasher) && fresh(hasher.hasher) && fresh(hasher.hasher.state) && fresh(hasher.hasher.inputBuffer)
    {
      ChainStep(TranscriptHash, data, index);
      if data[index] != data[index - 1] {
        hasher.Absorb(previous);
        hasher.Absorb(data[index]);
        assert hasher.absorbed == Joined(previous, data[index]);
        previous := hasher.FinalizeReset();
      }
    }
    assert data[..|data|] == data;
  }

  /** One absorb and a finalize. */
  method HashOf(preimage: Preimage) returns (hash: Digest)
    ensures hash == TranscriptHash(preimage)
  {
    hide Transcripts.Holds, Blake2sHash.Digest;
    var hasher := new BufferingTranscript();
    hasher.Absorb(preimage);
    assert hasher.absorbed == preimage;
    hash := hasher.FinalizeReset();
  }

  lemma ChainOne(h: Hash, data: seq<Digest>)
    requires data != []
    ensures Chain(h, data[..1]) == data[0]
  {
  }

  // ------------------------------------------------------- one layer at a time

  method CreateInitial(base: Digest) returns (preimage: Preimage, hash: Digest)
    ensures (preimage, hash) == Incremental(TranscriptHash, base, [])
  {
    hide TranscriptHash;
    preimage := ZERO + base;
    hash := HashOf(preimage);
  }

  function Continued(h: Hash, preimage: Preimage, hash: Digest, step: Digest): (Preimage, Digest) {
    if preimage[8..] == step then (preimage, hash) else (Joined(hash, step), h(Joined(hash, step)))
  }

  /** All steps after the base layer. */
  ghost function Incremental(h: Hash, base: Digest, steps: seq<Digest>): (Preimage, Digest) {
    if steps == [] then (Joined(ZERO, base), h(Joined(ZERO, base)))
    else
      var n := |steps| - 1;
      var s := Incremental(h, base, steps[..n]);
      Continued(h, s.0, s.1, steps[n])
  }

  /** One more layer: the state over any layers becomes the state over those and the new one. */
  method Continue(hash: Digest, preimage: Preimage, step: Digest) returns (newPreimage: Preimage, newHash: Digest)
    ensures (newPreimage, newHash) == Continued(TranscriptHash, preimage, hash, step)
    ensures forall base: Digest, steps: seq<Digest> ::
              (preimage, hash) == Incremental(TranscriptHash, base, steps)
              ==> (newPreimage, newHash) == Incremental(TranscriptHash, base, steps + [step])
  {
    hide TranscriptHash;
    if preimage[8..] == step {
      newPreimage, newHash := preimage, hash;
    } else {
      newPreimage := hash + step;
      newHash := HashOf(newPreimage);
    }
    forall base: Digest, steps: seq<Digest> | (preimage, hash) == Incremental(TranscriptHash, base, steps)
      ensures (newPreimage, newHash) == Incremental(TranscriptHash, base, steps + [step])
    {
      assert (steps + [step])[..|steps|] == steps;
    }
  }

  /** The state always holds the hash of its preimage, and the last layer in the preimage's second half. */
  lemma {:induction false} IncrementalShape(h: Hash, base: Digest, steps: seq<Digest>)
    ensures var s := Incremental(h, base, steps);
      s.1 == h(s.0) && s.0[8..] == if steps == [] then base else steps[|steps| - 1]
  {
    if steps != [] { IncrementalShape(h, base, steps[..|steps| - 1]); }
  }

  /** From a nonzero base, layer by layer equals in one go. */
  lemma {:induction false} IncrementalIsChain(h: Hash, base: Digest, steps: seq<Digest>)
    requires base != ZERO
    ensures Incremental(h, base, steps).1 == Chain(h, [ZERO, base] + steps)
  {
    var data := [ZERO, base] + steps;
    if steps == [] {
      assert data == [ZERO, base] && data[..1] == [ZERO];
    } else {
      var n := |steps| - 1;
      IncrementalIsChain(h, base, steps[..n]);
      IncrementalShape(h, base, steps[..n]);
      assert data[..|data| - 1] == [ZERO, base] + steps[..n];
      assert data[|data| - 2] == if n == 0 then base else steps[n - 1];
    }
  }

  /** A zero base is lost by the one and hashed by the other: they agree on every run only if the hash hides it. */
  lemma IncrementalExactly(h: Hash, base: Digest)
    ensures (forall steps: seq<Digest> :: Incremental(h, base, steps).1 == Chain(h, [ZERO, base] + steps))
       <==> base != ZERO || h(Joined(ZERO, ZERO)) == ZERO
  {
    if base != ZERO {
      forall steps: seq<Digest>
        ensures Incremental(h, base, steps).1 == Chain(h, [ZERO, base] + steps)
      {
        IncrementalIsChain(h, base, steps);
      }
    } else if h(Joined(ZERO, ZERO)) == ZERO {
      forall steps: seq<Digest>
        ensures Incremental(h, base, steps).1 == Chain(h, [ZERO, base] + steps)
      {
        ZeroBase(h, steps);
      }
    } else {
      var none: seq<Digest> := [];
      assert [ZERO, base] + none == [ZERO, ZERO] && [ZERO, ZERO][..1] == [ZERO];
      assert Chain(h, [ZERO, ZERO]) == ZERO by { assert Chain(h, [ZERO]) == ZERO; }
      assert Incremental(h, base, none).1 != Chain(h, [ZERO, base] + none);
    }
  }

  /** The transcript's hash does not hide it: for that hash the two computations agree exactly off the zero base. */
  lemma TranscriptExactly(base: Digest)
    ensures (forall steps: seq<Digest> :: Incremental(TranscriptHash, base, steps).1 == Chain(TranscriptHash, [ZERO, base] + steps))
       <==> base != ZERO
  {
    hide Chain, Incremental, Blake2sHash.Digest;
    Blake2sVectors.KnownZeroAnswer();
    ZeroWords();
    assert TranscriptHash(Joined(ZERO, ZERO)) != ZERO;
    IncrementalExactly(TranscriptHash, base);
  }

  lemma ZeroWords()
    ensures Joined(ZERO, ZERO) == Blake2sVectors.ZEROS
  {
    var j := Joined(ZERO, ZERO);
    forall i | 0 <= i < 16
      ensures j[i] == 0 == Blake2sVectors.ZEROS[i]
    {
      assert j[i] == if i < 8 then ZERO[i] else ZERO[i - 8];
    }
  }

  lemma {:induction false} ZeroBase(h: Hash, steps: seq<Digest>)
    requires h(Joined(ZERO, ZERO)) == ZERO
    ensures Incremental(h, ZERO, steps).1 == Chain(h, [ZERO, ZERO] + steps)
  {
    var data := [ZERO, ZERO] + steps;
    if steps == [] {
      assert data == [ZERO, ZERO] && data[..1] == [ZERO];
      assert Chain(h, [ZERO]) == ZERO;
    } else {
      var n := |steps| - 1;
      ZeroBase(h, steps[..n]);
      IncrementalShape(h, ZERO, steps[..n]);
      assert data[..|data| - 1] == [ZERO, ZERO] + steps[..n];
      assert data[|data| - 2] == if n == 0 then ZERO else steps[n - 1];
    }
  }

  // ------------------------------------------------------------------ repeats

  /** The list without consecutive repeats. */
  ghost function Dedup(data: seq<Digest>): (r: seq<Digest>)
    ensures data != [] ==> r != [] && r[|r| - 1] == data[|data| - 1] && r[0] == data[0]
  {
    if |data| <= 1 then data
    else
      var n := |data| - 1;
      if data[n] == data[n - 1] then Dedup(data[..n]) else Dedup(data[..n]) + [data[n]]
  }

  ghost predicate RepeatFree(data: seq<Digest>) { forall i :: 0 <= i < |data| - 1 ==> data[i] != data[i + 1] }

  lemma {:induction false} DedupRepeatFree(data: seq<Digest>)
    ensures RepeatFree(Dedup(data))
  {
    if |data| > 1 { DedupRepeatFree(data[..|data| - 1]); }
  }

  /** Consecutive repeats do not count. */
  lemma {:induction false} ChainIgnoresRepeats(h: Hash, data: seq<Digest>)
    requires data != []
    ensures Chain(h, Dedup(data)) == Chain(h, data) && RepeatFree(Dedup(data))
  {
    DedupRepeatFree(data);
    if |data| > 1 {
      var n := |data| - 1;
      ChainIgnoresRepeats(h, data[..n]);
      if data[n] != data[n - 1] {
        var d := Dedup(data[..n]);
        assert (d + [data[n]])[..|d|] == d;
        assert d[|d| - 1] == data[n - 1];
      }
    }
  }

  /** The preimages that computing a repeat-free chain hashes. */
  ghost predicate HashedAlong(h: Hash, c: seq<Digest>, x: Preimage) {
    exists k :: 0 < k < |c| && x == Joined(Chain(h, c[..k]), c[k])
  }

  lemma HashedPrefix(h: Hash, c: seq<Digest>, n: nat, x: Preimage)
    requires n <= |c| && HashedAlong(h, c[..n], x)
    ensures HashedAlong(h, c, x)
  {
    var k :| 0 < k < n && x == Joined(Chain(h, c[..n][..k]), c[..n][k]);
    assert c[..n][..k] == c[..k];
  }

  lemma ChainTop(h: Hash, a: seq<Digest>)
    requires |a| > 1 && RepeatFree(a)
    ensures Chain(h, a) == h(Joined(Chain(h, a[..|a| - 1]), a[|a| - 1])) && RepeatFree(a[..|a| - 1])
    ensures HashedAlong(h, a, Joined(Chain(h, a[..|a| - 1]), a[|a| - 1]))
  {
    assert a[|a| - 2] != a[|a| - 2 + 1];
  }

  lemma JoinedParts(c: Digest, x: Digest, d: Digest, y: Digest)
    requires Joined(c, x) == Joined(d, y)
    ensures c == d && x == y
  {
    var p, q := Joined(c, x), Joined(d, y);
    assert p[..8] == q[..8] && p[8..] == q[8..];
  }

  /** Two preimages hashed along the two chains collide, or one of them hashes to the start value. */
  ghost predicate Broken(h: Hash, a: seq<Digest>, b: seq<Digest>, x: Preimage, y: Preimage) {
    || (HashedAlong(h, a, x) && HashedAlong(h, b, y) && x != y && h(x) == h(y))
    || ((HashedAlong(h, a, x) || HashedAlong(h, b, x)) && h(x) == ZERO)
  }

  /**
    For every hash: two different repeat-free chains with the same value give away a collision, or a
    preimage of the start value, among the words hashed on the way.
   */
  lemma {:induction false} ChainCollision(h: Hash, a: seq<Digest>, b: seq<Digest>) returns (x: Preimage, y: Preimage)
    requires a != [] && b != [] && a[0] == ZERO == b[0] && RepeatFree(a) && RepeatFree(b)
    requires a != b && Chain(h, a) == Chain(h, b)
    ensures Broken(h, a, b, x, y)
    decreases |a|
  {
    hide Chain, RepeatFree, HashedAlong;
    var m, n := |a| - 1, |b| - 1;
    if m == 0 || n == 0 {
      ChainOne(h, a);
      ChainOne(h, b);
      assert a[..1] == [ZERO] && b[..1] == [ZERO];
      var c := if m == 0 then b else a;
      assert (m == 0 ==> a == [ZERO]) && (n == 0 ==> b == [ZERO]);
      ChainTop(h, c);
      x := Joined(Chain(h, c[..|c| - 1]), c[|c| - 1]);
      y := x;
    } else {
      ChainTop(h, a);
      ChainTop(h, b);
      x, y := Joined(Chain(h, a[..m]), a[m]), Joined(Chain(h, b[..n]), b[n]);
      if x == y {
        JoinedParts(Chain(h, a[..m]), a[m], Chain(h, b[..n]), b[n]);
        assert a == a[..m] + [a[m]] && b == b[..n] + [b[n]];
        x, y := ChainCollision(h, a[..m], b[..n]);
        BrokenPrefix(h, a, m, b, n, x, y);
      }
    }
  }

  lemma BrokenPrefix(h: Hash, a: seq<Digest>, m: nat, b: seq<Digest>, n: nat, x: Preimage, y: Preimage)
    requires m <= |a| && n <= |b| && Broken(h, a[..m], b[..n], x, y)
    ensures Broken(h, a, b, x, y)
  {
    hide HashedAlong;
    if HashedAlong(h, a[..m], x) { HashedPrefix(h, a, m, x); }
    if HashedAlong(h, b[..n], x) { HashedPrefix(h, b, n, x); }
    if HashedAlong(h, b[..n], y) { HashedPrefix(h, b, n, y); }
  }

  /** So the value determines the chain wherever the hash neither collides nor starts over on what the two chains hash. */
  lemma ChainInjective(h: Hash, a: seq<Digest>, b: seq<Digest>)
    requires a != [] && b != [] && a[0] == ZERO == b[0] && RepeatFree(a) && RepeatFree(b)
    requires forall x: Preimage, y: Preimage :: !Broken(h, a, b, x, y)
    ensures Chain(h, a) == Chain(h, b) <==> a == b
  {
    hide Broken, Chain, RepeatFree;
    if Chain(h, a) == Chain(h, b) && a != b {
      var x, y := ChainCollision(h, a, b);
    }
  }

  // --------------------------------------------------------------- the recursion

  datatype Strategy = OneLog23 | ManyLog23 | OnlyLog23
  datatype Counts = Counts(reduced: nat, log23: nat, delegations: seq<nat>)

  /** What a proof run leaves for the next: its program, and the chain preimage it was given. */
  datatype Meta = Meta(endParams: Digest, preimage: Option<Preimage>)

  /** The programs: first-layer verifier and second-layer verifier. */
  datatype Programs = Programs(base: Digest, first: Digest, second: Digest)

  predicate AnyAbove(s: seq<nat>, k: nat) { exists i :: 0 <= i < |s| && s[i] > k }

  predicate SkipsFirstLayer(m: Strategy) { m.OnlyLog23? }

  predicate SwitchToSecond(m: Strategy, c: Counts) {
    match m
    case OneLog23 => !(c.reduced > 2 || AnyAbove(c.delegations, 1))
    case ManyLog23 => !(c.reduced > 5 || AnyAbove(c.delegations, 2))
    case OnlyLog23 => true
  }

  /** None where the source's assertions fail. */
  function FinishSecond(m: Strategy, c: Counts, level: nat): Option<bool> {
    match m
    case OneLog23 => if level == 0 && c.log23 == 1 then Some(true) else None
    case _ => Some(!(c.log23 > 1 || AnyAbove(c.delegations, 1) || level == 0))
  }

  /** The preimage handed to the next layer. */
  function NextPreimage(h: Hash, prev: Meta): Preimage {
    match prev.preimage
    case None => Joined(ZERO, prev.endParams)
    case Some(p) => if p[8..] == prev.endParams then p else Joined(h(p), prev.endParams)
  }

  function ProveLayer(h: Hash, prev: Meta, program: Digest): Meta { Meta(program, Some(NextPreimage(h, prev))) }

  /** The metadata after a sequence of layers over the base program. */
  ghost function AfterLayers(h: Hash, base: Digest, layers: seq<Digest>): Meta {
    if layers == [] then Meta(base, None)
    else ProveLayer(h, AfterLayers(h, base, layers[..|layers| - 1]), layers[|layers| - 1])
  }

  /** The preimage of the last layer is the incremental one over all the layers before it. */
  lemma {:induction false} LayersAreIncremental(h: Hash, base: Digest, layers: seq<Digest>)
    requires layers != []
    ensures AfterLayers(h, base, layers) == Meta(layers[|layers| - 1], Some(Incremental(h, base, layers[..|layers| - 1]).0))
  {
    var n := |layers| - 1;
    if n > 0 {
      LayersAreIncremental(h, base, layers[..n]);
      IncrementalShape(h, base, layers[..n - 1]);
      assert layers[..n][..n - 1] == layers[..n - 1] && layers[..n][n - 1] == layers[n - 1];
    }
  }

  datatype Run = Finished(meta: Meta) | Failed | Unfinished

  ghost function Repeated(d: Digest, n: nat): seq<Digest> { seq(n, _ => d) }

  lemma RepeatedSnoc(d: Digest, n: nat)
    ensures Repeated(d, n + 1) == Repeated(d, n) + [d]
  {
  }

  lemma LayerSnoc(h: Hash, base: Digest, layers: seq<Digest>, program: Digest)
    ensures AfterLayers(h, base, layers + [program]) == ProveLayer(h, AfterLayers(h, base, layers), program)
  {
    assert (layers + [program])[..|layers|] == layers;
  }

  // When the loops stop, with the counts written out.

  ghost predicate DelegationsWithin(c: Counts, k: nat) { forall i :: 0 <= i < |c.delegations| ==> c.delegations[i] <= k }

  /** Few enough proofs to leave the first layer. */
  ghost predicate FirstSmall(m: Strategy, c: Counts) {
    && (m.OneLog23? ==> c.reduced <= 2 && DelegationsWithin(c, 1))
    && (m.ManyLog23? ==> c.reduced <= 5 && DelegationsWithin(c, 2))
  }

  /** Few enough to stop in the second layer, if it may stop. */
  ghost predicate SecondSmall(c: Counts) { c.log23 <= 1 && DelegationsWithin(c, 1) }

  /** The first layer stops after `n` runs: at the first counts that allow it, or before any run. */
  ghost predicate FirstRuns(m: Strategy, first: seq<Counts>, n: nat) {
    if m.OnlyLog23? then n == 0
    else 0 < n <= |first| && FirstSmall(m, first[n - 1]) && forall j :: 0 <= j < n - 1 ==> !FirstSmall(m, first[j])
  }

  /** The second layer stops after `n` runs: after exactly one with one proof, or at the first small counts after the first run. */
  ghost predicate SecondRuns(m: Strategy, second: seq<Counts>, n: nat) {
    if m.OneLog23? then n == 1 <= |second| && second[0].log23 == 1
    else 2 <= n <= |second| && SecondSmall(second[n - 1]) && forall j :: 1 <= j < n - 1 ==> !SecondSmall(second[j])
  }

  /** Its assertion fails: the one run left another number of proofs. */
  ghost predicate SecondFails(m: Strategy, second: seq<Counts>) { m.OneLog23? && second != [] && second[0].log23 != 1 }

  lemma SwitchIsSmall(m: Strategy, c: Counts)
    ensures !m.OnlyLog23? ==> (SwitchToSecond(m, c) <==> FirstSmall(m, c))
  {
  }

  lemma FinishIsSmall(m: Strategy, c: Counts, level: nat)
    ensures m.OneLog23? ==> FinishSecond(m, c, level) == if level == 0 && c.log23 == 1 then Some(true) else None
    ensures !m.OneLog23? ==> FinishSecond(m, c, level) == Some(level > 0 && SecondSmall(c))
  {
  }

  /** The first loop: at least one run, until the counts are small enough. Without more counts it is still running. */
  method FirstLayer(h: Hash, m: Strategy, p: Programs, first: seq<Counts>) returns (run: Run, ghost n1: nat)
    ensures !run.Failed?
    ensures run.Finished? ==> run.meta == AfterLayers(h, p.base, Repeated(p.first, n1)) && FirstRuns(m, first, n1)
    ensures run.Unfinished? ==> !m.OnlyLog23? && forall i :: 0 <= i < |first| ==> !FirstSmall(m, first[i])
  {
    hide AfterLayers, ProveLayer, FirstSmall, SwitchToSecond;
    var meta := Meta(p.base, None);
    n1 := 0;
    assert meta == AfterLayers(h, p.base, Repeated(p.first, 0)) by { NoLayers(h, p); }
    if SkipsFirstLayer(m) { return Finished(meta), 0; }
    for i := 0 to |first|
      invariant n1 == i && meta == AfterLayers(h, p.base, Repeated(p.first, i))
      invariant forall j :: 0 <= j < i ==> !FirstSmall(m, first[j])
    {
      SwitchIsSmall(m, first[i]);
      RepeatedSnoc(p.first, i);
      LayerSnoc(h, p.base, Repeated(p.first, i), p.first);
      meta := ProveLayer(h, meta, p.first);
      n1 := n1 + 1;
      if SwitchToSecond(m, first[i]) { return Finished(meta), n1; }
    }
    run := Unfinished;
  }

  lemma NoLayers(h: Hash, p: Programs)
    ensures AfterLayers(h, p.base, Repeated(p.first, 0)) == Meta(p.base, None)
  {
  }

  /** The second loop: exactly one run, or at least two, by strategy. */
  method SecondLayer(h: Hash, m: Strategy, p: Programs, start: Meta, second: seq<Counts>, ghost done: seq<Digest>)
    returns (run: Run, ghost n2: nat)
    requires start == AfterLayers(h, p.base, done)
    ensures run.Finished? ==> run.meta == AfterLayers(h, p.base, done + Repeated(p.second, n2)) && SecondRuns(m, second, n2)
    ensures run.Failed? ==> SecondFails(m, second)
    ensures run.Unfinished? ==> second == [] || (!m.OneLog23? && forall j :: 1 <= j < |second| ==> !SecondSmall(second[j]))
  {
    hide AfterLayers, ProveLayer, SecondSmall, FinishSecond;
    var meta := start;
    n2 := 0;
    assert done + Repeated(p.second, 0) == done;
    for level := 0 to |second|
      invariant n2 == level && meta == AfterLayers(h, p.base, done + Repeated(p.second, level))
      invariant level > 0 ==> !m.OneLog23?
      invariant forall j :: 1 <= j < level ==> !SecondSmall(second[j])
    {
      FinishIsSmall(m, second[level], level);
      RepeatedSnoc(p.second, level);
      assert done + Repeated(p.second, level + 1) == (done + Repeated(p.second, level)) + [p.second];
      LayerSnoc(h, p.base, done + Repeated(p.second, level), p.second);
      meta := ProveLayer(h, meta, p.second);
      n2 := n2 + 1;
      var finish := FinishSecond(m, second[level], level);
      if finish.None? { return Failed, n2; }
      if finish.value { return Finished(meta), n2; }
    }
    run := Unfinished;
  }

  /** The chain published for a strategy with the universal verifier. */
  function PublishedChain(m: Strategy, p: Programs): (r: seq<Digest>)
    ensures r != []
  {
    match m
    case OneLog23 => [ZERO, p.base, p.first]
    case ManyLog23 => [ZERO, p.base, p.first, p.second]
    case OnlyLog23 => [ZERO, p.base, p.second]
  }

  lemma {:induction false} ChainRepeats(h: Hash, data: seq<Digest>, d: Digest, n: nat)
    requires data != [] && data[|data| - 1] == d
    ensures Chain(h, data + Repeated(d, n)) == Chain(h, data)
  {
    if n == 0 {
      assert data + Repeated(d, 0) == data;
    } else {
      ChainRepeats(h, data, d, n - 1);
      RepeatedSnoc(d, n - 1);
      var all := data + Repeated(d, n);
      assert all[..|all| - 1] == data + Repeated(d, n - 1);
      assert all[|all| - 1] == d && all[|all| - 2] == d;
    }
  }

  lemma {:induction false} ChainExtend(h: Hash, a: seq<Digest>, b: seq<Digest>, tail: seq<Digest>)
    requires a != [] && b != [] && Chain(h, a) == Chain(h, b) && a[|a| - 1] == b[|b| - 1]
    ensures Chain(h, a + tail) == Chain(h, b + tail)
  {
    hide Chain;
    if tail == [] {
      assert a + tail == a && b + tail == b;
    } else {
      var n := |tail| - 1;
      ChainExtend(h, a, b, tail[..n]);
      ChainSnoc(h, a + tail[..n], tail[n]);
      ChainSnoc(h, b + tail[..n], tail[n]);
      assert a + tail == (a + tail[..n]) + [tail[n]] && b + tail == (b + tail[..n]) + [tail[n]];
    }
  }

  lemma ChainSnoc(h: Hash, data: seq<Digest>, d: Digest)
    requires data != []
    ensures Chain(h, data + [d]) == if data[|data| - 1] == d then Chain(h, data) else h(Joined(Chain(h, data), d))
  {
    assert (data + [d])[..|data|] == data;
  }

  /** Any permitted numbers of repetitions give the published chain value. */
  lemma RunMatchesPublished(h: Hash, m: Strategy, p: Programs, n1: nat, n2: nat)
    requires (m.OnlyLog23? ==> n1 == 0) && (!m.OnlyLog23? ==> n1 >= 1)
    requires (m.OneLog23? ==> n2 == 1) && (!m.OneLog23? ==> n2 >= 2)
    ensures Chain(h, [ZERO, p.base] + (Repeated(p.first, n1) + Repeated(p.second, n2 - 1))) == Chain(h, PublishedChain(m, p))
  {
    hide Chain;
    var head := [ZERO, p.base];
    var all := head + (Repeated(p.first, n1) + Repeated(p.second, n2 - 1));
    if n1 == 0 {
      assert all == (head + [p.second]) + Repeated(p.second, n2 - 2);
      ChainRepeats(h, head + [p.second], p.second, n2 - 2);
      assert head + [p.second] == PublishedChain(m, p);
    } else {
      var one := head + [p.first];
      assert head + Repeated(p.first, n1) == one + Repeated(p.first, n1 - 1);
      ChainRepeats(h, one, p.first, n1 - 1);
      if n2 == 1 {
        assert all == one + Repeated(p.first, n1 - 1);
        assert one == PublishedChain(m, p);
      } else {
        var two := one + Repeated(p.first, n1 - 1);
        assert all == two + Repeated(p.second, n2 - 1);
        assert Repeated(p.second, n2 - 1) == [p.second] + Repeated(p.second, n2 - 2);
        ChainExtend(h, two, one, Repeated(p.second, n2 - 1));
        assert one + Repeated(p.second, n2 - 1) == (one + [p.second]) + Repeated(p.second, n2 - 2);
        ChainRepeats(h, one + [p.second], p.second, n2 - 2);
        assert one + [p.second] == PublishedChain(m, p);
      }
    }
  }

  /**
    Every recursion that finishes, whatever proof counts it met, ends with the second-layer program
    and with a preimage whose hash is the published chain value.
   */
  method Recurse(h: Hash, m: Strategy, p: Programs, first: seq<Counts>, second: seq<Counts>) returns (run: Run)
    requires p.base != ZERO
    ensures run.Finished? ==> run.meta.endParams == p.second && run.meta.preimage.Some?
    ensures run.Finished? ==> h(run.meta.preimage.value) == Chain(h, PublishedChain(m, p))
    ensures run.Finished? <==> (exists n :: FirstRuns(m, first, n)) && exists n :: SecondRuns(m, second, n)
    ensures run.Failed? <==> (exists n :: FirstRuns(m, first, n)) && SecondFails(m, second)
  {
    hide Chain, Incremental, AfterLayers, PublishedChain, FirstSmall, SecondSmall;
    ghost var n1, n2;
    run, n1 := FirstLayer(h, m, p, first);
    if !run.Finished? { return; }
    run, n2 := SecondLayer(h, m, p, run.meta, second, Repeated(p.first, n1));
    if run.Finished? {
      ghost var layers := Repeated(p.first, n1) + Repeated(p.second, n2);
      LayersAreIncremental(h, p.base, layers);
      ghost var before := Repeated(p.first, n1) + Repeated(p.second, n2 - 1);
      assert layers[..|layers| - 1] == before;
      IncrementalShape(h, p.base, before);
      IncrementalIsChain(h, p.base, before);
      RunMatchesPublished(h, m, p, n1, n2);
    }
  }
}
