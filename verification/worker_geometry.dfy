/**
  How a worker pool cuts a job into contiguous chunks, one per core.
 */
module WorkerGeometry {
  import opened ModArith

  datatype Geometry = Geometry(numChunks: nat, ordinaryChunkSize: nat, remainder: nat) {
    function ChunkStart(k: nat): nat { ordinaryChunkSize * k }
    function ChunkSize(k: nat): nat {
      if remainder != 0 && k == numChunks - 1 then remainder else ordinaryChunkSize
    }

    /** The chunks are nonempty and lie end to end from 0 to `work`. */
    predicate Covers(work: nat) {
      && numChunks > 0 && ordinaryChunkSize > 0
      && ordinaryChunkSize * (numChunks - 1) + ChunkSize(numChunks - 1) == work
    }

    /** The chunks are of one size if the work divides. */
    predicate Even(work: nat) {
      numChunks > 0 && (work % numChunks == 0 ==> remainder == 0 && ordinaryChunkSize * numChunks == work)
    }

    /** The chunk a position belongs to. */
    function ChunkOf(i: nat): nat
      requires numChunks > 0 && ordinaryChunkSize > 0
    {
      var q := i / ordinaryChunkSize;
      if q < numChunks then q else numChunks - 1
    }

    predicate Within(i: nat, k: nat) { ChunkStart(k) <= i < ChunkStart(k) + ChunkSize(k) }

    /** Every position is in exactly one chunk. */
    lemma Partition(work: nat, i: nat, k: nat)
      requires Covers(work) && i < work && k < numChunks
      ensures Within(i, k) <==> k == ChunkOf(i)
    {
      var o, last, tail := ordinaryChunkSize, numChunks - 1, ChunkSize(numChunks - 1);
      assert ChunkSize(k) == if k == last then tail else o;
      LocatedByDivision(o, last, tail, work, i, k);
    }
  }

  lemma LocatedByDivision(o: nat, last: nat, tail: nat, work: nat, i: nat, k: nat)
    requires o > 0 && k <= last && o * last + tail == work && i < work
    ensures var q := i / o; o * k <= i < o * k + (if k == last then tail else o) <==> k == if q < last + 1 then q else last
  {
    Euclid(i, o);
    Located(o, last, tail, work, i, i / o, k);
  }

  lemma Located(o: nat, last: nat, tail: nat, work: nat, i: nat, q: nat, k: nat)
    requires o > 0 && o * q <= i < o * q + o && k <= last && o * last + tail == work && i < work
    ensures o * k <= i < o * k + (if k == last then tail else o) <==> k == if q <= last then q else last
  {
    Blocks(o, k, q);
    Blocks(o, q, k);
    Blocks(o, last, q);
    Blocks(o, k, last);
  }

  /** Blocks of size `o` with different numbers do not meet. */
  lemma {:induction false} Blocks(o: nat, a: nat, b: nat)
    ensures a < b ==> o * a + o <= o * b
    decreases b
  {
    if a < b {
      Distribute(o, b - 1);
      Blocks(o, a, b - 1);
    }
  }

  function NextPowerOfTwo(n: nat): (r: nat)
    requires n > 0
    ensures n <= r < 2 * n
    decreases n
  {
    if n == 1 then 1 else 2 * NextPowerOfTwo((n + 1) / 2)
  }

  ghost predicate LeastPower(n: nat, t: nat) {
    n <= t && IsPowerOfTwo(t) && forall q: nat :: IsPowerOfTwo(q) && n <= q ==> t <= q
  }

  lemma {:induction false} NextIsLeast(n: nat)
    requires n > 0
    ensures LeastPower(n, NextPowerOfTwo(n))
    decreases n
  {
    if n > 1 {
      NextIsLeast((n + 1) / 2);
      forall q: nat | IsPowerOfTwo(q) && n <= q
        ensures NextPowerOfTwo(n) <= q
      {
        assert IsPowerOfTwo(q / 2) && (n + 1) / 2 <= q / 2;
      }
    }
  }

  /**
    The size of a chunk when the work does not divide: the even share, or the next power of two if it
    is less than 32 away; if that leaves nothing for the last chunk, the share among one chunk less,
    unless that one divides the work.
   */
  ghost predicate Settles(chunks: nat, work: nat, t: nat, size: nat)
    requires chunks > 1
  {
    var share := work / chunks;
    var wanted := if t - share < 32 then t else share;
    && LeastPower(share, t)
    && ((chunks - 1) * wanted < work ==> size == wanted)
    && ((chunks - 1) * wanted >= work ==> size == if work % (chunks - 1) != 0 then work / (chunks - 1) else share)
  }

  /** The size the heuristics settle on: at least the even share, and short of the work on all but the last chunk. */
  method OrdinarySize(numChunks: nat, workSize: nat) returns (size: nat, ghost t: nat)
    requires 1 < numChunks <= workSize && workSize % numChunks != 0
    ensures size > 0 && (numChunks - 1) * size < workSize <= (numChunks - 1) * size + size + (numChunks - 1)
    ensures Settles(numChunks, workSize, t, size)
  {
    hide NextPowerOfTwo, IsPowerOfTwo, LeastPower;
    var share := workSize / numChunks;
    ShareBounds(workSize, numChunks, share);
    NextIsLeast(share);
    t := NextPowerOfTwo(share);
    size := share;
    if !IsPowerOfTwo(size) {
      var difference := NextPowerOfTwo(size) - size;
      if difference < 32 { size := NextPowerOfTwo(size); }
    } else {
      LeastOfPower(share, t);
    }
    LargerShare(workSize, numChunks, share, size);
    if (numChunks - 1) * size >= workSize {
      if workSize % (numChunks - 1) != 0 {
        size := workSize / (numChunks - 1);
        ExactFloor(workSize, numChunks - 1);
      } else {
        size := share;
      }
      assert (numChunks - 1) * size < workSize;
    }
  }

  lemma CoverNonempty(g: Geometry, work: nat)
    requires g.Covers(work)
    ensures g.numChunks > 0 && g.ordinaryChunkSize > 0
  {
  }

  lemma LeastOfPower(n: nat, t: nat)
    requires IsPowerOfTwo(n) && LeastPower(n, t)
    ensures t == n
  {
  }

  /** What is left for the last chunk; if that is more than an ordinary chunk, and enough, the others take one more each. */
  ghost predicate Finishes(numCores: nat, chunks: nat, work: nat, size: nat, g: Geometry)
    requires chunks > 1
  {
    var rest := work - (chunks - 1) * size;
    if rest > size && rest > numCores - 1 then g.ordinaryChunkSize == size + 1 && g.remainder == rest - (numCores - 1)
    else g.ordinaryChunkSize == size && g.remainder == rest
  }

  /**
    Dividing no work at all panics; otherwise the geometry covers the work and no assertion fails.
    The last chunk is not larger than the others, unless it is smaller than the number of cores.
   */
  method GeometryForCores(numCores: nat, workSize: nat) returns (panicked: bool, g: Geometry, ghost t: nat, ghost share: nat)
    requires numCores > 0
    ensures panicked <==> workSize == 0
    ensures !panicked ==> g.Covers(workSize) && g.numChunks == if numCores < workSize then numCores else workSize
    ensures !panicked ==> g.Even(workSize)
    ensures !panicked ==> g.ChunkSize(g.numChunks - 1) <= g.ordinaryChunkSize || g.ChunkSize(g.numChunks - 1) < numCores
    ensures !panicked && workSize % g.numChunks != 0 ==>
              g.numChunks > 1 && Settles(g.numChunks, workSize, t, share) && Finishes(numCores, g.numChunks, workSize, share, g)
  {
    hide LeastPower;
    t, share := 0, 0;
    var numChunks := if numCores < workSize then numCores else workSize;
    if numChunks == 0 { return true, Geometry(0, 0, 0), t, share; }
    Euclid(workSize, numChunks);
    if workSize % numChunks == 0 {
      EvenShare(workSize, numChunks);
      return false, Geometry(numChunks, workSize / numChunks, 0), t, share;
    }
    var size;
    size, t := OrdinarySize(numChunks, workSize);
    share := size;
    var mainPart := (numChunks - 1) * size;
    var remainder := workSize - mainPart;
    if remainder > size && remainder > numCores - 1 {
      assert (numChunks - 1) * (size + 1) == mainPart + (numChunks - 1) by { Distribute(numChunks - 1, size); }
      remainder := remainder - (numCores - 1);
      size := size + 1;
      assert size > remainder;
    }
    assert size * (numChunks - 1) == (numChunks - 1) * size;
    return false, Geometry(numChunks, size, remainder), t, share;
  }

  lemma Distribute(a: nat, b: nat)
    ensures a * (b + 1) == a * b + a
  {
  }

  lemma Euclid(a: nat, b: nat)
    requires b > 0
    ensures b * (a / b) + a % b == a && (a >= b ==> a / b > 0)
  {
  }

  lemma EvenShare(work: nat, chunks: nat)
    requires 0 < chunks <= work && work % chunks == 0
    ensures var s := work / chunks; s > 0 && s * (chunks - 1) + s == work
  {
    var s := work / chunks;
    Euclid(work, chunks);
    assert s * (chunks - 1) == s * chunks - s && chunks * s == s * chunks;
  }

  lemma ShareBounds(work: nat, chunks: nat, share: nat)
    requires 1 < chunks <= work && work % chunks != 0 && share == work / chunks
    ensures share > 0 && (chunks - 1) * share < work <= (chunks - 1) * share + share + (chunks - 1)
  {
    Euclid(work, chunks);
    assert (chunks - 1) * share == chunks * share - share;
  }

  lemma LargerShare(work: nat, chunks: nat, share: nat, size: nat)
    requires chunks > 1 && share <= size && work <= (chunks - 1) * share + share + (chunks - 1)
    ensures work <= (chunks - 1) * size + size + (chunks - 1)
  {
    assert (chunks - 1) * (size - share) >= 0;
    assert (chunks - 1) * (size - share) == (chunks - 1) * size - (chunks - 1) * share;
  }

  lemma ExactFloor(work: nat, parts: nat)
    requires 0 < parts < work && work % parts != 0
    ensures var s := work / parts; s > 0 && parts * s < work <= parts * s + s + parts
  {
    Euclid(work, parts);
  }
}
