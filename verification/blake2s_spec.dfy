/**
  BLAKE2s as sections 2.6 to 3.3 of RFC 7693 define it, on 32-bit words, with the number of rounds
  as a parameter; and the inverses of its rounds.
 */
module Blake2sSpec {
  /** Words add modulo 2^32. */
  type Word = bv32
  /** The sixteen-word work vector, and a message block. */
  type Work = s: seq<Word> | |s| == 16 witness [0, 0, 0, 0, 0, 0, 0, 0, 0, 0, 0, 0, 0, 0, 0, 0]
  type State = s: seq<Word> | |s| == 8 witness [0, 0, 0, 0, 0, 0, 0, 0]

  const FULL_ROUNDS: nat := 10
  const REDUCED_ROUNDS: nat := 7

  const IV: State := [0x6A09E667, 0xBB67AE85, 0x3C6EF372, 0xA54FF53A, 0x510E527F, 0x9B05688C, 0x1F83D9AB, 0x5BE0CD19]

  /** No key, 32 bytes of output: the first word is twisted by the parameter block. */
  function ConfiguredIv(): State { IV[0 := IV[0] ^ 0x0101_0000 ^ 32] }

  type Index = i: nat | i < 16

  function Sigma(round: nat): (r: seq<Index>)
    ensures |r| == 16
  {
    match round
    case 0 => [0, 1, 2, 3, 4, 5, 6, 7, 8, 9, 10, 11, 12, 13, 14, 15]
    case 1 => [14, 10, 4, 8, 9, 15, 13, 6, 1, 12, 0, 2, 11, 7, 5, 3]
    case 2 => [11, 8, 12, 0, 5, 2, 15, 13, 10, 14, 3, 6, 7, 1, 9, 4]
    case 3 => [7, 9, 3, 1, 13, 12, 11, 14, 2, 6, 5, 10, 4, 0, 15, 8]
    case 4 => [9, 0, 5, 7, 2, 4, 10, 15, 14, 1, 11, 12, 6, 8, 3, 13]
    case 5 => [2, 12, 6, 10, 0, 11, 8, 3, 4, 13, 7, 5, 15, 14, 1, 9]
    case 6 => [12, 5, 1, 15, 14, 13, 4, 10, 0, 7, 6, 3, 9, 2, 8, 11]
    case 7 => [13, 11, 7, 14, 12, 1, 3, 9, 5, 0, 15, 4, 8, 6, 2, 10]
    case 8 => [6, 15, 14, 9, 11, 3, 0, 8, 12, 2, 13, 7, 1, 4, 10, 5]
    case _ => [10, 2, 8, 4, 7, 6, 1, 5, 15, 11, 9, 14, 3, 12, 13, 0]
  }

  // ------------------------------------------------------------- mixing

  datatype Quad = Quad(a: Word, b: Word, c: Word, d: Word)

  function Add(a: Word, b: Word): Word { a + b }
  function Sub(a: Word, b: Word): Word { a - b }
  function Xor(a: Word, b: Word): Word { a ^ b }

  /** The four rotation distances of section 2.1. */
  type Distance = n: nat | n == 16 || n == 12 || n == 8 || n == 7 witness 16

  function RotateRight(a: Word, n: Distance): Word {
    match n
    case 16 => a.RotateRight(16)
    case 12 => a.RotateRight(12)
    case 8 => a.RotateRight(8)
    case _ => a.RotateRight(7)
  }

  function RotateLeft(a: Word, n: Distance): Word {
    match n
    case 16 => a.RotateLeft(16)
    case 12 => a.RotateLeft(12)
    case 8 => a.RotateLeft(8)
    case _ => a.RotateLeft(7)
  }

  /** Half of the mixing function G of section 3.1, which runs it twice with other rotations. */
  function HalfMix(q: Quad, x: Word, r: Distance, s: Distance): Quad {
    var a := Add(Add(q.a, q.b), x);
    var d := RotateRight(Xor(q.d, a), r);
    var c := Add(q.c, d);
    var b := RotateRight(Xor(q.b, c), s);
    Quad(a, b, c, d)
  }

  function Mix(q: Quad, x: Word, y: Word): Quad { HalfMix(HalfMix(q, x, 16, 12), y, 8, 7) }

  function HalfUnmix(q: Quad, x: Word, r: Distance, s: Distance): Quad {
    var b := Xor(RotateLeft(q.b, s), q.c);
    var c := Sub(q.c, q.d);
    var d := Xor(RotateLeft(q.d, r), q.a);
    var a := Sub(Sub(q.a, x), b);
    Quad(a, b, c, d)
  }

  function Unmix(q: Quad, x: Word, y: Word): Quad { HalfUnmix(HalfUnmix(q, y, 8, 7), x, 16, 12) }

  lemma Sums(a: Word, b: Word)
    ensures Add(a, b) == a + b && Sub(a, b) == a - b
  {
  }

  lemma SubOfSum(a: Word, b: Word)
    ensures Sub(a + b, b) == a
  {
  }

  lemma SumOfSub(a: Word, b: Word)
    ensures Add(a - b, b) == a
  {
  }

  lemma AddSub(a: Word, b: Word)
    ensures Sub(Add(a, b), b) == a && Add(Sub(a, b), b) == a
  {
    hide Add, Sub;
    Sums(a, b);
    SubOfSum(a, b);
    SumOfSub(a, b);
  }

  lemma XorTwice(a: Word, b: Word)
    ensures Xor(Xor(a, b), b) == a
  {
  }

  lemma RotateBack(a: Word, n: Distance)
    ensures RotateLeft(RotateRight(a, n), n) == a && RotateRight(RotateLeft(a, n), n) == a
  {
    if n == 16 {
      assert RotateLeft(a.RotateRight(16), 16) == a && RotateRight(a.RotateLeft(16), 16) == a;
    } else if n == 12 {
      assert RotateLeft(a.RotateRight(12), 12) == a && RotateRight(a.RotateLeft(12), 12) == a;
    } else if n == 8 {
      assert RotateLeft(a.RotateRight(8), 8) == a && RotateRight(a.RotateLeft(8), 8) == a;
    } else {
      assert RotateLeft(a.RotateRight(7), 7) == a && RotateRight(a.RotateLeft(7), 7) == a;
    }
  }

  lemma HalfRoundTrip(q: Quad, x: Word, r: Distance, s: Distance)
    ensures HalfUnmix(HalfMix(q, x, r, s), x, r, s) == q
    ensures HalfMix(HalfUnmix(q, x, r, s), x, r, s) == q
  {
    hide Add, Sub, Xor, RotateRight, RotateLeft;
    var m := HalfMix(q, x, r, s);
    RotateBack(Xor(q.b, m.c), s);
    XorTwice(q.b, m.c);
    AddSub(q.c, m.d);
    RotateBack(Xor(q.d, m.a), r);
    XorTwice(q.d, m.a);
    AddSub(Add(q.a, q.b), x);
    AddSub(q.a, q.b);
    var u := HalfUnmix(q, x, r, s);
    AddSub(Sub(q.a, x), u.b);
    AddSub(q.a, x);
    XorTwice(RotateLeft(q.d, r), q.a);
    RotateBack(q.d, r);
    AddSub(q.c, q.d);
    XorTwice(RotateLeft(q.b, s), q.c);
    RotateBack(q.b, s);
  }

  /** G is a bijection of its four words, for every pair of message words. */
  lemma MixRoundTrip(q: Quad, x: Word, y: Word)
    ensures Unmix(Mix(q, x, y), x, y) == q && Mix(Unmix(q, x, y), x, y) == q
  {
    hide HalfMix, HalfUnmix;
    HalfRoundTrip(q, x, 16, 12);
    HalfRoundTrip(HalfMix(q, x, 16, 12), y, 8, 7);
    HalfRoundTrip(q, y, 8, 7);
    HalfRoundTrip(HalfUnmix(q, y, 8, 7), x, 16, 12);
  }

  // ------------------------------------------------------------- rounds

  /** Columns, then diagonals. */
  const A: seq<Index> := [0, 1, 2, 3, 0, 1, 2, 3]
  const B: seq<Index> := [4, 5, 6, 7, 5, 6, 7, 4]
  const C: seq<Index> := [8, 9, 10, 11, 10, 11, 8, 9]
  const D: seq<Index> := [12, 13, 14, 15, 15, 12, 13, 14]

  predicate Different(a: Index, b: Index, c: Index, d: Index) { a != b && a != c && a != d && b != c && b != d && c != d }

  lemma StepsDifferent(k: nat)
    requires k < 8
    ensures Different(A[k], B[k], C[k], D[k])
  {
  }

  function Put(v: Work, a: Index, b: Index, c: Index, d: Index, q: Quad): Work {
    v[a := q.a][b := q.b][c := q.c][d := q.d]
  }

  function Get(v: Work, a: Index, b: Index, c: Index, d: Index): Quad { Quad(v[a], v[b], v[c], v[d]) }

  function MixAt(v: Work, a: Index, b: Index, c: Index, d: Index, x: Word, y: Word): Work {
    Put(v, a, b, c, d, Mix(Get(v, a, b, c, d), x, y))
  }

  function UnmixAt(v: Work, a: Index, b: Index, c: Index, d: Index, x: Word, y: Word): Work {
    Put(v, a, b, c, d, Unmix(Get(v, a, b, c, d), x, y))
  }

  lemma AtRoundTrip(v: Work, a: Index, b: Index, c: Index, d: Index, x: Word, y: Word)
    requires Different(a, b, c, d)
    ensures UnmixAt(MixAt(v, a, b, c, d, x, y), a, b, c, d, x, y) == v
    ensures MixAt(UnmixAt(v, a, b, c, d, x, y), a, b, c, d, x, y) == v
  {
    hide Mix, Unmix;
    var q := Get(v, a, b, c, d);
    MixRoundTrip(q, x, y);
    PutPut(v, a, b, c, d, Mix(q, x, y));
    PutPut(v, a, b, c, d, Unmix(q, x, y));
  }

  lemma PutPut(v: Work, a: Index, b: Index, c: Index, d: Index, q: Quad)
    requires Different(a, b, c, d)
    ensures Get(Put(v, a, b, c, d, q), a, b, c, d) == q
    ensures Put(Put(v, a, b, c, d, q), a, b, c, d, Get(v, a, b, c, d)) == v
  {
  }

  /** The first `n` of the eight mixings of a round. */
  function Mixings(v: Work, m: Work, sigma: seq<Index>, n: nat): Work
    requires |sigma| == 16 && n <= 8
  {
    if n == 0 then v
    else MixAt(Mixings(v, m, sigma, n - 1), A[n - 1], B[n - 1], C[n - 1], D[n - 1], m[sigma[2 * n - 2]], m[sigma[2 * n - 1]])
  }

  lemma MixingsStep(v: Work, m: Work, sigma: seq<Index>, n: nat)
    requires |sigma| == 16 && n < 8
    ensures Mixings(v, m, sigma, n + 1) == MixAt(Mixings(v, m, sigma, n), A[n], B[n], C[n], D[n], m[sigma[2 * n]], m[sigma[2 * n + 1]])
    ensures Mixings(v, m, sigma, 0) == v
  {
  }

  function Unmixings(v: Work, m: Work, sigma: seq<Index>, n: nat): Work
    requires |sigma| == 16 && n <= 8
    decreases n
  {
    if n == 0 then v
    else Unmixings(UnmixAt(v, A[n - 1], B[n - 1], C[n - 1], D[n - 1], m[sigma[2 * n - 2]], m[sigma[2 * n - 1]]), m, sigma, n - 1)
  }

  lemma {:induction false} MixingsRoundTrip(v: Work, m: Work, sigma: seq<Index>, n: nat)
    requires |sigma| == 16 && n <= 8
    ensures Unmixings(Mixings(v, m, sigma, n), m, sigma, n) == v
    ensures Mixings(Unmixings(v, m, sigma, n), m, sigma, n) == v
    decreases n
  {
    hide MixAt, UnmixAt;
    if n > 0 {
      var x, y := m[sigma[2 * n - 2]], m[sigma[2 * n - 1]];
      StepsDifferent(n - 1);
      AtRoundTrip(Mixings(v, m, sigma, n - 1), A[n - 1], B[n - 1], C[n - 1], D[n - 1], x, y);
      MixingsRoundTrip(v, m, sigma, n - 1);
      AtRoundTrip(v, A[n - 1], B[n - 1], C[n - 1], D[n - 1], x, y);
      MixingsRoundTrip(UnmixAt(v, A[n - 1], B[n - 1], C[n - 1], D[n - 1], x, y), m, sigma, n - 1);
    }
  }

  // The work vector is a matrix of four rows and four columns; word 4 * i + j is in row i and column j.

  /** Column `j` as the words of a quad, and diagonal `j`, which moves one column on with every row. */
  function Column(v: Work, j: nat): Quad
    requires j < 4
  {
    Quad(v[j], v[4 + j], v[8 + j], v[12 + j])
  }

  function Diagonal(v: Work, j: nat): Quad
    requires j < 4
  {
    Quad(v[j], v[4 + (j + 1) % 4], v[8 + (j + 2) % 4], v[12 + (j + 3) % 4])
  }

  lemma PutElsewhere(v: Work, a: Index, b: Index, c: Index, d: Index, q: Quad, i: Index)
    requires i != a && i != b && i != c && i != d
    ensures Put(v, a, b, c, d, q)[i] == v[i]
  {
  }

  /** Mixing one column or diagonal leaves the others alone. */
  lemma ColumnAt(v: Work, k: nat, x: Word, y: Word, j: nat)
    requires k < 4 && j < 4
    ensures Column(MixAt(v, k, 4 + k, 8 + k, 12 + k, x, y), j) == if j == k then Mix(Column(v, k), x, y) else Column(v, j)
  {
    hide Mix, Put;
    var q := Mix(Column(v, k), x, y);
    if j == k {
      PutPut(v, k, 4 + k, 8 + k, 12 + k, q);
    } else {
      Aside(v, k, 4 + k, 8 + k, 12 + k, q, j, 4 + j, 8 + j, 12 + j);
    }
  }

  lemma DiagonalAt(v: Work, k: nat, x: Word, y: Word, j: nat)
    requires k < 4 && j < 4
    ensures Diagonal(MixAt(v, k, 4 + (k + 1) % 4, 8 + (k + 2) % 4, 12 + (k + 3) % 4, x, y), j)
         == if j == k then Mix(Diagonal(v, k), x, y) else Diagonal(v, j)
  {
    hide Mix, Put;
    var q := Mix(Diagonal(v, k), x, y);
    if j == k {
      PutPut(v, k, 4 + (k + 1) % 4, 8 + (k + 2) % 4, 12 + (k + 3) % 4, q);
    } else {
      TurnedApart(k, j);
      Aside(v, k, 4 + (k + 1) % 4, 8 + (k + 2) % 4, 12 + (k + 3) % 4, q, j, 4 + (j + 1) % 4, 8 + (j + 2) % 4, 12 + (j + 3) % 4);
    }
  }

  lemma TurnedApart(k: nat, j: nat)
    requires k < 4 && j < 4 && k != j
    ensures (k + 1) % 4 != (j + 1) % 4 && (k + 2) % 4 != (j + 2) % 4 && (k + 3) % 4 != (j + 3) % 4
  {
  }

  /** Words in four rows, and four others in the same rows. */
  lemma Aside(v: Work, a: Index, b: Index, c: Index, d: Index, q: Quad, e: Index, f: Index, g: Index, h: Index)
    requires a < 4 <= b < 8 <= c < 12 <= d && e < 4 <= f < 8 <= g < 12 <= h && a != e && b != f && c != g && d != h
    ensures Get(Put(v, a, b, c, d, q), e, f, g, h) == Get(v, e, f, g, h)
  {
    hide Put;
    PutElsewhere(v, a, b, c, d, q, e);
    PutElsewhere(v, a, b, c, d, q, f);
    PutElsewhere(v, a, b, c, d, q, g);
    PutElsewhere(v, a, b, c, d, q, h);
  }

  lemma StepPlaces(k: nat)
    requires k < 4
    ensures A[k] == k && B[k] == 4 + k && C[k] == 8 + k && D[k] == 12 + k
    ensures A[4 + k] == k && B[4 + k] == 4 + (k + 1) % 4 && C[4 + k] == 8 + (k + 2) % 4 && D[4 + k] == 12 + (k + 3) % 4
  {
  }

  /** The first four mixings of a round mix the columns, each with its two message words. */
  lemma {:induction false} ColumnsMixed(v: Work, m: Work, s: seq<Index>, n: nat, j: nat)
    requires |s| == 16 && n <= 4 && j < 4
    ensures Column(Mixings(v, m, s, n), j) == if j < n then Mix(Column(v, j), m[s[2 * j]], m[s[2 * j + 1]]) else Column(v, j)
  {
    hide Mix, Mixings, MixAt, Column;
    MixingsStep(v, m, s, 0);
    if n > 0 {
      MixingsStep(v, m, s, n - 1);
      StepPlaces(n - 1);
      ColumnAt(Mixings(v, m, s, n - 1), n - 1, m[s[2 * n - 2]], m[s[2 * n - 1]], j);
      ColumnsMixed(v, m, s, n - 1, j);
    }
  }

  /** The last four mix the diagonals. */
  lemma {:induction false} DiagonalsMixed(v: Work, m: Work, s: seq<Index>, n: nat, j: nat)
    requires |s| == 16 && n <= 4 && j < 4
    ensures Diagonal(Mixings(v, m, s, 4 + n), j)
         == if j < n then Mix(Diagonal(Mixings(v, m, s, 4), j), m[s[8 + 2 * j]], m[s[9 + 2 * j]]) else Diagonal(Mixings(v, m, s, 4), j)
  {
    hide Mix, Mixings, MixAt, Diagonal;
    if n > 0 {
      MixingsStep(v, m, s, 3 + n);
      StepPlaces(n - 1);
      DiagonalAt(Mixings(v, m, s, 3 + n), n - 1, m[s[6 + 2 * n]], m[s[7 + 2 * n]], j);
      DiagonalsMixed(v, m, s, n - 1, j);
    }
  }

  function Rounds(v: Work, m: Work, n: nat): Work {
    if n == 0 then v else Mixings(Rounds(v, m, n - 1), m, Sigma(n - 1), 8)
  }

  function Unrounds(v: Work, m: Work, n: nat): Work
    decreases n
  {
    if n == 0 then v else Unrounds(Unmixings(v, m, Sigma(n - 1), 8), m, n - 1)
  }

  /** For a fixed block, any number of rounds is a bijection of the sixteen words. */
  lemma {:induction false} RoundsBijective(v: Work, m: Work, n: nat)
    ensures Unrounds(Rounds(v, m, n), m, n) == v
    ensures Rounds(Unrounds(v, m, n), m, n) == v
    decreases n
  {
    hide Mixings, Unmixings, Sigma;
    if n > 0 {
      MixingsRoundTrip(Rounds(v, m, n - 1), m, Sigma(n - 1), 8);
      RoundsBijective(v, m, n - 1);
      MixingsRoundTrip(v, m, Sigma(n - 1), 8);
      RoundsBijective(Unmixings(v, m, Sigma(n - 1), 8), m, n - 1);
    }
  }
}
