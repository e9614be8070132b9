/**
  A known answer: the digest of one full block of sixteen different words, with ten rounds and with
  seven. Every round reads all sixteen message words, so the answer depends on the whole schedule, on
  the order of the mixings, on the rotations and on the initial state.
 */
module Blake2sVectors {
  import opened ModArith
  import opened Blake2sSpec
  import opened Blake2sHash

  /** The work vector by its four columns. */
  datatype Matrix = Matrix(c0: Quad, c1: Quad, c2: Quad, c3: Quad)

  /** The message words of four mixings: the first of each, and the second of each. */
  datatype Row = Row(x: Quad, y: Quad)

  function RowAt(m: Work, s: seq<Index>, k: nat): Row
    requires |s| == 16 && k <= 8
  {
    Row(Quad(m[s[k]], m[s[k + 2]], m[s[k + 4]], m[s[k + 6]]), Quad(m[s[k + 1]], m[s[k + 3]], m[s[k + 5]], m[s[k + 7]]))
  }

  function MixColumns(v: Matrix, r: Row): Matrix {
    Matrix(Mix(v.c0, r.x.a, r.y.a), Mix(v.c1, r.x.b, r.y.b), Mix(v.c2, r.x.c, r.y.c), Mix(v.c3, r.x.d, r.y.d))
  }

  /** The rows turned by their numbers, so that the diagonals stand upright; and turned back. */
  function Turned(v: Matrix): Matrix {
    Matrix(Quad(v.c0.a, v.c1.b, v.c2.c, v.c3.d), Quad(v.c1.a, v.c2.b, v.c3.c, v.c0.d),
           Quad(v.c2.a, v.c3.b, v.c0.c, v.c1.d), Quad(v.c3.a, v.c0.b, v.c1.c, v.c2.d))
  }

  function TurnedBack(v: Matrix): Matrix {
    Matrix(Quad(v.c0.a, v.c3.b, v.c2.c, v.c1.d), Quad(v.c1.a, v.c0.b, v.c3.c, v.c2.d),
           Quad(v.c2.a, v.c1.b, v.c0.c, v.c3.d), Quad(v.c3.a, v.c2.b, v.c1.c, v.c0.d))
  }

  function MixDiagonals(v: Matrix, r: Row): Matrix { TurnedBack(MixColumns(Turned(v), r)) }

  function MatrixOf(v: Work): Matrix { Matrix(Column(v, 0), Column(v, 1), Column(v, 2), Column(v, 3)) }

  lemma DiagonalsTurned(v: Work)
    ensures Turned(MatrixOf(v)) == Matrix(Diagonal(v, 0), Diagonal(v, 1), Diagonal(v, 2), Diagonal(v, 3))
  {
  }

  lemma ColumnsRound(v: Work, m: Work, s: seq<Index>)
    requires |s| == 16
    ensures MatrixOf(Mixings(v, m, s, 4)) == MixColumns(MatrixOf(v), RowAt(m, s, 0))
  {
    hide Mix, Mixings, Column;
    ColumnsMixed(v, m, s, 4, 0);
    ColumnsMixed(v, m, s, 4, 1);
    ColumnsMixed(v, m, s, 4, 2);
    ColumnsMixed(v, m, s, 4, 3);
  }

  lemma DiagonalsRound(v: Work, m: Work, s: seq<Index>)
    requires |s| == 16
    ensures Turned(MatrixOf(Mixings(v, m, s, 8))) == MixColumns(Turned(MatrixOf(Mixings(v, m, s, 4))), RowAt(m, s, 8))
  {
    hide Mix, Mixings, Diagonal, Turned, MatrixOf;
    DiagonalsTurned(Mixings(v, m, s, 4));
    DiagonalsTurned(Mixings(v, m, s, 8));
    DiagonalsMixed(v, m, s, 4, 0);
    DiagonalsMixed(v, m, s, 4, 1);
    DiagonalsMixed(v, m, s, 4, 2);
    DiagonalsMixed(v, m, s, 4, 3);
  }

  lemma TurnTwice(v: Matrix)
    ensures TurnedBack(Turned(v)) == v
  {
  }

  /** A round of the hash is a round of the matrix. */
  lemma MatrixRound(v: Work, m: Work, s: seq<Index>)
    requires |s| == 16
    ensures MatrixOf(Mixings(v, m, s, 8)) == MixDiagonals(MixColumns(MatrixOf(v), RowAt(m, s, 0)), RowAt(m, s, 8))
  {
    hide Mixings, MixColumns, MatrixOf, RowAt, Turned, TurnedBack;
    ColumnsRound(v, m, s);
    DiagonalsRound(v, m, s);
    TurnTwice(MatrixOf(Mixings(v, m, s, 8)));
  }

  /** Hashing the block `m` alone, the matrix is `x` after `n` rounds. */
  ghost predicate Reaches(m: Work, n: nat, x: Matrix) { MatrixOf(Rounds(WorkVector(ConfiguredIv(), 64, true), m, n)) == x }

  /** One more round, from what the matrix becomes. */
  lemma NextRound(m: Work, n: nat, x: Matrix, p: Row, y: Matrix, q: Row, z: Matrix)
    requires Reaches(m, n, x) && p == RowAt(m, Sigma(n), 0) && q == RowAt(m, Sigma(n), 8)
    requires MixColumns(x, p) == y && MixDiagonals(y, q) == z
    ensures Reaches(m, n + 1, z)
  {
    hide Mixings, Sigma, MixColumns, MixDiagonals, MatrixOf, RowAt, WorkVector, ConfiguredIv;
    MatrixRound(Rounds(WorkVector(ConfiguredIv(), 64, true), m, n), m, Sigma(n));
  }

  const MESSAGE: Work := [0, 1, 2, 3, 4, 5, 6, 7, 8, 9, 10, 11, 12, 13, 14, 15]

  // ---------------------------------- the work vector before each round, and within it

  const X0 := Matrix(Quad(0x6B08E647, 0x510E527F, 0x6A09E667, 0x510E523F), Quad(0xBB67AE85, 0x9B05688C, 0xBB67AE85, 0x9B05688C),
                     Quad(0x3C6EF372, 0x1F83D9AB, 0x3C6EF372, 0xE07C2654), Quad(0xA54FF53A, 0x5BE0CD19, 0xA54FF53A, 0x5BE0CD19))
  const Y0 := Matrix(Quad(0xDC0F799F, 0x98888515, 0x5BBACA14, 0x86B6F694), Quad(0x8C871737, 0xCD59C129, 0x9AFA94C7, 0x5FF318DA),
                     Quad(0xC6A6539D, 0x3EA34209, 0x3B1282E8, 0x132DD3E8), Quad(0xD26FB969, 0xC97EA711, 0x6E6D7FED, 0xB9DD2FE3))
  const X1 := Matrix(Quad(0xD4C30C9E, 0x53EF79ED, 0x0BB94EA9, 0x416CF22A), Quad(0xC32C67DD, 0xFAA0BCA4, 0x4F2DFBD1, 0xCD9DB4BE),
                     Quad(0x7FD4711A, 0x774F7562, 0x7B0783B8, 0xC6CEED35), Quad(0x23894C13, 0xF5C82C71, 0x5FB8BFB3, 0x2AC1F01C))
  const Y1 := Matrix(Quad(0x3F5FBEDF, 0xC52E2B3A, 0x81B8A55E, 0x014BECD7), Quad(0xC61F812A, 0x1EA3DB9B, 0x59BF9112, 0x7A5624F1),
                     Quad(0x03A30620, 0xA0BF81AE, 0x53BFC8DC, 0xCD081337), Quad(0x0C735174, 0xF07FD652, 0xCCCAF1A5, 0xE484FE62))
  const X2 := Matrix(Quad(0xED8E322C, 0x85311245, 0xC0F9DAE0, 0xA31E5FCE), Quad(0xF050A937, 0x9DD9D31A, 0xF099E41A, 0x46B4A70E),
                     Quad(0x4C2B8032, 0xB5A9123E, 0x63631AEB, 0x2756365F), Quad(0x39B2438E, 0x9D31E2F2, 0x5DF8B907, 0xAB899788))
  const Y2 := Matrix(Quad(0x5F04DE5F, 0x966D69F6, 0xDAF16290, 0xFE44B60F), Quad(0x884FDFA4, 0x11F8CB57, 0x0640C8CF, 0x3A531C17),
                     Quad(0x370FB4BC, 0x74E63689, 0x462066FF, 0x3E932592), Quad(0x1F4D49B9, 0x6B578F47, 0xE3AE80A8, 0xD4AE4A34))
  const X3 := Matrix(Quad(0x715168AA, 0x68E7994B, 0xC9B17C15, 0x83864A85), Quad(0x267586F1, 0x8447E81F, 0xD32C05D7, 0x96A28151),
                     Quad(0xFA9CC9A2, 0x485C997C, 0x23A7B11E, 0x36C0B1DF), Quad(0x569B541F, 0x052309F3, 0x0773CE9F, 0xF992A5CC))
  const Y3 := Matrix(Quad(0xA430DED9, 0x1F6BDB87, 0x7C1A1F5B, 0x66EF4987), Quad(0x4951C1AE, 0xD3DB020E, 0x731555F3, 0xB1A713FD),
                     Quad(0x05B54F42, 0x33619115, 0x72736692, 0x7BD7413B), Quad(0xEF3EC492, 0xACA5B40C, 0xC15A6031, 0xBE14EF66))
  const X4 := Matrix(Quad(0x6400FE71, 0x40FCA6C7, 0x7401C560, 0x3C2D0D55), Quad(0x36424F60, 0xD637374C, 0x7127D791, 0xE738A209),
                     Quad(0x280D0A1B, 0xD942B0F6, 0xF06EBBE9, 0x1CFF0C21), Quad(0x1E1F5461, 0x52036787, 0x18D687E2, 0x6E6B8F38))
  const Y4 := Matrix(Quad(0x347373F0, 0x69678E11, 0x3CB2C61B, 0x209C67EB), Quad(0x665DC437, 0xFCAB8F2A, 0x0C23A801, 0x7642E52F),
                     Quad(0x9847A93D, 0xD7444F42, 0x34D04F4D, 0x8D2F75B4), Quad(0x8AE4B63D, 0xDFB13E5D, 0xC25ED4D3, 0x74BE2EA8))
  const X5 := Matrix(Quad(0xED68F2DA, 0x993D6C21, 0x4C53D1CC, 0x15668F31), Quad(0x12E02C2B, 0x28C4B124, 0x69E36626, 0x0D1209F7),
                     Quad(0x1086F6B7, 0xB3321533, 0xDE117DA5, 0x2BDA44C2), Quad(0xEBA1BB48, 0x87A9BBBD, 0x4C348142, 0x7BC0E8B7))
  const Y5 := Matrix(Quad(0x217ED0D9, 0x3F4592CC, 0x381117CF, 0x19F0B243), Quad(0x1B264171, 0x83B3A88A, 0x06552153, 0xC7CF8477),
                     Quad(0xF772EC7C, 0x16FE9641, 0x4CF2C00C, 0x1FB85A04), Quad(0x9A523B83, 0xE7A9E56C, 0xF3F47200, 0x0805E833))
  const X6 := Matrix(Quad(0x01C858C0, 0x55FD1DC1, 0xCEFAB40F, 0x6A8E83E3), Quad(0xEB79C8BE, 0xE9129BAA, 0xAA64BE6D, 0x4169836D),
                     Quad(0x3C037592, 0x6EFA53A1, 0xD5D80A38, 0x0FBAD6EB), Quad(0x2E822D20, 0x0524382F, 0xC47D21B7, 0xF7909CF5))
  const Y6 := Matrix(Quad(0x217E8FF0, 0xA4930836, 0x803D020C, 0xBBD410B2), Quad(0xD413EC34, 0xEF3A37D8, 0x629C6BCB, 0xD1331779),
                     Quad(0x78E780DD, 0x56840096, 0x8FE9FCA4, 0x9A674D25), Quad(0x0FD215DA, 0x86EE63D5, 0xAB1A5ABE, 0xECF674D1))
  const X7 := Matrix(Quad(0x03638B6B, 0x8137A3A0, 0xA8C0C80D, 0x2208759D), Quad(0xF4170C61, 0xEB343D61, 0x8460C4E9, 0x34C1971B),
                     Quad(0x325535D2, 0x2001F4FC, 0x68B47369, 0xCE872B1C), Quad(0xD41632CC, 0x31357F32, 0xC985619E, 0x25B07A77))
  const Y7 := Matrix(Quad(0x54A3563F, 0x18FEB965, 0xAF549590, 0xAC0E26F0), Quad(0xB073CA4F, 0xD9F315A3, 0x28A25194, 0xC56EA121),
                     Quad(0x9EABD289, 0x53109DB4, 0xC41A7D87, 0x599F6D4E), Quad(0xE005BEF9, 0xB09D33F5, 0x9423F637, 0x0228739E))
  const X8 := Matrix(Quad(0x2CF6C1F2, 0xFD4E5650, 0x10B0F09D, 0xF3C43DC6), Quad(0x8ADF6979, 0x73AD50D8, 0x13897A9A, 0xB9B4D0E6),
                     Quad(0x13776C9E, 0xC8A323C5, 0x28C83A32, 0xD5B8886B), Quad(0xADA6CB4E, 0x1FA93D2D, 0xD6CAE387, 0x4C348FED))
  const Y8 := Matrix(Quad(0xEF31CF70, 0x5BD9CC7C, 0x280A8934, 0xF1CABF16), Quad(0x0F2D9961, 0x938E1110, 0xD7A856B0, 0x596594DE),
                     Quad(0xDD331757, 0x286F15FE, 0x369279F2, 0xF5C5361E), Quad(0x69B42508, 0x14AE5736, 0xCB4F878F, 0x6CEE22A4))
  const X9 := Matrix(Quad(0x17F693E5, 0x264D5D3E, 0x8EFBC62D, 0x9EA9212F), Quad(0xB95BE9C8, 0x2E714FEB, 0x8EE2D107, 0x6CA09475),
                     Quad(0x5AC4DDE8, 0x83F798AA, 0xAD9146C0, 0xEFAA4A0F), Quad(0x6DDA3FA7, 0xF7CC3152, 0x7A736F14, 0xB4D5DE7D))
  const Y9 := Matrix(Quad(0xE0DB7C62, 0x808B7197, 0xE72F40F3, 0x8830D9DC), Quad(0x21BE65C0, 0xC7A799C2, 0xEA3DCD62, 0xAD8C70EE),
                     Quad(0xD68313AD, 0xECA3AE23, 0xA6118CF8, 0xBBEA1522), Quad(0x83046476, 0x9666EA6E, 0x2E28C43C, 0x052D83B5))
  const X10 := Matrix(Quad(0xDED2DA38, 0x161E01E0, 0x739EAB1B, 0xFA9303E5), Quad(0x593363A8, 0xCFCF5899, 0x4A022FD4, 0xFD7EA8C3),
                      Quad(0xF0580298, 0xBB707A03, 0xD1E38F1D, 0x9C8BAA0D), Quad(0x4892B5F9, 0xEBE1E15E, 0xF2EC4E73, 0x964B5477))

  const P0 := Row(Quad(0, 2, 4, 6), Quad(1, 3, 5, 7))
  const Q0 := Row(Quad(8, 10, 12, 14), Quad(9, 11, 13, 15))
  const P1 := Row(Quad(14, 4, 9, 13), Quad(10, 8, 15, 6))
  const Q1 := Row(Quad(1, 0, 11, 5), Quad(12, 2, 7, 3))
  const P2 := Row(Quad(11, 12, 5, 15), Quad(8, 0, 2, 13))
  const Q2 := Row(Quad(10, 3, 7, 9), Quad(14, 6, 1, 4))
  const P3 := Row(Quad(7, 3, 13, 11), Quad(9, 1, 12, 14))
  const Q3 := Row(Quad(2, 5, 4, 15), Quad(6, 10, 0, 8))
  const P4 := Row(Quad(9, 5, 2, 10), Quad(0, 7, 4, 15))
  const Q4 := Row(Quad(14, 11, 6, 3), Quad(1, 12, 8, 13))
  const P5 := Row(Quad(2, 6, 0, 8), Quad(12, 10, 11, 3))
  const Q5 := Row(Quad(4, 7, 15, 1), Quad(13, 5, 14, 9))
  const P6 := Row(Quad(12, 1, 14, 4), Quad(5, 15, 13, 10))
  const Q6 := Row(Quad(0, 6, 9, 8), Quad(7, 3, 2, 11))
  const P7 := Row(Quad(13, 7, 12, 3), Quad(11, 14, 1, 9))
  const Q7 := Row(Quad(5, 15, 8, 2), Quad(0, 4, 6, 10))
  const P8 := Row(Quad(6, 14, 11, 0), Quad(15, 9, 3, 8))
  const Q8 := Row(Quad(12, 13, 1, 10), Quad(2, 7, 4, 5))
  const P9 := Row(Quad(10, 8, 7, 1), Quad(2, 4, 6, 5))
  const Q9 := Row(Quad(15, 9, 3, 13), Quad(11, 14, 12, 0))

  lemma InitialState()
    ensures ConfiguredIv() == [0x6B08E647, 0xBB67AE85, 0x3C6EF372, 0xA54FF53A, 0x510E527F, 0x9B05688C, 0x1F83D9AB, 0x5BE0CD19]
  {
  }

  lemma Start(m: Work)
    ensures Reaches(m, 0, X0)
  {
    InitialState();
    hide ConfiguredIv;
    StartVector(ConfiguredIv());
  }

  lemma StartVector(h: State)
    requires h == [0x6B08E647, 0xBB67AE85, 0x3C6EF372, 0xA54FF53A, 0x510E527F, 0x9B05688C, 0x1F83D9AB, 0x5BE0CD19]
    ensures MatrixOf(WorkVector(h, 64, true)) == X0
  {
  }

  lemma Row0()
    ensures RowAt(MESSAGE, Sigma(0), 0) == P0 && RowAt(MESSAGE, Sigma(0), 8) == Q0
  {
  }

  lemma Columns0()
    ensures MixColumns(X0, P0) == Y0
  {
  }

  lemma Diagonals0()
    ensures MixDiagonals(Y0, Q0) == X1
  {
  }

  lemma Round0()
    ensures Reaches(MESSAGE, 1, X1)
  {
    hide Reaches, MixColumns, MixDiagonals, RowAt, Sigma;
    Start(MESSAGE);
    Row0();
    Columns0();
    Diagonals0();
    NextRound(MESSAGE, 0, X0, P0, Y0, Q0, X1);
  }

  lemma Row1()
    ensures RowAt(MESSAGE, Sigma(1), 0) == P1 && RowAt(MESSAGE, Sigma(1), 8) == Q1
  {
  }

  lemma Columns1()
    ensures MixColumns(X1, P1) == Y1
  {
  }

  lemma Diagonals1()
    ensures MixDiagonals(Y1, Q1) == X2
  {
  }

  lemma Round1()
    ensures Reaches(MESSAGE, 2, X2)
  {
    hide Reaches, MixColumns, MixDiagonals, RowAt, Sigma;
    Round0();
    Row1();
    Columns1();
    Diagonals1();
    NextRound(MESSAGE, 1, X1, P1, Y1, Q1, X2);
  }

  lemma Row2()
    ensures RowAt(MESSAGE, Sigma(2), 0) == P2 && RowAt(MESSAGE, Sigma(2), 8) == Q2
  {
  }

  lemma Columns2()
    ensures MixColumns(X2, P2) == Y2
  {
  }

  lemma Diagonals2()
    ensures MixDiagonals(Y2, Q2) == X3
  {
  }

  lemma Round2()
    ensures Reaches(MESSAGE, 3, X3)
  {
    hide Reaches, MixColumns, MixDiagonals, RowAt, Sigma;
    Round1();
    Row2();
    Columns2();
    Diagonals2();
    NextRound(MESSAGE, 2, X2, P2, Y2, Q2, X3);
  }

  lemma Row3()
    ensures RowAt(MESSAGE, Sigma(3), 0) == P3 && RowAt(MESSAGE, Sigma(3), 8) == Q3
  {
  }

  lemma Columns3()
    ensures MixColumns(X3, P3) == Y3
  {
  }

  lemma Diagonals3()
    ensures MixDiagonals(Y3, Q3) == X4
  {
  }

  lemma Round3()
    ensures Reaches(MESSAGE, 4, X4)
  {
    hide Reaches, MixColumns, MixDiagonals, RowAt, Sigma;
    Round2();
    Row3();
    Columns3();
    Diagonals3();
    NextRound(MESSAGE, 3, X3, P3, Y3, Q3, X4);
  }

  lemma Row4()
    ensures RowAt(MESSAGE, Sigma(4), 0) == P4 && RowAt(MESSAGE, Sigma(4), 8) == Q4
  {
  }

  lemma Columns4()
    ensures MixColumns(X4, P4) == Y4
  {
  }

  lemma Diagonals4()
    ensures MixDiagonals(Y4, Q4) == X5
  {
  }

  lemma Round4()
    ensures Reaches(MESSAGE, 5, X5)
  {
    hide Reaches, MixColumns, MixDiagonals, RowAt, Sigma;
    Round3();
    Row4();
    Columns4();
    Diagonals4();
    NextRound(MESSAGE, 4, X4, P4, Y4, Q4, X5);
  }

  lemma Row5()
    ensures RowAt(MESSAGE, Sigma(5), 0) == P5 && RowAt(MESSAGE, Sigma(5), 8) == Q5
  {
  }

  lemma Columns5()
    ensures MixColumns(X5, P5) == Y5
  {
  }

  lemma Diagonals5()
    ensures MixDiagonals(Y5, Q5) == X6
  {
  }

  lemma Round5()
    ensures Reaches(MESSAGE, 6, X6)
  {
    hide Reaches, MixColumns, MixDiagonals, RowAt, Sigma;
    Round4();
    Row5();
    Columns5();
    Diagonals5();
    NextRound(MESSAGE, 5, X5, P5, Y5, Q5, X6);
  }

  lemma Row6()
    ensures RowAt(MESSAGE, Sigma(6), 0) == P6 && RowAt(MESSAGE, Sigma(6), 8) == Q6
  {
  }

  lemma Columns6()
    ensures MixColumns(X6, P6) == Y6
  {
  }

  lemma Diagonals6()
    ensures MixDiagonals(Y6, Q6) == X7
  {
  }

  lemma Round6()
    ensures Reaches(MESSAGE, 7, X7)
  {
    hide Reaches, MixColumns, MixDiagonals, RowAt, Sigma;
    Round5();
    Row6();
    Columns6();
    Diagonals6();
    NextRound(MESSAGE, 6, X6, P6, Y6, Q6, X7);
  }

  lemma Row7()
    ensures RowAt(MESSAGE, Sigma(7), 0) == P7 && RowAt(MESSAGE, Sigma(7), 8) == Q7
  {
  }

  lemma Columns7()
    ensures MixColumns(X7, P7) == Y7
  {
  }

  lemma Diagonals7()
    ensures MixDiagonals(Y7, Q7) == X8
  {
  }

  lemma Round7()
    ensures Reaches(MESSAGE, 8, X8)
  {
    hide Reaches, MixColumns, MixDiagonals, RowAt, Sigma;
    Round6();
    Row7();
    Columns7();
    Diagonals7();
    NextRound(MESSAGE, 7, X7, P7, Y7, Q7, X8);
  }

  lemma Row8()
    ensures RowAt(MESSAGE, Sigma(8), 0) == P8 && RowAt(MESSAGE, Sigma(8), 8) == Q8
  {
  }

  lemma Columns8()
    ensures MixColumns(X8, P8) == Y8
  {
  }

  lemma Diagonals8()
    ensures MixDiagonals(Y8, Q8) == X9
  {
  }

  lemma Round8()
    ensures Reaches(MESSAGE, 9, X9)
  {
    hide Reaches, MixColumns, MixDiagonals, RowAt, Sigma;
    Round7();
    Row8();
    Columns8();
    Diagonals8();
    NextRound(MESSAGE, 8, X8, P8, Y8, Q8, X9);
  }

  lemma Row9()
    ensures RowAt(MESSAGE, Sigma(9), 0) == P9 && RowAt(MESSAGE, Sigma(9), 8) == Q9
  {
  }

  lemma Columns9()
    ensures MixColumns(X9, P9) == Y9
  {
  }

  lemma Diagonals9()
    ensures MixDiagonals(Y9, Q9) == X10
  {
  }

  lemma Round9()
    ensures Reaches(MESSAGE, 10, X10)
  {
    hide Reaches, MixColumns, MixDiagonals, RowAt, Sigma;
    Round8();
    Row9();
    Columns9();
    Diagonals9();
    NextRound(MESSAGE, 9, X9, P9, Y9, Q9, X10);
  }

  // ------------------------------------------------------------------- the digest

  function FoldedMatrix(h: State, x: Matrix): State {
    [Xor(Xor(h[0], x.c0.a), x.c0.c), Xor(Xor(h[1], x.c1.a), x.c1.c), Xor(Xor(h[2], x.c2.a), x.c2.c), Xor(Xor(h[3], x.c3.a), x.c3.c),
     Xor(Xor(h[4], x.c0.b), x.c0.d), Xor(Xor(h[5], x.c1.b), x.c1.d), Xor(Xor(h[6], x.c2.b), x.c2.d), Xor(Xor(h[7], x.c3.b), x.c3.d)]
  }

  lemma FoldedAt(h: State, v: Work, i: nat)
    requires i < 8
    ensures Folded(h, v)[i] == Xor(Xor(h[i], v[i]), v[i + 8])
  {
  }

  lemma Folds(h: State, v: Work)
    ensures Folded(h, v) == FoldedMatrix(h, MatrixOf(v))
  {
    hide Xor, Folded;
    FoldedAt(h, v, 0);
    FoldedAt(h, v, 1);
    FoldedAt(h, v, 2);
    FoldedAt(h, v, 3);
    FoldedAt(h, v, 4);
    FoldedAt(h, v, 5);
    FoldedAt(h, v, 6);
    FoldedAt(h, v, 7);
  }

  /** The digest of one full block: the rounds on its work vector, folded. */
  lemma OneBlock(m: Work, rounds: nat, x: Matrix)
    requires Reaches(m, rounds, x)
    ensures Digest(rounds, m, 64) == FoldedMatrix(ConfiguredIv(), x)
  {
    hide Rounds, ConfiguredIv, MatrixOf, WorkVector, Folded, FoldedMatrix;
    assert Block(m, 0) == m;
    assert FullBlocks(64) == 0;
    Folds(ConfiguredIv(), Rounds(WorkVector(ConfiguredIv(), 64, true), m, rounds));
  }

  /** The sixteen words 0 to 15, hashed with the ten rounds of the standard. */
  lemma KnownAnswer()
    ensures Digest(FULL_ROUNDS, MESSAGE, 64) == [0xC6449764, 0xA856E2F9, 0x1DD57EF7, 0x1F310EB0, 0xBD83507A, 0xA9B498D6, 0x387809A5, 0x264A7830]
  {
    hide Reaches, ConfiguredIv, Digest;
    Round9();
    OneBlock(MESSAGE, FULL_ROUNDS, X10);
    InitialState();
  }

  /** The same message with the seven rounds of the transcripts. */
  lemma KnownReducedAnswer()
    ensures Digest(REDUCED_ROUNDS, MESSAGE, 64) == [0xC0ABA521, 0xCB10660D, 0x668FB5C9, 0xB8DCA668, 0xF2318442, 0x44F0C2F6, 0xF105064B, 0x4F65C85C]
  {
    hide Reaches, ConfiguredIv, Digest;
    Round6();
    OneBlock(MESSAGE, REDUCED_ROUNDS, X7);
    InitialState();
  }
  // ------------------------------------------------------------- sixteen zero words

  const ZEROS: Work := [0, 0, 0, 0, 0, 0, 0, 0, 0, 0, 0, 0, 0, 0, 0, 0]
  const NONE := Row(Quad(0, 0, 0, 0), Quad(0, 0, 0, 0))

  const W0 := Matrix(Quad(0xDC0F799E, 0x98868515, 0x5CBACA14, 0x87B6F694), Quad(0x8C871712, 0x8D07C52D, 0xB5F896C7, 0x7AF31ADA),
                     Quad(0xC6A650D4, 0xB9D6AA3A, 0x81E69EEB, 0x5A2DEFEB), Quad(0xD26FB9FC, 0x88609304, 0xE17775ED, 0x2CDD25E3))
  const Z1 := Matrix(Quad(0x82983F5D, 0xF87C917D, 0x9A43E6FD, 0x5E135F08), Quad(0x2487C9B5, 0x7A5A532B, 0x153959B8, 0x4486E6F4),
                     Quad(0x7FE4C1B1, 0x1352933D, 0x34A8952F, 0x8E469216), Quad(0x96682655, 0x49553C76, 0x776396E0, 0x9799B07A))
  const W1 := Matrix(Quad(0x52B1F783, 0xFEF2DC92, 0xAEF36FD6, 0x84DD63D2), Quad(0x12596E26, 0x2C4283A1, 0x523681D0, 0x42E84DB4),
                     Quad(0xAD15E410, 0x7689A45F, 0x5D0CA099, 0x616BEDF9), Quad(0x16DD96E9, 0xF841F2FF, 0x17D94BE2, 0xCDC46CDE))
  const Z2 := Matrix(Quad(0x857A0F81, 0x2A6EE47A, 0x901610A7, 0x1A21B402), Quad(0x50E30E24, 0xB0403881, 0x96E2D9B7, 0x4666B912),
                     Quad(0xFC02F5F9, 0x7AC95BEF, 0x2699D485, 0xA629E32C), Quad(0xB761581D, 0x9B8D7A1C, 0xA3520C22, 0xB19280BC))
  const W2 := Matrix(Quad(0xD0981A0D, 0x1B78101C, 0x9CA7281F, 0xC49761AF), Quad(0x88F5B446, 0x9C3B861C, 0x9A1163EF, 0x037742F3),
                     Quad(0x5F268B67, 0x75682D7D, 0x5C4C87C5, 0x82EDE25B), Quad(0xAB15B7E2, 0xB799EF34, 0x94D17FF2, 0x9EF99054))
  const Z3 := Matrix(Quad(0x6C04AF48, 0xE9983EB2, 0x948BCC87, 0xD6FA1FDD), Quad(0x7A73E71C, 0xA6202FF8, 0x4925159F, 0xBF7C8EB1),
                     Quad(0x44E6A408, 0x812043BF, 0xEF26F34C, 0x896E6D50), Quad(0x4BC814E9, 0xD5755BCB, 0xEC37DA99, 0x625C795D))
  const W3 := Matrix(Quad(0x6B93E0B1, 0xCE9777ED, 0x5E4D0450, 0xD799B463), Quad(0xC88865BD, 0x513FDF5A, 0x381BE381, 0x55512DFA),
                     Quad(0xD6C671A7, 0x24B34A34, 0x491A93F2, 0xCF5C513E), Quad(0x844FA5F8, 0x49D979E3, 0x8FAEC4E0, 0x998DA6E6))
  const Z4 := Matrix(Quad(0x1D81D391, 0x2B73FC0F, 0x296380D2, 0x8E533695), Quad(0x48A4AF2C, 0x803E5A6B, 0xD4EAA19A, 0x04A606B4),
                     Quad(0x6076C1CA, 0x58C5F992, 0x7F832646, 0x4FF3205E), Quad(0xBFFBC3F4, 0x242D6AAD, 0x39943617, 0xCF7B6CF6))
  const W4 := Matrix(Quad(0x00666E4B, 0x174FC40B, 0x10929B20, 0xEDF953A8), Quad(0x44294C9A, 0xB9703E76, 0xC359785F, 0xDF4B0A80),
                     Quad(0x01B0DF9A, 0x0070A9D6, 0x7020CF3E, 0x559AB229), Quad(0xA06F2B01, 0x12E710CA, 0xCFCD9969, 0x53E23800))
  const Z5 := Matrix(Quad(0x2A2285E9, 0x1575FF62, 0xC304843E, 0xBE5349FA), Quad(0xF69153DE, 0x9325D48B, 0x527CC203, 0xB78D1D42),
                     Quad(0x77F9896B, 0x5B041DA3, 0xE2A19CE1, 0x31FD6780), Quad(0xA0426215, 0x7340CA3A, 0x33F98CC3, 0xDDBEE36F))
  const W5 := Matrix(Quad(0xD652318A, 0x0C8CD28B, 0xD0D0E9B9, 0x411AE3B0), Quad(0xD5187146, 0xA29FD2F6, 0x0488338C, 0x7CE0334F),
                     Quad(0xF72D2A54, 0xD9A68F41, 0xF76823AA, 0x5437A3C9), Quad(0x272A31F8, 0xADB54AC0, 0xC90265FF, 0xC5E80AFF))
  const Z6 := Matrix(Quad(0x9C1C7C03, 0x9A1688C7, 0xC5478781, 0xF1BE21B5), Quad(0x5D165A54, 0x0C78A066, 0x933E1629, 0xAE1AC5C6),
                     Quad(0x5C9E1EAC, 0x28675E5D, 0x1F7A4485, 0xE76B7B1D), Quad(0xCC317A67, 0x32E5F85C, 0x9DF87759, 0x199263C1))
  const W6 := Matrix(Quad(0xB2CA11E6, 0xF0559013, 0x565F04E4, 0x6B97B5D6), Quad(0x474CE6E1, 0xF32B1DC3, 0x48330DDE, 0x75783021),
                     Quad(0x0FE65BA8, 0x66C2F08F, 0xEB98992C, 0xC609F239), Quad(0x574134AD, 0xB51ED0C0, 0xD741A1B0, 0x284643D2))
  const Z7 := Matrix(Quad(0x57BFE39C, 0x5777BBC4, 0x25AC1D78, 0x8148230F), Quad(0x2A85CA19, 0x7C6D0AB1, 0x4D3515BA, 0xB3036817),
                     Quad(0x1F21A7CE, 0xFD8E8AF1, 0x874FEB4D, 0xCE08863D), Quad(0x3E7FBC51, 0x3CFF60CC, 0xBB308A57, 0x2F3BC46E))

  lemma NoWords(s: seq<Index>, k: nat)
    requires |s| == 16 && k <= 8
    ensures RowAt(ZEROS, s, k) == NONE
  {
  }

  lemma ZeroRound0()
    ensures Reaches(ZEROS, 1, Z1)
  {
    hide Reaches, MixColumns, MixDiagonals, RowAt, Sigma;
    Start(ZEROS);
    NoWords(Sigma(0), 0);
    NoWords(Sigma(0), 8);
    ZeroColumns0();
    ZeroDiagonals0();
    NextRound(ZEROS, 0, X0, NONE, W0, NONE, Z1);
  }

  lemma ZeroColumns0()
    ensures MixColumns(X0, NONE) == W0
  {
  }

  lemma ZeroDiagonals0()
    ensures MixDiagonals(W0, NONE) == Z1
  {
  }

  lemma ZeroRound1()
    ensures Reaches(ZEROS, 2, Z2)
  {
    hide Reaches, MixColumns, MixDiagonals, RowAt, Sigma;
    ZeroRound0();
    NoWords(Sigma(1), 0);
    NoWords(Sigma(1), 8);
    ZeroColumns1();
    ZeroDiagonals1();
    NextRound(ZEROS, 1, Z1, NONE, W1, NONE, Z2);
  }

  lemma ZeroColumns1()
    ensures MixColumns(Z1, NONE) == W1
  {
  }

  lemma ZeroDiagonals1()
    ensures MixDiagonals(W1, NONE) == Z2
  {
  }

  lemma ZeroRound2()
    ensures Reaches(ZEROS, 3, Z3)
  {
    hide Reaches, MixColumns, MixDiagonals, RowAt, Sigma;
    ZeroRound1();
    NoWords(Sigma(2), 0);
    NoWords(Sigma(2), 8);
    ZeroColumns2();
    ZeroDiagonals2();
    NextRound(ZEROS, 2, Z2, NONE, W2, NONE, Z3);
  }

  lemma ZeroColumns2()
    ensures MixColumns(Z2, NONE) == W2
  {
  }

  lemma ZeroDiagonals2()
    ensures MixDiagonals(W2, NONE) == Z3
  {
  }

  lemma ZeroRound3()
    ensures Reaches(ZEROS, 4, Z4)
  {
    hide Reaches, MixColumns, MixDiagonals, RowAt, Sigma;
    ZeroRound2();
    NoWords(Sigma(3), 0);
    NoWords(Sigma(3), 8);
    ZeroColumns3();
    ZeroDiagonals3();
    NextRound(ZEROS, 3, Z3, NONE, W3, NONE, Z4);
  }

  lemma ZeroColumns3()
    ensures MixColumns(Z3, NONE) == W3
  {
  }

  lemma ZeroDiagonals3()
    ensures MixDiagonals(W3, NONE) == Z4
  {
  }

  lemma ZeroRound4()
    ensures Reaches(ZEROS, 5, Z5)
  {
    hide Reaches, MixColumns, MixDiagonals, RowAt, Sigma;
    ZeroRound3();
    NoWords(Sigma(4), 0);
    NoWords(Sigma(4), 8);
    ZeroColumns4();
    ZeroDiagonals4();
    NextRound(ZEROS, 4, Z4, NONE, W4, NONE, Z5);
  }

  lemma ZeroColumns4()
    ensures MixColumns(Z4, NONE) == W4
  {
  }

  lemma ZeroDiagonals4()
    ensures MixDiagonals(W4, NONE) == Z5
  {
  }

  lemma ZeroRound5()
    ensures Reaches(ZEROS, 6, Z6)
  {
    hide Reaches, MixColumns, MixDiagonals, RowAt, Sigma;
    ZeroRound4();
    NoWords(Sigma(5), 0);
    NoWords(Sigma(5), 8);
    ZeroColumns5();
    ZeroDiagonals5();
    NextRound(ZEROS, 5, Z5, NONE, W5, NONE, Z6);
  }

  lemma ZeroColumns5()
    ensures MixColumns(Z5, NONE) == W5
  {
  }

  lemma ZeroDiagonals5()
    ensures MixDiagonals(W5, NONE) == Z6
  {
  }

  lemma ZeroRound6()
    ensures Reaches(ZEROS, 7, Z7)
  {
    hide Reaches, MixColumns, MixDiagonals, RowAt, Sigma;
    ZeroRound5();
    NoWords(Sigma(6), 0);
    NoWords(Sigma(6), 8);
    ZeroColumns6();
    ZeroDiagonals6();
    NextRound(ZEROS, 6, Z6, NONE, W6, NONE, Z7);
  }

  lemma ZeroColumns6()
    ensures MixColumns(Z6, NONE) == W6
  {
  }

  lemma ZeroDiagonals6()
    ensures MixDiagonals(W6, NONE) == Z7
  {
  }

  /** Sixteen zero words with seven rounds: the digest is not zero. */
  lemma KnownZeroAnswer()
    ensures Digest(REDUCED_ROUNDS, ZEROS, 64) == [0x191B18A3, 0xDCD77126, 0xA400BFF1, 0x2000C33C, 0x8731CAB4, 0x546B0A2A, 0x2C05D567, 0x482469BB]
  {
    hide Reaches, ConfiguredIv, Digest;
    ZeroRound6();
    OneBlock(ZEROS, REDUCED_ROUNDS, Z7);
    InitialState();
  }
}
