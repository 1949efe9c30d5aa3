/** The MD5 streaming context (dis/md5.c) against the one-shot definition of RFC 1321. */
module Md5 {
  import opened ByteOrder

  // ---- RFC 1321, sections 3.3 and 3.4 ----

  datatype State = State(a: bv32, b: bv32, c: bv32, d: bv32)

  const INIT := State(0x67452301, 0xefcdab89, 0x98badcfe, 0x10325476)

  function F(x: bv32, y: bv32, z: bv32): bv32 { (x & y) | (!x & z) }
  function G(x: bv32, y: bv32, z: bv32): bv32 { (x & z) | (y & !z) }
  function H(x: bv32, y: bv32, z: bv32): bv32 { x ^ y ^ z }
  function I(x: bv32, y: bv32, z: bv32): bv32 { y ^ (x | !z) }

  function Rotate(w: bv32, s: bv32): bv32
    requires s <= 32
  {
    (w << s) | (w >> (32 - s))
  }

  function Sum(a: bv32, b: bv32): bv32 { a + b }

  /** The function of operation `i`. */
  function Auxiliary(i: nat, x: bv32, y: bv32, z: bv32): bv32 {
    if i < 16 then F(x, y, z) else if i < 32 then G(x, y, z) else if i < 48 then H(x, y, z) else I(x, y, z)
  }

  /** The word added, the constant added, and the shift. */
  datatype Row = Row(word: nat, sine: bv32, amount: bv32)

  /** The table of operations; the constants are 2^32 times the absolute sine of 1, 2, ..., 64 radians, rounded down. */
  function RowOf(i: nat): (row: Row)
    ensures row.word < 16 && row.amount <= 32
  {
    if i < 16 then Row1(i) else if i < 32 then Row2(i) else if i < 48 then Row3(i) else Row4(i)
  }

  function Row1(i: nat): (row: Row)
    ensures row.word < 16 && row.amount <= 32
  {
    match i
    case 0 => Row(0, 0xd76aa478, 7) case 1 => Row(1, 0xe8c7b756, 12)
    case 2 => Row(2, 0x242070db, 17) case 3 => Row(3, 0xc1bdceee, 22)
    case 4 => Row(4, 0xf57c0faf, 7) case 5 => Row(5, 0x4787c62a, 12)
    case 6 => Row(6, 0xa8304613, 17) case 7 => Row(7, 0xfd469501, 22)
    case 8 => Row(8, 0x698098d8, 7) case 9 => Row(9, 0x8b44f7af, 12)
    case 10 => Row(10, 0xffff5bb1, 17) case 11 => Row(11, 0x895cd7be, 22)
    case 12 => Row(12, 0x6b901122, 7) case 13 => Row(13, 0xfd987193, 12)
    case 14 => Row(14, 0xa679438e, 17) case 15 => Row(15, 0x49b40821, 22)
    case _ => Row(0, 0, 0)
  }

  function Row2(i: nat): (row: Row)
    ensures row.word < 16 && row.amount <= 32
  {
    match i
    case 16 => Row(1, 0xf61e2562, 5) case 17 => Row(6, 0xc040b340, 9)
    case 18 => Row(11, 0x265e5a51, 14) case 19 => Row(0, 0xe9b6c7aa, 20)
    case 20 => Row(5, 0xd62f105d, 5) case 21 => Row(10, 0x02441453, 9)
    case 22 => Row(15, 0xd8a1e681, 14) case 23 => Row(4, 0xe7d3fbc8, 20)
    case 24 => Row(9, 0x21e1cde6, 5) case 25 => Row(14, 0xc33707d6, 9)
    case 26 => Row(3, 0xf4d50d87, 14) case 27 => Row(8, 0x455a14ed, 20)
    case 28 => Row(13, 0xa9e3e905, 5) case 29 => Row(2, 0xfcefa3f8, 9)
    case 30 => Row(7, 0x676f02d9, 14) case 31 => Row(12, 0x8d2a4c8a, 20)
    case _ => Row(0, 0, 0)
  }

  function Row3(i: nat): (row: Row)
    ensures row.word < 16 && row.amount <= 32
  {
    match i
    case 32 => Row(5, 0xfffa3942, 4) case 33 => Row(8, 0x8771f681, 11)
    case 34 => Row(11, 0x6d9d6122, 16) case 35 => Row(14, 0xfde5380c, 23)
    case 36 => Row(1, 0xa4beea44, 4) case 37 => Row(4, 0x4bdecfa9, 11)
    case 38 => Row(7, 0xf6bb4b60, 16) case 39 => Row(10, 0xbebfbc70, 23)
    case 40 => Row(13, 0x289b7ec6, 4) case 41 => Row(0, 0xeaa127fa, 11)
    case 42 => Row(3, 0xd4ef3085, 16) case 43 => Row(6, 0x04881d05, 23)
    case 44 => Row(9, 0xd9d4d039, 4) case 45 => Row(12, 0xe6db99e5, 11)
    case 46 => Row(15, 0x1fa27cf8, 16) case 47 => Row(2, 0xc4ac5665, 23)
    case _ => Row(0, 0, 0)
  }

  function Row4(i: nat): (row: Row)
    ensures row.word < 16 && row.amount <= 32
  {
    match i
    case 48 => Row(0, 0xf4292244, 6) case 49 => Row(7, 0x432aff97, 10)
    case 50 => Row(14, 0xab9423a7, 15) case 51 => Row(5, 0xfc93a039, 21)
    case 52 => Row(12, 0x655b59c3, 6) case 53 => Row(3, 0x8f0ccc92, 10)
    case 54 => Row(10, 0xffeff47d, 15) case 55 => Row(1, 0x85845dd1, 21)
    case 56 => Row(8, 0x6fa87e4f, 6) case 57 => Row(15, 0xfe2ce6e0, 10)
    case 58 => Row(6, 0xa3014314, 15) case 59 => Row(13, 0x4e0811a1, 21)
    case 60 => Row(4, 0xf7537e82, 6) case 61 => Row(11, 0xbd3af235, 10)
    case 62 => Row(2, 0x2ad7d2bb, 15) case 63 => Row(9, 0xeb86d391, 21)
    case _ => Row(0, 0, 0)
  }

  function Operation(i: nat, st: State, x: seq<bv32>): State
    requires |x| == 16
  {
    var row := RowOf(i);
    var sum := Sum(Sum(Sum(st.a, Auxiliary(i, st.b, st.c, st.d)), x[row.word]), row.sine);
    State(st.d, Sum(st.b, Rotate(sum, row.amount)), st.b, st.c)
  }

  function Operations(n: nat, st: State, x: seq<bv32>): State
    requires |x| == 16
  {
    if n == 0 then st else Operation(n - 1, Operations(n - 1, st, x), x)
  }

  function Compress(st: State, x: seq<bv32>): State
    requires |x| == 16
  {
    var r := Operations(64, st, x);
    State(Sum(st.a, r.a), Sum(st.b, r.b), Sum(st.c, r.c), Sum(st.d, r.d))
  }

  // ---- MD5Transform ----

  function F1(x: bv32, y: bv32, z: bv32): bv32 { z ^ (x & (y ^ z)) }
  function F2(x: bv32, y: bv32, z: bv32): bv32 { F1(z, x, y) }
  function F3(x: bv32, y: bv32, z: bv32): bv32 { x ^ y ^ z }
  function F4(x: bv32, y: bv32, z: bv32): bv32 { y ^ (x | !z) }

  /** MD5STEP, with the auxiliary function already applied. */
  function Step(f: bv32, w: bv32, x: bv32, data: bv32, s: bv32): bv32
    requires s <= 32
  {
    Sum(Rotate(Sum(w, Sum(f, data)), s), x)
  }

  lemma Choose(x: bv32, y: bv32, z: bv32)
    ensures z ^ (x & (y ^ z)) == (x & y) | (!x & z)
  {
  }

  lemma FirstFunction(x: bv32, y: bv32, z: bv32)
    ensures F1(x, y, z) == F(x, y, z)
  {
    Choose(x, y, z);
  }

  lemma SecondFunction(x: bv32, y: bv32, z: bv32)
    ensures F2(x, y, z) == G(x, y, z)
  {
    assert (z & x) | (!z & y) == (x & z) | (y & !z);
    FirstFunction(z, x, y);
  }

  lemma SumLaws(a: bv32, b: bv32, c: bv32)
    ensures Sum(Sum(a, b), c) == Sum(a, Sum(b, c)) && Sum(a, b) == Sum(b, a)
  {
  }

  lemma StepIsOperation(f: bv32, w: bv32, x: bv32, word: bv32, t: bv32, s: bv32)
    requires s <= 32
    ensures Step(f, w, x, Sum(word, t), s) == Sum(x, Rotate(Sum(Sum(Sum(w, f), word), t), s))
  {
    hide Sum, Rotate;
    SumLaws(w, f, Sum(word, t));
    SumLaws(Sum(w, f), word, t);
    SumLaws(Rotate(Sum(w, Sum(f, Sum(word, t))), s), x, x);
  }

  /** One macro step moves the registers as one operation does, with their names turned by one. */
  lemma Advance(i: nat, st: State, x: seq<bv32>, w: bv32, b: bv32, c: bv32, d: bv32, f: bv32, k: nat, t: bv32, s: bv32)
    requires |x| == 16 && i < 64 && Operations(i, st, x) == State(w, b, c, d)
    requires f == (if i < 16 then F1(b, c, d) else if i < 32 then F2(b, c, d) else if i < 48 then F3(b, c, d) else F4(b, c, d))
    requires RowOf(i) == Row(k, t, s)
    ensures Operations(i + 1, st, x) == State(d, Step(f, w, b, Sum(x[k], t), s), b, c)
  {
    hide Sum, Rotate, F, G, F1, F2, RowOf, Step;
    FirstFunction(b, c, d);
    SecondFunction(b, c, d);
    StepIsOperation(f, w, b, x[k], t, s);
  }

  lemma Advance1(i: nat, st: State, x: seq<bv32>, w: bv32, b: bv32, c: bv32, d: bv32, k: nat, t: bv32, s: bv32)
    requires |x| == 16 && i < 16 && Operations(i, st, x) == State(w, b, c, d) && Row1(i) == Row(k, t, s)
    ensures k < 16 && s <= 32 && Operations(i + 1, st, x) == State(d, Step(F1(b, c, d), w, b, Sum(x[k], t), s), b, c)
  {
    hide Operations, F1, F2, F3, F4, Step, Sum, Row1, Row2, Row3, Row4;
    assert RowOf(i) == Row1(i);
    Advance(i, st, x, w, b, c, d, F1(b, c, d), k, t, s);
  }

  lemma Advance2(i: nat, st: State, x: seq<bv32>, w: bv32, b: bv32, c: bv32, d: bv32, k: nat, t: bv32, s: bv32)
    requires |x| == 16 && 16 <= i < 32 && Operations(i, st, x) == State(w, b, c, d) && Row2(i) == Row(k, t, s)
    ensures k < 16 && s <= 32 && Operations(i + 1, st, x) == State(d, Step(F2(b, c, d), w, b, Sum(x[k], t), s), b, c)
  {
    hide Operations, F1, F2, F3, F4, Step, Sum, Row1, Row2, Row3, Row4;
    assert RowOf(i) == Row2(i);
    Advance(i, st, x, w, b, c, d, F2(b, c, d), k, t, s);
  }

  lemma Advance3(i: nat, st: State, x: seq<bv32>, w: bv32, b: bv32, c: bv32, d: bv32, k: nat, t: bv32, s: bv32)
    requires |x| == 16 && 32 <= i < 48 && Operations(i, st, x) == State(w, b, c, d) && Row3(i) == Row(k, t, s)
    ensures k < 16 && s <= 32 && Operations(i + 1, st, x) == State(d, Step(F3(b, c, d), w, b, Sum(x[k], t), s), b, c)
  {
    hide Operations, F1, F2, F3, F4, Step, Sum, Row1, Row2, Row3, Row4;
    assert RowOf(i) == Row3(i);
    Advance(i, st, x, w, b, c, d, F3(b, c, d), k, t, s);
  }

  lemma Advance4(i: nat, st: State, x: seq<bv32>, w: bv32, b: bv32, c: bv32, d: bv32, k: nat, t: bv32, s: bv32)
    requires |x| == 16 && 48 <= i < 64 && Operations(i, st, x) == State(w, b, c, d) && Row4(i) == Row(k, t, s)
    ensures k < 16 && s <= 32 && Operations(i + 1, st, x) == State(d, Step(F4(b, c, d), w, b, Sum(x[k], t), s), b, c)
  {
    hide Operations, F1, F2, F3, F4, Step, Sum, Row1, Row2, Row3, Row4;
    assert RowOf(i) == Row4(i);
    Advance(i, st, x, w, b, c, d, F4(b, c, d), k, t, s);
  }

  /** Steps 1 to 16 of the transform. */
  method Round1(ghost st: State, x: seq<bv32>, a0: bv32, b0: bv32, c0: bv32, d0: bv32)
    returns (a: bv32, b: bv32, c: bv32, d: bv32)
    requires |x| == 16 && Operations(0, st, x) == State(a0, b0, c0, d0)
    ensures Operations(16, st, x) == State(a, b, c, d)
  {
    hide Operations, Sum, Step, F1, F2, F3, F4;
    a, b, c, d := a0, b0, c0, d0;
    Advance1(0, st, x, a, b, c, d, 0, 0xd76aa478, 7);
    a := Step(F1(b, c, d), a, b, Sum(x[0], 0xd76aa478), 7);
    Advance1(1, st, x, d, a, b, c, 1, 0xe8c7b756, 12);
    d := Step(F1(a, b, c), d, a, Sum(x[1], 0xe8c7b756), 12);
    Advance1(2, st, x, c, d, a, b, 2, 0x242070db, 17);
    c := Step(F1(d, a, b), c, d, Sum(x[2], 0x242070db), 17);
    Advance1(3, st, x, b, c, d, a, 3, 0xc1bdceee, 22);
    b := Step(F1(c, d, a), b, c, Sum(x[3], 0xc1bdceee), 22);
    Advance1(4, st, x, a, b, c, d, 4, 0xf57c0faf, 7);
    a := Step(F1(b, c, d), a, b, Sum(x[4], 0xf57c0faf), 7);
    Advance1(5, st, x, d, a, b, c, 5, 0x4787c62a, 12);
    d := Step(F1(a, b, c), d, a, Sum(x[5], 0x4787c62a), 12);
    Advance1(6, st, x, c, d, a, b, 6, 0xa8304613, 17);
    c := Step(F1(d, a, b), c, d, Sum(x[6], 0xa8304613), 17);
    Advance1(7, st, x, b, c, d, a, 7, 0xfd469501, 22);
    b := Step(F1(c, d, a), b, c, Sum(x[7], 0xfd469501), 22);
    Advance1(8, st, x, a, b, c, d, 8, 0x698098d8, 7);
    a := Step(F1(b, c, d), a, b, Sum(x[8], 0x698098d8), 7);
    Advance1(9, st, x, d, a, b, c, 9, 0x8b44f7af, 12);
    d := Step(F1(a, b, c), d, a, Sum(x[9], 0x8b44f7af), 12);
    Advance1(10, st, x, c, d, a, b, 10, 0xffff5bb1, 17);
    c := Step(F1(d, a, b), c, d, Sum(x[10], 0xffff5bb1), 17);
    Advance1(11, st, x, b, c, d, a, 11, 0x895cd7be, 22);
    b := Step(F1(c, d, a), b, c, Sum(x[11], 0x895cd7be), 22);
    Advance1(12, st, x, a, b, c, d, 12, 0x6b901122, 7);
    a := Step(F1(b, c, d), a, b, Sum(x[12], 0x6b901122), 7);
    Advance1(13, st, x, d, a, b, c, 13, 0xfd987193, 12);
    d := Step(F1(a, b, c), d, a, Sum(x[13], 0xfd987193), 12);
    Advance1(14, st, x, c, d, a, b, 14, 0xa679438e, 17);
    c := Step(F1(d, a, b), c, d, Sum(x[14], 0xa679438e), 17);
    Advance1(15, st, x, b, c, d, a, 15, 0x49b40821, 22);
    b := Step(F1(c, d, a), b, c, Sum(x[15], 0x49b40821), 22);
  }

  /** Steps 17 to 32 of the transform. */
  method Round2(ghost st: State, x: seq<bv32>, a0: bv32, b0: bv32, c0: bv32, d0: bv32)
    returns (a: bv32, b: bv32, c: bv32, d: bv32)
    requires |x| == 16 && Operations(16, st, x) == State(a0, b0, c0, d0)
    ensures Operations(32, st, x) == State(a, b, c, d)
  {
    hide Operations, Sum, Step, F1, F2, F3, F4;
    a, b, c, d := a0, b0, c0, d0;
    Advance2(16, st, x, a, b, c, d, 1, 0xf61e2562, 5);
    a := Step(F2(b, c, d), a, b, Sum(x[1], 0xf61e2562), 5);
    Advance2(17, st, x, d, a, b, c, 6, 0xc040b340, 9);
    d := Step(F2(a, b, c), d, a, Sum(x[6], 0xc040b340), 9);
    Advance2(18, st, x, c, d, a, b, 11, 0x265e5a51, 14);
    c := Step(F2(d, a, b), c, d, Sum(x[11], 0x265e5a51), 14);
    Advance2(19, st, x, b, c, d, a, 0, 0xe9b6c7aa, 20);
    b := Step(F2(c, d, a), b, c, Sum(x[0], 0xe9b6c7aa), 20);
    Advance2(20, st, x, a, b, c, d, 5, 0xd62f105d, 5);
    a := Step(F2(b, c, d), a, b, Sum(x[5], 0xd62f105d), 5);
    Advance2(21, st, x, d, a, b, c, 10, 0x02441453, 9);
    d := Step(F2(a, b, c), d, a, Sum(x[10], 0x02441453), 9);
    Advance2(22, st, x, c, d, a, b, 15, 0xd8a1e681, 14);
    c := Step(F2(d, a, b), c, d, Sum(x[15], 0xd8a1e681), 14);
    Advance2(23, st, x, b, c, d, a, 4, 0xe7d3fbc8, 20);
    b := Step(F2(c, d, a), b, c, Sum(x[4], 0xe7d3fbc8), 20);
    Advance2(24, st, x, a, b, c, d, 9, 0x21e1cde6, 5);
    a := Step(F2(b, c, d), a, b, Sum(x[9], 0x21e1cde6), 5);
    Advance2(25, st, x, d, a, b, c, 14, 0xc33707d6, 9);
    d := Step(F2(a, b, c), d, a, Sum(x[14], 0xc33707d6), 9);
    Advance2(26, st, x, c, d, a, b, 3, 0xf4d50d87, 14);
    c := Step(F2(d, a, b), c, d, Sum(x[3], 0xf4d50d87), 14);
    Advance2(27, st, x, b, c, d, a, 8, 0x455a14ed, 20);
    b := Step(F2(c, d, a), b, c, Sum(x[8], 0x455a14ed), 20);
    Advance2(28, st, x, a, b, c, d, 13, 0xa9e3e905, 5);
    a := Step(F2(b, c, d), a, b, Sum(x[13], 0xa9e3e905), 5);
    Advance2(29, st, x, d, a, b, c, 2, 0xfcefa3f8, 9);
    d := Step(F2(a, b, c), d, a, Sum(x[2], 0xfcefa3f8), 9);
    Advance2(30, st, x, c, d, a, b, 7, 0x676f02d9, 14);
    c := Step(F2(d, a, b), c, d, Sum(x[7], 0x676f02d9), 14);
    Advance2(31, st, x, b, c, d, a, 12, 0x8d2a4c8a, 20);
    b := Step(F2(c, d, a), b, c, Sum(x[12], 0x8d2a4c8a), 20);
  }

  /** Steps 33 to 48 of the transform. */
  method Round3(ghost st: State, x: seq<bv32>, a0: bv32, b0: bv32, c0: bv32, d0: bv32)
    returns (a: bv32, b: bv32, c: bv32, d: bv32)
    requires |x| == 16 && Operations(32, st, x) == State(a0, b0, c0, d0)
    ensures Operations(48, st, x) == State(a, b, c, d)
  {
    hide Operations, Sum, Step, F1, F2, F3, F4;
    a, b, c, d := a0, b0, c0, d0;
    Advance3(32, st, x, a, b, c, d, 5, 0xfffa3942, 4);
    a := Step(F3(b, c, d), a, b, Sum(x[5], 0xfffa3942), 4);
    Advance3(33, st, x, d, a, b, c, 8, 0x8771f681, 11);
    d := Step(F3(a, b, c), d, a, Sum(x[8], 0x8771f681), 11);
    Advance3(34, st, x, c, d, a, b, 11, 0x6d9d6122, 16);
    c := Step(F3(d, a, b), c, d, Sum(x[11], 0x6d9d6122), 16);
    Advance3(35, st, x, b, c, d, a, 14, 0xfde5380c, 23);
    b := Step(F3(c, d, a), b, c, Sum(x[14], 0xfde5380c), 23);
    Advance3(36, st, x, a, b, c, d, 1, 0xa4beea44, 4);
    a := Step(F3(b, c, d), a, b, Sum(x[1], 0xa4beea44), 4);
    Advance3(37, st, x, d, a, b, c, 4, 0x4bdecfa9, 11);
    d := Step(F3(a, b, c), d, a, Sum(x[4], 0x4bdecfa9), 11);
    Advance3(38, st, x, c, d, a, b, 7, 0xf6bb4b60, 16);
    c := Step(F3(d, a, b), c, d, Sum(x[7], 0xf6bb4b60), 16);
    Advance3(39, st, x, b, c, d, a, 10, 0xbebfbc70, 23);
    b := Step(F3(c, d, a), b, c, Sum(x[10], 0xbebfbc70), 23);
    Advance3(40, st, x, a, b, c, d, 13, 0x289b7ec6, 4);
    a := Step(F3(b, c, d), a, b, Sum(x[13], 0x289b7ec6), 4);
    Advance3(41, st, x, d, a, b, c, 0, 0xeaa127fa, 11);
    d := Step(F3(a, b, c), d, a, Sum(x[0], 0xeaa127fa), 11);
    Advance3(42, st, x, c, d, a, b, 3, 0xd4ef3085, 16);
    c := Step(F3(d, a, b), c, d, Sum(x[3], 0xd4ef3085), 16);
    Advance3(43, st, x, b, c, d, a, 6, 0x04881d05, 23);
    b := Step(F3(c, d, a), b, c, Sum(x[6], 0x04881d05), 23);
    Advance3(44, st, x, a, b, c, d, 9, 0xd9d4d039, 4);
    a := Step(F3(b, c, d), a, b, Sum(x[9], 0xd9d4d039), 4);
    Advance3(45, st, x, d, a, b, c, 12, 0xe6db99e5, 11);
    d := Step(F3(a, b, c), d, a, Sum(x[12], 0xe6db99e5), 11);
    Advance3(46, st, x, c, d, a, b, 15, 0x1fa27cf8, 16);
    c := Step(F3(d, a, b), c, d, Sum(x[15], 0x1fa27cf8), 16);
    Advance3(47, st, x, b, c, d, a, 2, 0xc4ac5665, 23);
    b := Step(F3(c, d, a), b, c, Sum(x[2], 0xc4ac5665), 23);
  }

  /** Steps 49 to 64 of the transform. */
  method Round4(ghost st: State, x: seq<bv32>, a0: bv32, b0: bv32, c0: bv32, d0: bv32)
    returns (a: bv32, b: bv32, c: bv32, d: bv32)
    requires |x| == 16 && Operations(48, st, x) == State(a0, b0, c0, d0)
    ensures Operations(64, st, x) == State(a, b, c, d)
  {
    hide Operations, Sum, Step, F1, F2, F3, F4;
    a, b, c, d := a0, b0, c0, d0;
    Advance4(48, st, x, a, b, c, d, 0, 0xf4292244, 6);
    a := Step(F4(b, c, d), a, b, Sum(x[0], 0xf4292244), 6);
    Advance4(49, st, x, d, a, b, c, 7, 0x432aff97, 10);
    d := Step(F4(a, b, c), d, a, Sum(x[7], 0x432aff97), 10);
    Advance4(50, st, x, c, d, a, b, 14, 0xab9423a7, 15);
    c := Step(F4(d, a, b), c, d, Sum(x[14], 0xab9423a7), 15);
    Advance4(51, st, x, b, c, d, a, 5, 0xfc93a039, 21);
    b := Step(F4(c, d, a), b, c, Sum(x[5], 0xfc93a039), 21);
    Advance4(52, st, x, a, b, c, d, 12, 0x655b59c3, 6);
    a := Step(F4(b, c, d), a, b, Sum(x[12], 0x655b59c3), 6);
    Advance4(53, st, x, d, a, b, c, 3, 0x8f0ccc92, 10);
    d := Step(F4(a, b, c), d, a, Sum(x[3], 0x8f0ccc92), 10);
    Advance4(54, st, x, c, d, a, b, 10, 0xffeff47d, 15);
    c := Step(F4(d, a, b), c, d, Sum(x[10], 0xffeff47d), 15);
    Advance4(55, st, x, b, c, d, a, 1, 0x85845dd1, 21);
    b := Step(F4(c, d, a), b, c, Sum(x[1], 0x85845dd1), 21);
    Advance4(56, st, x, a, b, c, d, 8, 0x6fa87e4f, 6);
    a := Step(F4(b, c, d), a, b, Sum(x[8], 0x6fa87e4f), 6);
    Advance4(57, st, x, d, a, b, c, 15, 0xfe2ce6e0, 10);
    d := Step(F4(a, b, c), d, a, Sum(x[15], 0xfe2ce6e0), 10);
    Advance4(58, st, x, c, d, a, b, 6, 0xa3014314, 15);
    c := Step(F4(d, a, b), c, d, Sum(x[6], 0xa3014314), 15);
    Advance4(59, st, x, b, c, d, a, 13, 0x4e0811a1, 21);
    b := Step(F4(c, d, a), b, c, Sum(x[13], 0x4e0811a1), 21);
    Advance4(60, st, x, a, b, c, d, 4, 0xf7537e82, 6);
    a := Step(F4(b, c, d), a, b, Sum(x[4], 0xf7537e82), 6);
    Advance4(61, st, x, d, a, b, c, 11, 0xbd3af235, 10);
    d := Step(F4(a, b, c), d, a, Sum(x[11], 0xbd3af235), 10);
    Advance4(62, st, x, c, d, a, b, 2, 0x2ad7d2bb, 15);
    c := Step(F4(d, a, b), c, d, Sum(x[2], 0x2ad7d2bb), 15);
    Advance4(63, st, x, b, c, d, a, 9, 0xeb86d391, 21);
    b := Step(F4(c, d, a), b, c, Sum(x[9], 0xeb86d391), 21);
  }

  function StateOf(buf: seq<bv32>): State
    requires |buf| == 4
  {
    State(buf[0], buf[1], buf[2], buf[3])
  }

  lemma NoOperations(st: State, x: seq<bv32>)
    requires |x| == 16
    ensures Operations(0, st, x) == st
  {
  }

  method Transform(buf: array<bv32>, x: seq<bv32>)
    requires buf.Length == 4 && |x| == 16
    modifies buf
    ensures StateOf(buf[..]) == Compress(old(StateOf(buf[..])), x)
  {
    hide Sum, Operations, Operation;
    ghost var st := StateOf(buf[..]);
    NoOperations(st, x);
    var a, b, c, d := buf[0], buf[1], buf[2], buf[3];
    a, b, c, d := Round1(st, x, a, b, c, d);
    a, b, c, d := Round2(st, x, a, b, c, d);
    a, b, c, d := Round3(st, x, a, b, c, d);
    a, b, c, d := Round4(st, x, a, b, c, d);
    buf[0] := Sum(buf[0], a);
    buf[1] := Sum(buf[1], b);
    buf[2] := Sum(buf[2], c);
    buf[3] := Sum(buf[3], d);
  }

  // ---- RFC 1321, sections 3.1, 3.2 and 3.5 ----

  /** A 64-byte block as sixteen little-endian words. */
  function Words(block: seq<Byte>): (x: seq<bv32>)
    requires |block| == 64
    ensures |x| == 16
  {
    seq(16, i requires 0 <= i < 16 => Pack(block[4 * i], block[4 * i + 1], block[4 * i + 2], block[4 * i + 3]))
  }

  /** The state after all blocks of `s`. */
  function Chain(st: State, s: seq<Byte>): State
    requires |s| % 64 == 0
  {
    if s == [] then st else Compress(Chain(st, s[..|s| - 64]), Words(s[|s| - 64..]))
  }

  const TWO32 := 0x1_0000_0000
  const TWO64 := 0x1_0000_0000_0000_0000

  /** Four bytes of a number, low byte first. */
  function Bytes4(n: nat): seq<Byte>
    requires n < TWO32
  {
    BytesOf(n as bv32)
  }

  /** The message, a single 1 bit, zero bits up to 56 bytes short of a block, and the bit length mod 2^64. */
  function Pad(msg: seq<Byte>): seq<Byte> {
    var bits := 8 * |msg| % TWO64;
    msg + [0x80] + Zeros((119 - |msg| % 64) % 64) + Bytes4(bits % TWO32) + Bytes4(bits / TWO32)
  }

  function Zeros(n: nat): (s: seq<Byte>)
    ensures |s| == n
  {
    seq(n, _ => 0)
  }

  lemma PaddingCount(n: nat, q: nat, r: nat)
    requires n == 64 * q + r && r < 64
    ensures (119 - r) % 64 == (if r < 56 then 55 - r else 119 - r)
    ensures (n + 1 + (119 - r) % 64 + 8) % 64 == 0
  {
    if r < 56 {
      assert n + 1 + (119 - r) % 64 + 8 == 64 * (q + 1);
    } else {
      assert n + 1 + (119 - r) % 64 + 8 == 64 * (q + 2);
    }
  }

  lemma ModStep(n: nat, k: nat)
    requires n % 64 + k < 64
    ensures (n + k) % 64 == n % 64 + k
  {
    assert n + k == 64 * (n / 64) + (n % 64 + k);
  }

  function StateBytes(st: State): seq<Byte> {
    BytesOf(st.a) + BytesOf(st.b) + BytesOf(st.c) + BytesOf(st.d)
  }

  function Digest(msg: seq<Byte>): seq<Byte> {
    PaddingCount(|msg|, |msg| / 64, |msg| % 64);
    StateBytes(Chain(INIT, Pad(msg)))
  }

  lemma ChainNext(st: State, s: seq<Byte>, block: seq<Byte>)
    requires |s| % 64 == 0 && |block| == 64
    ensures |s + block| % 64 == 0 && Chain(st, s + block) == Compress(Chain(st, s), Words(block))
  {
    assert (s + block)[..|s + block| - 64] == s && (s + block)[|s + block| - 64..] == block;
  }

  // ---- the 64-bit length kept in two words ----

  lemma AddBits(low: nat, high: nat, len: nat, m: nat)
    requires low < TWO32 && high < TWO32 && len < TWO32
    requires low + TWO32 * high == 8 * m % TWO64
    ensures (var low' := (low + 8 * len % TWO32) % TWO32;
             var high' := (if low' < low then (high + 1) % TWO32 else high);
             var high'' := (high' + len / 0x2000_0000) % TWO32;
             low' + TWO32 * high'' == 8 * (m + len) % TWO64)
  {
    var part := 8 * len % TWO32;
    var low' := (low + part) % TWO32;
    var carry := if low' < low then 1 else 0;
    assert low' == low + part - TWO32 * carry;
    assert 8 * len == part + TWO32 * (len / 0x2000_0000);
    var high' := if low' < low then (high + 1) % TWO32 else high;
    var wrap := (high + carry) / TWO32;
    assert high' == high + carry - TWO32 * wrap;
    var sum := high' + len / 0x2000_0000;
    var high'' := sum % TWO32;
    assert high'' == sum - TWO32 * (sum / TWO32);
    var total := 8 * m + 8 * len;
    var k := 8 * m / TWO64;
    assert low' + TWO32 * high'' == total - TWO64 * (k + wrap + sum / TWO32);
    ModUnique(total, low' + TWO32 * high'', k + wrap + sum / TWO32);
  }

  lemma ModUnique(total: int, r: int, q: int)
    requires total == r + TWO64 * q && 0 <= r < TWO64
    ensures total % TWO64 == r
  {
  }

  /** The low word alone tells how many bytes wait in the block. */
  lemma WaitingBytes(low: nat, high: nat, m: nat)
    requires low < TWO32 && high < TWO32
    requires low + TWO32 * high == 8 * m % TWO64
    ensures low / 8 % 64 == m % 64
  {
    var k := 8 * m / TWO64;
    var j := k * 0x80_0000_0000_0000 + high * 0x80_0000;
    var x := m - 64 * j;
    assert low == 8 * x;
    ModSixtyFour(x, m, j);
  }

  lemma ModSixtyFour(x: int, m: int, j: int)
    requires x == m - 64 * j
    ensures x % 64 == m % 64
  {
  }

  /** What is left over when `pos` bytes of the new data complete the last block. */
  lemma LeftOver(before: seq<Byte>, data: seq<Byte>, pos: nat)
    requires pos <= |data| && (|before| + pos) % 64 == 0 && |data| - pos < 64
    ensures var msg := before + data;
            var rest := |msg| % 64;
            rest == |data| - pos && msg[..|msg| - rest] == before + data[..pos] && msg[|msg| - rest..] == data[pos..]
  {
    ModStep(|before| + pos, |data| - pos);
  }

  /** Data that does not complete the waiting block. */
  lemma StillWaiting(before: seq<Byte>, data: seq<Byte>)
    requires |before| % 64 + |data| < 64
    ensures var msg, t := before + data, |before| % 64;
            var rest := |msg| % 64;
            rest == t + |data| && msg[..|msg| - rest] == before[..|before| - t]
            && msg[|msg| - rest..] == before[|before| - t..] + data
  {
    ModStep(|before|, |data|);
  }

  // ---- the context ----

  class Context {
    const buf: array<bv32>
    var bits0: nat
    var bits1: nat
    const block: array<Byte>
    /** Everything fed in so far. */
    ghost var msg: seq<Byte>

    /** The chain value of the complete blocks, the remainder, and the bit length mod 2^64. */
    ghost predicate Valid()
      reads this, buf, block
    {
      && buf.Length == 4 && block.Length == 64
      && bits0 < TWO32 && bits1 < TWO32
      && bits0 + TWO32 * bits1 == 8 * |msg| % TWO64
      && Holds(msg)
    }

    /** MD5Init. */
    constructor ()
      ensures Valid() && msg == [] && fresh(buf) && fresh(block)
    {
      buf := new bv32[4];
      block := new Byte[64];
      bits0, bits1, msg := 0, 0, [];
      new;
      buf[0], buf[1], buf[2], buf[3] := 0x67452301, 0xefcdab89, 0x98badcfe, 0x10325476;
    }

    /** A memory copy into the waiting block. */
    method CopyInto(at: nat, src: seq<Byte>)
      requires block.Length == 64 && at + |src| <= 64
      modifies block
      ensures block[..] == old(block[..at]) + src + old(block[at + |src|..])
    {
      for i := 0 to |src|
        invariant block[..at + i] == old(block[..at]) + src[..i]
        invariant block[at + i..] == old(block[at + i..])
      {
        block[at + i] := src[i];
      }
      assert src[..|src|] == src;
      assert block[..] == block[..at + |src|] + block[at + |src|..];
    }

    method TransformBlock(ghost done: seq<Byte>)
      requires buf.Length == 4 && block.Length == 64
      requires Chained(done)
      modifies buf
      ensures Chained(done + block[..])
    {
      ChainNext(INIT, done, block[..]);
      hide Chain, Compress, Words, StateOf;
      Transform(buf, Words(block[..]));
    }

    method CountBits(len: nat)
      requires len < TWO32 && bits0 < TWO32 && bits1 < TWO32
      requires bits0 + TWO32 * bits1 == 8 * |msg| % TWO64
      modifies this`bits0, this`bits1
      ensures bits0 < TWO32 && bits1 < TWO32 && bits0 + TWO32 * bits1 == 8 * (|msg| + len) % TWO64
    {
      AddBits(bits0, bits1, len, |msg|);
      var t := bits0;
      bits0 := (t + 8 * len % TWO32) % TWO32;
      if bits0 < t {
        bits1 := (bits1 + 1) % TWO32;
      }
      bits1 := (bits1 + len / 0x2000_0000) % TWO32;
    }

    /** The buffer has the state after all blocks of `s`. */
    ghost predicate Chained(s: seq<Byte>)
      reads buf
    {
      buf.Length == 4 && |s| % 64 == 0 && StateOf(buf[..]) == Chain(INIT, s)
    }

    /** The invariant apart from the bit count, for a message that ends in the waiting block. */
    ghost predicate Holds(m: seq<Byte>)
      reads buf, block
    {
      && buf.Length == 4 && block.Length == 64
      && var rest := |m| % 64;
         && Chained(m[..|m| - rest])
         && block[..rest] == m[|m| - rest..]
    }

    /** The leading odd-sized chunk: fills the waiting block if it can; `done` is the early return. */
    method FillWaiting(t: nat, data: seq<Byte>, ghost before: seq<Byte>) returns (pos: nat, done: bool)
      requires Holds(before) && t == |before| % 64 != 0
      modifies buf, block
      ensures done ==> Holds(before + data)
      ensures !done ==> pos <= |data| && buf.Length == 4 && block.Length == 64 && Chained(before + data[..pos])
    {
      hide Chain, StateOf;
      var room := 64 - t;
      if |data| < room {
        StillWaiting(before, data);
        CopyInto(t, data);
        return 0, true;
      }
      ghost var whole := before[..|before| - t];
      CopyInto(t, data[..room]);
      assert whole + block[..] == before + data[..room];
      TransformBlock(whole);
      return room, false;
    }

    /** All further complete blocks, then the rest is left waiting. */
    method WholeBlocks(pos0: nat, data: seq<Byte>, ghost before: seq<Byte>)
      requires buf.Length == 4 && block.Length == 64 && pos0 <= |data| && Chained(before + data[..pos0])
      modifies buf, block
      ensures Holds(before + data)
    {
      hide Chain, StateOf;
      var pos := pos0;
      while |data| - pos >= 64
        invariant pos <= |data| && Chained(before + data[..pos])
      {
        CopyInto(0, data[pos..pos + 64]);
        assert before + data[..pos] + block[..] == before + data[..pos + 64];
        TransformBlock(before + data[..pos]);
        pos := pos + 64;
      }
      LeftOver(before, data, pos);
      CopyInto(0, data[pos..]);
    }

    /** MD5Update. */
    method Update(data: seq<Byte>)
      requires Valid() && |data| < TWO32
      modifies this`bits0, this`bits1, this`msg, buf, block
      ensures Valid() && msg == old(msg) + data
    {
      hide Chain, StateOf;
      ghost var before := msg;
      WaitingBytes(bits0, bits1, |msg|);
      var t := bits0 / 8 % 64;
      CountBits(|data|);
      msg := before + data;
      var pos, done := 0, false;
      if t != 0 {
        pos, done := FillWaiting(t, data, before);
      } else {
        assert before[..|before| - t] == before + data[..0];
      }
      if !done {
        WholeBlocks(pos, data, before);
      }
    }

    /** Write zeros over part of the waiting block. */
    method ZeroFrom(at: nat, n: nat)
      requires block.Length == 64 && at + n <= 64
      modifies block
      ensures block[..] == old(block[..at]) + Zeros(n) + old(block[at + n..])
    {
      CopyInto(at, Zeros(n));
    }

    /** The 1 bit and the zeros, up to 56 bytes into a block; a second block if the first has no room. */
    method PadLast(count0: nat) returns (ghost done: seq<Byte>)
      requires Holds(msg) && count0 == |msg| % 64
      modifies buf, block
      ensures Chained(done)
      ensures done + block[..56] == msg + [0x80] + Zeros((119 - count0) % 64)
    {
      hide Chain, StateOf;
      PaddingCount(|msg|, |msg| / 64, count0);
      var count := count0;
      done := msg[..|msg| - count];
      CopyInto(count, [0x80]);
      var p := count + 1;
      count := 63 - count;
      if count < 8 {
        ZeroFrom(p, count);
        TransformBlock(done);
        done := done + block[..];
        ZeroFrom(0, 56);
        assert Zeros((119 - count0) % 64) == Zeros(count) + Zeros(56);
      } else {
        ZeroFrom(p, count - 8);
      }
    }

    /** MD5Final: pad, transform what is left, hand out the state, and wipe the context. */
    method Final() returns (digest: seq<Byte>)
      requires Valid()
      modifies this`bits0, this`bits1, buf, block
      ensures digest == Digest(msg)
      ensures buf[..] == [0, 0, 0, 0] && block[..] == Zeros(64) && bits0 == bits1 == 0
    {
      hide Chain, StateOf, StateBytes, Bytes4, Zeros;
      WaitingBytes(bits0, bits1, |msg|);
      ghost var done := PadLast(bits0 / 8 % 64);
      LengthWords(bits0, bits1, 8 * |msg| % TWO64);
      CopyInto(56, Bytes4(bits0));
      CopyInto(60, Bytes4(bits1));
      assert done + block[..] == Pad(msg);
      TransformBlock(done);
      digest := DigestBytes();
      Wipe();
    }

    method DigestBytes() returns (digest: seq<Byte>)
      requires buf.Length == 4
      ensures digest == StateBytes(StateOf(buf[..]))
    {
      digest := BytesOf(buf[0]) + BytesOf(buf[1]) + BytesOf(buf[2]) + BytesOf(buf[3]);
    }

    method Wipe()
      requires buf.Length == 4 && block.Length == 64
      modifies this`bits0, this`bits1, buf, block
      ensures buf[..] == [0, 0, 0, 0] && block[..] == Zeros(64) && bits0 == bits1 == 0
    {
      buf[0], buf[1], buf[2], buf[3] := 0, 0, 0, 0;
      bits0, bits1 := 0, 0;
      ZeroFrom(0, 64);
    }
  }

  lemma LengthWords(low: nat, high: nat, bits: nat)
    requires low < TWO32 && high < TWO32 && low + TWO32 * high == bits
    ensures bits % TWO32 == low && bits / TWO32 == high
    ensures |Bytes4(low)| == 4 && |Bytes4(high)| == 4
  {
  }

  // ---- any way of feeding a message ----

  function Concat(chunks: seq<seq<Byte>>): seq<Byte> {
    if chunks == [] then [] else Concat(chunks[..|chunks| - 1]) + chunks[|chunks| - 1]
  }

  /** However a message is cut into updates, the digest is that of the whole message. */
  method DigestOfChunks(chunks: seq<seq<Byte>>) returns (digest: seq<Byte>)
    requires forall i :: 0 <= i < |chunks| ==> |chunks[i]| < TWO32
    ensures digest == Digest(Concat(chunks))
  {
    hide Digest;
    var ctx := new Context();
    assert chunks[..0] == [];
    for i := 0 to |chunks|
      invariant ctx.Valid() && fresh(ctx) && fresh(ctx.buf) && fresh(ctx.block)
      invariant ctx.msg == Concat(chunks[..i])
    {
      assert chunks[..i + 1][..i] == chunks[..i];
      ctx.Update(chunks[i]);
    }
    assert chunks[..|chunks|] == chunks;
    digest := ctx.Final();
  }
}
