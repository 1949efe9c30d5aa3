/**
 * Answers of RFC 1321, appendix A.5, worked out operation by operation: they hold the tables, the auxiliary
 * functions, the rotation and the initial state to their values, whatever form these are written in.
 */
module Md5Answers {
  import opened ByteOrder
  import opened Md5

  // ---- rotation ----

  /** Rotating is multiplying by a power of two, less what overflows, and adding the overflow at the low end. */
  lemma RotateIsArithmetic(w: bv32, s: bv32)
    ensures s == 4 ==> Rotate(w, s) == w * 0x10 + w / 0x10000000
    ensures s == 5 ==> Rotate(w, s) == w * 0x20 + w / 0x8000000
    ensures s == 6 ==> Rotate(w, s) == w * 0x40 + w / 0x4000000
    ensures s == 7 ==> Rotate(w, s) == w * 0x80 + w / 0x2000000
    ensures s == 9 ==> Rotate(w, s) == w * 0x200 + w / 0x800000
    ensures s == 10 ==> Rotate(w, s) == w * 0x400 + w / 0x400000
    ensures s == 11 ==> Rotate(w, s) == w * 0x800 + w / 0x200000
    ensures s == 12 ==> Rotate(w, s) == w * 0x1000 + w / 0x100000
    ensures s == 14 ==> Rotate(w, s) == w * 0x4000 + w / 0x40000
    ensures s == 15 ==> Rotate(w, s) == w * 0x8000 + w / 0x20000
    ensures s == 16 ==> Rotate(w, s) == w * 0x10000 + w / 0x10000
    ensures s == 17 ==> Rotate(w, s) == w * 0x20000 + w / 0x8000
    ensures s == 20 ==> Rotate(w, s) == w * 0x100000 + w / 0x1000
    ensures s == 21 ==> Rotate(w, s) == w * 0x200000 + w / 0x800
    ensures s == 22 ==> Rotate(w, s) == w * 0x400000 + w / 0x400
    ensures s == 23 ==> Rotate(w, s) == w * 0x800000 + w / 0x200
  {
    if s == 4 {
    } else if s == 5 {
    } else if s == 6 {
    } else if s == 7 {
    } else if s == 9 {
    } else if s == 10 {
    } else if s == 11 {
    } else if s == 12 {
    } else if s == 14 {
    } else if s == 15 {
    } else if s == 16 {
    } else if s == 17 {
    } else if s == 20 {
    } else if s == 21 {
    } else if s == 22 {
    } else if s == 23 {
    }
  }

  lemma AmountIsOneOfThem(i: nat)
    requires i < 64
    ensures RowOf(i).amount in {4, 5, 6, 7, 9, 10, 11, 12, 14, 15, 16, 17, 20, 21, 22, 23}
  {
    hide Row1, Row2, Row3, Row4;
    AmountIn1(i);
    AmountIn2(i);
    AmountIn3(i);
    AmountIn4(i);
  }

  lemma AmountIn1(i: nat)
    ensures 0 <= i < 16 ==> Row1(i).amount in {7, 12, 17, 22}
  {
  }

  lemma AmountIn2(i: nat)
    ensures 16 <= i < 32 ==> Row2(i).amount in {5, 9, 14, 20}
  {
  }

  lemma AmountIn3(i: nat)
    ensures 32 <= i < 48 ==> Row3(i).amount in {4, 11, 16, 23}
  {
  }

  lemma AmountIn4(i: nat)
    ensures 48 <= i < 64 ==> Row4(i).amount in {6, 10, 15, 21}
  {
  }

  // ---- one operation after the other ----

  /** Operation `i` on four words: the function of three of them, the sum, and the word that comes out. */
  lemma Turn(i: nat, x: seq<bv32>, a: bv32, b: bv32, c: bv32, d: bv32, f: bv32, sum: bv32, s: bv32, next: bv32)
    requires |x| == 16 && Operations(i, INIT, x) == State(a, b, c, d)
    requires Auxiliary(i, b, c, d) == f && Sum(Sum(Sum(a, f), x[RowOf(i).word]), RowOf(i).sine) == sum
    requires RowOf(i).amount == s <= 32 && Sum(b, Rotate(sum, s)) == next
    ensures Operations(i + 1, INIT, x) == State(d, next, b, c)
  {
    hide Auxiliary, RowOf, Rotate, Sum;
  }

  lemma Start(x: seq<bv32>)
    requires |x| == 16
    ensures Operations(0, INIT, x) == State(0x67452301, 0xefcdab89, 0x98badcfe, 0x10325476)
  {
  }

  // ---- short messages ----

  lemma ShortPad(msg: seq<Byte>)
    requires |msg| < 31
    ensures Pad(msg) == msg + [0x80] + Zeros(55 - |msg|) + [(8 * |msg|) as bv8, 0, 0, 0] + [0, 0, 0, 0]
  {
    hide Bytes4, Zeros;
    LowByte(8 * |msg|);
    LowByte(0);
    ShortCount(|msg|);
  }

  lemma ShortCount(n: nat)
    requires n < 31
    ensures (119 - n % 64) % 64 == 55 - n
    ensures 8 * n % TWO64 == 8 * n && 8 * n % TWO32 == 8 * n && 8 * n / TWO32 == 0
  {
  }

  lemma ShortBytes(msg: seq<Byte>)
    requires |msg| <= 3
    ensures (var p := Pad(msg);
             && |p| == 64 && p[|msg|] == 0x80 && p[56] == (8 * |msg|) as bv8
             && (forall j :: 0 <= j < |msg| ==> p[j] == msg[j])
             && (forall j :: |msg| < j < 56 || 57 <= j < 64 ==> p[j] == 0))
  {
    hide Pad;
    ShortPad(msg);
    BytesBehind(msg, Zeros(55 - |msg|), (8 * |msg|) as bv8);
  }

  lemma BytesBehind(msg: seq<Byte>, zeros: seq<Byte>, bits: Byte)
    requires |msg| <= 3 && |zeros| == 55 - |msg| && forall j :: 0 <= j < |zeros| ==> zeros[j] == 0
    ensures (var p := msg + [0x80] + zeros + [bits, 0, 0, 0] + [0, 0, 0, 0];
             && |p| == 64 && p[|msg|] == 0x80 && p[56] == bits
             && (forall j :: 0 <= j < |msg| ==> p[j] == msg[j])
             && (forall j :: |msg| < j < 56 || 57 <= j < 64 ==> p[j] == 0))
  {
  }

  /** Only the first word and the fifteenth are not zero. */
  lemma ShortWords(p: seq<Byte>)
    requires |p| == 64 && forall j :: 4 <= j < 56 || 57 <= j < 64 ==> p[j] == 0
    ensures Words(p)[0] == Pack(p[0], p[1], p[2], p[3]) && Words(p)[14] == Pack(p[56], 0, 0, 0)
    ensures forall k :: 1 <= k < 16 && k != 14 ==> Words(p)[k] == 0
  {
    assert Pack(0, 0, 0, 0) == 0;
    hide Pack;
  }

  lemma LowByte(n: nat)
    requires n < 256
    ensures Bytes4(n) == [n as bv8, 0, 0, 0]
  {
  }

  lemma OneBlock(msg: seq<Byte>)
    requires |Pad(msg)| == 64
    ensures Digest(msg) == StateBytes(Compress(INIT, Words(Pad(msg))))
  {
    hide Pad, Words, Compress, StateBytes;
    var p := Pad(msg);
    assert p[..|p| - 64] == [] && p[|p| - 64..] == p;
    assert Chain(INIT, []) == INIT;
    assert Chain(INIT, p) == Compress(INIT, Words(p));
  }

  // ---- the empty message ----

  /** The words of the one padded block. */
  predicate EmptyBlock(x: seq<bv32>) {
    && |x| == 16
    && x[0] == 0x00000080 && x[1] == 0 && x[2] == 0 && x[3] == 0
    && x[4] == 0 && x[5] == 0 && x[6] == 0 && x[7] == 0
    && x[8] == 0 && x[9] == 0 && x[10] == 0 && x[11] == 0
    && x[12] == 0 && x[13] == 0 && x[14] == 0 && x[15] == 0
  }

  lemma EmptyOps8(x: seq<bv32>)
    requires EmptyBlock(x)
    ensures Operations(8, INIT, x) == State(0x32033344, 0x9bc13ce9, 0xf5b158db, 0x2f35d494)
  {
    hide Operations, Row2, Row3, Row4;
    Start(x);
    Turn(0, x, 0x67452301, 0xefcdab89, 0x98badcfe, 0x10325476, 0x98badcfe, 0xd76aa4f7, 7, 0xa5202774);
    Turn(1, x, 0x10325476, 0xa5202774, 0xefcdab89, 0x98badcfe, 0xbd9afb8a, 0xb6950756, 12, 0xf59592dd);
    Turn(2, x, 0x98badcfe, 0xf59592dd, 0xa5202774, 0xefcdab89, 0xaf482b54, 0x6c23792d, 17, 0xe7f06b23);
    Turn(3, x, 0xefcdab89, 0xe7f06b23, 0xf59592dd, 0xa5202774, 0xe5900655, 0x971b80cc, 22, 0x1b163203);
    Turn(4, x, 0xa5202774, 0x1b163203, 0xe7f06b23, 0xf59592dd, 0xe791a2df, 0x822dda02, 7, 0x32033344);
    Turn(5, x, 0xf59592dd, 0x32033344, 0x1b163203, 0xe7f06b23, 0xd7f27a23, 0x150fd32a, 12, 0x2f35d494);
    Turn(6, x, 0xe7f06b23, 0x2f35d494, 0x32033344, 0x1b163203, 0x32033207, 0xc223e33d, 17, 0xf5b158db);
    Turn(7, x, 0x1b163203, 0xf5b158db, 0x2f35d494, 0x32033344, 0x27337394, 0x3f903a98, 22, 0x9bc13ce9);
  }

  lemma EmptyOps16(x: seq<bv32>)
    requires EmptyBlock(x) && Operations(8, INIT, x) == State(0x32033344, 0x9bc13ce9, 0xf5b158db, 0x2f35d494)
    ensures Operations(16, INIT, x) == State(0xf56c7cf1, 0xd6819c6a, 0x5aa53f75, 0x374943a7)
  {
    hide Operations, Row2, Row3, Row4;
    Turn(8, x, 0x32033344, 0x9bc13ce9, 0xf5b158db, 0x2f35d494, 0xb5b5d8dd, 0x5139a4f9, 7, 0x3893b991);
    Turn(9, x, 0x2f35d494, 0x3893b991, 0x9bc13ce9, 0xf5b158db, 0xdda178cb, 0x981c450e, 12, 0xfce4a312);
    Turn(10, x, 0xf5b158db, 0xfce4a312, 0x3893b991, 0x9bc13ce9, 0x3b81bdf9, 0x31327285, 17, 0xe1ef0576);
    Turn(11, x, 0x9bc13ce9, 0xe1ef0576, 0xfce4a312, 0x3893b991, 0xf8f4b993, 0x1e12ce3a, 22, 0x70768a29);
    Turn(12, x, 0x3893b991, 0x70768a29, 0xe1ef0576, 0xfce4a312, 0xece62132, 0x9109ebe5, 7, 0xf56c7cf1);
    Turn(13, x, 0xfce4a312, 0xf56c7cf1, 0x70768a29, 0xe1ef0576, 0x70e70927, 0x6b641dcc, 12, 0x374943a7);
    Turn(14, x, 0xe1ef0576, 0x374943a7, 0xf56c7cf1, 0x70768a29, 0x757ec8a9, 0xfde711ad, 17, 0x5aa53f75);
    Turn(15, x, 0x70768a29, 0x5aa53f75, 0x374943a7, 0xf56c7cf1, 0xb74943a5, 0x7173d5ef, 22, 0xd6819c6a);
  }

  lemma EmptyOps20(x: seq<bv32>)
    requires EmptyBlock(x) && Operations(16, INIT, x) == State(0xf56c7cf1, 0xd6819c6a, 0x5aa53f75, 0x374943a7)
    ensures Operations(20, INIT, x) == State(0x1c7d7513, 0xbd782e17, 0xc095f13a, 0x7bd57a3a)
  {
    hide Operations, Row1, Row3, Row4;
    Turn(16, x, 0xf56c7cf1, 0xd6819c6a, 0x5aa53f75, 0x374943a7, 0x5ea53c72, 0x4a2fdec5, 5, 0x1c7d7513);
    Turn(17, x, 0x374943a7, 0x1c7d7513, 0xd6819c6a, 0x5aa53f75, 0x9c25b51b, 0x93afac02, 9, 0x7bd57a3a);
    Turn(18, x, 0x5aa53f75, 0x7bd57a3a, 0x1c7d7513, 0xd6819c6a, 0x5afd793b, 0xdc011301, 14, 0xc095f13a);
    Turn(19, x, 0xd6819c6a, 0xc095f13a, 0x7bd57a3a, 0x1c7d7513, 0x63957b3a, 0x23cddfce, 20, 0xbd782e17);
  }

  lemma EmptyOps24(x: seq<bv32>)
    requires EmptyBlock(x) && Operations(20, INIT, x) == State(0x1c7d7513, 0xbd782e17, 0xc095f13a, 0x7bd57a3a)
    ensures Operations(24, INIT, x) == State(0x3d1e3e6c, 0xe422531a, 0xeb41643e, 0x68b7b3e3)
  {
    hide Operations, Row1, Row3, Row4;
    Turn(20, x, 0x1c7d7513, 0xbd782e17, 0xc095f13a, 0x7bd57a3a, 0xb950ab12, 0xabfd3082, 5, 0x3d1e3e6c);
    Turn(21, x, 0x7bd57a3a, 0x3d1e3e6c, 0xbd782e17, 0xc095f13a, 0x3d7c3e2d, 0xbb95ccba, 9, 0x68b7b3e3);
    Turn(22, x, 0xc095f13a, 0x68b7b3e3, 0x3d1e3e6c, 0xbd782e17, 0x2836326b, 0xc16e0a26, 14, 0xeb41643e);
    Turn(23, x, 0xbd782e17, 0xeb41643e, 0x68b7b3e3, 0x3d1e3e6c, 0x69a1a5af, 0x0eedcf8e, 20, 0xe422531a);
  }

  lemma EmptyOps28(x: seq<bv32>)
    requires EmptyBlock(x) && Operations(24, INIT, x) == State(0x3d1e3e6c, 0xe422531a, 0xeb41643e, 0x68b7b3e3)
    ensures Operations(28, INIT, x) == State(0x306ec122, 0xa0572807, 0xa3c663da, 0xd28c77c2)
  {
    hide Operations, Row1, Row3, Row4;
    Turn(24, x, 0x3d1e3e6c, 0xe422531a, 0xeb41643e, 0x68b7b3e3, 0xe362571e, 0x42626370, 5, 0x306ec122);
    Turn(25, x, 0x68b7b3e3, 0x306ec122, 0xe422531a, 0xeb41643e, 0x24625322, 0x50510edb, 9, 0xd28c77c2);
    Turn(26, x, 0xeb41643e, 0xd28c77c2, 0x306ec122, 0xe422531a, 0xd04cd322, 0xb06344e7, 14, 0xa3c663da);
    Turn(27, x, 0xe422531a, 0xa3c663da, 0xd28c77c2, 0x306ec122, 0xe2c677c2, 0x0c42dfc9, 20, 0xa0572807);
  }

  lemma EmptyOps32(x: seq<bv32>)
    requires EmptyBlock(x) && Operations(28, INIT, x) == State(0x306ec122, 0xa0572807, 0xa3c663da, 0xd28c77c2)
    ensures Operations(32, INIT, x) == State(0x13707036, 0xa2205f1f, 0x1c31c384, 0xae7813db)
  {
    hide Operations, Row1, Row3, Row4;
    Turn(28, x, 0x306ec122, 0xa0572807, 0xa3c663da, 0xd28c77c2, 0xa146201a, 0x7b98ca41, 5, 0x13707036);
    Turn(29, x, 0xd28c77c2, 0x13707036, 0xa0572807, 0xa3c663da, 0x03516817, 0xd2cd83d1, 9, 0xae7813db);
    Turn(30, x, 0xa3c663da, 0xae7813db, 0x13707036, 0xa0572807, 0xb3705033, 0xbea5b6e6, 14, 0x1c31c384);
    Turn(31, x, 0xa0572807, 0x1c31c384, 0xae7813db, 0x13707036, 0xbc3843cd, 0xe9b9b85e, 20, 0xa2205f1f);
  }

  lemma EmptyOps36(x: seq<bv32>)
    requires EmptyBlock(x) && Operations(32, INIT, x) == State(0x13707036, 0xa2205f1f, 0x1c31c384, 0xae7813db)
    ensures Operations(36, INIT, x) == State(0xdf63eaa1, 0x004b6669, 0x12f3e755, 0xc3689f5b)
  {
    hide Operations, Row1, Row2, Row4;
    Turn(32, x, 0x13707036, 0xa2205f1f, 0x1c31c384, 0xae7813db, 0x10698f40, 0x23d438b8, 4, 0xdf63eaa1);
    Turn(33, x, 0xae7813db, 0xdf63eaa1, 0xa2205f1f, 0x1c31c384, 0x6172763a, 0x975c8096, 11, 0xc3689f5b);
    Turn(34, x, 0x1c31c384, 0xc3689f5b, 0xdf63eaa1, 0xa2205f1f, 0xbe2b2ae5, 0x47fa4f8b, 16, 0x12f3e755);
    Turn(35, x, 0xa2205f1f, 0x12f3e755, 0xc3689f5b, 0xdf63eaa1, 0x0ef892af, 0xaefe29da, 23, 0x004b6669);
  }

  lemma EmptyOps40(x: seq<bv32>)
    requires EmptyBlock(x) && Operations(36, INIT, x) == State(0xdf63eaa1, 0x004b6669, 0x12f3e755, 0xc3689f5b)
    ensures Operations(40, INIT, x) == State(0x5f7a9b2e, 0xc5dc8c15, 0x91ca4cb7, 0xabc34e16)
  {
    hide Operations, Row1, Row2, Row4;
    Turn(36, x, 0xdf63eaa1, 0x004b6669, 0x12f3e755, 0xc3689f5b, 0xd1d01e67, 0x55f2f34c, 4, 0x5f7a9b2e);
    Turn(37, x, 0xc3689f5b, 0x5f7a9b2e, 0x004b6669, 0x12f3e755, 0x4dc21a12, 0x5d098916, 11, 0xabc34e16);
    Turn(38, x, 0x12f3e755, 0xabc34e16, 0x5f7a9b2e, 0x004b6669, 0xf4f2b351, 0xfea1e606, 16, 0x91ca4cb7);
    Turn(39, x, 0x004b6669, 0x91ca4cb7, 0xabc34e16, 0x5f7a9b2e, 0x6573998f, 0x247ebc68, 23, 0xc5dc8c15);
  }

  lemma EmptyOps44(x: seq<bv32>)
    requires EmptyBlock(x) && Operations(40, INIT, x) == State(0x5f7a9b2e, 0xc5dc8c15, 0x91ca4cb7, 0xabc34e16)
    ensures Operations(44, INIT, x) == State(0x4497169d, 0x0fe32453, 0xfd95f243, 0x76fd93d4)
  {
    hide Operations, Row1, Row2, Row4;
    Turn(40, x, 0x5f7a9b2e, 0xc5dc8c15, 0x91ca4cb7, 0xabc34e16, 0xffd58eb4, 0x87eba8a8, 4, 0x4497169d);
    Turn(41, x, 0xabc34e16, 0x4497169d, 0xc5dc8c15, 0x91ca4cb7, 0x1081d63f, 0xa6e64ccf, 11, 0x76fd93d4);
    Turn(42, x, 0x91ca4cb7, 0x76fd93d4, 0x4497169d, 0xc5dc8c15, 0xf7b6095c, 0x5e6f8698, 16, 0xfd95f243);
    Turn(43, x, 0xc5dc8c15, 0xfd95f243, 0x76fd93d4, 0x4497169d, 0xcfff770a, 0x9a642024, 23, 0x0fe32453);
  }

  lemma EmptyOps48(x: seq<bv32>)
    requires EmptyBlock(x) && Operations(44, INIT, x) == State(0x4497169d, 0x0fe32453, 0xfd95f243, 0x76fd93d4)
    ensures Operations(48, INIT, x) == State(0x3f55edfd, 0xca7d2dbd, 0x68d84ea2, 0x22a31f54)
  {
    hide Operations, Row1, Row2, Row4;
    Turn(44, x, 0x4497169d, 0x0fe32453, 0xfd95f243, 0x76fd93d4, 0x848b45c4, 0xa2f72c9a, 4, 0x3f55edfd);
    Turn(45, x, 0x76fd93d4, 0x3f55edfd, 0x0fe32453, 0xfd95f243, 0xcd233bed, 0x2afc69a6, 11, 0x22a31f54);
    Turn(46, x, 0xfd95f243, 0x22a31f54, 0x3f55edfd, 0x0fe32453, 0x1215d6fa, 0x2f4e4635, 16, 0x68d84ea2);
    Turn(47, x, 0x0fe32453, 0x68d84ea2, 0x22a31f54, 0x3f55edfd, 0x752ebc0b, 0x49be36c3, 23, 0xca7d2dbd);
  }

  lemma EmptyOps52(x: seq<bv32>)
    requires EmptyBlock(x) && Operations(48, INIT, x) == State(0x3f55edfd, 0xca7d2dbd, 0x68d84ea2, 0x22a31f54)
    ensures Operations(52, INIT, x) == State(0x93aa2577, 0x561e0689, 0xcd85b8cb, 0x1688dc85)
  {
    hide Operations, Row1, Row2, Row3;
    Turn(48, x, 0x3f55edfd, 0xca7d2dbd, 0x68d84ea2, 0x22a31f54, 0xb7a5a31d, 0xeb24b3de, 6, 0x93aa2577);
    Turn(49, x, 0x22a31f54, 0x93aa2577, 0xca7d2dbd, 0x68d84ea2, 0x5dd298c2, 0xc3a0b7ad, 10, 0x1688dc85);
    Turn(50, x, 0x68d84ea2, 0x1688dc85, 0x93aa2577, 0xca7d2dbd, 0xa420fbb0, 0xb88d6df9, 15, 0xcd85b8cb);
    Turn(51, x, 0xca7d2dbd, 0xcd85b8cb, 0x1688dc85, 0x93aa2577, 0xfb5d264e, 0xc26df444, 21, 0x561e0689);
  }

  lemma EmptyOps56(x: seq<bv32>)
    requires EmptyBlock(x) && Operations(52, INIT, x) == State(0x93aa2577, 0x561e0689, 0xcd85b8cb, 0x1688dc85)
    ensures Operations(56, INIT, x) == State(0x5625a114, 0x1e77fa61, 0x392ad0d0, 0x3450f42b)
  {
    hide Operations, Row1, Row2, Row3;
    Turn(52, x, 0x93aa2577, 0x561e0689, 0xcd85b8cb, 0x1688dc85, 0x32fa9f30, 0x2c001e6a, 6, 0x5625a114);
    Turn(53, x, 0x1688dc85, 0x5625a114, 0x561e0689, 0xcd85b8cb, 0x2061e1bd, 0xc5f78ad4, 10, 0x3450f42b);
    Turn(54, x, 0xcd85b8cb, 0x3450f42b, 0x5625a114, 0x561e0689, 0xebd45c6b, 0xb94a09b3, 15, 0x392ad0d0);
    Turn(55, x, 0x561e0689, 0x392ad0d0, 0x3450f42b, 0x5625a114, 0x8daa2ad0, 0x694c8f2a, 21, 0x1e77fa61);
  }

  lemma EmptyOps60(x: seq<bv32>)
    requires EmptyBlock(x) && Operations(56, INIT, x) == State(0x5625a114, 0x1e77fa61, 0x392ad0d0, 0x3450f42b)
    ensures Operations(60, INIT, x) == State(0x474a9c8c, 0x30130182, 0x36594b14, 0xdfce00bc)
  {
    hide Operations, Row1, Row2, Row3;
    Turn(56, x, 0x5625a114, 0x1e77fa61, 0x392ad0d0, 0x3450f42b, 0xe6d52b25, 0xaca34a88, 6, 0x474a9c8c);
    Turn(57, x, 0x3450f42b, 0x474a9c8c, 0x1e77fa61, 0x392ad0d0, 0xd9a845ce, 0x0c2620d9, 10, 0xdfce00bc);
    Turn(58, x, 0x392ad0d0, 0xdfce00bc, 0x474a9c8c, 0x1e77fa61, 0xb8849932, 0x94b0ad16, 15, 0x36594b14);
    Turn(59, x, 0x1e77fa61, 0x36594b14, 0xdfce00bc, 0x474a9c8c, 0x61336bcb, 0xcdb377cd, 21, 0x30130182);
  }

  lemma EmptyOps64(x: seq<bv32>)
    requires EmptyBlock(x) && Operations(60, INIT, x) == State(0x474a9c8c, 0x30130182, 0x36594b14, 0xdfce00bc)
    ensures Operations(64, INIT, x) == State(0x7246fad3, 0x14e45506, 0xff4ea3eb, 0x6e10a476)
  {
    hide Operations, Row1, Row2, Row3;
    Turn(60, x, 0x474a9c8c, 0x30130182, 0x36594b14, 0xdfce00bc, 0x066ab4d7, 0x4508cfe5, 6, 0x7246fad3);
    Turn(61, x, 0xdfce00bc, 0x7246fad3, 0x30130182, 0x36594b14, 0xcbf5ff79, 0x68fef26a, 10, 0x6e10a476);
    Turn(62, x, 0x36594b14, 0x6e10a476, 0x7246fad3, 0x30130182, 0x9dba04ac, 0xfeeb227b, 15, 0xff4ea3eb);
    Turn(63, x, 0x30130182, 0xff4ea3eb, 0x6e10a476, 0x7246fad3, 0x91ef0399, 0xad88d8ac, 21, 0x14e45506);
  }

  lemma EmptyCompress(x: seq<bv32>)
    requires EmptyBlock(x)
    ensures Compress(INIT, x) == State(0xd98c1dd4, 0x04b2008f, 0x980980e9, 0x7e42f8ec)
  {
    hide Operations;
    EmptyOps8(x);
    EmptyOps16(x);
    EmptyOps20(x);
    EmptyOps24(x);
    EmptyOps28(x);
    EmptyOps32(x);
    EmptyOps36(x);
    EmptyOps40(x);
    EmptyOps44(x);
    EmptyOps48(x);
    EmptyOps52(x);
    EmptyOps56(x);
    EmptyOps60(x);
    EmptyOps64(x);
  }

  lemma EmptyWords()
    ensures |Pad([])| == 64 && EmptyBlock(Words(Pad([])))
  {
    hide Pad, Words;
    var p := Pad([]);
    ShortBytes([]);
    ShortWords(p);
    assert p[0] == 0x80 && p[1] == 0x00 && p[2] == 0x00 && p[3] == 0x00;
    assert Pack(0x80, 0x00, 0x00, 0x00) == 0x00000080 && Pack(0x0, 0, 0, 0) == 0x0;
  }

  lemma EmptyBytes()
    ensures StateBytes(State(0xd98c1dd4, 0x04b2008f, 0x980980e9, 0x7e42f8ec))
         == [0xd4, 0x1d, 0x8c, 0xd9, 0x8f, 0x00, 0xb2, 0x04,
             0xe9, 0x80, 0x09, 0x98, 0xec, 0xf8, 0x42, 0x7e]
  {
  }

  /** MD5 ("") = d41d8cd98f00b204e9800998ecf8427e. */
  lemma EmptyDigest()
    ensures Digest([])
         == [0xd4, 0x1d, 0x8c, 0xd9, 0x8f, 0x00, 0xb2, 0x04,
             0xe9, 0x80, 0x09, 0x98, 0xec, 0xf8, 0x42, 0x7e]
  {
    hide *;
    EmptyWords();
    EmptyCompress(Words(Pad([])));
    OneBlock([]);
    EmptyBytes();
  }

  // ---- the message "abc" ----

  /** The words of the one padded block. */
  predicate AbcBlock(x: seq<bv32>) {
    && |x| == 16
    && x[0] == 0x80636261 && x[1] == 0 && x[2] == 0 && x[3] == 0
    && x[4] == 0 && x[5] == 0 && x[6] == 0 && x[7] == 0
    && x[8] == 0 && x[9] == 0 && x[10] == 0 && x[11] == 0
    && x[12] == 0 && x[13] == 0 && x[14] == 0x00000018 && x[15] == 0
  }

  lemma AbcOps8(x: seq<bv32>)
    requires AbcBlock(x)
    ensures Operations(8, INIT, x) == State(0xc73741ef, 0x928d99f6, 0x207dc67b, 0x8bac3051)
  {
    hide Operations, Row2, Row3, Row4;
    Start(x);
    Turn(0, x, 0x67452301, 0xefcdab89, 0x98badcfe, 0x10325476, 0x98badcfe, 0x57ce06d8, 7, 0xd6d117b4);
    Turn(1, x, 0x10325476, 0xd6d117b4, 0xefcdab89, 0x98badcfe, 0xceebcbca, 0xc7e5d796, 12, 0x344a8432);
    Turn(2, x, 0x98badcfe, 0x344a8432, 0xd6d117b4, 0xefcdab89, 0xdfc52fb9, 0x9ca07d92, 17, 0x2f6fbd72);
    Turn(3, x, 0xefcdab89, 0x2f6fbd72, 0x344a8432, 0xd6d117b4, 0xf4da86b6, 0xa666012d, 22, 0x7ad956f2);
    Turn(4, x, 0xd6d117b4, 0x7ad956f2, 0x2f6fbd72, 0x344a8432, 0x2e4b9472, 0xfa98bbd5, 7, 0xc73741ef);
    Turn(5, x, 0x344a8432, 0xc73741ef, 0x7ad956f2, 0x2f6fbd72, 0x6a59fcf2, 0xe62c474e, 12, 0x8bac3051);
    Turn(6, x, 0x2f6fbd72, 0x8bac3051, 0xc73741ef, 0x7ad956f2, 0xf37546e3, 0xcb154a68, 17, 0x207dc67b);
    Turn(7, x, 0x7ad956f2, 0x207dc67b, 0x8bac3051, 0xc73741ef, 0xc72e01d5, 0x3f4dedc8, 22, 0x928d99f6);
  }

  lemma AbcOps16(x: seq<bv32>)
    requires AbcBlock(x) && Operations(8, INIT, x) == State(0xc73741ef, 0x928d99f6, 0x207dc67b, 0x8bac3051)
    ensures Operations(16, INIT, x) == State(0xdda9b9a6, 0x72aff2e0, 0xe396856b, 0xa1051895)
  {
    hide Operations, Row2, Row3, Row4;
    Turn(8, x, 0xc73741ef, 0x928d99f6, 0x207dc67b, 0x8bac3051, 0x092da073, 0x39e57b3a, 7, 0x854b3712);
    Turn(9, x, 0x8bac3051, 0x854b3712, 0x928d99f6, 0x207dc67b, 0xa03dd17b, 0xb72ef97b, 12, 0x74e2f284);
    Turn(10, x, 0x207dc67b, 0x74e2f284, 0x854b3712, 0x928d99f6, 0x864f3b72, 0xa6cc5d9e, 17, 0x3020401c);
    Turn(11, x, 0x928d99f6, 0x3020401c, 0x74e2f284, 0x854b3712, 0xb56b7706, 0xd155e8ba, 22, 0x5ed49596);
    Turn(12, x, 0x854b3712, 0x5ed49596, 0x3020401c, 0x74e2f284, 0x30226214, 0x20fdaa48, 7, 0xdda9b9a6);
    Turn(13, x, 0x74e2f284, 0xdda9b9a6, 0x5ed49596, 0x3020401c, 0x7c80d19e, 0xeefc35b5, 12, 0xa1051895);
    Turn(14, x, 0x3020401c, 0xa1051895, 0xdda9b9a6, 0x5ed49596, 0xdfd19d86, 0xb66b2148, 17, 0xe396856b);
    Turn(15, x, 0x5ed49596, 0xe396856b, 0xa1051895, 0xdda9b9a6, 0xbd2d3885, 0x65b5d63c, 22, 0x72aff2e0);
  }

  lemma AbcOps20(x: seq<bv32>)
    requires AbcBlock(x) && Operations(16, INIT, x) == State(0xdda9b9a6, 0x72aff2e0, 0xe396856b, 0xa1051895)
    ensures Operations(20, INIT, x) == State(0x3e9e9126, 0xb5b204e4, 0xe25e1652, 0x4a1d804e)
  {
    hide Operations, Row1, Row3, Row4;
    Turn(16, x, 0xdda9b9a6, 0x72aff2e0, 0xe396856b, 0xa1051895, 0x629795ea, 0x365f74f2, 5, 0x3e9e9126);
    Turn(17, x, 0xa1051895, 0x3e9e9126, 0x72aff2e0, 0xe396856b, 0x32bff3a2, 0x9405bf77, 9, 0x4a1d804e);
    Turn(18, x, 0xe396856b, 0x4a1d804e, 0x3e9e9126, 0x72aff2e0, 0x4e1d8146, 0x58126102, 14, 0xe25e1652);
    Turn(19, x, 0x72aff2e0, 0xe25e1652, 0x4a1d804e, 0x3e9e9126, 0x621f104a, 0x3ee92d35, 20, 0xb5b204e4);
  }

  lemma AbcOps24(x: seq<bv32>)
    requires AbcBlock(x) && Operations(20, INIT, x) == State(0x3e9e9126, 0xb5b204e4, 0xe25e1652, 0x4a1d804e)
    ensures Operations(24, INIT, x) == State(0x59a8ffda, 0x47092c07, 0xabfc7920, 0x6d002f1e)
  {
    hide Operations, Row1, Row3, Row4;
    Turn(20, x, 0x3e9e9126, 0xb5b204e4, 0xe25e1652, 0x4a1d804e, 0xa0521654, 0xb51fb7d7, 5, 0x59a8ffda);
    Turn(21, x, 0x4a1d804e, 0x59a8ffda, 0xb5b204e4, 0xe25e1652, 0x55a816f6, 0xa209ab97, 9, 0x6d002f1e);
    Turn(22, x, 0xe25e1652, 0x6d002f1e, 0x59a8ffda, 0xb5b204e4, 0x6d08ff1e, 0x2808fbf1, 14, 0xabfc7920);
    Turn(23, x, 0xb5b204e4, 0xabfc7920, 0x6d002f1e, 0x59a8ffda, 0x2da87904, 0xcb2e79b0, 20, 0x47092c07);
  }

  lemma AbcOps28(x: seq<bv32>)
    requires AbcBlock(x) && Operations(24, INIT, x) == State(0x59a8ffda, 0x47092c07, 0xabfc7920, 0x6d002f1e)
    ensures Operations(28, INIT, x) == State(0xb7f268cf, 0x786acb8f, 0xfe1623b1, 0x09388eff)
  {
    hide Operations, Row1, Row3, Row4;
    Turn(24, x, 0x59a8ffda, 0x47092c07, 0xabfc7920, 0x6d002f1e, 0xc7fc7c26, 0x438749e6, 5, 0xb7f268cf);
    Turn(25, x, 0x6d002f1e, 0xb7f268cf, 0x47092c07, 0xabfc7920, 0xe7f16c07, 0x1828a313, 9, 0x09388eff);
    Turn(26, x, 0xabfc7920, 0x09388eff, 0xb7f268cf, 0x47092c07, 0xb1fa4ccf, 0x52cbd376, 14, 0xfe1623b1);
    Turn(27, x, 0x47092c07, 0xfe1623b1, 0x09388eff, 0xb7f268cf, 0xbe1aa6b1, 0x4a7de7a5, 20, 0x786acb8f);
  }

  lemma AbcOps32(x: seq<bv32>)
    requires AbcBlock(x) && Operations(28, INIT, x) == State(0xb7f268cf, 0x786acb8f, 0xfe1623b1, 0x09388eff)
    ensures Operations(32, INIT, x) == State(0x790a77fb, 0x726342d3, 0xa62884aa, 0x9f47e4f8)
  {
    hide Operations, Row1, Row3, Row4;
    Turn(28, x, 0xb7f268cf, 0x786acb8f, 0xfe1623b1, 0x09388eff, 0xfe2eab8f, 0x6004fd63, 5, 0x790a77fb);
    Turn(29, x, 0x09388eff, 0x790a77fb, 0x786acb8f, 0xfe1623b1, 0x786aebbf, 0x7e931eb6, 9, 0x9f47e4f8);
    Turn(30, x, 0xfe1623b1, 0x9f47e4f8, 0x790a77fb, 0x786acb8f, 0x1942f4f8, 0x7ec81b82, 14, 0xa62884aa);
    Turn(31, x, 0x786acb8f, 0xa62884aa, 0x9f47e4f8, 0x790a77fb, 0xa64d84aa, 0xabe29cc3, 20, 0x726342d3);
  }

  lemma AbcOps36(x: seq<bv32>)
    requires AbcBlock(x) && Operations(32, INIT, x) == State(0x790a77fb, 0x726342d3, 0xa62884aa, 0x9f47e4f8)
    ensures Operations(36, INIT, x) == State(0xb3707ebf, 0x3b0875c7, 0x8d212ff5, 0x60127b2e)
  {
    hide Operations, Row1, Row2, Row4;
    Turn(32, x, 0x790a77fb, 0x726342d3, 0xa62884aa, 0x9f47e4f8, 0x4b0c2281, 0xc410d3be, 4, 0xb3707ebf);
    Turn(33, x, 0x9f47e4f8, 0xb3707ebf, 0x726342d3, 0xa62884aa, 0x673bb8c6, 0x8df5943f, 11, 0x60127b2e);
    Turn(34, x, 0xa62884aa, 0x60127b2e, 0xb3707ebf, 0x726342d3, 0xa1014742, 0xb4c72d0e, 16, 0x8d212ff5);
    Turn(35, x, 0x726342d3, 0x8d212ff5, 0x60127b2e, 0xb3707ebf, 0x5e432a64, 0xce8ba55b, 23, 0x3b0875c7);
  }

  lemma AbcOps40(x: seq<bv32>)
    requires AbcBlock(x) && Operations(36, INIT, x) == State(0xb3707ebf, 0x3b0875c7, 0x8d212ff5, 0x60127b2e)
    ensures Operations(40, INIT, x) == State(0x21b117b9, 0x5a2f5ea5, 0x3575227e, 0x6e7429d5)
  {
    hide Operations, Row1, Row2, Row4;
    Turn(36, x, 0xb3707ebf, 0x3b0875c7, 0x8d212ff5, 0x60127b2e, 0xd63b211c, 0x2e6a8a1f, 4, 0x21b117b9);
    Turn(37, x, 0x60127b2e, 0x21b117b9, 0x3b0875c7, 0x8d212ff5, 0x97984d8b, 0x43899862, 11, 0x6e7429d5);
    Turn(38, x, 0x8d212ff5, 0x6e7429d5, 0x21b117b9, 0x3b0875c7, 0x74cd4bab, 0xf8a9c700, 16, 0x3575227e);
    Turn(39, x, 0x3b0875c7, 0x3575227e, 0x6e7429d5, 0x21b117b9, 0x7ab01c12, 0x74784e49, 23, 0x5a2f5ea5);
  }

  lemma AbcOps44(x: seq<bv32>)
    requires AbcBlock(x) && Operations(40, INIT, x) == State(0x21b117b9, 0x5a2f5ea5, 0x3575227e, 0x6e7429d5)
    ensures Operations(44, INIT, x) == State(0x11de1779, 0x4c6124f4, 0x31c465ca, 0xfadcaa38)
  {
    hide Operations, Row1, Row2, Row4;
    Turn(40, x, 0x21b117b9, 0x5a2f5ea5, 0x3575227e, 0x6e7429d5, 0x012e550e, 0x4b7aeb8d, 4, 0x11de1779);
    Turn(41, x, 0x6e7429d5, 0x11de1779, 0x5a2f5ea5, 0x3575227e, 0x7e846ba2, 0x57fd1fd2, 11, 0xfadcaa38);
    Turn(42, x, 0x3575227e, 0xfadcaa38, 0x11de1779, 0x5a2f5ea5, 0xb12de3e4, 0xbb9236e7, 16, 0x31c465ca);
    Turn(43, x, 0x5a2f5ea5, 0x31c465ca, 0xfadcaa38, 0x11de1779, 0xdac6d88b, 0x397e5435, 23, 0x4c6124f4);
  }

  lemma AbcOps48(x: seq<bv32>)
    requires AbcBlock(x) && Operations(44, INIT, x) == State(0x11de1779, 0x4c6124f4, 0x31c465ca, 0xfadcaa38)
    ensures Operations(48, INIT, x) == State(0x7f2e507b, 0x7beb9700, 0x8fae6399, 0x99d9679d)
  {
    hide Operations, Row1, Row2, Row4;
    Turn(44, x, 0x11de1779, 0x4c6124f4, 0x31c465ca, 0xfadcaa38, 0x8779eb06, 0x732cd2b8, 4, 0x7f2e507b);
    Turn(45, x, 0xfadcaa38, 0x7f2e507b, 0x4c6124f4, 0x31c465ca, 0x028b1145, 0xe4435562, 11, 0x99d9679d);
    Turn(46, x, 0x31c465ca, 0x99d9679d, 0x7f2e507b, 0x4c6124f4, 0xaa961312, 0xfbfcf5d4, 16, 0x8fae6399);
    Turn(47, x, 0x4c6124f4, 0x8fae6399, 0x99d9679d, 0x7f2e507b, 0x6959547f, 0x7a66cfd8, 23, 0x7beb9700);
  }

  lemma AbcOps52(x: seq<bv32>)
    requires AbcBlock(x) && Operations(48, INIT, x) == State(0x7f2e507b, 0x7beb9700, 0x8fae6399, 0x99d9679d)
    ensures Operations(52, INIT, x) == State(0x7b201df8, 0x8bf025c4, 0xb298cefd, 0xf4e8e96e)
  {
    hide Operations, Row1, Row2, Row3;
    Turn(48, x, 0x7f2e507b, 0x7beb9700, 0x8fae6399, 0x99d9679d, 0xf041fcfb, 0xe3fcd21b, 6, 0x7b201df8);
    Turn(49, x, 0x99d9679d, 0x7b201df8, 0x7beb9700, 0x8fae6399, 0x009a0afe, 0xdd9e7232, 10, 0xf4e8e96e);
    Turn(50, x, 0x8fae6399, 0xf4e8e96e, 0x7b201df8, 0x7beb9700, 0x8fdcf407, 0xcb1f7b5f, 15, 0xb298cefd);
    Turn(51, x, 0x7beb9700, 0xb298cefd, 0xf4e8e96e, 0x7b201df8, 0x42370791, 0xbab63eca, 21, 0x8bf025c4);
  }

  lemma AbcOps56(x: seq<bv32>)
    requires AbcBlock(x) && Operations(52, INIT, x) == State(0x7b201df8, 0x8bf025c4, 0xb298cefd, 0xf4e8e96e)
    ensures Operations(56, INIT, x) == State(0x06cc5e8a, 0x3bfa2c27, 0x7d632dd0, 0x5b0d97aa)
  {
    hide Operations, Row1, Row2, Row3;
    Turn(52, x, 0x7b201df8, 0x8bf025c4, 0xb298cefd, 0xf4e8e96e, 0x396ff928, 0x19eb70e3, 6, 0x06cc5e8a);
    Turn(53, x, 0xf4e8e96e, 0x06cc5e8a, 0x8bf025c4, 0xb298cefd, 0xc41f5a4e, 0x4815104e, 10, 0x5b0d97aa);
    Turn(54, x, 0xb298cefd, 0x5b0d97aa, 0x06cc5e8a, 0x8bf025c4, 0x79c38131, 0x2c4c44ab, 15, 0x7d632dd0);
    Turn(55, x, 0x8bf025c4, 0x7d632dd0, 0x5b0d97aa, 0x06cc5e8a, 0xa67e3a5f, 0xb7f2bdf4, 21, 0x3bfa2c27);
  }

  lemma AbcOps60(x: seq<bv32>)
    requires AbcBlock(x) && Operations(56, INIT, x) == State(0x06cc5e8a, 0x3bfa2c27, 0x7d632dd0, 0x5b0d97aa)
    ensures Operations(60, INIT, x) == State(0x7f81cc35, 0x7327d604, 0x4f9dbe3f, 0x094454ab)
  {
    hide Operations, Row1, Row2, Row3;
    Turn(56, x, 0x06cc5e8a, 0x3bfa2c27, 0x7d632dd0, 0x5b0d97aa, 0xc29941a7, 0x390e1e80, 6, 0x7f81cc35);
    Turn(57, x, 0x5b0d97aa, 0x7f81cc35, 0x3bfa2c27, 0x7d632dd0, 0xc467f218, 0x1da270a2, 10, 0x094454ab);
    Turn(58, x, 0x7d632dd0, 0x094454ab, 0x7f81cc35, 0x3bfa2c27, 0xb2c41bce, 0xd3288cb2, 15, 0x4f9dbe3f);
    Turn(59, x, 0x3bfa2c27, 0x4f9dbe3f, 0x094454ab, 0x7f81cc35, 0xc6bbeb54, 0x50be291c, 21, 0x7327d604);
  }

  lemma AbcOps64(x: seq<bv32>)
    requires AbcBlock(x) && Operations(60, INIT, x) == State(0x7f81cc35, 0x7327d604, 0x4f9dbe3f, 0x094454ab)
    ensures Operations(64, INIT, x) == State(0x310ade8f, 0xc08226b3, 0xe484b9d8, 0x624d8cb2)
  {
    hide Operations, Row1, Row2, Row3;
    Turn(60, x, 0x7f81cc35, 0x7327d604, 0x4f9dbe3f, 0x094454ab, 0xb822416b, 0x2ef78c22, 6, 0x310ade8f);
    Turn(61, x, 0x094454ab, 0x310ade8f, 0x7327d604, 0x4f9dbe3f, 0xc24d09cb, 0x88cc50ab, 10, 0x624d8cb2);
    Turn(62, x, 0x4f9dbe3f, 0x624d8cb2, 0x310ade8f, 0x7327d604, 0xdfd77374, 0x5a4d046e, 15, 0xe484b9d8);
    Turn(63, x, 0x7327d604, 0xe484b9d8, 0x624d8cb2, 0x310ade8f, 0x8cb8354a, 0xeb66dedf, 21, 0xc08226b3);
  }

  lemma AbcCompress(x: seq<bv32>)
    requires AbcBlock(x)
    ensures Compress(INIT, x) == State(0x98500190, 0xb04fd23c, 0x7d3f96d6, 0x727fe128)
  {
    hide Operations;
    AbcOps8(x);
    AbcOps16(x);
    AbcOps20(x);
    AbcOps24(x);
    AbcOps28(x);
    AbcOps32(x);
    AbcOps36(x);
    AbcOps40(x);
    AbcOps44(x);
    AbcOps48(x);
    AbcOps52(x);
    AbcOps56(x);
    AbcOps60(x);
    AbcOps64(x);
  }

  lemma AbcWords()
    ensures |Pad([0x61, 0x62, 0x63])| == 64 && AbcBlock(Words(Pad([0x61, 0x62, 0x63])))
  {
    hide Pad, Words;
    var p := Pad([0x61, 0x62, 0x63]);
    ShortBytes([0x61, 0x62, 0x63]);
    ShortWords(p);
    assert p[0] == 0x61 && p[1] == 0x62 && p[2] == 0x63 && p[3] == 0x80;
    assert Pack(0x61, 0x62, 0x63, 0x80) == 0x80636261 && Pack(0x18, 0, 0, 0) == 0x18;
  }

  lemma AbcBytes()
    ensures StateBytes(State(0x98500190, 0xb04fd23c, 0x7d3f96d6, 0x727fe128))
         == [0x90, 0x01, 0x50, 0x98, 0x3c, 0xd2, 0x4f, 0xb0,
             0xd6, 0x96, 0x3f, 0x7d, 0x28, 0xe1, 0x7f, 0x72]
  {
  }

  /** MD5 ("abc") = 900150983cd24fb0d6963f7d28e17f72. */
  lemma AbcDigest()
    ensures Digest([0x61, 0x62, 0x63])
         == [0x90, 0x01, 0x50, 0x98, 0x3c, 0xd2, 0x4f, 0xb0,
             0xd6, 0x96, 0x3f, 0x7d, 0x28, 0xe1, 0x7f, 0x72]
  {
    hide *;
    AbcWords();
    AbcCompress(Words(Pad([0x61, 0x62, 0x63])));
    OneBlock([0x61, 0x62, 0x63]);
    AbcBytes();
  }
}
