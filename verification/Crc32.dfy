/**
 * CRC-32: the slicing-by-16 routine with its table recipe (crc.c) against the bit-by-bit routine
 * and the block-wise use of it (filesystem.c).
 */
module Crc32 {
  import opened ByteOrder

  const POLYNOMIAL: bv32 := 0xEDB88320

  function Xor(a: bv32, b: bv32): bv32 { a ^ b }
  function Not(a: bv32): bv32 { !a }
  function Word(b: Byte): bv32 { b as bv32 }
  function Low(q: bv32): Byte { (q & 0xFF) as bv8 }
  function Shift8(q: bv32): bv32 { q >> 8 }

  // ---- the definition ----

  /** One bit of polynomial division. */
  function Bit(q: bv32): bv32 {
    if q & 1 == 1 then (q >> 1) ^ POLYNOMIAL else q >> 1
  }

  function Bits(q: bv32, n: nat): bv32 {
    if n == 0 then q else Bit(Bits(q, n - 1))
  }

  /** The register after feeding it the bytes of `s`, starting from `q`. */
  function Feed(s: seq<Byte>, q: bv32): bv32 {
    if s == [] then q else Bits(Xor(Feed(s[..|s| - 1], q), Word(s[|s| - 1])), 8)
  }

  /** The checksum of `s` continued from an earlier checksum. */
  function Checksum(s: seq<Byte>, previous: bv32): bv32 {
    Not(Feed(s, Not(previous)))
  }

  /** Com_BlockChecksumKey32. */
  method BlockChecksumKey32(buffer: seq<Byte>, key: bv32) returns (r: bv32)
    ensures r == Checksum(buffer, key)
  {
    hide Xor, Not, Word, Bit;
    var q := Not(key);
    for i := 0 to |buffer|
      invariant q == Feed(buffer[..i], Not(key))
    {
      ghost var before := Xor(q, Word(buffer[i]));
      q := Xor(Word(buffer[i]), q);
      XorCommutes(Word(buffer[i]), Feed(buffer[..i], Not(key)));
      for j := 0 to 8
        invariant q == Bits(before, j)
      {
        q := DivideBit(q);
      }
      assert buffer[..i + 1][..i] == buffer[..i];
    }
    assert buffer[..|buffer|] == buffer;
    r := Not(q);
  }

  method DivideBit(q: bv32) returns (r: bv32)
    ensures r == Bit(q)
  {
    assert q & 1 == 0 || q & 1 == 1;
    if q & 1 != 0 {
      r := (q >> 1) ^ 0xEDB88320;
    } else {
      r := (q >> 1) ^ 0;
    }
  }

  // ---- composition ----

  lemma {:induction false} FeedConcat(a: seq<Byte>, b: seq<Byte>, q: bv32)
    ensures Feed(a + b, q) == Feed(b, Feed(a, q))
  {
    hide Xor, Word, Bits;
    if b == [] {
      assert a + b == a;
    } else {
      assert (a + b)[..|a + b| - 1] == a + b[..|b| - 1];
      FeedConcat(a, b[..|b| - 1], q);
    }
  }

  /** Checksumming in pieces is checksumming the whole. */
  lemma ChecksumConcat(a: seq<Byte>, b: seq<Byte>, previous: bv32)
    ensures Checksum(a + b, previous) == Checksum(b, Checksum(a, previous))
  {
    hide Feed, Not;
    FeedConcat(a, b, Not(previous));
    DoubleComplement(Feed(a, Not(previous)));
  }

  lemma DoubleComplement(x: bv32)
    ensures Not(Not(x)) == x
  {
  }

  // ---- linearity over GF(2) ----

  function Half(q: bv32): bv32 { q >> 1 }
  function Carry(q: bv32): bv32 { if q & 1 == 1 then POLYNOMIAL else 0 }

  lemma BitParts(q: bv32)
    ensures Bit(q) == Xor(Half(q), Carry(q))
  {
    if q & 1 == 1 {
      assert Carry(q) == POLYNOMIAL;
    } else {
      assert Carry(q) == 0 && Bit(q) == Half(q);
      hide Bit, Half, Carry, Xor;
      XorZero(Half(q));
    }
  }

  lemma HalfLinear(a: bv32, b: bv32)
    ensures Half(Xor(a, b)) == Xor(Half(a), Half(b))
  {
  }

  lemma LowBit(a: bv32, b: bv32)
    ensures (a ^ b) & 1 == (a & 1) ^ (b & 1)
    ensures (a & 1 == 0 || a & 1 == 1) && (b & 1 == 0 || b & 1 == 1)
  {
  }

  lemma CarryLinear(a: bv32, b: bv32)
    ensures Carry(Xor(a, b)) == Xor(Carry(a), Carry(b))
  {
    LowBit(a, b);
  }

  lemma XorCommutes(a: bv32, b: bv32)
    ensures Xor(a, b) == Xor(b, a)
  {
  }

  lemma XorAssociates(a: bv32, b: bv32, c: bv32)
    ensures Xor(Xor(a, b), c) == Xor(a, Xor(b, c))
  {
  }

  lemma XorExchange(a: bv32, b: bv32, c: bv32, d: bv32)
    ensures Xor(Xor(a, b), Xor(c, d)) == Xor(Xor(a, c), Xor(b, d))
  {
    hide Xor;
    XorAssociates(a, b, Xor(c, d));
    XorAssociates(b, c, d);
    XorCommutes(b, c);
    XorAssociates(c, b, d);
    XorAssociates(a, c, Xor(b, d));
  }

  lemma BitLinear(a: bv32, b: bv32)
    ensures Bit(Xor(a, b)) == Xor(Bit(a), Bit(b))
  {
    hide *;
    BitParts(a);
    BitParts(b);
    BitParts(Xor(a, b));
    HalfLinear(a, b);
    CarryLinear(a, b);
    XorExchange(Half(a), Carry(a), Half(b), Carry(b));
  }

  lemma {:induction false} BitsLinear(a: bv32, b: bv32, n: nat)
    ensures Bits(Xor(a, b), n) == Xor(Bits(a, n), Bits(b, n))
  {
    hide Bit, Xor;
    if n > 0 {
      BitsLinear(a, b, n - 1);
      BitLinear(Bits(a, n - 1), Bits(b, n - 1));
    }
  }

  lemma {:induction false} BitsAdd(q: bv32, m: nat, n: nat)
    ensures Bits(q, m + n) == Bits(Bits(q, m), n)
  {
    hide Bit;
    if n > 0 {
      BitsAdd(q, m, n - 1);
    }
  }

  lemma EightBits(q: bv32)
    ensures Bits(q, 8) == Bit(Bit(Bit(Bit(Bit(Bit(Bit(Bit(q))))))))
  {
    hide Bit;
    assert Bits(q, 1) == Bit(q);
    assert Bits(q, 2) == Bit(Bits(q, 1));
    assert Bits(q, 3) == Bit(Bits(q, 2));
    assert Bits(q, 4) == Bit(Bits(q, 3));
    assert Bits(q, 5) == Bit(Bits(q, 4));
    assert Bits(q, 6) == Bit(Bits(q, 5));
    assert Bits(q, 7) == Bit(Bits(q, 6));
  }

  lemma EightShifts(q: bv32)
    requires q & 0xFF == 0
    ensures Bit(Bit(Bit(Bit(Bit(Bit(Bit(Bit(q)))))))) == q >> 8
  {
  }

  function High(q: bv32): bv32 { q & 0xFFFF_FF00 }

  lemma SplitLow(q: bv32)
    ensures q == Xor(High(q), Word(Low(q))) && High(q) & 0xFF == 0 && High(q) >> 8 == Shift8(q)
  {
  }

  /** A whole byte at once: shift the register and add the table entry of its low byte. */
  lemma ByteStep(q: bv32)
    ensures Bits(q, 8) == Xor(Shift8(q), Bits(Word(Low(q)), 8))
  {
    SplitLow(q);
    EightShifts(High(q));
    hide High, Low, Word, Bits, Bit, Xor, Shift8;
    EightBits(High(q));
    BitsLinear(High(q), Word(Low(q)), 8);
  }

  lemma XorZero(a: bv32)
    ensures Xor(0, a) == a && Xor(a, 0) == a
  {
  }

  lemma {:induction false} BitsZero(n: nat)
    ensures Bits(0, n) == 0
  {
    if n > 0 {
      BitsZero(n - 1);
    }
  }

  /** The register's own contribution separates from that of the bytes. */
  lemma {:induction false} FeedShift(s: seq<Byte>, q: bv32)
    ensures Feed(s, q) == Xor(Feed(s, 0), Bits(q, 8 * |s|))
  {
    hide Xor, Word, Bit;
    if s == [] {
      XorZero(q);
    } else {
      var init, b := s[..|s| - 1], Word(s[|s| - 1]);
      var f, g := Feed(init, 0), Bits(q, 8 * |init|);
      FeedShift(init, q);
      hide Bits;
      XorAssociates(f, g, b);
      XorCommutes(g, b);
      XorAssociates(f, b, g);
      BitsLinear(Xor(f, b), g, 8);
      BitsAdd(q, 8 * |init|, 8);
    }
  }

  /** The first byte's contribution has been divided once per byte from it to the end. */
  lemma FeedFront(b: Byte, rest: seq<Byte>)
    ensures Feed([b] + rest, 0) == Xor(Feed(rest, 0), Bits(Word(b), 8 * (|rest| + 1)))
  {
    hide Xor, Word, Bits, Feed;
    FeedConcat([b], rest, 0);
    FeedOne(b);
    FeedShift(rest, Bits(Word(b), 8));
    BitsAdd(Word(b), 8, 8 * |rest|);
  }

  lemma FeedOne(b: Byte)
    ensures Feed([b], 0) == Bits(Word(b), 8)
  {
    hide Xor, Word, Bits;
    assert [b][..0] == [];
    XorZero(Word(b));
  }

  function ShiftBytes(q: bv32, k: nat): bv32 {
    if k == 0 then q else Shift8(ShiftBytes(q, k - 1))
  }

  function XorByte(a: Byte, b: Byte): Byte { a ^ b }

  /** The bytes with the register's bytes added to the first four of them. */
  function Masked(s: seq<Byte>, q: bv32): seq<Byte> {
    seq(|s|, j requires 0 <= j < |s| => XorByte(s[j], Low(ShiftBytes(q, j))))
  }

  lemma WordOfXor(a: Byte, b: Byte)
    ensures Word(XorByte(a, b)) == Xor(Word(a), Word(b))
  {
  }

  /** Starting from a register is starting from zero with the register added to the bytes. */
  lemma {:induction false} Absorb(s: seq<Byte>, q: bv32, k: nat)
    requires k <= |s|
    ensures Feed(s[..k], q) == Xor(ShiftBytes(q, k), Feed(Masked(s, q)[..k], 0))
  {
    hide Xor, Word, Bits, Low, Shift8, XorByte;
    if k == 0 {
      XorZero(q);
    } else {
      Absorb(s, q, k - 1);
      var m := Masked(s, q);
      var h, f, b := ShiftBytes(q, k - 1), Feed(m[..k - 1], 0), Word(s[k - 1]);
      assert |m| == |s| && m[k - 1] == XorByte(s[k - 1], Low(h));
      assert ShiftBytes(q, k) == Shift8(h);
      hide Feed, Masked, ShiftBytes;
      FeedNext(s, q, k);
      FeedNext(m, 0, k);
      AbsorbByte(h, f, b);
      WordOfXor(s[k - 1], Low(h));
    }
  }

  lemma FeedNext(s: seq<Byte>, q: bv32, k: nat)
    requires 0 < k <= |s|
    ensures Feed(s[..k], q) == Bits(Xor(Feed(s[..k - 1], q), Word(s[k - 1])), 8)
  {
    hide Xor, Word, Bits;
    assert s[..k][..k - 1] == s[..k - 1];
  }

  lemma AbsorbByte(h: bv32, f: bv32, b: bv32)
    ensures Bits(Xor(Xor(h, f), b), 8) == Xor(Shift8(h), Bits(Xor(f, Xor(b, Word(Low(h)))), 8))
  {
    hide Xor, Word, Bits, Low, Shift8;
    var low := Word(Low(h));
    XorAssociates(h, f, b);
    BitsLinear(h, Xor(f, b), 8);
    ByteStep(h);
    XorAssociates(Shift8(h), Bits(low, 8), Bits(Xor(f, b), 8));
    BitsLinear(low, Xor(f, b), 8);
    XorCommutes(low, Xor(f, b));
    XorAssociates(f, b, low);
  }

  lemma ShiftedOut(q: bv32)
    ensures Shift8(Shift8(Shift8(Shift8(q)))) == 0
  {
  }

  lemma {:induction false} ShiftBytesGone(q: bv32, k: nat)
    requires k >= 4
    ensures ShiftBytes(q, k) == 0
  {
    if k == 4 {
      ShiftedOut(q);
      assert ShiftBytes(q, 4) == Shift8(ShiftBytes(q, 3));
      assert ShiftBytes(q, 3) == Shift8(ShiftBytes(q, 2));
      assert ShiftBytes(q, 2) == Shift8(ShiftBytes(q, 1));
      assert ShiftBytes(q, 1) == Shift8(q);
    } else {
      ShiftBytesGone(q, k - 1);
    }
  }

  // ---- the table ----

  const MAX_SLICE := 16

  function Index(b: Byte): nat { b as int }

  function Slice(b: Byte, k: nat): bv32 { Bits(Word(b), 8 * (k + 1)) }

  /** Slice k holds, for every byte, what k + 1 whole-byte divisions make of it. */
  ghost predicate IsLookup(table: array2<bv32>)
    reads table
  {
    && table.Length0 == MAX_SLICE && table.Length1 == 256
    && forall k: nat, b: Byte :: k < MAX_SLICE ==> table[k, Index(b)] == Slice(b, k)
  }

  lemma MultipliedCarry(q: bv32)
    ensures (q >> 1) ^ ((q & 1) * POLYNOMIAL) == Bit(q)
  {
    if q & 1 == 1 {
      assert (q & 1) * POLYNOMIAL == POLYNOMIAL;
    } else {
      assert q & 1 == 0;
      assert (q & 1) * POLYNOMIAL == 0;
    }
  }

  lemma IndexIsByte(i: nat)
    requires i < 256
    ensures i as bv32 == Word(i as bv8) && Index(i as bv8) == i
  {
  }

  lemma ByteOfIndex(b: Byte)
    ensures Index(b) < 256 && Index(b) as bv8 == b
  {
  }

  /** The recipe written above the table literals, for every byte and every slice. */
  method BuildLookup() returns (table: array2<bv32>)
    ensures fresh(table) && IsLookup(table)
  {
    hide Bits, Word, Index, Slice, Bit, Low, Shift8, Xor;
    table := new bv32[MAX_SLICE, 256];
    for i := 0 to 256
      invariant forall n: nat :: n < i ==> table[0, n] == Slice(n as bv8, 0)
    {
      table[0, i] := FirstSlice(i);
    }
    for slice := 1 to MAX_SLICE
      invariant forall k: nat, n: nat :: k < slice && n < 256 ==> table[k, n] == Slice(n as bv8, k)
    {
      for i := 0 to 256
        invariant forall k: nat, n: nat :: k < slice && n < 256 ==> table[k, n] == Slice(n as bv8, k)
        invariant forall n: nat :: n < i ==> table[slice, n] == Slice(n as bv8, slice)
      {
        var before := table[slice - 1, i];
        NextSlice(i as bv8, slice);
        ByteOfIndex(Low(before));
        table[slice, i] := Xor(Shift8(before), table[0, Index(Low(before))]);
      }
    }
    forall b: Byte
      ensures Index(b) < 256 && Index(b) as bv8 == b
    {
      ByteOfIndex(b);
    }
  }

  method FirstSlice(i: nat) returns (crc: bv32)
    requires i < 256
    ensures crc == Slice(i as bv8, 0)
  {
    IndexIsByte(i);
    hide Word, Index, Bit;
    crc := i as bv32;
    ghost var start := crc;
    for j := 0 to 8
      invariant crc == Bits(start, j)
    {
      MultipliedCarry(crc);
      crc := (crc >> 1) ^ ((crc & 1) * POLYNOMIAL);
    }
  }

  /** One more slice is one more whole-byte division. */
  lemma NextSlice(b: Byte, k: nat)
    requires k > 0
    ensures var before := Slice(b, k - 1);
            Slice(b, k) == Xor(Shift8(before), Slice(Low(before), 0))
  {
    hide Bits, Word, Low, Shift8, Xor;
    BitsAdd(Word(b), 8 * k, 8);
    ByteStep(Slice(b, k - 1));
  }

  // ---- slicing by 16 ----

  /** A little-endian load of four bytes. */
  function Load(s: seq<Byte>, at: nat): bv32
    requires at + 4 <= |s|
  {
    Pack(s[at], s[at + 1], s[at + 2], s[at + 3])
  }

  lemma PackedBytes(b0: Byte, b1: Byte, b2: Byte, b3: Byte, q: bv32)
    ensures (var w := Xor(Pack(b0, b1, b2, b3), q);
             && Byte0(w) == XorByte(b0, Low(q))
             && Byte1(w) == XorByte(b1, Low(Shift8(q)))
             && Byte2(w) == XorByte(b2, Low(Shift8(Shift8(q))))
             && Byte3(w) == XorByte(b3, Low(Shift8(Shift8(Shift8(q))))))
  {
  }

  /** The bytes of a loaded word that has had a register added to it. */
  lemma LoadedBytes(s: seq<Byte>, at: nat, q: bv32)
    requires at + 4 <= |s|
    ensures BytesOf(Xor(Load(s, at), q)) == Masked(s[at..at + 4], q)
  {
    hide Pack, Xor, Byte0, Byte1, Byte2, Byte3, Low, Shift8, XorByte;
    PackedBytes(s[at], s[at + 1], s[at + 2], s[at + 3], q);
    assert ShiftBytes(q, 1) == Shift8(ShiftBytes(q, 0));
    assert ShiftBytes(q, 2) == Shift8(ShiftBytes(q, 1));
    assert ShiftBytes(q, 3) == Shift8(ShiftBytes(q, 2));
  }

  lemma ZeroByte(b: Byte)
    ensures XorByte(b, Low(0)) == b
  {
  }

  lemma {:induction false} ShiftZero(k: nat)
    ensures ShiftBytes(0, k) == 0
  {
    if k > 0 {
      ShiftZero(k - 1);
    }
  }

  lemma PlainBytes(s: seq<Byte>, at: nat)
    requires at + 4 <= |s|
    ensures BytesOf(Load(s, at)) == s[at..at + 4]
  {
    hide Pack, Xor, Byte0, Byte1, Byte2, Byte3, Low, Shift8, XorByte, ShiftBytes;
    LoadedBytes(s, at, 0);
    XorZero(Load(s, at));
    var bytes := s[at..at + 4];
    var masked := Masked(bytes, 0);
    forall k: nat | k < 4
      ensures masked[k] == bytes[k]
    {
      ShiftZero(k);
      ZeroByte(bytes[k]);
    }
  }

  /** Sixteen bytes from register zero are sixteen table entries, the last byte's first. */
  lemma SixteenEntries(y: seq<Byte>)
    requires |y| == 16
    ensures Feed(y, 0) ==
            Xor(Xor(Xor(Xor(Xor(Xor(Xor(Xor(Xor(Xor(Xor(Xor(Xor(Xor(Xor(
              Slice(y[15], 0), Slice(y[14], 1)), Slice(y[13], 2)), Slice(y[12], 3)), Slice(y[11], 4)), Slice(y[10], 5)),
              Slice(y[9], 6)), Slice(y[8], 7)), Slice(y[7], 8)), Slice(y[6], 9)), Slice(y[5], 10)), Slice(y[4], 11)),
              Slice(y[3], 12)), Slice(y[2], 13)), Slice(y[1], 14)), Slice(y[0], 15))
  {
    hide Xor, Slice, Feed;
    var x8 := LastEightEntries(y);
    var x7 := OneMoreEntry(y, 7, x8);
    var x6 := OneMoreEntry(y, 6, x7);
    var x5 := OneMoreEntry(y, 5, x6);
    var x4 := OneMoreEntry(y, 4, x5);
    var x3 := OneMoreEntry(y, 3, x4);
    var x2 := OneMoreEntry(y, 2, x3);
    var x1 := OneMoreEntry(y, 1, x2);
    var x0 := OneMoreEntry(y, 0, x1);
    assert y[0..] == y;
  }

  lemma LastEightEntries(y: seq<Byte>) returns (sum: bv32)
    requires |y| == 16
    ensures sum == Feed(y[8..], 0)
    ensures sum == Xor(Xor(Xor(Xor(Xor(Xor(Xor(Slice(y[15], 0), Slice(y[14], 1)), Slice(y[13], 2)), Slice(y[12], 3)),
                                       Slice(y[11], 4)), Slice(y[10], 5)), Slice(y[9], 6)), Slice(y[8], 7))
  {
    assert Feed(y[16..], 0) == 0;
    hide Xor, Slice, Feed;
    var x15 := OneMoreEntry(y, 15, 0);
    XorZero(Slice(y[15], 0));
    XorCommutes(0, Slice(y[15], 0));
    var x14 := OneMoreEntry(y, 14, x15);
    var x13 := OneMoreEntry(y, 13, x14);
    var x12 := OneMoreEntry(y, 12, x13);
    var x11 := OneMoreEntry(y, 11, x12);
    var x10 := OneMoreEntry(y, 10, x11);
    var x9 := OneMoreEntry(y, 9, x10);
    sum := OneMoreEntry(y, 8, x9);
  }

  lemma OneMoreEntry(y: seq<Byte>, k: nat, rest: bv32) returns (sum: bv32)
    requires |y| == 16 && k < 16 && rest == Feed(y[k + 1..], 0)
    ensures sum == Feed(y[k..], 0) == Xor(rest, Slice(y[k], 15 - k))
  {
    hide Xor, Bits, Word, Feed;
    assert y[k..] == [y[k]] + y[k + 1..];
    FeedFront(y[k], y[k + 1..]);
    sum := Feed(y[k..], 0);
  }

  function Entry(table: array2<bv32>, k: nat, b: Byte): (r: bv32)
    requires IsLookup(table) && k < MAX_SLICE
    reads table
    ensures r == Slice(b, k)
  {
    ByteOfIndex(b);
    table[k, Index(b)]
  }

  /** One round of the unrolled loop: four words, sixteen table entries. */
  method SliceRound(table: array2<bv32>, data: seq<Byte>, at: nat, crc0: bv32) returns (crc: bv32)
    requires IsLookup(table) && at + 16 <= |data|
    ensures crc == Feed(data[at..at + 16], crc0)
  {
    hide Xor, Feed, Masked, Bits, Word, Load, Slice, Byte0, Byte1, Byte2, Byte3, Index, IsLookup;
    var one := Xor(Load(data, at), crc0);
    var two := Load(data, at + 4);
    var three := Load(data, at + 8);
    var four := Load(data, at + 12);
    ghost var y := RoundBytes(data, at, crc0, one, two, three, four);
    SixteenEntries(y);
    crc :=
      Xor(Xor(Xor(Xor(Xor(Xor(Xor(Xor(Xor(Xor(Xor(Xor(Xor(Xor(Xor(
        Entry(table, 0, Byte3(four)), Entry(table, 1, Byte2(four))), Entry(table, 2, Byte1(four))), Entry(table, 3, Byte0(four))),
        Entry(table, 4, Byte3(three))), Entry(table, 5, Byte2(three))), Entry(table, 6, Byte1(three))), Entry(table, 7, Byte0(three))),
        Entry(table, 8, Byte3(two))), Entry(table, 9, Byte2(two))), Entry(table, 10, Byte1(two))), Entry(table, 11, Byte0(two))),
        Entry(table, 12, Byte3(one))), Entry(table, 13, Byte2(one))), Entry(table, 14, Byte1(one))), Entry(table, 15, Byte0(one)));
  }

  /** The bytes of the four words feed a zero register as the chunk feeds the current one. */
  lemma RoundBytes(data: seq<Byte>, at: nat, q: bv32, one: bv32, two: bv32, three: bv32, four: bv32)
    returns (y: seq<Byte>)
    requires at + 16 <= |data|
    requires one == Xor(Load(data, at), q) && two == Load(data, at + 4)
    requires three == Load(data, at + 8) && four == Load(data, at + 12)
    ensures y == BytesOf(one) + BytesOf(two) + BytesOf(three) + BytesOf(four)
    ensures Feed(data[at..at + 16], q) == Feed(y, 0)
  {
    hide Xor, Feed, Load, Byte0, Byte1, Byte2, Byte3, Low, XorByte, ShiftBytes, BytesOf;
    var s := data[at..at + 16];
    y := Masked(s, q);
    LoadedBytes(data, at, q);
    PlainBytes(data, at + 4);
    PlainBytes(data, at + 8);
    PlainBytes(data, at + 12);
    forall k: nat | 4 <= k < 16
      ensures y[k] == s[k]
    {
      ShiftBytesGone(q, k);
      ZeroByte(s[k]);
    }
    var head := data[at..at + 4];
    assert head == s[..4];
    assert y[..4] == Masked(head, q);
    assert y[4..8] == data[at + 4..at + 8];
    assert y[8..12] == data[at + 8..at + 12];
    assert y[12..] == data[at + 12..at + 16];
    assert y == y[..4] + y[4..8] + y[8..12] + y[12..];
    Absorb(s, q, 16);
    ShiftBytesGone(q, 16);
    XorZero(Feed(y, 0));
    assert s[..16] == s && y[..16] == y;
  }

  /** crc32_16bytes. */
  method Crc32_16Bytes(table: array2<bv32>, data: seq<Byte>, previousCrc32: bv32) returns (r: bv32)
    requires IsLookup(table)
    ensures r == Checksum(data, previousCrc32)
  {
    hide Xor, Not, Word, Bits, Low, Shift8, Index, IsLookup;
    var crc, current: nat, length: nat := Not(previousCrc32), 0, |data|;
    ghost var q := crc;
    while length >= 64
      invariant current + length == |data|
      invariant crc == Feed(data[..current], q)
    {
      for unrolling := 0 to 4
        invariant current + length == |data| + 16 * unrolling && current + (64 - 16 * unrolling) <= |data|
        invariant crc == Feed(data[..current], q)
      {
        FeedMore(data, current, 16, q);
        crc := SliceRound(table, data, current, crc);
        current := current + 16;
      }
      length := length - 64;
    }
    while length != 0
      invariant current + length == |data|
      invariant crc == Feed(data[..current], q)
    {
      FeedMore(data, current, 1, q);
      TableStep(crc, data[current]);
      crc := Xor(Shift8(crc), Entry(table, 0, XorByte(Low(crc), data[current])));
      current, length := current + 1, length - 1;
    }
    assert data[..current] == data;
    r := Not(crc);
  }

  lemma FeedMore(data: seq<Byte>, at: nat, n: nat, q: bv32)
    requires at + n <= |data|
    ensures Feed(data[..at + n], q) == Feed(data[at..at + n], Feed(data[..at], q))
  {
    hide Feed;
    assert data[..at + n] == data[..at] + data[at..at + n];
    FeedConcat(data[..at], data[at..at + n], q);
  }

  /** The standard table step is eight bit steps. */
  lemma TableStep(crc: bv32, b: Byte)
    ensures Feed([b], crc) == Xor(Shift8(crc), Slice(XorByte(Low(crc), b), 0))
  {
    var q := Xor(crc, Word(b));
    XorIntoLow(crc, b);
    hide Xor, Word, Bits, Low, Shift8, XorByte;
    assert [b][..0] == [];
    ByteStep(q);
  }

  lemma XorIntoLow(crc: bv32, b: Byte)
    ensures Shift8(Xor(crc, Word(b))) == Shift8(crc) && Low(Xor(crc, Word(b))) == XorByte(Low(crc), b)
  {
  }

  // ---- checksumming a file block by block ----

  const BLOCK_SIZE := 2 * 1024 * 1024
  const BLOCKS_PER_FILE := 256

  function Min(a: nat, b: nat): nat { if a < b then a else b }

  /** Block `i` of the content as successive reads return it; empty at the end. */
  function Block(content: seq<Byte>, i: nat): seq<Byte> {
    content[Min(|content|, BLOCK_SIZE * i)..Min(|content|, BLOCK_SIZE * (i + 1))]
  }

  /**
   * The loop of FS_CalculateChecksumForFile: it continues one checksum from block to block, which
   * gives the checksum of everything read, and it also notes each block's own checksum.
   */
  method CalculateChecksumForFile(table: array2<bv32>, content: seq<Byte>) returns (crc: bv32, sums: seq<bv32>)
    requires IsLookup(table) && content != []
    ensures crc == Checksum(content[..Min(|content|, BLOCK_SIZE * BLOCKS_PER_FILE)], 0)
    ensures 0 < |sums| <= BLOCKS_PER_FILE
    ensures forall i :: 0 <= i < |sums| ==> sums[i] == Checksum(Block(content, i), 0)
    ensures forall i :: 0 <= i < |sums| - 1 ==> Block(content, i) != []
    ensures |sums| == BLOCKS_PER_FILE || Block(content, |sums| - 1) == []
  {
    hide Checksum, IsLookup, Block;
    crc, sums := 0, [];
    EmptyChecksum(0);
    assert content[..0] == [];
    var i, blockSize := 0, 1;
    while i == 0 || (blockSize > 0 && i < BLOCKS_PER_FILE)
      invariant i == |sums| <= BLOCKS_PER_FILE && (i == 0 ==> crc == 0)
      invariant crc == Checksum(content[..Min(|content|, BLOCK_SIZE * i)], 0)
      invariant blockSize >= 0 && (blockSize == 0 ==> |content| <= BLOCK_SIZE * i)
      invariant forall k :: 0 <= k < i ==> sums[k] == Checksum(Block(content, k), 0)
      invariant forall k :: 0 <= k < i - 1 ==> Block(content, k) != []
      invariant i > 0 ==> blockSize == |Block(content, i - 1)|
      decreases BLOCKS_PER_FILE - i
    {
      var block := Block(content, i);
      blockSize := |block|;
      ghost var before := content[..Min(|content|, BLOCK_SIZE * i)];
      ReadOneMore(content, i);
      ChecksumConcat(before, block, 0);
      crc := Crc32_16Bytes(table, block, crc);
      var sum := Crc32_16Bytes(table, block, 0);
      sums := sums + [sum];
      i := i + 1;
    }
    if i < BLOCKS_PER_FILE {
      assert content[..Min(|content|, BLOCK_SIZE * i)] == content[..Min(|content|, BLOCK_SIZE * BLOCKS_PER_FILE)];
    }
  }

  lemma ReadOneMore(content: seq<Byte>, i: nat)
    ensures content[..Min(|content|, BLOCK_SIZE * i)] + Block(content, i) == content[..Min(|content|, BLOCK_SIZE * (i + 1))]
    ensures Block(content, i) == [] <==> |content| <= BLOCK_SIZE * i
  {
  }

  lemma EmptyChecksum(previous: bv32)
    ensures Checksum([], previous) == previous
  {
    DoubleComplement(previous);
  }

  /** The fast routine and the bit-by-bit routine agree on every buffer and key, and so compose alike. */
  method BothRoutines(table: array2<bv32>, a: seq<Byte>, b: seq<Byte>, key: bv32) returns (fast: bv32, slow: bv32)
    requires IsLookup(table)
    ensures fast == slow
  {
    var first := Crc32_16Bytes(table, a, key);
    fast := Crc32_16Bytes(table, b, first);
    slow := BlockChecksumKey32(a + b, key);
    ChecksumConcat(a, b, key);
  }

  // ---- the check value ----

  lemma CheckBits(q: bv32, q1: bv32, q2: bv32, q3: bv32, q4: bv32, q5: bv32, q6: bv32, q7: bv32, q8: bv32)
    requires Bit(q) == q1 && Bit(q1) == q2 && Bit(q2) == q3 && Bit(q3) == q4
    requires Bit(q4) == q5 && Bit(q5) == q6 && Bit(q6) == q7 && Bit(q7) == q8
    ensures Bits(q, 8) == q8
  {
    hide Bit;
    assert Bits(q, 0) == q;
    assert Bits(q, 1) == q1;
    assert Bits(q, 2) == q2;
    assert Bits(q, 3) == q3;
    assert Bits(q, 4) == q4;
    assert Bits(q, 5) == q5;
    assert Bits(q, 6) == q6;
    assert Bits(q, 7) == q7;
  }

  lemma CheckByte(s: seq<Byte>, k: nat, q: bv32, before: bv32, b: Byte, mixed: bv32, after: bv32)
    requires k < |s| && s[k] == b && Feed(s[..k], q) == before && Xor(before, Word(b)) == mixed && Bits(mixed, 8) == after
    ensures Feed(s[..k + 1], q) == after
  {
    hide Xor, Word, Bits, Feed;
    FeedNext(s, q, k + 1);
  }

  lemma CheckFeed3(s: seq<Byte>)
    requires s == [0x31, 0x32, 0x33, 0x34, 0x35, 0x36, 0x37, 0x38, 0x39]
    ensures Feed(s[..3], 0xffffffff) == 0x77b79c2d
  {
    hide Feed, Bits;
    NothingFed(s);
    CheckBits(0xffffffce, 0x7fffffe7, 0xd2477cd3, 0x849b3d49, 0xaff51d84, 0x57fa8ec2, 0x2bfd4761, 0xf8462090, 0x7c231048);
    CheckByte(s, 0, 0xffffffff, 0xffffffff, 0x31, 0xffffffce, 0x7c231048);
    CheckBits(0x7c23107a, 0x3e11883d, 0xf2b0473e, 0x7958239f, 0xd11492ef, 0x8532ca57, 0xaf21e60b, 0xba287025, 0xb0acbb32);
    CheckByte(s, 1, 0xffffffff, 0x7c231048, 0x32, 0x7c23107a, 0xb0acbb32);
    CheckBits(0xb0acbb01, 0xb5eedea0, 0x5af76f50, 0x2d7bb7a8, 0x16bddbd4, 0x0b5eedea, 0x05af76f5, 0xef6f385a, 0x77b79c2d);
    CheckByte(s, 2, 0xffffffff, 0xb0acbb32, 0x33, 0xb0acbb01, 0x77b79c2d);
  }

  lemma CheckFeed6(s: seq<Byte>)
    requires s == [0x31, 0x32, 0x33, 0x34, 0x35, 0x36, 0x37, 0x38, 0x39] && Feed(s[..3], 0xffffffff) == 0x77b79c2d
    ensures Feed(s[..6], 0xffffffff) == 0xf68d2c9e
  {
    hide Feed, Bits;
    CheckBits(0x77b79c19, 0xd6634d2c, 0x6b31a696, 0x3598d34b, 0xf774ea85, 0x9602f662, 0x4b017b31, 0xc8383eb8, 0x641c1f5c);
    CheckByte(s, 3, 0xffffffff, 0x77b79c2d, 0x34, 0x77b79c19, 0x641c1f5c);
    CheckBits(0x641c1f69, 0xdfb68c94, 0x6fdb464a, 0x37eda325, 0xf64e52b2, 0x7b272959, 0xd02b178c, 0x68158bc6, 0x340ac5e3);
    CheckByte(s, 4, 0xffffffff, 0x641c1f5c, 0x35, 0x641c1f69, 0x340ac5e3);
    CheckBits(0x340ac5d5, 0xf7bde1ca, 0x7bdef0e5, 0xd057fb52, 0x682bfda9, 0xd9ad7df4, 0x6cd6befa, 0x366b5f7d, 0xf68d2c9e);
    CheckByte(s, 5, 0xffffffff, 0x340ac5e3, 0x36, 0x340ac5d5, 0xf68d2c9e);
  }

  lemma CheckFeed9(s: seq<Byte>)
    requires s == [0x31, 0x32, 0x33, 0x34, 0x35, 0x36, 0x37, 0x38, 0x39] && Feed(s[..6], 0xffffffff) == 0xf68d2c9e
    ensures Feed(s[..9], 0xffffffff) == 0x340bc6d9
  {
    hide Feed, Bits;
    CheckBits(0xf68d2ca9, 0x96fe1574, 0x4b7f0aba, 0x25bf855d, 0xff67418e, 0x7fb3a0c7, 0xd2615343, 0x84882a81, 0xaffc9660);
    CheckByte(s, 6, 0xffffffff, 0xf68d2c9e, 0x37, 0xf68d2ca9, 0xaffc9660);
    CheckBits(0xaffc9658, 0x57fe4b2c, 0x2bff2596, 0x15ff92cb, 0xe7474a45, 0x9e1b2602, 0x4f0d9301, 0xca3e4aa0, 0x651f2550);
    CheckByte(s, 7, 0xffffffff, 0xaffc9660, 0x38, 0xaffc9658, 0x651f2550);
    CheckBits(0x651f2569, 0xdf371194, 0x6f9b88ca, 0x37cdc465, 0xf65e6112, 0x7b2f3089, 0xd02f1b64, 0x68178db2, 0x340bc6d9);
    CheckByte(s, 8, 0xffffffff, 0x651f2550, 0x39, 0x651f2569, 0x340bc6d9);
  }

  lemma NothingFed(s: seq<Byte>)
    ensures Feed(s[..0], 0xffffffff) == 0xffffffff
  {
  }

  /** The usual check value, of the nine digits: it holds the polynomial, the bit order and the complements to their values. */
  lemma CheckValue()
    ensures Checksum([0x31, 0x32, 0x33, 0x34, 0x35, 0x36, 0x37, 0x38, 0x39], 0) == 0xcbf43926
  {
    hide Feed, Bits;
    var s: seq<Byte> := [0x31, 0x32, 0x33, 0x34, 0x35, 0x36, 0x37, 0x38, 0x39];
    CheckFeed3(s);
    CheckFeed6(s);
    CheckFeed9(s);
    assert s[..9] == s;
    assert Not(0) == 0xffffffff && Not(0x340bc6d9) == 0xcbf43926;
  }
}
