/** Bytes and their little-endian packing into 32-bit words. */
module ByteOrder {
  type Byte = bv8

  function Pack(b0: Byte, b1: Byte, b2: Byte, b3: Byte): bv32 {
    b0 as bv32 | (b1 as bv32 << 8) | (b2 as bv32 << 16) | (b3 as bv32 << 24)
  }

  function Byte0(w: bv32): Byte { (w & 0xFF) as bv8 }
  function Byte1(w: bv32): Byte { ((w >> 8) & 0xFF) as bv8 }
  function Byte2(w: bv32): Byte { ((w >> 16) & 0xFF) as bv8 }
  function Byte3(w: bv32): Byte { ((w >> 24) & 0xFF) as bv8 }

  function BytesOf(w: bv32): seq<Byte> {
    [Byte0(w), Byte1(w), Byte2(w), Byte3(w)]
  }
}
