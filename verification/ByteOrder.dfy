/** Loads and stores of byte_order_generic.h and my_byteorder.h, at their own widths. */
module ByteOrder {

  type Byte = bv8

  function Uint2korr(a: seq<Byte>): bv16
    requires |a| == 2
  {
    (a[0] as bv16) + ((a[1] as bv16) << 8)
  }

  function Uint3korr(a: seq<Byte>): bv32
    requires |a| == 3
  {
    Unsigned24(a[0], a[1], a[2])
  }

  function Unsigned24(x: Byte, y: Byte, z: Byte): bv32 {
    (x as bv32) + ((y as bv32) << 8) + ((z as bv32) << 16)
  }

  function Uint4korr(a: seq<Byte>): bv32
    requires |a| == 4
  {
    (a[0] as bv32) + ((a[1] as bv32) << 8) + ((a[2] as bv32) << 16) + ((a[3] as bv32) << 24)
  }

  function Uint5korr(a: seq<Byte>): bv64
    requires |a| == 5
  {
    (Uint4korr(a[..4]) as bv64) + ((a[4] as bv64) << 32)
  }

  function Uint6korr(a: seq<Byte>): bv64
    requires |a| == 6
  {
    (Uint4korr(a[..4]) as bv64) + ((a[4] as bv64) << 32) + ((a[5] as bv64) << 40)
  }

  function Uint8korr(a: seq<Byte>): bv64
    requires |a| == 8
  {
    (Uint4korr(a[..4]) as bv64) + ((Uint4korr(a[4..]) as bv64) << 32)
  }

  /** The sign of the third byte fills the fourth; the result is the bits of an int32. */
  function Sint3korr(a: seq<Byte>): bv32
    requires |a| == 3
  {
    Signed24(a[0], a[1], a[2])
  }

  function Signed24(x: Byte, y: Byte, z: Byte): bv32 {
    if z & 128 != 0 then 0xFF00_0000 | (((z as bv32) << 16) | ((y as bv32) << 8) | (x as bv32))
    else ((z as bv32) << 16) | ((y as bv32) << 8) | (x as bv32)
  }

  function Bytes2(v: bv16): (a: seq<Byte>)
    ensures |a| == 2
  {
    [(v & 255) as Byte, (v >> 8) as Byte]
  }

  function Bytes4(v: bv32): (a: seq<Byte>)
    ensures |a| == 4
  {
    [(v & 255) as Byte, ((v >> 8) & 255) as Byte, ((v >> 16) & 255) as Byte, ((v >> 24) & 255) as Byte]
  }

  function Bytes5(v: bv64): (a: seq<Byte>)
    ensures |a| == 5
  {
    Bytes4((v & 0xFFFF_FFFF) as bv32) + [((v >> 32) & 255) as Byte]
  }

  function Bytes6(v: bv64): (a: seq<Byte>)
    ensures |a| == 6
  {
    Bytes4((v & 0xFFFF_FFFF) as bv32) + [((v >> 32) & 255) as Byte, ((v >> 40) & 255) as Byte]
  }

  function Bytes8(v: bv64): (a: seq<Byte>)
    ensures |a| == 8
  {
    Bytes4((v & 0xFFFF_FFFF) as bv32) + Bytes4((v >> 32) as bv32)
  }

  function Bytes3(v: bv32): (a: seq<Byte>)
    ensures |a| == 3
  {
    [(v & 255) as Byte, ((v >> 8) & 255) as Byte, ((v >> 16) & 255) as Byte]
  }

  method Int2store(t: array<Byte>, at: nat, v: bv16)
    requires at + 2 <= t.Length
    modifies t
    ensures t[..] == old(t[..at]) + Bytes2(v) + old(t[at + 2..])
  {
    t[at] := (v & 255) as Byte;
    t[at + 1] := (v >> 8) as Byte;
  }

  method Int4store(t: array<Byte>, at: nat, v: bv32)
    requires at + 4 <= t.Length
    modifies t
    ensures t[..] == old(t[..at]) + Bytes4(v) + old(t[at + 4..])
  {
    t[at] := (v & 255) as Byte;
    t[at + 1] := ((v >> 8) & 255) as Byte;
    t[at + 2] := ((v >> 16) & 255) as Byte;
    t[at + 3] := ((v >> 24) & 255) as Byte;
  }

  /** Two 4-byte stores. */
  method Int8store(t: array<Byte>, at: nat, v: bv64)
    requires at + 8 <= t.Length
    modifies t
    ensures t[..] == old(t[..at]) + Bytes8(v) + old(t[at + 8..])
  {
    Int4store(t, at, (v & 0xFFFF_FFFF) as bv32);
    Int4store(t, at + 4, (v >> 32) as bv32);
  }

  method Int5store(t: array<Byte>, at: nat, v: bv64)
    requires at + 5 <= t.Length
    modifies t
    ensures t[..] == old(t[..at]) + Bytes5(v) + old(t[at + 5..])
  {
    Int4store(t, at, (v & 0xFFFF_FFFF) as bv32);
    t[at + 4] := ((v >> 32) & 255) as Byte;
  }

  method Int6store(t: array<Byte>, at: nat, v: bv64)
    requires at + 6 <= t.Length
    modifies t
    ensures t[..] == old(t[..at]) + Bytes6(v) + old(t[at + 6..])
  {
    Int5store(t, at, v);
    t[at + 5] := ((v >> 40) & 255) as Byte;
  }

  method Int3store(t: array<Byte>, at: nat, v: bv32)
    requires at + 3 <= t.Length
    modifies t
    ensures t[..] == old(t[..at]) + Bytes3(v) + old(t[at + 3..])
  {
    t[at] := (v & 255) as Byte;
    t[at + 1] := ((v >> 8) & 255) as Byte;
    t[at + 2] := ((v >> 16) & 255) as Byte;
  }

  lemma LoadStore4(v: bv32)
    ensures Uint4korr(Bytes4(v)) == v
  {
  }

  lemma StoreLoad4(a: seq<Byte>)
    requires |a| == 4
    ensures Bytes4(Uint4korr(a)) == a
  {
    assert a == [a[0], a[1], a[2], a[3]];
  }

  /** Loading what was stored gives every 64-bit value back, and storing what was loaded
      restores the bytes. */
  lemma RoundTrip8(v: bv64, a: seq<Byte>)
    requires |a| == 8
    ensures Uint8korr(Bytes8(v)) == v
    ensures Bytes8(Uint8korr(a)) == a
  {
    var lo, hi := (v & 0xFFFF_FFFF) as bv32, (v >> 32) as bv32;
    assert Bytes8(v)[..4] == Bytes4(lo) && Bytes8(v)[4..] == Bytes4(hi);
    LoadStore4(lo);
    LoadStore4(hi);
    var x, y := Uint4korr(a[..4]), Uint4korr(a[4..]);
    var w := (x as bv64) + ((y as bv64) << 32);
    assert (w & 0xFFFF_FFFF) as bv32 == x && (w >> 32) as bv32 == y;
    StoreLoad4(a[..4]);
    StoreLoad4(a[4..]);
    assert a == a[..4] + a[4..];
  }

  lemma RoundTrip2(v: bv16, a: seq<Byte>)
    requires |a| == 2
    ensures Uint2korr(Bytes2(v)) == v && Bytes2(Uint2korr(a)) == a
  {
    assert a == [a[0], a[1]];
  }

  /** Without sign, a value comes back exactly when it fits. */
  lemma RoundTripU3Iff(v: bv32)
    ensures Uint3korr(Bytes3(v)) == v <==> v <= 0x00FF_FFFF
  {
    Fits24(v);
  }

  /** The bytes always come back, with either load. */
  lemma StoreLoadU3(a: seq<Byte>)
    requires |a| == 3
    ensures Bytes3(Uint3korr(a)) == a
  {
    UnsignedParts(a[0], a[1], a[2]);
    BytesOf24(a, Uint3korr(a));
  }

  lemma StoreLoadS3(a: seq<Byte>)
    requires |a| == 3
    ensures Bytes3(Sint3korr(a)) == a
  {
    SignedParts(a[0], a[1], a[2]);
    BytesOf24(a, Sint3korr(a));
  }

  lemma BytesOf24(a: seq<Byte>, v: bv32)
    requires |a| == 3
    requires (v & 255) as Byte == a[0] && ((v >> 8) & 255) as Byte == a[1] && ((v >> 16) & 255) as Byte == a[2]
    ensures Bytes3(v) == a
  {
  }

  lemma Fits24(v: bv32)
    ensures Unsigned24((v & 255) as Byte, ((v >> 8) & 255) as Byte, ((v >> 16) & 255) as Byte) == v
       <==> v <= 0x00FF_FFFF
  {
  }

  lemma UnsignedParts(x: Byte, y: Byte, z: Byte)
    ensures var v := Unsigned24(x, y, z);
            (v & 255) as Byte == x && ((v >> 8) & 255) as Byte == y && ((v >> 16) & 255) as Byte == z
  {
  }

  lemma SignedParts(x: Byte, y: Byte, z: Byte)
    ensures var v := Signed24(x, y, z);
            (v & 255) as Byte == x && ((v >> 8) & 255) as Byte == y && ((v >> 16) & 255) as Byte == z
  {
  }

  lemma RoundTrip5Iff(v: bv64, a: seq<Byte>)
    requires |a| == 5
    ensures Uint5korr(Bytes5(v)) == v <==> v <= 0xFF_FFFF_FFFF
    ensures Bytes5(Uint5korr(a)) == a
  {
    var low, x := (v & 0xFFFF_FFFF) as bv32, ((v >> 32) & 255) as Byte;
    assert Bytes5(v)[..4] == Bytes4(low) && Bytes5(v)[4] == x;
    LoadStore4(low);
    Fits40(v);
    StoreLoad4(a[..4]);
    Parts40(Uint4korr(a[..4]), a[4]);
    assert a == a[..4] + [a[4]];
  }

  lemma Fits40(v: bv64)
    ensures (((v & 0xFFFF_FFFF) as bv32) as bv64) + (((((v >> 32) & 255) as Byte) as bv64) << 32) == v
       <==> v <= 0xFF_FFFF_FFFF
  {
  }

  lemma Parts40(low: bv32, x: Byte)
    ensures var w := (low as bv64) + ((x as bv64) << 32);
            (w & 0xFFFF_FFFF) as bv32 == low && ((w >> 32) & 255) as Byte == x
  {
  }

  lemma RoundTrip6Iff(v: bv64, a: seq<Byte>)
    requires |a| == 6
    ensures Uint6korr(Bytes6(v)) == v <==> v <= 0xFFFF_FFFF_FFFF
    ensures Bytes6(Uint6korr(a)) == a
  {
    var low, x, y := (v & 0xFFFF_FFFF) as bv32, ((v >> 32) & 255) as Byte, ((v >> 40) & 255) as Byte;
    assert Bytes6(v)[..4] == Bytes4(low) && Bytes6(v)[4] == x && Bytes6(v)[5] == y;
    LoadStore4(low);
    Fits48(v);
    StoreLoad4(a[..4]);
    Parts48(Uint4korr(a[..4]), a[4], a[5]);
    assert a == a[..4] + [a[4], a[5]];
  }

  lemma Fits48(v: bv64)
    ensures (((v & 0xFFFF_FFFF) as bv32) as bv64) + (((((v >> 32) & 255) as Byte) as bv64) << 32)
              + (((((v >> 40) & 255) as Byte) as bv64) << 40) == v
       <==> v <= 0xFFFF_FFFF_FFFF
  {
  }

  lemma Parts48(low: bv32, x: Byte, y: Byte)
    ensures var w := (low as bv64) + ((x as bv64) << 32) + ((y as bv64) << 40);
            (w & 0xFFFF_FFFF) as bv32 == low && ((w >> 32) & 255) as Byte == x && ((w >> 40) & 255) as Byte == y
  {
  }

  /** The 24-bit form keeps the bits of a signed value exactly when it fits in 24 bits. */
  lemma RoundTrip3Iff(v: bv32)
    ensures Sint3korr(Bytes3(v)) == v <==> v <= 0x007F_FFFF || v >= 0xFF80_0000
  {
    Signed24Of(v);
    if v & 0x0080_0000 != 0 { NegativeFits(v); } else { PositiveFits(v); }
  }

  /** The bytes of a value put together again: its 24 low bits, the highest of them spread. */
  lemma Signed24Of(v: bv32)
    ensures Signed24((v & 255) as Byte, ((v >> 8) & 255) as Byte, ((v >> 16) & 255) as Byte)
         == if v & 0x0080_0000 != 0 then 0xFF00_0000 | (v & 0x00FF_FFFF) else v & 0x00FF_FFFF
  {
  }

  lemma NegativeFits(v: bv32)
    requires v & 0x0080_0000 != 0
    ensures 0xFF00_0000 | (v & 0x00FF_FFFF) == v <==> v >= 0xFF80_0000
    ensures v > 0x007F_FFFF
  {
  }

  lemma PositiveFits(v: bv32)
    requires v & 0x0080_0000 == 0
    ensures v & 0x00FF_FFFF == v <==> v <= 0x007F_FFFF
    ensures v < 0xFF80_0000
  {
  }

  /** The low byte comes first, at every width. */
  lemma LowByteFirst()
    ensures Bytes2(0x1122) == [0x22, 0x11]
    ensures Bytes3(0x112233) == [0x33, 0x22, 0x11]
    ensures Bytes4(0x11223344) == [0x44, 0x33, 0x22, 0x11]
    ensures Bytes5(0x1122334455) == [0x55, 0x44, 0x33, 0x22, 0x11]
    ensures Bytes6(0x112233445566) == [0x66, 0x55, 0x44, 0x33, 0x22, 0x11]
    ensures Bytes8(0x1122334455667788) == [0x88, 0x77, 0x66, 0x55, 0x44, 0x33, 0x22, 0x11]
    ensures Sint3korr([0xFE, 0xFF, 0xFF]) == 0xFFFF_FFFE && Sint3korr([0x03, 0x02, 0x01]) == 0x0001_0203
  {
  }
}
