/** CRC-16/MODBUS: the bitwise definition, and the table-driven loop that computes it. */
module Crc16 {
  import opened Bytes

  function Xor(x: bv16, y: bv16): bv16 {
    x ^ y
  }

  /** One step of the shift register, polynomial 0xA001. */
  function ShiftBit(r: bv16): bv16 {
    if r & 1 == 1 then (r >> 1) ^ 0xA001 else r >> 1
  }

  function ShiftBits(r: bv16, n: nat): bv16
    decreases n
  {
    if n == 0 then r else ShiftBits(ShiftBit(r), n - 1)
  }

  function ShiftByte(r: bv16): bv16 {
    ShiftBits(r, 8)
  }

  /** The register after the bytes of `s`: each byte is XORed in, then shifted out bit by bit. */
  function Register(s: seq<Byte>): bv16 {
    if s == [] then 0xFFFF else ShiftByte(Xor(Register(s[..|s| - 1]), s[|s| - 1] as bv16))
  }

  function Crc(s: seq<Byte>): Word {
    Register(s) as int
  }

  /** The little-endian CRC carried by the last two bytes of `f` is that of the bytes before them. */
  predicate TrailerMatches(f: seq<Byte>)
    requires |f| >= 2
  {
    Crc(f[..|f| - 2]) == f[|f| - 2] + 0x100 * (f[|f| - 1] as int)
  }

  /** `crc16_table`, in rows of eight. */
  const CRC16_TABLE: seq<seq<bv16>> := [
    [0x0000, 0xC0C1, 0xC181, 0x0140, 0xC301, 0x03C0, 0x0280, 0xC241],
    [0xC601, 0x06C0, 0x0780, 0xC741, 0x0500, 0xC5C1, 0xC481, 0x0440],
    [0xCC01, 0x0CC0, 0x0D80, 0xCD41, 0x0F00, 0xCFC1, 0xCE81, 0x0E40],
    [0x0A00, 0xCAC1, 0xCB81, 0x0B40, 0xC901, 0x09C0, 0x0880, 0xC841],
    [0xD801, 0x18C0, 0x1980, 0xD941, 0x1B00, 0xDBC1, 0xDA81, 0x1A40],
    [0x1E00, 0xDEC1, 0xDF81, 0x1F40, 0xDD01, 0x1DC0, 0x1C80, 0xDC41],
    [0x1400, 0xD4C1, 0xD581, 0x1540, 0xD701, 0x17C0, 0x1680, 0xD641],
    [0xD201, 0x12C0, 0x1380, 0xD341, 0x1100, 0xD1C1, 0xD081, 0x1040],
    [0xF001, 0x30C0, 0x3180, 0xF141, 0x3300, 0xF3C1, 0xF281, 0x3240],
    [0x3600, 0xF6C1, 0xF781, 0x3740, 0xF501, 0x35C0, 0x3480, 0xF441],
    [0x3C00, 0xFCC1, 0xFD81, 0x3D40, 0xFF01, 0x3FC0, 0x3E80, 0xFE41],
    [0xFA01, 0x3AC0, 0x3B80, 0xFB41, 0x3900, 0xF9C1, 0xF881, 0x3840],
    [0x2800, 0xE8C1, 0xE981, 0x2940, 0xEB01, 0x2BC0, 0x2A80, 0xEA41],
    [0xEE01, 0x2EC0, 0x2F80, 0xEF41, 0x2D00, 0xEDC1, 0xEC81, 0x2C40],
    [0xE401, 0x24C0, 0x2580, 0xE541, 0x2700, 0xE7C1, 0xE681, 0x2640],
    [0x2200, 0xE2C1, 0xE381, 0x2340, 0xE101, 0x21C0, 0x2080, 0xE041],
    [0xA001, 0x60C0, 0x6180, 0xA141, 0x6300, 0xA3C1, 0xA281, 0x6240],
    [0x6600, 0xA6C1, 0xA781, 0x6740, 0xA501, 0x65C0, 0x6480, 0xA441],
    [0x6C00, 0xACC1, 0xAD81, 0x6D40, 0xAF01, 0x6FC0, 0x6E80, 0xAE41],
    [0xAA01, 0x6AC0, 0x6B80, 0xAB41, 0x6900, 0xA9C1, 0xA881, 0x6840],
    [0x7800, 0xB8C1, 0xB981, 0x7940, 0xBB01, 0x7BC0, 0x7A80, 0xBA41],
    [0xBE01, 0x7EC0, 0x7F80, 0xBF41, 0x7D00, 0xBDC1, 0xBC81, 0x7C40],
    [0xB401, 0x74C0, 0x7580, 0xB541, 0x7700, 0xB7C1, 0xB681, 0x7640],
    [0x7200, 0xB2C1, 0xB381, 0x7340, 0xB101, 0x71C0, 0x7080, 0xB041],
    [0x5000, 0x90C1, 0x9181, 0x5140, 0x9301, 0x53C0, 0x5280, 0x9241],
    [0x9601, 0x56C0, 0x5780, 0x9741, 0x5500, 0x95C1, 0x9481, 0x5440],
    [0x9C01, 0x5CC0, 0x5D80, 0x9D41, 0x5F00, 0x9FC1, 0x9E81, 0x5E40],
    [0x5A00, 0x9AC1, 0x9B81, 0x5B40, 0x9901, 0x59C0, 0x5880, 0x9841],
    [0x8801, 0x48C0, 0x4980, 0x8941, 0x4B00, 0x8BC1, 0x8A81, 0x4A40],
    [0x4E00, 0x8EC1, 0x8F81, 0x4F40, 0x8D01, 0x4DC0, 0x4C80, 0x8C41],
    [0x4400, 0x84C1, 0x8581, 0x4540, 0x8701, 0x47C0, 0x4680, 0x8641],
    [0x8201, 0x42C0, 0x4380, 0x8341, 0x4100, 0x81C1, 0x8081, 0x4040]
  ]

  lemma ShiftByteUnrolled(r: bv16)
    ensures ShiftByte(r)
         == ShiftBit(ShiftBit(ShiftBit(ShiftBit(ShiftBit(ShiftBit(ShiftBit(ShiftBit(r))))))))
  {
    hide ShiftBit;
    var r1 := ShiftBit(r);
    var r2 := ShiftBit(r1);
    var r3 := ShiftBit(r2);
    var r4 := ShiftBit(r3);
    var r5 := ShiftBit(r4);
    var r6 := ShiftBit(r5);
    assert ShiftBits(r, 8) == ShiftBits(r1, 7) == ShiftBits(r2, 6) == ShiftBits(r3, 5);
    assert ShiftBits(r3, 5) == ShiftBits(r4, 4) == ShiftBits(r5, 3) == ShiftBits(r6, 2);
  }

  /** The row that starts with `x`: the table is linear, so row 0 is XORed onto it. */
  function RowFrom(x: bv16): seq<bv16> {
    [x, x ^ 0xC0C1, x ^ 0xC181, x ^ 0x0140, x ^ 0xC301, x ^ 0x03C0, x ^ 0x0280, x ^ 0xC241]
  }

  lemma RowsFrom0(r: bv16)
    requires 0 <= r < 8
    ensures CRC16_TABLE[r as int] == RowFrom(ShiftByte(r << 3))
  {
    ShiftByteUnrolled(r << 3);
    if r == 0 { assert r as int == 0; }
    if r == 1 { assert r as int == 1; }
    if r == 2 { assert r as int == 2; }
    if r == 3 { assert r as int == 3; }
    if r == 4 { assert r as int == 4; }
    if r == 5 { assert r as int == 5; }
    if r == 6 { assert r as int == 6; }
    if r == 7 { assert r as int == 7; }
  }

  lemma RowsFrom8(r: bv16)
    requires 8 <= r < 16
    ensures CRC16_TABLE[r as int] == RowFrom(ShiftByte(r << 3))
  {
    ShiftByteUnrolled(r << 3);
    if r == 8 { assert r as int == 8; }
    if r == 9 { assert r as int == 9; }
    if r == 10 { assert r as int == 10; }
    if r == 11 { assert r as int == 11; }
    if r == 12 { assert r as int == 12; }
    if r == 13 { assert r as int == 13; }
    if r == 14 { assert r as int == 14; }
    if r == 15 { assert r as int == 15; }
  }

  lemma RowsFrom16(r: bv16)
    requires 16 <= r < 24
    ensures CRC16_TABLE[r as int] == RowFrom(ShiftByte(r << 3))
  {
    ShiftByteUnrolled(r << 3);
    if r == 16 { assert r as int == 16; }
    if r == 17 { assert r as int == 17; }
    if r == 18 { assert r as int == 18; }
    if r == 19 { assert r as int == 19; }
    if r == 20 { assert r as int == 20; }
    if r == 21 { assert r as int == 21; }
    if r == 22 { assert r as int == 22; }
    if r == 23 { assert r as int == 23; }
  }

  lemma RowsFrom24(r: bv16)
    requires 24 <= r < 32
    ensures CRC16_TABLE[r as int] == RowFrom(ShiftByte(r << 3))
  {
    ShiftByteUnrolled(r << 3);
    if r == 24 { assert r as int == 24; }
    if r == 25 { assert r as int == 25; }
    if r == 26 { assert r as int == 26; }
    if r == 27 { assert r as int == 27; }
    if r == 28 { assert r as int == 28; }
    if r == 29 { assert r as int == 29; }
    if r == 30 { assert r as int == 30; }
    if r == 31 { assert r as int == 31; }
  }

  lemma {:induction false} ShiftBitsLinear(x: bv16, y: bv16, n: nat)
    ensures ShiftBits(Xor(x, y), n) == Xor(ShiftBits(x, n), ShiftBits(y, n))
    decreases n
  {
    hide *;
    ShiftBitsUnroll(x, n);
    ShiftBitsUnroll(y, n);
    ShiftBitsUnroll(Xor(x, y), n);
    if n > 0 {
      ShiftBitLinear(x, y);
      ShiftBitsLinear(ShiftBit(x), ShiftBit(y), n - 1);
    }
  }

  lemma ShiftBitsUnroll(r: bv16, n: nat)
    ensures ShiftBits(r, n) == if n == 0 then r else ShiftBits(ShiftBit(r), n - 1)
  {
  }

  lemma ShiftBitLinear(x: bv16, y: bv16)
    ensures ShiftBit(Xor(x, y)) == Xor(ShiftBit(x), ShiftBit(y))
  {
    ShiftRightXor(x, y);
    LowBitXor(x, y);
    XorShuffle(x >> 1, y >> 1, 0xA001);
  }

  lemma ShiftRightXor(x: bv16, y: bv16)
    ensures (x ^ y) >> 1 == (x >> 1) ^ (y >> 1)
  {
  }

  lemma LowBitXor(x: bv16, y: bv16)
    ensures (x ^ y) & 1 == 1 <==> (x & 1 == 1) != (y & 1 == 1)
  {
  }

  lemma XorShuffle(a: bv16, b: bv16, p: bv16)
    ensures (a ^ p) ^ (b ^ p) == a ^ b
    ensures (a ^ p) ^ b == (a ^ b) ^ p == a ^ (b ^ p)
  {
  }

  lemma TableRow(r: bv16)
    requires r < 32
    ensures CRC16_TABLE[r as int] == RowFrom(ShiftByte(r << 3))
  {
    if r < 8 { RowsFrom0(r); } else if r < 16 { RowsFrom8(r); }
    else if r < 24 { RowsFrom16(r); } else { RowsFrom24(r); }
  }

  lemma FirstRow(l: bv16, x: bv16)
    requires l < 8
    ensures RowFrom(x)[l as int] == Xor(x, ShiftByte(l))
  {
    ShiftByteUnrolled(l);
    if l == 0 { assert l as int == 0; }
    if l == 1 { assert l as int == 1; }
    if l == 2 { assert l as int == 2; }
    if l == 3 { assert l as int == 3; }
    if l == 4 { assert l as int == 4; }
    if l == 5 { assert l as int == 5; }
    if l == 6 { assert l as int == 6; }
    if l == 7 { assert l as int == 7; }
  }

  /** Every one of the 256 entries is eight bit-shifts of its index. */
  lemma TableIsShift(i: bv16)
    requires i < 0x100
    ensures |CRC16_TABLE| == 32 && i >> 3 < 32 && |CRC16_TABLE[(i >> 3) as int]| == 8
    ensures CRC16_TABLE[(i >> 3) as int][(i & 7) as int] == ShiftByte(i)
  {
    hide ShiftByte, RowFrom, Xor;
    var r, l := i >> 3, i & 7;
    SplitIndex(i);
    TableRow(r);
    FirstRow(l, ShiftByte(r << 3));
    ShiftByteLinear(r << 3, l);
  }

  lemma SplitIndex(i: bv16)
    requires i < 0x100
    ensures i >> 3 < 32 && i & 7 < 8 && i == Xor((i >> 3) << 3, i & 7)
  {
  }

  /** One table step is a byte XORed in and eight shifts. */
  lemma TableStep(crc: bv16, b: bv16)
    requires b < 0x100
    ensures ShiftByte(Xor(crc, b)) == Xor(crc >> 8, ShiftByte(Xor(crc, b) & 0xFF))
  {
    hide *;
    var x := Xor(crc, b);
    var h, l := x & 0xFF00, x & 0xFF;
    SplitRegister(crc, b);
    ShiftByteLinear(h, l);
    HighByteShifts(x);
  }

  lemma ShiftByteLinear(x: bv16, y: bv16)
    ensures ShiftByte(Xor(x, y)) == Xor(ShiftByte(x), ShiftByte(y))
  {
    hide ShiftBits, Xor;
    ShiftBitsLinear(x, y, 8);
  }

  lemma SplitRegister(crc: bv16, b: bv16)
    requires b < 0x100
    ensures Xor(crc, b) == Xor(Xor(crc, b) & 0xFF00, Xor(crc, b) & 0xFF)
    ensures Xor(crc, b) & 0xFF < 0x100 && Xor(crc, b) >> 8 == crc >> 8
  {
  }

  lemma HighByteShifts(x: bv16)
    ensures ShiftByte(x & 0xFF00) == x >> 8
  {
    ShiftByteUnrolled(x & 0xFF00);
  }

  /** `crc16_table[i]`. */
  function TableEntry(i: bv16): bv16
    requires i < 0x100
  {
    TableIsShift(i);
    CRC16_TABLE[(i >> 3) as int][(i & 7) as int]
  }

  /** One turn of the table loop. */
  function TableTurn(crc: bv16, b: Byte): bv16 {
    var idx := Xor(crc, b as bv16) & 0xFF;
    Xor(crc >> 8, TableEntry(idx))
  }

  /** What one turn of the table loop makes of the register. */
  lemma TableUpdate(s: seq<Byte>, b: Byte)
    ensures Register(s + [b]) == TableTurn(Register(s), b)
  {
    hide ShiftByte, Xor, TableEntry, Register;
    var x := b as bv16;
    RegisterAppend(s, b);
    SplitRegister(Register(s), x);
    EntryIsShift(Xor(Register(s), x) & 0xFF);
    TableStep(Register(s), x);
  }

  lemma EntryIsShift(i: bv16)
    requires i < 0x100
    ensures TableEntry(i) == ShiftByte(i)
  {
    hide ShiftByte;
    TableIsShift(i);
  }

  lemma RegisterAppend(s: seq<Byte>, b: Byte)
    ensures b as bv16 < 0x100
    ensures Register(s + [b]) == ShiftByte(Xor(Register(s), b as bv16))
  {
    hide ShiftByte, Xor;
    assert (s + [b])[..|s|] == s;
  }

  /** `pa_crc16`: the table-driven loop computes the bitwise CRC. */
  method PaCrc16(data: array<Byte>, len: nat) returns (crc: Word)
    requires len <= data.Length
    ensures crc == Crc(data[..len])
  {
    hide Register, TableTurn, Crc;
    var reg: bv16 := 0xFFFF;
    EmptyRegister();
    for i := 0 to len
      invariant reg == Register(data[..i])
    {
      TableUpdate(data[..i], data[i]);
      assert data[..i + 1] == data[..i] + [data[i]];
      reg := TableTurn(reg, data[i]);
    }
    CrcIsRegister(data[..len]);
    crc := reg as int;
  }

  lemma CrcIsRegister(s: seq<Byte>)
    ensures Crc(s) == Register(s) as int
  {
  }

  lemma EmptyRegister()
    ensures Register([]) == 0xFFFF
  {
  }
}
