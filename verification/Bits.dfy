/** Bits within bytes, and the packing of coils: the first coil in the least significant bit. */
module Bits {
  import opened Bytes

  /** How many bytes hold `n` bits. */
  function BytesFor(n: nat): nat {
    (n + 7) / 8
  }

  function Pow2(j: nat): (p: nat)
    requires j <= 8
  {
    if j == 0 then 1 else if j == 1 then 2 else if j == 2 then 4 else if j == 3 then 8 else if j == 4 then 16
    else if j == 5 then 32 else if j == 6 then 64 else if j == 7 then 128 else 256
  }

  /** `(b >> j) & 1`. */
  predicate BitOf(b: Byte, j: nat)
    requires j < 8
  {
    b / Pow2(j) % 2 == 1
  }

  /** A byte is determined by its bits. */
  lemma SameBits(b: Byte, c: Byte)
    requires forall j: nat :: j < 8 ==> BitOf(b, j) == BitOf(c, j)
    ensures b == c
  {
    SameBitsFrom(b, c, 0);
  }

  lemma {:induction false} SameBitsFrom(b: Byte, c: Byte, j: nat)
    requires j <= 8
    requires forall i: nat :: j <= i < 8 ==> BitOf(b, i) == BitOf(c, i)
    ensures HighPart(b, j) == HighPart(c, j)
    decreases 8 - j
  {
    hide BitOf;
    if j < 8 {
      SameBitsFrom(b, c, j + 1);
      HighPartStep(b, j);
      HighPartStep(c, j);
    }
  }

  function HighPart(b: Byte, j: nat): int
    requires j <= 8
  {
    if j == 8 then 0 else b / Pow2(j)
  }

  lemma HighPartStep(b: Byte, j: nat)
    requires j < 8
    ensures HighPart(b, j) == 2 * HighPart(b, j + 1) + if BitOf(b, j) then 1 else 0
  {
    HalvesOf(b);
    ghost var x := b / Pow2(j);
    assert HighPart(b, j + 1) == x / 2 by {
      if j == 0 {} else if j == 1 {} else if j == 2 {} else if j == 3 {}
      else if j == 4 {} else if j == 5 {} else if j == 6 {}
    }
  }

  lemma HalvesOf(b: Byte)
    ensures b / 4 == b / 2 / 2 && b / 8 == b / 4 / 2 && b / 16 == b / 8 / 2
    ensures b / 32 == b / 16 / 2 && b / 64 == b / 32 / 2 && b / 128 == b / 64 / 2
    ensures b / 128 < 2
  {
  }

  lemma ShiftedBit(b: Byte, j: nat)
    requires j < 8
    ensures BitOf(b, j) <==> ((b as bv16) >> j) & 1 == 1
  {
    if j == 0 {} else if j == 1 {} else if j == 2 {} else if j == 3 {}
  }

  /** The bits `from + j .. from + 8` of `bits`, as a number; positions past the end count as clear. */
  function PackFrom(bits: seq<bool>, from: nat, j: nat): (v: nat)
    requires j <= 8
    ensures v < Pow2(8 - j)
    decreases 8 - j
  {
    if j == 8 then 0
    else
      var rest := PackFrom(bits, from, j + 1);
      assert Pow2(8 - j) == 2 * Pow2(8 - (j + 1)) by { Doubles(8 - (j + 1)); }
      2 * rest + if from + j < |bits| && bits[from + j] then 1 else 0
  }

  lemma Doubles(j: nat)
    requires j < 8
    ensures Pow2(j + 1) == 2 * Pow2(j)
  {
  }

  function PackBits(bits: seq<bool>): (s: seq<Byte>)
    ensures |s| == BytesFor(|bits|)
  {
    seq(BytesFor(|bits|), k requires 0 <= k => PackFrom(bits, 8 * k, 0))
  }

  function UnpackBits(s: seq<Byte>, n: nat): (bits: seq<bool>)
    requires n <= 8 * |s|
    ensures |bits| == n
  {
    seq(n, i requires 0 <= i < n => BitOf(s[i / 8], i % 8))
  }

  lemma {:induction false} HighPartOfPack(bits: seq<bool>, from: nat, j: nat)
    requires j <= 8
    ensures HighPart(PackFrom(bits, from, 0), j) == PackFrom(bits, from, j)
  {
    if j > 0 {
      HighPartOfPack(bits, from, j - 1);
      HighPartStep(PackFrom(bits, from, 0), j - 1);
    }
  }

  lemma BitOfPackFrom(bits: seq<bool>, from: nat, j: nat)
    requires j < 8
    ensures BitOf(PackFrom(bits, from, 0), j) <==> from + j < |bits| && bits[from + j]
  {
    HighPartOfPack(bits, from, j);
    HighPartOfPack(bits, from, j + 1);
    HighPartStep(PackFrom(bits, from, 0), j);
  }

  /** Bit `j` of a packed byte is the coil packed there, and padding bits are clear. */
  lemma BitOfPack(bits: seq<bool>, k: nat, j: nat)
    requires k < BytesFor(|bits|) && j < 8
    ensures BitOf(PackBits(bits)[k], j) <==> 8 * k + j < |bits| && bits[8 * k + j]
  {
    BitOfPackFrom(bits, 8 * k, j);
  }

  /** Packed coils unpack to themselves, also from the front of a longer buffer. */
  lemma UnpackPack(bits: seq<bool>, s: seq<Byte>)
    requires BytesFor(|bits|) <= |s| && s[..BytesFor(|bits|)] == PackBits(bits)
    ensures UnpackBits(s, |bits|) == bits
  {
    hide PackBits, BitOf;
    forall i | 0 <= i < |bits|
      ensures BitOf(s[i / 8], i % 8) == bits[i]
    {
      BitOfPack(bits, i / 8, i % 8);
      assert s[i / 8] == PackBits(bits)[i / 8];
    }
  }

  /** `b | (1 << j)`. */
  function SetBit(b: Byte, j: nat): Byte
    requires j < 8
  {
    if BitOf(b, j) then b else SetBitFits(b, j); b + Pow2(j)
  }

  lemma SetBitFits(b: Byte, j: nat)
    requires j < 8 && !BitOf(b, j)
    ensures b + Pow2(j) < 0x100
  {
    HalvesOf(b);
    if j == 0 {} else if j == 1 {} else if j == 2 {} else if j == 3 {}
    else if j == 4 {} else if j == 5 {} else if j == 6 {}
  }

  lemma {:induction false} SetBitHigh(b: Byte, j: nat, k: nat)
    requires j < 8 && k <= 8 && !BitOf(b, j)
    ensures HighPart(SetBit(b, j), k) == HighPart(b, k) + if k <= j then Pow2(j - k) else 0
    decreases k
  {
    hide HighPart, SetBit, Pow2, BitOf;
    if k == 0 {
      SetBitAdds(b, j);
    } else {
      SetBitHigh(b, j, k - 1);
      HighPartStep(b, k - 1);
      HighPartStep(SetBit(b, j), k - 1);
      if k <= j {
        Doubles(j - k);
      } else {
        LowestPower();
      }
    }
  }

  lemma SetBitAdds(b: Byte, j: nat)
    requires j < 8 && !BitOf(b, j)
    ensures SetBit(b, j) == b + Pow2(j)
    ensures HighPart(b, 0) == b && HighPart(SetBit(b, j), 0) == SetBit(b, j)
  {
  }

  lemma LowestPower()
    ensures Pow2(0) == 1
  {
  }

  /** Setting bit `j` sets bit `j` and no other. */
  lemma SetBitBits(b: Byte, j: nat, k: nat)
    requires j < 8 && k < 8
    ensures BitOf(SetBit(b, j), k) <==> k == j || BitOf(b, k)
  {
    hide SetBit, HighPart, BitOf;
    if BitOf(b, j) {
      SetAlready(b, j);
    } else {
      SetBitHigh(b, j, k);
      HighPartStep(b, k);
      HighPartStep(SetBit(b, j), k);
      if k < j {
        Doubles(j - k - 1);
      }
    }
  }

  lemma SetAlready(b: Byte, j: nat)
    requires j < 8 && BitOf(b, j)
    ensures SetBit(b, j) == b
  {
  }

  /** Packing one coil more sets at most one bit of one byte. */
  lemma PackGrow(bits: seq<bool>, i: nat, k: nat)
    requires i < |bits|
    ensures PackFrom(bits[..i + 1], 8 * k, 0)
         == var b := PackFrom(bits[..i], 8 * k, 0); if k == i / 8 && bits[i] then SetBit(b, i % 8) else b
  {
    hide PackFrom, BitOf, SetBit;
    var was := PackFrom(bits[..i], 8 * k, 0);
    var now := PackFrom(bits[..i + 1], 8 * k, 0);
    forall j: nat | j < 8
      ensures BitOf(now, j) <==> BitOf(was, j) || (k == i / 8 && j == i % 8 && bits[i])
    {
      BitOfPackFrom(bits[..i], 8 * k, j);
      BitOfPackFrom(bits[..i + 1], 8 * k, j);
    }
    if k == i / 8 && bits[i] {
      forall j: nat | j < 8
        ensures BitOf(SetBit(was, i % 8), j) == BitOf(now, j)
      {
        SetBitBits(was, i % 8, j);
      }
      SameBits(SetBit(was, i % 8), now);
    } else {
      SameBits(was, now);
    }
  }

  lemma PackNothing(from: nat, j: nat)
    requires j <= 8
    ensures PackFrom([], from, j) == 0
    decreases 8 - j
  {
  }
}
