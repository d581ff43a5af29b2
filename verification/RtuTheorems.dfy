/** What the RTU framer keeps: round trips, truncation, extension, pulling, and damage. */
module RtuTheorems {
  import opened Bytes
  import opened Crc16
  import opened CrcErrors
  import opened TwoBitErrors
  import opened Status
  import opened RtuFramer

  lemma FrameParts(slave: Byte, pdu: seq<Byte>)
    ensures var f := Frame(slave, pdu);
      f[0] == slave && f[1..|f| - 2] == pdu && TrailerMatches(f)
  {
    hide Crc;
    var f := Frame(slave, pdu);
    assert f[..|f| - 2] == [slave] + pdu;
  }

  /** Unwrapping a wrapped PDU gives that PDU back exactly when the length rule recognises the frame
      at its own length. */
  lemma RoundTrip(slave: Byte, discovery: Byte, addr: Byte, pdu: seq<Byte>)
    requires |pdu| >= 1
    requires Accepts(slave, discovery, addr)
    ensures Unwrap(slave, discovery, Frame(addr, pdu)) == Accepted(pdu)
       <==> FrameLength(Frame(addr, pdu)) == Exactly(|pdu| + 3)
  {
    hide TrailerMatches;
    var f := Frame(addr, pdu);
    FrameParts(addr, pdu);
    assert f[..|pdu| + 3] == f;
  }

  /** A frame recognised at its own length is refused exactly when it is addressed to someone else. */
  lemma AddressFilter(slave: Byte, discovery: Byte, addr: Byte, pdu: seq<Byte>)
    requires |pdu| >= 1 && FrameLength(Frame(addr, pdu)) == Exactly(|pdu| + 3)
    ensures var u := Unwrap(slave, discovery, Frame(addr, pdu));
      && (u == Rejected(ErrInvalidSlave)
          <==> slave != 0xFF && addr != slave && (discovery == 0 || addr != discovery))
      && (u != Rejected(ErrInvalidSlave) ==> u == Accepted(pdu))
  {
    hide TrailerMatches;
    FrameParts(addr, pdu);
    assert Frame(addr, pdu)[..|pdu| + 3] == Frame(addr, pdu);
  }

  /** Of the errors, a protocol error is that of an unknown function code, and of no other, whatever else is
      wrong with the frame; a CRC error comes before that of the address; and these three are all. */
  lemma FramingErrors(slave: Byte, discovery: Byte, data: seq<Byte>)
    requires |data| >= 4
    ensures var u := Unwrap(slave, discovery, data);
      var fc := data[1];
      && (u == Rejected(ErrProtocol) <==>
            && !(0x01 <= fc <= 0x08) && !(0x81 <= fc <= 0x98)
            && fc !in {0x0B, 0x0C, 0x0F, 0x10, 0x11, 0x14, 0x15, 0x16, 0x17, 0x18})
      && (u.Rejected? ==> u.error in {ErrProtocol, ErrCrc, ErrInvalidSlave})
      && (u.Rejected? && u.error != ErrProtocol ==>
            && FrameLength(data).Exactly? && 4 <= FrameLength(data).n <= |data|
            && var f := data[..FrameLength(data).n];
            && (u.error == ErrCrc <==> !TrailerMatches(f)))
      && (slave == 0xFF || data[0] == slave ==> u != Rejected(ErrInvalidSlave))
  {
    hide TrailerMatches;
  }

  /** How long the PDU of an accepted frame is: by its function code; by the byte that is taken for a byte
      count; or, of FC 14 and 15, and of FC 11 without a byte count that the buffer covers, as long as the
      buffer is. */
  lemma AcceptedLength(slave: Byte, discovery: Byte, data: seq<Byte>)
    requires Unwrap(slave, discovery, data).Accepted?
    ensures |data| >= 4
    ensures var fc, n, len := data[1], |Unwrap(slave, discovery, data).pdu|, |data|;
      && (0x01 <= fc <= 0x04 ==> n == if 1 <= data[2] <= 250 then 2 + data[2] as int else 5)
      && (fc in {0x05, 0x06, 0x07, 0x08, 0x0B, 0x0C} ==> n == 5)
      && (fc in {0x0F, 0x10} ==> len >= 9 && n == 6 + data[6] as int)
      && (fc == 0x11 ==> n == if 1 <= data[2] <= 250 && 5 + data[2] as int <= len then 2 + data[2] as int else len - 3)
      && (fc in {0x14, 0x15} ==> len >= 8 && n == len - 3)
      && (fc == 0x16 ==> n == 7)
      && (fc == 0x17 ==> len >= 12 && n == 9 + data[9] as int)
      && (fc == 0x18 ==> n == 3)
      && (fc >= 0x80 ==> n == 2)
  {
    hide TrailerMatches;
  }

  /** When four bytes or more are not enough, and how many are asked for: those up to the byte that is taken for
      the byte count, and then the rest of the frame. FC 11 never asks, and FC 14 and 15 not past eight. */
  lemma AskedFor(slave: Byte, discovery: Byte, data: seq<Byte>)
    requires |data| >= 4
    ensures var fc, u, len := data[1], Unwrap(slave, discovery, data), |data|;
      && (fc == 0x11 ==> !u.More?)
      && (fc in {0x14, 0x15} ==> (u.More? <==> len < 8) && (u.More? ==> u.missing == 8 - len))
      && (fc in {0x0F, 0x10} && len < 8 ==> u == More(8 - len))
      && (fc == 0x17 && len < 11 ==> u == More(11 - len))
      && (u.More? ==> 1 <= u.missing)
  {
    hide TrailerMatches;
  }

  /** Fewer than four bytes are never judged. */
  lemma ShortFrameWaits(slave: Byte, discovery: Byte, data: seq<Byte>)
    requires |data| < 4
    ensures Unwrap(slave, discovery, data) == More(4 - |data|)
  {
  }

  /** A frame accepted inside a longer buffer is accepted, with the same PDU, when handed over alone. */
  lemma TruncationStable(slave: Byte, discovery: Byte, data: seq<Byte>)
    requires Unwrap(slave, discovery, data).Accepted?
    ensures var pdu := Unwrap(slave, discovery, data).pdu;
      && 1 <= |pdu| <= |data| - 3
      && pdu == data[1..|pdu| + 1]
      && Unwrap(slave, discovery, data[..|pdu| + 3]) == Accepted(pdu)
  {
    hide TrailerMatches;
    var pdu := Unwrap(slave, discovery, data).pdu;
    var f := data[..|pdu| + 3];
    assert f[..|f|] == f;
  }

  /** The function codes whose frame length does not depend on how many bytes happen to be buffered. */
  predicate SelfDelimiting(fc: Byte) {
    fc != 0x11 && fc != 0x14 && fc != 0x15
  }

  /** The frame says where it ends: by its function code, or, of FC 11, by a byte count that covers it. */
  predicate Delimits(f: seq<Byte>)
    requires |f| >= 4
  {
    SelfDelimiting(f[1]) || (f[1] == 0x11 && 0 < f[2] <= 250 && |f| > 5 && |f| == 5 + f[2] as int)
  }

  /** A complete frame with more bytes behind it is accepted unchanged exactly when it says where it ends: it
      is not when it is one of FC 14 or 15, or of FC 11 without a byte count that covers it. */
  lemma ExtensionStable(slave: Byte, discovery: Byte, f: seq<Byte>, pdu: seq<Byte>, tail: seq<Byte>)
    requires Unwrap(slave, discovery, f) == Accepted(pdu) && |f| == |pdu| + 3
    ensures Unwrap(slave, discovery, f + tail) == Accepted(pdu) <==> tail == [] || Delimits(f)
  {
    hide TrailerMatches;
    assert (f + tail)[..|f|] == f == f[..|f|];
  }

  /** The number of bytes held after one more answer of `Unwrap` to the first `n` bytes of `s`. */
  function Pull(slave: Byte, discovery: Byte, s: seq<Byte>, n: nat): nat
    requires n <= |s|
  {
    var u := Unwrap(slave, discovery, s[..n]);
    if u.More? then n + u.missing else n
  }

  /** Fetching just what `Unwrap` asks for, from an empty buffer, for as long as the stream has it, at most
      three requests and 267 bytes lead to a verdict. */
  lemma PullTerminates(slave: Byte, discovery: Byte, s: seq<Byte>)
    ensures Pull(slave, discovery, s, 0) == 4
    ensures 4 <= |s| ==>
      var n2 := Pull(slave, discovery, s, 4);
      && n2 <= 255
      && (n2 <= |s| ==>
            var n3 := Pull(slave, discovery, s, n2);
            n3 <= 267 && (n3 <= |s| ==> !Unwrap(slave, discovery, s[..n3]).More?))
  {
    hide TrailerMatches;
  }

  /** The frame ends where fetching what is asked for stops: FC 11 never asks past the fourth byte, FC 14 and
      15 never past the eighth. */
  predicate EndsAsPulled(f: seq<Byte>)
    requires |f| >= 4
  {
    SelfDelimiting(f[1]) || |f| == if f[1] == 0x11 then 4 else 8
  }

  /** Pulling never goes past the end of an accepted frame, whatever follows it, and stops there with that
      frame exactly when it is self-delimiting or has just the length at which its function code stops. */
  lemma PullStopsAtFrameEnd(slave: Byte, discovery: Byte, f: seq<Byte>, pdu: seq<Byte>, tail: seq<Byte>)
    requires Unwrap(slave, discovery, f) == Accepted(pdu) && |f| == |pdu| + 3
    ensures var s := f + tail;
      var n1 := Pull(slave, discovery, s, 0);
      n1 <= |f| &&
      var n2 := Pull(slave, discovery, s, n1);
      n2 <= |f| &&
      var n3 := Pull(slave, discovery, s, n2);
      n3 <= |f| && (n3 == |f| && Unwrap(slave, discovery, s[..n3]) == Accepted(pdu) <==> EndsAsPulled(f))
  {
    hide TrailerMatches;
    var s := f + tail;
    assert s[..|f|] == f == f[..|f|];
  }

  /** A frame taken at its own length whose CRC differs from that of a valid one of that length. */
  lemma DamageRejected(slave: Byte, discovery: Byte, f: seq<Byte>, pdu: seq<Byte>, g: seq<Byte>)
    requires Unwrap(slave, discovery, f) == Accepted(pdu) && |f| == |pdu| + 3
    requires |g| == |f| && FrameLength(g) == Exactly(|f|) && Crc(g) != Crc(f)
    ensures Unwrap(slave, discovery, g) == Rejected(ErrCrc)
  {
    hide TrailerMatches, Crc;
    assert f[..|f|] == f && g[..|g|] == g;
    ZeroResidue(f);
    ZeroResidue(g);
  }

  /** A valid frame damaged within sixteen consecutive bits, CRC included, but still taken at the
      same length, is always reported as a CRC error. */
  lemma BurstRejected(slave: Byte, discovery: Byte, f: seq<Byte>, pdu: seq<Byte>, g: seq<Byte>, p: nat)
    requires Unwrap(slave, discovery, f) == Accepted(pdu) && |f| == |pdu| + 3
    requires |g| == |f| && g != f && DifferWithin(f, g, p)
    requires FrameLength(g) == Exactly(|f|)
    ensures Unwrap(slave, discovery, g) == Rejected(ErrCrc)
  {
    hide Unwrap, FrameLength, Crc, DifferWithin;
    BurstDetected(f, g, p);
    DamageRejected(slave, discovery, f, pdu, g);
  }

  /** A valid frame in which an odd number of bits was flipped, CRC included, but still taken at the same
      length, is always reported as a CRC error. */
  lemma OddErrorsRejected(slave: Byte, discovery: Byte, f: seq<Byte>, pdu: seq<Byte>, g: seq<Byte>)
    requires Unwrap(slave, discovery, f) == Accepted(pdu) && |f| == |pdu| + 3
    requires |g| == |f| && Differences(f, g, 8 * |f|) % 2 == 1
    requires FrameLength(g) == Exactly(|f|)
    ensures Unwrap(slave, discovery, g) == Rejected(ErrCrc)
  {
    hide Unwrap, FrameLength, Crc, Differences, Register, OddParity, Xor;
    OddErrorsDetected(f, g);
    DamageRejected(slave, discovery, f, pdu, g);
  }

  /** So is a valid frame of up to 4095 bytes with one to three flipped bits, wherever they are. */
  lemma ThreeErrorsRejected(slave: Byte, discovery: Byte, f: seq<Byte>, pdu: seq<Byte>, g: seq<Byte>)
    requires Unwrap(slave, discovery, f) == Accepted(pdu) && |f| == |pdu| + 3 <= 4095
    requires |g| == |f| && 1 <= Differences(f, g, 8 * |f|) <= 3
    requires FrameLength(g) == Exactly(|f|)
    ensures Unwrap(slave, discovery, g) == Rejected(ErrCrc)
  {
    hide Unwrap, FrameLength, Crc, Differences;
    ThreeBitsDetected(f, g);
    DamageRejected(slave, discovery, f, pdu, g);
  }

  /** A queue request is only ever accepted with its three-byte PDU. */
  lemma QueueFrameLength(slave: Byte, discovery: Byte, data: seq<Byte>)
    requires |data| >= 4 && data[1] == 0x18 && Unwrap(slave, discovery, data).Accepted?
    ensures |Unwrap(slave, discovery, data).pdu| == 3
  {
  }
}
