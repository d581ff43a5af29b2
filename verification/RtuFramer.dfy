/** RTU framing: slave address, PDU, little-endian CRC-16. */
module RtuFramer {
  import opened Bytes
  import opened Crc16
  import opened Status

  /** The whole frame sent for a PDU. */
  function Frame(slave: Byte, pdu: seq<Byte>): (f: seq<Byte>)
    ensures |f| == |pdu| + 3
  {
    var body := [slave] + pdu;
    body + [Crc(body) % 0x100, Crc(body) / 0x100]
  }

  /** What the first bytes of a buffer say about the length of the frame they start. */
  datatype Length = Exactly(n: nat) | Short(missing: nat) | BadFunction

  /** The switch on the function code. It also looks at how many bytes happen to be there. */
  function FrameLength(data: seq<Byte>): (l: Length)
    requires |data| >= 4
  {
    var fc, len := data[1], |data|;
    if 0x01 <= fc <= 0x04 then
      var bc: int := data[2];
      if 0 < bc <= 250 then Exactly(5 + bc) else Exactly(8)
    else if fc == 0x05 || fc == 0x06 then Exactly(8)
    else if fc == 0x0F || fc == 0x10 then
      if len < 8 then Short(8 - len) else Exactly(9 + data[6] as int)
    else if fc == 0x07 || fc == 0x08 || fc == 0x0B || fc == 0x0C then Exactly(8)
    else if fc == 0x11 then
      var bc: int := data[2];
      if len <= 5 then Exactly(len)
      else if 0 < bc <= 250 && 5 + bc <= len then Exactly(5 + bc)
      else Exactly(len)
    else if fc == 0x14 || fc == 0x15 then
      if len < 8 then Short(8 - len) else Exactly(len)
    else if fc == 0x16 then Exactly(10)
    else if fc == 0x17 then
      if len < 11 then Short(11 - len) else Exactly(12 + data[9] as int)
    else if fc == 0x18 then Exactly(6)
    else if 0x81 <= fc <= 0x98 then Exactly(5)
    else BadFunction
  }

  /** Address filter: everything when `slave` is 0xFF, else `slave` or a nonzero discovery address. */
  predicate Accepts(slave: Byte, discovery: Byte, addr: Byte) {
    slave == 0xFF || addr == slave || (discovery != 0 && addr == discovery)
  }

  /** `pa_framer_rtu_unwrap`. */
  function Unwrap(slave: Byte, discovery: Byte, data: seq<Byte>): (u: Unwrapped)
    ensures u.Accepted? ==> 1 <= |u.pdu| <= |data| - 3 && u.pdu == data[1..|u.pdu| + 1]
  {
    if |data| < 4 then More(4 - |data|) else
    match FrameLength(data)
    case Short(missing) => More(missing)
    case BadFunction => Rejected(ErrProtocol)
    case Exactly(n) =>
      if |data| < n then More(n - |data|)
      else if !TrailerMatches(data[..n]) then Rejected(ErrCrc)
      else if !Accepts(slave, discovery, data[0]) then Rejected(ErrInvalidSlave)
      else Accepted(data[1..n - 2])
  }

  /** `pa_framer_rtu_wrap`: shifts the PDU up inside the transmit buffer and closes the frame around it. */
  method Wrap(txbuf: array<Byte>, slave: Byte, pduLen: nat) returns (framed: Result<nat>)
    modifies txbuf
    ensures framed == if pduLen + 3 > txbuf.Length then Failure(ErrBufferFull) else Success(pduLen + 3)
    ensures framed.Failure? ==> txbuf[..] == old(txbuf[..])
    ensures framed.Success? ==> txbuf[..] == Frame(slave, old(txbuf[..pduLen])) + old(txbuf[pduLen + 3..])
  {
    if 1 + pduLen + 2 > txbuf.Length {
      return Failure(ErrBufferFull);
    }
    ghost var pdu := txbuf[..pduLen];
    forall i | 0 <= i < pduLen {
      txbuf[i + 1] := txbuf[i];
    }
    txbuf[0] := slave;
    var bodyLen := 1 + pduLen;
    var crc := PaCrc16(txbuf, bodyLen);
    assert txbuf[..bodyLen] == [slave] + pdu;
    txbuf[bodyLen] := crc % 0x100;
    txbuf[bodyLen + 1] := crc / 0x100;
    assert txbuf[..bodyLen + 2] == Frame(slave, pdu);
    framed := Success(bodyLen + 2);
  }
}
