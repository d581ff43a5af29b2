/** TCP framing: the seven-byte MBAP header before the PDU, numbered by a transaction counter. */
module TcpFramer {
  import opened Bytes
  import opened Status
  import RtuFramer

  function TcpFrame(transaction: Word, slave: Byte, pdu: seq<Byte>): (f: seq<Byte>)
    ensures |f| == |pdu| + 7
  {
    Put16(transaction) + Put16(0) + Put16((|pdu| + 1) % 0x1_0000) + [slave] + pdu
  }

  /** `pa_framer_tcp_unwrap`. */
  function TcpUnwrap(slave: Byte, discovery: Byte, data: seq<Byte>): (u: Unwrapped)
    requires |data| >= 8 ==> Get16(data, 4) >= 1
  {
    if |data| < 8 then More(8 - |data|) else
    var length: int := Get16(data, 4);
    if |data| < 7 + length then More(7 + length - |data|)
    else if Get16(data, 2) != 0 then Rejected(ErrProtocol)
    else if !RtuFramer.Accepts(slave, discovery, data[6]) then Rejected(ErrInvalidSlave)
    else Accepted(data[7..6 + length])
  }

  /** A wrapped frame alone is always one byte short of what unwrapping asks for; with any byte behind it,
      it gives its PDU back, whatever that byte is. */
  lemma TcpRoundTrip(transaction: Word, slave: Byte, discovery: Byte, unit: Byte, pdu: seq<Byte>, tail: seq<Byte>)
    requires 1 <= |pdu| <= 0xFFFE && RtuFramer.Accepts(slave, discovery, unit)
    ensures var f := TcpFrame(transaction, unit, pdu) + tail;
      && Get16(f, 4) == |pdu| + 1
      && TcpUnwrap(slave, discovery, f) == if tail == [] then More(1) else Accepted(pdu)
  {
    var f := TcpFrame(transaction, unit, pdu) + tail;
    assert f[4] == (|pdu| + 1) / 0x100 && f[5] == (|pdu| + 1) % 0x100;
    assert f[2] == 0 && f[3] == 0 && f[6] == unit;
    assert f[7..7 + |pdu|] == pdu;
  }

  /** The verdict on every buffer: it waits for a header and one byte, and then for as many bytes behind the
      header as its length field says, one more than the frame has; the protocol id is judged before the unit;
      and the PDU of an accepted frame is what the length field counts, less the unit id. */
  lemma TcpVerdict(slave: Byte, discovery: Byte, data: seq<Byte>)
    requires |data| >= 6 ==> Pair(data[4], data[5]) >= 1
    ensures var u := TcpUnwrap(slave, discovery, data);
      && (|data| < 8 ==> u == More(8 - |data|))
      && (|data| >= 8 ==>
            var needed := 7 + Pair(data[4], data[5]) as int;
            var stranger := slave != 0xFF && data[6] != slave && (discovery == 0 || data[6] != discovery);
            && (|data| < needed ==> u == More(needed - |data|))
            && (|data| >= needed ==>
                  && (u == Rejected(ErrProtocol) <==> data[2] != 0 || data[3] != 0)
                  && (u == Rejected(ErrInvalidSlave) <==> data[2] == 0 && data[3] == 0 && stranger)
                  && (data[2] == 0 && data[3] == 0 && !stranger ==> u == Accepted(data[7..needed - 1]))))
  {
  }

  class Framer {
    var nextTransactionId: Word

    constructor ()
      ensures nextTransactionId == 1
    {
      nextTransactionId := 1;
    }

    /** `pa_framer_tcp_wrap`. */
    method Wrap(txbuf: array<Byte>, slave: Byte, pduLen: nat) returns (framed: Result<nat>)
      modifies this, txbuf
      ensures framed == if pduLen + 7 > txbuf.Length then Failure(ErrBufferFull) else Success(pduLen + 7)
      ensures framed.Failure? ==> txbuf[..] == old(txbuf[..]) && nextTransactionId == old(nextTransactionId)
      ensures framed.Success? ==>
        && txbuf[..] == TcpFrame(old(nextTransactionId), slave, old(txbuf[..pduLen])) + old(txbuf[pduLen + 7..])
        && nextTransactionId == (old(nextTransactionId) as int + 1) % 0x1_0000
    {
      if 7 + pduLen > txbuf.Length {
        return Failure(ErrBufferFull);
      }
      ghost var pdu := txbuf[..pduLen];
      forall i | 0 <= i < pduLen {
        txbuf[i + 7] := txbuf[i];
      }
      assert txbuf[7..] == pdu + old(txbuf[pduLen + 7..]);
      var transaction := nextTransactionId;
      nextTransactionId := (nextTransactionId as int + 1) % 0x1_0000;
      var length := (pduLen + 1) % 0x1_0000;
      PutHeader(txbuf, transaction, length, slave);
      assert txbuf[..] == TcpFrame(transaction, slave, pdu) + old(txbuf[pduLen + 7..]);
      framed := Success(7 + pduLen);
    }

    static method PutHeader(txbuf: array<Byte>, transaction: Word, length: Word, slave: Byte)
      requires txbuf.Length >= 7
      modifies txbuf
      ensures txbuf[..] == Put16(transaction) + Put16(0) + Put16(length) + [slave] + old(txbuf[7..])
    {
      txbuf[0], txbuf[1] := transaction / 0x100, transaction % 0x100;
      txbuf[2], txbuf[3] := 0, 0;
      txbuf[4], txbuf[5] := length / 0x100, length % 0x100;
      txbuf[6] := slave;
      assert txbuf[..7] == Put16(transaction) + Put16(0) + Put16(length) + [slave];
      assert txbuf[7..] == old(txbuf[7..]);
    }
  }

  /** The frames of a run of wraps into a buffer of `size` bytes, the counter standing at `id`. A PDU that
      does not fit yields no frame and uses no number. */
  function Frames(id: Word, slave: Byte, size: nat, pdus: seq<seq<Byte>>): seq<seq<Byte>>
    decreases |pdus|
  {
    if pdus == [] then []
    else if |pdus[0]| + 7 > size then Frames(id, slave, size, pdus[1..])
    else [TcpFrame(id, slave, pdus[0])] + Frames((id as int + 1) % 0x1_0000, slave, size, pdus[1..])
  }

  lemma {:induction false} FrameNumber(id: Word, slave: Byte, size: nat, pdus: seq<seq<Byte>>, k: nat)
    requires k < |Frames(id, slave, size, pdus)|
    ensures |Frames(id, slave, size, pdus)[k]| >= 7
    ensures Get16(Frames(id, slave, size, pdus)[k], 0) == (id as int + k) % 0x1_0000
    decreases |pdus|
  {
    hide TcpFrame;
    if |pdus[0]| + 7 > size {
      FrameNumber(id, slave, size, pdus[1..], k);
    } else if k == 0 {
      FirstBytes(id, slave, pdus[0]);
    } else {
      FrameNumber((id as int + 1) % 0x1_0000, slave, size, pdus[1..], k - 1);
      assert ((id as int + 1) % 0x1_0000 + (k - 1)) % 0x1_0000 == (id as int + k) % 0x1_0000;
    }
  }

  lemma FirstBytes(id: Word, slave: Byte, pdu: seq<Byte>)
    ensures Get16(TcpFrame(id, slave, pdu), 0) == id
  {
  }

  /** No transaction number comes again within 65536 successful wraps, wherever the counter wraps round. */
  lemma TransactionsDistinct(id: Word, slave: Byte, size: nat, pdus: seq<seq<Byte>>, i: nat, j: nat)
    requires i < j < |Frames(id, slave, size, pdus)| && j - i < 0x1_0000
    ensures |Frames(id, slave, size, pdus)[i]| >= 7 && |Frames(id, slave, size, pdus)[j]| >= 7
    ensures Get16(Frames(id, slave, size, pdus)[i], 0) != Get16(Frames(id, slave, size, pdus)[j], 0)
  {
    hide Frames;
    FrameNumber(id, slave, size, pdus, i);
    FrameNumber(id, slave, size, pdus, j);
  }
}
