/** The raw path: PDUs of custom protocols, sent behind a size guard, and found again by their CRC alone. */
module RawPath {
  import opened Bytes
  import opened Crc16
  import opened Status
  import opened RtuFramer
  import opened RtuTheorems
  import opened Requests
  import opened Receiver

  /** A nonempty PDU sent raw and received whole comes back as it was, at the front of the buffer `was` of the
      caller, exactly when no shorter prefix of its frame closes with its own CRC. */
  lemma RawRoundTrip(cfg: Config, n: Node, slave: Byte, pdu: seq<Byte>, now: Tick, was: seq<Byte>)
    requires 1 <= |pdu| <= |was| && |pdu| + 3 <= cfg.size && n.buf == []
    ensures var f := Frame(slave, pdu);
      var (n', e) := Step(cfg, n, Poll(Raw(|was|), f, now));
      var (copied, length) := CopiedInto(was, e);
      && Returned(e) == Ok && n'.buf == [] && |copied| == |was| && length <= |was|
      && (copied[..length] == pdu <==> forall k: nat :: 4 <= k < |f| ==> !TrailerMatches(f[..k]))
      && (copied[..length] == pdu ==> copied[length..] == was[length..])
  {
    hide TrailerMatches, ScanRaw, Frame;
    var f := Frame(slave, pdu);
    FrameParts(slave, pdu);
    ScanRawIsShortest(f, 4);
    assert [] + f == f && f[..|f|] == f;
    var r := ScanRaw(f, 4);
    assert r.At?;
    var e := Step(cfg, n, Poll(Raw(|was|), f, now)).1;
    assert e == Copied(f[..r.len], f[r.len..]);
    var inner := e.frame[1..|e.frame| - 2];
    assert |inner| == r.len - 3;
    assert (inner + was[|inner|..])[..|inner|] == inner;
  }

  /** `pa_modbus_send_raw`; `sent` is what the send callback reports. The size guard reserves the seven bytes
      of the larger framer, so that framing for RTU never fails in a buffer of seven bytes or more; in a
      smaller one the guard wraps around, and only the framer's own check is left. */
  method SendRaw(tx: Transmitter, pdu: seq<Byte>, sent: bool) returns (r: Result<nat>)
    requires tx.txbuf.Length >= 7 || |pdu| <= tx.txbuf.Length
    modifies tx`txLen, tx.txbuf
    ensures tx.txbuf.Length >= 7 && |pdu| > tx.txbuf.Length - 7 ==>
      tx.State() == old(tx.State()) && r == Failure(ErrBufferFull)
    ensures tx.txbuf.Length < 7 || |pdu| <= tx.txbuf.Length - 7 ==>
      var (state, framed) := old(tx.State()).Send(tx.slave, pdu);
      && tx.State() == state
      && r == (if framed.Failure? then framed else if sent then Success(|pdu| + 3) else Failure(ErrCallback))
    ensures tx.txbuf.Length >= 7 && r == Failure(ErrBufferFull) ==> tx.State() == old(tx.State())
  {
    hide Frame;
    if tx.txbuf.Length >= 7 && |pdu| > tx.txbuf.Length - 7 {
      return Failure(ErrBufferFull);
    }
    ghost var was := tx.txbuf[..];
    forall i | 0 <= i < |pdu| {
      tx.txbuf[i] := pdu[i];
    }
    r := tx.Finish(|pdu|, was, pdu);
    if r.Success? && !sent {
      r := Failure(ErrCallback);
    }
  }
}
