/** The receivers as the library runs them: an accumulator that is filled, scanned and compacted in place. */
module ReceiverContext {
  import opened Bytes
  import opened Crc16
  import opened Status
  import opened RtuFramer
  import opened Receiver
  import opened ReceiverTheorems
  import Responses
  import SlaveRequests

  /** What the receive callback does: bytes copied behind the accumulated ones, or a failure. */
  datatype Delivery = Delivered(bytes: seq<Byte>) | Failed

  class Context {
    const cfg: Config
    const rxbuf: array<Byte>
    var rxLen: nat
    var lastRxTick: Tick
    const master: Responses.Master
    const request: SlaveRequests.SlaveRequest

    /** Everything the callback ever delivered, and everything the calls of either receiver did. */
    ghost var received: seq<Byte>
    ghost var events: seq<Event>

    constructor (cfg: Config, master: Responses.Master, request: SlaveRequests.SlaveRequest)
      requires master.Valid() && request.Valid()
      requires master.coils != request.coils && master.regs != request.regs
      ensures this.cfg == cfg && this.master == master && this.request == request
      ensures Valid() && State().buf == [] && received == [] && events == []
    {
      this.cfg, this.master, this.request := cfg, master, request;
      rxbuf := new Byte[cfg.size](_ => 0);
      rxLen, lastRxTick := 0, 0;
      received, events := [], [];
    }

    /** Buffers are separate; and what has been received is what the events took, then what is buffered. */
    ghost predicate Valid()
      reads this, rxbuf, master, request
    {
      && rxbuf.Length == cfg.size && rxLen <= rxbuf.Length
      && master.Valid() && request.Valid()
      && rxbuf != master.coils && rxbuf != request.coils
      && master.coils != request.coils && master.regs != request.regs
      && received == Taken(events) + rxbuf[..rxLen]
    }

    ghost function State(): Node
      reads this, rxbuf, master, master.coils, master.regs, request, request.coils, request.regs
      requires Valid()
    {
      Node(rxbuf[..rxLen], lastRxTick, master.State(), request.State())
    }

    /** The scan over every offset. */
    method ScanFrame() returns (r: Found)
      requires Valid()
      ensures r == Scan(cfg, rxbuf[..rxLen])
    {
      hide Unwrap;
      ghost var buf := rxbuf[..rxLen];
      var off := 0;
      while off < rxLen
        invariant 0 <= off <= rxLen
        invariant Scan(cfg, buf) == ScanFrom(cfg, buf, off)
      {
        assert buf[off..] == rxbuf[off..rxLen];
        var u := Unwrap(cfg.slave, cfg.discovery, rxbuf[off..rxLen]);
        if u.Accepted? {
          return At(off, |u.pdu| + 3);
        }
        off := off + 1;
      }
      r := Nothing;
    }

    /** The callback's bytes go behind those already there. */
    method Accumulate(bytes: seq<Byte>, now: Tick)
      requires Valid() && rxLen + |bytes| <= rxbuf.Length
      modifies this`rxLen, this`lastRxTick, this`received, rxbuf
      ensures Valid() && State() == Append(old(State()), bytes, now)
      ensures received == old(received) + bytes && events == old(events)
    {
      forall i | 0 <= i < |bytes| {
        rxbuf[rxLen + i] := bytes[i];
      }
      if |bytes| > 0 {
        rxLen := rxLen + |bytes|;
        lastRxTick := now;
      }
      received := received + bytes;
      assert rxbuf[..rxLen] == old(rxbuf[..rxLen]) + bytes;
      assert Taken(events) + rxbuf[..rxLen] == (Taken(events) + old(rxbuf[..rxLen])) + bytes;
    }

    /** Drops the first `consumed` bytes and moves the rest to the front. */
    method Compact(consumed: nat, now: Tick)
      requires rxLen <= rxbuf.Length && consumed <= rxLen
      modifies this`rxLen, this`lastRxTick, rxbuf
      ensures rxLen == old(rxLen) - consumed && rxbuf[..rxLen] == old(rxbuf[consumed..rxLen])
      ensures lastRxTick == if rxLen == 0 then old(lastRxTick) else now
    {
      var remaining := rxLen - consumed;
      if remaining > 0 {
        forall i | 0 <= i < remaining {
          rxbuf[i] := rxbuf[consumed + i];
        }
        lastRxTick := now;
      }
      rxLen := remaining;
    }

    /** `pa_modbus_recv`. */
    method Recv(delivery: Delivery, now: Tick) returns (ret: Status, ghost e: Event)
      requires Valid()
      requires delivery.Delivered? ==> rxLen + |delivery.bytes| <= rxbuf.Length
      modifies this, rxbuf, master, master.coils, master.regs, request, request.coils, request.regs
      ensures Valid()
      ensures (State(), e) == Step(cfg, old(State()),
                                   if delivery.Failed? then PollFailing(Framed) else Poll(Framed, delivery.bytes, now))
      ensures ret == Returned(e) && events == old(events) + [e]
      ensures received == old(received) + if delivery.Failed? then [] else delivery.bytes
    {
      if cfg.size == 0 {
        ret, e := Err(ErrState), Refused(ErrState);
        Record(e);
        return;
      }
      var t := if cfg.hasTicks then now else 0;
      if delivery.Failed? {
        ret, e := Err(ErrCallback), Refused(ErrCallback);
        Record(e);
        return;
      }
      Accumulate(delivery.bytes, t);
      ret, e := Resolve(t);
    }

    /** The history grows by an event that took nothing. */
    ghost method Record(e: Event)
      requires Valid() && TakenOf(e) == []
      modifies this`events
      ensures Valid() && events == old(events) + [e]
    {
      events := events + [e];
      assert [] + rxbuf[..rxLen] == rxbuf[..rxLen];
      TakenGrows(received, old(events), rxbuf[..rxLen], e, rxbuf[..rxLen]);
    }

    /** Everything `Recv` does once the callback's bytes are in. */
    method Resolve(t: Tick) returns (ret: Status, ghost e: Event)
      requires Valid() && cfg.size > 0
      modifies this, rxbuf, master, master.coils, master.regs, request, request.coils, request.regs
      ensures Valid() && (State(), e) == Settle(cfg, Framed, old(State()), t)
      ensures ret == Returned(e) && events == old(events) + [e] && received == old(received)
    {
      hide ScanFrom, Unwrap, SlaveRequests.SlaveFeed, Responses.MasterFeed;
      var found := ScanFrame();
      if found.At? {
        ret, e := TakeFrame(found.start, found.len, t);
        return;
      }
      if rxLen > 0 && rxLen >= rxbuf.Length {
        ret, e := Err(ErrBufferFull), Flushed(rxbuf[..rxLen], ErrBufferFull);
        Drop(e);
        return;
      }
      if cfg.hasTicks && rxLen > 0 && Elapsed(t, lastRxTick) >= cfg.timeout {
        ret, e := Err(ErrTimeout), Flushed(rxbuf[..rxLen], ErrTimeout);
        Drop(e);
        return;
      }
      ret, e := Wait(1), Waiting;
      Record(e);
    }

    /** Empties the accumulator. */
    method Drop(ghost e: Event)
      requires Valid() && TakenOf(e) == rxbuf[..rxLen]
      modifies this`rxLen, this`events
      ensures Valid() && State() == old(State()).(buf := []) && events == old(events) + [e]
    {
      rxLen := 0;
      events := events + [e];
      TakenGrows(received, old(events), old(rxbuf[..rxLen]), e, []);
    }

    /** Parses the frame found, then consumes it with everything before it. */
    method TakeFrame(start: nat, len: nat, t: Tick) returns (ret: Status, ghost e: Event)
      requires Valid() && start + len <= rxLen
      modifies this, rxbuf, master, master.coils, master.regs, request, request.coils, request.regs
      ensures Valid() && (State(), e) == Dispatch(cfg, old(State()), t, start, len)
      ensures ret == Returned(e) && events == old(events) + [e] && received == old(received)
    {
      hide Feed, Taken;
      ghost var buf, es := rxbuf[..rxLen], events;
      var frame := rxbuf[start..start + len];
      assert frame == buf[start..start + len];
      ret := FeedFrame(frame);
      ghost var fed := State();
      ghost var rest := buf[start + len..];
      assert rxbuf[..rxLen] == buf && rxbuf[start + len..rxLen] == rest;
      Compact(start + len, t);
      e := Dispatched(buf[..start], frame, rest, ret);
      events := es + [e];
      assert buf == buf[..start] + frame + rest;
      TakenGrows(received, es, buf, e, rest);
      assert State() == fed.(buf := rest, lastTick := if rest == [] then fed.lastTick else t);
    }

    method FeedFrame(frame: seq<Byte>) returns (ret: Status)
      requires Valid()
      modifies master, master.coils, master.regs, request, request.coils, request.regs
      ensures Valid() && (ret, State()) == Feed(cfg, old(State()), frame)
      ensures rxbuf[..] == old(rxbuf[..])
    {
      hide SlaveRequests.SlaveFeed, Responses.MasterFeed;
      if cfg.slaveMode {
        ret := request.Feed(cfg.slave, cfg.discovery, frame);
      } else {
        ret := master.Feed(cfg.slave, cfg.discovery, frame);
      }
    }

    /** `pa_modbus_rx_reset`. */
    method RxReset()
      requires Valid()
      modifies this`rxLen, this`events
      ensures Valid() && events == old(events) + [Discarded(old(State()).buf)]
      ensures State() == Step(cfg, old(State()), Reset).0
    {
      Drop(Discarded(rxbuf[..rxLen]));
    }

    /** `pa_modbus_recv_raw`, into a buffer of the caller's. */
    method RecvRaw(delivery: Delivery, now: Tick, pduBuf: array<Byte>)
      returns (ret: Status, pduLen: nat, ghost e: Event)
      requires Valid() && pduBuf != rxbuf && pduBuf != master.coils && pduBuf != request.coils
      requires delivery.Delivered? ==> rxLen + |delivery.bytes| <= rxbuf.Length
      modifies this, rxbuf, pduBuf
      ensures Valid()
      ensures var mode := Raw(pduBuf.Length);
        (State(), e) == Step(cfg, old(State()),
                             if delivery.Failed? then PollFailing(mode) else Poll(mode, delivery.bytes, now))
      ensures ret == Returned(e) && events == old(events) + [e]
      ensures received == old(received) + if delivery.Failed? then [] else delivery.bytes
      ensures (pduBuf[..], pduLen) == CopiedInto(old(pduBuf[..]), e)
    {
      pduLen := pduBuf.Length;
      if cfg.size == 0 {
        ret, e := Err(ErrBadParam), Refused(ErrBadParam);
        Record(e);
        return;
      }
      var t := if cfg.hasTicks then now else 0;
      if delivery.Failed? {
        ret, e := Err(ErrCallback), Refused(ErrCallback);
        Record(e);
        return;
      }
      Accumulate(delivery.bytes, t);
      ret, pduLen, e := ResolveRaw(t, pduBuf);
    }

    /** The loop that tries one frame length after another. */
    method FindRaw() returns (r: Found)
      requires rxLen <= rxbuf.Length
      ensures r == ScanRaw(rxbuf[..rxLen], 4)
    {
      hide TrailerMatches, ScanRaw, Crc;
      ghost var buf := rxbuf[..rxLen];
      var len := 4;
      while len <= rxLen
        invariant 4 <= len && (len <= rxLen + 1 || len == 4)
        invariant ScanRaw(buf, 4) == ScanRaw(buf, len)
      {
        assert buf[..len] == rxbuf[..len];
        assert rxbuf[..len][..len - 2] == rxbuf[..len - 2];
        var crc := PaCrc16(rxbuf, len - 2);
        TrailerIs(rxbuf[..len], crc);
        NextLength(buf, len);
        if crc == rxbuf[len - 2] + 0x100 * (rxbuf[len - 1] as int) {
          return At(0, len);
        }
        len := len + 1;
      }
      NextLength(buf, len);
      r := Nothing;
    }

    /** Copies the PDU of the raw frame found and empties the accumulator, or leaves all as it is. */
    method TakeRaw(len: nat, pduBuf: array<Byte>) returns (ret: Status, pduLen: nat, ghost e: Event)
      requires Valid() && 4 <= len <= rxLen
      requires pduBuf != rxbuf && pduBuf != master.coils && pduBuf != request.coils
      modifies this`rxLen, this`events, pduBuf
      ensures Valid() && (State(), e) == CopyOut(old(State()), len, pduBuf.Length)
      ensures ret == Returned(e) && events == old(events) + [e]
      ensures (pduBuf[..], pduLen) == CopiedInto(old(pduBuf[..]), e)
    {
      ghost var frame, rest, was := rxbuf[..len], rxbuf[len..rxLen], pduBuf[..];
      assert rxbuf[..rxLen][..len] == frame && rxbuf[..rxLen][len..] == rest;
      if len - 3 > pduBuf.Length {
        ret, pduLen, e := Err(ErrBufferFull), pduBuf.Length, Held(frame, rest, pduBuf.Length);
        Record(e);
        return;
      }
      forall i | 0 <= i < len - 3 {
        pduBuf[i] := rxbuf[1 + i];
      }
      assert pduBuf[..] == Overwrite(was, frame[1..len - 2]);
      ret, pduLen, e := Ok, len - 3, Copied(frame, rest);
      assert rxbuf[..rxLen] == frame + rest;
      Drop(e);
    }

    /** Everything `RecvRaw` does once the callback's bytes are in. */
    method ResolveRaw(t: Tick, pduBuf: array<Byte>) returns (ret: Status, pduLen: nat, ghost e: Event)
      requires Valid() && cfg.size > 0
      requires pduBuf != rxbuf && pduBuf != master.coils && pduBuf != request.coils
      modifies this, pduBuf
      ensures Valid() && (State(), e) == Settle(cfg, Raw(pduBuf.Length), old(State()), t)
      ensures ret == Returned(e) && events == old(events) + [e] && received == old(received)
      ensures (pduBuf[..], pduLen) == CopiedInto(old(pduBuf[..]), e)
    {
      hide TrailerMatches, ScanRaw;
      ghost var buf := rxbuf[..rxLen];
      pduLen := pduBuf.Length;
      var found := FindRaw();
      if found.At? {
        ret, pduLen, e := TakeRaw(found.len, pduBuf);
        return;
      }
      if rxLen >= rxbuf.Length {
        ret, e := Err(ErrBufferFull), Flushed(buf, ErrBufferFull);
        Drop(e);
        return;
      }
      if cfg.hasTicks && rxLen > 0 && Elapsed(t, lastRxTick) >= cfg.timeout {
        ret, e := Err(ErrTimeout), Flushed(buf, ErrTimeout);
        Drop(e);
        return;
      }
      ret, e := Wait(1), Waiting;
      Record(e);
    }
  }

  lemma NextLength(buf: seq<Byte>, len: nat)
    requires len >= 4
    ensures ScanRaw(buf, len)
         == if len > |buf| then Nothing else if TrailerMatches(buf[..len]) then At(0, len) else ScanRaw(buf, len + 1)
  {
    hide TrailerMatches;
  }

  lemma TrailerIs(f: seq<Byte>, crc: Word)
    requires |f| >= 2 && crc == Crc(f[..|f| - 2])
    ensures TrailerMatches(f) <==> crc == f[|f| - 2] + 0x100 * (f[|f| - 1] as int)
  {
    hide Crc;
  }

  lemma TakenGrows(received: seq<Byte>, es: seq<Event>, buf: seq<Byte>, e: Event, rest: seq<Byte>)
    requires received == Taken(es) + buf && buf == TakenOf(e) + rest
    ensures received == Taken(es + [e]) + rest
  {
    TakenSnoc(es, e);
    assert Taken(es) + (TakenOf(e) + rest) == (Taken(es) + TakenOf(e)) + rest;
  }

  lemma {:induction false} TakenSnoc(es: seq<Event>, e: Event)
    ensures Taken(es + [e]) == Taken(es) + TakenOf(e)
    decreases |es|
  {
    if es == [] {
      assert [e][1..] == [];
      assert es + [e] == [e];
      assert TakenOf(e) + [] == [] + TakenOf(e);
    } else {
      assert (es + [e])[1..] == es[1..] + [e];
      TakenSnoc(es[1..], e);
      assert TakenOf(es[0]) + (Taken(es[1..]) + TakenOf(e)) == (TakenOf(es[0]) + Taken(es[1..])) + TakenOf(e);
    }
  }
}
