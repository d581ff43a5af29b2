/** The whole path: builders, framers, receivers, parsers and responder, one poll on each side. */
module Polling {
  import opened Bytes
  import opened Crc16
  import opened Status
  import opened RtuFramer
  import opened RtuTheorems
  import opened Requests
  import opened Responder
  import opened Receiver
  import opened ReceiverTheorems
  import Exchange
  import Responses

  /** A frame that round-trips is complete for the receiver. */
  lemma WrappedIsComplete(cfg: Config, addr: Byte, pdu: seq<Byte>)
    requires |pdu| >= 1 && SelfDelimiting(pdu[0])
    requires Unwrap(cfg.slave, cfg.discovery, Frame(addr, pdu)) == Accepted(pdu)
    ensures Complete(cfg, Frame(addr, pdu))
  {
    hide Crc, Unwrap;
  }

  /** A register read polled out of the slave's receiver, answered, and polled out of the master's receiver
      gives the master the slave's registers, and leaves both accumulators empty. */
  lemma ReadThroughReceivers(cb: Callbacks, bank: Bank, slaveCfg: Config, s: Node, masterCfg: Config, m: Node,
                             addr: Word, count: Word, asked: Tick, answered: Tick)
    requires slaveCfg.slaveMode && !masterCfg.slaveMode && slaveCfg.size > 0 && masterCfg.size > 0
    requires s.buf == [] && m.buf == [] && cb.readHolding
    requires 1 <= count <= 125 && addr as int + count <= |bank.holding| && Exchange.ReadableAddress(addr)
    requires Accepts(slaveCfg.slave, slaveCfg.discovery, masterCfg.slave)
    requires Accepts(masterCfg.slave, masterCfg.discovery, slaveCfg.slave)
    ensures var request := Frame(masterCfg.slave, ReadPdu(0x03, addr, count));
      var (s', asking) := Step(slaveCfg, s, Poll(Framed, request, asked));
      && Returned(asking) == Ok && s'.buf == [] && Answerable(s'.request)
      && var reply := Respond(cb, s'.request, bank);
      && reply.Reply? && reply.bank == bank
      && var (m', answering) := Step(masterCfg, m, Poll(Framed, Frame(slaveCfg.slave, reply.pdu), answered));
      && Returned(answering) == Ok && m'.buf == [] && m'.master.regCount == count
      && forall i: Word :: i < count ==> Responses.GetRegister(m'.master, i) == bank.holding[addr as int + i]
  {
    hide Step, Frame, RegistersPdu;
    RequestPolled(slaveCfg, s, masterCfg.slave, addr, count, asked);
    ResponsePolled(masterCfg, m, slaveCfg.slave, bank.holding[addr..addr as int + count], answered);
  }

  lemma RequestPolled(cfg: Config, s: Node, unit: Byte, addr: Word, count: Word, now: Tick)
    requires cfg.slaveMode && cfg.size > 0 && s.buf == []
    requires 1 <= count <= 125 && Exchange.ReadableAddress(addr) && Accepts(cfg.slave, cfg.discovery, unit)
    ensures var (s', e) := Step(cfg, s, Poll(Framed, Frame(unit, ReadPdu(0x03, addr, count)), now));
      && Returned(e) == Ok && s'.buf == []
      && s'.request == s.request.(lastFunction := 0x03, dataValid := false, addr := addr, count := count)
  {
    hide Step, Complete, Frame, Unwrap, Exchange.SlaveRequests.SlaveFeed;
    var request := ReadPdu(0x03, addr, count);
    var f := Frame(unit, request);
    Exchange.RequestArrives(cfg.slave, cfg.discovery, unit, request);
    WrappedIsComplete(cfg, unit, request);
    assert s.buf + f == f + [];
    PollTakesFirst(cfg, s, f, f, [], now);
    Exchange.ReadRequestArrives(s.request, cfg.slave, cfg.discovery, unit, 0x03, addr, count);
  }

  lemma ResponsePolled(cfg: Config, m: Node, slave: Byte, words: seq<Word>, now: Tick)
    requires !cfg.slaveMode && cfg.size > 0 && m.buf == []
    requires 1 <= |words| <= 125 && Accepts(cfg.slave, cfg.discovery, slave)
    ensures var (m', e) := Step(cfg, m, Poll(Framed, Frame(slave, RegistersPdu(0x03, words)), now));
      && Returned(e) == Ok && m'.buf == [] && m'.master.regCount == |words|
      && forall i: Word :: i < |words| ==> Responses.GetRegister(m'.master, i) == words[i]
  {
    hide Step, Complete, Frame, Unwrap, RegistersPdu, Responses.MasterFeed;
    var response := RegistersPdu(0x03, words);
    var f := Frame(slave, response);
    RegistersArrive(cfg.slave, cfg.discovery, slave, words);
    WrappedIsComplete(cfg, slave, response);
    assert m.buf + f == f + [];
    PollTakesFirst(cfg, m, f, f, [], now);
    Exchange.RegistersResponseParsed(m.master, cfg.slave, cfg.discovery, slave, 0x03, words);
  }

  lemma RegistersArrive(unit: Byte, discovery: Byte, slave: Byte, words: seq<Word>)
    requires 1 <= |words| <= 125 && Accepts(unit, discovery, slave)
    ensures var pdu := RegistersPdu(0x03, words);
      pdu[0] == 0x03 && Unwrap(unit, discovery, Frame(slave, pdu)) == Accepted(pdu)
  {
    hide Crc, TrailerMatches, PutWords;
    var pdu := RegistersPdu(0x03, words);
    FrameParts(slave, pdu);
    RoundTrip(unit, discovery, slave, pdu);
  }

  // ---- Read your writes ----

  /** The echo of a register write. */
  function Echo(slave: Byte, addr: Word, count: Word): (f: seq<Byte>)
    ensures |f| == 8
  {
    Frame(slave, [0x10] + Put16(addr) + Put16(count))
  }

  /** No frame is accepted at any of the first `n` offsets of `buf`. */
  ghost predicate NoneAccepted(cfg: Config, buf: seq<Byte>, n: nat)
    requires n <= |buf|
  {
    forall k: nat :: k < n ==> !Unwrap(cfg.slave, cfg.discovery, buf[k..]).Accepted?
  }

  lemma WritePolled(cb: Callbacks, bank: Bank, cfg: Config, s: Node, unit: Byte, addr: Word, values: seq<Word>,
                    now: Tick)
    requires cfg.slaveMode && cfg.size > 0 && s.buf == [] && cb.writeRegisters
    requires 1 <= |values| <= 123 && addr as int + |values| <= |bank.holding|
    requires Accepts(cfg.slave, cfg.discovery, unit)
    ensures var (s', e) := Step(cfg, s, Poll(Framed, Frame(unit, WriteRegistersPdu(addr, values)), now));
      && Returned(e) == Ok && s'.buf == [] && Answerable(s'.request)
      && Respond(cb, s'.request, bank)
         == Reply([0x10] + Put16(addr) + Put16(|values|), bank.(holding := Splice(bank.holding, addr, values)))
  {
    hide Step, Complete, Frame, Unwrap, PutWords, Splice, Answerable, Respond, Exchange.SlaveRequests.SlaveFeed;
    var request := WriteRegistersPdu(addr, values);
    var f := Frame(unit, request);
    Exchange.RequestArrives(cfg.slave, cfg.discovery, unit, request);
    WrappedIsComplete(cfg, unit, request);
    assert s.buf + f == f + [];
    PollTakesFirst(cfg, s, f, f, [], now);
    Exchange.RegistersWritten(cb, s.request, bank, cfg.slave, cfg.discovery, unit, addr, values);
  }

  /** The echo is not recognised, and stays in front of what comes next, exactly when no frame is found inside
      it by accident. */
  lemma EchoStays(cfg: Config, m: Node, slave: Byte, addr: Word, count: Word, now: Tick)
    requires cfg.size > 8 && cfg.timeout > 0 && m.buf == []
    ensures var echo := Echo(slave, addr, count);
      var (m', e) := Step(cfg, m, Poll(Framed, echo, now));
      && (e == Waiting <==> NoneAccepted(cfg, echo, 8))
      && (e == Waiting ==> m'.buf == echo && m'.master == m.master)
  {
    hide Echo, Feed, Elapsed, ScanFrom, Unwrap;
    var echo := Echo(slave, addr, count);
    var t := if cfg.hasTicks then now else 0;
    ScanFindsFirst(cfg, echo, 0);
    NoTime(t);
    assert [] + echo == echo;
  }

  lemma AnswerPolled(cfg: Config, m: Node, echo: seq<Byte>, slave: Byte, words: seq<Word>, now: Tick)
    requires !cfg.slaveMode && cfg.size > 0 && m.buf == echo
    requires 1 <= |words| <= 125 && Accepts(cfg.slave, cfg.discovery, slave)
    ensures var answer := Frame(slave, RegistersPdu(0x03, words));
      var (m', e) := Step(cfg, m, Poll(Framed, answer, now));
      && (e == Dispatched(echo, answer, [], Ok) <==> NoneAccepted(cfg, echo + answer, |echo|))
      && (e == Dispatched(echo, answer, [], Ok) ==>
            && m'.buf == [] && m'.master.regCount == |words|
            && forall i: Word :: i < |words| ==> Responses.GetRegister(m'.master, i) == words[i])
  {
    hide Step, Complete, Frame, Unwrap, RegistersPdu, Responses.MasterFeed;
    var response := RegistersPdu(0x03, words);
    var f := Frame(slave, response);
    RegistersArrive(cfg.slave, cfg.discovery, slave, words);
    WrappedIsComplete(cfg, slave, response);
    assert echo + f + [] == echo + f;
    PollSkipsGarbage(cfg, m, f, echo, f, [], now);
    Exchange.RegistersResponseParsed(m.master, cfg.slave, cfg.discovery, slave, 0x03, words);
  }

  /** Read your writes through both receivers. The write is answered by an echo the master does not recognise.
      Where no frame is found inside it, it stays in the master's accumulator, in front of the response to the
      read; that response is then dispatched, with the values written, exactly when no frame is accepted at an
      offset inside the echo. The master's buffer must hold both: 13 bytes, and two for each register. */
  lemma ReadYourWritesThroughReceivers(cb: Callbacks, bank: Bank, slaveCfg: Config, s: Node,
                                       masterCfg: Config, m: Node, addr: Word, values: seq<Word>,
                                       written: Tick, echoed: Tick, asked: Tick, answered: Tick)
    requires slaveCfg.slaveMode && !masterCfg.slaveMode && slaveCfg.size > 0
    requires masterCfg.size >= 13 + 2 * |values| && masterCfg.timeout > 0
    requires s.buf == [] && m.buf == [] && cb.writeRegisters && cb.readHolding
    requires 1 <= |values| <= 123 && addr as int + |values| <= |bank.holding| && Exchange.ReadableAddress(addr)
    requires Accepts(slaveCfg.slave, slaveCfg.discovery, masterCfg.slave)
    requires Accepts(masterCfg.slave, masterCfg.discovery, slaveCfg.slave)
    ensures
      var write := Frame(masterCfg.slave, WriteRegistersPdu(addr, values));
      var (s1, writing) := Step(slaveCfg, s, Poll(Framed, write, written));
      && Returned(writing) == Ok && Answerable(s1.request)
      && var reply := Respond(cb, s1.request, bank);
      && reply.Reply? && Frame(slaveCfg.slave, reply.pdu) == Echo(slaveCfg.slave, addr, |values|)
      && var read := Frame(masterCfg.slave, ReadPdu(0x03, addr, |values|));
      var (s2, reading) := Step(slaveCfg, s1, Poll(Framed, read, asked));
      && Returned(reading) == Ok && Answerable(s2.request)
      && var served := Respond(cb, s2.request, reply.bank);
      && served.Reply?
      && var echo, answer := Frame(slaveCfg.slave, reply.pdu), Frame(slaveCfg.slave, served.pdu);
      && |echo| + |answer| == 13 + 2 * |values|
      && var (m1, waiting) := Step(masterCfg, m, Poll(Framed, echo, echoed));
      var (m2, answering) := Step(masterCfg, m1, Poll(Framed, answer, answered));
      && (waiting == Waiting <==> NoneAccepted(masterCfg, echo, 8))
      && (waiting == Waiting ==>
            && m1.buf == echo
            && (answering == Dispatched(echo, answer, [], Ok) <==> NoneAccepted(masterCfg, echo + answer, 8))
            && (answering == Dispatched(echo, answer, [], Ok) ==>
                  && m2.buf == [] && m2.master.regCount == |values|
                  && forall i: Word :: i < |values| ==> Responses.GetRegister(m2.master, i) == values[i]))
  {
    hide Step, WriteRegistersPdu, ReadPdu, NoneAccepted, Frame, RegistersPdu, Respond, Answerable, Splice;
    WritePolled(cb, bank, slaveCfg, s, masterCfg.slave, addr, values, written);
    var write := Frame(masterCfg.slave, WriteRegistersPdu(addr, values));
    var s1 := Step(slaveCfg, s, Poll(Framed, write, written)).0;
    RequestPolled(slaveCfg, s1, masterCfg.slave, addr, |values|, asked);
    var read := Frame(masterCfg.slave, ReadPdu(0x03, addr, |values|));
    var s2 := Step(slaveCfg, s1, Poll(Framed, read, asked)).0;
    ReadServed(cb, s2.request, bank, addr, values);
    EchoStays(masterCfg, m, slaveCfg.slave, addr, |values|, echoed);
    var echo := Echo(slaveCfg.slave, addr, |values|);
    var m1 := Step(masterCfg, m, Poll(Framed, echo, echoed)).0;
    if m1.buf == echo {
      AnswerPolled(masterCfg, m1, echo, slaveCfg.slave, values, answered);
    }
  }

  lemma ReadServed(cb: Callbacks, q: Exchange.RequestState, bank: Bank, addr: Word, values: seq<Word>)
    requires cb.readHolding && 1 <= |values| <= 123 && addr as int + |values| <= |bank.holding|
    requires q.lastFunction == 0x03 && q.addr == addr && q.count == |values|
    ensures Answerable(q)
    ensures var written := bank.(holding := Splice(bank.holding, addr, values));
      Respond(cb, q, written) == Reply(RegistersPdu(0x03, values), written)
  {
    hide RegistersPdu;
    assert Splice(bank.holding, addr, values)[addr..addr as int + |values|] == values;
  }
}
