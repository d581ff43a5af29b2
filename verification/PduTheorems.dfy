/** Properties of requests and responses that hold before any framing. */
module PduTheorems {
  import opened Bytes
  import opened Bits
  import opened Crc16
  import opened CrcErrors
  import opened Status
  import opened RtuFramer
  import opened RtuTheorems
  import opened Requests
  import opened Responder
  import opened SlaveRequests
  import Responses

  /** FC 17 writes before it reads: the master gets the read range of the bank as it is after the
      write, also where the two ranges overlap. */
  lemma WriteBeforeRead(cb: Callbacks, q: RequestState, bank: Bank, m: Responses.MasterState,
                        behind: Byte, readAddr: Word, readCount: Word, writeAddr: Word, values: seq<Word>)
    requires cb.readHolding && cb.writeRegisters
    requires 1 <= readCount <= 125 && readAddr as int + readCount <= |bank.holding|
    requires 1 <= |values| <= 121 && writeAddr as int + |values| <= |bank.holding|
    ensures var (parsed, q') := ParseRequest(q, ReadWritePdu(readAddr, readCount, writeAddr, values));
      && parsed == Ok && Answerable(q')
      && var reply := Respond(cb, q', bank);
      && reply.Reply?
      && reply.bank == bank.(holding := Splice(bank.holding, writeAddr, values))
      && var (status, m') := Responses.ParseResponse(m, reply.pdu, behind);
      && status == Ok && m'.regCount == readCount
      && forall i: Word :: i < readCount ==>
           var at := readAddr as int + i;
           Responses.GetRegister(m', i)
             == if writeAddr <= at < writeAddr as int + |values| then values[at - writeAddr] else bank.holding[at]
  {
    hide PutWords, GetWords, RegistersPdu, Splice, ParseRequest, Responses.ParseResponse, Responses.GetRegister;
    var (_, q') := ParseRequest(q, ReadWritePdu(readAddr, readCount, writeAddr, values));
    ReadWriteParsed(q, readAddr, readCount, writeAddr, values);
    var holding := Splice(bank.holding, writeAddr, values);
    var words := holding[readAddr..readAddr as int + readCount];
    RegistersParsed(m, 0x17, words, behind);
    SpliceAt(bank.holding, writeAddr, values);
    var reply := Respond(cb, q', bank);
    assert reply == Reply(RegistersPdu(0x17, words), bank.(holding := holding));
    var (_, m') := Responses.ParseResponse(m, reply.pdu, behind);
    forall i: Word | i < readCount
      ensures var at := readAddr as int + i;
        Responses.GetRegister(m', i)
          == if writeAddr <= at < writeAddr as int + |values| then values[at - writeAddr] else bank.holding[at]
    {
      assert words[i] == holding[readAddr as int + i];
    }
  }

  lemma SpliceAt<T>(s: seq<T>, at: nat, ws: seq<T>)
    requires at + |ws| <= |s|
    ensures forall j: nat :: j < |s| ==> Splice(s, at, ws)[j] == if at <= j < at + |ws| then ws[j - at] else s[j]
  {
  }

  lemma ReadWriteParsed(q: RequestState, readAddr: Word, readCount: Word, writeAddr: Word, values: seq<Word>)
    requires 1 <= readCount <= 125 && 1 <= |values| <= 121
    ensures var (parsed, q') := ParseRequest(q, ReadWritePdu(readAddr, readCount, writeAddr, values));
      && parsed == Ok && q'.lastFunction == 0x17
      && q'.addr == readAddr && q'.count == readCount
      && Get16(q'.coils, 0) == writeAddr && Get16(q'.coils, 2) == |values|
      && q'.regs[..|values|] == values
  {
    hide PutWords, GetWords;
    var pdu := ReadWritePdu(readAddr, readCount, writeAddr, values);
    assert pdu[10..10 + 2 * |values|] == PutWords(values);
    PutGetWords(pdu, 10, values);
  }

  /** A register response parses to its registers. */
  lemma RegistersParsed(m: Responses.MasterState, fc: Byte, words: seq<Word>, behind: Byte)
    requires fc == 0x03 || fc == 0x04 || fc == 0x17
    requires |words| <= 125
    ensures var (status, m') := Responses.ParseResponse(m, RegistersPdu(fc, words), behind);
      && status == Ok && m'.regCount == |words|
      && forall i: Word :: i < |words| ==> Responses.GetRegister(m', i) == words[i]
  {
    hide PutWords, GetWords;
    var pdu := RegistersPdu(fc, words);
    assert pdu[2..2 + 2 * |words|] == PutWords(words);
    PutGetWords(pdu, 2, words);
  }

  /** A server ID request always arrives, and is answered exactly when the holding register callback serves
      the block at 0xFFF0 itself: no array of at most 65536 registers reaches to its end. */
  lemma ServerIdAnswered(cb: Callbacks, q: RequestState, bank: Bank, slave: Byte, discovery: Byte, unit: Byte)
    requires Accepts(slave, discovery, unit)
    ensures var (parsed, q') := SlaveFeed(q, slave, discovery, Frame(unit, REPORT_SERVER_ID_PDU));
      && parsed == Ok && Answerable(q')
      && (Respond(cb, q', bank).Reply? <==> cb.readHolding && bank.serverId.Some?)
      && (cb.readHolding && bank.serverId.None? ==> Respond(cb, q', bank) == Refusal(ErrCallback, bank))
  {
    hide Crc, TrailerMatches;
    FrameParts(unit, REPORT_SERVER_ID_PDU);
    RoundTrip(slave, discovery, unit, REPORT_SERVER_ID_PDU);
  }

  /** The server ID block survives response, frame and parsing: every whole register, and of an odd
      last one the high byte, as a plain value. */
  lemma ServerIdReadBack(cb: Callbacks, q: RequestState, bank: Bank, slave: Byte, discovery: Byte,
                         m: Responses.MasterState, unit: Byte, masterDiscovery: Byte)
    requires cb.readHolding && bank.serverId.Some?
    requires Accepts(slave, discovery, unit) && Accepts(unit, masterDiscovery, slave)
    ensures var block := bank.serverId.value;
      var byteCount := if block[0] % 0x100 <= 126 then block[0] % 0x100 else 126;
      var (parsed, q') := SlaveFeed(q, slave, discovery, Frame(unit, REPORT_SERVER_ID_PDU));
      && parsed == Ok && Answerable(q')
      && var reply := Respond(cb, q', bank);
      && reply.Reply? && reply.bank == bank
      && var (status, m') := Responses.MasterFeed(m, unit, masterDiscovery, Frame(slave, reply.pdu));
      && status == Ok && m'.regCount == (byteCount + 1) / 2
      && (forall i: Word :: i < byteCount / 2 ==> Responses.GetRegister(m', i) == block[i + 1])
      && (byteCount % 2 == 1 ==> Responses.GetRegister(m', byteCount / 2) == block[byteCount / 2 + 1] / 0x100)
  {
    hide Crc, TrailerMatches, ServerIdPdu, Responses.MasterFeed;
    FrameParts(unit, REPORT_SERVER_ID_PDU);
    RoundTrip(slave, discovery, unit, REPORT_SERVER_ID_PDU);
    ServerIdParsed(m, unit, masterDiscovery, slave, bank.serverId.value);
  }

  lemma ServerIdParsed(m: Responses.MasterState, unit: Byte, discovery: Byte, slave: Byte, block: seq<Word>)
    requires |block| == 64 && Accepts(unit, discovery, slave)
    ensures var byteCount := ServerIdCount(block);
      var (status, m') := Responses.MasterFeed(m, unit, discovery, Frame(slave, ServerIdPdu(block)));
      && status == Ok && m'.regCount == (byteCount + 1) / 2
      && (forall i: Word :: i < byteCount / 2 ==> Responses.GetRegister(m', i) == block[i + 1])
      && (byteCount % 2 == 1 ==> Responses.GetRegister(m', byteCount / 2) == block[byteCount / 2 + 1] / 0x100)
  {
    hide Crc, TrailerMatches, ServerIdPdu;
    var pdu := ServerIdPdu(block);
    ServerIdBytes(block);
    FrameParts(slave, pdu);
    RoundTrip(unit, discovery, slave, pdu);
  }

  lemma ServerIdBytes(block: seq<Word>)
    requires |block| == 64
    ensures var byteCount := ServerIdCount(block);
      var pdu := ServerIdPdu(block);
      && |pdu| == 2 + byteCount && pdu[0] == 0x11 && pdu[1] == byteCount
      && (forall i: nat :: 2 * i < byteCount ==> pdu[2 + 2 * i] == block[i + 1] / 0x100)
      && (forall i: nat :: 2 * i + 1 < byteCount ==> pdu[2 + 2 * i + 1] == block[i + 1] % 0x100)
  {
    hide PutWords;
    var pdu := ServerIdPdu(block);
    var byteCount: int := pdu[1];
    var words := block[1..1 + (byteCount + 1) / 2];
    forall i: nat | 2 * i < byteCount
      ensures pdu[2 + 2 * i] == block[i + 1] / 0x100
      ensures 2 * i + 1 < byteCount ==> pdu[2 + 2 * i + 1] == block[i + 1] % 0x100
    {
      PutWordsAt(words, i);
      assert words[i] == block[i + 1];
    }
  }

  /** A request that parses is one the responder's buffers can hold exactly when it reads or writes at most
      264 coils; those of the two function codes the responder is not modelled for are left out. */
  lemma ParsedIsAnswerable(q: RequestState, pdu: seq<Byte>)
    requires ParseRequest(q, pdu).0 == Ok
    ensures pdu[0] in {0x01, 0x02, 0x0F} ==> |pdu| >= 5
    ensures pdu[0] !in {0x14, 0x15} ==>
      (Answerable(ParseRequest(q, pdu).1) <==> (pdu[0] in {0x01, 0x02, 0x0F} ==> Get16(pdu, 3) <= 264))
    ensures pdu[0] in {0x14, 0x15} ==> !Answerable(ParseRequest(q, pdu).1)
  {
  }

  /** The leading bytes and the size of each response. */
  ghost predicate Shaped(fc: Byte, pdu: seq<Byte>) {
    && |pdu| >= 2 && pdu[0] == fc
    && fc in {0x01, 0x02, 0x03, 0x04, 0x05, 0x06, 0x07, 0x08, 0x0B, 0x0C, 0x0F, 0x10, 0x11, 0x16, 0x17, 0x18}
    && (fc in {0x01, 0x02, 0x03, 0x04, 0x17} ==> pdu[1] <= 250)
    && (fc in {0x01, 0x02, 0x03, 0x04, 0x0C, 0x11, 0x17} ==> |pdu| == 2 + pdu[1] as int)
    && (fc in {0x05, 0x06, 0x08, 0x0B, 0x0F, 0x10} ==> |pdu| == 5)
    && (fc == 0x07 ==> |pdu| == 2) && (fc == 0x0C ==> |pdu| == 12) && (fc == 0x16 ==> |pdu| == 7)
    && (fc == 0x11 ==> pdu[1] <= 126) && (fc == 0x17 ==> |pdu| % 2 == 0)
    && (fc == 0x18 ==> 4 <= |pdu| <= 258 && |pdu| % 2 == 0)
  }

  lemma ResponseShape(cb: Callbacks, q: RequestState, bank: Bank)
    requires Answerable(q) && Respond(cb, q, bank).Reply?
    ensures Shaped(q.lastFunction, Respond(cb, q, bank).pdu)
  {
    hide Answerable, Respond, Shaped;
    if 0x01 <= q.lastFunction <= 0x04 {
      ReadShape(cb, q, bank);
    } else if q.lastFunction in {0x05, 0x06, 0x0F, 0x10, 0x16} {
      WriteShape(cb, q, bank);
    } else {
      OtherShape(cb, q, bank);
    }
  }

  lemma ReadShape(cb: Callbacks, q: RequestState, bank: Bank)
    requires Answerable(q) && Respond(cb, q, bank).Reply?
    requires 0x01 <= q.lastFunction <= 0x04
    ensures Shaped(q.lastFunction, Respond(cb, q, bank).pdu)
    ensures q.count >= 1 ==> |Respond(cb, q, bank).pdu| >= 3
  {
    hide CoilsPdu, RegistersPdu;
  }

  lemma WriteShape(cb: Callbacks, q: RequestState, bank: Bank)
    requires Answerable(q) && Respond(cb, q, bank).Reply?
    requires q.lastFunction in {0x05, 0x06, 0x0F, 0x10, 0x16}
    ensures Shaped(q.lastFunction, Respond(cb, q, bank).pdu)
  {
    hide UnpackBits, WriteCoilsFrom, Splice, Masked;
  }

  lemma OtherShape(cb: Callbacks, q: RequestState, bank: Bank)
    requires Answerable(q) && Respond(cb, q, bank).Reply?
    requires !(0x01 <= q.lastFunction <= 0x04) && q.lastFunction !in {0x05, 0x06, 0x0F, 0x10, 0x16}
    ensures Shaped(q.lastFunction, Respond(cb, q, bank).pdu)
  {
    hide PutWords, PackBits, Splice, RegistersPdu, ServerIdPdu, QueuePdu;
  }

  /** A response is a PDU of at least two bytes, whose byte count, where there is one of a byte, covers it
      exactly; it has at most the 253 bytes of a PDU, so that a 256-byte transmit buffer holds its frame,
      exactly when it is not that of a queue of 125 registers or more. */
  lemma ResponseFits(cb: Callbacks, q: RequestState, bank: Bank, slave: Byte, tx: TxState)
    requires Answerable(q) && |tx.buf| >= 256
    requires Respond(cb, q, bank).Reply?
    ensures var pdu := Respond(cb, q, bank).pdu;
      && |pdu| >= 2
      && (q.lastFunction in {0x01, 0x02, 0x03, 0x04, 0x0C, 0x11, 0x17} ==> |pdu| == 2 + pdu[1] as int)
      && (|pdu| <= 253 <==>
            (q.lastFunction == 0x18 ==> ReadHolding(bank, q.addr, 128).value[0] < 125))
      && (|pdu| <= 253 ==> tx.Send(slave, pdu).1 == Success(|pdu| + 3))
  {
    hide Respond;
    ResponseShape(cb, q, bank);
    if q.lastFunction == 0x18 {
      QueueReply(cb, q, bank);
    }
  }

  lemma QueueReply(cb: Callbacks, q: RequestState, bank: Bank)
    requires q.lastFunction == 0x18 && Respond(cb, q, bank).Reply?
    ensures ReadHolding(bank, q.addr, 128).Some?
    ensures Respond(cb, q, bank) == Reply(QueuePdu(ReadHolding(bank, q.addr, 128).value), bank)
  {
    hide QueuePdu, ReadHolding;
  }

  /** What sending a PDU makes of a transmit buffer that holds it: framed at the front, with the rest of the
      buffer and the length as they should be, exactly where there is room for three bytes more; else the
      length is that of the frame before. */
  lemma SentIsFramed(tx: TxState, slave: Byte, pdu: seq<Byte>)
    requires |pdu| <= |tx.buf|
    ensures var (tx', r) := tx.Send(slave, pdu);
      && |tx'.buf| == |tx.buf|
      && (|pdu| + 3 <= |tx.buf| ==>
            && r == Success(|pdu| + 3) && tx'.len == |pdu| + 3
            && tx'.buf[0] == slave && tx'.buf[1..|pdu| + 1] == pdu && TrailerMatches(tx'.buf[..|pdu| + 3])
            && tx'.buf[|pdu| + 3..] == tx.buf[|pdu| + 3..])
      && (|pdu| + 3 > |tx.buf| ==>
            && r == Failure(ErrBufferFull) && tx'.len == tx.len
            && tx'.buf[..|pdu|] == pdu && tx'.buf[|pdu|..] == tx.buf[|pdu|..])
  {
    hide Frame, TrailerMatches;
    if |pdu| + 3 <= |tx.buf| {
      FrameParts(slave, pdu);
      var f := Frame(slave, pdu);
      var buf := f + tx.buf[|pdu| + 3..];
      assert buf[..|pdu| + 3] == f && buf[1..|pdu| + 1] == f[1..|f| - 2];
    }
  }

  /** Every request the builders accept is a PDU of at most 253 bytes, framed in a 256-byte buffer. */
  lemma RequestFits(pdu: seq<Byte>, slave: Byte, tx: TxState)
    requires Buildable(pdu) && |tx.buf| >= 256
    ensures 1 <= |pdu| <= 253 && tx.Send(slave, pdu).1 == Success(|pdu| + 3)
  {
    hide PutWords, PackBits, Frame;
  }

  /** The mask write of section 6.16 of the MODBUS Application Protocol V1.1b3. */
  function StandardBits(cur: bv16, andMask: bv16, orMask: bv16): bv16 {
    (cur & andMask) | (orMask & !andMask)
  }

  function StandardMasked(cur: Word, andMask: Word, orMask: Word): Word {
    StandardBits(cur as bv16, andMask as bv16, orMask as bv16) as int
  }

  predicate Disjoint(a: Word, b: Word) {
    (a as bv16) & (b as bv16) == 0
  }

  /** The mask write agrees with the standard's formula on every register value exactly when the two
      masks share no bit. */
  lemma MaskWriteStandard(andMask: Word, orMask: Word)
    ensures (forall cur: Word :: Masked(cur, andMask, orMask) == StandardMasked(cur, andMask, orMask))
       <==> Disjoint(andMask, orMask)
  {
    hide Masked, StandardMasked, Disjoint;
    if Disjoint(andMask, orMask) {
      forall cur: Word
        ensures Masked(cur, andMask, orMask) == StandardMasked(cur, andMask, orMask)
      {
        DisjointAgree(cur, andMask, orMask);
      }
    } else {
      OverlapDisagrees(andMask, orMask);
    }
  }

  lemma DisjointAgree(cur: Word, andMask: Word, orMask: Word)
    requires Disjoint(andMask, orMask)
    ensures Masked(cur, andMask, orMask) == StandardMasked(cur, andMask, orMask)
  {
    hide MaskBits, StandardBits;
    DisjointMasks(cur as bv16, andMask as bv16, orMask as bv16);
  }

  lemma OverlapDisagrees(andMask: Word, orMask: Word)
    requires !Disjoint(andMask, orMask)
    ensures Masked(0, andMask, orMask) != StandardMasked(0, andMask, orMask)
  {
    hide MaskBits, StandardBits;
    var zero: Word := 0;
    var c, a, o := zero as bv16, andMask as bv16, orMask as bv16;
    ZeroIsZero();
    OverlappingMasks(c, a, o);
    EqualAsInts(MaskBits(c, a, o), StandardBits(c, a, o));
  }

  lemma ZeroIsZero()
    ensures var zero: Word := 0; zero as bv16 == 0
  {
  }

  lemma DisjointMasks(c: bv16, a: bv16, o: bv16)
    requires a & o == 0
    ensures MaskBits(c, a, o) == StandardBits(c, a, o)
  {
    DisjointBits(c, a, o);
  }

  lemma DisjointBits(c: bv16, a: bv16, o: bv16)
    requires a & o == 0
    ensures (c & a) | o == (c & a) | (o & !a)
  {
  }

  lemma OverlappingMasks(c: bv16, a: bv16, o: bv16)
    requires c == 0 && a & o != 0
    ensures MaskBits(c, a, o) != StandardBits(c, a, o)
  {
  }

  /** A mask write is always acknowledged; the register is changed exactly when it could be read and
      the masks change it. */
  lemma MaskWriteAcknowledged(cb: Callbacks, q: RequestState, bank: Bank, addr: Word, andMask: Word, orMask: Word)
    requires cb.writeRegister
    ensures var (parsed, q') := ParseRequest(q, MaskWritePdu(addr, andMask, orMask));
      && parsed == Ok && Answerable(q')
      && var reply := Respond(cb, q', bank);
      && reply.Reply? && reply.pdu == MaskWritePdu(addr, andMask, orMask)
      && (cb.readHolding && addr < |bank.holding| ==>
            reply.bank.holding == bank.holding[addr := Masked(bank.holding[addr], andMask, orMask)])
      && (reply.bank != bank <==>
            && cb.readHolding && addr < |bank.holding|
            && Masked(bank.holding[addr], andMask, orMask) != bank.holding[addr])
  {
    hide Masked;
    var (_, q') := ParseRequest(q, MaskWritePdu(addr, andMask, orMask));
    var reply := Respond(cb, q', bank);
    if cb.readHolding && addr < |bank.holding| {
      assert reply.bank.holding[addr] == Masked(bank.holding[addr], andMask, orMask);
      if Masked(bank.holding[addr], andMask, orMask) == bank.holding[addr] {
        assert reply.bank.holding == bank.holding;
      }
    }
  }

  /** The event counter is the last two registers of a store that has them all; a smaller one refuses. */
  lemma EventCounterReadBack(cb: Callbacks, q: RequestState, bank: Bank, m: Responses.MasterState,
                             pdu: seq<Byte>, behind: Byte)
    requires |pdu| >= 1 && pdu[0] == 0x0B && cb.readHolding
    ensures var (parsed, q') := ParseRequest(q, pdu);
      && parsed == Ok && Answerable(q')
      && var reply := Respond(cb, q', bank);
      && reply.bank == bank
      && (reply.Reply? <==> |bank.holding| == 0x1_0000)
      && (reply.Reply? ==>
            var (status, m') := Responses.ParseResponse(m, reply.pdu, behind);
            && status == Ok && m'.regCount == 2 && m'.coilCount == 0
            && Responses.GetRegister(m', 0) == bank.holding[0xFFFE]
            && Responses.GetRegister(m', 1) == bank.holding[0xFFFF])
  {
    hide PutWords;
    if |bank.holding| == 0x1_0000 {
      var words := bank.holding[0xFFFE..0x1_0000];
      PutWordsAt(words, 0);
      PutWordsAt(words, 1);
    }
  }

  /** The event log is answered exactly when the holding register callback serves the five registers at
      0xFFFC itself, the last of which is past the address space, so that every array refuses; then status,
      count and the six log bytes come back. */
  lemma EventLogReadBack(cb: Callbacks, q: RequestState, bank: Bank, m: Responses.MasterState,
                         pdu: seq<Byte>, behind: Byte)
    requires |pdu| >= 1 && pdu[0] == 0x0C && cb.readHolding
    ensures var (parsed, q') := ParseRequest(q, pdu);
      && parsed == Ok && Answerable(q')
      && var reply := Respond(cb, q', bank);
      && reply.bank == bank
      && (reply.Reply? <==> bank.eventLog.Some?)
      && (bank.eventLog.None? ==> reply == Refusal(ErrCallback, bank))
      && (reply.Reply? ==>
            var log := bank.eventLog.value;
            var (status, m') := Responses.ParseResponse(m, reply.pdu, behind);
            && status == Ok && m'.regCount == 2 && m'.coilCount == 48
            && Responses.GetRegister(m', 0) == log[0] && Responses.GetRegister(m', 1) == log[1]
            && m'.coils[..6] == PutWords(log[2..]))
  {
    hide PutWords;
    if bank.eventLog.Some? {
      var log := bank.eventLog.value;
      PutWordsAt(log, 0);
      PutWordsAt(log, 1);
      PutTail(log);
      var pdu' := [0x0C, 10] + PutWords(log);
      assert pdu'[6..12] == PutWords(log)[4..10];
    }
  }

  lemma PutTail(words: seq<Word>)
    requires |words| == 5
    ensures PutWords(words)[4..10] == PutWords(words[2..])
  {
  }

  /** What the master makes of a queue response: the response parses, but its registers start at the low byte
      of the byte count, one byte too early for every register of the queue. */
  lemma QueueReadBackShifted(block: seq<Word>, m: Responses.MasterState, behind: Byte)
    requires |block| == 128
    ensures var n := if block[0] <= 127 then block[0] else 127;
      var (status, m') := Responses.ParseResponse(m, QueuePdu(block), behind);
      && status == Ok && m'.regCount == n + 1
      && Responses.GetRegister(m', 0) == (2 * n + 2) % 0x100 * 0x100
      && (n >= 1 ==> Responses.GetRegister(m', 1) == n * 0x100 + block[1] / 0x100)
      && forall i: nat :: 2 <= i <= n ==>
           Responses.GetRegister(m', i) == block[i - 1] % 0x100 * 0x100 + block[i] / 0x100
  {
    hide PutWords, QueuePdu;
    var n := QueueCount(block);
    var pdu := QueuePdu(block);
    QueueHeader(block);
    assert |pdu| == 2 + (2 * n + 2);
    forall i: nat | 1 <= i <= n
      ensures pdu[3 + 2 * i] == block[i] / 0x100
      ensures i < n ==> pdu[4 + 2 * i] == block[i] % 0x100
    {
      QueueByte(block, i);
    }
  }

  lemma QueueHeader(block: seq<Word>)
    requires |block| == 128
    ensures var n, pdu := QueueCount(block), QueuePdu(block);
      && pdu[0] == 0x18 && pdu[1] == (2 * n + 2) / 0x100 && pdu[2] == (2 * n + 2) % 0x100 && pdu[3] == 0
      && (n >= 1 ==> pdu[4] == n)
  {
    hide PutWords;
  }

  lemma QueueByte(block: seq<Word>, i: nat)
    requires |block| == 128 && 1 <= i <= QueueCount(block)
    ensures var n, pdu := QueueCount(block), QueuePdu(block);
      && pdu[3 + 2 * i] == block[i] / 0x100
      && (i < n ==> pdu[4 + 2 * i] == block[i] % 0x100)
  {
    hide PutWords;
    var n := QueueCount(block);
    PutWordsAt(block[1..1 + n], i - 1);
  }

  /** And the low byte of the last register of a queue is not in the response at all. */
  lemma QueueLosesLastByte(block: seq<Word>, last: Word)
    requires |block| == 128 && QueueCount(block) >= 1
    requires last / 0x100 == block[QueueCount(block)] / 0x100
    ensures QueuePdu(block[QueueCount(block) := last]) == QueuePdu(block)
  {
    hide PutWords;
    var n := QueueCount(block);
    var other := block[n := last];
    forall k | 5 <= k < 4 + 2 * n
      ensures QueuePdu(other)[k] == QueuePdu(block)[k]
    {
      var i := (k - 5) / 2;
      PutWordsAt(block[1..1 + n], i);
      PutWordsAt(other[1..1 + n], i);
      assert k == 5 + 2 * i || k == 5 + 2 * i + 1;
    }
  }

  /** The exception status is the first eight coils. */
  lemma ExceptionStatusReadBack(cb: Callbacks, q: RequestState, bank: Bank, m: Responses.MasterState,
                                behind: Byte)
    requires cb.readCoils && |bank.coils| >= 8 && q.lastFunction == 0x07
    ensures var reply := Respond(cb, q, bank);
      && reply.Reply? && reply.bank == bank
      && var (status, m') := Responses.ParseResponse(m, reply.pdu, behind);
      && status == Ok
      && forall i: Word :: Responses.GetCoil(m', i) <==> i < 8 && bank.coils[i]
  {
    hide PackBits, BitOf;
    var coils := bank.coils[..8];
    forall i: nat | i < 8
      ensures BitOf(PackBits(coils)[0], i) == bank.coils[i]
    {
      BitOfPack(coils, 0, i);
    }
  }
}
