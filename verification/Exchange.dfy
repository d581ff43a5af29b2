/** End to end: a master and a slave, each with its own context, and the wire between them. */
module Exchange {
  import opened Bytes
  import opened Bits
  import opened Crc16
  import opened CrcErrors
  import opened Status
  import opened RtuFramer
  import opened RtuTheorems
  import opened Requests
  import opened Responder
  import opened PduTheorems
  import SlaveRequests
  import Responses

  type RequestState = SlaveRequests.RequestState
  type MasterState = Responses.MasterState

  /** The slave feeds a frame and, when that parses, responds. */
  datatype Served = Answered(pdu: seq<Byte>, q: RequestState, bank: Bank)
                  | Unanswered(status: Status, q: RequestState, bank: Bank)

  function Answer(cb: Callbacks, status: Status, q: RequestState, bank: Bank): Served
    requires status == Ok ==> Answerable(q)
  {
    if status != Ok then Unanswered(status, q, bank)
    else match Respond(cb, q, bank)
      case Reply(pdu, bank') => Answered(pdu, q, bank')
      case Refusal(error, bank') => Unanswered(Err(error), q, bank')
  }

  /** The addresses at which a read request is framed at its own length. */
  predicate ReadableAddress(addr: Word) {
    var hi := addr / 0x100;
    hi == 0 || hi == 3 || hi > 250
  }

  /** A read request reaches the slave's parser exactly when its high address byte is 0, 3 or above 250. */
  lemma ReadRequestArrives(q: RequestState, slave: Byte, discovery: Byte, unit: Byte,
                           fc: Byte, addr: Word, count: Word)
    requires 0x01 <= fc <= 0x04 && 1 <= count <= (if fc <= 0x02 then 2000 else 125)
    requires Accepts(slave, discovery, unit)
    ensures var (status, q') := SlaveRequests.SlaveFeed(q, slave, discovery, Frame(unit, ReadPdu(fc, addr, count)));
      && (status == Ok <==> ReadableAddress(addr))
      && (status == Ok ==> q' == q.(lastFunction := fc, dataValid := false, addr := addr, count := count))
  {
    hide Crc, TrailerMatches;
    var pdu := ReadPdu(fc, addr, count);
    FrameParts(unit, pdu);
    RoundTrip(slave, discovery, unit, pdu);
    if !ReadableAddress(addr) {
      var f := Frame(unit, pdu);
      assert f[2] == addr / 0x100;
    }
  }

  /** Whatever registers a slave holds are what the master reads back through request and response. */
  lemma RegistersReadBack(cb: Callbacks, q: RequestState, bank: Bank, slave: Byte, discovery: Byte,
                          m: MasterState, unit: Byte, masterDiscovery: Byte, fc: Byte, addr: Word, count: Word)
    requires (fc == 0x03 && cb.readHolding) || (fc == 0x04 && cb.readInput)
    requires 1 <= count <= 125 && addr as int + count <= |if fc == 0x03 then bank.holding else bank.input|
    requires ReadableAddress(addr)
    requires Accepts(slave, discovery, unit) && Accepts(unit, masterDiscovery, slave)
    ensures var src := if fc == 0x03 then bank.holding else bank.input;
      var (parsed, q') := SlaveRequests.SlaveFeed(q, slave, discovery, Frame(unit, ReadPdu(fc, addr, count)));
      && (parsed == Ok ==> Answerable(q'))
      && var served := Answer(cb, parsed, q', bank);
      && served.Answered? && served.bank == bank
      && var (status, m') := Responses.MasterFeed(m, unit, masterDiscovery, Frame(slave, served.pdu));
      && status == Ok && m'.regCount == count
      && forall i: Word :: i < count ==> Responses.GetRegister(m', i) == src[addr as int + i]
  {
    hide RegistersPdu, Unwrap, Frame, SlaveRequests.ParseRequest, Responses.MasterFeed;
    ReadRequestArrives(q, slave, discovery, unit, fc, addr, count);
    var src := if fc == 0x03 then bank.holding else bank.input;
    RegistersResponseParsed(m, unit, masterDiscovery, slave, fc, src[addr..addr as int + count]);
  }

  lemma RegistersResponseParsed(m: MasterState, unit: Byte, discovery: Byte, slave: Byte, fc: Byte, words: seq<Word>)
    requires (fc == 0x03 || fc == 0x04) && 1 <= |words| <= 125
    requires Accepts(unit, discovery, slave)
    ensures var (status, m') := Responses.MasterFeed(m, unit, discovery, Frame(slave, RegistersPdu(fc, words)));
      && status == Ok && m'.regCount == |words|
      && forall i: Word :: i < |words| ==> Responses.GetRegister(m', i) == words[i]
  {
    hide Crc, TrailerMatches, PutWords, Responses.ParseResponse, Responses.GetRegister;
    var pdu := RegistersPdu(fc, words);
    FrameParts(slave, pdu);
    RoundTrip(unit, discovery, slave, pdu);
    RegistersParsed(m, fc, words, Frame(slave, pdu)[|pdu| + 1]);
  }

  /** A register write request always arrives, and stores exactly its values. */
  lemma RegistersWritten(cb: Callbacks, q: RequestState, bank: Bank, slave: Byte, discovery: Byte, unit: Byte,
                         addr: Word, values: seq<Word>)
    requires cb.writeRegisters && 1 <= |values| <= 123 && addr as int + |values| <= |bank.holding|
    requires Accepts(slave, discovery, unit)
    ensures var (parsed, q') :=
      SlaveRequests.SlaveFeed(q, slave, discovery, Frame(unit, WriteRegistersPdu(addr, values)));
      && parsed == Ok && Answerable(q')
      && var served := Answer(cb, parsed, q', bank);
      && served.Answered?
      && served.pdu == [0x10] + Put16(addr) + Put16(|values|)
      && served.bank == bank.(holding := Splice(bank.holding, addr, values))
  {
    hide Crc, TrailerMatches, PutWords, GetWords;
    var pdu := WriteRegistersPdu(addr, values);
    FrameParts(unit, pdu);
    RoundTrip(slave, discovery, unit, pdu);
    assert pdu[6..6 + 2 * |values|] == PutWords(values);
    PutGetWords(pdu, 6, values);
  }

  /** Read your writes: what a master writes into registers is what it reads back over the wire,
      and no other register has changed. */
  lemma ReadYourWrites(cb: Callbacks, q: RequestState, bank: Bank, slave: Byte, discovery: Byte,
                       m: MasterState, unit: Byte, masterDiscovery: Byte, addr: Word, values: seq<Word>)
    requires cb.writeRegisters && cb.readHolding
    requires 1 <= |values| <= 123 && addr as int + |values| <= |bank.holding|
    requires ReadableAddress(addr)
    requires Accepts(slave, discovery, unit) && Accepts(unit, masterDiscovery, slave)
    ensures
      var (writeParsed, q1) :=
        SlaveRequests.SlaveFeed(q, slave, discovery, Frame(unit, WriteRegistersPdu(addr, values)));
      && (writeParsed == Ok ==> Answerable(q1))
      && var written := Answer(cb, writeParsed, q1, bank);
      var (readParsed, q2) :=
        SlaveRequests.SlaveFeed(written.q, slave, discovery, Frame(unit, ReadPdu(0x03, addr, |values|)));
      && (readParsed == Ok ==> Answerable(q2))
      && var served := Answer(cb, readParsed, q2, written.bank);
      && served.Answered?
      && var (status, m') := Responses.MasterFeed(m, unit, masterDiscovery, Frame(slave, served.pdu));
      && status == Ok && m'.regCount == |values|
      && (forall i: Word :: i < |values| ==> Responses.GetRegister(m', i) == values[i])
      && served.bank == bank.(holding := served.bank.holding)
      && |served.bank.holding| == |bank.holding|
      && (forall j: nat :: j < |bank.holding| && !(addr <= j < addr as int + |values|) ==>
            served.bank.holding[j] == bank.holding[j])
  {
    hide WriteRegistersPdu, ReadPdu, SlaveRequests.SlaveFeed, Responses.MasterFeed, Frame, Respond;
    var (_, q1) := SlaveRequests.SlaveFeed(q, slave, discovery, Frame(unit, WriteRegistersPdu(addr, values)));
    RegistersWritten(cb, q, bank, slave, discovery, unit, addr, values);
    var bank' := bank.(holding := Splice(bank.holding, addr, values));
    RegistersReadBack(cb, q1, bank', slave, discovery, m, unit, masterDiscovery, 0x03, addr, |values|);
  }

  /** The eight-byte echo that answers a multiple write never reaches the master alone: its CRC is taken
      for a byte count, and the framer waits for that many bytes more. */
  lemma MultipleWriteEchoWaits(m: MasterState, unit: Byte, discovery: Byte, slave: Byte,
                               fc: Byte, addr: Word, count: Word)
    requires fc == 0x0F || fc == 0x10
    ensures var f := Frame(slave, [fc] + Put16(addr) + Put16(count));
      Responses.MasterFeed(m, unit, discovery, f) == (Wait(1 + f[6] as int), m)
  {
    hide Crc;
  }

  /** A read/write request is never taken at its own length: the byte its count is read from is the
      low half of the write count, one place too early. */
  lemma ReadWriteRequestLost(slave: Byte, discovery: Byte, unit: Byte,
                             readAddr: Word, readCount: Word, writeAddr: Word, values: seq<Word>)
    requires 1 <= |values| <= 121
    ensures var pdu := ReadWritePdu(readAddr, readCount, writeAddr, values);
      && FrameLength(Frame(unit, pdu)) == Exactly(|pdu| + 2 - |values|)
      && Unwrap(slave, discovery, Frame(unit, pdu)) != Accepted(pdu)
  {
    hide Crc, TrailerMatches, PutWords;
    var pdu := ReadWritePdu(readAddr, readCount, writeAddr, values);
    FrameParts(unit, pdu);
    assert pdu[8] == |values|;
  }

  /** The requests the slave's framer recognises at their own length: all but the reads of some
      addresses, and the read/write. */
  lemma RequestArrives(slave: Byte, discovery: Byte, unit: Byte, pdu: seq<Byte>)
    requires Accepts(slave, discovery, unit) && Buildable(pdu)
    ensures Unwrap(slave, discovery, Frame(unit, pdu)) == Accepted(pdu)
       <==> pdu[0] != 0x17 && (pdu[0] <= 0x04 ==> ReadableAddress(Get16(pdu, 1)))
  {
    hide Frame, TrailerMatches, PutWords, PackBits, Unwrap;
    var f := Frame(unit, pdu);
    FrameParts(unit, pdu);
    RoundTrip(slave, discovery, unit, pdu);
    RequestLength(f, pdu);
  }

  lemma RequestLength(f: seq<Byte>, pdu: seq<Byte>)
    requires Buildable(pdu) && |f| == |pdu| + 3
    requires f[1..|f| - 2] == pdu
    ensures FrameLength(f) == Exactly(|f|)
       <==> pdu[0] != 0x17 && (pdu[0] <= 0x04 ==> ReadableAddress(Get16(pdu, 1)))
  {
    hide PutWords, PackBits;
    assert f[1] == f[1..|f| - 2][0];
    assert |pdu| > 1 ==> f[2] == f[1..|f| - 2][1];
    assert |pdu| > 5 ==> f[6] == f[1..|f| - 2][5];
    assert |pdu| > 8 ==> f[9] == f[1..|f| - 2][8];
  }

  /** A coil write request always arrives, and is parsed exactly when its coils fit the 33-byte buffer;
      then it stores exactly its coils. */
  lemma CoilsWritten(cb: Callbacks, q: RequestState, bank: Bank, slave: Byte, discovery: Byte, unit: Byte,
                     addr: Word, coils: seq<bool>)
    requires cb.writeCoils && 1 <= |coils| <= 1968 && addr as int + |coils| <= |bank.coils|
    requires Accepts(slave, discovery, unit)
    ensures var (parsed, q') := SlaveRequests.SlaveFeed(q, slave, discovery, Frame(unit, WriteCoilsPdu(addr, coils)));
      && parsed == (if |coils| <= 264 then Ok else Err(ErrProtocol))
      && (parsed == Ok ==> Answerable(q'))
      && (parsed == Ok ==>
            var stored := bank.(coils := Splice(bank.coils, addr, coils));
            Answer(cb, parsed, q', bank) == Answered([0x0F] + Put16(addr) + Put16(|coils|), q', stored))
  {
    hide Crc, TrailerMatches, PackBits, UnpackBits;
    var pdu := WriteCoilsPdu(addr, coils);
    FrameParts(unit, pdu);
    RoundTrip(slave, discovery, unit, pdu);
    if |coils| <= 264 {
      assert pdu[6..6 + BytesFor(|coils|)] == PackBits(coils);
      var stored := Overwrite(q.coils, PackBits(coils));
      assert stored[..BytesFor(|coils|)] == PackBits(coils);
      UnpackPack(coils, stored);
    }
  }

  /** The coils a slave holds are what the master reads back; positions past the count read as off. */
  lemma CoilsReadBack(cb: Callbacks, q: RequestState, bank: Bank, slave: Byte, discovery: Byte,
                      m: MasterState, unit: Byte, masterDiscovery: Byte, fc: Byte, addr: Word, count: Word)
    requires (fc == 0x01 && cb.readCoils) || (fc == 0x02 && cb.readDiscrete)
    requires 1 <= count <= 264 && addr as int + count <= |if fc == 0x01 then bank.coils else bank.discrete|
    requires ReadableAddress(addr)
    requires Accepts(slave, discovery, unit) && Accepts(unit, masterDiscovery, slave)
    ensures var src := if fc == 0x01 then bank.coils else bank.discrete;
      var (parsed, q') := SlaveRequests.SlaveFeed(q, slave, discovery, Frame(unit, ReadPdu(fc, addr, count)));
      && (parsed == Ok ==> Answerable(q'))
      && var served := Answer(cb, parsed, q', bank);
      && served.Answered? && served.bank == bank
      && var (status, m') := Responses.MasterFeed(m, unit, masterDiscovery, Frame(slave, served.pdu));
      && status == Ok
      && forall i: Word :: Responses.GetCoil(m', i) <==> i < count && src[addr as int + i]
  {
    hide CoilsPdu, Unwrap, Frame, SlaveRequests.ParseRequest, Responses.MasterFeed, Responses.GetCoil;
    ReadRequestArrives(q, slave, discovery, unit, fc, addr, count);
    var src := if fc == 0x01 then bank.coils else bank.discrete;
    CoilsResponseParsed(m, unit, masterDiscovery, slave, fc, src[addr..addr as int + count]);
  }

  lemma CoilsResponseParsed(m: MasterState, unit: Byte, discovery: Byte, slave: Byte, fc: Byte, coils: seq<bool>)
    requires (fc == 0x01 || fc == 0x02) && 1 <= |coils| <= 264
    requires Accepts(unit, discovery, slave)
    ensures var (status, m') := Responses.MasterFeed(m, unit, discovery, Frame(slave, CoilsPdu(fc, coils)));
      && status == Ok
      && forall i: Word :: Responses.GetCoil(m', i) <==> i < |coils| && coils[i]
  {
    hide Crc, TrailerMatches, PackBits, BitOf;
    var pdu := CoilsPdu(fc, coils);
    FrameParts(slave, pdu);
    RoundTrip(unit, discovery, slave, pdu);
    var n := BytesFor(|coils|);
    assert pdu[2..2 + n] == PackBits(coils);
    var (_, m') := Responses.MasterFeed(m, unit, discovery, Frame(slave, pdu));
    assert m'.coilCount == 8 * n && m'.coils[..n] == PackBits(coils);
    forall i: Word | i < 8 * n
      ensures Responses.GetCoil(m', i) <==> i < |coils| && coils[i]
    {
      BitOfPack(coils, i / 8, i % 8);
      assert m'.coils[i / 8] == m'.coils[..n][i / 8];
    }
  }

  /** Read your coils: nonzero values written with FC 0F come back as set coils over FC 01, the padding
      reads as off, and no other coil has changed. */
  lemma ReadYourCoils(cb: Callbacks, q: RequestState, bank: Bank, slave: Byte, discovery: Byte,
                      m: MasterState, unit: Byte, masterDiscovery: Byte, addr: Word, values: seq<Byte>)
    requires cb.writeCoils && cb.readCoils
    requires 1 <= |values| <= 264 && addr as int + |values| <= |bank.coils|
    requires ReadableAddress(addr)
    requires Accepts(slave, discovery, unit) && Accepts(unit, masterDiscovery, slave)
    ensures
      var (writeParsed, q1) :=
        SlaveRequests.SlaveFeed(q, slave, discovery, Frame(unit, WriteCoilsPdu(addr, Truths(values))));
      && (writeParsed == Ok ==> Answerable(q1))
      && var written := Answer(cb, writeParsed, q1, bank);
      var (readParsed, q2) :=
        SlaveRequests.SlaveFeed(written.q, slave, discovery, Frame(unit, ReadPdu(0x01, addr, |values|)));
      && (readParsed == Ok ==> Answerable(q2))
      && var served := Answer(cb, readParsed, q2, written.bank);
      && served.Answered?
      && var (status, m') := Responses.MasterFeed(m, unit, masterDiscovery, Frame(slave, served.pdu));
      && status == Ok
      && (forall i: Word :: Responses.GetCoil(m', i) <==> i < |values| && values[i] != 0)
      && served.bank == bank.(coils := served.bank.coils)
      && |served.bank.coils| == |bank.coils|
      && (forall j: nat :: j < |bank.coils| && !(addr <= j < addr as int + |values|) ==>
            served.bank.coils[j] == bank.coils[j])
  {
    hide WriteCoilsPdu, ReadPdu, SlaveRequests.SlaveFeed, Responses.MasterFeed, Frame, Respond, Responses.GetCoil;
    var coils := Truths(values);
    var (_, q1) := SlaveRequests.SlaveFeed(q, slave, discovery, Frame(unit, WriteCoilsPdu(addr, coils)));
    CoilsWritten(cb, q, bank, slave, discovery, unit, addr, coils);
    var bank' := bank.(coils := Splice(bank.coils, addr, coils));
    CoilsReadBack(cb, q1, bank', slave, discovery, m, unit, masterDiscovery, 0x01, addr, |values|);
  }

  /** A single write is answered by its own request, exactly when the address exists; the master takes
      the echo, and nothing but the addressed coil or register has changed. */
  lemma SingleWriteEchoed(cb: Callbacks, q: RequestState, bank: Bank, slave: Byte, discovery: Byte,
                          m: MasterState, unit: Byte, masterDiscovery: Byte,
                          addr: Word, coil: bool, on: bool, value: Word)
    requires cb.writeCoil && cb.writeRegister
    requires Accepts(slave, discovery, unit) && Accepts(unit, masterDiscovery, slave)
    ensures var pdu := if coil then WriteCoilPdu(addr, on) else WriteRegisterPdu(addr, value);
      var (parsed, q') := SlaveRequests.SlaveFeed(q, slave, discovery, Frame(unit, pdu));
      && parsed == Ok && Answerable(q')
      && (addr < (if coil then |bank.coils| else |bank.holding|) ==>
            && Answer(cb, parsed, q', bank) == Answered(pdu, q',
                 if coil then bank.(coils := bank.coils[addr := on]) else bank.(holding := bank.holding[addr := value]))
            && Responses.MasterFeed(m, unit, masterDiscovery, Frame(slave, pdu)).0 == Ok)
      && (addr >= (if coil then |bank.coils| else |bank.holding|) ==>
            Answer(cb, parsed, q', bank) == Unanswered(Err(ErrCallback), q', bank))
  {
    hide Frame, Unwrap, SlaveRequests.ParseRequest, Responses.ParseResponse, Answerable, Respond;
    var pdu := if coil then WriteCoilPdu(addr, on) else WriteRegisterPdu(addr, value);
    SingleWriteArrives(slave, discovery, unit, pdu);
    SingleWriteArrives(unit, masterDiscovery, slave, pdu);
    var behind := Frame(slave, pdu)[|pdu| + 1];
    if coil {
      CoilWriteParsed(cb, q, bank, m, behind, addr, on);
    } else {
      RegisterWriteParsed(cb, q, bank, m, behind, addr, value);
    }
  }

  lemma SingleWriteArrives(slave: Byte, discovery: Byte, unit: Byte, pdu: seq<Byte>)
    requires |pdu| == 5 && (pdu[0] == 0x05 || pdu[0] == 0x06) && Accepts(slave, discovery, unit)
    ensures Unwrap(slave, discovery, Frame(unit, pdu)) == Accepted(pdu)
  {
    hide Crc, TrailerMatches;
    FrameParts(unit, pdu);
    RoundTrip(slave, discovery, unit, pdu);
  }

  lemma CoilWriteParsed(cb: Callbacks, q: RequestState, bank: Bank, m: MasterState, behind: Byte, addr: Word, on: bool)
    requires cb.writeCoil
    ensures var pdu := WriteCoilPdu(addr, on);
      var (parsed, q') := SlaveRequests.ParseRequest(q, pdu);
      && parsed == Ok && Answerable(q')
      && Respond(cb, q', bank)
         == (if addr < |bank.coils| then Reply(pdu, bank.(coils := bank.coils[addr := on]))
             else Refusal(ErrCallback, bank))
      && Responses.ParseResponse(m, pdu, behind).0 == Ok
  {
    var pdu := WriteCoilPdu(addr, on);
    var (_, q') := SlaveRequests.ParseRequest(q, pdu);
    assert pdu[3] == (if on then 0xFF else 0x00) && pdu[4] == 0x00;
    assert q'.coils[0] == if on then 1 else 0;
  }

  lemma RegisterWriteParsed(cb: Callbacks, q: RequestState, bank: Bank, m: MasterState, behind: Byte,
                            addr: Word, value: Word)
    requires cb.writeRegister
    ensures var pdu := WriteRegisterPdu(addr, value);
      var (parsed, q') := SlaveRequests.ParseRequest(q, pdu);
      && parsed == Ok && Answerable(q')
      && Respond(cb, q', bank)
         == (if addr < |bank.holding| then Reply(pdu, bank.(holding := bank.holding[addr := value]))
             else Refusal(ErrCallback, bank))
      && Responses.ParseResponse(m, pdu, behind).0 == Ok
  {
    var (_, q') := SlaveRequests.ParseRequest(q, WriteRegisterPdu(addr, value));
    assert q'.regs[0] == value;
  }

  /** The response to a mask write always reaches the master, as address, AND mask and OR mask. */
  lemma MaskWriteReadBack(m: MasterState, unit: Byte, discovery: Byte, slave: Byte,
                          addr: Word, andMask: Word, orMask: Word)
    requires Accepts(unit, discovery, slave)
    ensures var (status, m') :=
        Responses.MasterFeed(m, unit, discovery, Frame(slave, MaskWritePdu(addr, andMask, orMask)));
      && status == Ok && m'.regCount == 3
      && Responses.GetRegister(m', 0) == addr
      && Responses.GetRegister(m', 1) == andMask
      && Responses.GetRegister(m', 2) == orMask
  {
    hide Crc, TrailerMatches;
    var pdu := MaskWritePdu(addr, andMask, orMask);
    FrameParts(slave, pdu);
    RoundTrip(unit, discovery, slave, pdu);
  }

  /** A frame addressed to someone else changes nothing on either side, but for the master's last error. */
  lemma StrangersIgnored(m: MasterState, q: RequestState, unit: Byte, discovery: Byte, addr: Byte, pdu: seq<Byte>)
    requires |pdu| >= 1 && FrameLength(Frame(addr, pdu)) == Exactly(|pdu| + 3)
    requires unit != 0xFF && addr != unit && (discovery == 0 || addr != discovery)
    ensures Responses.MasterFeed(m, unit, discovery, Frame(addr, pdu))
         == (Err(ErrInvalidSlave), m.(lastError := Err(ErrInvalidSlave)))
    ensures SlaveRequests.SlaveFeed(q, unit, discovery, Frame(addr, pdu)) == (Err(ErrInvalidSlave), q)
  {
    hide Unwrap, FrameLength, Frame;
    AddressFilter(unit, discovery, addr, pdu);
  }

  /** Neither does a frame damaged in one to three bits. */
  lemma DamageIgnored(m: MasterState, q: RequestState, unit: Byte, discovery: Byte,
                      f: seq<Byte>, pdu: seq<Byte>, g: seq<Byte>)
    requires Unwrap(unit, discovery, f) == Accepted(pdu) && |f| == |pdu| + 3 <= 4095
    requires |g| == |f| && 1 <= Differences(f, g, 8 * |f|) <= 3 && FrameLength(g) == Exactly(|f|)
    ensures Responses.MasterFeed(m, unit, discovery, g) == (Err(ErrCrc), m.(lastError := Err(ErrCrc)))
    ensures SlaveRequests.SlaveFeed(q, unit, discovery, g) == (Err(ErrCrc), q)
  {
    hide Unwrap, FrameLength, Differences;
    ThreeErrorsRejected(unit, discovery, f, pdu, g);
  }

  /** And of a frame that is not all there, both sides wait for what is missing. */
  lemma PartialFrameWaits(m: MasterState, q: RequestState, unit: Byte, discovery: Byte, data: seq<Byte>)
    requires |data| < 4 || (FrameLength(data).Exactly? && FrameLength(data).n > |data|)
    ensures var missing := (if |data| < 4 then 4 else FrameLength(data).n) - |data|;
      && Responses.MasterFeed(m, unit, discovery, data) == (Wait(missing), m)
      && SlaveRequests.SlaveFeed(q, unit, discovery, data) == (Wait(missing), q)
  {
  }

  /** An exception response reaches the master as its code for exactly the function codes 1 to 24. */
  lemma ExceptionArrives(m: MasterState, q: RequestState, slave: Byte, unit: Byte, discovery: Byte, code: Byte)
    requires Accepts(unit, discovery, slave)
    ensures var (status, m') := Responses.MasterFeed(m, unit, discovery, Frame(slave, ExceptionPdu(q, code)));
      && (status == Err(ErrException) <==> 0x01 <= q.lastFunction % 0x80 <= 0x18)
      && (status == Err(ErrException) ==>
            m' == m.(lastFunction := 0x80 + q.lastFunction % 0x80, exception := code, lastError := status))
  {
    hide Crc, TrailerMatches;
    var pdu := ExceptionPdu(q, code);
    FrameParts(slave, pdu);
    RoundTrip(unit, discovery, slave, pdu);
  }

  /** A diagnostic request is echoed through both sides with its data. */
  lemma DiagnosticEchoed(cb: Callbacks, q: RequestState, bank: Bank, slave: Byte, discovery: Byte,
                         m: MasterState, unit: Byte, masterDiscovery: Byte, sub: Word, data: Word)
    requires Accepts(slave, discovery, unit) && Accepts(unit, masterDiscovery, slave)
    ensures var pdu: seq<Byte> := [0x08] + Put16(sub) + Put16(data);
      var (parsed, q') := SlaveRequests.SlaveFeed(q, slave, discovery, Frame(unit, pdu));
      && parsed == Ok && Answerable(q')
      && Answer(cb, parsed, q', bank) == Answered(pdu, q', bank)
      && var (status, m') := Responses.MasterFeed(m, unit, masterDiscovery, Frame(slave, pdu));
      && status == Ok && m'.regCount == 1 && Responses.GetRegister(m', 0) == data
  {
    hide Crc, TrailerMatches;
    var pdu: seq<Byte> := [0x08] + Put16(sub) + Put16(data);
    FrameParts(unit, pdu);
    FrameParts(slave, pdu);
    RoundTrip(slave, discovery, unit, pdu);
    RoundTrip(unit, masterDiscovery, slave, pdu);
  }

  /** Over RTU no register of a queue ever reaches the master: its frames are taken at six bytes, and what then
      parses holds none. */
  lemma QueueNeverArrives(m: MasterState, unit: Byte, discovery: Byte, data: seq<Byte>)
    requires |data| >= 2 && data[1] == 0x18
    ensures var (status, m') := Responses.MasterFeed(m, unit, discovery, data);
      status == Ok ==> m'.regCount == 0
  {
    hide Unwrap;
    if Unwrap(unit, discovery, data).Accepted? {
      QueueFrameLength(unit, discovery, data);
    }
  }

  predicate Delimited(pdu: seq<Byte>)
    requires |pdu| >= 1
  {
    pdu[0] !in {0x07, 0x0C, 0x0F, 0x10, 0x17, 0x18} || (pdu[0] == 0x17 && |pdu| >= 9 && |pdu| == 9 + pdu[8] as int)
  }

  /** Which responses the master's framer recognises at their own length: all but the echo of a multiple
      write, the exception status, the event log and the queue; and a read/write response just when its ninth byte,
      taken for the byte count, happens to fit. */
  lemma ResponseArrives(cb: Callbacks, q: RequestState, bank: Bank, slave: Byte, unit: Byte, discovery: Byte)
    requires Answerable(q) && Respond(cb, q, bank).Reply?
    requires 0x01 <= q.lastFunction <= 0x04 ==> q.count >= 1
    requires Accepts(unit, discovery, slave)
    ensures var pdu := Respond(cb, q, bank).pdu;
      && |pdu| >= 1 && pdu[0] == q.lastFunction
      && (Unwrap(unit, discovery, Frame(slave, pdu)) == Accepted(pdu) <==> Delimited(pdu))
  {
    hide Frame, TrailerMatches, Unwrap, Respond, Answerable;
    var pdu := Respond(cb, q, bank).pdu;
    var f := Frame(slave, pdu);
    ResponseShape(cb, q, bank);
    if 0x01 <= q.lastFunction <= 0x04 {
      ReadShape(cb, q, bank);
    }
    FrameParts(slave, pdu);
    RoundTrip(unit, discovery, slave, pdu);
    ResponseLength(f, pdu);
  }

  lemma ResponseLength(f: seq<Byte>, pdu: seq<Byte>)
    requires |pdu| >= 2 && Shaped(pdu[0], pdu) && (0x01 <= pdu[0] <= 0x04 ==> |pdu| >= 3)
    requires |f| == |pdu| + 3 && f[1..|f| - 2] == pdu
    ensures FrameLength(f) == Exactly(|f|) <==> Delimited(pdu)
  {
    assert f[1] == f[1..|f| - 2][0] && f[2] == f[1..|f| - 2][1];
    assert |pdu| > 8 ==> f[9] == f[1..|f| - 2][8];
  }
}
