/** What a master gets out of a response, function code by function code: the verdict of the parser, and what
    the accessors answer at every index afterwards. */
module ResponseTheorems {
  import opened Bytes
  import opened Bits
  import opened Status
  import opened Responses

  /** The registers the accessor answers with, and zero past them. */
  ghost predicate ReadsRegisters(m: MasterState, words: seq<Word>) {
    forall i: Word :: GetRegister(m, i) == if i < |words| then words[i] else 0
  }

  /** The coils the accessor answers with are the bits of `bytes`, and off past them. */
  ghost predicate ReadsCoils(m: MasterState, bytes: seq<Byte>) {
    forall i: Word :: GetCoil(m, i) <==> i < 8 * |bytes| && BitOf(bytes[i / 8], i % 8)
  }

  ghost predicate ReadsNothing(m: MasterState) {
    ReadsRegisters(m, []) && ReadsCoils(m, [])
  }

  /** The byte count after the function code is there, and the bytes it counts. */
  predicate Counted(pdu: seq<Byte>) {
    |pdu| >= 2 && |pdu| >= 2 + pdu[1] as int
  }

  lemma StoredRegisters(m: MasterState, words: seq<Word>)
    requires |words| <= REGISTERS
    ensures ReadsRegisters(m.StoreRegs(words), words)
    ensures m.coilCount == 0 ==> ReadsCoils(m.StoreRegs(words), [])
  {
  }

  lemma StoredCoils(m: MasterState, bytes: seq<Byte>)
    requires |bytes| <= COIL_BYTES
    ensures ReadsCoils(m.StoreCoils(bytes), bytes)
    ensures m.regCount == 0 ==> ReadsRegisters(m.StoreCoils(bytes), [])
  {
    hide BitOf;
  }

  lemma NothingStored(m: MasterState)
    requires m.coilCount == 0 && m.regCount == 0
    ensures ReadsNothing(m)
  {
  }

  /** What every response does: an empty one nothing; an exception response sets its code, reports an exception,
      and leaves the values of the response before; and any other clears all these, and is Ok or a protocol
      error. */
  lemma HeaderParsed(m: MasterState, pdu: seq<Byte>, behind: Byte)
    ensures var (status, m') := ParseResponse(m, pdu, behind);
      && (pdu == [] ==> status == Err(ErrProtocol) && m' == m)
      && (pdu != [] ==> m'.lastFunction == pdu[0])
      && (pdu != [] && pdu[0] >= 0x80 ==>
            && status == (if |pdu| >= 2 then Err(ErrException) else Err(ErrProtocol))
            && m'.exception == (if |pdu| >= 2 then pdu[1] else m.exception)
            && m'.lastError == (if |pdu| >= 2 then Err(ErrException) else m.lastError)
            && forall i: Word :: GetRegister(m', i) == GetRegister(m, i) && GetCoil(m', i) == GetCoil(m, i))
      && (pdu != [] && pdu[0] < 0x80 ==>
            && (status == Ok || status == Err(ErrProtocol))
            && m'.exception == 0 && m'.lastError == Ok
            && (status != Ok ==> ReadsNothing(m')))
  {
    hide BitOf;
  }

  /** A function code the library does not know is a protocol error. */
  lemma UnknownParsed(m: MasterState, pdu: seq<Byte>, behind: Byte)
    requires |pdu| >= 1 && pdu[0] < 0x80
    requires !(0x01 <= pdu[0] <= 0x08) && pdu[0] !in {0x0B, 0x0C, 0x0F, 0x10, 0x11, 0x14, 0x15, 0x16, 0x17, 0x18}
    ensures ParseResponse(m, pdu, behind).0 == Err(ErrProtocol)
  {
  }

  /** FC 01 and 02: the bits of at most 33 counted bytes. */
  lemma BitsParsed(m: MasterState, pdu: seq<Byte>, behind: Byte)
    requires |pdu| >= 1 && pdu[0] in {0x01, 0x02}
    ensures var (status, m') := ParseResponse(m, pdu, behind);
      && (status == Ok <==> Counted(pdu) && pdu[1] <= 33)
      && (status == Ok ==> ReadsCoils(m', pdu[2..2 + pdu[1] as int]) && ReadsRegisters(m', []))
  {
    hide ReadsCoils, ReadsRegisters;
    if Counted(pdu) && pdu[1] <= 33 {
      StoredCoils(Started(m, pdu), pdu[2..2 + pdu[1] as int]);
    }
  }

  /** The parse result with the header in, and everything cleared. */
  function Started(m: MasterState, pdu: seq<Byte>): MasterState
    requires |pdu| >= 1
  {
    m.(lastFunction := pdu[0], lastError := Ok, exception := 0, coilCount := 0, regCount := 0)
  }

  /** FC 03, 04, 14 and 17: as many whole registers as are counted, each high byte first. */
  lemma RegistersParsed(m: MasterState, pdu: seq<Byte>, behind: Byte)
    requires |pdu| >= 1 && pdu[0] in {0x03, 0x04, 0x14, 0x17}
    ensures var (status, m') := ParseResponse(m, pdu, behind);
      && (status == Ok <==> Counted(pdu))
      && (status == Ok ==>
            && ReadsCoils(m', [])
            && forall i: Word :: GetRegister(m', i)
                 == if i < pdu[1] / 2 then Pair(pdu[2 + 2 * i as int], pdu[3 + 2 * i as int]) else 0)
  {
    hide ReadsCoils;
    if Counted(pdu) {
      StoredRegisters(Started(m, pdu), GetWords(pdu, 2, pdu[1] / 2));
    }
  }

  /** FC 05, 06, 0F and 10: an echo of five bytes, and FC 15: what is counted; of neither is anything kept. */
  lemma EchoParsed(m: MasterState, pdu: seq<Byte>, behind: Byte)
    requires |pdu| >= 1 && pdu[0] in {0x05, 0x06, 0x0F, 0x10, 0x15}
    ensures var (status, m') := ParseResponse(m, pdu, behind);
      && (status == Ok <==> if pdu[0] == 0x15 then Counted(pdu) else |pdu| >= 5)
      && ReadsNothing(m')
  {
    hide ReadsNothing;
    NothingStored(Started(m, pdu));
  }

  /** FC 07: eight coils. */
  lemma ExceptionStatusParsed(m: MasterState, pdu: seq<Byte>, behind: Byte)
    requires |pdu| >= 1 && pdu[0] == 0x07
    ensures var (status, m') := ParseResponse(m, pdu, behind);
      && (status == Ok <==> |pdu| >= 2)
      && (status == Ok ==> ReadsCoils(m', [pdu[1]]) && ReadsRegisters(m', []))
  {
    hide ReadsCoils, ReadsRegisters;
    if |pdu| >= 2 {
      StoredCoils(Started(m, pdu), [pdu[1]]);
    }
  }

  /** FC 08: the data, behind the sub-function. FC 0B: status and event count. FC 16: address and both masks. */
  lemma FieldsParsed(m: MasterState, pdu: seq<Byte>, behind: Byte)
    requires |pdu| >= 1 && pdu[0] in {0x08, 0x0B, 0x16}
    ensures var (status, m') := ParseResponse(m, pdu, behind);
      && (status == Ok <==> |pdu| >= if pdu[0] == 0x16 then 7 else 5)
      && (status == Ok ==>
            && ReadsCoils(m', [])
            && ReadsRegisters(m', if pdu[0] == 0x08 then [Pair(pdu[3], pdu[4])]
                                  else if pdu[0] == 0x0B then [Pair(pdu[1], pdu[2]), Pair(pdu[3], pdu[4])]
                                  else [Pair(pdu[1], pdu[2]), Pair(pdu[3], pdu[4]), Pair(pdu[5], pdu[6])]))
  {
    hide ReadsCoils, ReadsRegisters;
    var s := Started(m, pdu);
    if pdu[0] == 0x08 && |pdu| >= 5 {
      StoredRegisters(s, [Pair(pdu[3], pdu[4])]);
    } else if pdu[0] == 0x0B && |pdu| >= 5 {
      StoredRegisters(s, [Pair(pdu[1], pdu[2]), Pair(pdu[3], pdu[4])]);
    } else if pdu[0] == 0x16 && |pdu| >= 7 {
      StoredRegisters(s, [Pair(pdu[1], pdu[2]), Pair(pdu[3], pdu[4]), Pair(pdu[5], pdu[6])]);
    }
  }

  /** FC 0C: status and event count, then at most 33 log bytes, as coils; nothing where fewer than four bytes
      are counted. */
  lemma EventLogParsed(m: MasterState, pdu: seq<Byte>, behind: Byte)
    requires |pdu| >= 1 && pdu[0] == 0x0C
    ensures var (status, m') := ParseResponse(m, pdu, behind);
      && (status == Ok <==> Counted(pdu))
      && (status == Ok && pdu[1] < 4 ==> ReadsNothing(m'))
      && (status == Ok && pdu[1] >= 4 ==>
            var logBytes := if pdu[1] > 37 then 33 else pdu[1] - 4;
            && ReadsRegisters(m', [Pair(pdu[2], pdu[3]), Pair(pdu[4], pdu[5])])
            && ReadsCoils(m', pdu[6..6 + logBytes]))
  {
    hide ReadsCoils, ReadsRegisters, ReadsNothing;
    var s := Started(m, pdu);
    NothingStored(s);
    if Counted(pdu) && pdu[1] >= 4 {
      var logBytes := if pdu[1] > 37 then 33 else pdu[1] - 4;
      var words := [Pair(pdu[2], pdu[3]), Pair(pdu[4], pdu[5])];
      StoredBoth(s, words, pdu[6..6 + logBytes]);
    }
  }

  lemma StoredBoth(m: MasterState, words: seq<Word>, bytes: seq<Byte>)
    requires |words| <= REGISTERS && |bytes| <= COIL_BYTES
    ensures ReadsRegisters(m.StoreRegs(words).StoreCoils(bytes), words)
    ensures ReadsCoils(m.StoreRegs(words).StoreCoils(bytes), bytes)
  {
    hide BitOf;
  }

  /** FC 11: whole registers, and an odd last byte by itself. */
  lemma ServerIdParsed(m: MasterState, pdu: seq<Byte>, behind: Byte)
    requires |pdu| >= 1 && pdu[0] == 0x11
    ensures var (status, m') := ParseResponse(m, pdu, behind);
      && (status == Ok <==> Counted(pdu))
      && (status == Ok ==>
            && ReadsCoils(m', [])
            && forall i: Word :: GetRegister(m', i)
                 == if 2 * i as int + 1 < pdu[1] then Pair(pdu[2 + 2 * i as int], pdu[3 + 2 * i as int])
                    else if 2 * i as int + 1 == pdu[1] then pdu[2 + 2 * i as int] else 0)
  {
    hide ReadsCoils;
    if Counted(pdu) {
      StoredRegisters(Started(m, pdu), ServerIdWords(pdu, pdu[1], (pdu[1] as int + 1) / 2));
    }
  }

  /** FC 18: at most 128 registers, by a 16-bit byte count from whose own low byte on they are read. */
  lemma QueueParsed(m: MasterState, pdu: seq<Byte>, behind: Byte)
    requires |pdu| >= 1 && pdu[0] == 0x18
    ensures var (status, m') := ParseResponse(m, pdu, behind);
      && (status == Ok ==> |pdu| >= 2)
      && (|pdu| >= 2 ==>
            var byteCount := Pair(pdu[1], if |pdu| >= 3 then pdu[2] else behind);
            && (status == Ok <==> |pdu| >= 2 + byteCount as int)
            && (status == Ok ==>
                  && ReadsCoils(m', [])
                  && forall i: Word :: GetRegister(m', i)
                       == if i < byteCount / 2 && i < 128 then Pair(pdu[2 + 2 * i as int], pdu[3 + 2 * i as int])
                          else 0))
  {
    hide ReadsCoils;
    if |pdu| >= 2 {
      var byteCount := QueueByteCount(pdu, behind);
      assert byteCount == Pair(pdu[1], if |pdu| >= 3 then pdu[2] else behind);
      if |pdu| >= 2 + byteCount {
        StoredRegisters(Started(m, pdu), GetWords(pdu, 2, Min(byteCount / 2, REGISTERS)));
      }
    }
  }
}
