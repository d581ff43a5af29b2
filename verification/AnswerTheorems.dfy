/** What a slave answers, function code by function code: when it does, with which bytes, what that does to the
    store, and which error it returns otherwise. */
module AnswerTheorems {
  import opened Bytes
  import opened Bits
  import opened Status
  import opened Responder
  import opened SlaveRequests
  import opened StoreTheorems

  predicate Known(fc: Byte) {
    0x01 <= fc <= 0x08 || fc in {0x0B, 0x0C, 0x0F, 0x10, 0x11, 0x16, 0x17, 0x18}
  }

  /** The application has registered the callbacks that the function code needs. */
  predicate Registered(cb: Callbacks, fc: Byte) {
    && (fc in {0x01, 0x07} ==> cb.readCoils)
    && (fc == 0x02 ==> cb.readDiscrete)
    && (fc in {0x03, 0x0B, 0x0C, 0x11, 0x17, 0x18} ==> cb.readHolding)
    && (fc == 0x04 ==> cb.readInput)
    && (fc == 0x05 ==> cb.writeCoil)
    && (fc in {0x06, 0x16} ==> cb.writeRegister)
    && (fc == 0x0F ==> cb.writeCoils)
    && (fc in {0x10, 0x17} ==> cb.writeRegisters)
  }

  /** Which error a refusal is: a protocol error exactly for an unknown function code, a state error exactly
      where a callback is missing, and else the callback's; and the first two change nothing. */
  lemma RefusalError(cb: Callbacks, q: RequestState, bank: Bank)
    requires Answerable(q)
    ensures var fc := q.lastFunction;
      var reply := Respond(cb, q, bank);
      && (!Known(fc) ==> reply == Refusal(ErrProtocol, bank))
      && (Known(fc) && !Registered(cb, fc) ==> reply == Refusal(ErrState, bank))
      && (Known(fc) && Registered(cb, fc) && reply.Refusal? ==> reply.error == ErrCallback)
  {
    hide CoilsPdu, RegistersPdu, ServerIdPdu, QueuePdu, PutWords, PackBits, UnpackBits, Masked, WriteCoilsFrom, Splice;
  }

  /** `pdu` is a register response: the byte count, and the words, high byte first. */
  ghost predicate CarriesWords(pdu: seq<Byte>, fc: Byte, words: seq<Word>) {
    && |pdu| == 2 + 2 * |words| && pdu[0] == fc && pdu[1] == 2 * |words|
    && forall i: nat :: i < |words| ==> Pair(pdu[2 + 2 * i], pdu[3 + 2 * i]) == words[i]
  }

  lemma RegistersPduCarries(fc: Byte, words: seq<Word>)
    requires |words| <= 125
    ensures CarriesWords(RegistersPdu(fc, words), fc, words)
  {
    hide PutWords;
    forall i: nat | i < |words|
      ensures Pair(RegistersPdu(fc, words)[2 + 2 * i], RegistersPdu(fc, words)[3 + 2 * i]) == words[i]
    {
      PutWordsAt(words, i);
    }
  }

  /** FC 03 and 04: answered exactly where the array has the range, or, of holding registers, the callback
      serves just that block; with those registers. */
  lemma RegisterReadAnswered(cb: Callbacks, q: RequestState, bank: Bank)
    requires Answerable(q) && q.lastFunction in {0x03, 0x04} && Registered(cb, q.lastFunction)
    ensures var fc, at: int, count: int := q.lastFunction, q.addr, q.count;
      var src := if fc == 0x03 then bank.holding else bank.input;
      var served := fc == 0x03
                    && ((at == 0xFFF0 && count == 64 && bank.serverId.Some?)
                        || (at == 0xFFFC && count == 5 && bank.eventLog.Some?));
      var reply := Respond(cb, q, bank);
      && reply.bank == bank
      && (reply.Reply? <==> at + count <= |src| || served)
      && (at + count <= |src| ==> CarriesWords(reply.pdu, fc, src[at..at + count]))
      && (reply.Reply? && at + count > |src| ==>
            CarriesWords(reply.pdu, fc, if count == 64 then bank.serverId.value else bank.eventLog.value))
  {
    hide RegistersPdu, CarriesWords;
    var fc, at: int, count: int := q.lastFunction, q.addr, q.count;
    var src := if fc == 0x03 then bank.holding else bank.input;
    if at + count <= |src| {
      RegistersPduCarries(fc, src[at..at + count]);
    } else if fc == 0x03 {
      var read := ReadHolding(bank, q.addr, q.count);
      if read.Some? {
        RegistersPduCarries(fc, read.value);
      }
    }
  }

  /** `pdu` is a coil response: the byte count, and the coils from the lowest bit of its first byte on, with
      zeros in the rest of the last byte. */
  ghost predicate CarriesCoils(pdu: seq<Byte>, fc: Byte, coils: seq<bool>) {
    var bytes := (|coils| + 7) / 8;
    && |pdu| == 2 + bytes && pdu[0] == fc && pdu[1] == bytes
    && var data := pdu[2..];
    forall i: nat, j: nat :: i < bytes && j < 8 ==>
      (BitOf(data[i], j) <==> 8 * i + j < |coils| && coils[8 * i + j])
  }

  lemma CoilsPduCarries(fc: Byte, coils: seq<bool>)
    requires |coils| <= 264
    ensures CarriesCoils(CoilsPdu(fc, coils), fc, coils)
  {
    hide PackBits, BitOf;
    var pdu := CoilsPdu(fc, coils);
    var data := pdu[2..];
    assert data == PackBits(coils);
    forall i: nat, j: nat | i < (|coils| + 7) / 8 && j < 8
      ensures BitOf(data[i], j) <==> 8 * i + j < |coils| && coils[8 * i + j]
    {
      BitOfPack(coils, i, j);
    }
  }

  /** FC 01 and 02: answered exactly where the array has the range; with those coils. */
  lemma CoilReadAnswered(cb: Callbacks, q: RequestState, bank: Bank)
    requires Answerable(q) && q.lastFunction in {0x01, 0x02} && Registered(cb, q.lastFunction)
    ensures var fc, at: int, count: int := q.lastFunction, q.addr, q.count;
      var src := if fc == 0x01 then bank.coils else bank.discrete;
      var reply := Respond(cb, q, bank);
      && reply.bank == bank
      && (reply.Reply? <==> at + count <= |src|)
      && (reply.Reply? ==> CarriesCoils(reply.pdu, fc, src[at..at + count]))
  {
    hide CoilsPdu, CarriesCoils;
    var at: int, count: int := q.addr, q.count;
    var src := if q.lastFunction == 0x01 then bank.coils else bank.discrete;
    if at + count <= |src| {
      CoilsPduCarries(q.lastFunction, src[at..at + count]);
    }
  }

  /** The four arrays of two stores, but for the one named, and the blocks are the same. */
  predicate OnlyCoilsDiffer(b: Bank, c: Bank) {
    b.holding == c.holding && b.input == c.input && b.discrete == c.discrete
    && b.serverId == c.serverId && b.eventLog == c.eventLog && |b.coils| == |c.coils|
  }

  predicate OnlyHoldingDiffers(b: Bank, c: Bank) {
    b.coils == c.coils && b.input == c.input && b.discrete == c.discrete
    && b.serverId == c.serverId && b.eventLog == c.eventLog && |b.holding| == |c.holding|
  }

  /** FC 05: answered exactly where the coil exists; it is then on exactly when the request's byte is not zero,
      and no other has changed. */
  lemma CoilWriteAnswered(cb: Callbacks, q: RequestState, bank: Bank)
    requires Answerable(q) && q.lastFunction == 0x05 && cb.writeCoil
    ensures var reply := Respond(cb, q, bank);
      && (reply.Reply? <==> q.addr < |bank.coils|)
      && (reply.Refusal? ==> reply.bank == bank)
      && (reply.Reply? ==>
            && reply.pdu == [0x05, q.addr / 0x100, q.addr % 0x100, if q.coils[0] != 0 then 0xFF else 0x00, 0x00]
            && OnlyCoilsDiffer(reply.bank, bank)
            && forall j: nat :: j < |bank.coils| ==>
                 reply.bank.coils[j] == if j == q.addr then q.coils[0] != 0 else bank.coils[j])
  {
  }

  /** FC 06: the same of a register. */
  lemma RegisterWriteAnswered(cb: Callbacks, q: RequestState, bank: Bank)
    requires Answerable(q) && q.lastFunction == 0x06 && cb.writeRegister
    ensures var reply := Respond(cb, q, bank);
      && (reply.Reply? <==> q.addr < |bank.holding|)
      && (reply.Refusal? ==> reply.bank == bank)
      && (reply.Reply? ==>
            && reply.pdu == [0x06, q.addr / 0x100, q.addr % 0x100, q.regs[0] / 0x100, q.regs[0] % 0x100]
            && OnlyHoldingDiffers(reply.bank, bank)
            && forall j: nat :: j < |bank.holding| ==>
                 reply.bank.holding[j] == if j == q.addr then q.regs[0] else bank.holding[j])
  {
  }

  /** FC 16: always answered with its own request; the register is masked, bit by bit, where it can be read, and
      no other has changed. */
  lemma MaskWriteAnswered(cb: Callbacks, q: RequestState, bank: Bank)
    requires Answerable(q) && q.lastFunction == 0x16 && cb.writeRegister
    ensures var andMask, orMask := q.regs[0], q.regs[1];
      var reply := Respond(cb, q, bank);
      && reply.Reply?
      && reply.pdu == [0x16, q.addr / 0x100, q.addr % 0x100, andMask / 0x100, andMask % 0x100,
                       orMask / 0x100, orMask % 0x100]
      && OnlyHoldingDiffers(reply.bank, bank)
      && (forall j: nat :: j < |bank.holding| && !(cb.readHolding && j == q.addr) ==>
            reply.bank.holding[j] == bank.holding[j])
      && (cb.readHolding && q.addr < |bank.holding| ==>
            forall i: nat :: i < 16 ==>
              WordBit(reply.bank.holding[q.addr], i)
                == MaskOfBits(WordBit(bank.holding[q.addr], i), WordBit(andMask, i), WordBit(orMask, i)))
  {
    hide Masked, WordBit, MaskOfBits;
    if cb.readHolding && q.addr < |bank.holding| {
      forall i: nat | i < 16
        ensures WordBit(Masked(bank.holding[q.addr], q.regs[0], q.regs[1]), i)
             == MaskOfBits(WordBit(bank.holding[q.addr], i), WordBit(q.regs[0], i), WordBit(q.regs[1], i))
      {
        MaskedBit(bank.holding[q.addr], q.regs[0], q.regs[1], i);
      }
    }
  }

  /** Bit `i` of a word, the lowest being bit 0. */
  predicate WordBit(w: Word, i: nat) {
    BitUp(w as bv16, i)
  }

  predicate BitUp(x: bv16, i: nat) {
    if i == 0 then x & 1 == 1 else BitUp(x >> 1, i - 1)
  }

  /** Each bit of a masked register is the register's where the AND mask has it, or set where the OR mask is. */
  lemma MaskedBit(cur: Word, andMask: Word, orMask: Word, i: nat)
    ensures WordBit(Masked(cur, andMask, orMask), i)
         == MaskOfBits(WordBit(cur, i), WordBit(andMask, i), WordBit(orMask, i))
  {
    hide BitUp, MaskBits;
    BackToBits(MaskBits(cur as bv16, andMask as bv16, orMask as bv16));
    BitOfMask(cur as bv16, andMask as bv16, orMask as bv16, i);
  }

  predicate MaskOfBits(cur: bool, andMask: bool, orMask: bool) {
    (cur && andMask) || orMask
  }

  lemma BackToBits(x: bv16)
    ensures (x as int) as bv16 == x
  {
  }

  lemma {:induction false} BitOfMask(c: bv16, a: bv16, o: bv16, i: nat)
    ensures BitUp(MaskBits(c, a, o), i) == MaskOfBits(BitUp(c, i), BitUp(a, i), BitUp(o, i))
    decreases i
  {
    hide MaskBits;
    LowBitOfMask(c, a, o);
    if i > 0 {
      BitOfMask(c >> 1, a >> 1, o >> 1, i - 1);
    }
  }

  lemma LowBitOfMask(c: bv16, a: bv16, o: bv16)
    ensures MaskBits(c, a, o) & 1 == 1 <==> (c & 1 == 1 && a & 1 == 1) || o & 1 == 1
    ensures MaskBits(c, a, o) >> 1 == MaskBits(c >> 1, a >> 1, o >> 1)
  {
  }

  /** FC 10: answered exactly where the array has the range; then just that range holds the request's registers,
      and else nothing has changed. */
  lemma RegistersWriteAnswered(cb: Callbacks, q: RequestState, bank: Bank)
    requires Answerable(q) && q.lastFunction == 0x10 && cb.writeRegisters
    ensures var at: int, count: int := q.addr, q.count;
      var reply := Respond(cb, q, bank);
      && (reply.Reply? <==> at + count <= |bank.holding|)
      && (reply.Refusal? ==> reply.bank == bank)
      && (reply.Reply? ==>
            && reply.pdu == [0x10, q.addr / 0x100, q.addr % 0x100, q.count / 0x100, q.count % 0x100]
            && OnlyHoldingDiffers(reply.bank, bank)
            && forall j: nat :: j < |bank.holding| ==>
                 reply.bank.holding[j] == if at <= j < at + count then q.regs[j - at] else bank.holding[j])
  {
  }

  /** FC 0F: answered exactly where every address, of 16 bits, exists. The coils up to the first missing one
      become the bits of the request, also where it is refused, and no others have changed. */
  lemma CoilsWriteAnswered(cb: Callbacks, q: RequestState, bank: Bank)
    requires Answerable(q) && q.lastFunction == 0x0F && cb.writeCoils
    ensures var reply := Respond(cb, q, bank);
      var reached := CoilsReached(bank.coils, q.addr, q.count);
      && reached <= q.count
      && (reply.Reply? <==> forall k: nat :: k < q.count ==> CoilAddress(q.addr, k) < |bank.coils|)
      && (reply.Reply? ==> reply.pdu == [0x0F, q.addr / 0x100, q.addr % 0x100, q.count / 0x100, q.count % 0x100])
      && OnlyCoilsDiffer(reply.bank, bank)
      && (forall k: nat :: k < reached ==>
            var at := CoilAddress(q.addr, k);
            at < |bank.coils| && (reply.bank.coils[at] <==> BitOf(q.coils[k / 8], k % 8)))
      && (forall j: nat :: j < |bank.coils| && (j - q.addr) % 0x1_0000 >= reached ==>
            reply.bank.coils[j] == bank.coils[j])
  {
    hide BitOf, WriteCoilsFrom, CoilsReached, HasCoils;
    var values := UnpackBits(q.coils, q.count);
    ReachedAtMost(bank.coils, q.addr, q.count);
    AllReached(bank.coils, q.addr, q.count);
    forall k: nat | k < CoilsReached(bank.coils, q.addr, q.count)
      ensures var at := CoilAddress(q.addr, k);
        at < |bank.coils| && WriteCoilsFrom(bank.coils, q.addr, values)[at] == values[k]
    {
      CoilWrittenAt(bank.coils, q.addr, values, k);
    }
    forall j: nat | j < |bank.coils| && (j - q.addr) % 0x1_0000 >= CoilsReached(bank.coils, q.addr, q.count)
      ensures WriteCoilsFrom(bank.coils, q.addr, values)[j] == bank.coils[j]
    {
      CoilKept(bank.coils, q.addr, values, j);
    }
  }

  /** FC 17: refused with nothing changed where the write range does not exist; else written, whatever comes of
      the read, which is of the store as written. */
  lemma ReadWriteAnswered(cb: Callbacks, q: RequestState, bank: Bank)
    requires Answerable(q) && q.lastFunction == 0x17 && cb.readHolding && cb.writeRegisters
    ensures var at: int := Pair(q.coils[0], q.coils[1]);
      var count: int := Pair(q.coils[2], q.coils[3]);
      var reply := Respond(cb, q, bank);
      && (at + count > |bank.holding| ==> reply == Refusal(ErrCallback, bank))
      && (at + count <= |bank.holding| ==>
            && OnlyHoldingDiffers(reply.bank, bank)
            && (forall j: nat :: j < |bank.holding| ==>
                  reply.bank.holding[j] == if at <= j < at + count then q.regs[j - at] else bank.holding[j])
            && var read := ReadHolding(reply.bank, q.addr, q.count);
            && (reply.Reply? <==> read.Some?)
            && (reply.Reply? ==> CarriesWords(reply.pdu, 0x17, read.value)))
  {
    hide RegistersPdu, CarriesWords, ReadHolding;
    var at: int := Pair(q.coils[0], q.coils[1]);
    var count: int := Pair(q.coils[2], q.coils[3]);
    assert at == Get16(q.coils, 0) && count == Get16(q.coils, 2);
    var reply := Respond(cb, q, bank);
    if reply.Reply? {
      RegistersPduCarries(0x17, ReadHolding(reply.bank, q.addr, q.count).value);
    }
  }

  /** FC 07, 0B, 0C, 11 and 18 change nothing; and when the last four registers, the first eight coils, the
      blocks past the end, and the queue's 128 registers are there. FC 08 is always echoed. */
  lemma StatusAnswered(cb: Callbacks, q: RequestState, bank: Bank)
    requires Answerable(q) && q.lastFunction in {0x07, 0x08, 0x0B, 0x0C, 0x11, 0x18}
    requires Registered(cb, q.lastFunction)
    ensures var fc := q.lastFunction;
      var reply := Respond(cb, q, bank);
      && reply.bank == bank
      && (reply.Reply? <==>
            && (fc == 0x07 ==> |bank.coils| >= 8)
            && (fc == 0x0B ==> |bank.holding| == 0x1_0000)
            && (fc == 0x0C ==> bank.eventLog.Some?)
            && (fc == 0x11 ==> bank.serverId.Some?)
            && (fc == 0x18 ==> q.addr as int + 128 <= |bank.holding|))
      && (fc == 0x08 ==> reply.pdu == [0x08, q.addr / 0x100, q.addr % 0x100, q.regs[0] / 0x100, q.regs[0] % 0x100])
  {
    hide ServerIdPdu, QueuePdu, PutWords, PackBits;
  }

  /** An exception response carries the function code of the request, its highest bit set, and the code. */
  lemma ExceptionCarries(q: RequestState, code: Byte)
    ensures var pdu := ExceptionPdu(q, code);
      && |pdu| == 2 && pdu[0] >= 0x80 && pdu[0] % 0x80 == q.lastFunction % 0x80 && pdu[1] == code
  {
  }
}
