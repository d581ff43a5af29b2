/** The slave's answer to a parsed request, over a bank of registers and coils. */
module Responder {
  import opened Bytes
  import opened Bits
  import opened Status
  import opened Requests
  import opened SlaveRequests

  /** An array behind the 16-bit addresses from 0 on. */
  type Space<T> = s: seq<T> | |s| <= 0x1_0000 witness []

  type IdBlock = s: seq<Word> | |s| == 64 witness seq(64, _ => 0)
  type LogBlock = s: seq<Word> | |s| == 5 witness seq(5, _ => 0)

  datatype Option<+T> = None | Some(value: T)

  /** What the register callbacks serve: an array each; and, where the application has made its holding
      register callback recognise them, the blocks of the server ID and of the event log, which run past the
      end of the address space. */
  datatype Bank = Bank(
    holding: Space<Word>, input: Space<Word>, coils: Space<bool>, discrete: Space<bool>,
    serverId: Option<IdBlock>, eventLog: Option<LogBlock>)

  const SERVER_ID_ADDR := 0xFFF0
  const EVENT_LOG_ADDR := 0xFFFC

  /** The holding register callback. */
  function ReadHolding(bank: Bank, addr: Word, count: nat): (r: Option<seq<Word>>)
    ensures r.Some? ==> |r.value| == count
  {
    if addr as int + count <= |bank.holding| then Some(bank.holding[addr..addr as int + count])
    else if addr == SERVER_ID_ADDR && count == 64 && bank.serverId.Some? then Some(bank.serverId.value)
    else if addr == EVENT_LOG_ADDR && count == 5 && bank.eventLog.Some? then Some(bank.eventLog.value)
    else None
  }

  /** The input register callback. */
  function ReadInput(bank: Bank, addr: Word, count: nat): (r: Option<seq<Word>>)
    ensures r.Some? ==> |r.value| == count
  {
    if addr as int + count <= |bank.input| then Some(bank.input[addr..addr as int + count]) else None
  }

  /** Which callbacks the application has registered. */
  datatype Callbacks = Callbacks(
    readCoils: bool, readDiscrete: bool, readHolding: bool, readInput: bool,
    writeCoil: bool, writeRegister: bool, writeCoils: bool, writeRegisters: bool)

  datatype Reply = Reply(pdu: seq<Byte>, bank: Bank) | Refusal(error: Error, bank: Bank)

  /** `s` with `ws` written from position `at` on. */
  function Splice<T>(s: seq<T>, at: nat, ws: seq<T>): (r: seq<T>)
    requires at + |ws| <= |s|
    ensures |r| == |s|
  {
    s[..at] + ws + s[at + |ws|..]
  }

  /** Whether a write callback that goes coil by coil gets to the end: it has the addresses, or it has all
      there are, so that the 16-bit address wraps around. */
  predicate HasCoils(coils: Space<bool>, at: Word, count: nat) {
    at as int + count <= |coils| || |coils| == 0x1_0000 || count == 0
  }

  /** The coils after that callback, which stops at the first address it does not have. */
  function WriteCoilsFrom(coils: Space<bool>, at: Word, values: seq<bool>): (r: Space<bool>)
    requires |values| < 0x1_0000
    ensures |r| == |coils|
  {
    if at as int + |values| <= |coils| then Splice(coils, at, values)
    else if at >= |coils| then coils
    else
      var n := |coils| - at;
      var written := Splice(coils, at, values[..n]);
      if |coils| < 0x1_0000 then written else Splice(written, 0, values[n..])
  }

  /** The fixed buffers the responder copies through are large enough for this request. */
  predicate Answerable(q: RequestState) {
    var fc := q.lastFunction;
    && fc != 0x14 && fc != 0x15
    && (fc == 0x01 || fc == 0x02 || fc == 0x0F ==> q.count <= 8 * COIL_BYTES)
    && (fc == 0x03 || fc == 0x04 || fc == 0x17 ==> q.count <= 125)
    && (fc == 0x10 ==> q.count <= REGISTERS)
    && (fc == 0x17 ==> Get16(q.coils, 2) <= REGISTERS)
  }

  function CoilsPdu(fc: Byte, coils: seq<bool>): (pdu: seq<Byte>)
    requires |coils| <= 8 * COIL_BYTES
    ensures |pdu| == 2 + BytesFor(|coils|) == 2 + pdu[1] as int && pdu[0] == fc
  {
    [fc, BytesFor(|coils|)] + PackBits(coils)
  }

  function ReadBits(fc: Byte, src: seq<bool>, q: RequestState, bank: Bank): Reply
    requires q.count <= 8 * COIL_BYTES
  {
    if q.addr as int + q.count > |src| then Refusal(ErrCallback, bank)
    else Reply(CoilsPdu(fc, src[q.addr..q.addr as int + q.count]), bank)
  }

  function RegistersPdu(fc: Byte, words: seq<Word>): (pdu: seq<Byte>)
    requires |words| <= 125
    ensures |pdu| == 2 + 2 * |words| == 2 + pdu[1] as int && pdu[0] == fc
  {
    [fc, 2 * |words|] + PutWords(words)
  }

  /** A register response, when the callback answered. */
  function RegistersReply(fc: Byte, read: Option<seq<Word>>, bank: Bank): Reply
    requires read.Some? ==> |read.value| <= 125
  {
    if read.None? then Refusal(ErrCallback, bank) else Reply(RegistersPdu(fc, read.value), bank)
  }

  function MaskBits(cur: bv16, andMask: bv16, orMask: bv16): bv16 {
    (cur & andMask) | orMask
  }

  function Masked(cur: Word, andMask: Word, orMask: Word): Word {
    MaskBits(cur as bv16, andMask as bv16, orMask as bv16) as int
  }

  /** The byte count of a server ID: the low byte of the first register of its block, capped at 126. */
  function ServerIdCount(block: seq<Word>): (n: nat)
    requires |block| == 64
    ensures n <= 126
  {
    if block[0] % 0x100 > 126 then 126 else block[0] % 0x100
  }

  function ServerIdPdu(block: seq<Word>): (pdu: seq<Byte>)
    requires |block| == 64
    ensures 2 <= |pdu| <= 128 && |pdu| == 2 + pdu[1] as int && pdu[0] == 0x11
  {
    var byteCount := ServerIdCount(block);
    [0x11, byteCount] + PutWords(block[1..1 + (byteCount + 1) / 2])[..byteCount]
  }

  /** How many registers a queue response carries: the first register of its block, capped at 127. */
  function QueueCount(block: seq<Word>): (n: nat)
    requires |block| == 128
    ensures n <= 127
  {
    if block[0] > 127 then 127 else block[0]
  }

  /** The queue response as it is written into the buffer. Its length is then taken one byte too short. */
  function QueueBytes(block: seq<Word>): (s: seq<Byte>)
    requires |block| == 128
    ensures |s| == 5 + 2 * QueueCount(block) && s[0] == 0x18
  {
    var n := QueueCount(block);
    [0x18] + Put16(2 * n + 2) + Put16(n) + PutWords(block[1..1 + n])
  }

  function QueuePdu(block: seq<Word>): (pdu: seq<Byte>)
    requires |block| == 128
    ensures |pdu| == 4 + 2 * QueueCount(block) && pdu[0] == 0x18
  {
    QueueBytes(block)[..4 + 2 * QueueCount(block)]
  }

  /** `pa_modbus_slave_respond`, up to the framing. */
  function Respond(cb: Callbacks, q: RequestState, bank: Bank): (r: Reply)
    requires Answerable(q)
  {
    var fc := q.lastFunction;
    if fc == 0x01 then
      if !cb.readCoils then Refusal(ErrState, bank) else ReadBits(fc, bank.coils, q, bank)
    else if fc == 0x02 then
      if !cb.readDiscrete then Refusal(ErrState, bank) else ReadBits(fc, bank.discrete, q, bank)
    else if fc == 0x03 then
      if !cb.readHolding then Refusal(ErrState, bank) else RegistersReply(fc, ReadHolding(bank, q.addr, q.count), bank)
    else if fc == 0x04 then
      if !cb.readInput then Refusal(ErrState, bank) else RegistersReply(fc, ReadInput(bank, q.addr, q.count), bank)
    else if fc == 0x05 then
      if !cb.writeCoil then Refusal(ErrState, bank)
      else if q.addr >= |bank.coils| then Refusal(ErrCallback, bank)
      else Reply(WriteCoilPdu(q.addr, q.coils[0] != 0), bank.(coils := bank.coils[q.addr := q.coils[0] != 0]))
    else if fc == 0x06 then
      if !cb.writeRegister then Refusal(ErrState, bank)
      else if q.addr >= |bank.holding| then Refusal(ErrCallback, bank)
      else Reply(WriteRegisterPdu(q.addr, q.regs[0]), bank.(holding := bank.holding[q.addr := q.regs[0]]))
    else if fc == 0x07 then
      if !cb.readCoils then Refusal(ErrState, bank)
      else if |bank.coils| < 8 then Refusal(ErrCallback, bank)
      else Reply([fc, PackBits(bank.coils[..8])[0]], bank)
    else if fc == 0x08 then
      Reply([fc] + Put16(q.addr) + Put16(q.regs[0]), bank)
    else if fc == 0x0B then
      if !cb.readHolding then Refusal(ErrState, bank) else
      var read := ReadHolding(bank, 0xFFFE, 2);
      if read.None? then Refusal(ErrCallback, bank) else Reply([fc] + PutWords(read.value), bank)
    else if fc == 0x0C then
      if !cb.readHolding then Refusal(ErrState, bank) else
      var read := ReadHolding(bank, EVENT_LOG_ADDR, 5);
      if read.None? then Refusal(ErrCallback, bank) else Reply([fc, 10] + PutWords(read.value), bank)
    else if fc == 0x0F then
      if !cb.writeCoils then Refusal(ErrState, bank) else
      var bank' := bank.(coils := WriteCoilsFrom(bank.coils, q.addr, UnpackBits(q.coils, q.count)));
      if !HasCoils(bank.coils, q.addr, q.count) then Refusal(ErrCallback, bank')
      else Reply([fc] + Put16(q.addr) + Put16(q.count), bank')
    else if fc == 0x10 then
      if !cb.writeRegisters then Refusal(ErrState, bank)
      else if q.addr as int + q.count > |bank.holding| then Refusal(ErrCallback, bank)
      else Reply([fc] + Put16(q.addr) + Put16(q.count),
                 bank.(holding := Splice(bank.holding, q.addr, q.regs[..q.count])))
    else if fc == 0x11 then
      if !cb.readHolding then Refusal(ErrState, bank) else
      var read := ReadHolding(bank, SERVER_ID_ADDR, 64);
      if read.None? then Refusal(ErrCallback, bank) else Reply(ServerIdPdu(read.value), bank)
    else if fc == 0x16 then
      if !cb.writeRegister then Refusal(ErrState, bank) else
      var reply := MaskWritePdu(q.addr, q.regs[0], q.regs[1]);
      // a failed read is answered like a success, and nothing is written
      if cb.readHolding && q.addr < |bank.holding| then
        Reply(reply, bank.(holding := bank.holding[q.addr := Masked(bank.holding[q.addr], q.regs[0], q.regs[1])]))
      else Reply(reply, bank)
    else if fc == 0x17 then
      if !cb.readHolding || !cb.writeRegisters then Refusal(ErrState, bank) else
      var writeAddr, writeCount := Get16(q.coils, 0), Get16(q.coils, 2);
      if writeAddr as int + writeCount > |bank.holding| then Refusal(ErrCallback, bank) else
      var bank' := bank.(holding := Splice(bank.holding, writeAddr, q.regs[..writeCount]));
      RegistersReply(fc, ReadHolding(bank', q.addr, q.count), bank')
    else if fc == 0x18 then
      if !cb.readHolding then Refusal(ErrState, bank) else
      var read := ReadHolding(bank, q.addr, 128);
      if read.None? then Refusal(ErrCallback, bank) else Reply(QueuePdu(read.value), bank)
    else Refusal(ErrProtocol, bank)
  }

  /** `pa_modbus_slave_respond_error`, up to the framing. */
  function ExceptionPdu(q: RequestState, code: Byte): seq<Byte> {
    [if q.lastFunction >= 0x80 then q.lastFunction else q.lastFunction + 0x80, code]
  }
}
