/** The responder as the library runs it: reading the parsed request, calling the register callbacks,
    and writing the response into the transmit buffer. */
module Slave {
  import opened Bytes
  import opened Bits
  import opened Status
  import opened RtuFramer
  import opened Requests
  import opened Responder
  import opened SlaveRequests

  /** The application's registers and coils behind the callbacks. */
  class Store {
    const callbacks: Callbacks
    var bank: Bank

    constructor (callbacks: Callbacks, bank: Bank)
      ensures this.callbacks == callbacks && this.bank == bank
    {
      this.callbacks, this.bank := callbacks, bank;
    }

    /** Writes coil by coil, at 16-bit addresses, and stops at the first one the store does not have. */
    method WriteCoils(addr: Word, values: seq<bool>) returns (ok: bool)
      requires |values| < 0x1_0000
      modifies this
      ensures bank == old(bank).(coils := WriteCoilsFrom(old(bank.coils), addr, values))
      ensures ok <==> HasCoils(old(bank.coils), addr, |values|)
    {
      hide WriteCoilsFrom;
      ghost var was := bank;
      WriteNothing(was.coils, addr, values);
      for i := 0 to |values|
        invariant i == 0 || HasCoils(was.coils, addr, i)
        invariant bank == was.(coils := WriteCoilsFrom(was.coils, addr, values[..i]))
      {
        WriteOneMore(was.coils, addr, values, i);
        var at := (addr as int + i) % 0x1_0000;
        if at >= |bank.coils| {
          return false;
        }
        bank := bank.(coils := bank.coils[at := values[i]]);
      }
      assert values[..|values|] == values;
      ok := true;
    }

    method WriteRegisters(addr: nat, values: seq<Word>) returns (ok: bool)
      modifies this
      ensures ok <==> addr + |values| <= |old(bank.holding)|
      ensures bank == if ok then old(bank).(holding := Splice(old(bank.holding), addr, values)) else old(bank)
    {
      if addr + |values| > |bank.holding| {
        return false;
      }
      ghost var was := bank;
      for i := 0 to |values|
        invariant bank == was.(holding := bank.holding)
        invariant bank.holding == Splice(was.holding, addr, values[..i])
      {
        bank := bank.(holding := bank.holding[addr + i := values[i]]);
      }
      assert values[..|values|] == values;
      ok := true;
    }
  }

  lemma WriteNothing(coils: Space<bool>, at: Word, values: seq<bool>)
    ensures WriteCoilsFrom(coils, at, values[..0]) == coils
  {
  }

  lemma SpliceSnoc<T>(s: seq<T>, at: nat, ws: seq<T>, w: T)
    requires at + |ws| < |s|
    ensures Splice(s, at, ws + [w]) == Splice(s, at, ws)[at + |ws| := w]
  {
  }

  /** One coil more is one update, until the store ends; from there on nothing changes. */
  lemma WriteOneMore(coils: Space<bool>, at: Word, values: seq<bool>, i: nat)
    requires i < |values| < 0x1_0000 && (i == 0 || HasCoils(coils, at, i))
    ensures var was := WriteCoilsFrom(coils, at, values[..i]);
      var next := (at as int + i) % 0x1_0000;
      && (next < |coils| ==> WriteCoilsFrom(coils, at, values[..i + 1]) == was[next := values[i]])
      && (next >= |coils| ==> WriteCoilsFrom(coils, at, values) == was && !HasCoils(coils, at, |values|))
  {
    hide WriteCoilsFrom;
    if at as int + i < |coils| {
      WriteWithin(coils, at, values, i);
    } else if |coils| == 0x1_0000 {
      WriteWrapped(coils, at, values, i);
    } else {
      WriteEnds(coils, at, values, i);
    }
  }

  lemma WriteWithin(coils: Space<bool>, at: Word, values: seq<bool>, i: nat)
    requires i < |values| < 0x1_0000 && at as int + i < |coils|
    ensures WriteCoilsFrom(coils, at, values[..i + 1])
         == WriteCoilsFrom(coils, at, values[..i])[at as int + i := values[i]]
  {
    hide Splice;
    assert values[..i + 1] == values[..i] + [values[i]];
    SpliceSnoc(coils, at, values[..i], values[i]);
  }

  lemma WriteEnds(coils: Space<bool>, at: Word, values: seq<bool>, i: nat)
    requires i < |values| < 0x1_0000 && |coils| <= at as int + i && |coils| < 0x1_0000
    requires i == 0 || at as int + i <= |coils|
    ensures WriteCoilsFrom(coils, at, values) == WriteCoilsFrom(coils, at, values[..i])
  {
    hide Splice;
    if i == 0 {
      WriteNothing(coils, at, values);
    } else {
      assert values[..|coils| - at] == values[..i];
    }
    if at as int == |coils| {
      WriteNothing(coils, at, values);
      assert values[..i] == values[..0];
    }
  }

  lemma WriteWrapped(coils: Space<bool>, at: Word, values: seq<bool>, i: nat)
    requires i < |values| < 0x1_0000 && |coils| == 0x1_0000 && at as int + i >= 0x1_0000
    ensures WriteCoilsFrom(coils, at, values[..i + 1])
         == WriteCoilsFrom(coils, at, values[..i])[at as int + i - 0x1_0000 := values[i]]
  {
    hide Splice;
    var n := 0x1_0000 - at;
    var written := Splice(coils, at, values[..n]);
    assert values[..i + 1][..n] == values[..n] && values[..i + 1][n..] == values[n..i] + [values[i]];
    SpliceSnoc(written, 0, values[n..i], values[i]);
    if i > n {
      assert values[..i][..n] == values[..n] && values[..i][n..] == values[n..i];
    } else {
      SpliceNothing(written);
    }
  }

  lemma SpliceNothing<T>(s: seq<T>)
    ensures Splice(s, 0, []) == s
  {
  }

  /** The response PDU stands at the front of the buffer, or the error is passed on. */
  ghost predicate Built(reply: Reply, p: Result<nat>, buf: seq<Byte>, bank: Bank) {
    && bank == reply.bank
    && match reply
       case Refusal(error, _) => p == Failure(error)
       case Reply(pdu, _) => p == Success(|pdu|) && pdu <= buf
  }

  /** The response frame stands at the front of the buffer, or the error is passed on. */
  ghost predicate Framed(reply: Reply, r: Result<nat>, buf: seq<Byte>, bank: Bank, slave: Byte) {
    && bank == reply.bank
    && match reply
       case Refusal(error, _) => r == Failure(error)
       case Reply(pdu, _) =>
         if |pdu| + 3 > |buf| then r == Failure(ErrBufferFull)
         else r == Success(|pdu| + 3) && Frame(slave, pdu) <= buf
  }

  /** How many bytes of the transmit buffer a response is written over: an odd server ID and a queue take one
      more than they are long. */
  function Footprint(pdu: seq<Byte>): nat
    requires |pdu| >= 1
  {
    if pdu[0] == 0x11 then |pdu| + |pdu| % 2 else if pdu[0] == 0x18 then |pdu| + 1 else |pdu|
  }

  class Slave {
    const request: SlaveRequest
    const tx: Transmitter
    const store: Store

    constructor (request: SlaveRequest, tx: Transmitter, store: Store)
      ensures this.request == request && this.tx == tx && this.store == store
    {
      this.request, this.tx, this.store := request, tx, store;
    }

    /** Buffers are separate. */
    ghost predicate Valid()
      reads request
    {
      request.Valid() && tx.txbuf != request.coils
    }

    ghost function Expected(): Reply
      reads request, request.coils, request.regs, store
      requires Valid() && Answerable(request.State())
    {
      Responder.Respond(store.callbacks, request.State(), store.bank)
    }

    /** The transmit buffer has room for what the response is written over. */
    ghost predicate Fits()
      reads request, request.coils, request.regs, store
      requires Valid() && Answerable(request.State())
    {
      Expected().Reply? ==> |Expected().pdu| >= 1 && Footprint(Expected().pdu) <= tx.txbuf.Length
    }

    /** `pa_modbus_slave_respond`. */
    method Respond() returns (r: Result<nat>)
      requires Valid() && Answerable(request.State()) && Fits()
      modifies tx`txLen, tx.txbuf, store
      ensures Valid() && request.State() == old(request.State())
      ensures Framed(old(Expected()), r, tx.txbuf[..], store.bank, tx.slave)
      ensures tx.txLen == if r.Success? then r.value else old(tx.txLen)
    {
      hide Responder.Respond, Frame;
      var p: Result<nat>;
      var fc := request.lastFunction;
      if fc == 0x01 || fc == 0x02 {
        p := BuildBits();
      } else if fc == 0x03 || fc == 0x04 {
        p := BuildRegisters();
      } else if fc == 0x05 || fc == 0x06 || fc == 0x16 {
        p := BuildWriteSingle();
      } else if fc == 0x0F || fc == 0x10 {
        p := BuildWriteMultiple();
      } else if fc == 0x11 {
        p := BuildServerId();
      } else if fc == 0x17 {
        p := BuildReadWrite();
      } else if fc == 0x18 {
        p := BuildQueue();
      } else {
        p := BuildDiagnostics();
      }
      r := FinishReply(p, old(Expected()));
    }

    /** Frames a response that has been built, or passes its error on. */
    method FinishReply(p: Result<nat>, ghost reply: Reply) returns (r: Result<nat>)
      requires Built(reply, p, tx.txbuf[..], store.bank)
      modifies tx`txLen, tx.txbuf
      ensures Framed(reply, r, tx.txbuf[..], store.bank, tx.slave)
      ensures tx.txLen == if r.Success? then r.value else old(tx.txLen)
    {
      hide Frame;
      if p.Failure? {
        return p;
      }
      ghost var pdu := tx.txbuf[..p.value];
      assert reply.Reply? && reply.pdu == pdu;
      r := tx.Finish(p.value, tx.txbuf[..], pdu);
      assert r.Success? ==> tx.txbuf[..r.value] == Frame(tx.slave, pdu);
    }

    method BuildBits() returns (p: Result<nat>)
      requires Valid() && Answerable(request.State()) && Fits() && request.lastFunction in {0x01, 0x02}
      modifies tx.txbuf
      ensures Built(old(Expected()), p, tx.txbuf[..], store.bank)
    {
      hide PackBits;
      var fc, addr, count := request.lastFunction, request.addr, request.count;
      if !(if fc == 0x01 then store.callbacks.readCoils else store.callbacks.readDiscrete) {
        return Failure(ErrState);
      }
      var src := if fc == 0x01 then store.bank.coils else store.bank.discrete;
      if addr as int + count > |src| {
        return Failure(ErrCallback);
      }
      var byteCount := BytesFor(count);
      var coilData := PackBits(src[addr..addr as int + count]);
      tx.txbuf[0], tx.txbuf[1] := fc, byteCount;
      forall i | 0 <= i < byteCount {
        tx.txbuf[2 + i] := coilData[i];
      }
      assert tx.txbuf[..2 + byteCount] == CoilsPdu(fc, src[addr..addr as int + count]);
      p := Success(2 + byteCount);
    }

    method BuildRegisters() returns (p: Result<nat>)
      requires Valid() && Answerable(request.State()) && Fits() && request.lastFunction in {0x03, 0x04}
      modifies tx.txbuf
      ensures Built(old(Expected()), p, tx.txbuf[..], store.bank)
    {
      var fc, addr, count := request.lastFunction, request.addr, request.count;
      if !(if fc == 0x03 then store.callbacks.readHolding else store.callbacks.readInput) {
        return Failure(ErrState);
      }
      var read := if fc == 0x03 then ReadHolding(store.bank, addr, count) else ReadInput(store.bank, addr, count);
      if read.None? {
        return Failure(ErrCallback);
      }
      PutResponse(fc, read.value);
      p := Success(2 + 2 * count);
    }

    /** Function code, byte count, and the loop over the registers. */
    method PutResponse(fc: Byte, words: seq<Word>)
      requires |words| <= 125 && 2 + 2 * |words| <= tx.txbuf.Length
      modifies tx.txbuf
      ensures RegistersPdu(fc, words) <= tx.txbuf[..]
    {
      hide PutWords;
      tx.txbuf[0], tx.txbuf[1] := fc, 2 * |words|;
      tx.PutRegisters(2, words);
      assert tx.txbuf[..2 + 2 * |words|] == RegistersPdu(fc, words);
    }

    method BuildWriteSingle() returns (p: Result<nat>)
      requires Valid() && Answerable(request.State()) && Fits() && request.lastFunction in {0x05, 0x06, 0x16}
      modifies tx.txbuf, store
      ensures Built(old(Expected()), p, tx.txbuf[..], store.bank)
    {
      var fc, addr := request.lastFunction, request.addr;
      var bank := store.bank;
      if !(if fc == 0x05 then store.callbacks.writeCoil else store.callbacks.writeRegister) {
        return Failure(ErrState);
      }
      if fc == 0x05 {
        var on := request.coils[0] != 0;
        if addr >= |bank.coils| {
          return Failure(ErrCallback);
        }
        store.bank := bank.(coils := bank.coils[addr := on]);
        PutHeader(fc, addr, if on then 0xFF00 else 0x0000);
        p := Success(5);
      } else if fc == 0x06 {
        var value := request.regs[0];
        if addr >= |bank.holding| {
          return Failure(ErrCallback);
        }
        store.bank := bank.(holding := bank.holding[addr := value]);
        PutHeader(fc, addr, value);
        p := Success(5);
      } else {
        var andMask, orMask := request.regs[0], request.regs[1];
        if store.callbacks.readHolding && addr < |bank.holding| {
          store.bank := bank.(holding := bank.holding[addr := Masked(bank.holding[addr], andMask, orMask)]);
        }
        PutHeader(fc, addr, andMask);
        tx.PutWord(5, orMask);
        assert tx.txbuf[..7] == MaskWritePdu(addr, andMask, orMask);
        p := Success(7);
      }
    }

    method PutHeader(fc: Byte, a: Word, b: Word)
      requires tx.txbuf.Length >= 5
      modifies tx.txbuf
      ensures tx.txbuf[..5] == [fc] + Put16(a) + Put16(b)
    {
      tx.txbuf[0] := fc;
      tx.PutWord(1, a);
      tx.PutWord(3, b);
    }

    method BuildWriteMultiple() returns (p: Result<nat>)
      requires Valid() && Answerable(request.State()) && Fits() && request.lastFunction in {0x0F, 0x10}
      modifies tx.txbuf, store
      ensures Built(old(Expected()), p, tx.txbuf[..], store.bank)
    {
      var fc, addr, count := request.lastFunction, request.addr, request.count;
      if !(if fc == 0x0F then store.callbacks.writeCoils else store.callbacks.writeRegisters) {
        return Failure(ErrState);
      }
      var ok: bool;
      if fc == 0x0F {
        ok := store.WriteCoils(addr, UnpackBits(request.coils[..], count));
      } else {
        ok := store.WriteRegisters(addr, request.regs[..count]);
      }
      if !ok {
        return Failure(ErrCallback);
      }
      PutHeader(fc, addr, count);
      p := Success(5);
    }

    method BuildServerId() returns (p: Result<nat>)
      requires Valid() && Answerable(request.State()) && Fits() && request.lastFunction == 0x11
      modifies tx.txbuf
      ensures Built(old(Expected()), p, tx.txbuf[..], store.bank)
    {
      hide PutWords;
      if !store.callbacks.readHolding {
        return Failure(ErrState);
      }
      var read := ReadHolding(store.bank, SERVER_ID_ADDR, 64);
      if read.None? {
        return Failure(ErrCallback);
      }
      var block := read.value;
      var byteCount := block[0] % 0x100;
      if byteCount > 126 {
        byteCount := 126;
      }
      tx.txbuf[0], tx.txbuf[1] := 0x11, byteCount;
      tx.PutRegisters(2, block[1..1 + (byteCount + 1) / 2]);
      assert tx.txbuf[..2 + byteCount] == ServerIdPdu(block);
      p := Success(2 + byteCount);
    }

    method BuildReadWrite() returns (p: Result<nat>)
      requires Valid() && Answerable(request.State()) && Fits() && request.lastFunction == 0x17
      modifies tx.txbuf, store
      ensures Built(old(Expected()), p, tx.txbuf[..], store.bank)
    {
      hide RegistersPdu, Splice;
      if !store.callbacks.readHolding || !store.callbacks.writeRegisters {
        return Failure(ErrState);
      }
      var coils := request.coils[..4];
      var writeAddr, writeCount := Get16(coils, 0), Get16(coils, 2);
      var addr, count := request.addr, request.count;
      var ok := store.WriteRegisters(writeAddr, request.regs[..writeCount]);
      if !ok {
        return Failure(ErrCallback);
      }
      var read := ReadHolding(store.bank, addr, count);
      if read.None? {
        return Failure(ErrCallback);
      }
      PutResponse(0x17, read.value);
      p := Success(2 + 2 * count);
    }

    /** Byte count, register count and registers; the length returned leaves out the last byte written. */
    method BuildQueue() returns (p: Result<nat>)
      requires Valid() && Answerable(request.State()) && Fits() && request.lastFunction == 0x18
      modifies tx.txbuf
      ensures Built(old(Expected()), p, tx.txbuf[..], store.bank)
    {
      hide PutWords;
      if !store.callbacks.readHolding {
        return Failure(ErrState);
      }
      var read := ReadHolding(store.bank, request.addr, 128);
      if read.None? {
        return Failure(ErrCallback);
      }
      var block := read.value;
      var count := QueueCount(block);
      PutHeader(0x18, 2 * count + 2, count);
      ghost var header := tx.txbuf[..5];
      tx.PutRegisters(5, block[1..1 + count]);
      assert tx.txbuf[..5 + 2 * count] == header + PutWords(block[1..1 + count]) == QueueBytes(block);
      assert tx.txbuf[..4 + 2 * count] == tx.txbuf[..5 + 2 * count][..4 + 2 * count];
      p := Success(4 + 2 * count);
    }

    method BuildDiagnostics() returns (p: Result<nat>)
      requires Valid() && Answerable(request.State()) && Fits()
      requires request.lastFunction !in {0x01, 0x02, 0x03, 0x04, 0x05, 0x06, 0x0F, 0x10, 0x11, 0x16, 0x17, 0x18}
      modifies tx.txbuf
      ensures Built(old(Expected()), p, tx.txbuf[..], store.bank)
    {
      hide PutWords;
      var fc, bank := request.lastFunction, store.bank;
      if fc == 0x08 {
        PutHeader(fc, request.addr, request.regs[0]);
        return Success(5);
      }
      if fc != 0x07 && fc != 0x0B && fc != 0x0C {
        return Failure(ErrProtocol);
      }
      if !(if fc == 0x07 then store.callbacks.readCoils else store.callbacks.readHolding) {
        return Failure(ErrState);
      }
      if fc == 0x07 {
        if |bank.coils| < 8 {
          return Failure(ErrCallback);
        }
        tx.txbuf[0], tx.txbuf[1] := fc, PackBits(bank.coils[..8])[0];
        p := Success(2);
      } else if fc == 0x0B {
        var read := ReadHolding(bank, 0xFFFE, 2);
        if read.None? {
          return Failure(ErrCallback);
        }
        tx.txbuf[0] := fc;
        tx.PutRegisters(1, read.value);
        p := Success(5);
      } else {
        var read := ReadHolding(bank, EVENT_LOG_ADDR, 5);
        if read.None? {
          return Failure(ErrCallback);
        }
        tx.txbuf[0], tx.txbuf[1] := fc, 10;
        tx.PutRegisters(2, read.value);
        p := Success(12);
      }
    }

    /** `pa_modbus_slave_respond_error`. */
    method RespondError(code: Byte) returns (r: Result<nat>)
      requires Valid() && tx.txbuf.Length >= 2
      modifies tx`txLen, tx.txbuf
      ensures (tx.State(), r) == old(tx.State()).Send(tx.slave, old(ExceptionPdu(request.State(), code)))
    {
      ghost var was := tx.txbuf[..];
      var fc := request.lastFunction;
      tx.txbuf[0] := if fc >= 0x80 then fc else fc + 0x80;
      tx.txbuf[1] := code;
      r := tx.Finish(2, was, old(ExceptionPdu(request.State(), code)));
    }
  }
}
