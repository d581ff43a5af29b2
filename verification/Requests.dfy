/** The requests of a master: their PDUs, and the builders that write and frame them in place. */
module Requests {
  import opened Bytes
  import opened Bits
  import opened Status
  import opened RtuFramer

  /** FC 01 to 04: read coils, discrete inputs, holding registers, input registers. */
  function ReadPdu(fc: Byte, addr: Word, count: Word): seq<Byte> {
    [fc] + Put16(addr) + Put16(count)
  }

  function WriteCoilPdu(addr: Word, on: bool): seq<Byte> {
    [0x05] + Put16(addr) + Put16(if on then 0xFF00 else 0x0000)
  }

  function WriteRegisterPdu(addr: Word, value: Word): seq<Byte> {
    [0x06] + Put16(addr) + Put16(value)
  }

  function WriteCoilsPdu(addr: Word, coils: seq<bool>): seq<Byte>
    requires |coils| <= 1968
  {
    [0x0F] + Put16(addr) + Put16(|coils|) + [BytesFor(|coils|)] + PackBits(coils)
  }

  function WriteRegistersPdu(addr: Word, values: seq<Word>): seq<Byte>
    requires |values| <= 123
  {
    [0x10] + Put16(addr) + Put16(|values|) + [2 * |values|] + PutWords(values)
  }

  const REPORT_SERVER_ID_PDU: seq<Byte> := [0x11]

  function MaskWritePdu(addr: Word, andMask: Word, orMask: Word): seq<Byte> {
    [0x16] + Put16(addr) + Put16(andMask) + Put16(orMask)
  }

  function ReadWritePdu(readAddr: Word, readCount: Word, writeAddr: Word, values: seq<Word>): seq<Byte>
    requires |values| <= 121
  {
    [0x17] + Put16(readAddr) + Put16(readCount) + Put16(writeAddr) + Put16(|values|)
    + [2 * |values|] + PutWords(values)
  }

  /** The PDUs the builders accept to build. */
  ghost predicate Buildable(pdu: seq<Byte>) {
    || (exists fc: Byte, addr: Word, count: Word ::
          0x01 <= fc <= 0x04 && 1 <= count <= (if fc <= 0x02 then 2000 else 125) && pdu == ReadPdu(fc, addr, count))
    || (exists addr: Word, on: bool :: pdu == WriteCoilPdu(addr, on))
    || (exists addr: Word, value: Word :: pdu == WriteRegisterPdu(addr, value))
    || (exists addr: Word, coils: seq<bool> :: 1 <= |coils| <= 1968 && pdu == WriteCoilsPdu(addr, coils))
    || (exists addr: Word, values: seq<Word> :: 1 <= |values| <= 123 && pdu == WriteRegistersPdu(addr, values))
    || pdu == REPORT_SERVER_ID_PDU
    || (exists addr: Word, andMask: Word, orMask: Word :: pdu == MaskWritePdu(addr, andMask, orMask))
    || (exists readAddr: Word, readCount: Word, writeAddr: Word, values: seq<Word> ::
          1 <= readCount <= 125 && 1 <= |values| <= 121 && pdu == ReadWritePdu(readAddr, readCount, writeAddr, values))
  }

  /** The coils a builder's `values` stand for: nonzero is on. */
  function Truths(values: seq<Byte>): (coils: seq<bool>)
    ensures |coils| == |values|
  {
    seq(|values|, i requires 0 <= i < |values| => values[i] != 0)
  }

  /** The transmit side of a context, and what sending a PDU makes of it. */
  datatype TxState = TxState(buf: seq<Byte>, len: nat) {
    /** The PDU written at the front of the buffer, and framed there when the frame fits. */
    function Send(slave: Byte, pdu: seq<Byte>): (TxState, Result<nat>)
      requires |pdu| <= |buf|
    {
      if |pdu| + 3 > |buf| then (TxState(pdu + buf[|pdu|..], len), Failure(ErrBufferFull))
      else (TxState(Frame(slave, pdu) + buf[|pdu| + 3..], |pdu| + 3), Success(|pdu| + 3))
    }
  }

  class Transmitter {
    const txbuf: array<Byte>
    var txLen: nat
    var slave: Byte

    constructor (size: nat, slave: Byte)
      ensures fresh(txbuf) && txbuf.Length == size && txLen == 0 && this.slave == slave
    {
      txbuf := new Byte[size](_ => 0);
      txLen := 0;
      this.slave := slave;
    }

    ghost function State(): TxState
      reads this, txbuf
    {
      TxState(txbuf[..], txLen)
    }

    /** Frames `pdu`, which has just been written over the front of the buffer `was`. */
    method Finish(pduLen: nat, ghost was: seq<Byte>, ghost pdu: seq<Byte>) returns (r: Result<nat>)
      requires pduLen == |pdu| <= txbuf.Length == |was|
      requires txbuf[..] == pdu + was[pduLen..]
      modifies this`txLen, txbuf
      ensures (State(), r) == TxState(was, old(txLen)).Send(slave, pdu)
    {
      assert txbuf[..pduLen] == pdu;
      r := Wrap(txbuf, slave, pduLen);
      if r.Success? {
        txLen := r.value;
        assert old(txbuf[pduLen + 3..]) == was[pduLen + 3..];
      }
    }

    method PutWord(at: nat, w: Word)
      requires at + 1 < txbuf.Length
      modifies txbuf
      ensures txbuf[..] == old(txbuf[..])[at := w / 0x100][at + 1 := w % 0x100]
    {
      txbuf[at] := w / 0x100;
      txbuf[at + 1] := w % 0x100;
    }

    /** The loop that stores registers big-endian from byte `at` on. */
    method PutRegisters(at: nat, values: seq<Word>)
      requires at + 2 * |values| <= txbuf.Length
      modifies txbuf
      ensures txbuf[..] == old(txbuf[..at]) + PutWords(values) + old(txbuf[at + 2 * |values|..])
    {
      hide PutWords;
      ghost var words := PutWords(values);
      for i := 0 to |values|
        invariant forall k :: 0 <= k < 2 * i ==> txbuf[at + k] == words[k]
        invariant forall k :: 0 <= k < at || at + 2 * i <= k < txbuf.Length ==> txbuf[k] == old(txbuf[k])
      {
        PutWordsAt(values, i);
        txbuf[at + 2 * i] := values[i] / 0x100;
        txbuf[at + 2 * i + 1] := values[i] % 0x100;
      }
      assert txbuf[at..at + |words|] == words;
    }

    method BuildRead(fc: Byte, addr: Word, count: Word) returns (r: Result<nat>)
      requires 0x01 <= fc <= 0x04 && txbuf.Length >= 5
      modifies this`txLen, txbuf
      ensures count < 1 || count > (if fc <= 0x02 then 2000 else 125) ==>
        State() == old(State()) && r == Failure(ErrBadParam)
      ensures 1 <= count <= (if fc <= 0x02 then 2000 else 125) ==>
        (State(), r) == old(State()).Send(slave, ReadPdu(fc, addr, count))
    {
      ghost var was := txbuf[..];
      if count < 1 || count > (if fc <= 0x02 then 2000 else 125) {
        return Failure(ErrBadParam);
      }
      txbuf[0] := fc;
      PutWord(1, addr);
      PutWord(3, count);
      r := Finish(5, was, ReadPdu(fc, addr, count));
    }

    method BuildWriteSingleCoil(addr: Word, value: Byte) returns (r: Result<nat>)
      requires txbuf.Length >= 5
      modifies this`txLen, txbuf
      ensures (State(), r) == old(State()).Send(slave, WriteCoilPdu(addr, value != 0))
    {
      ghost var was := txbuf[..];
      txbuf[0] := 0x05;
      PutWord(1, addr);
      PutWord(3, if value != 0 then 0xFF00 else 0x0000);
      r := Finish(5, was, WriteCoilPdu(addr, value != 0));
    }

    method BuildWriteSingleRegister(addr: Word, value: Word) returns (r: Result<nat>)
      requires txbuf.Length >= 5
      modifies this`txLen, txbuf
      ensures (State(), r) == old(State()).Send(slave, WriteRegisterPdu(addr, value))
    {
      ghost var was := txbuf[..];
      txbuf[0] := 0x06;
      PutWord(1, addr);
      PutWord(3, value);
      r := Finish(5, was, WriteRegisterPdu(addr, value));
    }

    method BuildWriteMultipleCoils(addr: Word, values: seq<Byte>, count: Word) returns (r: Result<nat>)
      requires count <= |values|
      modifies this`txLen, txbuf
      ensures count < 1 || count > 1968 ==> State() == old(State()) && r == Failure(ErrBadParam)
      ensures 1 <= count <= 1968 && 6 + BytesFor(count) > txbuf.Length ==>
        State() == old(State()) && r == Failure(ErrBufferFull)
      ensures 1 <= count <= 1968 && 6 + BytesFor(count) <= txbuf.Length ==>
        (State(), r) == old(State()).Send(slave, WriteCoilsPdu(addr, Truths(values[..count])))
    {
      ghost var was := txbuf[..];
      if count < 1 || count > 1968 {
        return Failure(ErrBadParam);
      }
      var byteCount := BytesFor(count);
      var pduLen := 6 + byteCount;
      if pduLen > txbuf.Length {
        return Failure(ErrBufferFull);
      }
      StoreWriteCoils(addr, values[..count]);
      r := Finish(pduLen, was, WriteCoilsPdu(addr, Truths(values[..count])));
    }

    method StoreWriteCoils(addr: Word, values: seq<Byte>)
      requires |values| <= 1968 && 6 + BytesFor(|values|) <= txbuf.Length
      modifies txbuf
      ensures txbuf[..] == WriteCoilsPdu(addr, Truths(values)) + old(txbuf[6 + BytesFor(|values|)..])
    {
      hide PackBits, Truths;
      txbuf[0] := 0x0F;
      PutWord(1, addr);
      PutWord(3, |values|);
      txbuf[5] := BytesFor(|values|);
      forall k | 0 <= k < BytesFor(|values|) {
        txbuf[6 + k] := 0;
      }
      assert txbuf[..6] == [0x0F] + Put16(addr) + Put16(|values|) + [BytesFor(|values|)];
      SetCoils(values);
    }

    /** The loop that sets one bit of the payload per nonzero value. */
    method SetCoils(values: seq<Byte>)
      requires 6 + BytesFor(|values|) <= txbuf.Length
      requires forall k :: 6 <= k < 6 + BytesFor(|values|) ==> txbuf[k] == 0
      modifies txbuf
      ensures txbuf[..] == old(txbuf[..6]) + PackBits(Truths(values)) + old(txbuf[6 + BytesFor(|values|)..])
    {
      hide PackFrom, SetBit;
      var byteCount := BytesFor(|values|);
      ghost var coils := Truths(values);
      forall k: nat | k < byteCount
        ensures PackFrom(coils[..0], 8 * k, 0) == 0
      {
        PackNothing(8 * k, 0);
      }
      for i := 0 to |values|
        invariant txbuf[..6] == old(txbuf[..6]) && txbuf[6 + byteCount..] == old(txbuf[6 + byteCount..])
        invariant forall k: nat :: k < byteCount ==> txbuf[6 + k] == PackFrom(coils[..i], 8 * k, 0)
      {
        forall k: nat | k < byteCount
          ensures PackFrom(coils[..i + 1], 8 * k, 0)
               == if k == i / 8 && coils[i] then SetBit(txbuf[6 + k], i % 8) else txbuf[6 + k]
        {
          PackGrow(coils, i, k);
        }
        if values[i] != 0 {
          txbuf[6 + i / 8] := SetBit(txbuf[6 + i / 8], i % 8);
        }
      }
      assert coils[..|values|] == coils;
    }

    method BuildWriteMultipleRegisters(addr: Word, values: seq<Word>, count: Word) returns (r: Result<nat>)
      requires count <= |values|
      modifies this`txLen, txbuf
      ensures count < 1 || count > 123 ==> State() == old(State()) && r == Failure(ErrBadParam)
      ensures 1 <= count <= 123 && 6 + 2 * count > txbuf.Length ==>
        State() == old(State()) && r == Failure(ErrBufferFull)
      ensures 1 <= count <= 123 && 6 + 2 * count <= txbuf.Length ==>
        (State(), r) == old(State()).Send(slave, WriteRegistersPdu(addr, values[..count]))
    {
      ghost var was := txbuf[..];
      if count < 1 || count > 123 {
        return Failure(ErrBadParam);
      }
      var byteCount := 2 * count;
      var pduLen := 6 + byteCount;
      if pduLen > txbuf.Length {
        return Failure(ErrBufferFull);
      }
      StoreWriteRegisters(addr, values[..count]);
      r := Finish(pduLen, was, WriteRegistersPdu(addr, values[..count]));
    }

    method StoreWriteRegisters(addr: Word, values: seq<Word>)
      requires |values| <= 123 && 6 + 2 * |values| <= txbuf.Length
      modifies txbuf
      ensures txbuf[..] == WriteRegistersPdu(addr, values) + old(txbuf[6 + 2 * |values|..])
    {
      hide PutWords;
      txbuf[0] := 0x10;
      PutWord(1, addr);
      PutWord(3, |values|);
      txbuf[5] := 2 * |values|;
      assert txbuf[..6] == [0x10] + Put16(addr) + Put16(|values|) + [2 * |values|];
      PutRegisters(6, values);
    }

    method BuildReportServerId() returns (r: Result<nat>)
      requires txbuf.Length >= 1
      modifies this`txLen, txbuf
      ensures (State(), r) == old(State()).Send(slave, REPORT_SERVER_ID_PDU)
    {
      ghost var was := txbuf[..];
      txbuf[0] := 0x11;
      r := Finish(1, was, REPORT_SERVER_ID_PDU);
    }

    method BuildMaskWrite(addr: Word, andMask: Word, orMask: Word) returns (r: Result<nat>)
      requires txbuf.Length >= 7
      modifies this`txLen, txbuf
      ensures (State(), r) == old(State()).Send(slave, MaskWritePdu(addr, andMask, orMask))
    {
      ghost var was := txbuf[..];
      txbuf[0] := 0x16;
      PutWord(1, addr);
      PutWord(3, andMask);
      PutWord(5, orMask);
      r := Finish(7, was, MaskWritePdu(addr, andMask, orMask));
    }

    method BuildReadWrite(readAddr: Word, readCount: Word, writeAddr: Word, values: seq<Word>, writeCount: Word)
      returns (r: Result<nat>)
      requires writeCount <= |values|
      modifies this`txLen, txbuf
      ensures !(1 <= readCount <= 125 && 1 <= writeCount <= 121) ==>
        State() == old(State()) && r == Failure(ErrBadParam)
      ensures 1 <= readCount <= 125 && 1 <= writeCount <= 121 && 10 + 2 * writeCount > txbuf.Length ==>
        State() == old(State()) && r == Failure(ErrBufferFull)
      ensures 1 <= readCount <= 125 && 1 <= writeCount <= 121 && 10 + 2 * writeCount <= txbuf.Length ==>
        (State(), r) == old(State()).Send(slave, ReadWritePdu(readAddr, readCount, writeAddr, values[..writeCount]))
    {
      ghost var was := txbuf[..];
      if readCount < 1 || readCount > 125 {
        return Failure(ErrBadParam);
      }
      if writeCount < 1 || writeCount > 121 {
        return Failure(ErrBadParam);
      }
      var byteCount := 2 * writeCount;
      var pduLen := 10 + byteCount;
      if pduLen > txbuf.Length {
        return Failure(ErrBufferFull);
      }
      StoreReadWrite(readAddr, readCount, writeAddr, values[..writeCount]);
      r := Finish(pduLen, was, ReadWritePdu(readAddr, readCount, writeAddr, values[..writeCount]));
    }

    method StoreReadWrite(readAddr: Word, readCount: Word, writeAddr: Word, values: seq<Word>)
      requires |values| <= 121 && 10 + 2 * |values| <= txbuf.Length
      modifies txbuf
      ensures txbuf[..] == ReadWritePdu(readAddr, readCount, writeAddr, values) + old(txbuf[10 + 2 * |values|..])
    {
      hide PutWords;
      txbuf[0] := 0x17;
      PutWord(1, readAddr);
      PutWord(3, readCount);
      PutWord(5, writeAddr);
      PutWord(7, |values|);
      txbuf[9] := 2 * |values|;
      assert txbuf[..10] == [0x17] + Put16(readAddr) + Put16(readCount) + Put16(writeAddr) + Put16(|values|)
                          + [2 * |values|];
      PutRegisters(10, values);
    }
  }
}
