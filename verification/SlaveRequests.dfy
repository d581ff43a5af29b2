/** The slave's side of a request: what parsing stores for the responder. */
module SlaveRequests {
  import opened Bytes
  import opened Status
  import opened RtuFramer

  datatype RequestFields = RequestFields(
    lastFunction: Byte, addr: Word, count: Word,
    coils: seq<Byte>, coilCount: nat,
    regs: seq<Word>, regCount: nat,
    dataValid: bool)
  {
    function StoreRegs(ws: seq<Word>): RequestFields
      requires |ws| <= |regs|
    {
      this.(regs := Overwrite(regs, ws), regCount := |ws|, dataValid := true)
    }

    function StoreCoils(bs: seq<Byte>, n: nat): RequestFields
      requires |bs| <= |coils|
    {
      this.(coils := Overwrite(coils, bs), coilCount := n, dataValid := true)
    }
  }

  /** The last parsed request of a context. */
  type RequestState = q: RequestFields | |q.coils| == COIL_BYTES && |q.regs| == REGISTERS
    witness RequestFields(0, 0, 0, seq(COIL_BYTES, _ => 0), 0, seq(REGISTERS, _ => 0), 0, false)

  const INITIAL: RequestState := RequestFields(0, 0, 0, seq(COIL_BYTES, _ => 0), 0, seq(REGISTERS, _ => 0), 0, false)

  /** `parse_slave_request`. */
  function ParseRequest(q: RequestState, pdu: seq<Byte>): (r: (Status, RequestState)) {
    if |pdu| < 1 then (Err(ErrProtocol), q) else
    var q1 := q.(lastFunction := pdu[0], dataValid := false);
    if pdu[0] >= 0x80 then (Err(ErrProtocol), q1) else ParseBody(q1, pdu)
  }

  /** The switch on the function code. */
  function ParseBody(q: RequestState, pdu: seq<Byte>): (r: (Status, RequestState))
    requires |pdu| >= 1
  {
    var fc := pdu[0];
    var bad := (Err(ErrProtocol), q);
    if 0x01 <= fc <= 0x04 then
      if |pdu| < 5 then bad else
      var q1 := q.(addr := Get16(pdu, 1), count := Get16(pdu, 3));
      if 1 <= q1.count <= (if fc <= 0x02 then 2000 else 125) then (Ok, q1) else (Err(ErrBadParam), q1)
    else if fc == 0x05 then
      if |pdu| < 5 then bad
      else (Ok, q.(addr := Get16(pdu, 1), count := 1).StoreCoils([if Get16(pdu, 3) == 0xFF00 then 1 else 0], 1))
    else if fc == 0x06 then
      if |pdu| < 5 then bad
      else (Ok, q.(addr := Get16(pdu, 1), count := 1).StoreRegs([Get16(pdu, 3)]))
    else if fc == 0x07 || fc == 0x0B || fc == 0x0C || fc == 0x11 then
      (Ok, q.(addr := 0, count := 0))
    else if fc == 0x08 then
      if |pdu| < 5 then bad
      else (Ok, q.(addr := Get16(pdu, 1), count := 0).StoreRegs([Get16(pdu, 3)]))
    else if fc == 0x0F then
      if |pdu| < 6 then bad else
      var q1 := q.(addr := Get16(pdu, 1), count := Get16(pdu, 3));
      var byteCount: int := pdu[5];
      if !(1 <= q1.count <= 1968) then (Err(ErrBadParam), q1)
      else if |pdu| < 6 + byteCount || byteCount > COIL_BYTES then (Err(ErrProtocol), q1)
      else (Ok, q1.StoreCoils(pdu[6..6 + byteCount], q1.count))
    else if fc == 0x10 then
      if |pdu| < 6 then bad else
      var q1 := q.(addr := Get16(pdu, 1), count := Get16(pdu, 3));
      var byteCount: int := pdu[5];
      if !(1 <= q1.count <= 123) then (Err(ErrBadParam), q1)
      else if |pdu| < 6 + byteCount then (Err(ErrProtocol), q1)
      else (Ok, q1.StoreRegs(GetWords(pdu, 6, byteCount / 2)))
    else if fc == 0x14 || fc == 0x15 then
      if |pdu| < 2 || |pdu| < 2 + pdu[1] as int then bad
      else (Ok, q.(addr := 0, count := 0).StoreRegs(GetWords(pdu, 2, pdu[1] / 2)))
    else if fc == 0x16 then
      if |pdu| < 7 then bad
      else (Ok, q.(addr := Get16(pdu, 1), count := 1).StoreRegs([Get16(pdu, 3), Get16(pdu, 5)]))
    else if fc == 0x17 then
      if |pdu| < 11 then bad else
      var readCount, writeCount := Get16(pdu, 3), Get16(pdu, 7);
      var byteCount: int := pdu[9];
      if !(1 <= readCount <= 125 && 1 <= writeCount <= 121) then (Err(ErrBadParam), q)
      else if |pdu| < 10 + byteCount then bad
      else
        // the write address and count travel in the coil buffer, which keeps its coil count
        var q1 := q.(addr := Get16(pdu, 1), count := readCount,
                     coils := Overwrite(q.coils, Put16(Get16(pdu, 5)) + Put16(writeCount)));
        (Ok, q1.StoreRegs(GetWords(pdu, 10, byteCount / 2)))
    else if fc == 0x18 then
      if |pdu| < 3 then bad else (Ok, q.(addr := Get16(pdu, 1), count := 0))
    else bad
  }

  function SlaveFeed(q: RequestState, slave: Byte, discovery: Byte, data: seq<Byte>): (r: (Status, RequestState)) {
    match Unwrap(slave, discovery, data)
    case More(missing) => (Wait(missing), q)
    case Rejected(error) => (Err(error), q)
    case Accepted(pdu) => ParseRequest(q, pdu)
  }

  /** The request half of a context, with its two fixed buffers. */
  class SlaveRequest {
    var lastFunction: Byte
    var addr: Word
    var count: Word
    const coils: array<Byte>
    var coilCount: nat
    const regs: array<Word>
    var regCount: nat
    var dataValid: bool

    constructor ()
      ensures fresh(coils) && fresh(regs) && Valid()
      ensures State() == INITIAL
    {
      lastFunction, addr, count, coilCount, regCount, dataValid := 0, 0, 0, 0, 0, false;
      coils := new Byte[COIL_BYTES](_ => 0);
      regs := new Word[REGISTERS](_ => 0);
      new;
      assert coils[..] == seq(COIL_BYTES, _ => 0);
      assert regs[..] == seq(REGISTERS, _ => 0);
    }

    ghost predicate Valid()
      reads this
    {
      coils.Length == COIL_BYTES && regs.Length == REGISTERS
    }

    ghost function State(): RequestState
      reads this, coils, regs
      requires Valid()
    {
      RequestFields(lastFunction, addr, count, coils[..], coilCount, regs[..], regCount, dataValid)
    }

    method StoreWords(s: seq<Byte>, at: nat, n: nat)
      requires Valid() && at + 2 * n <= |s| && n <= REGISTERS
      modifies this`regCount, this`dataValid, regs
      ensures Valid() && State() == old(State()).StoreRegs(GetWords(s, at, n))
    {
      regCount := n;
      LoadWords(regs, s, at, n);
      dataValid := true;
    }

    method CopyCoils(bytes: seq<Byte>, n: nat)
      requires Valid() && |bytes| <= COIL_BYTES
      modifies this`coilCount, this`dataValid, coils
      ensures Valid() && State() == old(State()).StoreCoils(bytes, n)
    {
      forall i | 0 <= i < |bytes| {
        coils[i] := bytes[i];
      }
      coilCount := n;
      dataValid := true;
    }

    method Parse(pdu: seq<Byte>) returns (ret: Status)
      requires Valid()
      modifies this, coils, regs
      ensures Valid() && (ret, State()) == ParseRequest(old(State()), pdu)
    {
      if |pdu| < 1 {
        return Err(ErrProtocol);
      }
      lastFunction := pdu[0];
      dataValid := false;
      if pdu[0] >= 0x80 {
        return Err(ErrProtocol);
      }
      ret := ParseSwitch(pdu);
    }

    method ParseSwitch(pdu: seq<Byte>) returns (ret: Status)
      requires Valid() && |pdu| >= 1
      modifies this, coils, regs
      ensures Valid() && (ret, State()) == ParseBody(old(State()), pdu)
    {
      var fc, len := pdu[0], |pdu|;
      if 0x01 <= fc <= 0x04 {
        if len < 5 {
          return Err(ErrProtocol);
        }
        addr, count := Get16(pdu, 1), Get16(pdu, 3);
        if count < 1 || count > (if fc <= 0x02 then 2000 else 125) {
          return Err(ErrBadParam);
        }
      } else if fc == 0x05 {
        if len < 5 {
          return Err(ErrProtocol);
        }
        addr, count := Get16(pdu, 1), 1;
        CopyCoils([if Get16(pdu, 3) == 0xFF00 then 1 else 0], 1);
      } else if fc == 0x06 || fc == 0x08 {
        if len < 5 {
          return Err(ErrProtocol);
        }
        addr, count := Get16(pdu, 1), if fc == 0x06 then 1 else 0;
        StoreWords(pdu, 3, 1);
        assert GetWords(pdu, 3, 1) == [Get16(pdu, 3)];
      } else if fc == 0x07 || fc == 0x0B || fc == 0x0C || fc == 0x11 {
        addr, count := 0, 0;
      } else if fc == 0x0F {
        ret := ParseWriteCoils(pdu);
        return;
      } else if fc == 0x10 {
        ret := ParseWriteRegisters(pdu);
        return;
      } else if fc == 0x14 || fc == 0x15 {
        if len < 2 || len < 2 + pdu[1] as int {
          return Err(ErrProtocol);
        }
        addr, count := 0, 0;
        StoreWords(pdu, 2, pdu[1] / 2);
      } else if fc == 0x16 {
        if len < 7 {
          return Err(ErrProtocol);
        }
        addr, count := Get16(pdu, 1), 1;
        StoreWords(pdu, 3, 2);
        assert GetWords(pdu, 3, 2) == [Get16(pdu, 3), Get16(pdu, 5)];
      } else if fc == 0x17 {
        ret := ParseReadWrite(pdu);
        return;
      } else if fc == 0x18 {
        if len < 3 {
          return Err(ErrProtocol);
        }
        addr, count := Get16(pdu, 1), 0;
      } else {
        return Err(ErrProtocol);
      }
      ret := Ok;
    }

    method ParseWriteCoils(pdu: seq<Byte>) returns (ret: Status)
      requires Valid() && |pdu| >= 1 && pdu[0] == 0x0F
      modifies this, coils
      ensures Valid() && (ret, State()) == ParseBody(old(State()), pdu)
    {
      if |pdu| < 6 {
        return Err(ErrProtocol);
      }
      addr, count := Get16(pdu, 1), Get16(pdu, 3);
      if count < 1 || count > 1968 {
        return Err(ErrBadParam);
      }
      var byteCount: int := pdu[5];
      if |pdu| < 6 + byteCount || byteCount > COIL_BYTES {
        return Err(ErrProtocol);
      }
      CopyCoils(pdu[6..6 + byteCount], count);
      ret := Ok;
    }

    method ParseWriteRegisters(pdu: seq<Byte>) returns (ret: Status)
      requires Valid() && |pdu| >= 1 && pdu[0] == 0x10
      modifies this, regs
      ensures Valid() && (ret, State()) == ParseBody(old(State()), pdu)
    {
      if |pdu| < 6 {
        return Err(ErrProtocol);
      }
      addr, count := Get16(pdu, 1), Get16(pdu, 3);
      if count < 1 || count > 123 {
        return Err(ErrBadParam);
      }
      var byteCount: int := pdu[5];
      if |pdu| < 6 + byteCount {
        return Err(ErrProtocol);
      }
      StoreWords(pdu, 6, byteCount / 2);
      ret := Ok;
    }

    method ParseReadWrite(pdu: seq<Byte>) returns (ret: Status)
      requires Valid() && |pdu| >= 1 && pdu[0] == 0x17
      modifies this, coils, regs
      ensures Valid() && (ret, State()) == ParseBody(old(State()), pdu)
    {
      if |pdu| < 11 {
        return Err(ErrProtocol);
      }
      var readCount, writeAddr, writeCount := Get16(pdu, 3), Get16(pdu, 5), Get16(pdu, 7);
      if readCount < 1 || readCount > 125 || writeCount < 1 || writeCount > 121 {
        return Err(ErrBadParam);
      }
      var byteCount: int := pdu[9];
      if |pdu| < 10 + byteCount {
        return Err(ErrProtocol);
      }
      addr, count := Get16(pdu, 1), readCount;
      coils[0], coils[1] := writeAddr / 0x100, writeAddr % 0x100;
      coils[2], coils[3] := writeCount / 0x100, writeCount % 0x100;
      assert coils[..] == Overwrite(old(coils[..]), Put16(writeAddr) + Put16(writeCount));
      StoreWords(pdu, 10, byteCount / 2);
      ret := Ok;
    }

    /** `pa_modbus_slave_feed`. */
    method Feed(slave: Byte, discovery: Byte, data: seq<Byte>) returns (ret: Status)
      requires Valid()
      modifies this, coils, regs
      ensures Valid() && (ret, State()) == SlaveFeed(old(State()), slave, discovery, data)
    {
      match Unwrap(slave, discovery, data)
      case More(missing) => ret := Wait(missing);
      case Rejected(error) => ret := Err(error);
      case Accepted(pdu) => ret := Parse(pdu);
    }
  }
}
