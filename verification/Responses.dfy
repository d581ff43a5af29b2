/** The master's side of a response: what parsing stores, and what the accessors read back. */
module Responses {
  import opened Bytes
  import opened Bits
  import opened Status
  import opened RtuFramer

  datatype MasterFields = MasterFields(
    lastFunction: Byte, exception: Byte, lastError: Status,
    coils: seq<Byte>, coilCount: nat,
    regs: seq<Word>, regCount: nat)
  {
    function StoreRegs(ws: seq<Word>): (m: MasterFields)
      requires |ws| <= |regs|
    {
      this.(regs := Overwrite(regs, ws), regCount := |ws|)
    }

    function StoreCoils(bs: seq<Byte>): (m: MasterFields)
      requires |bs| <= |coils|
    {
      this.(coils := Overwrite(coils, bs), coilCount := 8 * |bs|)
    }
  }

  /** The last parse result of a context. */
  type MasterState = m: MasterFields |
    |m.coils| == COIL_BYTES && |m.regs| == REGISTERS && m.coilCount <= 8 * COIL_BYTES && m.regCount <= REGISTERS
    witness MasterFields(0, 0, Ok, seq(COIL_BYTES, _ => 0), 0, seq(REGISTERS, _ => 0), 0)

  const INITIAL: MasterState := MasterFields(0, 0, Ok, seq(COIL_BYTES, _ => 0), 0, seq(REGISTERS, _ => 0), 0)

  /** `pa_modbus_get_coil`. */
  function GetCoil(m: MasterState, i: Word): bool {
    if i >= m.coilCount then false else BitOf(m.coils[i / 8], i % 8)
  }

  /** `pa_modbus_get_register`. */
  function GetRegister(m: MasterState, i: Word): Word {
    if i >= m.regCount then 0 else m.regs[i]
  }

  function Min(a: int, b: int): int {
    if a <= b then a else b
  }

  /** The registers made of a server ID: byte pairs, and an odd last byte by itself. */
  function ServerIdWords(pdu: seq<Byte>, byteCount: nat, n: nat): seq<Word>
    requires 2 + byteCount <= |pdu| && 2 * n <= byteCount + 1
  {
    seq(n, i requires 0 <= i < n =>
      if 2 * i + 1 < byteCount then Get16(pdu, 2 + 2 * i) else pdu[2 + 2 * i])
  }

  /** The 16-bit byte count of a queue response. */
  function QueueByteCount(pdu: seq<Byte>, behind: Byte): nat
    requires |pdu| >= 2
  {
    Get16(pdu + [behind], 1)
  }

  /** `parse_master_response`. A queue response of two bytes makes it read one byte more, `behind` the PDU. */
  function ParseResponse(m: MasterState, pdu: seq<Byte>, behind: Byte): (r: (Status, MasterState))
  {
    if |pdu| < 1 then (Err(ErrProtocol), m) else
    var fc := pdu[0];
    var m1 := m.(lastFunction := fc);
    if fc >= 0x80 then
      if |pdu| < 2 then (Err(ErrProtocol), m1) else
        (Err(ErrException), m1.(exception := pdu[1], lastError := Err(ErrException)))
    else
      ParseBody(m1.(lastError := Ok, exception := 0, coilCount := 0, regCount := 0), pdu, behind)
  }

  /** The switch on the function code. */
  function ParseBody(m: MasterState, pdu: seq<Byte>, behind: Byte): (r: (Status, MasterState))
    requires |pdu| >= 1
  {
    var fc := pdu[0];
    var bad := (Err(ErrProtocol), m);
    // a byte count, where the function code has one, must be covered by the PDU
    var counted := |pdu| >= 2 && |pdu| >= 2 + pdu[1] as int;
    if fc == 0x01 || fc == 0x02 then
      if !counted || pdu[1] > COIL_BYTES then bad
      else (Ok, m.StoreCoils(pdu[2..2 + pdu[1] as int]))
    else if fc == 0x03 || fc == 0x04 || fc == 0x14 || fc == 0x17 then
      if !counted then bad else (Ok, m.StoreRegs(GetWords(pdu, 2, pdu[1] / 2)))
    else if fc == 0x05 || fc == 0x06 || fc == 0x0F || fc == 0x10 then
      if |pdu| < 5 then bad else (Ok, m)
    else if fc == 0x07 then
      if |pdu| < 2 then bad else (Ok, m.StoreCoils([pdu[1]]))
    else if fc == 0x08 then
      if |pdu| < 5 then bad else (Ok, m.StoreRegs([Get16(pdu, 3)]))
    else if fc == 0x0B then
      if |pdu| < 5 then bad else (Ok, m.StoreRegs([Get16(pdu, 1), Get16(pdu, 3)]))
    else if fc == 0x0C then
      if !counted then bad
      else if pdu[1] < 4 then (Ok, m)
      else
        var logBytes := Min(pdu[1] - 4, COIL_BYTES);
        (Ok, m.StoreRegs([Get16(pdu, 2), Get16(pdu, 4)]).StoreCoils(pdu[6..6 + logBytes]))
    else if fc == 0x11 then
      if !counted then bad
      else (Ok, m.StoreRegs(ServerIdWords(pdu, pdu[1], Min((pdu[1] as int + 1) / 2, REGISTERS))))
    else if fc == 0x15 then
      if !counted then bad else (Ok, m)
    else if fc == 0x16 then
      if |pdu| < 7 then bad else (Ok, m.StoreRegs([Get16(pdu, 1), Get16(pdu, 3), Get16(pdu, 5)]))
    else if fc == 0x18 then
      if |pdu| < 2 then bad else
      var byteCount := QueueByteCount(pdu, behind);
      if |pdu| < 2 + byteCount then bad
      else (Ok, m.StoreRegs(GetWords(pdu, 2, Min(byteCount / 2, REGISTERS))))
    else bad
  }

  /** The parse half of a context, with its two fixed buffers. */
  class Master {
    var lastFunction: Byte
    var exception: Byte
    var lastError: Status
    const coils: array<Byte>
    var coilCount: nat
    const regs: array<Word>
    var regCount: nat

    constructor ()
      ensures fresh(coils) && fresh(regs) && Valid()
      ensures State() == INITIAL
    {
      lastFunction, exception, lastError, coilCount, regCount := 0, 0, Ok, 0, 0;
      coils := new Byte[COIL_BYTES](_ => 0);
      regs := new Word[REGISTERS](_ => 0);
      new;
      assert coils[..] == seq(COIL_BYTES, _ => 0);
      assert regs[..] == seq(REGISTERS, _ => 0);
    }

    ghost predicate Valid()
      reads this
    {
      coils.Length == COIL_BYTES && regs.Length == REGISTERS && coilCount <= 8 * COIL_BYTES && regCount <= REGISTERS
    }

    ghost function State(): MasterState
      reads this, coils, regs
      requires Valid()
    {
      MasterFields(lastFunction, exception, lastError, coils[..], coilCount, regs[..], regCount)
    }

    method StoreWords(pdu: seq<Byte>, at: nat, n: nat)
      requires Valid() && at + 2 * n <= |pdu| && n <= REGISTERS
      modifies this`regCount, regs
      ensures Valid() && State() == old(State()).StoreRegs(GetWords(pdu, at, n))
    {
      regCount := n;
      LoadWords(regs, pdu, at, n);
    }

    method StoreServerId(pdu: seq<Byte>, byteCount: nat, n: nat)
      requires Valid() && 2 + byteCount <= |pdu| && 2 * n <= byteCount + 1 && n <= REGISTERS
      modifies this`regCount, regs
      ensures Valid() && State() == old(State()).StoreRegs(ServerIdWords(pdu, byteCount, n))
    {
      regCount := n;
      for i := 0 to n
        invariant regCount == n
        invariant forall k :: 0 <= k < i ==> regs[k] == ServerIdWords(pdu, byteCount, n)[k]
        invariant forall k :: i <= k < regs.Length ==> regs[k] == old(regs[k])
      {
        var val: int := pdu[2 + 2 * i];
        if 2 * i + 1 < byteCount {
          val := val * 0x100 + pdu[2 + 2 * i + 1];
        }
        regs[i] := val;
      }
      assert regs[..n] == ServerIdWords(pdu, byteCount, n) && regs[n..] == old(regs[n..]);
    }

    method CopyCoils(bytes: seq<Byte>)
      requires Valid() && |bytes| <= COIL_BYTES
      modifies this`coilCount, coils
      ensures Valid() && State() == old(State()).StoreCoils(bytes)
    {
      forall i | 0 <= i < |bytes| {
        coils[i] := bytes[i];
      }
      coilCount := 8 * |bytes|;
    }

    method Parse(pdu: seq<Byte>, behind: Byte) returns (ret: Status)
      requires Valid()
      modifies this, coils, regs
      ensures Valid() && (ret, State()) == ParseResponse(old(State()), pdu, behind)
    {
      if |pdu| < 1 {
        return Err(ErrProtocol);
      }
      lastFunction := pdu[0];
      if pdu[0] >= 0x80 {
        if |pdu| < 2 {
          return Err(ErrProtocol);
        }
        exception, lastError := pdu[1], Err(ErrException);
        return Err(ErrException);
      }
      lastError, exception, coilCount, regCount := Ok, 0, 0, 0;
      ret := ParseSwitch(pdu, behind);
    }

    method ParseSwitch(pdu: seq<Byte>, behind: Byte) returns (ret: Status)
      requires Valid() && |pdu| >= 1
      modifies this, coils, regs
      ensures Valid() && (ret, State()) == ParseBody(old(State()), pdu, behind)
    {
      var fc, len := pdu[0], |pdu|;
      var byteCount: int := if len < 2 then 0 else pdu[1];
      if fc == 0x01 || fc == 0x02 {
        if len < 2 || len < 2 + byteCount || byteCount > COIL_BYTES {
          return Err(ErrProtocol);
        }
        CopyCoils(pdu[2..2 + byteCount]);
      } else if fc == 0x03 || fc == 0x04 || fc == 0x14 || fc == 0x17 {
        if len < 2 || len < 2 + byteCount {
          return Err(ErrProtocol);
        }
        StoreWords(pdu, 2, byteCount / 2);
      } else if fc == 0x05 || fc == 0x06 || fc == 0x0F || fc == 0x10 {
        if len < 5 {
          return Err(ErrProtocol);
        }
      } else if fc == 0x07 {
        if len < 2 {
          return Err(ErrProtocol);
        }
        CopyCoils([pdu[1]]);
      } else if fc == 0x08 {
        if len < 5 {
          return Err(ErrProtocol);
        }
        StoreWords(pdu, 3, 1);
        assert GetWords(pdu, 3, 1) == [Get16(pdu, 3)];
      } else if fc == 0x0B {
        if len < 5 {
          return Err(ErrProtocol);
        }
        StoreWords(pdu, 1, 2);
        assert GetWords(pdu, 1, 2) == [Get16(pdu, 1), Get16(pdu, 3)];
      } else if fc >= 0x0C {
        ret := ParseLater(pdu, behind);
        return;
      } else {
        return Err(ErrProtocol);
      }
      ret := Ok;
    }

    /** The rest of the switch. */
    method ParseLater(pdu: seq<Byte>, behind: Byte) returns (ret: Status)
      requires Valid() && |pdu| >= 1 && pdu[0] >= 0x0C && pdu[0] !in {0x0F, 0x10, 0x14, 0x17}
      modifies this, coils, regs
      ensures Valid() && (ret, State()) == ParseBody(old(State()), pdu, behind)
    {
      var fc, len := pdu[0], |pdu|;
      var byteCount: int := if len < 2 then 0 else pdu[1];
      if fc == 0x0C {
        if len < 2 || len < 2 + byteCount {
          return Err(ErrProtocol);
        }
        if byteCount >= 4 {
          StoreWords(pdu, 2, 2);
          CopyCoils(pdu[6..6 + Min(byteCount - 4, COIL_BYTES)]);
          assert GetWords(pdu, 2, 2) == [Get16(pdu, 2), Get16(pdu, 4)];
        }
      } else if fc == 0x11 {
        if len < 2 || len < 2 + byteCount {
          return Err(ErrProtocol);
        }
        StoreServerId(pdu, byteCount, Min((byteCount + 1) / 2, REGISTERS));
      } else if fc == 0x15 {
        if len < 2 || len < 2 + byteCount {
          return Err(ErrProtocol);
        }
      } else if fc == 0x16 {
        if len < 7 {
          return Err(ErrProtocol);
        }
        StoreWords(pdu, 1, 3);
        assert GetWords(pdu, 1, 3) == [Get16(pdu, 1), Get16(pdu, 3), Get16(pdu, 5)];
      } else if fc == 0x18 {
        if len < 2 {
          return Err(ErrProtocol);
        }
        var count := QueueByteCount(pdu, behind);
        if len < 2 + count {
          return Err(ErrProtocol);
        }
        StoreWords(pdu, 2, Min(count / 2, REGISTERS));
      } else {
        return Err(ErrProtocol);
      }
      ret := Ok;
    }

    /** `pa_modbus_master_feed`. */
    method Feed(slave: Byte, discovery: Byte, data: seq<Byte>) returns (ret: Status)
      requires Valid()
      modifies this, coils, regs
      ensures Valid() && (ret, State()) == MasterFeed(old(State()), slave, discovery, data)
    {
      match Unwrap(slave, discovery, data)
      case More(missing) => ret := Wait(missing);
      case Rejected(error) =>
        lastError := Err(error);
        ret := Err(error);
      case Accepted(pdu) => ret := Parse(pdu, data[|pdu| + 1]);
    }
  }

  function MasterFeed(m: MasterState, slave: Byte, discovery: Byte, data: seq<Byte>): (r: (Status, MasterState)) {
    match Unwrap(slave, discovery, data)
    case More(missing) => (Wait(missing), m)
    case Rejected(error) => (Err(error), m.(lastError := Err(error)))
    case Accepted(pdu) => ParseResponse(m, pdu, data[|pdu| + 1])
  }
}
