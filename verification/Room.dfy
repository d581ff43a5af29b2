/** Whether the receive callback is always offered room. The raw receiver keeps a frame its caller has no room
    for, so a buffer can stay full; which capacities rule that out. */
module Room {
  import opened Bytes
  import opened Crc16
  import opened CrcErrors
  import opened RtuFramer
  import opened RtuTheorems
  import opened Receiver
  import opened ReceiverTheorems
  import Responses
  import SlaveRequests

  /** The callback never delivers more than it was offered. */
  ghost predicate Feasible(cfg: Config, n: Node, inputs: seq<Input>)
    decreases |inputs|
  {
    inputs == [] ||
    (&& (inputs[0].Poll? ==> |n.buf| + |inputs[0].chunk| <= cfg.size)
     && Feasible(cfg, Step(cfg, n, inputs[0]).0, inputs[1..]))
  }

  /** Before every call of the run and after the last, the callback would be offered room for a byte. */
  ghost predicate AlwaysRoom(cfg: Config, n: Node, inputs: seq<Input>)
    decreases |inputs|
  {
    && |n.buf| < cfg.size
    && (inputs == [] || AlwaysRoom(cfg, Step(cfg, n, inputs[0]).0, inputs[1..]))
  }

  /** A frame was held back in a full buffer. */
  predicate Jammed(cfg: Config, e: Event) {
    e.Held? && |e.frame| + |e.rest| >= cfg.size
  }

  predicate NeverJams(cfg: Config, es: seq<Event>) {
    forall k: nat :: k < |es| ==> !Jammed(cfg, es[k])
  }

  lemma StepLeavesRoom(cfg: Config, n: Node, i: Input)
    requires |n.buf| < cfg.size
    requires i.Poll? ==> |n.buf| + |i.chunk| <= cfg.size
    ensures var (n', e) := Step(cfg, n, i); |n'.buf| < cfg.size <==> !Jammed(cfg, e)
  {
    hide Find, Feed, Elapsed;
  }

  /** On every run of polls of both receivers, failures and resets, the callback always has room exactly
      when no frame is held back in a full buffer. */
  lemma {:induction false} RoomUnlessJammed(cfg: Config, n: Node, inputs: seq<Input>)
    requires |n.buf| < cfg.size && Feasible(cfg, n, inputs)
    ensures var (_, es) := Run(cfg, n, inputs);
      AlwaysRoom(cfg, n, inputs) <==> NeverJams(cfg, es)
    decreases |inputs|
  {
    hide Step, Jammed, NeverJams;
    NoEvents(cfg);
    if inputs != [] {
      var (n1, e) := Step(cfg, n, inputs[0]);
      var es := Run(cfg, n1, inputs[1..]).1;
      StepLeavesRoom(cfg, n, inputs[0]);
      NextEvent(cfg, e, es);
      if |n1.buf| < cfg.size {
        RoomUnlessJammed(cfg, n1, inputs[1..]);
      }
    }
  }

  lemma NoEvents(cfg: Config)
    ensures NeverJams(cfg, [])
  {
  }

  lemma NextEvent(cfg: Config, e: Event, es: seq<Event>)
    ensures NeverJams(cfg, [e] + es) <==> !Jammed(cfg, e) && NeverJams(cfg, es)
  {
    assert ([e] + es)[0] == e;
    assert forall k: nat :: k < |es| ==> ([e] + es)[k + 1] == es[k];
  }

  /** Every raw poll of the run has room for `capacity` PDU bytes. */
  predicate Capacious(inputs: seq<Input>, capacity: nat) {
    forall i: nat :: i < |inputs| && inputs[i].Poll? && inputs[i].mode.Raw? ==> inputs[i].mode.capacity >= capacity
  }

  lemma {:induction false} NeverJammed(cfg: Config, n: Node, inputs: seq<Input>, capacity: nat)
    requires capacity + 3 >= cfg.size && |n.buf| < cfg.size
    requires Feasible(cfg, n, inputs) && Capacious(inputs, capacity)
    ensures AlwaysRoom(cfg, n, inputs)
    decreases |inputs|
  {
    hide Step;
    if inputs != [] {
      FitsCaller(cfg, n, inputs[0], capacity);
      StepLeavesRoom(cfg, n, inputs[0]);
      NeverJammed(cfg, Step(cfg, n, inputs[0]).0, inputs[1..], capacity);
    }
  }

  lemma FitsCaller(cfg: Config, n: Node, i: Input, capacity: nat)
    requires capacity + 3 >= cfg.size
    requires i.Poll? ==> |n.buf| + |i.chunk| <= cfg.size
    requires i.Poll? && i.mode.Raw? ==> i.mode.capacity >= capacity
    ensures !Jammed(cfg, Step(cfg, n, i).1)
  {
    hide Find, Feed, Elapsed;
  }

  /** The callback is offered room on every run exactly when every raw poll can take what a full buffer can
      hold: a capacity of the buffer size less the three bytes of the frame. */
  lemma RoomIsGuaranteed(cfg: Config, capacity: nat)
    requires cfg.size > 0
    ensures (forall n: Node, inputs: seq<Input> ::
               |n.buf| < cfg.size && Feasible(cfg, n, inputs) && Capacious(inputs, capacity) ==>
                 AlwaysRoom(cfg, n, inputs))
       <==> capacity + 3 >= cfg.size
  {
    hide Feasible, Capacious, AlwaysRoom;
    if capacity + 3 >= cfg.size {
      forall n: Node, inputs: seq<Input>
        | |n.buf| < cfg.size && Feasible(cfg, n, inputs) && Capacious(inputs, capacity)
        ensures AlwaysRoom(cfg, n, inputs)
      {
        NeverJammed(cfg, n, inputs, capacity);
      }
    } else {
      var n, inputs := Jam(cfg, capacity);
    }
  }

  /** One raw frame of the size of the buffer, polled at once, fills it for good. */
  lemma Jam(cfg: Config, capacity: nat) returns (n: Node, inputs: seq<Input>)
    requires capacity + 3 < cfg.size
    ensures n.buf == [] && Feasible(cfg, n, inputs) && Capacious(inputs, capacity) && !AlwaysRoom(cfg, n, inputs)
  {
    hide Frame, Elapsed;
    var pdu := LateClosing(cfg.size - 3);
    var f := Frame(0, pdu);
    n := Node([], 0, Responses.INITIAL, SlaveRequests.INITIAL);
    inputs := [Poll(Raw(capacity), f, 0)];
    JammedBy(cfg, n, f, capacity);
  }

  lemma JammedBy(cfg: Config, n: Node, f: seq<Byte>, capacity: nat)
    requires n.buf == [] && |f| == cfg.size > capacity + 3 && ClosesFirst(f)
    ensures var (n', e) := Step(cfg, n, Poll(Raw(capacity), f, 0)); n'.buf == f
  {
    hide TrailerMatches, ScanRaw;
    ScanRawIsShortest(f, 4);
    assert [] + f == f && f[..|f|] == f;
  }

  // ---- A frame of any length that closes only at its end ----

  function Zeros(n: nat): seq<Byte> {
    seq(n, _ => 0)
  }

  /** A PDU whose frame has no shorter prefix that closes with its CRC. */
  lemma LateClosing(n: nat) returns (pdu: seq<Byte>)
    requires n >= 1
    ensures |pdu| == n && ClosesFirst(Frame(0, pdu))
  {
    hide Crc, Register, TrailerMatches;
    var x := LastByte(Register(Zeros(n)));
    pdu := Zeros(n - 1) + [x];
    var body, f := Zeros(n) + [x], Frame(0, pdu);
    assert [0] + pdu == body;
    FrameParts(0, pdu);
    RegisterAppend(Zeros(n), x);
    forall k: nat | 4 <= k < |f|
      ensures !TrailerMatches(f[..k])
    {
      if k <= n {
        assert f[..k] == Zeros(k);
        ZerosNeverClose(k);
      } else if k == n + 1 {
        assert f[..k] == body;
        OpenAt(body, Register(body));
      } else {
        assert f[..k] == body + [Crc(body) % 0x100];
        HalfwayOpen(body);
      }
    }
  }

  /** A frame without the high byte of its CRC does not close where that byte is not zero. */
  lemma HalfwayOpen(body: seq<Byte>)
    requires |body| >= 1 && Register(body) >> 8 != 0
    ensures !TrailerMatches(body + [Crc(body) % 0x100])
  {
    hide Crc, Register, TrailerMatches;
    LowByteFed(body);
    OpenAt(body + [Crc(body) % 0x100], Register(body) >> 8);
  }

  lemma OpenAt(f: seq<Byte>, r: bv16)
    requires |f| >= 2 && Register(f) == r && r != 0
    ensures !TrailerMatches(f)
  {
    hide Crc, Register, TrailerMatches;
    ZeroResidue(f);
    CrcIsRegister(f);
    ZeroAsInt(r);
  }

  /** Zero bytes never bring the register to zero. */
  lemma {:induction false} ZerosNotZero(n: nat)
    ensures Register(Zeros(n)) != 0
  {
    hide Register, ShiftByte, Xor;
    if n == 0 {
      assert Zeros(0) == [];
      EmptyRegister();
    } else {
      ZerosNotZero(n - 1);
      assert Zeros(n) == Zeros(n - 1) + [0];
      RegisterAppend(Zeros(n - 1), 0);
      ZeroByte(Register(Zeros(n - 1)));
      ByteKernel(Register(Zeros(n - 1)));
    }
  }

  lemma ZeroByte(r: bv16)
    ensures var zero: Byte := 0; Xor(r, zero as bv16) == r
  {
  }

  lemma ZerosNeverClose(n: nat)
    requires n >= 2
    ensures !TrailerMatches(Zeros(n))
  {
    hide Register, TrailerMatches;
    ZerosNotZero(n);
    OpenAt(Zeros(n), Register(Zeros(n)));
  }

  /** One of the bytes 0 and 1 leaves the high half of the register nonzero. */
  lemma LastByte(r: bv16) returns (x: Byte)
    ensures ShiftByte(Xor(r, x as bv16)) != 0 && ShiftByte(Xor(r, x as bv16)) >> 8 != 0
  {
    hide ShiftByte, Xor;
    ZeroByte(r);
    if ShiftByte(r) >> 8 != 0 {
      x := 0;
      HighNotZero(ShiftByte(r));
    } else {
      x := 1;
      OneByte();
      ShiftByteLinear(r, 1);
      ShiftOfOne();
      TopFlips(ShiftByte(r));
    }
  }

  lemma OneByte()
    ensures var one: Byte := 1; one as bv16 == 1
  {
  }

  lemma ShiftOfOne()
    ensures ShiftByte(1) == 0xC0C1
  {
  }

  lemma HighNotZero(r: bv16)
    requires r >> 8 != 0
    ensures r != 0
  {
  }

  lemma TopFlips(r: bv16)
    requires r >> 8 == 0
    ensures Xor(r, 0xC0C1) != 0 && Xor(r, 0xC0C1) >> 8 != 0
  {
  }

  /** Feeding the low byte of the CRC leaves the high one. */
  lemma LowByteFed(s: seq<Byte>)
    ensures Register(s + [Crc(s) % 0x100]) == Register(s) >> 8
  {
    hide Crc, Register, ShiftByte, Xor;
    var r := Register(s);
    var lo: Byte := Crc(s) % 0x100;
    CrcIsRegister(s);
    LowByteIs(r, lo);
    RegisterAppend(s, lo);
    TableStep(r, lo as bv16);
    SelfCleared(r);
    ByteKernel(0);
  }

  lemma LowByteIs(r: bv16, lo: Byte)
    requires lo == r as int % 0x100
    ensures lo as bv16 == r & 0xFF
  {
    hide Join;
    SmallHalves(r);
    Rejoin(r);
    LowOfJoin(r >> 8, r & 0xFF, lo);
  }

  lemma LowOfJoin(h: bv16, l: bv16, lo: Byte)
    requires h < 0x100 && l < 0x100 && lo == Join(h, l) as int % 0x100
    ensures lo as bv16 == l
  {
    hide Join;
    ShiftedWord(l, h);
    AsByte(l);
    LowDigit(l as int, h as int, Join(h, l) as int);
    SameByte(lo, l);
  }

  lemma SameByte(lo: Byte, l: bv16)
    requires l < 0x100 && lo == l as int
    ensures lo as bv16 == l
  {
    FromInt(l);
  }

  lemma LowDigit(l: int, h: int, w: int)
    requires 0 <= l < 0x100 && w == l + 0x100 * h
    ensures w % 0x100 == l
  {
  }

  lemma SmallHalves(r: bv16)
    ensures r >> 8 < 0x100 && r & 0xFF < 0x100
  {
  }

  lemma AsByte(l: bv16)
    requires l < 0x100
    ensures 0 <= l as int < 0x100
  {
  }

  lemma SelfCleared(r: bv16)
    ensures Xor(r, r & 0xFF) & 0xFF == 0 && Xor(r >> 8, 0) == r >> 8
  {
  }
}
