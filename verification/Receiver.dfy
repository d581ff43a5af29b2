/** The two non-blocking receivers of a context, which share its accumulator: append, scan, take what was
    found, and give up on stale bytes. */
module Receiver {
  import opened Bytes
  import opened Crc16
  import opened Status
  import opened RtuFramer
  import SlaveRequests
  import Responses

  type Tick = t: int | 0 <= t < 0x1_0000_0000

  /** What does not change while a context receives. */
  datatype Config = Config(slave: Byte, discovery: Byte, slaveMode: bool, size: nat, hasTicks: bool, timeout: Tick)

  /** What does: the accumulator, the time of its last byte, and the two parse results. */
  datatype Node = Node(
    buf: seq<Byte>, lastTick: Tick,
    master: Responses.MasterState, request: SlaveRequests.RequestState)

  datatype Found = Nothing | At(start: nat, len: nat)

  /** `pa_rx_scan_frame`, from offset `off` on. */
  function ScanFrom(cfg: Config, buf: seq<Byte>, off: nat): (r: Found)
    ensures r.At? ==> off <= r.start && 4 <= r.len && r.start + r.len <= |buf|
    decreases |buf| - off
  {
    if off >= |buf| then Nothing else
    match Unwrap(cfg.slave, cfg.discovery, buf[off..])
    case Accepted(pdu) => At(off, |pdu| + 3)
    case _ => ScanFrom(cfg, buf, off + 1)
  }

  /** The scan stops at the least offset whose bytes start with a complete, valid, accepted frame. */
  lemma {:induction false} ScanFindsFirst(cfg: Config, buf: seq<Byte>, off: nat)
    ensures var r := ScanFrom(cfg, buf, off);
      && (forall k: nat :: off <= k < (if r.At? then r.start else |buf|) ==>
            !Unwrap(cfg.slave, cfg.discovery, buf[k..]).Accepted?)
      && (r.At? ==> var u := Unwrap(cfg.slave, cfg.discovery, buf[r.start..]); u.Accepted? && |u.pdu| + 3 == r.len)
    decreases |buf| - off
  {
    hide Unwrap;
    if off < |buf| && !Unwrap(cfg.slave, cfg.discovery, buf[off..]).Accepted? {
      ScanFindsFirst(cfg, buf, off + 1);
    }
  }

  function Scan(cfg: Config, buf: seq<Byte>): Found {
    ScanFrom(cfg, buf, 0)
  }

  /** The scan of `pa_modbus_recv_raw` over frame lengths, from `len` on. */
  function ScanRaw(buf: seq<Byte>, len: nat): (r: Found)
    requires len >= 4
    ensures r.At? ==> r.start == 0 && len <= r.len <= |buf|
    decreases |buf| - len
  {
    if len > |buf| then Nothing
    else if TrailerMatches(buf[..len]) then At(0, len)
    else ScanRaw(buf, len + 1)
  }

  /** The length found is that of the shortest prefix, of four bytes or more, that closes with its CRC. */
  lemma {:induction false} ScanRawIsShortest(buf: seq<Byte>, len: nat)
    requires len >= 4
    ensures var r := ScanRaw(buf, len);
      && (forall k: nat :: len <= k < (if r.At? then r.len else |buf| + 1) ==> !TrailerMatches(buf[..k]))
      && (r.At? ==> TrailerMatches(buf[..r.len]))
    decreases |buf| - len
  {
    hide TrailerMatches;
    if len <= |buf| && !TrailerMatches(buf[..len]) {
      ScanRawIsShortest(buf, len + 1);
    }
  }

  /** Which receiver is polled: that of MODBUS frames, or the raw one, with room for `capacity` PDU bytes. */
  datatype Mode = Framed | Raw(capacity: nat)

  /** What that receiver finds in the accumulator. */
  function Find(cfg: Config, mode: Mode, buf: seq<Byte>): (r: Found)
    ensures r.At? ==> 4 <= r.len && r.start + r.len <= |buf|
    ensures r.At? && mode.Raw? ==> r.start == 0
  {
    if mode.Framed? then Scan(cfg, buf) else ScanRaw(buf, 4)
  }

  /** What one call did. The bytes of an event have left the accumulator, but for `rest` and what is held. */
  datatype Event =
    | Dispatched(skipped: seq<Byte>, frame: seq<Byte>, rest: seq<Byte>, status: Status)
    | Copied(frame: seq<Byte>, dropped: seq<Byte>)
    | Held(frame: seq<Byte>, rest: seq<Byte>, capacity: nat)
    | Flushed(block: seq<Byte>, error: Error)
    | Discarded(block: seq<Byte>)
    | Waiting
    | Refused(error: Error)

  /** What the call returned; a reset returns nothing. */
  function Returned(e: Event): Status {
    match e
    case Dispatched(_, _, _, status) => status
    case Copied(_, _) => Ok
    case Held(_, _, _) => Err(ErrBufferFull)
    case Flushed(_, error) => Err(error)
    case Discarded(_) => Ok
    case Waiting => Wait(1)
    case Refused(error) => Err(error)
  }

  /** A poll whose callback yields some bytes or none, a poll whose callback fails, or a reset. */
  datatype Input = Poll(mode: Mode, chunk: seq<Byte>, now: Tick) | PollFailing(mode: Mode) | Reset

  function Append(n: Node, chunk: seq<Byte>, now: Tick): Node {
    if chunk == [] then n else n.(buf := n.buf + chunk, lastTick := now)
  }

  /** Hands a frame to the parser of the context's role. */
  function Feed(cfg: Config, n: Node, frame: seq<Byte>): (Status, Node) {
    if cfg.slaveMode then
      var (status, request) := SlaveRequests.SlaveFeed(n.request, cfg.slave, cfg.discovery, frame);
      (status, n.(request := request))
    else
      var (status, master) := Responses.MasterFeed(n.master, cfg.slave, cfg.discovery, frame);
      (status, n.(master := master))
  }

  /** The frame found at `start` is parsed and everything up to its end is dropped. */
  function Dispatch(cfg: Config, n: Node, now: Tick, start: nat, len: nat): (Node, Event)
    requires start + len <= |n.buf|
  {
    var frame, rest := n.buf[start..start + len], n.buf[start + len..];
    var (status, n') := Feed(cfg, n, frame);
    (n'.(buf := rest, lastTick := if rest == [] then n.lastTick else now),
     Dispatched(n.buf[..start], frame, rest, status))
  }

  /** The raw frame of the first `len` bytes is copied out, and everything behind it is lost; but where its
      PDU exceeds the capacity all of it stays. */
  function CopyOut(n: Node, len: nat, capacity: nat): (Node, Event)
    requires 4 <= len <= |n.buf|
  {
    if len - 3 > capacity then (n, Held(n.buf[..len], n.buf[len..], capacity))
    else (n.(buf := []), Copied(n.buf[..len], n.buf[len..]))
  }

  /** The caller's PDU buffer and length after a raw receive: changed by a copy only. */
  ghost function CopiedInto(was: seq<Byte>, e: Event): (seq<Byte>, nat) {
    if e.Copied? && 3 <= |e.frame| <= |was| + 3 then (Overwrite(was, e.frame[1..|e.frame| - 2]), |e.frame| - 3)
    else (was, |was|)
  }

  function Elapsed(now: Tick, since: Tick): Tick {
    (now - since) % 0x1_0000_0000
  }

  /** Everything a poll does once the callback's bytes are in. */
  function Settle(cfg: Config, mode: Mode, n: Node, now: Tick): (Node, Event) {
    match Find(cfg, mode, n.buf)
    case At(start, len) => if mode.Framed? then Dispatch(cfg, n, now, start, len) else CopyOut(n, len, mode.capacity)
    case Nothing =>
      if n.buf == [] then (n, Waiting)
      else if |n.buf| >= cfg.size then (n.(buf := []), Flushed(n.buf, ErrBufferFull))
      else if cfg.hasTicks && Elapsed(now, n.lastTick) >= cfg.timeout then (n.(buf := []), Flushed(n.buf, ErrTimeout))
      else (n, Waiting)
  }

  /** How a poll without a receive buffer is refused. */
  function Unbuffered(mode: Mode): Error {
    if mode.Framed? then ErrState else ErrBadParam
  }

  /** `pa_modbus_recv`, `pa_modbus_recv_raw` and `pa_modbus_rx_reset`. Without a tick source every call is at
      tick 0. */
  function Step(cfg: Config, n: Node, i: Input): (Node, Event) {
    match i
    case Reset => (n.(buf := []), Discarded(n.buf))
    case PollFailing(mode) => (n, Refused(if cfg.size == 0 then Unbuffered(mode) else ErrCallback))
    case Poll(mode, chunk, now) =>
      if cfg.size == 0 then (n, Refused(Unbuffered(mode))) else
      var t := if cfg.hasTicks then now else 0;
      Settle(cfg, mode, Append(n, chunk, t), t)
  }

  /** A whole run, and the events of its calls in order. */
  function Run(cfg: Config, n: Node, inputs: seq<Input>): (r: (Node, seq<Event>))
    ensures |r.1| == |inputs|
    decreases |inputs|
  {
    if inputs == [] then (n, []) else
    var (n1, e) := Step(cfg, n, inputs[0]);
    var (n2, es) := Run(cfg, n1, inputs[1..]);
    (n2, [e] + es)
  }
}
