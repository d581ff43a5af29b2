/** What holds of every run of the receivers. */
module ReceiverTheorems {
  import opened Bytes
  import opened Crc16
  import opened Status
  import opened RtuFramer
  import opened RtuTheorems
  import opened Receiver
  import SlaveRequests
  import Responses

  // ---- Conservation ----

  function ArrivedOf(cfg: Config, i: Input): seq<Byte> {
    if i.Poll? && cfg.size > 0 then i.chunk else []
  }

  function TakenOf(e: Event): seq<Byte> {
    match e
    case Dispatched(skipped, frame, _, _) => skipped + frame
    case Copied(frame, dropped) => frame + dropped
    case Flushed(block, _) => block
    case Discarded(block) => block
    case _ => []
  }

  /** Everything the callback delivered in a run, in order. */
  function Arrived(cfg: Config, inputs: seq<Input>): seq<Byte> {
    if inputs == [] then [] else ArrivedOf(cfg, inputs[0]) + Arrived(cfg, inputs[1..])
  }

  /** Everything the events of a run removed from the accumulator, in order. */
  function Taken(es: seq<Event>): seq<Byte> {
    if es == [] then [] else TakenOf(es[0]) + Taken(es[1..])
  }

  lemma FeedKeeps(cfg: Config, n: Node, frame: seq<Byte>)
    ensures var n' := Feed(cfg, n, frame).1; n'.buf == n.buf && n'.lastTick == n.lastTick
  {
  }

  lemma StepConserves(cfg: Config, n: Node, i: Input)
    ensures var (n', e) := Step(cfg, n, i); n.buf + ArrivedOf(cfg, i) == TakenOf(e) + n'.buf
  {
    hide Find, Feed, Elapsed;
    if i.Poll? && cfg.size > 0 {
      var t := if cfg.hasTicks then i.now else 0;
      var m := Append(n, i.chunk, t);
      assert m.buf == n.buf + i.chunk;
      var r := Find(cfg, i.mode, m.buf);
      if r.At? {
        FeedKeeps(cfg, m, m.buf[r.start..r.start + r.len]);
        assert m.buf == m.buf[..r.start] + m.buf[r.start..r.start + r.len] + m.buf[r.start + r.len..];
        assert m.buf == m.buf[..r.len] + m.buf[r.len..];
      }
    }
  }

  /** Byte conservation: over every run of polls of either kind, failures and resets, what arrived is, in
      order, what the dispatches skipped and framed, the copies took and the flushes dropped, followed by
      what is still buffered. */
  lemma {:induction false} RunConserves(cfg: Config, n: Node, inputs: seq<Input>)
    ensures var (n', es) := Run(cfg, n, inputs); n.buf + Arrived(cfg, inputs) == Taken(es) + n'.buf
    decreases |inputs|
  {
    hide Step, ArrivedOf, TakenOf;
    if inputs == [] {
      assert n.buf + [] == [] + n.buf;
    } else {
      var (n1, e) := Step(cfg, n, inputs[0]);
      var (n2, es) := Run(cfg, n1, inputs[1..]);
      StepConserves(cfg, n, inputs[0]);
      RunConserves(cfg, n1, inputs[1..]);
      assert ([e] + es)[1..] == es;
      var rest := Arrived(cfg, inputs[1..]);
      assert n.buf + (ArrivedOf(cfg, inputs[0]) + rest) == (n.buf + ArrivedOf(cfg, inputs[0])) + rest;
      assert (TakenOf(e) + n1.buf) + rest == TakenOf(e) + (n1.buf + rest);
      assert TakenOf(e) + (Taken(es) + n2.buf) == (TakenOf(e) + Taken(es)) + n2.buf;
    }
  }

  // ---- Safety of what is handed over ----

  /** A dispatch took the first complete frame of the buffer it saw: its CRC matches, it is addressed to this
      context, it is parsed at once, and at no earlier offset was there a frame. */
  ghost predicate SafeDispatch(cfg: Config, e: Event)
    requires e.Dispatched?
  {
    && |e.frame| >= 4
    && TrailerMatches(e.frame)
    && (cfg.slave == 0xFF || e.frame[0] == cfg.slave || (cfg.discovery != 0 && e.frame[0] == cfg.discovery))
    && Unwrap(cfg.slave, cfg.discovery, e.frame) == Accepted(e.frame[1..|e.frame| - 2])
    && !e.status.Wait?
    && forall k: nat :: k < |e.skipped| ==>
         !Unwrap(cfg.slave, cfg.discovery, (e.skipped + e.frame + e.rest)[k..]).Accepted?
  }

  /** A raw frame is the shortest start of the buffer that closes with its CRC. */
  ghost predicate ClosesFirst(frame: seq<Byte>) {
    && |frame| >= 4
    && TrailerMatches(frame)
    && forall k: nat :: 4 <= k < |frame| ==> !TrailerMatches(frame[..k])
  }

  /** What the call handed over was a frame, and only a raw frame too large for the caller is held back. */
  ghost predicate SafeEvent(cfg: Config, e: Event) {
    match e
    case Dispatched(_, _, _, _) => SafeDispatch(cfg, e)
    case Copied(frame, _) => ClosesFirst(frame)
    case Held(frame, _, capacity) => ClosesFirst(frame) && |frame| - 3 > capacity
    case _ => true
  }

  /** Parsing an accepted frame gives a verdict; it never asks for more. */
  lemma ParsedAtOnce(cfg: Config, n: Node, frame: seq<Byte>)
    requires Unwrap(cfg.slave, cfg.discovery, frame).Accepted?
    ensures !Feed(cfg, n, frame).0.Wait?
  {
    hide Unwrap;
  }

  lemma AcceptedIsValid(slave: Byte, discovery: Byte, f: seq<Byte>)
    requires var u := Unwrap(slave, discovery, f); u.Accepted? && |u.pdu| + 3 == |f|
    ensures TrailerMatches(f)
    ensures slave == 0xFF || f[0] == slave || (discovery != 0 && f[0] == discovery)
    ensures Unwrap(slave, discovery, f) == Accepted(f[1..|f| - 2])
  {
    hide TrailerMatches;
    assert f[..|f|] == f;
  }

  lemma DispatchIsSafe(cfg: Config, n: Node, now: Tick)
    requires Scan(cfg, n.buf).At?
    ensures var r := Scan(cfg, n.buf);
      var e := Dispatch(cfg, n, now, r.start, r.len).1;
      e.Dispatched? && SafeDispatch(cfg, e)
  {
    hide Unwrap, TrailerMatches, Feed, ScanFrom;
    var r := Scan(cfg, n.buf);
    var data := n.buf[r.start..];
    ScanFindsFirst(cfg, n.buf, 0);
    TruncationStable(cfg.slave, cfg.discovery, data);
    var frame := n.buf[r.start..r.start + r.len];
    assert data[..r.len] == frame;
    AcceptedIsValid(cfg.slave, cfg.discovery, frame);
    ParsedAtOnce(cfg, n, frame);
    assert n.buf[..r.start] + frame + n.buf[r.start + r.len..] == n.buf;
  }

  lemma RawIsShortest(buf: seq<Byte>)
    requires ScanRaw(buf, 4).At?
    ensures ClosesFirst(buf[..ScanRaw(buf, 4).len])
  {
    hide TrailerMatches, ScanRaw;
    ScanRawIsShortest(buf, 4);
    var frame := buf[..ScanRaw(buf, 4).len];
    forall k: nat | 4 <= k < |frame|
      ensures frame[..k] == buf[..k]
    {
    }
  }

  lemma StepIsSafe(cfg: Config, n: Node, i: Input)
    ensures SafeEvent(cfg, Step(cfg, n, i).1)
  {
    hide SafeDispatch, ClosesFirst, Unwrap, Dispatch, ScanFrom, ScanRaw, Elapsed;
    if i.Poll? && cfg.size > 0 {
      var t := if cfg.hasTicks then i.now else 0;
      var m := Append(n, i.chunk, t);
      if Find(cfg, i.mode, m.buf).At? {
        if i.mode.Framed? {
          DispatchIsSafe(cfg, m, t);
        } else {
          RawIsShortest(m.buf);
        }
      }
    }
  }

  /** Over every run, whatever arrives: each dispatch is safe, and each raw frame copied out or held back is
      the shortest one. */
  lemma {:induction false} RunIsSafe(cfg: Config, n: Node, inputs: seq<Input>)
    ensures var (_, es) := Run(cfg, n, inputs); forall k: nat :: k < |es| ==> SafeEvent(cfg, es[k])
    decreases |inputs|
  {
    hide Step, SafeEvent;
    if inputs != [] {
      var (n1, e) := Step(cfg, n, inputs[0]);
      StepIsSafe(cfg, n, inputs[0]);
      RunIsSafe(cfg, n1, inputs[1..]);
      assert Run(cfg, n, inputs).1 == [e] + Run(cfg, n1, inputs[1..]).1;
    }
  }

  // ---- Back-to-back frames ----

  function Concat(fs: seq<seq<Byte>>): seq<Byte> {
    if fs == [] then [] else fs[0] + Concat(fs[1..])
  }

  /** A whole frame this context accepts that says where it ends. */
  predicate Complete(cfg: Config, f: seq<Byte>) {
    && |f| >= 4 && Delimits(f)
    && var u := Unwrap(cfg.slave, cfg.discovery, f);
    u.Accepted? && |u.pdu| + 3 == |f|
  }

  function IdlePolls(nows: seq<Tick>): seq<Input> {
    seq(|nows|, i requires 0 <= i < |nows| => Poll(Framed, [], nows[i]))
  }

  /** Garbage in front of a complete frame is skipped whole exactly when no frame is accepted inside it. */
  lemma FrameFoundBehind(cfg: Config, g: seq<Byte>, f: seq<Byte>, rest: seq<Byte>)
    requires Complete(cfg, f)
    ensures Scan(cfg, g + f + rest) == At(|g|, |f|)
       <==> forall k: nat :: k < |g| ==> !Unwrap(cfg.slave, cfg.discovery, (g + f + rest)[k..]).Accepted?
  {
    hide Unwrap, ScanFrom;
    var u := Unwrap(cfg.slave, cfg.discovery, f);
    ExtensionStable(cfg.slave, cfg.discovery, f, u.pdu, rest);
    assert (g + f + rest)[|g|..] == f + rest;
    ScanFindsFirst(cfg, g + f + rest, 0);
  }

  /** Resynchronisation: a poll after which the buffer holds garbage, a complete frame and more dispatches
      just that frame, to the parser of the context's role, exactly when no frame is accepted at an offset
      inside the garbage. */
  lemma PollSkipsGarbage(cfg: Config, n: Node, chunk: seq<Byte>, g: seq<Byte>, f: seq<Byte>, rest: seq<Byte>,
                         now: Tick)
    requires cfg.size > 0 && Complete(cfg, f) && n.buf + chunk == g + f + rest
    ensures var (n', e) := Step(cfg, n, Poll(Framed, chunk, now));
      var (status, fed) := Feed(cfg, n, f);
      && (e == Dispatched(g, f, rest, status) <==>
            forall k: nat :: k < |g| ==> !Unwrap(cfg.slave, cfg.discovery, (g + f + rest)[k..]).Accepted?)
      && (e == Dispatched(g, f, rest, status) ==>
            n'.buf == rest && n'.master == fed.master && n'.request == fed.request)
  {
    hide ScanFrom, Unwrap, Complete, Elapsed, SlaveRequests.SlaveFeed, Responses.MasterFeed;
    FrameFoundBehind(cfg, g, f, rest);
    var m := Append(n, chunk, if cfg.hasTicks then now else 0);
    assert n.buf + [] == n.buf;
    assert m.buf == g + f + rest;
    assert m.buf[|g|..|g| + |f|] == f && m.buf[|g| + |f|..] == rest && m.buf[..|g|] == g;
    var r := Scan(cfg, m.buf);
    if r.At? && m.buf[..r.start] == g {
      assert r.start == |g|;
    }
  }

  /** A poll after which the buffer starts with a complete frame always dispatches just that frame. */
  lemma PollTakesFirst(cfg: Config, n: Node, chunk: seq<Byte>, f: seq<Byte>, rest: seq<Byte>, now: Tick)
    requires cfg.size > 0 && Complete(cfg, f) && n.buf + chunk == f + rest
    ensures var (n', e) := Step(cfg, n, Poll(Framed, chunk, now));
      var (status, fed) := Feed(cfg, n, f);
      && e == Dispatched([], f, rest, status)
      && n'.buf == rest && n'.master == fed.master && n'.request == fed.request
  {
    hide Step, Complete, Feed, Unwrap;
    assert [] + f + rest == f + rest;
    PollSkipsGarbage(cfg, n, chunk, [], f, rest, now);
  }

  /** The parse state after feeding frames one by one. */
  function FeedAll(cfg: Config, n: Node, fs: seq<seq<Byte>>): Node
    decreases |fs|
  {
    if fs == [] then n else FeedAll(cfg, Feed(cfg, n, fs[0]).1, fs[1..])
  }

  lemma {:induction false} FeedIgnoresBuffer(cfg: Config, n: Node, m: Node, fs: seq<seq<Byte>>)
    requires n.master == m.master && n.request == m.request
    ensures FeedAll(cfg, n, fs).master == FeedAll(cfg, m, fs).master
    ensures FeedAll(cfg, n, fs).request == FeedAll(cfg, m, fs).request
    decreases |fs|
  {
    hide SlaveRequests.SlaveFeed, Responses.MasterFeed;
    if fs != [] {
      FeedIgnoresBuffer(cfg, Feed(cfg, n, fs[0]).1, Feed(cfg, m, fs[0]).1, fs[1..]);
    }
  }

  /** Frames received back to back are dispatched one per poll, in order, exactly the tail is left, and the
      parse state is that of feeding the frames, however much time passes between the polls. */
  lemma {:induction false} DrainsInOrder(cfg: Config, n: Node, fs: seq<seq<Byte>>, tail: seq<Byte>, nows: seq<Tick>)
    requires cfg.size > 0 && |nows| == |fs|
    requires forall k: nat :: k < |fs| ==> Complete(cfg, fs[k])
    requires n.buf == Concat(fs) + tail
    ensures var (n', es) := Run(cfg, n, IdlePolls(nows));
      && n'.buf == tail
      && n'.master == FeedAll(cfg, n, fs).master && n'.request == FeedAll(cfg, n, fs).request
      && forall k: nat :: k < |es| ==> es[k].Dispatched? && es[k].skipped == [] && es[k].frame == fs[k]
    decreases |fs|
  {
    hide Step, Complete, Feed;
    if fs == [] {
      assert [] + tail == tail;
    } else {
      var rest := Concat(fs[1..]) + tail;
      assert n.buf + [] == fs[0] + rest;
      PollTakesFirst(cfg, n, [], fs[0], rest, nows[0]);
      assert IdlePolls(nows)[1..] == IdlePolls(nows[1..]);
      var n1 := Step(cfg, n, Poll(Framed, [], nows[0])).0;
      DrainsInOrder(cfg, n1, fs[1..], tail, nows[1..]);
      FeedIgnoresBuffer(cfg, n1, Feed(cfg, n, fs[0]).1, fs[1..]);
    }
  }

  // ---- Chunking ----

  /** Polls of one receiver. */
  predicate AllPolls(mode: Mode, inputs: seq<Input>) {
    forall i: nat :: i < |inputs| ==> inputs[i].Poll? && inputs[i].mode == mode
  }

  /** No poll that brings nothing comes as late as the idle timeout after the last byte. */
  ghost predicate Prompt(cfg: Config, mode: Mode, n: Node, polls: seq<Input>)
    requires AllPolls(mode, polls)
    decreases |polls|
  {
    polls == [] ||
    (var t := if cfg.hasTicks then polls[0].now else 0;
     && (cfg.hasTicks && n.buf != [] && polls[0].chunk == [] ==> Elapsed(t, n.lastTick) < cfg.timeout)
     && Prompt(cfg, mode, Append(n, polls[0].chunk, t), polls[1..]))
  }

  /** `s` ends with the first frame to be found in any of its prefixes. */
  ghost predicate EndsWithFirstFrame(cfg: Config, mode: Mode, s: seq<Byte>) {
    && (forall k: nat :: k < |s| ==> Find(cfg, mode, s[..k]).Nothing?)
    && var r := Find(cfg, mode, s);
    r.At? && r.start + r.len == |s|
  }

  lemma WaitsForMore(cfg: Config, mode: Mode, m: Node, s: seq<Byte>, now: Tick)
    requires 0 < |s| <= cfg.size && EndsWithFirstFrame(cfg, mode, s)
    requires |m.buf| < |s| && m.buf == s[..|m.buf|]
    requires cfg.hasTicks && m.buf != [] ==> Elapsed(now, m.lastTick) < cfg.timeout
    ensures Settle(cfg, mode, m, now) == (m, Waiting)
  {
    hide Find, Elapsed;
    assert Find(cfg, mode, s[..|m.buf|]).Nothing?;
  }

  lemma {:induction false} ChunksFrom(cfg: Config, mode: Mode, n: Node, polls: seq<Input>, s: seq<Byte>)
    requires 0 < |s| <= cfg.size && 0 < cfg.timeout && EndsWithFirstFrame(cfg, mode, s)
    requires AllPolls(mode, polls) && polls != [] && polls[|polls| - 1].chunk != []
    requires n.buf + Arrived(cfg, polls) == s
    requires Prompt(cfg, mode, n, polls[..|polls| - 1])
    ensures var (n', es) := Run(cfg, n, polls);
      var t := if cfg.hasTicks then polls[|polls| - 1].now else 0;
      && (forall k: nat :: k < |es| - 1 ==> es[k] == Waiting)
      && (n', es[|es| - 1]) == Settle(cfg, mode, n.(buf := s, lastTick := t), t)
    decreases |polls|
  {
    hide EndsWithFirstFrame, Settle, Elapsed, Step, Append, Find;
    var t := if cfg.hasTicks then polls[0].now else 0;
    var m := Append(n, polls[0].chunk, t);
    PollSettles(cfg, n, polls[0]);
    if |polls| == 1 {
      assert Arrived(cfg, polls) == polls[0].chunk + Arrived(cfg, []);
      assert m == n.(buf := s, lastTick := t);
    } else {
      var rest := polls[1..];
      LastArrives(cfg, mode, rest);
      assert m.buf + Arrived(cfg, rest) == s;
      StillPrompt(cfg, n, polls[0].chunk, t);
      WaitsForMore(cfg, mode, m, s, t);
      assert polls[..|polls| - 1][1..] == rest[..|rest| - 1];
      ChunksFrom(cfg, mode, m, rest, s);
    }
  }

  lemma PollSettles(cfg: Config, n: Node, i: Input)
    requires i.Poll? && cfg.size > 0
    ensures var t := if cfg.hasTicks then i.now else 0;
      var m := Append(n, i.chunk, t);
      && Step(cfg, n, i) == Settle(cfg, i.mode, m, t)
      && m == n.(buf := n.buf + i.chunk, lastTick := if i.chunk == [] then n.lastTick else t)
  {
    hide Settle;
    assert i.chunk == [] ==> n.buf + i.chunk == n.buf;
  }

  lemma StillPrompt(cfg: Config, n: Node, chunk: seq<Byte>, t: Tick)
    requires 0 < cfg.timeout
    requires cfg.hasTicks && n.buf != [] && chunk == [] ==> Elapsed(t, n.lastTick) < cfg.timeout
    ensures var m := Append(n, chunk, t);
      cfg.hasTicks && m.buf != [] ==> Elapsed(t, m.lastTick) < cfg.timeout
  {
    NoTime(t);
  }

  lemma NoTime(t: Tick)
    ensures Elapsed(t, t) == 0
  {
  }

  lemma {:induction false} LastArrives(cfg: Config, mode: Mode, polls: seq<Input>)
    requires cfg.size > 0 && AllPolls(mode, polls) && polls != [] && polls[|polls| - 1].chunk != []
    ensures |Arrived(cfg, polls)| > 0
    decreases |polls|
  {
    if |polls| > 1 {
      LastArrives(cfg, mode, polls[1..]);
    }
  }

  lemma TimesOut(cfg: Config, mode: Mode, m: Node, s: seq<Byte>, now: Tick)
    requires 0 < |s| <= cfg.size && EndsWithFirstFrame(cfg, mode, s)
    requires 0 < |m.buf| < |s| && m.buf == s[..|m.buf|]
    requires cfg.hasTicks && Elapsed(now, m.lastTick) >= cfg.timeout
    ensures Returned(Settle(cfg, mode, m, now).1) == Err(ErrTimeout)
  {
    hide Find, Elapsed;
    assert Find(cfg, mode, s[..|m.buf|]).Nothing?;
  }

  ghost predicate WaitsUntilLast(es: seq<Event>) {
    forall k: nat :: k < |es| - 1 ==> Returned(es[k]) == Wait(1)
  }

  /** Where every poll but the last waits, none of them came late. */
  lemma {:induction false} WaitsArePrompt(cfg: Config, mode: Mode, n: Node, polls: seq<Input>, s: seq<Byte>)
    requires 0 < |s| <= cfg.size && 0 < cfg.timeout && EndsWithFirstFrame(cfg, mode, s)
    requires AllPolls(mode, polls) && polls != [] && polls[|polls| - 1].chunk != []
    requires n.buf + Arrived(cfg, polls) == s
    requires WaitsUntilLast(Run(cfg, n, polls).1)
    ensures Prompt(cfg, mode, n, polls[..|polls| - 1])
    decreases |polls|
  {
    hide EndsWithFirstFrame, Settle, Elapsed, Step, Append, Find;
    if |polls| > 1 {
      var t := if cfg.hasTicks then polls[0].now else 0;
      var m := Append(n, polls[0].chunk, t);
      var rest := polls[1..];
      PollSettles(cfg, n, polls[0]);
      LastArrives(cfg, mode, rest);
      assert m.buf + Arrived(cfg, rest) == s;
      assert Returned(Run(cfg, n, polls).1[0]) == Wait(1);
      if cfg.hasTicks && n.buf != [] && polls[0].chunk == [] && Elapsed(t, n.lastTick) >= cfg.timeout {
        TimesOut(cfg, mode, m, s, t);
      }
      StillPrompt(cfg, n, polls[0].chunk, t);
      WaitsForMore(cfg, mode, m, s, t);
      assert polls[..|polls| - 1][1..] == rest[..|rest| - 1];
      var later := Run(cfg, m, rest).1;
      assert Run(cfg, n, polls).1[1..] == later;
      WaitsArePrompt(cfg, mode, m, rest, s);
    }
  }

  /** Chunking independence, of either receiver: however a stream that ends with its first frame is cut into
      chunks, and however many empty polls come between, every poll but the last waits, exactly when none of
      them comes late; and then the last leaves the very state and event that delivering the stream at once
      would. */
  lemma ChunkingIndependent(cfg: Config, mode: Mode, n: Node, polls: seq<Input>, s: seq<Byte>)
    requires 0 < |s| <= cfg.size && 0 < cfg.timeout && EndsWithFirstFrame(cfg, mode, s)
    requires AllPolls(mode, polls) && polls != [] && polls[|polls| - 1].chunk != []
    requires n.buf == [] && Arrived(cfg, polls) == s
    ensures Prompt(cfg, mode, n, polls[..|polls| - 1]) <==> WaitsUntilLast(Run(cfg, n, polls).1)
    ensures Prompt(cfg, mode, n, polls[..|polls| - 1]) ==>
      var (n', es) := Run(cfg, n, polls);
      var last := es[|es| - 1];
      && (n', last) == Step(cfg, n, Poll(mode, s, polls[|polls| - 1].now))
      && (if mode.Raw? && |s| - 3 > mode.capacity then last == Held(s, [], mode.capacity) && n'.buf == s
          else n'.buf == [] && if mode.Raw? then last == Copied(s, []) && Returned(last) == Ok else last.Dispatched?)
  {
    hide Find, Elapsed, Feed, Settle, Step, Run, Prompt, Arrived, EndsWithFirstFrame;
    var now := polls[|polls| - 1].now;
    assert n.buf + Arrived(cfg, polls) == s;
    var es := Run(cfg, n, polls).1;
    if WaitsUntilLast(es) {
      WaitsArePrompt(cfg, mode, n, polls, s);
    }
    if Prompt(cfg, mode, n, polls[..|polls| - 1]) {
      ChunksFrom(cfg, mode, n, polls, s);
    }
    PollSettles(cfg, n, Poll(mode, s, now));
    assert n.buf + s == s;
    WholeFrameTaken(cfg, mode, n, s, if cfg.hasTicks then now else 0);
  }

  lemma WholeFrameTaken(cfg: Config, mode: Mode, n: Node, s: seq<Byte>, t: Tick)
    requires 0 < |s| && EndsWithFirstFrame(cfg, mode, s)
    ensures var (n', e) := Settle(cfg, mode, n.(buf := s, lastTick := t), t);
      if mode.Raw? && |s| - 3 > mode.capacity then e == Held(s, [], mode.capacity) && n'.buf == s
      else n'.buf == [] && if mode.Raw? then e == Copied(s, []) else e.Dispatched?
  {
    hide Find, Elapsed, Feed;
    var r := Find(cfg, mode, s);
    assert s[r.start + r.len..] == [] && s[..|s|] == s;
  }

  // ---- Idle timeout ----

  /** The true time of the last append, or of the last dispatch that kept bytes, after one more call. */
  function Touched(cfg: Config, n: Node, i: Input, time: nat, touched: nat): nat {
    if !i.Poll? || cfg.size == 0 then touched
    else if i.chunk != [] then time
    else
      var e := Step(cfg, n, i).1;
      if e.Dispatched? && e.rest != [] then time else touched
  }

  /** The same after a whole run, call `k` made at true time `times[k]`. */
  function TouchedBy(cfg: Config, n: Node, inputs: seq<Input>, times: seq<nat>, touched: nat): nat
    requires |times| == |inputs|
    decreases |inputs|
  {
    if inputs == [] then touched
    else TouchedBy(cfg, Step(cfg, n, inputs[0]).0, inputs[1..], times[1..],
                   Touched(cfg, n, inputs[0], times[0], touched))
  }

  predicate OnTheClock(inputs: seq<Input>, times: seq<nat>) {
    && |times| == |inputs|
    && forall k: nat :: k < |inputs| && inputs[k].Poll? ==> inputs[k].now == times[k] % 0x1_0000_0000
  }

  lemma TickFollows(cfg: Config, n: Node, i: Input, time: nat, touched: nat)
    requires cfg.hasTicks && (i.Poll? ==> i.now == time % 0x1_0000_0000)
    requires n.lastTick == touched % 0x1_0000_0000
    ensures Step(cfg, n, i).0.lastTick == Touched(cfg, n, i, time, touched) % 0x1_0000_0000
  {
    hide Find, Feed, Elapsed;
    if i.Poll? && cfg.size > 0 {
      var m := Append(n, i.chunk, i.now);
      var r := Find(cfg, i.mode, m.buf);
      if r.At? {
        FeedKeeps(cfg, m, m.buf[r.start..r.start + r.len]);
      }
    }
  }

  lemma {:induction false} TicksFollow(cfg: Config, n: Node, inputs: seq<Input>, times: seq<nat>, touched: nat)
    requires cfg.hasTicks && OnTheClock(inputs, times)
    requires n.lastTick == touched % 0x1_0000_0000
    ensures Run(cfg, n, inputs).0.lastTick == TouchedBy(cfg, n, inputs, times, touched) % 0x1_0000_0000
    decreases |inputs|
  {
    hide Step, Touched;
    if inputs != [] {
      TickFollows(cfg, n, inputs[0], times[0], touched);
      TicksFollow(cfg, Step(cfg, n, inputs[0]).0, inputs[1..], times[1..],
                  Touched(cfg, n, inputs[0], times[0], touched));
    }
  }

  lemma ElapsedIsTrueTime(time: nat, since: nat)
    requires since <= time < since + 0x1_0000_0000
    ensures Elapsed(time % 0x1_0000_0000, since % 0x1_0000_0000) == time - since
  {
  }

  /** The idle timeout is exact across tick wraparound: after any run, a poll of either receiver times out
      exactly when bytes are buffered that neither fill the buffer nor hold a frame, and the true time since
      they were last touched has reached the timeout. */
  lemma TimeoutIsExact(cfg: Config, n: Node, inputs: seq<Input>, times: seq<nat>, touched: nat,
                       mode: Mode, chunk: seq<Byte>, time: nat)
    requires cfg.hasTicks && cfg.size > 0 && OnTheClock(inputs, times)
    requires n.lastTick == touched % 0x1_0000_0000
    requires chunk == [] ==>
      var since := TouchedBy(cfg, n, inputs, times, touched); since <= time < since + 0x1_0000_0000
    ensures var (n', _) := Run(cfg, n, inputs);
      var buf := n'.buf + chunk;
      var idle := if chunk == [] then time - TouchedBy(cfg, n, inputs, times, touched) else 0;
      var returned := Returned(Step(cfg, n', Poll(mode, chunk, time % 0x1_0000_0000)).1);
      returned == Err(ErrTimeout) <==> 0 < |buf| < cfg.size && Find(cfg, mode, buf).Nothing? && idle >= cfg.timeout
  {
    hide Find, Feed, Run, TouchedBy;
    var now := time % 0x1_0000_0000;
    var (n', _) := Run(cfg, n, inputs);
    var since := TouchedBy(cfg, n, inputs, times, touched);
    TicksFollow(cfg, n, inputs, times, touched);
    NoTime(now);
    if chunk == [] {
      ElapsedIsTrueTime(time, since);
      assert n'.buf + chunk == n'.buf;
    }
    var m := Append(n', chunk, now);
    var r := Find(cfg, mode, m.buf);
    if r.At? {
      NeverTimesOutOnFrame(cfg, m, m.buf[r.start..r.start + r.len]);
    }
  }

  /** No parse reports a timeout or a full buffer. */
  lemma NeverTimesOutOnFrame(cfg: Config, n: Node, frame: seq<Byte>)
    ensures Feed(cfg, n, frame).0 !in {Err(ErrTimeout), Err(ErrBufferFull)}
  {
    hide Unwrap;
    if |frame| >= 4 {
      FramingErrors(cfg.slave, cfg.discovery, frame);
    } else {
      ShortFrameWaits(cfg.slave, cfg.discovery, frame);
    }
  }

  /** The raw receiver finds a frame that its caller has no room for. */
  predicate TooLarge(cfg: Config, mode: Mode, buf: seq<Byte>) {
    mode.Raw? && var r := Find(cfg, mode, buf); r.At? && r.len - 3 > mode.capacity
  }

  /** A poll reports a full buffer exactly when the buffer is full and holds no frame, or when the raw
      receiver finds a frame too large for its caller; it empties the buffer in the first case, and leaves
      all of it in the second. */
  lemma OverflowIsExact(cfg: Config, n: Node, mode: Mode, chunk: seq<Byte>, now: Tick)
    requires cfg.size > 0 && |n.buf| + |chunk| <= cfg.size
    ensures var (n', e) := Step(cfg, n, Poll(mode, chunk, now));
      var buf := n.buf + chunk;
      var full := |buf| == cfg.size && Find(cfg, mode, buf).Nothing?;
      && (Returned(e) == Err(ErrBufferFull) <==> full || TooLarge(cfg, mode, buf))
      && (full ==> n'.buf == [] && e == Flushed(buf, ErrBufferFull))
      && (TooLarge(cfg, mode, buf) ==> n'.buf == buf && e.Held? && e.frame + e.rest == buf)
  {
    hide Find, Feed, Elapsed;
    var t := if cfg.hasTicks then now else 0;
    var m := Append(n, chunk, t);
    assert m.buf == n.buf + chunk;
    var r := Find(cfg, mode, m.buf);
    if r.At? {
      NeverTimesOutOnFrame(cfg, m, m.buf[r.start..r.start + r.len]);
    }
  }

  /** What every poll returns: the parser's verdict on the frame it dispatched; Ok for a raw frame copied out,
      and then only; and where nothing is found, that it waits, unless the buffer is full or stale. Without a
      tick source it never times out. */
  lemma PollResult(cfg: Config, mode: Mode, n: Node, chunk: seq<Byte>, now: Tick)
    requires cfg.size > 0
    ensures var (n', e) := Step(cfg, n, Poll(mode, chunk, now));
      var buf := n.buf + chunk;
      var r := Find(cfg, mode, buf);
      var returned := Returned(e);
      && (mode.Raw? ==> (returned == Ok <==> e.Copied?))
      && (e.Copied? <==> mode.Raw? && r.At? && r.len - 3 <= mode.capacity)
      && (mode.Framed? && r.At? ==> returned == Feed(cfg, n, buf[r.start..r.start + r.len]).0)
      && (r.Nothing? ==>
            && (buf == [] ==> returned == Wait(1))
            && returned in {Wait(1), Err(ErrBufferFull), Err(ErrTimeout)}
            && (returned == Wait(1) ==> n'.buf == buf))
      && (r.At? ==> returned != Wait(1) && returned != Err(ErrTimeout))
      && (!cfg.hasTicks ==> returned != Err(ErrTimeout))
  {
    hide ScanFrom, ScanRaw, Elapsed, Feed;
    var m := Append(n, chunk, if cfg.hasTicks then now else 0);
    assert m.buf == n.buf + chunk;
    var r := Find(cfg, mode, m.buf);
    if r.At? && mode.Framed? {
      var frame := m.buf[r.start..r.start + r.len];
      NeverTimesOutOnFrame(cfg, m, frame);
      FoundIsParsed(cfg, m);
      SameVerdict(cfg, n, m, frame);
    }
  }

  lemma SameVerdict(cfg: Config, n: Node, m: Node, frame: seq<Byte>)
    requires n.master == m.master && n.request == m.request
    ensures Feed(cfg, n, frame).0 == Feed(cfg, m, frame).0
  {
    hide SlaveRequests.SlaveFeed, Responses.MasterFeed;
  }

  lemma FoundIsParsed(cfg: Config, n: Node)
    requires Scan(cfg, n.buf).At?
    ensures var r := Scan(cfg, n.buf); !Feed(cfg, n, n.buf[r.start..r.start + r.len]).0.Wait?
  {
    hide Unwrap, Feed, ScanFrom, SafeDispatch;
    DispatchIsSafe(cfg, n, 0);
    var r := Scan(cfg, n.buf);
    SafeIsParsed(cfg, Dispatch(cfg, n, 0, r.start, r.len).1);
  }

  lemma SafeIsParsed(cfg: Config, e: Event)
    requires e.Dispatched? && SafeDispatch(cfg, e)
    ensures !e.status.Wait?
  {
  }

  /** Without a buffer, and where the callback fails, a poll changes nothing, and says so. */
  lemma RefusedPolls(cfg: Config, mode: Mode, n: Node, chunk: seq<Byte>, now: Tick)
    ensures var (n', e) := Step(cfg, n, PollFailing(mode));
      && n' == n
      && Returned(e) == Err(if cfg.size > 0 then ErrCallback else if mode.Framed? then ErrState else ErrBadParam)
    ensures cfg.size == 0 ==>
      var (n', e) := Step(cfg, n, Poll(mode, chunk, now));
      n' == n && Returned(e) == Err(if mode.Framed? then ErrState else ErrBadParam)
  {
  }

  /** A reset empties the accumulator, and nothing else. */
  lemma ResetEmpties(cfg: Config, n: Node)
    ensures Step(cfg, n, Reset) == (n.(buf := []), Discarded(n.buf))
  {
  }

  /** Which hard errors empty the accumulator: a poll that returns an error leaves it empty exactly when it
      found no frame, or when the frame it parsed was the last thing buffered; and a poll whose callback fails
      leaves it as it was. */
  lemma ErrorEmpties(cfg: Config, mode: Mode, n: Node, chunk: seq<Byte>, now: Tick)
    requires cfg.size > 0
    ensures var (n', e) := Step(cfg, n, Poll(mode, chunk, now));
      var buf := n.buf + chunk;
      var r := Find(cfg, mode, buf);
      Returned(e).Err? ==> (n'.buf == [] <==> r.Nothing? || (mode.Framed? && r.start + r.len == |buf|))
    ensures Step(cfg, n, PollFailing(mode)) == (n, Refused(ErrCallback))
  {
    hide Find, Feed, Elapsed;
    var m := Append(n, chunk, if cfg.hasTicks then now else 0);
    assert m.buf == n.buf + chunk;
    var r := Find(cfg, mode, m.buf);
    if r.At? {
      FeedKeeps(cfg, m, m.buf[r.start..r.start + r.len]);
    }
  }

  /** A hard error that empties nothing: a slave that gets an exception response and one byte more reports a
      protocol error and keeps that byte. */
  lemma ErrorKeepsBytes(cfg: Config, n: Node, addr: Byte, code: Byte, x: Byte, now: Tick)
    requires cfg.slaveMode && cfg.size > 0 && n.buf == [] && Accepts(cfg.slave, cfg.discovery, addr)
    ensures var (n', e) := Step(cfg, n, Poll(Framed, Frame(addr, [0x83, code]) + [x], now));
      Returned(e) == Err(ErrProtocol) && n'.buf == [x]
  {
    hide Step, Frame, TrailerMatches;
    var pdu: seq<Byte> := [0x83, code];
    var f := Frame(addr, pdu);
    ExceptionFrame(addr, code);
    FrameParts(addr, pdu);
    RoundTrip(cfg.slave, cfg.discovery, addr, pdu);
    assert n.buf + (f + [x]) == f + [x];
    PollTakesFirst(cfg, n, f + [x], f, [x], now);
  }

  lemma ExceptionFrame(addr: Byte, code: Byte)
    ensures var f := Frame(addr, [0x83, code]); f[1] == 0x83 && FrameLength(f) == Exactly(5)
  {
    hide Crc;
  }

  /** After a timeout the next complete frame is dispatched whole, whatever garbage timed out. */
  lemma ResyncsAfterTimeout(cfg: Config, n: Node, chunk: seq<Byte>, now: Tick, f: seq<Byte>, later: Tick)
    requires Complete(cfg, f)
    ensures var (n', es) := Run(cfg, n, [Poll(Framed, chunk, now), Poll(Framed, f, later)]);
      Returned(es[0]) == Err(ErrTimeout) ==>
        n'.buf == [] && es[1].Dispatched? && es[1].skipped == [] && es[1].frame == f && !es[1].status.Wait?
  {
    hide Complete, Step;
    var (n1, e1) := Step(cfg, n, Poll(Framed, chunk, now));
    var (n2, e2) := Step(cfg, n1, Poll(Framed, f, later));
    var inputs := [Poll(Framed, chunk, now), Poll(Framed, f, later)];
    assert inputs[1..] == [Poll(Framed, f, later)] && [Poll(Framed, f, later)][1..] == [];
    assert Run(cfg, n1, inputs[1..]) == (n2, [e2] + []);
    TimeoutEmpties(cfg, n, chunk, now);
    if Returned(e1) == Err(ErrTimeout) {
      assert n1.buf + f == f + [];
      PollTakesFirst(cfg, n1, f, f, [], later);
      CompleteParses(cfg, n1, f);
    }
  }

  lemma CompleteParses(cfg: Config, n: Node, f: seq<Byte>)
    requires Complete(cfg, f)
    ensures !Feed(cfg, n, f).0.Wait?
  {
    hide Unwrap, Feed;
    ParsedAtOnce(cfg, n, f);
  }

  lemma TimeoutEmpties(cfg: Config, n: Node, chunk: seq<Byte>, now: Tick)
    ensures var (n', e) := Step(cfg, n, Poll(Framed, chunk, now));
      Returned(e) == Err(ErrTimeout) ==> cfg.size > 0 && n'.buf == []
  {
    hide Find, Feed, Elapsed;
    var m := Append(n, chunk, if cfg.hasTicks then now else 0);
    var r := Find(cfg, Framed, m.buf);
    if r.At? {
      NeverTimesOutOnFrame(cfg, m, m.buf[r.start..r.start + r.len]);
    }
  }
}
