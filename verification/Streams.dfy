/** Streams of several frames, received in chunks that need not end where a frame does. */
module Streams {
  import opened Bytes
  import opened Status
  import opened Receiver
  import opened ReceiverTheorems

  /** A frame the receiver recognises at its end and not before: no proper prefix of it holds a frame. */
  ghost predicate Clean(cfg: Config, f: seq<Byte>) {
    && Complete(cfg, f) && |f| <= cfg.size
    && forall k: nat :: k < |f| ==> Scan(cfg, f[..k]).Nothing?
  }

  /** The start of something in which no frame is found. */
  ghost predicate Unfinished(cfg: Config, tail: seq<Byte>) {
    |tail| < cfg.size && forall k: nat :: k <= |tail| ==> Scan(cfg, tail[..k]).Nothing?
  }

  ghost predicate NoTimeout(es: seq<Event>) {
    forall k: nat :: k < |es| ==> Returned(es[k]) != Err(ErrTimeout)
  }

  /** The frames a run dispatched, in order. */
  function Frames(es: seq<Event>): seq<seq<Byte>> {
    if es == [] then [] else (if es[0].Dispatched? then [es[0].frame] else []) + Frames(es[1..])
  }

  /** Each event dispatched a frame without skipping anything, or waited. */
  ghost predicate Orderly(es: seq<Event>) {
    forall k: nat :: k < |es| ==> es[k] == Waiting || (es[k].Dispatched? && es[k].skipped == [])
  }

  /** The run so far has dispatched the first frames of `fs`, in order, and keeps the rest of the stream. */
  ghost predicate InOrder(cfg: Config, n: Node, fs: seq<seq<Byte>>, tail: seq<Byte>, n': Node, es: seq<Event>) {
    var done := Frames(es);
    && Orderly(es)
    && |done| <= |fs| && done == fs[..|done|]
    && n'.buf == Concat(fs[|done|..]) + tail
    && n'.master == FeedAll(cfg, n, done).master && n'.request == FeedAll(cfg, n, done).request
  }

  /** However a stream of clean frames and an unfinished tail is cut into chunks, a run in which no poll times
      out dispatches frames of it in order, each whole, skips nothing, and keeps just what is left. */
  lemma {:induction false} StreamInOrder(cfg: Config, n: Node, polls: seq<Input>,
                                         fs: seq<seq<Byte>>, tail: seq<Byte>)
    requires cfg.size > 0 && AllPolls(Framed, polls)
    requires Unfinished(cfg, tail) && forall k: nat :: k < |fs| ==> Clean(cfg, fs[k])
    requires n.buf + Arrived(cfg, polls) == Concat(fs) + tail
    requires NoTimeout(Run(cfg, n, polls).1)
    ensures var (n', es) := Run(cfg, n, polls); InOrder(cfg, n, fs, tail, n', es)
    decreases |polls|
  {
    hide Step, Feed, InOrder, NoTimeout, Clean, Unfinished;
    if polls == [] {
      NothingYet(cfg, n, fs, tail);
    } else {
      var (n1, e) := Step(cfg, n, polls[0]);
      var later := Run(cfg, n1, polls[1..]);
      var buf := n.buf + polls[0].chunk;
      var left := Arrived(cfg, polls[1..]);
      assert Run(cfg, n, polls) == (later.0, [e] + later.1);
      FirstTimely(e, later.1);
      assert buf + left == Concat(fs) + tail;
      if fs != [] && |buf| >= |fs[0]| {
        var f := fs[0];
        CutAtFrame(buf, left, fs, tail);
        CleanIsComplete(cfg, f);
        PollTakesFirst(cfg, n, polls[0].chunk, f, buf[|f|..], polls[0].now);
        StreamInOrder(cfg, n1, polls[1..], fs[1..], tail);
        OneMoreFrame(cfg, n, n1, fs, tail, later.0, e, later.1);
      } else {
        PollWaits(cfg, n, polls[0], fs, tail, left);
        StreamInOrder(cfg, n1, polls[1..], fs, tail);
        OneMoreWait(cfg, n, n1, fs, tail, later.0, later.1);
      }
    }
  }

  lemma NothingYet(cfg: Config, n: Node, fs: seq<seq<Byte>>, tail: seq<Byte>)
    requires n.buf + [] == Concat(fs) + tail
    ensures InOrder(cfg, n, fs, tail, n, [])
  {
    assert n.buf + [] == n.buf && fs[0..] == fs && fs[..0] == [];
  }

  lemma FirstTimely(e: Event, es: seq<Event>)
    requires NoTimeout([e] + es)
    ensures Returned(e) != Err(ErrTimeout) && NoTimeout(es)
  {
    assert ([e] + es)[0] == e;
    assert forall k: nat :: k < |es| ==> ([e] + es)[k + 1] == es[k];
  }

  lemma CutAtFrame(buf: seq<Byte>, left: seq<Byte>, fs: seq<seq<Byte>>, tail: seq<Byte>)
    requires fs != [] && |buf| >= |fs[0]| && buf + left == Concat(fs) + tail
    ensures buf == fs[0] + buf[|fs[0]|..]
    ensures buf[|fs[0]|..] + left == Concat(fs[1..]) + tail
  {
    assert Concat(fs) + tail == fs[0] + (Concat(fs[1..]) + tail);
    Cut(buf, left, fs[0], Concat(fs[1..]) + tail);
  }

  lemma Cut(buf: seq<Byte>, left: seq<Byte>, f: seq<Byte>, rest: seq<Byte>)
    requires buf + left == f + rest && |buf| >= |f|
    ensures buf == f + buf[|f|..] && buf[|f|..] + left == rest
  {
    var s := buf + left;
    assert buf[..|f|] == s[..|f|] && (f + rest)[..|f|] == f;
    assert buf[|f|..] + left == s[|f|..] && (f + rest)[|f|..] == rest;
  }

  lemma CleanIsComplete(cfg: Config, f: seq<Byte>)
    requires Clean(cfg, f)
    ensures Complete(cfg, f)
  {
  }

  /** A poll that does not complete the next frame, and does not time out, waits. */
  lemma PollWaits(cfg: Config, n: Node, i: Input, fs: seq<seq<Byte>>, tail: seq<Byte>, left: seq<Byte>)
    requires cfg.size > 0 && i.Poll? && i.mode.Framed?
    requires Unfinished(cfg, tail) && forall k: nat :: k < |fs| ==> Clean(cfg, fs[k])
    requires (n.buf + i.chunk) + left == Concat(fs) + tail
    requires fs != [] ==> |n.buf + i.chunk| < |fs[0]|
    requires Returned(Step(cfg, n, i).1) != Err(ErrTimeout)
    ensures var (n1, e) := Step(cfg, n, i);
      && e == Waiting && n1.buf == n.buf + i.chunk && n1.master == n.master && n1.request == n.request
  {
    hide Scan, Clean, Unfinished, Elapsed, Step;
    HoldsNoFrame(cfg, n.buf + i.chunk, fs, tail, left);
    PollSettles(cfg, n, i);
  }

  lemma HoldsNoFrame(cfg: Config, buf: seq<Byte>, fs: seq<seq<Byte>>, tail: seq<Byte>, left: seq<Byte>)
    requires Unfinished(cfg, tail) && forall k: nat :: k < |fs| ==> Clean(cfg, fs[k])
    requires buf + left == Concat(fs) + tail && (fs != [] ==> |buf| < |fs[0]|)
    ensures Scan(cfg, buf).Nothing? && |buf| < cfg.size
  {
    hide Scan, Complete;
    if fs == [] {
      assert buf == (buf + left)[..|buf|] == tail[..|buf|];
    } else {
      assert Concat(fs) + tail == fs[0] + (Concat(fs[1..]) + tail);
      assert buf == (buf + left)[..|buf|] == fs[0][..|buf|];
    }
  }

  lemma OneMoreFrame(cfg: Config, n: Node, n1: Node, fs: seq<seq<Byte>>, tail: seq<Byte>, n': Node, e: Event,
                     es: seq<Event>)
    requires fs != [] && e.Dispatched? && e.skipped == [] && e.frame == fs[0]
    requires var fed := Feed(cfg, n, fs[0]).1; n1.master == fed.master && n1.request == fed.request
    requires InOrder(cfg, n1, fs[1..], tail, n', es)
    ensures InOrder(cfg, n, fs, tail, n', [e] + es)
  {
    hide Feed;
    var done := Frames(es);
    assert ([e] + es)[1..] == es;
    assert Frames([e] + es) == [fs[0]] + done;
    assert ([fs[0]] + done)[1..] == done;
    assert fs[..|done| + 1] == [fs[0]] + fs[1..][..|done|];
    assert fs[|done| + 1..] == fs[1..][|done|..];
    FeedIgnoresBuffer(cfg, n1, Feed(cfg, n, fs[0]).1, done);
  }

  lemma OneMoreWait(cfg: Config, n: Node, n1: Node, fs: seq<seq<Byte>>, tail: seq<Byte>, n': Node, es: seq<Event>)
    requires n1.master == n.master && n1.request == n.request
    requires InOrder(cfg, n1, fs, tail, n', es)
    ensures InOrder(cfg, n, fs, tail, n', [Waiting] + es)
  {
    assert ([Waiting] + es)[1..] == es;
    assert Frames([Waiting] + es) == [] + Frames(es) == Frames(es);
    FeedIgnoresBuffer(cfg, n1, n, Frames(es));
  }

  /** And as many idle polls as frames are left, whenever they come, dispatch the rest: every frame of the
      stream is dispatched, once and in order, the parse state is that of feeding them one by one, and just
      the tail is kept. */
  lemma StreamDrains(cfg: Config, n: Node, polls: seq<Input>, fs: seq<seq<Byte>>, tail: seq<Byte>, nows: seq<Tick>)
    requires cfg.size > 0 && AllPolls(Framed, polls)
    requires Unfinished(cfg, tail) && forall k: nat :: k < |fs| ==> Clean(cfg, fs[k])
    requires n.buf + Arrived(cfg, polls) == Concat(fs) + tail
    requires NoTimeout(Run(cfg, n, polls).1)
    requires |Frames(Run(cfg, n, polls).1)| + |nows| == |fs|
    ensures var (n', es) := Run(cfg, n, polls + IdlePolls(nows));
      && Frames(es) == fs && n'.buf == tail
      && n'.master == FeedAll(cfg, n, fs).master && n'.request == FeedAll(cfg, n, fs).request
  {
    hide Step, Feed, NoTimeout, Unfinished, Clean, Run, IdlePolls, FeedAll, Concat, Frames, Orderly;
    var (n1, es1) := Run(cfg, n, polls);
    StreamInOrder(cfg, n, polls, fs, tail);
    var done := Frames(es1);
    var rest := fs[|done|..];
    assert fs == done + rest;
    RestDrains(cfg, n1, done, rest, tail, nows);
    RunAppend(cfg, n, polls, IdlePolls(nows));
    FramesAppend(es1, Run(cfg, n1, IdlePolls(nows)).1);
    FeedIgnoresBuffer(cfg, n1, FeedAll(cfg, n, done), rest);
    FeedAllAppend(cfg, n, done, rest);
  }

  lemma RestDrains(cfg: Config, n: Node, done: seq<seq<Byte>>, rest: seq<seq<Byte>>, tail: seq<Byte>, nows: seq<Tick>)
    requires cfg.size > 0 && |nows| == |rest| && n.buf == Concat(rest) + tail
    requires forall k: nat :: k < |done + rest| ==> Clean(cfg, (done + rest)[k])
    ensures var (n', es) := Run(cfg, n, IdlePolls(nows));
      && Frames(es) == rest && n'.buf == tail
      && n'.master == FeedAll(cfg, n, rest).master && n'.request == FeedAll(cfg, n, rest).request
  {
    hide Clean, Complete, Run, FeedAll, Concat, Frames;
    forall k: nat | k < |rest|
      ensures Complete(cfg, rest[k])
    {
      assert rest[k] == (done + rest)[|done| + k];
      CleanIsComplete(cfg, rest[k]);
    }
    DrainsInOrder(cfg, n, rest, tail, nows);
    AllDispatched(Run(cfg, n, IdlePolls(nows)).1, rest);
  }

  lemma {:induction false} RunAppend(cfg: Config, n: Node, first: seq<Input>, second: seq<Input>)
    ensures var (n1, es1) := Run(cfg, n, first);
      var (n2, es2) := Run(cfg, n1, second);
      Run(cfg, n, first + second) == (n2, es1 + es2)
    decreases |first|
  {
    hide Step;
    if first == [] {
      assert first + second == second;
      assert [] + Run(cfg, n, second).1 == Run(cfg, n, second).1;
    } else {
      var (n1, e) := Step(cfg, n, first[0]);
      assert (first + second)[1..] == first[1..] + second;
      RunAppend(cfg, n1, first[1..], second);
      var es := Run(cfg, n1, first[1..]).1;
      var later := Run(cfg, Run(cfg, n1, first[1..]).0, second).1;
      assert [e] + (es + later) == ([e] + es) + later;
    }
  }

  lemma {:induction false} FramesAppend(es: seq<Event>, later: seq<Event>)
    ensures Frames(es + later) == Frames(es) + Frames(later)
    decreases |es|
  {
    if es == [] {
      assert es + later == later;
    } else {
      assert (es + later)[1..] == es[1..] + later;
      FramesAppend(es[1..], later);
      var first := if es[0].Dispatched? then [es[0].frame] else [];
      assert first + (Frames(es[1..]) + Frames(later)) == (first + Frames(es[1..])) + Frames(later);
    }
  }

  lemma {:induction false} AllDispatched(es: seq<Event>, fs: seq<seq<Byte>>)
    requires |es| == |fs| && forall k: nat :: k < |es| ==> es[k].Dispatched? && es[k].frame == fs[k]
    ensures Frames(es) == fs
    decreases |es|
  {
    if es != [] {
      AllDispatched(es[1..], fs[1..]);
      assert fs == [fs[0]] + fs[1..];
    }
  }

  lemma {:induction false} FeedAllAppend(cfg: Config, n: Node, fs: seq<seq<Byte>>, later: seq<seq<Byte>>)
    ensures FeedAll(cfg, n, fs + later) == FeedAll(cfg, FeedAll(cfg, n, fs), later)
    decreases |fs|
  {
    hide Feed;
    if fs == [] {
      assert fs + later == later;
    } else {
      assert (fs + later)[1..] == fs[1..] + later;
      FeedAllAppend(cfg, Feed(cfg, n, fs[0]).1, fs[1..], later);
    }
  }
}
