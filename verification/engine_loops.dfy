// The receive and send loops of the two engines (src/engine.rs and src/fix_engine.rs) as functions
// of what the environment does on each pass: what the running flag reads, what a socket read
// returns and what the outgoing channel yields. Threads, sockets and channels are not modelled;
// a pass of a loop is one iteration of its `while`.

module EngineLoops {
  import opened Wire
  import opened Framing
  import FixMessageCodec

  // ---------------------------------------------------------------------------
  // Receiving

  /** What `stream_reader.read(&mut tmp_buf)` returns: `Ok(size)` with the `size` bytes read (none
      for a zero-size read), or an error of kind TimedOut, WouldBlock or any other kind. */
  datatype ReadResult = Data(chunk: string) | TimedOut | WouldBlock | OtherError

  /** One pass of a receive loop as the environment decides it: the running flag at the loop head,
      the read, and the flag as read again in the timeout branch of src/engine.rs. */
  datatype RxTick = RxTick(runningAtHead: bool, read: ReadResult, runningAtCheck: bool)

  /** The two receive loops: src/engine.rs goes on after a timeout while the flag is set;
      src/fix_engine.rs has one error arm, so every read error ends it. */
  datatype LoopKind = EngineRs | FixEngineRs

  /** Why a receive loop ended: it read the flag false, a read failed, `decode` panicked on its
      `usize` subtraction (which `RunEndReasons` shows cannot happen on a frame), or it was still
      running when the passes ran out. */
  datatype RxEnd = Stopped | ReadFailed | Panicked | StillRunning

  /** The receive thread's buffer, the frames taken out of the stream so far, and the messages sent
      on `incoming_tx`. */
  datatype Receiving = Receiving(buffer: string, frames: seq<string>, delivered: seq<Message>)

  /** The state a receive loop ends in, how many passes it made and why it ended. */
  datatype RxRun = RxRun(state: Receiving, passes: nat, end: RxEnd)

  /** The frames laid end to end. */
  function Concat(fs: seq<string>): string
  {
    if fs == [] then "" else fs[0] + Concat(fs[1..])
  }

  /** The message `incoming_tx` receives for one decode result: the message of a success, else none. */
  function Accepted(d: FixMessageCodec.Decoded): seq<Message>
  {
    match d
    case Returned(Ok(m)) => [m]
    case _ => []
  }

  /** What `decode` gives for each frame, keeping only the successes: what `incoming_tx` receives. */
  function OkDecodes(frames: seq<string>): seq<Message>
  {
    if frames == [] then [] else Accepted(FixMessageCodec.Decoding(frames[0])) + OkDecodes(frames[1..])
  }

  /** A frame `frame` was extracted from `buffer`, leaving `remaining`, and `decode` gave `d`: a
      panic ends the loop with `buffer` kept; otherwise the frame is taken, a success is sent on,
      and the buffer becomes the remainder whatever `decode` said. */
  function TakeFrame(st: Receiving, buffer: string, frame: string, remaining: string, d: FixMessageCodec.Decoded): (Receiving, Option<RxEnd>)
  {
    if d.SubtractOverflow? then (st.(buffer := buffer), Some(Panicked))
    else (Receiving(remaining, st.frames + [frame], st.delivered + Accepted(d)), None)
  }

  /** The `Ok(size)` arm: a non-empty chunk is appended and at most one frame is extracted. */
  function OnData(st: Receiving, chunk: string): (Receiving, Option<RxEnd>)
  {
    if |chunk| == 0 then (st, None)
    else
      var buffer := st.buffer + chunk;
      match ExtractCompleteMessage(buffer)
      case None => (st.(buffer := buffer), None)
      case Some((frame, remaining)) => TakeFrame(st, buffer, frame, remaining, FixMessageCodec.Decoding(frame))
  }

  /** The body of a receive loop after its head check: the new state, and the end if the loop ends. */
  function Pass(kind: LoopKind, st: Receiving, t: RxTick): (Receiving, Option<RxEnd>)
  {
    match t.read
    case Data(chunk) => OnData(st, chunk)
    case OtherError => (st, Some(ReadFailed))
    case _ =>
      if kind == FixEngineRs then (st, Some(ReadFailed))
      else if t.runningAtCheck then (st, None)
      else (st, Some(Stopped))
  }

  /** `r` with `k` more passes. */
  function Later(r: RxRun, k: nat): RxRun
  {
    r.(passes := r.passes + k)
  }

  /** A receive loop of kind `kind` from `st` over the passes `ticks`. */
  function Run(kind: LoopKind, st: Receiving, ticks: seq<RxTick>): RxRun
    decreases |ticks|
  {
    if ticks == [] then RxRun(st, 0, StillRunning)
    else if !ticks[0].runningAtHead then RxRun(st, 0, Stopped)
    else
      var (next, end) := Pass(kind, st, ticks[0]);
      if end.Some? then RxRun(next, 1, end.value)
      else Later(Run(kind, next, ticks[1..]), 1)
  }

  /** The receive thread's starting state: `let mut buffer = vec![]`, nothing sent. */
  const START: Receiving := Receiving([], [], [])

  /** One pass of a running loop, unfolded. */
  lemma RunPass(kind: LoopKind, st: Receiving, ticks: seq<RxTick>)
    requires ticks != [] && ticks[0].runningAtHead
    ensures var (next, end) := Pass(kind, st, ticks[0]);
      Run(kind, st, ticks) == if end.Some? then RxRun(next, 1, end.value) else Later(Run(kind, next, ticks[1..]), 1)
  {
  }

  /** The run from pass `i` on, unfolded once. */
  lemma RunAt(kind: LoopKind, st: Receiving, ticks: seq<RxTick>, i: nat)
    requires i < |ticks|
    ensures var (next, end) := Pass(kind, st, ticks[i]);
      Run(kind, st, ticks[i..]) ==
        if !ticks[i].runningAtHead then RxRun(st, 0, Stopped)
        else if end.Some? then RxRun(next, 1, end.value)
        else Later(Run(kind, next, ticks[i + 1..]), 1)
  {
    assert ticks[i..][0] == ticks[i] && ticks[i..][1..] == ticks[i + 1..];
  }

  /** The bytes the reads of `ticks` returned, in order. */
  function Chunks(ticks: seq<RxTick>): string
  {
    if ticks == [] then ""
    else (if ticks[0].read.Data? then ticks[0].read.chunk else "") + Chunks(ticks[1..])
  }

  lemma {:induction false} ConcatAppend(a: seq<string>, b: seq<string>)
    ensures Concat(a + b) == Concat(a) + Concat(b)
  {
    if a == [] {
      assert a + b == b;
    } else {
      assert (a + b)[1..] == a[1..] + b;
      ConcatAppend(a[1..], b);
    }
  }

  lemma {:induction false} OkDecodesAppend(a: seq<string>, b: seq<string>)
    ensures OkDecodes(a + b) == OkDecodes(a) + OkDecodes(b)
  {
    if a == [] {
      assert a + b == b;
    } else {
      assert (a + b)[1..] == a[1..] + b;
      OkDecodesAppend(a[1..], b);
    }
  }

  /** A zero-size read changes nothing. */
  lemma ZeroReadKeepsBuffer(st: Receiving)
    ensures OnData(st, "") == (st, None)
  {
  }

  /** Without a complete frame in buffer plus chunk, the chunk stays appended and nothing is sent. */
  lemma IncompleteFrameKept(st: Receiving, chunk: string)
    requires |chunk| > 0 && ExtractCompleteMessage(st.buffer + chunk).None?
    ensures OnData(st, chunk) == (st.(buffer := st.buffer + chunk), None)
  {
  }

  /** One frame in sequence form receives what its decode gives. */
  lemma OkDecodesOne(frame: string)
    ensures OkDecodes([frame]) == Accepted(FixMessageCodec.Decoding(frame))
  {
    assert [frame][1..] == [];
  }

  /** A frame ends with SOH, so `decode` never reaches its underflowing subtraction on it. */
  lemma FrameNeverUnderflows(buffer: string)
    requires ExtractCompleteMessage(buffer).Some?
    ensures !FixMessageCodec.Decoding(ExtractCompleteMessage(buffer).value.0).SubtractOverflow?
  {
    var frame := ExtractCompleteMessage(buffer).value.0;
    ExtractSplitsBuffer(buffer);
    assert frame[|frame| - 1] in frame;
    FixMessageCodec.DecodingUnderflowsOnlyWithoutSoh(frame);
  }

  /** With a complete frame, the buffer becomes the bytes after it whatever `decode` said; only a
      successful decode is sent on. */
  lemma FrameReplacesBuffer(st: Receiving, chunk: string, frame: string, remaining: string)
    requires |chunk| > 0 && ExtractCompleteMessage(st.buffer + chunk) == Some((frame, remaining))
    ensures var (next, end) := OnData(st, chunk);
      && end.None? && next.buffer == remaining && next.frames == st.frames + [frame]
      && next.delivered == st.delivered + OkDecodes([frame])
  {
    FrameNeverUnderflows(st.buffer + chunk);
    OkDecodesOne(frame);
  }

  /** No pass of a receive loop ends in a panic: every frame it decodes ends with SOH. */
  lemma PassNeverPanics(kind: LoopKind, st: Receiving, t: RxTick)
    ensures Pass(kind, st, t).1 != Some(Panicked)
  {
    if t.read.Data? && |t.read.chunk| > 0 && ExtractCompleteMessage(st.buffer + t.read.chunk).Some? {
      FrameNeverUnderflows(st.buffer + t.read.chunk);
    }
  }

  /** Taking a frame conserves bytes and sends on exactly its successful decode. */
  lemma TakeFrameConserves(st: Receiving, buffer: string, frame: string, remaining: string)
    requires frame + remaining == buffer
    ensures var (next, end) := TakeFrame(st, buffer, frame, remaining, FixMessageCodec.Decoding(frame));
      && Concat(next.frames) + next.buffer == Concat(st.frames) + buffer
      && |st.frames| <= |next.frames| <= |st.frames| + 1 && next.frames[..|st.frames|] == st.frames
      && next.delivered == st.delivered + OkDecodes(next.frames[|st.frames|..])
  {
    var d := FixMessageCodec.Decoding(frame);
    if d.SubtractOverflow? {
      assert st.frames[..|st.frames|] == st.frames && st.frames[|st.frames|..] == [];
    } else {
      var frames := st.frames + [frame];
      ConcatAppend(st.frames, [frame]);
      assert Concat([frame]) == frame + Concat([]);
      assert frames[..|st.frames|] == st.frames;
      assert frames[|st.frames|..] == [frame];
      OkDecodesOne(frame);
    }
  }

  /** One read neither loses nor duplicates bytes: the frames taken plus the buffer grow by exactly
      the chunk, by at most one frame, and the messages sent are the successful decodes of the
      frames taken. */
  lemma OnDataConserves(st: Receiving, chunk: string)
    ensures var (next, end) := OnData(st, chunk);
      && Concat(next.frames) + next.buffer == Concat(st.frames) + st.buffer + chunk
      && |st.frames| <= |next.frames| <= |st.frames| + 1 && next.frames[..|st.frames|] == st.frames
      && next.delivered == st.delivered + OkDecodes(next.frames[|st.frames|..])
  {
    var buffer := st.buffer + chunk;
    if |chunk| == 0 || ExtractCompleteMessage(buffer).None? {
      assert st.frames[..|st.frames|] == st.frames && st.frames[|st.frames|..] == [];
    } else {
      var (frame, remaining) := ExtractCompleteMessage(buffer).value;
      ExtractSplitsBuffer(buffer);
      TakeFrameConserves(st, buffer, frame, remaining);
    }
  }

  /** A pass of either loop conserves bytes the same way. */
  lemma PassConserves(kind: LoopKind, st: Receiving, t: RxTick)
    ensures var (next, end) := Pass(kind, st, t);
      var chunk := if t.read.Data? then t.read.chunk else "";
      && Concat(next.frames) + next.buffer == Concat(st.frames) + st.buffer + chunk
      && |st.frames| <= |next.frames| <= |st.frames| + 1 && next.frames[..|st.frames|] == st.frames
      && next.delivered == st.delivered + OkDecodes(next.frames[|st.frames|..])
  {
    if t.read.Data? {
      OnDataConserves(st, t.read.chunk);
    } else {
      assert st.frames[..|st.frames|] == st.frames && st.frames[|st.frames|..] == [];
    }
  }

  /** What `RunConserves` states about a run from `st` over `ticks`. */
  ghost predicate Conserved(st: Receiving, ticks: seq<RxTick>, r: RxRun)
  {
    && r.passes <= |ticks|
    && Concat(r.state.frames) + r.state.buffer == Concat(st.frames) + st.buffer + Chunks(ticks[..r.passes])
    && |st.frames| <= |r.state.frames| <= |st.frames| + r.passes
    && r.state.frames[..|st.frames|] == st.frames
    && r.state.delivered == st.delivered + OkDecodes(r.state.frames[|st.frames|..])
  }

  /** A receive loop neither loses nor duplicates bytes: the frames it took, followed by what is
      left in its buffer, are exactly the bytes its reads returned; it takes at most one frame per
      pass, and it has sent exactly the successful decodes of those frames, in order. */
  lemma {:induction false} RunConserves(kind: LoopKind, st: Receiving, ticks: seq<RxTick>)
    ensures Conserved(st, ticks, Run(kind, st, ticks))
    decreases |ticks|
  {
    if ticks == [] || !ticks[0].runningAtHead {
      assert ticks[..0] == [];
      assert st.frames[..|st.frames|] == st.frames && st.frames[|st.frames|..] == [];
    } else {
      RunPass(kind, st, ticks);
      var (next, end) := Pass(kind, st, ticks[0]);
      PassConserves(kind, st, ticks[0]);
      if end.Some? {
        RunSplitChunks(ticks, 0);
        assert ticks[1..][..0] == [];
      } else {
        RunConserves(kind, next, ticks[1..]);
        ConservedStep(st, next, ticks, Run(kind, next, ticks[1..]));
      }
    }
  }

  /** A pass that conserves, followed by a run that conserves, conserves. */
  lemma ConservedStep(st: Receiving, next: Receiving, ticks: seq<RxTick>, rest: RxRun)
    requires ticks != []
    requires var chunk := if ticks[0].read.Data? then ticks[0].read.chunk else "";
      && Concat(next.frames) + next.buffer == Concat(st.frames) + st.buffer + chunk
      && |st.frames| <= |next.frames| <= |st.frames| + 1 && next.frames[..|st.frames|] == st.frames
      && next.delivered == st.delivered + OkDecodes(next.frames[|st.frames|..])
    requires Conserved(next, ticks[1..], rest)
    ensures Conserved(st, ticks, Later(rest, 1))
  {
    var chunk := if ticks[0].read.Data? then ticks[0].read.chunk else "";
    var k := rest.passes;
    RunSplitChunks(ticks, k);
    BytesStep(Concat(st.frames) + st.buffer, chunk, Concat(next.frames) + next.buffer,
      Chunks(ticks[1..][..k]), Concat(rest.state.frames) + rest.state.buffer);
    RunSplitFrames(st.frames, next.frames, rest.state.frames);
    DeliveredStep(st, next, rest.state);
  }

  /** Bytes carried over two steps. */
  lemma BytesStep(x: string, c: string, y: string, d: string, z: string)
    requires y == x + c && z == y + d
    ensures z == x + (c + d)
  {
  }

  /** Messages sent over two steps. */
  lemma DeliveredStep(st: Receiving, next: Receiving, last: Receiving)
    requires |st.frames| <= |next.frames| <= |last.frames|
    requires next.frames[..|st.frames|] == st.frames && last.frames[..|next.frames|] == next.frames
    requires next.delivered == st.delivered + OkDecodes(next.frames[|st.frames|..])
    requires last.delivered == next.delivered + OkDecodes(last.frames[|next.frames|..])
    ensures last.delivered == st.delivered + OkDecodes(last.frames[|st.frames|..])
  {
    var u, v := next.frames[|st.frames|..], last.frames[|next.frames|..];
    RunSplitFrames(st.frames, next.frames, last.frames);
    assert last.frames[|st.frames|..] == u + v;
    OkDecodesAppend(u, v);
    MessagesStep(st.delivered, OkDecodes(u), next.delivered, OkDecodes(v), last.delivered);
  }

  /** Messages carried over two steps. */
  lemma MessagesStep(x: seq<Message>, c: seq<Message>, y: seq<Message>, d: seq<Message>, z: seq<Message>)
    requires y == x + c && z == y + d
    ensures z == x + (c + d)
  {
  }

  /** The chunks of the first `k + 1` passes: those of the first pass, then of the `k` after it. */
  lemma RunSplitChunks(ticks: seq<RxTick>, k: nat)
    requires ticks != [] && k < |ticks|
    ensures Chunks(ticks[..k + 1]) == (if ticks[0].read.Data? then ticks[0].read.chunk else "") + Chunks(ticks[1..][..k])
  {
    assert ticks[..k + 1][1..] == ticks[1..][..k];
  }

  /** Prefixes of prefixes: the frames after `a` in `c` are those after `a` in `b`, then those after `b`. */
  lemma RunSplitFrames(a: seq<string>, b: seq<string>, c: seq<string>)
    requires |a| <= |b| <= |c| && b[..|a|] == a && c[..|b|] == b
    ensures c[..|a|] == a && c[|a|..] == b[|a|..] + c[|b|..]
  {
    assert c[..|b|][..|a|] == c[..|a|];
  }

  /** Why a receive loop ended. It stops on reading the flag false: at a loop head, or, in
      src/engine.rs only, after a timeout. A failed read ends it: any error in src/fix_engine.rs,
      one other than a timeout in src/engine.rs. It never ends in a panic. Every pass before the
      last began with the flag set. */
  lemma {:induction false} RunEndReasons(kind: LoopKind, st: Receiving, ticks: seq<RxTick>)
    ensures EndReasons(kind, ticks, Run(kind, st, ticks))
    decreases |ticks|
  {
    if ticks != [] && ticks[0].runningAtHead {
      RunPass(kind, st, ticks);
      var (next, end) := Pass(kind, st, ticks[0]);
      PassNeverPanics(kind, st, ticks[0]);
      if end.None? {
        RunEndReasons(kind, next, ticks[1..]);
        EndReasonsStep(kind, ticks, Run(kind, next, ticks[1..]));
      }
    }
  }

  /** What `RunEndReasons` states about a run `r` of kind `kind` over `ticks`. */
  ghost predicate EndReasons(kind: LoopKind, ticks: seq<RxTick>, r: RxRun)
  {
    && r.passes <= |ticks|
    && (forall j :: 0 <= j < r.passes ==> ticks[j].runningAtHead)
    && (r.end == StillRunning ==> r.passes == |ticks|)
    && (r.end == Stopped ==>
          (r.passes < |ticks| && !ticks[r.passes].runningAtHead)
          || (kind == EngineRs && 0 < r.passes && !ticks[r.passes - 1].runningAtCheck
              && (ticks[r.passes - 1].read.TimedOut? || ticks[r.passes - 1].read.WouldBlock?)))
    && (r.end == ReadFailed ==>
          0 < r.passes && !ticks[r.passes - 1].read.Data?
          && (kind == EngineRs ==> ticks[r.passes - 1].read.OtherError?))
    && r.end != Panicked
  }

  /** The end reasons of a run carry over to the run one pass earlier that began with the flag set. */
  lemma EndReasonsStep(kind: LoopKind, ticks: seq<RxTick>, rest: RxRun)
    requires ticks != [] && ticks[0].runningAtHead && EndReasons(kind, ticks[1..], rest)
    ensures EndReasons(kind, ticks, Later(rest, 1))
  {
    forall j | 0 <= j < rest.passes + 1 ensures ticks[j].runningAtHead {
      if j > 0 {
        assert ticks[j] == ticks[1..][j - 1];
      }
    }
    if rest.passes > 0 {
      assert ticks[rest.passes] == ticks[1..][rest.passes - 1];
    }
    if rest.passes < |ticks| - 1 {
      assert ticks[rest.passes + 1] == ticks[1..][rest.passes];
    }
  }

  /** In src/engine.rs a timeout or WouldBlock while the flag stays set is a pass that changes
      nothing: the loop runs on exactly as if it had not happened. */
  lemma TimeoutWhileRunning(st: Receiving, t: RxTick, rest: seq<RxTick>)
    requires t.runningAtHead && t.runningAtCheck && (t.read.TimedOut? || t.read.WouldBlock?)
    ensures Run(EngineRs, st, [t] + rest) == Later(Run(EngineRs, st, rest), 1)
  {
    RunPass(EngineRs, st, [t] + rest);
    assert ([t] + rest)[1..] == rest;
  }

  /** In src/fix_engine.rs any read error, a timeout included, ends the loop after that pass with
      the state unchanged, whatever the flag says afterwards. */
  lemma ErrorEndsFixEngineLoop(st: Receiving, t: RxTick, rest: seq<RxTick>)
    requires t.runningAtHead && !t.read.Data?
    ensures Run(FixEngineRs, st, [t] + rest) == RxRun(st, 1, ReadFailed)
  {
    RunPass(FixEngineRs, st, [t] + rest);
  }

  // ---------------------------------------------------------------------------
  // Sending

  /** A message taken from `outgoing_rx`, with the clock reading and the map iteration orders its
      `encode` uses. */
  datatype Outgoing = Outgoing(message: Message, clock: string, ord: FixMessageCodec.EncodeOrder)

  /** One pass of a send loop: the flag at the loop head, what `recv_timeout` yields within its
      second (a message or nothing), and the flag as read again after it in src/engine.rs. */
  datatype TxTick = TxTick(runningAtHead: bool, outgoing: Option<Outgoing>, runningAfter: bool)

  /** What a send loop wrote to the stream, one `encode` text per message, and how many passes it made. */
  datatype TxRun = TxRun(written: seq<string>, passes: nat)

  /** The text `stream.write_all` sends for a message. */
  function SentText(o: Outgoing): string
  {
    FixMessageCodec.Encoding(o.message, o.clock, o.ord).text
  }

  /** `message.encode()` on a message taken from `outgoing_rx`: the message object is built from
      its three maps and encoded. */
  method EncodeOutgoing(o: Outgoing) returns (text: string)
    ensures text == SentText(o)
  {
    var message := new FixMessageCodec.FixMessage();
    message.header, message.body, message.trailer := o.message.header, o.message.body, o.message.trailer;
    assert message.Value() == o.message;
    text := message.Encode(o.clock, o.ord);
  }

  /** What one pass writes. */
  function PassWrites(t: TxTick): seq<string>
  {
    if t.outgoing.Some? then [SentText(t.outgoing.value)] else []
  }

  /** A send loop over `ticks`: src/engine.rs (`checksAfterWait`) also leaves the loop when the flag
      reads false after the wait; src/fix_engine.rs checks it at the loop head only. */
  function SendRun(checksAfterWait: bool, ticks: seq<TxTick>): TxRun
    decreases |ticks|
  {
    if ticks == [] || !ticks[0].runningAtHead then TxRun([], 0)
    else if checksAfterWait && !ticks[0].runningAfter then TxRun(PassWrites(ticks[0]), 1)
    else
      var r := SendRun(checksAfterWait, ticks[1..]);
      TxRun(PassWrites(ticks[0]) + r.written, r.passes + 1)
  }

  /** The send run from pass `i` on, unfolded once. */
  lemma SendRunAt(checksAfterWait: bool, ticks: seq<TxTick>, i: nat)
    requires i <= |ticks|
    ensures i == |ticks| || !ticks[i].runningAtHead ==> SendRun(checksAfterWait, ticks[i..]) == TxRun([], 0)
    ensures i < |ticks| && ticks[i].runningAtHead ==>
      SendRun(checksAfterWait, ticks[i..]) ==
        if checksAfterWait && !ticks[i].runningAfter then TxRun(PassWrites(ticks[i]), 1)
        else var r := SendRun(checksAfterWait, ticks[i + 1..]); TxRun(PassWrites(ticks[i]) + r.written, r.passes + 1)
  {
    if i < |ticks| {
      assert ticks[i..][0] == ticks[i] && ticks[i..][1..] == ticks[i + 1..];
    }
  }

  /** A send run that has already written `written` in `passes` passes and goes on as `r`. */
  function After(written: seq<string>, passes: nat, r: TxRun): TxRun
  {
    TxRun(written + r.written, passes + r.passes)
  }

  /** A pass that does not end the send loop writes what it took, and the loop goes on. */
  lemma SendStep(checksAfterWait: bool, ticks: seq<TxTick>, i: nat, written: seq<string>)
    requires i < |ticks| && ticks[i].runningAtHead && !(checksAfterWait && !ticks[i].runningAfter)
    ensures After(written, i, SendRun(checksAfterWait, ticks[i..]))
         == After(written + PassWrites(ticks[i]), i + 1, SendRun(checksAfterWait, ticks[i + 1..]))
  {
    SendRunAt(checksAfterWait, ticks, i);
  }

  /** A pass after which src/engine.rs reads the flag false is the last one. */
  lemma SendLast(ticks: seq<TxTick>, i: nat, written: seq<string>)
    requires i < |ticks| && ticks[i].runningAtHead && !ticks[i].runningAfter
    ensures After(written, i, SendRun(true, ticks[i..])) == TxRun(written + PassWrites(ticks[i]), i + 1)
  {
    SendRunAt(true, ticks, i);
  }

  /** A loop head that reads the flag false, or no passes left, ends the send loop. */
  lemma SendStops(checksAfterWait: bool, ticks: seq<TxTick>, i: nat, written: seq<string>)
    requires i <= |ticks| && (i == |ticks| || !ticks[i].runningAtHead)
    ensures After(written, i, SendRun(checksAfterWait, ticks[i..])) == TxRun(written, i)
  {
    SendRunAt(checksAfterWait, ticks, i);
  }

  /** The flag readings, in the order they happen, never go from false back to true: only
      `shutdown` writes the flag, and it writes false. */
  ghost predicate FlagMonotone(ticks: seq<TxTick>)
  {
    forall i :: 0 <= i < |ticks| ==>
      (!ticks[i].runningAtHead ==> !ticks[i].runningAfter)
      && (i + 1 < |ticks| && !ticks[i].runningAfter ==> !ticks[i + 1].runningAtHead)
  }

  /** The extra check after the wait in src/engine.rs changes nothing that is written: with a flag
      that never comes back on, both send loops write the same texts, and the loop of
      src/fix_engine.rs makes at most one pass more, which writes nothing. */
  lemma {:induction false} SendLoopsAgree(ticks: seq<TxTick>)
    requires FlagMonotone(ticks)
    ensures SendRun(true, ticks).written == SendRun(false, ticks).written
    ensures SendRun(true, ticks).passes <= SendRun(false, ticks).passes <= SendRun(true, ticks).passes + 1
    decreases |ticks|
  {
    if ticks != [] && ticks[0].runningAtHead {
      if !ticks[0].runningAfter {
        if |ticks| > 1 {
          assert !ticks[1].runningAtHead;
          assert ticks[1..][0] == ticks[1];
        }
        assert PassWrites(ticks[0]) + [] == PassWrites(ticks[0]);
      } else {
        assert FlagMonotone(ticks[1..]) by {
          forall i | 0 <= i < |ticks| - 1
            ensures (!ticks[1..][i].runningAtHead ==> !ticks[1..][i].runningAfter)
              && (i + 1 < |ticks| - 1 && !ticks[1..][i].runningAfter ==> !ticks[1..][i + 1].runningAtHead)
          {
            assert ticks[1..][i] == ticks[i + 1];
            if i + 1 < |ticks| - 1 {
              assert ticks[1..][i + 1] == ticks[i + 2];
            }
          }
        }
        SendLoopsAgree(ticks[1..]);
      }
    }
  }

  /** A send loop writes exactly the messages it took, in order, each as its `encode` text. */
  lemma {:induction false} SendRunWrites(checksAfterWait: bool, ticks: seq<TxTick>)
    ensures var r := SendRun(checksAfterWait, ticks);
      r.passes <= |ticks| && r.written == Taken(ticks[..r.passes])
    decreases |ticks|
  {
    var r := SendRun(checksAfterWait, ticks);
    if ticks == [] || !ticks[0].runningAtHead {
      assert ticks[..0] == [];
    } else if checksAfterWait && !ticks[0].runningAfter {
      assert ticks[..1] == [ticks[0]];
      assert Taken([ticks[0]]) == PassWrites(ticks[0]) + Taken([]);
    } else {
      var rest := SendRun(checksAfterWait, ticks[1..]);
      SendRunWrites(checksAfterWait, ticks[1..]);
      assert ticks[..rest.passes + 1][1..] == ticks[1..][..rest.passes];
    }
  }

  /** When every loop head reads the flag set, as under the `shutdown` of src/fix_engine.rs, which
      holds the lock through its joins: its receive loop ends only on a read error, or not at all. */
  lemma FixEngineReceiveNeverStops(st: Receiving, ticks: seq<RxTick>)
    requires forall i :: 0 <= i < |ticks| ==> ticks[i].runningAtHead
    ensures var r := Run(FixEngineRs, st, ticks);
      r.end == ReadFailed || (r.end == StillRunning && r.passes == |ticks|)
  {
    RunEndReasons(FixEngineRs, st, ticks);
  }

  /** Under the same readings the send loop of src/fix_engine.rs never leaves: it makes every pass
      and writes every message it takes. */
  lemma {:induction false} HeadOnlySendNeverStops(ticks: seq<TxTick>)
    requires forall i :: 0 <= i < |ticks| ==> ticks[i].runningAtHead
    ensures SendRun(false, ticks) == TxRun(Taken(ticks), |ticks|)
    decreases |ticks|
  {
    if ticks != [] {
      assert forall i :: 0 <= i < |ticks| - 1 ==> ticks[1..][i] == ticks[i + 1];
      HeadOnlySendNeverStops(ticks[1..]);
    }
  }

  /** The `encode` texts of the messages taken in `ticks`, in order. */
  function Taken(ticks: seq<TxTick>): seq<string>
  {
    if ticks == [] then [] else PassWrites(ticks[0]) + Taken(ticks[1..])
  }
}
