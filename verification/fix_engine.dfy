// The engine of src/fix_engine.rs: its running flag, and its receive and send loops run over what
// the environment does on each pass (see EngineLoops). The receive loop ends on any read error, a
// timeout included; the send loop reads the flag at its head only. Unlike src/engine.rs, this
// `shutdown` never lets a loop read the cleared flag (see `FixEngine.Shutdown`).

module FixEngine {
  import opened Wire
  import opened Framing
  import opened EngineLoops
  import FixMessageCodec

  /** `FixEngine` reduced to its running flag; the threads, the stream and the clock are not modelled.
      A tick's `runningAtHead` is the value of `isRunning` when the loop takes the lock at its head.
      Since `Shutdown` keeps the lock from clearing the flag until both joins return, every reading
      a loop can make is true: the ticks with a false reading, and so the `Stopped` end of
      `ReceiveLoop`, describe a release of the lock that this `shutdown` does not perform. */
  class FixEngine {
    var isRunning: bool

    /** `FixEngine::new`: the flag starts set. */
    constructor ()
      ensures isRunning
    {
      isRunning := true;
    }

    /** `FixEngine::shutdown`: clears the flag, but the lock guard lives to the end of the
        function, so the lock stays held while it joins the send and then the receive thread.
        Both loops take that lock at their head and block there: they never see the cleared
        flag, and unless a thread ends some other way (a read error, a panic) the join waits
        forever. Joining the threads is not modelled. */
    method Shutdown()
      modifies this
      ensures !isRunning
    {
      isRunning := false;
    }
  }

  /** The receive thread's loop over the passes `ticks`: returns the buffer it ends with, the
      messages it sent on `incoming_tx`, how many passes it made and why it ended. */
  method ReceiveLoop(ticks: seq<RxTick>) returns (buffer: string, delivered: seq<Message>, passes: nat, end: RxEnd)
    ensures var r := Run(FixEngineRs, START, ticks);
      buffer == r.state.buffer && delivered == r.state.delivered && passes == r.passes && end == r.end
  {
    buffer, delivered := [], [];
    ghost var frames: seq<string> := [];
    var i := 0;
    while i < |ticks|
      invariant 0 <= i <= |ticks|
      invariant Later(Run(FixEngineRs, Receiving(buffer, frames, delivered), ticks[i..]), i) == Run(FixEngineRs, START, ticks)
      decreases |ticks| - i
    {
      ghost var st := Receiving(buffer, frames, delivered);
      var t := ticks[i];
      RunAt(FixEngineRs, st, ticks, i);
      if !t.runningAtHead {
        return buffer, delivered, i, Stopped;
      }
      match t.read {
        case Data(chunk) =>
          if |chunk| > 0 {
            buffer := buffer + chunk;
            var extracted := ExtractCompleteMessage(buffer);
            if extracted.Some? {
              var (frame, remaining) := extracted.value;
              var decoded := FixMessageCodec.Decode(frame);
              assert OnData(st, chunk) == TakeFrame(st, buffer, frame, remaining, decoded);
              if decoded.SubtractOverflow? {
                return buffer, delivered, i + 1, Panicked;
              }
              if decoded.result.Ok? {
                delivered := delivered + [decoded.result.value];
              } else {
                assert Accepted(decoded) == [] && delivered + [] == delivered;
              }
              frames := frames + [frame];
              buffer := remaining;
            }
          }
        case _ =>
          return buffer, delivered, i + 1, ReadFailed;
      }
      assert Pass(FixEngineRs, st, t) == (Receiving(buffer, frames, delivered), None);
      i := i + 1;
    }
    return buffer, delivered, i, StillRunning;
  }

  /** The send thread's loop over the passes `ticks`: returns the texts it wrote to the stream and
      how many passes it made. */
  method SendLoop(ticks: seq<TxTick>) returns (written: seq<string>, passes: nat)
    ensures TxRun(written, passes) == SendRun(false, ticks)
  {
    written := [];
    var i := 0;
    assert ticks[0..] == ticks;
    while i < |ticks| && ticks[i].runningAtHead
      invariant 0 <= i <= |ticks|
      invariant After(written, i, SendRun(false, ticks[i..])) == SendRun(false, ticks)
      decreases |ticks| - i
    {
      var t := ticks[i];
      var sent: seq<string> := [];
      if t.outgoing.Some? {
        var text := EncodeOutgoing(t.outgoing.value);
        sent := [text];
      }
      SendStep(false, ticks, i, written);
      written := written + sent;
      i := i + 1;
    }
    SendStops(false, ticks, i, written);
    return written, i;
  }
}
