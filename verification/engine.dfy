// The engine of src/engine.rs: its running flag, and its receive and send loops run over what the
// environment does on each pass (see EngineLoops). The receive loop goes on after a read timeout
// while the flag is set; the send loop reads the flag again after each wait.

module Engine {
  import opened Wire
  import opened Framing
  import opened EngineLoops
  import FixMessageCodec

  /** `FixEngine` reduced to its running flag; the threads, the stream and the clock are not modelled.
      Every flag reading in a tick (`runningAtHead`, `runningAtCheck`, `runningAfter`) is the value
      of `isRunning` at that moment: set from construction until `Shutdown`, clear from then on,
      which is why the readings never go from false back to true (`FlagMonotone`). */
  class FixEngine {
    var isRunning: bool

    /** `FixEngine::new`: the flag starts set. */
    constructor ()
      ensures isRunning
    {
      isRunning := true;
    }

    /** `FixEngine::shutdown`: clears the flag inside an inner block, so the lock is released
        before the joins and both loops see the flag at their next check. Joining the threads is
        not modelled. */
    method Shutdown()
      modifies this
      ensures !isRunning
    {
      isRunning := false;
    }
  }

  /** The receive thread's loop over the passes `ticks`: returns the buffer it ends with, the
      messages it sent on `incoming_tx`, how many passes it made and why it ended. */
  method ReceiveLoop(ticks: seq<RxTick>) returns (buffer: string, delivered: seq<Message>, passes: nat, end: RxEnd)
    ensures var r := Run(EngineRs, START, ticks);
      buffer == r.state.buffer && delivered == r.state.delivered && passes == r.passes && end == r.end
  {
    buffer, delivered := [], [];
    ghost var frames: seq<string> := [];
    var i := 0;
    while i < |ticks|
      invariant 0 <= i <= |ticks|
      invariant Later(Run(EngineRs, Receiving(buffer, frames, delivered), ticks[i..]), i) == Run(EngineRs, START, ticks)
      decreases |ticks| - i
    {
      ghost var st := Receiving(buffer, frames, delivered);
      var t := ticks[i];
      RunAt(EngineRs, st, ticks, i);
      if !t.runningAtHead {
        return buffer, delivered, i, Stopped;
      }
      match t.read {
        case Data(chunk) =>
          if |chunk| > 0 {
            buffer := buffer + chunk;
            var extracted := ExtractCompleteMessage(buffer);
            if extracted.Some? {
              var (frame, remaining) := extracted.value;
              var decoded := FixMessageCodec.Decode(frame);
              assert OnData(st, chunk) == TakeFrame(st, buffer, frame, remaining, decoded);
              if decoded.SubtractOverflow? {
                return buffer, delivered, i + 1, Panicked;
              }
              if decoded.result.Ok? {
                delivered := delivered + [decoded.result.value];
              } else {
                assert Accepted(decoded) == [] && delivered + [] == delivered;
              }
              frames := frames + [frame];
              buffer := remaining;
            }
          }
        case OtherError =>
          return buffer, delivered, i + 1, ReadFailed;
        case _ =>
          if !t.runningAtCheck {
            return buffer, delivered, i + 1, Stopped;
          }
      }
      assert Pass(EngineRs, st, t) == (Receiving(buffer, frames, delivered), None);
      i := i + 1;
    }
    return buffer, delivered, i, StillRunning;
  }

  /** The send thread's loop over the passes `ticks`: returns the texts it wrote to the stream and
      how many passes it made. */
  method SendLoop(ticks: seq<TxTick>) returns (written: seq<string>, passes: nat)
    ensures TxRun(written, passes) == SendRun(true, ticks)
  {
    written := [];
    var i := 0;
    assert ticks[0..] == ticks;
    while i < |ticks| && ticks[i].runningAtHead
      invariant 0 <= i <= |ticks|
      invariant After(written, i, SendRun(true, ticks[i..])) == SendRun(true, ticks)
      decreases |ticks| - i
    {
      var t := ticks[i];
      var sent: seq<string> := [];
      if t.outgoing.Some? {
        var text := EncodeOutgoing(t.outgoing.value);
        sent := [text];
      }
      if !t.runningAfter {
        SendLast(ticks, i, written);
        return written + sent, i + 1;
      }
      SendStep(true, ticks, i, written);
      written := written + sent;
      i := i + 1;
    }
    SendStops(true, ticks, i, written);
    return written, i;
  }
}
