/**
 End-to-end delivery over one direction of a connection, as a step system.

 A state holds what is where: the bytes of the current frame not written yet, the bytes on the
 wire, the receiver's buffer. The frames sent and delivered so far are the history. The steps are
 those of the sending and the receiving loop, interleaved in any way: a new frame is sent when
 the previous one is completely written, a write takes any number of bytes or none, a read
 returns any chunk of up to 4096 bytes, and a complete frame is taken out of the buffer.
 */
module FrameStream {
  import opened Frames
  import opened FrameProtocol

  datatype State = State(sent: seq<Frame>, unsent: string, wire: string, buffer: string, delivered: seq<Frame>)

  datatype Step =
    | Send(frame: Frame)
    | Write(count: nat)
    | Retry
    | Read(count: nat)
    | Deliver

  const Initial := State([], "", "", "", [])

  predicate Enabled(s: State, step: Step) {
    match step
    case Send(f) => s.unsent == "" && WellFormed(f)
    case Write(n) => 0 < n <= |s.unsent|
    case Retry => true
    case Read(n) => 0 < n <= |s.wire| && n <= READ_SIZE && !HasComplete(s.buffer)
    case Deliver => HasComplete(s.buffer)
  }

  function Apply(s: State, step: Step): State
    requires Enabled(s, step)
  {
    match step
    case Send(f) => s.(sent := s.sent + [f], unsent := Encode(f))
    case Write(n) => s.(wire := s.wire + s.unsent[..n], unsent := s.unsent[n..])
    case Retry => s
    case Read(n) => s.(buffer := s.buffer + s.wire[..n], wire := s.wire[n..])
    case Deliver => s.(delivered := s.delivered + [Decode(s.buffer)], buffer := s.buffer[FrameEnd(s.buffer)..])
  }

  /** A run: the steps taken one after the other are all enabled. */
  predicate IsRun(s: State, steps: seq<Step>)
    decreases |steps|
  {
    steps == [] || (Enabled(s, steps[0]) && IsRun(Apply(s, steps[0]), steps[1..]))
  }

  function Run(s: State, steps: seq<Step>): State
    requires IsRun(s, steps)
    decreases |steps|
  {
    if steps == [] then s else Run(Apply(s, steps[0]), steps[1..])
  }

  /**
   Conservation: the delivered frames are the first ones sent, and the bytes of the others are,
   in order, in the receiver's buffer, on the wire and still to be written.
   */
  predicate Conserved(s: State) {
    && AllWellFormed(s.sent)
    && s.delivered <= s.sent
    && EncodeAll(s.sent[|s.delivered|..]) == s.buffer + s.wire + s.unsent
  }

  lemma StepConserves(s: State, step: Step)
    requires Conserved(s) && Enabled(s, step)
    ensures Conserved(Apply(s, step))
  {
    hide HasComplete, Decode, FrameEnd, EncodeAll, Encode, WellFormed;
    var pending := s.sent[|s.delivered|..];
    match step
    case Send(f) =>
      EncodeAllAppend(pending, f);
      assert Apply(s, step).sent[|s.delivered|..] == pending + [f];
      assert s.buffer + s.wire + "" == s.buffer + s.wire;
    case Write(n) =>
      assert s.unsent == s.unsent[..n] + s.unsent[n..];
      assert s.buffer + (s.wire + s.unsent[..n]) + s.unsent[n..] == s.buffer + s.wire + s.unsent;
    case Retry =>
    case Read(n) =>
      assert s.wire == s.wire[..n] + s.wire[n..];
      assert (s.buffer + s.wire[..n]) + s.wire[n..] + s.unsent == s.buffer + s.wire + s.unsent;
    case Deliver =>
      var more := s.wire + s.unsent;
      assert s.buffer + more == s.buffer + s.wire + s.unsent;
      NextFrame(pending, s.buffer, more);
      var rest := s.buffer[FrameEnd(s.buffer)..];
      assert rest + s.wire + s.unsent == rest + more;
      assert s.sent[|s.delivered| + 1..] == pending[1..];
      assert pending[0] == s.sent[|s.delivered|];
  }

  /** Conservation holds in every state of every run. */
  lemma {:induction false} RunConserves(s: State, steps: seq<Step>)
    requires Conserved(s) && IsRun(s, steps)
    ensures Conserved(Run(s, steps))
    decreases |steps|
  {
    if steps != [] {
      StepConserves(s, steps[0]);
      RunConserves(Apply(s, steps[0]), steps[1..]);
    }
  }

  /** Safety: at any time the frames delivered are the first frames sent, unchanged and in order. */
  lemma DeliveredIsPrefix(steps: seq<Step>)
    requires IsRun(Initial, steps)
    ensures Run(Initial, steps).delivered <= Run(Initial, steps).sent
  {
    RunConserves(Initial, steps);
  }

  /** When nothing is left to write, to read or to take out, everything sent was delivered, to the last byte. */
  lemma QuietMeansDelivered(steps: seq<Step>)
    requires IsRun(Initial, steps)
    requires var s := Run(Initial, steps); s.unsent == "" && s.wire == "" && !HasComplete(s.buffer)
    ensures var s := Run(Initial, steps); s.delivered == s.sent && s.buffer == ""
  {
    RunConserves(Initial, steps);
    var s := Run(Initial, steps);
    var pending := s.sent[|s.delivered|..];
    assert s.buffer + s.wire + s.unsent == s.buffer + "";
    hide Run, IsRun, HasComplete;
    if pending != [] {
      assert WellFormed(pending[0]);
      NoFrameYet(pending, s.buffer, "");
      UnfoldEncodeAll(pending);
    }
    UnfoldEncodeAll(pending);
    assert s.buffer == s.buffer + "";
  }

  // ---------------------------------------------------------------- progress

  /** What is still to be done, in bytes weighted by the steps they have to go. */
  function Backlog(s: State): nat {
    3 * |s.unsent| + 2 * |s.wire| + |s.buffer|
  }

  predicate IsProgress(step: Step) {
    step.Write? || step.Read? || step.Deliver?
  }

  /** While a frame is undelivered, the connection is not stuck: some step moves it on. */
  lemma NotStuck(steps: seq<Step>)
    requires IsRun(Initial, steps)
    requires var s := Run(Initial, steps); s.delivered != s.sent
    ensures var s := Run(Initial, steps);
            exists step :: IsProgress(step) && Enabled(s, step)
  {
    var s := Run(Initial, steps);
    if s.unsent == "" && s.wire == "" && !HasComplete(s.buffer) {
      QuietMeansDelivered(steps);
    } else if HasComplete(s.buffer) {
      assert IsProgress(Deliver) && Enabled(s, Deliver);
    } else if s.wire != "" {
      assert IsProgress(Read(1)) && Enabled(s, Read(1));
    } else {
      assert IsProgress(Write(1)) && Enabled(s, Write(1));
    }
  }

  /** Every such step shrinks the backlog, so only finitely many are possible before the next send. */
  lemma {:induction false} ProgressIsBounded(s: State, steps: seq<Step>)
    requires IsRun(s, steps)
    requires forall i :: 0 <= i < |steps| ==> IsProgress(steps[i])
    ensures |steps| <= Backlog(s)
    decreases |steps|
  {
    if steps != [] {
      assert IsProgress(steps[0]);
      ProgressIsBounded(Apply(s, steps[0]), steps[1..]);
    }
  }
}
