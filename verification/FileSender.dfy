/** The data-channel sender: chunks under backpressure, paused on a full send buffer and resumed by the channel's
    low-water callback through a one-place token channel. The network drains the buffer at any moment; the callback is
    atomic with the drain that crosses the threshold (bufferedAmountLowThreshold, section 6.2 of W3C WebRTC 1.0). */
module FileSender {
  import opened Bytes

  const MAX_BUFFERED := 0x10_0000
  const LOW_WATER := 0x8_0000

  datatype Stage = Checking | Waiting | Sending | Flushing | Ended | Failed

  datatype State = State(payload: seq<byte>, chunk: nat, off: nat, stage: Stage, buffered: nat, token: bool,
                         sent: seq<seq<byte>>)

  datatype Step = Advance | Drain(bytes: nat) | SendError

  function Loop(off: nat, payload: seq<byte>): Stage {
    if off < |payload| then Checking else Flushing
  }

  /** After the file-meta message: whatever is buffered by then, no token yet. */
  function Begin(payload: seq<byte>, chunk: nat, buffered: nat): State {
    State(payload, chunk, 0, Loop(0, payload), buffered, false, [])
  }

  function Piece(s: State): seq<byte>
    requires s.off < |s.payload|
  {
    if s.off + s.chunk > |s.payload| then s.payload[s.off..] else s.payload[s.off..s.off + s.chunk]
  }

  /** One step of the sending goroutine; a receive on the empty token channel blocks. */
  function AdvanceStep(s: State): State {
    match s.stage
    case Checking => s.(stage := if s.buffered > MAX_BUFFERED then Waiting else Sending)
    case Waiting => if s.token then s.(token := false, stage := Sending) else s
    case Sending =>
      if s.off < |s.payload| then
        var data := Piece(s);
        s.(buffered := s.buffered + |data|, sent := s.sent + [data], off := s.off + s.chunk,
           stage := Loop(s.off + s.chunk, s.payload))
      else s
    case Flushing => if s.buffered > 0 then s else s.(stage := Ended)
    case Ended => s
    case Failed => s
  }

  /** The network takes bytes; crossing the low-water mark runs the callback, whose send never blocks. */
  function DrainStep(s: State, bytes: nat): State {
    var left := if bytes < s.buffered then s.buffered - bytes else 0;
    s.(buffered := left, token := s.token || (s.buffered > LOW_WATER && left <= LOW_WATER))
  }

  function Next(s: State, step: Step): State {
    match step
    case Advance => AdvanceStep(s)
    case Drain(bytes) => DrainStep(s, bytes)
    case SendError => if s.stage.Sending? then s.(stage := Failed) else s
  }

  function Run(s: State, steps: seq<Step>): State
    decreases |steps|
  {
    if steps == [] then s else Run(Next(s, steps[0]), steps[1..])
  }

  /** How much may be buffered, by stage: one stale token lets one extra chunk through, and no more. */
  predicate Bounded(s: State) {
    && s.buffered <= MAX_BUFFERED + 2 * s.chunk
    && (s.token ==> s.buffered <= MAX_BUFFERED + s.chunk)
    && (s.stage.Sending? ==> s.buffered <= MAX_BUFFERED + s.chunk && (s.token ==> s.buffered <= MAX_BUFFERED))
    && (s.stage.Waiting? && !s.token ==> s.buffered > LOW_WATER)
  }

  predicate Sent(s: State) {
    && Joined(s.sent) == s.payload[..if s.off < |s.payload| then s.off else |s.payload|]
    && (forall i :: 0 <= i < |s.sent| ==> 1 <= |s.sent[i]| <= s.chunk)
    && (forall i :: 0 <= i < |s.sent| && (i < |s.sent| - 1 || s.off <= |s.payload|) ==> |s.sent[i]| == s.chunk)
    && (s.stage in {Checking, Waiting, Sending} ==> s.off < |s.payload|)
    && (s.stage in {Flushing, Ended} ==> s.off >= |s.payload|)
  }

  predicate Inv(s: State) {
    s.chunk > 0 && Bounded(s) && Sent(s)
  }

  lemma SendKeeps(s: State)
    requires Inv(s) && s.stage.Sending?
    ensures Inv(AdvanceStep(s))
  {
    var r := AdvanceStep(s);
    var data := Piece(s);
    JoinedSnoc(s.sent, data);
    hide Joined;
    assert s.payload[..s.off] + data == r.payload[..if r.off < |r.payload| then r.off else |r.payload|];
  }

  lemma StepKeeps(s: State, step: Step)
    requires Inv(s)
    ensures Inv(Next(s, step)) && Next(s, step).payload == s.payload && Next(s, step).chunk == s.chunk
  {
    if step.Advance? && s.stage.Sending? {
      SendKeeps(s);
    }
    hide Joined;
  }

  lemma {:induction false} RunKeeps(s: State, steps: seq<Step>)
    requires Inv(s)
    ensures Inv(Run(s, steps)) && Run(s, steps).payload == s.payload && Run(s, steps).chunk == s.chunk
    decreases |steps|
  {
    if steps != [] {
      StepKeeps(s, steps[0]);
      hide Inv, Next;
      RunKeeps(Next(s, steps[0]), steps[1..]);
    }
  }

  lemma BeginInv(payload: seq<byte>, chunk: nat, buffered: nat)
    requires chunk > 0 && buffered <= MAX_BUFFERED
    ensures Inv(Begin(payload, chunk, buffered))
  {}

  /** In every interleaving of sender and network: the buffer never holds more than the limit and two chunks, the
      pieces sent, all but the last of full size, concatenate to a prefix of the payload, and to all of it once the loop
      is left; the end is then announced as soon as the buffer is empty and not before. */
  lemma {:induction false} BackpressureHolds(payload: seq<byte>, chunk: nat, buffered: nat, steps: seq<Step>)
    requires chunk > 0 && buffered <= MAX_BUFFERED
    ensures var s := Run(Begin(payload, chunk, buffered), steps);
            && s.buffered <= 1048576 + 2 * chunk
            && Joined(s.sent) <= payload
            && (forall i :: 0 <= i < |s.sent| ==> 1 <= |s.sent[i]| <= chunk)
            && (forall i :: 0 <= i < |s.sent| - 1 ==> |s.sent[i]| == chunk)
            && (s.stage.Flushing? || s.stage.Ended? ==> Joined(s.sent) == payload)
            && (s.stage.Flushing? ==> (AdvanceStep(s).stage.Ended? <==> s.buffered == 0))
  {
    BeginInv(payload, chunk, buffered);
    RunKeeps(Begin(payload, chunk, buffered), steps);
    hide Joined;
    var s := Run(Begin(payload, chunk, buffered), steps);
    assert s.payload == payload;
  }

  function DrainAll(s: State, drains: seq<nat>): State
    decreases |drains|
  {
    if drains == [] then s else DrainAll(DrainStep(s, drains[0]), drains[1..])
  }

  lemma {:induction false} DrainsWake(s: State, drains: seq<nat>)
    requires s.stage.Waiting? && (s.token || s.buffered > LOW_WATER)
    ensures var r := DrainAll(s, drains); r.stage.Waiting? && (r.token || r.buffered > LOW_WATER)
    decreases |drains|
  {
    if drains != [] {
      DrainsWake(DrainStep(s, drains[0]), drains[1..]);
    }
  }

  /** No lost wakeup: a blocked sender either has a token to take, or the buffer is still above the low-water mark, so
      the crossing that brings one is still to come; however the network drains it to the mark, the sender resumes. */
  lemma {:induction false} NoLostWakeup(payload: seq<byte>, chunk: nat, buffered: nat, steps: seq<Step>, drains: seq<nat>)
    requires chunk > 0 && buffered <= MAX_BUFFERED
    ensures var s := Run(Begin(payload, chunk, buffered), steps);
            && (s.stage.Checking? ==> (AdvanceStep(s).stage.Waiting? <==> s.buffered > 1048576))
            && (s.stage.Waiting? ==>
                  && (s.token || s.buffered > LOW_WATER)
                  && (DrainAll(s, drains).buffered <= LOW_WATER ==> AdvanceStep(DrainAll(s, drains)).stage == Sending))
  {
    BeginInv(payload, chunk, buffered);
    RunKeeps(Begin(payload, chunk, buffered), steps);
    var s := Run(Begin(payload, chunk, buffered), steps);
    if s.stage.Waiting? {
      DrainsWake(s, drains);
    }
  }

  /** The bound is met: with a stale token in hand the buffer does reach the limit and two chunks. */
  lemma BoundIsReached(payload: seq<byte>)
    requires |payload| >= 3 * LOW_WATER
    ensures var steps := [Drain(LOW_WATER), Advance, Advance, Advance, Advance, Advance, Advance, Advance];
            Run(Begin(payload, LOW_WATER, MAX_BUFFERED), steps).buffered == MAX_BUFFERED + 2 * LOW_WATER
  {
    var s0 := Begin(payload, LOW_WATER, MAX_BUFFERED);
    var s1 := DrainStep(s0, LOW_WATER);
    var s2 := AdvanceStep(s1);
    var s3 := AdvanceStep(s2);
    var s4 := AdvanceStep(s3);
    var s5 := AdvanceStep(s4);
    var s6 := AdvanceStep(s5);
    var s7 := AdvanceStep(s6);
    var s8 := AdvanceStep(s7);
    assert s3.buffered == MAX_BUFFERED && s3.token;
    assert s5.buffered == MAX_BUFFERED + LOW_WATER && s5.token;
    assert s7.stage == Sending && s8.buffered == MAX_BUFFERED + 2 * LOW_WATER;
    var a := Advance;
    RunOne(s7, a, []);
    RunOne(s6, a, [a]);
    RunOne(s5, a, [a, a]);
    RunOne(s4, a, [a, a, a]);
    RunOne(s3, a, [a, a, a, a]);
    RunOne(s2, a, [a, a, a, a, a]);
    RunOne(s1, a, [a, a, a, a, a, a]);
    RunOne(s0, Drain(LOW_WATER), [a, a, a, a, a, a, a]);
  }

  lemma {:induction false} RunOne(s: State, step: Step, later: seq<Step>)
    ensures Run(s, [step] + later) == Run(Next(s, step), later)
  {
    assert ([step] + later)[1..] == later;
  }

  // Progress.

  predicate Undisturbed(steps: seq<Step>) {
    forall i :: 0 <= i < |steps| ==> !steps[i].SendError?
  }

  /** What the next step is: advance, unless the sender is blocked on an empty token channel or waits for the buffer to
      empty; then the network drains it. */
  function NextStep(s: State): Step {
    if (s.stage.Waiting? && !s.token) || (s.stage.Flushing? && s.buffered > 0) then Drain(s.buffered) else Advance
  }

  // How far the sender still has to go.
  function Remaining(s: State): nat {
    if s.off < |s.payload| then |s.payload| - s.off else 0
  }

  function Rank(s: State): nat {
    match s.stage
    case Checking => 5
    case Waiting => if s.token then 3 else 4
    case Sending => 2
    case Flushing => if s.buffered > 0 then 1 else 0
    case Ended => 0
    case Failed => 0
  }

  lemma NextStepProgresses(s: State)
    requires Inv(s) && !s.stage.Ended? && !s.stage.Failed?
    ensures var r := Next(s, NextStep(s));
            && !r.stage.Failed?
            && (r.stage.Ended? || Remaining(r) < Remaining(s) || (Remaining(r) == Remaining(s) && Rank(r) < Rank(s)))
  {
    hide Joined;
  }

  /** From every state the sender can reach without an error it gets to the end, and then everything has been sent. */
  lemma {:induction false} Finishes(s: State) returns (steps: seq<Step>)
    requires Inv(s) && !s.stage.Failed?
    ensures Undisturbed(steps)
    ensures var r := Run(s, steps); r.stage.Ended? && Inv(r) && Joined(r.sent) == s.payload
    decreases Remaining(s), Rank(s), if s.stage.Ended? then 0 else 1
  {
    if s.stage.Ended? {
      steps := [];
      assert s.payload[..|s.payload|] == s.payload;
    } else {
      NextStepProgresses(s);
      StepKeeps(s, NextStep(s));
      hide Inv, Next, NextStep, Joined;
      var later := Finishes(Next(s, NextStep(s)));
      steps := [NextStep(s)] + later;
      RunOne(s, NextStep(s), later);
      assert Undisturbed(steps) by { NotAnError(s); }
    }
  }

  lemma NotAnError(s: State)
    ensures !NextStep(s).SendError?
  {}

  /** For every payload and chunk size, from the start and from every point of every run without an error, some further
      run without an error reaches the end, the whole payload sent. */
  lemma {:induction false} AlwaysCanFinish(payload: seq<byte>, chunk: nat, buffered: nat, before: seq<Step>)
    returns (steps: seq<Step>)
    requires chunk > 0 && buffered <= MAX_BUFFERED && Undisturbed(before)
    ensures Undisturbed(steps)
    ensures var s := Run(Run(Begin(payload, chunk, buffered), before), steps);
            s.stage.Ended? && Joined(s.sent) == payload
  {
    BeginInv(payload, chunk, buffered);
    RunKeeps(Begin(payload, chunk, buffered), before);
    NoFailure(Begin(payload, chunk, buffered), before);
    hide Inv, Run, Joined;
    steps := Finishes(Run(Begin(payload, chunk, buffered), before));
  }

  lemma {:induction false} NoFailure(s: State, steps: seq<Step>)
    requires !s.stage.Failed? && Undisturbed(steps)
    ensures !Run(s, steps).stage.Failed?
    decreases |steps|
  {
    if steps != [] {
      assert !steps[0].SendError?;
      NoFailure(Next(s, steps[0]), steps[1..]);
    }
  }

  /** A send error ends the transfer: nothing is sent after it, and its end is never announced. */
  lemma {:induction false} ErrorEnds(s: State, steps: seq<Step>)
    requires s.stage.Sending?
    ensures var r := Run(Next(s, SendError), steps); r.stage.Failed? && r.sent == s.sent
  {
    StaysFailed(Next(s, SendError), steps);
  }

  lemma {:induction false} StaysFailed(s: State, steps: seq<Step>)
    requires s.stage.Failed?
    ensures Run(s, steps).stage.Failed? && Run(s, steps).sent == s.sent
    decreases |steps|
  {
    if steps != [] {
      StaysFailed(Next(s, steps[0]), steps[1..]);
    }
  }
}
