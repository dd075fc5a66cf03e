/** The lock-free pointer queue between the service task (producer) and LVGL's poll (consumer): a ring of 16 slots
    and two free-running counters that wrap. Every atomic load and store and every slot copy is a step of its own, a
    slot write even two, between which the slot is torn; the two sides interleave arbitrarily. */
module PointerQueue {
  import opened Bytes
  import opened Options

  const SLOTS := 16
  const MODULUS := 0x1_0000_0000

  datatype Pointer = Pointer(x: u16, y: u16, pressed: bool)

  /** A slot, or a slot halfway through being overwritten. */
  datatype Slot = Torn | Holds(p: Pointer)

  datatype Producer =
    | Resting
    | Called(event: Pointer)
    | HasHead(event: Pointer, head: u32)
    | Reserved(event: Pointer, head: u32)
    | Writing(event: Pointer, head: u32)
    | Written(event: Pointer, head: u32)

  datatype Consumer =
    | Polling
    | HasTail(tail: u32)
    | Reading(tail: u32)
    | Copied(tail: u32, slot: Slot)
    | Reported
    | Asking(head: u32, accepted: nat)

  /** The shared memory, both program counters, LVGL's last event, and the history of the run: pushes that returned
      success, pops, reported states, and the answers to `continue_reading`. */
  datatype State = State(
    slots: seq<Slot>, head: u32, tail: u32,
    producer: Producer, consumer: Consumer, last: Slot,
    accepted: seq<Pointer>, popped: seq<Slot>, seen: seq<Slot>, refused: nat, more: bool)

  datatype Action = Push(event: Pointer) | Produce | Consume

  const ZERO := Holds(Pointer(0, 0, false))

  function Initial(): State {
    State(seq(SLOTS, _ => ZERO), 0, 0, Resting, Polling, ZERO, [], [], [], 0, false)
  }

  /** C's `head - tail` on the unsigned counter type. */
  function Distance(head: u32, tail: u32): u32 {
    (head - tail) % MODULUS
  }

  function Bump(counter: u32): u32 {
    (counter + 1) % MODULUS
  }

  function ProducerStep(s: State): State
    requires |s.slots| == SLOTS
  {
    match s.producer
    case Resting => s
    case Called(e) => s.(producer := HasHead(e, s.head))
    case HasHead(e, h) =>
      if Distance(h, s.tail) >= SLOTS then s.(producer := Resting, refused := s.refused + 1)
      else s.(producer := Reserved(e, h))
    case Reserved(e, h) => s.(producer := Writing(e, h), slots := s.slots[h % SLOTS := Torn])
    case Writing(e, h) => s.(producer := Written(e, h), slots := s.slots[h % SLOTS := Holds(e)])
    case Written(e, h) => s.(producer := Resting, head := Bump(h), accepted := s.accepted + [e])
  }

  function ConsumerStep(s: State): State
    requires |s.slots| == SLOTS
  {
    match s.consumer
    case Polling => s.(consumer := HasTail(s.tail))
    case HasTail(t) =>
      if s.head == t then s.(consumer := Reported, seen := s.seen + [s.last])
      else s.(consumer := Reading(t))
    case Reading(t) => s.(consumer := Copied(t, s.slots[t % SLOTS]))
    case Copied(t, e) =>
      s.(consumer := Reported, tail := Bump(t), last := e, popped := s.popped + [e], seen := s.seen + [e])
    case Reported => s.(consumer := Asking(s.head, |s.accepted|))
    case Asking(h, _) => s.(consumer := Polling, more := h != s.tail)
  }

  function Step(s: State, a: Action): State
    requires |s.slots| == SLOTS
  {
    match a
    case Push(e) => if s.producer.Resting? then s.(producer := Called(e)) else s
    case Produce => ProducerStep(s)
    case Consume => ConsumerStep(s)
  }

  function Run(s: State, actions: seq<Action>): (r: State)
    requires |s.slots| == SLOTS
    ensures |r.slots| == SLOTS
    decreases |actions|
  {
    if actions == [] then s else Run(Step(s, actions[0]), actions[1..])
  }

  // The code itself, each call run to its end: it is the machine's steps, one after the other.

  function Solo(s: State, steps: nat): (r: State)
    requires |s.slots| == SLOTS
    ensures |r.slots| == SLOTS
  {
    if steps == 0 then s else ProducerStep(Solo(s, steps - 1))
  }

  function SoloPop(s: State, steps: nat): (r: State)
    requires |s.slots| == SLOTS
    ensures |r.slots| == SLOTS
  {
    if steps == 0 then s else ConsumerStep(SoloPop(s, steps - 1))
  }

  class Ring {
    const slots: array<Slot>
    var head: u32
    var tail: u32

    constructor ()
      ensures fresh(slots) && slots.Length == SLOTS && slots[..] == Initial().slots && head == tail == 0
    {
      slots := new Slot[SLOTS](_ => ZERO);
      head, tail := 0, 0;
    }

    /** `helix_ui_input_push_pointer` with an event: false for ESP_ERR_NO_MEM. */
    method Push(event: Pointer, ghost s: State) returns (ok: bool)
      requires slots.Length == SLOTS
      requires s.slots == slots[..] && s.head == head && s.tail == tail && s.producer.Resting?
      modifies this`head, slots
      ensures var called := Step(s, Action.Push(event));
              var r := if ok then Solo(called, 5) else Solo(called, 2);
              && r.producer == Resting
              && r.slots == slots[..] && r.head == head && r.tail == tail
              && r.accepted == s.accepted + (if ok then [event] else [])
              && r.refused == s.refused + (if ok then 0 else 1)
    {
      var h := head;
      var t := tail;
      ghost var called := Step(s, Action.Push(event));
      assert Solo(called, 1) == s.(producer := HasHead(event, h));
      if Distance(h, t) >= SLOTS {
        assert Solo(called, 2) == ProducerStep(Solo(called, 1));
        return false;
      }
      assert Solo(called, 2) == s.(producer := Reserved(event, h));
      slots[h % SLOTS] := Torn;
      assert Solo(called, 3) == s.(producer := Writing(event, h), slots := slots[..]);
      slots[h % SLOTS] := Holds(event);
      assert Solo(called, 4) == s.(producer := Written(event, h), slots := slots[..]);
      head := Bump(h);
      assert Solo(called, 5) == ProducerStep(Solo(called, 4));
      return true;
    }

    /** `helix_ui_input_pop_pointer`: nothing when the queue is empty. */
    method Pop(ghost s: State) returns (found: bool, out: Slot)
      requires slots.Length == SLOTS
      requires s.slots == slots[..] && s.head == head && s.tail == tail && s.consumer == Polling
      modifies this`tail
      ensures var r := if found then SoloPop(s, 4) else SoloPop(s, 2);
              && r.consumer == Reported
              && r.slots == slots[..] && r.head == head && r.tail == tail
              && r.popped == s.popped + (if found then [out] else [])
    {
      var t := tail;
      var h := head;
      assert SoloPop(s, 1) == s.(consumer := HasTail(t));
      if h == t {
        assert SoloPop(s, 2) == ConsumerStep(SoloPop(s, 1));
        return false, ZERO;
      }
      assert SoloPop(s, 2) == s.(consumer := Reading(t));
      out := slots[t % SLOTS];
      assert SoloPop(s, 3) == s.(consumer := Copied(t, out));
      tail := Bump(t);
      assert SoloPop(s, 4) == ConsumerStep(SoloPop(s, 3));
      found := true;
    }
  }

  // The invariant, in terms of unbounded counters: pushes accepted and events popped so far.

  function Pushed(s: State): nat { |s.accepted| }
  function Popped(s: State): nat { |s.popped| }

  predicate InFlight(s: State)
    requires |s.slots| == SLOTS
  {
    forall i :: Popped(s) <= i < Pushed(s) ==> s.slots[i % SLOTS] == Holds(s.accepted[i])
  }

  predicate ProducerInv(s: State)
    requires |s.slots| == SLOTS
  {
    match s.producer
    case Resting => true
    case Called(_) => true
    case HasHead(_, h) => h == s.head
    case Reserved(_, h) => h == s.head && Pushed(s) - Popped(s) < SLOTS
    case Writing(_, h) => h == s.head && Pushed(s) - Popped(s) < SLOTS
    case Written(e, h) => h == s.head && Pushed(s) - Popped(s) < SLOTS && s.slots[Pushed(s) % SLOTS] == Holds(e)
  }

  predicate ConsumerInv(s: State)
    requires |s.slots| == SLOTS && Popped(s) <= Pushed(s)
  {
    match s.consumer
    case Polling => true
    case HasTail(t) => t == s.tail
    case Reading(t) => t == s.tail && Popped(s) < Pushed(s)
    case Copied(t, e) => t == s.tail && Popped(s) < Pushed(s) && e == Holds(s.accepted[Popped(s)])
    case Reported => true
    case Asking(h, n) => h == n % MODULUS && Popped(s) <= n <= Pushed(s) && n <= Popped(s) + SLOTS
  }

  predicate Inv(s: State) {
    && |s.slots| == SLOTS
    && s.head == Pushed(s) % MODULUS && s.tail == Popped(s) % MODULUS
    && Popped(s) <= Pushed(s) <= Popped(s) + SLOTS
    && (forall i :: 0 <= i < Popped(s) ==> s.popped[i] == Holds(s.accepted[i]))
    && InFlight(s)
    && ProducerInv(s)
    && ConsumerInv(s)
  }

  /** The wrapped counters tell the unbounded distance, because it never exceeds 16. */
  lemma DistanceIsOccupancy(pushed: nat, popped: nat)
    requires popped <= pushed <= popped + SLOTS
    ensures Distance(pushed % MODULUS, popped % MODULUS) == pushed - popped
    ensures pushed % MODULUS == popped % MODULUS <==> pushed == popped
  {
    var d := pushed - popped;
    assert (popped + d) % MODULUS == (popped % MODULUS + d) % MODULUS;
  }

  /** Slots survive the wrap because 16 divides the counter modulus. */
  lemma SlotOfWrapped(n: nat)
    ensures n % MODULUS % SLOTS == n % SLOTS
  {
    var q := n / MODULUS;
    assert n == MODULUS * q + n % MODULUS;
    assert MODULUS * q == SLOTS * (0x1000_0000 * q);
  }

  lemma BumpWrapped(n: nat)
    ensures Bump(n % MODULUS) == (n + 1) % MODULUS
  {}

  lemma SlotsDistinct(i: nat, j: nat)
    requires i < j < i + SLOTS
    ensures i % SLOTS != j % SLOTS
  {}

  lemma FreeSlotWritten(s: State, x: Slot, p: Producer)
    requires |s.slots| == SLOTS && InFlight(s) && Pushed(s) < Popped(s) + SLOTS
    ensures InFlight(s.(slots := s.slots[Pushed(s) % SLOTS := x], producer := p))
  {
    forall i | Popped(s) <= i < Pushed(s) ensures i % SLOTS != Pushed(s) % SLOTS {
      SlotsDistinct(i, Pushed(s));
    }
  }

  lemma Published(s: State, e: Pointer, head: u32)
    requires |s.slots| == SLOTS && InFlight(s) && s.slots[Pushed(s) % SLOTS] == Holds(e)
    ensures InFlight(s.(producer := Resting, head := head, accepted := s.accepted + [e]))
  {
    var r := s.(producer := Resting, head := head, accepted := s.accepted + [e]);
    forall i | Popped(r) <= i < Pushed(r) ensures r.slots[i % SLOTS] == Holds(r.accepted[i]) {
      if i < Pushed(s) {
        assert r.accepted[i] == s.accepted[i];
      }
    }
  }

  lemma ProducerKeeps(s: State)
    requires Inv(s)
    ensures Inv(ProducerStep(s))
  {
    DistanceIsOccupancy(Pushed(s), Popped(s));
    SlotOfWrapped(Pushed(s));
    BumpWrapped(Pushed(s));
    match s.producer {
      case Reserved(e, h) => FreeSlotWritten(s, Torn, Writing(e, h));
      case Writing(e, h) => FreeSlotWritten(s, Holds(e), Written(e, h));
      case Written(e, h) => Published(s, e, Bump(h));
      case _ =>
    }
    hide Distance, Bump, InFlight;
  }

  lemma PopKeeps(s: State)
    requires Inv(s) && s.consumer.Copied?
    ensures Inv(ConsumerStep(s))
  {
    BumpWrapped(Popped(s));
    var r := ConsumerStep(s);
    assert forall i :: 0 <= i < Popped(s) ==> r.popped[i] == s.popped[i];
    hide Distance, Bump;
  }

  lemma ConsumerKeeps(s: State)
    requires Inv(s)
    ensures Inv(ConsumerStep(s))
  {
    DistanceIsOccupancy(Pushed(s), Popped(s));
    SlotOfWrapped(Popped(s));
    if s.consumer.Copied? {
      PopKeeps(s);
      hide *;
    } else {
      hide Distance, Bump, ProducerInv;
    }
  }

  lemma {:induction false} RunKeeps(s: State, actions: seq<Action>)
    requires Inv(s)
    ensures Inv(Run(s, actions))
    decreases |actions|
  {
    if actions != [] {
      if actions[0].Produce? {
        ProducerKeeps(s);
      } else if actions[0].Consume? {
        ConsumerKeeps(s);
      }
      hide Inv, ProducerStep, ConsumerStep;
      RunKeeps(Step(s, actions[0]), actions[1..]);
    }
  }

  lemma InitialInv()
    ensures Inv(Initial())
  {}

  // What the run guarantees.

  /** The producer has chosen the slot it writes and not yet published it. */
  predicate HoldsSlot(p: Producer) {
    p.Reserved? || p.Writing? || p.Written?
  }

  /** In every interleaving: what was popped is a prefix of what was accepted, in order and untorn; the wrapped
      counters differ by the number of events in flight, at most 16; from the moment a slot is chosen for reading until the
      tail moves past it, the producer is never writing it. */
  lemma {:induction false} QueueSafety(actions: seq<Action>)
    ensures var s := Run(Initial(), actions);
            && Popped(s) <= Pushed(s)
            && (forall i :: 0 <= i < Popped(s) ==> s.popped[i] == Holds(s.accepted[i]))
            && Distance(s.head, s.tail) == Pushed(s) - Popped(s) <= SLOTS
            && (HoldsSlot(s.producer) && (s.consumer.Reading? || s.consumer.Copied?)
                ==> s.producer.head % SLOTS != s.consumer.tail % SLOTS)
  {
    InitialInv();
    RunKeeps(Initial(), actions);
    var s := Run(Initial(), actions);
    DistanceIsOccupancy(Pushed(s), Popped(s));
    SlotOfWrapped(Pushed(s));
    SlotOfWrapped(Popped(s));
    if HoldsSlot(s.producer) && (s.consumer.Reading? || s.consumer.Copied?) {
      SlotsDistinct(Popped(s), Pushed(s));
    }
  }

  /** A push is refused exactly when 16 events are in flight at the moment it looks at the tail, and a poll finds
      nothing exactly when none is at the moment it looks at the head. */
  lemma {:induction false} RefusalsAreExact(actions: seq<Action>)
    ensures var s := Run(Initial(), actions);
            && (s.producer.HasHead? ==>
                 (ProducerStep(s).refused == s.refused + 1 <==> Pushed(s) - Popped(s) == SLOTS))
            && (s.consumer.HasTail? ==> (ConsumerStep(s).consumer == Reported <==> Pushed(s) == Popped(s)))
  {
    InitialInv();
    RunKeeps(Initial(), actions);
    var s := Run(Initial(), actions);
    DistanceIsOccupancy(Pushed(s), Popped(s));
  }

  /** `continue_reading` is set exactly when an event accepted by the time the head was looked at is still unread:
      a poll that stops has delivered all of them. */
  lemma {:induction false} StopsOnlyWhenDrained(actions: seq<Action>)
    ensures var s := Run(Initial(), actions);
            s.consumer.Asking? ==> (ConsumerStep(s).more <==> s.consumer.accepted > Popped(s))
  {
    InitialInv();
    RunKeeps(Initial(), actions);
    var s := Run(Initial(), actions);
    if s.consumer.Asking? {
      DistanceIsOccupancy(s.consumer.accepted, Popped(s));
    }
  }

  function LastOf(events: seq<Slot>): Slot {
    if events == [] then ZERO else events[|events| - 1]
  }

  /** `seen` is `events` with only repeats of the latest event inserted; before the first event, of the zero state. */
  predicate Stutters(seen: seq<Slot>, events: seq<Slot>) {
    if seen == [] then events == []
    else
      var n, m := |seen| - 1, |events| - 1;
      seen[n] == LastOf(events)
      && (Stutters(seen[..n], events) || (m >= 0 && Stutters(seen[..n], events[..m])))
  }

  predicate SeenInv(s: State) {
    s.last == LastOf(s.popped) && Stutters(s.seen, s.popped)
  }

  lemma SeenStep(s: State, a: Action)
    requires |s.slots| == SLOTS && SeenInv(s)
    ensures SeenInv(Step(s, a))
  {
    if a.Consume? {
      match s.consumer
      case HasTail(t) =>
        var more := s.seen + [s.last];
        assert more[..|more| - 1] == s.seen;
      case Copied(t, e) =>
        var more, events := s.seen + [e], s.popped + [e];
        assert more[..|more| - 1] == s.seen && events[..|events| - 1] == s.popped;
      case _ =>
    }
  }

  /** The states LVGL sees are the popped events in order, with only repeats inserted. */
  lemma {:induction false} SeenStutters(s: State, actions: seq<Action>)
    requires |s.slots| == SLOTS && SeenInv(s)
    ensures SeenInv(Run(s, actions))
    decreases |actions|
  {
    if actions != [] {
      SeenStep(s, actions[0]);
      hide SeenInv;
      SeenStutters(Step(s, actions[0]), actions[1..]);
    }
  }

  lemma {:induction false} SeenFromStart(actions: seq<Action>)
    ensures Stutters(Run(Initial(), actions).seen, Run(Initial(), actions).popped)
  {
    SeenStutters(Initial(), actions);
  }

  // The queue of the events pushed, by the list of actions alone: unbounded counts, no slots, no counters that wrap.

  /** A push that has returned: its event, and whether it was accepted. */
  datatype Call = Call(event: Pointer, ok: bool)

  /** The pushes that have returned, in order; the one under way and the steps it has taken; the events popped so far, and
      the steps of the current poll. */
  datatype Ideal = Ideal(calls: seq<Call>, underway: Option<Pointer>, done: nat, popped: nat, polled: nat)

  function Events(calls: seq<Call>): seq<Pointer> {
    if calls == [] then [] else Events(calls[..|calls| - 1]) + [calls[|calls| - 1].event]
  }

  function Accepted(calls: seq<Call>): (events: seq<Pointer>)
    ensures |events| <= |calls|
  {
    if calls == [] then []
    else
      var last := calls[|calls| - 1];
      Accepted(calls[..|calls| - 1]) + if last.ok then [last.event] else []
  }

  /** A push returns after its second step if 16 events wait then, and after its fifth otherwise; a poll takes an event
      with its fourth step if one waited at its second. */
  function IdealStep(i: Ideal, a: Action): Ideal {
    match a
    case Push(e) => if i.underway.None? then i.(underway := Some(e), done := 0) else i
    case Produce =>
      if i.underway.None? then i
      else if i.done == 1 && |Accepted(i.calls)| >= i.popped + 16 then
        i.(calls := i.calls + [Call(i.underway.value, false)], underway := None)
      else if i.done == 4 then i.(calls := i.calls + [Call(i.underway.value, true)], underway := None)
      else i.(done := i.done + 1)
    case Consume =>
      if i.polled == 1 then i.(polled := if |Accepted(i.calls)| == i.popped then 4 else 2)
      else if i.polled == 3 then i.(popped := i.popped + 1, polled := 4)
      else if i.polled == 5 then i.(polled := 0)
      else i.(polled := i.polled + 1)
  }

  function IdealOf(actions: seq<Action>): Ideal {
    if actions == [] then Ideal([], None, 0, 0, 0)
    else IdealStep(IdealOf(actions[..|actions| - 1]), actions[|actions| - 1])
  }

  /** The events of the pushes made while no other was under way; the single producer makes no others. */
  function Pushes(actions: seq<Action>): seq<Pointer> {
    if actions == [] then []
    else
      var before, last := actions[..|actions| - 1], actions[|actions| - 1];
      Pushes(before) + if last.Push? && IdealOf(before).underway.None? then [last.event] else []
  }

  predicate ProducerAt(p: Producer, underway: Option<Pointer>, done: nat) {
    match p
    case Resting => underway == None
    case Called(e) => underway == Some(e) && done == 0
    case HasHead(e, _) => underway == Some(e) && done == 1
    case Reserved(e, _) => underway == Some(e) && done == 2
    case Writing(e, _) => underway == Some(e) && done == 3
    case Written(e, _) => underway == Some(e) && done == 4
  }

  function PolledSteps(c: Consumer): nat {
    match c
    case Polling => 0
    case HasTail(_) => 1
    case Reading(_) => 2
    case Copied(_, _) => 3
    case Reported => 4
    case Asking(_, _) => 5
  }

  predicate Matches(s: State, i: Ideal) {
    && ProducerAt(s.producer, i.underway, i.done)
    && PolledSteps(s.consumer) == i.polled
    && s.accepted == Accepted(i.calls)
    && |s.popped| == i.popped
    && s.refused + |s.accepted| == |i.calls|
  }

  lemma {:induction false} AcceptedSnoc(calls: seq<Call>, c: Call)
    ensures Accepted(calls + [c]) == Accepted(calls) + if c.ok then [c.event] else []
  {
    assert (calls + [c])[..|calls|] == calls;
  }

  lemma {:induction false} EventsSnoc(calls: seq<Call>, c: Call)
    ensures Events(calls + [c]) == Events(calls) + [c.event]
  {
    assert (calls + [c])[..|calls|] == calls;
  }

  lemma {:induction false} ProduceMatches(s: State, i: Ideal)
    requires Inv(s) && Matches(s, i)
    ensures Matches(ProducerStep(s), IdealStep(i, Produce))
  {
    DistanceIsOccupancy(Pushed(s), Popped(s));
    if i.underway.Some? {
      AcceptedSnoc(i.calls, Call(i.underway.value, false));
      AcceptedSnoc(i.calls, Call(i.underway.value, true));
    }
    hide Distance, Bump, Accepted, InFlight, ConsumerInv;
  }

  lemma {:induction false} ConsumeMatches(s: State, i: Ideal)
    requires Inv(s) && Matches(s, i)
    ensures Matches(ConsumerStep(s), IdealStep(i, Consume))
  {
    DistanceIsOccupancy(Pushed(s), Popped(s));
    hide Distance, Bump, Accepted, InFlight, ProducerInv;
  }

  lemma StepKeepsSize(s: State, a: Action)
    requires |s.slots| == SLOTS
    ensures |Step(s, a).slots| == SLOTS
  {}

  lemma {:induction false} RunSnoc(s: State, actions: seq<Action>, a: Action)
    requires |s.slots| == SLOTS
    ensures Run(s, actions + [a]) == Step(Run(s, actions), a)
    decreases |actions|
  {
    hide Step;
    if actions == [] {
      assert actions + [a] == [a] && [a][1..] == [];
      StepKeepsSize(s, a);
    } else {
      StepKeepsSize(s, actions[0]);
      RunSnoc(Step(s, actions[0]), actions[1..], a);
      assert (actions + [a])[1..] == actions[1..] + [a];
    }
  }

  lemma {:induction false} RunMatches(actions: seq<Action>)
    ensures Inv(Run(Initial(), actions)) && Matches(Run(Initial(), actions), IdealOf(actions))
  {
    InitialInv();
    RunKeeps(Initial(), actions);
    if actions != [] {
      var before, last := actions[..|actions| - 1], actions[|actions| - 1];
      RunMatches(before);
      RunSnoc(Initial(), before, last);
      assert actions == before + [last];
      var s, i := Run(Initial(), before), IdealOf(before);
      hide Inv, Run, IdealOf, ProducerStep, ConsumerStep;
      match last {
        case Push(e) =>
        case Produce => ProduceMatches(s, i);
        case Consume => ConsumeMatches(s, i);
      }
    }
  }

  function Started(i: Ideal): seq<Pointer> {
    Events(i.calls) + if i.underway.Some? then [i.underway.value] else []
  }

  lemma {:induction false} StartedStep(i: Ideal, a: Action)
    ensures Started(IdealStep(i, a)) == Started(i) + if a.Push? && i.underway.None? then [a.event] else []
  {
    if i.underway.Some? {
      EventsSnoc(i.calls, Call(i.underway.value, false));
      EventsSnoc(i.calls, Call(i.underway.value, true));
    }
    hide Events, Accepted;
  }

  lemma {:induction false} CallsArePushes(actions: seq<Action>)
    ensures Pushes(actions) == Started(IdealOf(actions))
  {
    if actions != [] {
      var before, last := actions[..|actions| - 1], actions[|actions| - 1];
      CallsArePushes(before);
      StartedStep(IdealOf(before), last);
      hide Started, IdealStep;
    }
  }

  /** Over every run: the events pushed are, in order, those of the pushes that returned and the one under way; those
      accepted are, in order, the events of the pushes that returned success, and those popped are the first of these;
      the list of actions alone decides which. */
  lemma {:induction false} QueueRefinesIdeal(actions: seq<Action>)
    ensures var s := Run(Initial(), actions);
            var i := IdealOf(actions);
            && Pushes(actions) == Events(i.calls) + (if i.underway.Some? then [i.underway.value] else [])
            && s.accepted == Accepted(i.calls)
            && s.refused == |i.calls| - |Accepted(i.calls)|
            && |s.popped| == i.popped <= |Accepted(i.calls)|
            && (forall k :: 0 <= k < i.popped ==> s.popped[k] == Holds(Accepted(i.calls)[k]))
  {
    CallsArePushes(actions);
    RunMatches(actions);
    hide IdealOf, Pushes, Events, Accepted, Run, ProducerInv, ConsumerInv, InFlight;
  }

  // What one call does when nothing comes between its steps.

  lemma {:induction false} RunProduces(s: State, n: nat)
    requires |s.slots| == SLOTS
    ensures Run(s, seq(n, _ => Produce)) == Solo(s, n)
  {
    if n > 0 {
      RunProduces(s, n - 1);
      RunSnoc(s, seq(n - 1, _ => Produce), Produce);
      assert seq(n, _ => Produce) == seq(n - 1, _ => Produce) + [Produce];
    }
  }

  lemma {:induction false} RunConsumes(s: State, n: nat)
    requires |s.slots| == SLOTS
    ensures Run(s, seq(n, _ => Consume)) == SoloPop(s, n)
  {
    if n > 0 {
      RunConsumes(s, n - 1);
      RunSnoc(s, seq(n - 1, _ => Consume), Consume);
      assert seq(n, _ => Consume) == seq(n - 1, _ => Consume) + [Consume];
    }
  }

  lemma {:induction false} RunFirst(s: State, a: Action, later: seq<Action>)
    requires |s.slots| == SLOTS
    ensures Run(s, [a] + later) == Run(Step(s, a), later)
  {
    hide Step;
    assert ([a] + later)[1..] == later;
  }

  /** In any reachable state with the producer at rest: a push and five of its steps accept exactly its event if fewer than
      16 are in flight; a push and two of its steps refuse it otherwise. */
  lemma {:induction false} PushCompletes(actions: seq<Action>, e: Pointer)
    requires Run(Initial(), actions).producer.Resting?
    ensures var s := Run(Initial(), actions);
            if |s.accepted| - |s.popped| < 16 then
              var t := Run(s, [Push(e)] + seq(5, _ => Produce));
              && t.accepted == s.accepted + [e] && t.producer.Resting?
              && t.popped == s.popped && t.refused == s.refused
            else
              var t := Run(s, [Push(e)] + seq(2, _ => Produce));
              t.accepted == s.accepted && t.producer.Resting? && t.popped == s.popped && t.refused == s.refused + 1
  {
    RunMatches(actions);
    var s := Run(Initial(), actions);
    var called := Step(s, Push(e));
    RunFirst(s, Push(e), seq(5, _ => Produce));
    RunFirst(s, Push(e), seq(2, _ => Produce));
    RunProduces(called, 5);
    RunProduces(called, 2);
    DistanceIsOccupancy(Pushed(s), Popped(s));
    PushSteps(s, e);
  }

  lemma {:induction false} PushSteps(s: State, e: Pointer)
    requires |s.slots| == SLOTS && s.producer.Resting?
    ensures var called := Step(s, Push(e));
            if Distance(s.head, s.tail) < SLOTS then
              var t := Solo(called, 5);
              && t.accepted == s.accepted + [e] && t.producer.Resting?
              && t.popped == s.popped && t.refused == s.refused
            else
              var t := Solo(called, 2);
              t.accepted == s.accepted && t.producer.Resting? && t.popped == s.popped && t.refused == s.refused + 1
  {
    var called := Step(s, Push(e));
    hide Distance, Bump;
    assert Solo(called, 1) == ProducerStep(Solo(called, 0));
    assert Solo(called, 2) == ProducerStep(Solo(called, 1));
    assert Solo(called, 3) == ProducerStep(Solo(called, 2));
    assert Solo(called, 4) == ProducerStep(Solo(called, 3));
  }

  /** In any reachable state between polls: four steps of the consumer pop exactly the oldest event in flight and show it
      to LVGL; with none in flight two steps show the last one again. */
  lemma {:induction false} PopCompletes(actions: seq<Action>)
    requires Run(Initial(), actions).consumer.Polling?
    ensures var s := Run(Initial(), actions);
            if |s.popped| < |s.accepted| then
              var oldest := Holds(s.accepted[|s.popped|]);
              var t := Run(s, seq(4, _ => Consume));
              t.popped == s.popped + [oldest] && t.seen == s.seen + [oldest] && t.accepted == s.accepted
            else
              var t := Run(s, seq(2, _ => Consume));
              t.popped == s.popped && t.seen == s.seen + [s.last] && t.accepted == s.accepted
  {
    RunMatches(actions);
    var s := Run(Initial(), actions);
    RunConsumes(s, 4);
    RunConsumes(s, 2);
    DistanceIsOccupancy(Pushed(s), Popped(s));
    SlotOfWrapped(Popped(s));
    PopSteps(s);
  }

  lemma {:induction false} PopSteps(s: State)
    requires |s.slots| == SLOTS && s.consumer.Polling?
    ensures if s.head != s.tail then
              var t := SoloPop(s, 4);
              var e := s.slots[s.tail % SLOTS];
              t.popped == s.popped + [e] && t.seen == s.seen + [e] && t.accepted == s.accepted
            else
              var t := SoloPop(s, 2);
              t.popped == s.popped && t.seen == s.seen + [s.last] && t.accepted == s.accepted
  {
    hide Bump;
    assert SoloPop(s, 1) == ConsumerStep(SoloPop(s, 0));
    assert SoloPop(s, 2) == ConsumerStep(SoloPop(s, 1));
    assert SoloPop(s, 3) == ConsumerStep(SoloPop(s, 2));
  }
}
