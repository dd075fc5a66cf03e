/** Delivery of responses over every interleaving of the transport tasks. Each step below is one critical section of
    the endpoint: remembering a route, looking one up, copying the transport list, attaching a transport. */
module ResponseDelivery {
  import opened Options
  import opened RequestRoutes

  /** A request being served, and where its response has got to. */
  datatype Task =
    | Handling(id: RequestId, source: Transport)
    | Broadcasting(id: RequestId, source: Transport)

  datatype Delivery = Delivery(id: RequestId, source: Transport, recipients: seq<Transport>, direct: bool)

  datatype World = World(table: Table, attached: seq<Option<Transport>>, tasks: map<nat, Task>,
                         deliveries: seq<Delivery>)

  datatype Event =
    | Attached(transport: Transport)
    | Received(task: nat, id: RequestId, source: Transport)
    | LookedUp(task: nat)
    | Copied(task: nat)

  function Start(): World {
    World(InitialTable(), seq(MAX_TRANSPORTS, _ => None), map[], [])
  }

  /** The transports a broadcast reaches, in table order. */
  function Present(attached: seq<Option<Transport>>): seq<Transport> {
    if attached == [] then []
    else (if attached[0].Some? then [attached[0].value] else []) + Present(attached[1..])
  }

  function Next(w: World, e: Event): World
    requires WellFormed(w.table)
  {
    match e
    case Attached(t) => w.(attached := Attach(w.attached, t))
    case Received(k, id, source) =>
      w.(table := Remember(w.table, id, source), tasks := w.tasks[k := Handling(id, source)])
    case LookedUp(k) =>
      if k in w.tasks && w.tasks[k].Handling? then
        var task := w.tasks[k];
        match Find(w.table, task.id)
        case Some(t) => w.(deliveries := w.deliveries + [Delivery(task.id, task.source, [t], true)])
        case None => w.(tasks := w.tasks[k := Broadcasting(task.id, task.source)])
      else w
    case Copied(k) =>
      if k in w.tasks && w.tasks[k].Broadcasting? then
        var task := w.tasks[k];
        w.(tasks := w.tasks[k := Handling(task.id, task.source)],
           deliveries := w.deliveries + [Delivery(task.id, task.source, Present(w.attached), false)])
      else w
  }

  /** The environment: request ids are not shared between transports, and a request comes from an attached one. */
  predicate Admissible(w: World, e: Event, owner: RequestId -> Transport) {
    e.Received? ==> (e.id != "" ==> owner(e.id) == e.source) && Some(e.source) in w.attached
  }

  predicate Good(events: seq<Event>, w: World, owner: RequestId -> Transport)
    requires WellFormed(w.table)
    decreases |events|
  {
    events == [] || (Admissible(w, events[0], owner) && Good(events[1..], Next(w, events[0]), owner))
  }

  function Run(w: World, events: seq<Event>): (r: World)
    requires WellFormed(w.table)
    ensures WellFormed(r.table)
    decreases |events|
  {
    if events == [] then w else Run(Next(w, events[0]), events[1..])
  }

  predicate Distinct(attached: seq<Option<Transport>>) {
    forall j, k :: 0 <= j < k < |attached| && attached[j].Some? ==> attached[j] != attached[k]
  }

  predicate OwnRoutes(routes: seq<Route>, owner: RequestId -> Transport) {
    forall k :: 0 <= k < |routes| && routes[k].id != "" ==> routes[k].transport == Some(owner(routes[k].id))
  }

  predicate Owned(id: RequestId, source: Transport, attached: seq<Option<Transport>>, owner: RequestId -> Transport) {
    (id != "" ==> owner(id) == source) && Some(source) in attached
  }

  /** A response reaches the transport its request came from: alone, or within a broadcast. */
  predicate Delivered(d: Delivery) {
    && d.source in d.recipients
    && (d.direct ==> d.recipients == [d.source])
  }

  predicate Inv(w: World, owner: RequestId -> Transport) {
    && WellFormed(w.table)
    && OwnRoutes(w.table.routes, owner)
    && Distinct(w.attached)
    && (forall k :: k in w.tasks ==> Owned(w.tasks[k].id, w.tasks[k].source, w.attached, owner))
    && (forall i :: 0 <= i < |w.deliveries| ==> Delivered(w.deliveries[i]))
  }

  lemma {:induction false} PresentHolds(attached: seq<Option<Transport>>, t: Transport)
    ensures t in Present(attached) <==> Some(t) in attached
  {
    if attached != [] {
      PresentHolds(attached[1..], t);
      assert attached == [attached[0]] + attached[1..];
    }
  }

  /** A broadcast goes through the table in its order, to the attached transports alone. */
  lemma {:induction false} PresentInOrder(a: seq<Option<Transport>>, place: Option<Transport>)
    ensures Present(a + [place]) == Present(a) + match place case Some(t) => [t] case None => []
    decreases |a|
  {
    if a == [] {
      assert a + [place] == [place] && [place][1..] == [];
    } else {
      assert (a + [place])[0] == a[0] && (a + [place])[1..] == a[1..] + [place];
      PresentInOrder(a[1..], place);
    }
  }

  lemma AttachKeeps(attached: seq<Option<Transport>>, t: Transport)
    requires Distinct(attached)
    ensures Distinct(Attach(attached, t))
    ensures forall s: Transport :: Some(s) in attached ==> Some(s) in Attach(attached, t)
  {
    var r := Attach(attached, t);
    forall s: Transport | Some(s) in attached ensures Some(s) in r {
      var k :| 0 <= k < |attached| && attached[k] == Some(s);
      assert r[k] == Some(s);
    }
  }

  lemma RememberKeeps(t: Table, id: RequestId, source: Transport, owner: RequestId -> Transport)
    requires WellFormed(t) && OwnRoutes(t.routes, owner) && (id != "" ==> owner(id) == source)
    ensures OwnRoutes(Remember(t, id, source).routes, owner)
  {}

  lemma FindsOwner(t: Table, id: RequestId, owner: RequestId -> Transport)
    requires WellFormed(t) && OwnRoutes(t.routes, owner)
    ensures Find(t, id).Some? ==> id != "" && Find(t, id) == Some(owner(id))
  {}

  lemma StepKeeps(w: World, e: Event, owner: RequestId -> Transport)
    requires Inv(w, owner) && Admissible(w, e, owner)
    ensures Inv(Next(w, e), owner)
  {
    match e
    case Attached(t) =>
      AttachKeeps(w.attached, t);
      hide Attach, OwnRoutes, Distinct;
    case Received(k, id, source) =>
      RememberKeeps(w.table, id, source, owner);
      hide Remember, OwnRoutes, Distinct;
    case LookedUp(k) =>
      if k in w.tasks {
        FindsOwner(w.table, w.tasks[k].id, owner);
      }
      hide Find, OwnRoutes, Distinct;
    case Copied(k) =>
      if k in w.tasks {
        PresentHolds(w.attached, w.tasks[k].source);
      }
      hide Present, OwnRoutes, Distinct;
  }

  lemma {:induction false} RunKeeps(w: World, events: seq<Event>, owner: RequestId -> Transport)
    requires Inv(w, owner) && Good(events, w, owner)
    ensures Inv(Run(w, events), owner)
    decreases |events|
  {
    if events != [] {
      StepKeeps(w, events[0], owner);
      hide Inv, Admissible, Next;
      RunKeeps(Next(w, events[0]), events[1..], owner);
    }
  }

  /** What is being served, and what has been delivered, was requested. */
  predicate AllRequested(w: World, requests: seq<Request>) {
    && (forall k :: k in w.tasks ==> Request(w.tasks[k].id, w.tasks[k].source) in requests)
    && (forall i :: 0 <= i < |w.deliveries| ==> Request(w.deliveries[i].id, w.deliveries[i].source) in requests)
  }

  lemma StepRequested(w: World, e: Event, past: seq<Request>)
    requires WellFormed(w.table) && AllRequested(w, past)
    ensures AllRequested(Next(w, e), past + if e.Received? then [Request(e.id, e.source)] else [])
  {
    hide Find, Remember, Attach, Present;
  }

  lemma {:induction false} RunRequested(w: World, events: seq<Event>, past: seq<Request>)
    requires WellFormed(w.table) && AllRequested(w, past)
    ensures AllRequested(Run(w, events), past + Requests(events))
    decreases |events|
  {
    hide AllRequested;
    if events == [] {
      assert past + [] == past;
    } else {
      var now := if events[0].Received? then [Request(events[0].id, events[0].source)] else [];
      StepRequested(w, events[0], past);
      RunRequested(Next(w, events[0]), events[1..], past + now);
      assert past + now + Requests(events[1..]) == past + (now + Requests(events[1..]));
    }
  }

  /** In every interleaving of receives, responses and attachments on any number of tasks, each response is handed to
      the transport that sent its request: to that one alone whenever its route is still known, and otherwise within a
      broadcast that reaches every transport attached at that moment once. */
  lemma {:induction false} EveryResponseArrives(events: seq<Event>, owner: RequestId -> Transport)
    requires Good(events, Start(), owner)
    ensures var w := Run(Start(), events);
            forall i :: 0 <= i < |w.deliveries| ==>
              Delivered(w.deliveries[i]) && Request(w.deliveries[i].id, w.deliveries[i].source) in Requests(events)
  {
    RunKeeps(Start(), events, owner);
    RunRequested(Start(), events, []);
    assert [] + Requests(events) == Requests(events);
    hide Delivered, Requests, Run;
  }

  lemma {:induction false} PresentOnce(attached: seq<Option<Transport>>, j: nat, k: nat)
    requires Distinct(attached) && j < k < |Present(attached)|
    ensures Present(attached)[j] != Present(attached)[k]
    decreases |attached|
  {
    var later := attached[1..];
    assert forall i :: 0 <= i < |later| ==> later[i] == attached[i + 1];
    if attached[0].None? {
      PresentOnce(later, j, k);
    } else if j > 0 {
      PresentOnce(later, j - 1, k - 1);
    } else {
      PresentHolds(later, Present(attached)[k]);
      var i :| 0 <= i < |later| && later[i] == Some(Present(attached)[k]);
      assert attached[i + 1] == later[i];
    }
  }

  /** A broadcast addresses no transport twice. */
  lemma {:induction false} BroadcastsOnce(events: seq<Event>, owner: RequestId -> Transport, j: nat, k: nat)
    requires Good(events, Start(), owner)
    requires j < k < |Present(Run(Start(), events).attached)|
    ensures var present := Present(Run(Start(), events).attached); present[j] != present[k]
  {
    RunKeeps(Start(), events, owner);
    PresentOnce(Run(Start(), events).attached, j, k);
  }

  // The table a run leaves is the one its requests, in the order their routes were remembered, leave.

  function Requests(events: seq<Event>): seq<Request>
    decreases |events|
  {
    if events == [] then []
    else (if events[0].Received? then [Request(events[0].id, events[0].source)] else []) + Requests(events[1..])
  }

  lemma {:induction false} TableOfRun(w: World, events: seq<Event>)
    requires WellFormed(w.table)
    ensures Run(w, events).table == RememberAll(w.table, Requests(events))
    decreases |events|
  {
    if events != [] {
      TableOfRun(Next(w, events[0]), events[1..]);
      if events[0].Received? {
        var r := Request(events[0].id, events[0].source);
        assert ([r] + Requests(events[1..]))[1..] == Requests(events[1..]);
      } else {
        assert [] + Requests(events[1..]) == Requests(events[1..]);
      }
    }
  }

  lemma {:induction false} RunAppend(w: World, a: seq<Event>, b: seq<Event>)
    requires WellFormed(w.table)
    ensures Run(w, a + b) == Run(Run(w, a), b)
    decreases |a|
  {
    if a == [] {
      assert a + b == b;
    } else {
      RunAppend(Next(w, a[0]), a[1..], b);
      assert (a + b)[1..] == a[1..] + b;
    }
  }

  /** In any interleaving an id routes to the transport it was last received from until 16 further new ids have been
      remembered since its request filled its slot, and to none from then on. */
  lemma {:induction false} RouteUntilSixteenMore(before: seq<Event>, task: nat, id: RequestId, source: Transport,
                                                 later: seq<Event>)
    requires id != "" && Find(Run(Start(), before).table, id).None?
    requires NotRefilled(FifoRemember(FifoAll([], Requests(before)), id, source), id, Requests(later))
    ensures var f := FifoRemember(FifoAll([], Requests(before)), id, source);
            var w := Run(Start(), before + [Received(task, id, source)] + later);
            Find(w.table, id)
            == if Fills(f, Requests(later)) < 16 then Some(Latest(source, id, Requests(later))) else None
  {
    var received := [Received(task, id, source)];
    RunAppend(Start(), before + received, later);
    RunAppend(Start(), before, received);
    var w := Run(Start(), before);
    TableOfRun(Start(), before);
    assert Run(w, received) == Next(w, received[0]) by { assert received[1..] == []; }
    TableOfRun(Run(w, received), later);
    hide Next, Find, Remember, FifoRemember;
    assert Next(w, received[0]).table == Remember(w.table, id, source) by { ReceivedTable(w, task, id, source); }
    RoutedUntilSixteenMore(Requests(before), id, source, Requests(later));
  }

  lemma ReceivedTable(w: World, task: nat, id: RequestId, source: Transport)
    requires WellFormed(w.table)
    ensures Next(w, Received(task, id, source)).table == Remember(w.table, id, source)
  {}

  // Tasks and attachments last.

  /** No event of the run receives on this task. */
  predicate NotReceivedOn(events: seq<Event>, task: nat) {
    forall i :: 0 <= i < |events| ==> !(events[i].Received? && events[i].task == task)
  }

  /** No event of the run is a step of this task. */
  predicate Idle(events: seq<Event>, task: nat) {
    forall i :: 0 <= i < |events| ==>
      match events[i]
      case Attached(_) => true
      case Received(k, _, _) => k != task
      case LookedUp(k) => k != task
      case Copied(k) => k != task
  }

  predicate Serves(w: World, task: nat, id: RequestId, source: Transport) {
    task in w.tasks && (w.tasks[task] == Handling(id, source) || w.tasks[task] == Broadcasting(id, source))
  }

  lemma {:induction false} ServesOn(w: World, events: seq<Event>, task: nat, id: RequestId, source: Transport)
    requires WellFormed(w.table) && Serves(w, task, id, source) && NotReceivedOn(events, task)
    ensures Serves(Run(w, events), task, id, source)
    ensures Idle(events, task) ==> Run(w, events).tasks[task] == w.tasks[task]
    decreases |events|
  {
    if events != [] {
      assert !(events[0].Received? && events[0].task == task);
      assert Idle(events, task) ==> Idle(events[1..], task) by {
        assert forall i :: 0 <= i < |events[1..]| ==> events[1..][i] == events[i + 1];
      }
      StepServes(w, events[0], task, id, source);
      hide Next, Serves;
      ServesOn(Next(w, events[0]), events[1..], task, id, source);
    }
  }

  lemma StepServes(w: World, e: Event, task: nat, id: RequestId, source: Transport)
    requires WellFormed(w.table) && Serves(w, task, id, source) && !(e.Received? && e.task == task)
    ensures Serves(Next(w, e), task, id, source)
    ensures Idle([e], task) ==> Next(w, e).tasks[task] == w.tasks[task]
  {
    hide Find, Remember, Attach, Present;
    assert Idle([e], task) ==> match [e][0]
      case Attached(_) => true
      case Received(k, _, _) => k != task
      case LookedUp(k) => k != task
      case Copied(k) => k != task;
  }

  /** After any run, receiving a request leaves its task serving it, with its id and source, for as long as no other is
      received on the task; it has not looked up its route before the task takes a step of its own. */
  lemma {:induction false} RequestIsServed(before: seq<Event>, task: nat, id: RequestId, source: Transport, later: seq<Event>)
    requires NotReceivedOn(later, task)
    ensures var w := Run(Start(), before + [Received(task, id, source)] + later);
            && task in w.tasks && Serves(w, task, id, source)
            && (Idle(later, task) ==> w.tasks[task] == Handling(id, source))
  {
    var received := [Received(task, id, source)];
    RunAppend(Start(), before + received, later);
    RunAppend(Start(), before, received);
    var w := Run(Start(), before);
    assert Run(w, received) == Next(w, received[0]) by { assert received[1..] == []; }
    hide Run, Remember;
    assert Serves(Run(w, received), task, id, source);
    ServesOn(Run(w, received), later, task, id, source);
  }

  /** A transport that is attached stays so; attaching takes effect if there is room. */
  lemma {:induction false} StaysAttached(w: World, events: seq<Event>, t: Transport)
    requires WellFormed(w.table) && Some(t) in w.attached
    ensures Some(t) in Run(w, events).attached
    decreases |events|
  {
    if events != [] {
      StaysAttached(Next(w, events[0]), events[1..], t);
    }
  }

  lemma {:induction false} AttachedFromStart(t: Transport, events: seq<Event>)
    ensures Some(t) in Run(Next(Start(), Attached(t)), events).attached
  {
    assert Start().attached[0] == None;
    StaysAttached(Next(Start(), Attached(t)), events, t);
  }

  // Answers.

  /** A task about to answer a request whose id another has: its route, if it is known, is its own source. */
  lemma {:induction false} RouteIsOwner(w: World, owner: RequestId -> Transport, k: nat)
    requires Inv(w, owner) && k in w.tasks && w.tasks[k].id != ""
    ensures w.tasks[k].source == owner(w.tasks[k].id)
    ensures Find(w.table, w.tasks[k].id).Some? ==> Find(w.table, w.tasks[k].id) == Some(w.tasks[k].source)
    ensures w.tasks[k].source in Present(w.attached)
  {
    FindsOwner(w.table, w.tasks[k].id, owner);
    PresentHolds(w.attached, w.tasks[k].source);
    hide Find, OwnRoutes, Distinct, Present;
  }

  /** In any interleaving, the response to a request whose task has taken no step since is handed, once, to the transport
      it came from: to that one alone until 16 further new ids have been remembered since the request filled its slot;
      from then on by a broadcast, one step later, that reaches it among all transports attached. */
  lemma {:induction false} DirectUntilSixteenMore(before: seq<Event>, task: nat, id: RequestId, source: Transport,
                                                  later: seq<Event>, owner: RequestId -> Transport)
    requires id != "" && Find(Run(Start(), before).table, id).None?
    requires NotRefilled(FifoRemember(FifoAll([], Requests(before)), id, source), id, Requests(later))
    requires Good(before + [Received(task, id, source)] + later, Start(), owner) && Idle(later, task)
    ensures var f := FifoRemember(FifoAll([], Requests(before)), id, source);
            var w := Run(Start(), before + [Received(task, id, source)] + later);
            var answered := Next(w, LookedUp(task));
            if Fills(f, Requests(later)) < 16 then
              answered.deliveries == w.deliveries + [Delivery(id, source, [source], true)]
            else
              && answered.deliveries == w.deliveries
              && source in Present(w.attached)
              && Next(answered, Copied(task)).deliveries
                 == w.deliveries + [Delivery(id, source, Present(w.attached), false)]
  {
    hide *;
    StartInv(owner);
    var w := Run(Start(), before + [Received(task, id, source)] + later);
    IdleNotReceived(later, task);
    RequestIsServed(before, task, id, source, later);
    RouteUntilSixteenMore(before, task, id, source, later);
    RunKeeps(Start(), before + [Received(task, id, source)] + later, owner);
    RouteIsOwner(w, owner, task);
    Answer(w, task, source);
  }

  lemma StartInv(owner: RequestId -> Transport)
    ensures Inv(Start(), owner) && WellFormed(Start().table)
  {}

  lemma IdleNotReceived(events: seq<Event>, task: nat)
    requires Idle(events, task)
    ensures NotReceivedOn(events, task)
  {}

  /** Whatever else happens before and in between, once a request has been received its task can always answer it: the
      look-up hands the response to its source directly, or the copy that follows does by broadcast; either way exactly
      one delivery is made, to the source of the request. */
  lemma {:induction false} RequestIsAnswered(before: seq<Event>, task: nat, id: RequestId, source: Transport,
                                             later: seq<Event>, owner: RequestId -> Transport)
    requires Good(before + [Received(task, id, source)] + later, Start(), owner) && Idle(later, task)
    ensures var w := Run(Start(), before + [Received(task, id, source)] + later);
            var looked := Next(w, LookedUp(task));
            var answered := if |looked.deliveries| > |w.deliveries| then looked else Next(looked, Copied(task));
            && |answered.deliveries| == |w.deliveries| + 1
            && answered.deliveries[..|w.deliveries|] == w.deliveries
            && var d := answered.deliveries[|w.deliveries|];
               d.id == id && d.source == source && source in d.recipients && (d.direct ==> d.recipients == [source])
  {
    hide *;
    StartInv(owner);
    var w := Run(Start(), before + [Received(task, id, source)] + later);
    IdleNotReceived(later, task);
    RequestIsServed(before, task, id, source, later);
    RunKeeps(Start(), before + [Received(task, id, source)] + later, owner);
    SourceIsPresent(w, owner, task);
    NoEmptyRoute(w, task);
    if id != "" {
      RouteIsOwner(w, owner, task);
    }
    Answer(w, task, source);
  }

  lemma NoEmptyRoute(w: World, task: nat)
    requires WellFormed(w.table) && task in w.tasks
    ensures w.tasks[task].id == "" ==> Find(w.table, w.tasks[task].id).None?
  {}

  lemma SourceIsPresent(w: World, owner: RequestId -> Transport, task: nat)
    requires Inv(w, owner) && task in w.tasks
    ensures w.tasks[task].source in Present(w.attached)
    ensures WellFormed(w.table)
  {
    PresentHolds(w.attached, w.tasks[task].source);
    hide OwnRoutes, Distinct, Present;
  }

  /** What a task does when it answers: one look-up, and a broadcast if that finds nothing. */
  lemma Answer(w: World, k: nat, source: Transport)
    requires WellFormed(w.table) && k in w.tasks && w.tasks[k].Handling? && w.tasks[k].source == source
    requires Find(w.table, w.tasks[k].id).Some? ==> Find(w.table, w.tasks[k].id) == Some(source)
    ensures var id := w.tasks[k].id;
            var answered := Next(w, LookedUp(k));
            if Find(w.table, id).Some? then
              answered == w.(deliveries := w.deliveries + [Delivery(id, source, [source], true)])
            else
              && answered == w.(tasks := w.tasks[k := Broadcasting(id, source)])
              && Next(answered, Copied(k)).deliveries
                 == w.deliveries + [Delivery(id, source, Present(w.attached), false)]
  {
    hide Find, Present;
  }
}
