/** Request routing of the service endpoint: a ring of 16 request-to-transport routes shared by the transport tasks
    under one lock, with broadcast to every attached transport as the fallback. */
module RequestRoutes {
  import opened Options

  const MAX_ROUTES := 16
  const MAX_TRANSPORTS := 4

  /** What fits the 80-byte, NUL-terminated id fields of packets, invocations and routes. */
  type RequestId = s: string | |s| < 80

  type Transport = nat

  datatype Route = Route(id: RequestId, transport: Option<Transport>)

  datatype Table = Table(routes: seq<Route>, next: nat)

  datatype Status = Ok | InvalidArg | InvalidState | NoMem

  const EMPTY := Route("", None)

  predicate WellFormed(t: Table) {
    |t.routes| == MAX_ROUTES && t.next < MAX_ROUTES
  }

  function InitialTable(): Table {
    Table(seq(MAX_ROUTES, _ => EMPTY), 0)
  }

  /** The first slot holding an id. */
  function SlotOf(routes: seq<Route>, id: RequestId): (slot: Option<nat>)
    ensures slot.Some? ==> slot.value < |routes| && routes[slot.value].id == id
                           && forall k :: 0 <= k < slot.value ==> routes[k].id != id
    ensures slot.None? ==> forall k :: 0 <= k < |routes| ==> routes[k].id != id
  {
    if routes == [] then None
    else if routes[0].id == id then Some(0)
    else
      match SlotOf(routes[1..], id)
      case None =>
        assert forall k :: 1 <= k < |routes| ==> routes[k] == routes[1..][k - 1];
        None
      case Some(k) =>
        assert forall j :: 1 <= j <= k ==> routes[j] == routes[1..][j - 1];
        Some(k + 1)
  }

  function Remember(t: Table, id: RequestId, source: Transport): (r: Table)
    requires WellFormed(t)
    ensures WellFormed(r)
  {
    if id == "" then t
    else
      match SlotOf(t.routes, id)
      case Some(k) => t.(routes := t.routes[k := Route(id, Some(source))])
      case None => Table(t.routes[t.next := Route(id, Some(source))], (t.next + 1) % MAX_ROUTES)
  }

  function Find(t: Table, id: RequestId): Option<Transport>
    requires WellFormed(t)
  {
    if id == "" then None
    else match SlotOf(t.routes, id) case Some(k) => t.routes[k].transport case None => None
  }

  lemma {:induction false} SlotIs(routes: seq<Route>, id: RequestId, k: nat)
    requires k < |routes| && routes[k].id == id
    requires forall j :: 0 <= j < k ==> routes[j].id != id
    ensures SlotOf(routes, id) == Some(k)
  {}

  lemma {:induction false} NoSlot(routes: seq<Route>, id: RequestId)
    requires forall j :: 0 <= j < |routes| ==> routes[j].id != id
    ensures SlotOf(routes, id) == None
  {}

  /** Attaching takes the first free place, once per transport. */
  function Attach(transports: seq<Option<Transport>>, t: Transport): (r: seq<Option<Transport>>)
    ensures |r| == |transports|
    ensures forall k :: 0 <= k < |transports| && transports[k].Some? ==> r[k] == transports[k]
    ensures Some(t) in r <==> Some(t) in transports || None in transports
  {
    if Some(t) in transports || None !in transports then transports
    else
      var k := FirstFree(transports);
      assert transports[k := Some(t)][k] == Some(t);
      transports[k := Some(t)]
  }

  function FirstFree(transports: seq<Option<Transport>>): (k: nat)
    requires None in transports
    ensures k < |transports| && transports[k] == None && None !in transports[..k]
  {
    if transports[0] == None then 0
    else
      assert transports == [transports[0]] + transports[1..];
      var k := FirstFree(transports[1..]);
      assert transports[..k + 1] == [transports[0]] + transports[1..][..k];
      k + 1
  }

  /** The statics of the endpoint. Every method is one critical section under its lock. */
  class Endpoint {
    const routes: array<Route>
    const transports: array<Option<Transport>>
    var nextRoute: nat
    var initialized: bool

    function Value(): Table
      reads this, routes
    {
      Table(routes[..], nextRoute)
    }

    constructor ()
      ensures routes.Length == MAX_ROUTES == 16 && transports.Length == MAX_TRANSPORTS == 4 && Value() == InitialTable()
      ensures forall k :: 0 <= k < MAX_TRANSPORTS ==> transports[k] == None
    {
      routes := new Route[MAX_ROUTES](_ => EMPTY);
      transports := new Option<Transport>[MAX_TRANSPORTS](_ => None);
      nextRoute, initialized := 0, true;
    }

    method RememberRoute(id: Option<RequestId>, source: Option<Transport>)
      requires WellFormed(Value())
      modifies this`nextRoute, routes
      ensures Value() == if id.Some? && source.Some? then Remember(old(Value()), id.value, source.value)
                         else old(Value())
    {
      if id.None? || id.value == "" || source.None? {
        return;
      }
      for i := 0 to MAX_ROUTES
        invariant forall k :: 0 <= k < i ==> routes[k].id != id.value
        invariant Value() == old(Value())
      {
        if routes[i].id == id.value {
          SlotIs(routes[..], id.value, i);
          routes[i] := Route(id.value, source);
          return;
        }
      }
      NoSlot(routes[..], id.value);
      routes[nextRoute] := Route(id.value, source);
      nextRoute := (nextRoute + 1) % MAX_ROUTES;
    }

    method FindRoute(id: Option<RequestId>) returns (found: Option<Transport>)
      requires WellFormed(Value())
      ensures found == if id.Some? then Find(Value(), id.value) else None
    {
      if id.None? || id.value == "" {
        return None;
      }
      for i := 0 to MAX_ROUTES
        invariant forall k :: 0 <= k < i ==> routes[k].id != id.value
      {
        if routes[i].id == id.value {
          SlotIs(routes[..], id.value, i);
          return routes[i].transport;
        }
      }
      NoSlot(routes[..], id.value);
      return None;
    }

    method AttachTransport(transport: Option<Transport>, hasName: bool, canSend: bool) returns (status: Status)
      modifies transports
      ensures status == if transport.None? || !hasName || !canSend then InvalidArg
                        else if !initialized then InvalidState
                        else if transport in old(transports[..]) || None in old(transports[..]) then Ok
                        else NoMem
      ensures transports[..] == if status.Ok? then Attach(old(transports[..]), transport.value) else old(transports[..])
    {
      if transport.None? || !hasName || !canSend {
        return InvalidArg;
      }
      if !initialized {
        return InvalidState;
      }
      for i := 0 to transports.Length
        invariant transport !in transports[..i] && transports[..] == old(transports[..])
      {
        if transports[i] == transport {
          assert transports[..][i] == transport;
          return Ok;
        }
      }
      assert transports[..transports.Length] == transports[..];
      for i := 0 to transports.Length
        invariant None !in transports[..i] && transports[..] == old(transports[..])
      {
        if transports[i] == None {
          assert transports[..][i] == None;
          FirstFreeIs(transports[..], i);
          transports[i] := transport;
          return Ok;
        }
      }
      assert transports[..transports.Length] == transports[..];
      return NoMem;
    }
  }

  lemma {:induction false} FirstFreeIs(transports: seq<Option<Transport>>, k: nat)
    requires k < |transports| && transports[k] == None && None !in transports[..k]
    ensures FirstFree(transports) == k
  {
    var f := FirstFree(transports);
    assert forall j :: 0 <= j < k ==> transports[..k][j] == transports[j];
    assert forall j :: 0 <= j < f ==> transports[..f][j] == transports[j];
  }

  // The specification: a map of at most 16 entries, oldest first, that forgets its oldest.

  datatype Binding = Binding(id: RequestId, transport: Transport)

  function Place(f: seq<Binding>, id: RequestId): (place: Option<nat>)
    ensures place.Some? ==> place.value < |f| && f[place.value].id == id
    ensures place.None? ==> forall k :: 0 <= k < |f| ==> f[k].id != id
  {
    if f == [] then None
    else if f[|f| - 1].id == id then Some(|f| - 1)
    else Place(f[..|f| - 1], id)
  }

  /** A known id changes its transport but keeps its age; a new one pushes the oldest out of a full map. */
  function FifoRemember(f: seq<Binding>, id: RequestId, source: Transport): seq<Binding> {
    if id == "" then f
    else
      match Place(f, id)
      case Some(k) => f[k := Binding(id, source)]
      case None => Kept(f) + [Binding(id, source)]
  }

  function FifoFind(f: seq<Binding>, id: RequestId): Option<Transport> {
    if id == "" then None
    else match Place(f, id) case Some(k) => Some(f[k].transport) case None => None
  }

  predicate Proper(f: seq<Binding>) {
    && |f| <= MAX_ROUTES
    && (forall k :: 0 <= k < |f| ==> f[k].id != "")
    && (forall j, k :: 0 <= j < k < |f| ==> f[j].id != f[k].id)
  }

  /** The slot of the entry at place k: the newest sits just before the next slot to fill. */
  function SlotAt(next: nat, n: nat, k: nat): (slot: nat)
    requires n <= MAX_ROUTES && k < n
    ensures slot < MAX_ROUTES
  {
    (next + MAX_ROUTES - n + k) % MAX_ROUTES
  }

  predicate Refines(t: Table, f: seq<Binding>) {
    && WellFormed(t) && Proper(f)
    && (forall k :: 0 <= k < |f| ==> t.routes[SlotAt(t.next, |f|, k)] == Route(f[k].id, Some(f[k].transport)))
    && (forall j :: 0 <= j < MAX_ROUTES ==> t.routes[j] == EMPTY || Occupied(t, f, j))
  }

  predicate Occupied(t: Table, f: seq<Binding>, j: nat)
    requires WellFormed(t) && |f| <= MAX_ROUTES
  {
    exists k :: 0 <= k < |f| && SlotAt(t.next, |f|, k) == j
  }

  lemma {:induction false} FindRefines(t: Table, f: seq<Binding>, id: RequestId)
    requires Refines(t, f)
    ensures WellFormed(t) && Proper(f)
    ensures Find(t, id) == FifoFind(f, id)
    ensures id != "" && Place(f, id).Some? ==> SlotOf(t.routes, id) == Some(SlotAt(t.next, |f|, Place(f, id).value))
    ensures id != "" && Place(f, id).None? ==> SlotOf(t.routes, id) == None
  {
    if id != "" {
      if Place(f, id).Some? {
        assert t.routes[SlotAt(t.next, |f|, Place(f, id).value)].id == id;
      }
      if SlotOf(t.routes, id).Some? {
        var j := SlotOf(t.routes, id).value;
        assert Occupied(t, f, j);
        var k :| 0 <= k < |f| && SlotAt(t.next, |f|, k) == j;
        assert f[k].id == id;
      }
    }
  }

  lemma SlotsDiffer(t: Table, n: nat, j: nat, k: nat)
    requires WellFormed(t) && n <= MAX_ROUTES && j < n && k < n && j != k
    ensures SlotAt(t.next, n, j) != SlotAt(t.next, n, k)
  {}

  /** The ring refines the forgetting map, step by step. */
  lemma RememberRefines(t: Table, f: seq<Binding>, id: RequestId, source: Transport)
    requires Refines(t, f)
    ensures Refines(Remember(t, id, source), FifoRemember(f, id, source))
  {
    FindRefines(t, f, id);
    if id != "" {
      match Place(f, id)
      case Some(p) =>
        RefreshRefines(t, f, id, source, p);
        RememberRefreshes(t, id, source, SlotAt(t.next, |f|, p));
      case None =>
        FillRefines(t, f, id, source);
        RememberFills(t, id, source);
    }
    hide Refines, SlotAt, SlotOf, Remember;
  }

  lemma {:induction false} RememberRefreshes(t: Table, id: RequestId, source: Transport, slot: nat)
    requires WellFormed(t) && id != "" && SlotOf(t.routes, id) == Some(slot)
    ensures Remember(t, id, source) == t.(routes := t.routes[slot := Route(id, Some(source))])
  {}

  lemma {:induction false} RememberFills(t: Table, id: RequestId, source: Transport)
    requires WellFormed(t) && id != "" && SlotOf(t.routes, id) == None
    ensures Remember(t, id, source)
         == Table(t.routes[t.next := Route(id, Some(source))], (t.next + 1) % MAX_ROUTES)
  {}

  lemma RefreshRefines(t: Table, f: seq<Binding>, id: RequestId, source: Transport, p: nat)
    requires Refines(t, f) && p < |f| && f[p].id == id
    ensures Refines(t.(routes := t.routes[SlotAt(t.next, |f|, p) := Route(id, Some(source))]), f[p := Binding(id, source)])
  {
    var u := t.(routes := t.routes[SlotAt(t.next, |f|, p) := Route(id, Some(source))]);
    var g := f[p := Binding(id, source)];
    forall k | 0 <= k < |f| && k != p ensures SlotAt(t.next, |f|, k) != SlotAt(t.next, |f|, p) {
      SlotsDiffer(t, |f|, k, p);
    }
    hide SlotAt;
    forall k | 0 <= k < |g| ensures u.routes[SlotAt(u.next, |g|, k)] == Route(g[k].id, Some(g[k].transport)) {
    }
    forall j | 0 <= j < MAX_ROUTES ensures u.routes[j] == EMPTY || Occupied(u, g, j) {
      if Occupied(t, f, j) {
        var k :| 0 <= k < |f| && SlotAt(t.next, |f|, k) == j;
        assert SlotAt(u.next, |g|, k) == j;
      } else {
        assert SlotAt(t.next, |f|, p) != j;
      }
    }
  }

  function Kept(f: seq<Binding>): seq<Binding> {
    if |f| < MAX_ROUTES then f else f[1..]
  }

  lemma {:induction false} FillProper(f: seq<Binding>, b: Binding)
    requires Proper(f) && b.id != "" && Place(f, b.id).None?
    ensures Proper(Kept(f) + [b])
  {
    hide Place;
    var d := |f| - |Kept(f)|;
    assert forall k :: 0 <= k < |Kept(f)| ==> (Kept(f) + [b])[k] == f[k + d];
  }

  // An entry stays in its slot when a slot is filled, and that slot is not the one being filled.
  lemma FillSlot(t: Table, u: Table, n: nat, d: nat, k: nat)
    requires WellFormed(t) && WellFormed(u) && u.next == (t.next + 1) % MAX_ROUTES
    requires n <= MAX_ROUTES && d == (if n < MAX_ROUTES then 0 else 1) && k + d < n
    ensures SlotAt(u.next, n - d + 1, k) == SlotAt(t.next, n, k + d) != t.next
  {
    var sum := t.next + MAX_ROUTES - n + k + d;
    if t.next + 1 == MAX_ROUTES {
      assert u.next + MAX_ROUTES - (n - d + 1) + k == sum - MAX_ROUTES;
    } else {
      assert u.next + MAX_ROUTES - (n - d + 1) + k == sum;
    }
  }

  lemma NewestSlot(t: Table, u: Table, n: nat)
    requires WellFormed(t) && WellFormed(u) && u.next == (t.next + 1) % MAX_ROUTES && 0 < n <= MAX_ROUTES
    ensures SlotAt(u.next, n, n - 1) == t.next
    ensures SlotAt(t.next, MAX_ROUTES, 0) == t.next
  {}

  // An older entry after a fill: its place moved by d, its slot did not.
  lemma FillKeeps(t: Table, u: Table, f: seq<Binding>, b: Binding, k: nat)
    requires WellFormed(t) && WellFormed(u) && |f| <= MAX_ROUTES && k < |Kept(f)|
    requires u == Table(t.routes[t.next := Route(b.id, Some(b.transport))], (t.next + 1) % MAX_ROUTES)
    ensures var d := |f| - |Kept(f)|;
            && SlotAt(u.next, |Kept(f)| + 1, k) == SlotAt(t.next, |f|, k + d)
            && u.routes[SlotAt(t.next, |f|, k + d)] == t.routes[SlotAt(t.next, |f|, k + d)]
            && (Kept(f) + [b])[k] == f[k + d]
  {
    FillSlot(t, u, |f|, |f| - |Kept(f)|, k);
    hide SlotAt;
  }

  lemma FillEntry(t: Table, u: Table, f: seq<Binding>, b: Binding, k: nat)
    requires Refines(t, f) && WellFormed(u) && k <= |Kept(f)|
    requires u == Table(t.routes[t.next := Route(b.id, Some(b.transport))], (t.next + 1) % MAX_ROUTES)
    ensures var g := Kept(f) + [b];
            u.routes[SlotAt(u.next, |g|, k)] == Route(g[k].id, Some(g[k].transport))
  {
    var g := Kept(f) + [b];
    NewestSlot(t, u, |g|);
    hide SlotAt, Occupied;
    if k < |g| - 1 {
      FillKeeps(t, u, f, b, k);
    }
  }

  lemma FillEntries(t: Table, u: Table, f: seq<Binding>, b: Binding)
    requires Refines(t, f) && WellFormed(u)
    requires u == Table(t.routes[t.next := Route(b.id, Some(b.transport))], (t.next + 1) % MAX_ROUTES)
    ensures var g := Kept(f) + [b];
            forall k :: 0 <= k < |g| ==> u.routes[SlotAt(u.next, |g|, k)] == Route(g[k].id, Some(g[k].transport))
  {
    var g := Kept(f) + [b];
    assert |g| <= MAX_ROUTES;
    hide Refines, SlotAt;
    forall k | 0 <= k < |g| ensures u.routes[SlotAt(u.next, |g|, k)] == Route(g[k].id, Some(g[k].transport)) {
      FillEntry(t, u, f, b, k);
    }
  }

  lemma FillOccupies(t: Table, u: Table, f: seq<Binding>, b: Binding, k: nat)
    requires WellFormed(t) && WellFormed(u) && |f| <= MAX_ROUTES && k < |f|
    requires u == Table(t.routes[t.next := Route(b.id, Some(b.transport))], (t.next + 1) % MAX_ROUTES)
    ensures SlotAt(t.next, |f|, k) == t.next || Occupied(u, Kept(f) + [b], SlotAt(t.next, |f|, k))
  {
    var g := Kept(f) + [b];
    var d := |f| - |Kept(f)|;
    NewestSlot(t, u, |g|);
    if k >= d {
      FillKeeps(t, u, f, b, k - d);
      assert SlotAt(u.next, |g|, k - d) == SlotAt(t.next, |f|, k);
    }
    hide SlotAt;
  }

  lemma FillSlots(t: Table, u: Table, f: seq<Binding>, b: Binding, j: nat)
    requires Refines(t, f) && WellFormed(u) && j < MAX_ROUTES
    requires u == Table(t.routes[t.next := Route(b.id, Some(b.transport))], (t.next + 1) % MAX_ROUTES)
    ensures u.routes[j] == EMPTY || Occupied(u, Kept(f) + [b], j)
  {
    var g := Kept(f) + [b];
    NewestSlot(t, u, |g|);
    assert |f| <= MAX_ROUTES && (t.routes[j] == EMPTY || Occupied(t, f, j));
    hide SlotAt, Refines, Proper;
    if j == t.next {
      assert SlotAt(u.next, |g|, |g| - 1) == j;
    } else if Occupied(t, f, j) {
      var k :| 0 <= k < |f| && SlotAt(t.next, |f|, k) == j;
      FillOccupies(t, u, f, b, k);
    }
  }

  lemma {:induction false} FillRefines(t: Table, f: seq<Binding>, id: RequestId, source: Transport)
    requires Refines(t, f) && id != "" && Place(f, id).None?
    ensures Refines(Table(t.routes[t.next := Route(id, Some(source))], (t.next + 1) % MAX_ROUTES),
              Kept(f) + [Binding(id, source)])
  {
    var u := Table(t.routes[t.next := Route(id, Some(source))], (t.next + 1) % MAX_ROUTES);
    FillProper(f, Binding(id, source));
    FillEntries(t, u, f, Binding(id, source));
    forall j | 0 <= j < MAX_ROUTES ensures u.routes[j] == EMPTY || Occupied(u, Kept(f) + [Binding(id, source)], j) {
      FillSlots(t, u, f, Binding(id, source), j);
    }
    hide SlotAt, Occupied, Place, Proper;
  }

  lemma InitialRefines()
    ensures Refines(InitialTable(), [])
  {}

  // How long a route lasts.

  datatype Request = Request(id: RequestId, source: Transport)

  function RememberAll(t: Table, requests: seq<Request>): (r: Table)
    requires WellFormed(t)
    ensures WellFormed(r)
    decreases |requests|
  {
    if requests == [] then t
    else RememberAll(Remember(t, requests[0].id, requests[0].source), requests[1..])
  }

  function FifoAll(f: seq<Binding>, requests: seq<Request>): seq<Binding>
    decreases |requests|
  {
    if requests == [] then f else FifoAll(FifoRemember(f, requests[0].id, requests[0].source), requests[1..])
  }

  /** How many of the requests bring an id the table does not hold: each fills a slot. */
  function Fills(f: seq<Binding>, requests: seq<Request>): nat
    decreases |requests|
  {
    if requests == [] then 0
    else
      var r := requests[0];
      (if r.id != "" && Place(f, r.id).None? then 1 else 0) + Fills(FifoRemember(f, r.id, r.source), requests[1..])
  }

  lemma {:induction false} RunRefines(t: Table, f: seq<Binding>, requests: seq<Request>)
    requires Refines(t, f)
    ensures Refines(RememberAll(t, requests), FifoAll(f, requests))
    decreases |requests|
  {
    if requests != [] {
      var r := requests[0];
      RememberRefines(t, f, r.id, r.source);
      hide Refines, Remember, FifoRemember;
      RunRefines(Remember(t, r.id, r.source), FifoRemember(f, r.id, r.source), requests[1..]);
    }
  }

  lemma {:induction false} PlaceIs(f: seq<Binding>, k: nat)
    requires Proper(f) && k < |f|
    ensures Place(f, f[k].id) == Some(k)
  {}

  lemma {:induction false} RefreshKeepsPlaces(f: seq<Binding>, p: nat, source: Transport, id: RequestId)
    requires Proper(f) && p < |f|
    ensures var g := f[p := Binding(f[p].id, source)]; Proper(g) && Place(g, id) == Place(f, id)
  {
    var g := f[p := Binding(f[p].id, source)];
    assert forall k :: 0 <= k < |f| ==> g[k].id == f[k].id;
    if Place(f, id).Some? {
      PlaceIs(g, Place(f, id).value);
    }
  }

  lemma {:induction false} FillMovesPlaces(f: seq<Binding>, b: Binding, id: RequestId)
    requires Proper(f) && b.id != "" && Place(f, b.id).None? && id != b.id
    ensures var g := Kept(f) + [b];
            var d := |f| - |Kept(f)|;
            && Proper(g)
            && Place(g, id)
               == match Place(f, id)
                  case None => None
                  case Some(k) => if k < d then None else Some(k - d)
  {
    var g := Kept(f) + [b];
    var d := |f| - |Kept(f)|;
    FillProper(f, b);
    hide Place;
    assert forall k :: 0 <= k < |Kept(f)| ==> g[k] == f[k + d];
    if Place(f, id).Some? && Place(f, id).value >= d {
      PlaceIs(g, Place(f, id).value - d);
    }
  }

  /** One more request moves another id's entry towards the front by one exactly when it fills a slot; the front
      entry then falls out. */
  lemma {:induction false} OthersAge(f: seq<Binding>, r: Request, id: RequestId)
    requires Proper(f) && id != "" && r.id != id
    ensures Proper(FifoRemember(f, r.id, r.source))
    ensures var g := FifoRemember(f, r.id, r.source);
            var fills := r.id != "" && Place(f, r.id).None?;
            match Place(f, id)
            case None => Place(g, id).None?
            case Some(k) =>
              if !fills then Place(g, id) == Some(k) && |g| == |f| && g[k] == f[k]
              else if |f| == MAX_ROUTES && k == 0 then Place(g, id).None?
              else Place(g, id).Some? && |g| - Place(g, id).value == |f| - k + 1 && g[Place(g, id).value] == f[k]
  {
    if r.id != "" {
      match Place(f, r.id)
      case Some(p) => RefreshKeepsPlaces(f, p, r.source, id);
      case None => FillMovesPlaces(f, Binding(r.id, r.source), id);
    }
    hide Place, Proper;
  }

  lemma {:induction false} RememberedIsNewest(f: seq<Binding>, id: RequestId, source: Transport)
    requires Proper(f) && id != "" && Place(f, id).None?
    ensures var g := FifoRemember(f, id, source);
            Proper(g) && Place(g, id) == Some(|g| - 1) && g[|g| - 1].transport == source
  {
    FillProper(f, Binding(id, source));
  }

  /** No request brings the id back after it was forgotten: its slot was not filled again. */
  predicate NotRefilled(f: seq<Binding>, id: RequestId, requests: seq<Request>)
    decreases |requests|
  {
    requests == [] ||
    (&& (requests[0].id == id ==> Place(f, id).Some?)
     && NotRefilled(FifoRemember(f, requests[0].id, requests[0].source), id, requests[1..]))
  }

  /** The transport the id was last requested from. */
  function Latest(source: Transport, id: RequestId, requests: seq<Request>): Transport
    decreases |requests|
  {
    if requests == [] then source
    else Latest(if requests[0].id == id then requests[0].source else source, id, requests[1..])
  }

  /** A repeat of a known id changes its transport and nothing else: its entry keeps its age. */
  lemma {:induction false} RepeatKeepsAge(f: seq<Binding>, id: RequestId, source: Transport)
    requires Proper(f) && id != "" && Place(f, id).Some?
    ensures var g := FifoRemember(f, id, source);
            && Proper(g) && |g| == |f| && Place(g, id) == Place(f, id)
            && g[Place(g, id).value].transport == source
  {
    RefreshKeepsPlaces(f, Place(f, id).value, source, id);
    hide Proper, Place;
  }

  /** An entry is found until enough new ids have come after it, and exactly until then: repeats of its own id change
      the transport it names but not its age. */
  lemma {:induction false} LastsExactly(f: seq<Binding>, id: RequestId, requests: seq<Request>)
    requires Proper(f) && id != "" && Place(f, id).Some?
    requires NotRefilled(f, id, requests)
    ensures var age := |f| - Place(f, id).value;
            FifoFind(FifoAll(f, requests), id)
            == if age + Fills(f, requests) <= MAX_ROUTES
               then Some(Latest(f[Place(f, id).value].transport, id, requests)) else None
    decreases |requests|
  {
    if requests != [] {
      var r := requests[0];
      var g := FifoRemember(f, r.id, r.source);
      if r.id == id {
        RepeatKeepsAge(f, id, r.source);
      } else {
        OthersAge(f, r, id);
      }
      hide FifoRemember, Proper, Place;
      if Place(g, id).Some? {
        LastsExactly(g, id, requests[1..]);
      } else {
        StaysForgotten(g, id, requests[1..]);
      }
    }
  }

  lemma {:induction false} StaysForgotten(f: seq<Binding>, id: RequestId, requests: seq<Request>)
    requires Proper(f) && id != "" && Place(f, id).None?
    requires NotRefilled(f, id, requests)
    ensures Place(FifoAll(f, requests), id).None?
    decreases |requests|
  {
    if requests != [] {
      OthersAge(f, requests[0], id);
      hide FifoRemember, Proper, Place;
      StaysForgotten(FifoRemember(f, requests[0].id, requests[0].source), id, requests[1..]);
    }
  }

  /** Over any run from start-up: a request with a new id is routed to the transport it was last sent from until 16
      further new ids have been remembered since its slot was filled, and to none from then on; repeats, of its own id
      or of others, neither shorten nor lengthen that. */
  lemma {:induction false} RoutedUntilSixteenMore(before: seq<Request>, id: RequestId, source: Transport,
                                                  later: seq<Request>)
    requires id != "" && Find(RememberAll(InitialTable(), before), id).None?
    requires NotRefilled(FifoRemember(FifoAll([], before), id, source), id, later)
    ensures var f := FifoAll([], before);
            var t := Remember(RememberAll(InitialTable(), before), id, source);
            Find(RememberAll(t, later), id)
            == if Fills(FifoRemember(f, id, source), later) < 16 then Some(Latest(source, id, later)) else None
  {
    InitialRefines();
    RunRefines(InitialTable(), [], before);
    var t, f := RememberAll(InitialTable(), before), FifoAll([], before);
    FindRefines(t, f, id);
    RememberRefines(t, f, id, source);
    RememberedIsNewest(f, id, source);
    var u, g := Remember(t, id, source), FifoRemember(f, id, source);
    RunRefines(u, g, later);
    FindRefines(RememberAll(u, later), FifoAll(g, later), id);
    hide Refines, Remember, FifoRemember, Proper, Find;
    LastsExactly(g, id, later);
  }
}
