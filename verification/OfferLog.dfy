/** The catalog's offers: current rows, a snapshot log that grows only when something moved, and failure counters, with
    the refresh loop that drives them. */
module OfferLog {
  import opened Options

  /** The three fields a change is judged by. */
  datatype Observation = Observation(amount: Option<int>, status: string, quantity: Option<int>)

  /** An offer as read from a vendor page; `details` are the fields that are stored but not compared. */
  datatype Offer = Offer(url: string, observation: Observation, listAmount: Option<int>, details: string)

  datatype Row = Row(id: nat, vendor: string, url: string, observation: Observation, listAmount: Option<int>,
                     details: string, failures: nat, lastError: string)

  datatype Snapshot = Snapshot(offerId: nat, observation: Observation, listAmount: Option<int>)

  /** The two tables, and the ids not yet handed out. */
  datatype Store = Store(rows: seq<Row>, snapshots: seq<Snapshot>, nextId: nat)

  datatype Written = Written(changed: bool, created: bool, offerId: nat, previousAmount: Option<Option<int>>)

  const FAILURE_LIMIT := 5

  function RowOf(rows: seq<Row>, vendor: string, url: string): (k: Option<nat>)
    ensures k.Some? ==> k.value < |rows| && rows[k.value].vendor == vendor && rows[k.value].url == url
    ensures k.None? ==> forall i :: 0 <= i < |rows| ==> !(rows[i].vendor == vendor && rows[i].url == url)
  {
    if rows == [] then None
    else
      var last := |rows| - 1;
      if rows[last].vendor == vendor && rows[last].url == url then Some(last)
      else RowOf(rows[..last], vendor, url)
  }

  function Upsert(s: Store, vendor: string, offer: Offer): (Store, Written) {
    match RowOf(s.rows, vendor, offer.url)
    case None =>
      var row := Row(s.nextId, vendor, offer.url, offer.observation, offer.listAmount, offer.details, 0, "");
      (Store(s.rows + [row], s.snapshots + [Snapshot(s.nextId, offer.observation, offer.listAmount)], s.nextId + 1),
       Written(true, true, s.nextId, None))
    case Some(k) =>
      var row := s.rows[k];
      var moved := row.observation != offer.observation;
      var updated := row.(observation := offer.observation, listAmount := offer.listAmount, details := offer.details,
                          failures := 0, lastError := "");
      (s.(rows := s.rows[k := updated],
          snapshots := s.snapshots + if moved then [Snapshot(row.id, offer.observation, offer.listAmount)] else []),
       Written(moved, false, row.id, Some(row.observation.amount)))
  }

  function Failed(row: Row, id: nat, message: string): Row {
    if row.id == id then row.(failures := row.failures + 1, lastError := FirstOf(message, 300)) else row
  }

  function FirstOf(text: string, n: nat): string {
    if |text| <= n then text else text[..n]
  }

  /** `update ... where id = ...`. */
  function RecordFailure(s: Store, id: nat, message: string): Store {
    s.(rows := seq(|s.rows|, i requires 0 <= i < |s.rows| => Failed(s.rows[i], id, message)))
  }

  /** What a page read came to. */
  datatype Outcome = ReadFailed(message: string) | Read(offer: Offer) | Skipped

  datatype Stats = Stats(checked: nat, changed: nat, failed: nat)

  function RefreshRow(s: Store, row: Row, outcome: Outcome): Store {
    match outcome
    case Skipped => s
    case ReadFailed(message) => RecordFailure(s, row.id, message)
    case Read(offer) => Upsert(s, row.vendor, offer).0
  }

  function RefreshAll(s: Store, due: seq<Row>, outcome: nat -> Outcome): Store
    decreases |due|
  {
    if due == [] then s else RefreshAll(RefreshRow(s, due[0], outcome(due[0].id)), due[1..], outcome)
  }

  function CountReads(due: seq<Row>, outcome: nat -> Outcome): nat {
    if due == [] then 0 else (if outcome(due[0].id).Read? then 1 else 0) + CountReads(due[1..], outcome)
  }

  function CountFailures(due: seq<Row>, outcome: nat -> Outcome): nat {
    if due == [] then 0 else (if outcome(due[0].id).ReadFailed? then 1 else 0) + CountFailures(due[1..], outcome)
  }

  /** Rows the refresh query may return: failing too often disqualifies; age, vendor and limit narrow it further. */
  predicate Due(s: Store, due: seq<Row>) {
    && (forall i :: 0 <= i < |due| ==> due[i] in s.rows && due[i].failures < FAILURE_LIMIT)
    && (forall i, j :: 0 <= i < j < |due| ==> due[i].id != due[j].id)
  }

  class Catalog {
    var rows: seq<Row>
    var snapshots: seq<Snapshot>
    var nextId: nat

    function Value(): Store
      reads this
    {
      Store(rows, snapshots, nextId)
    }

    constructor ()
      ensures Value() == Store([], [], 0)
    {
      rows, snapshots, nextId := [], [], 0;
    }

    method UpsertOffer(vendor: string, offer: Offer) returns (written: Written)
      modifies this
      ensures (Value(), written) == Upsert(old(Value()), vendor, offer)
    {
      var existing := RowOf(rows, vendor, offer.url);
      if existing.None? {
        var id := nextId;
        nextId := nextId + 1;
        rows := rows + [Row(id, vendor, offer.url, offer.observation, offer.listAmount, offer.details, 0, "")];
        AddSnapshot(id, offer);
        return Written(true, true, id, None);
      }
      var row := rows[existing.value];
      var moved := row.observation.amount != offer.observation.amount
                   || row.observation.status != offer.observation.status
                   || row.observation.quantity != offer.observation.quantity;
      rows := rows[existing.value := row.(observation := offer.observation, listAmount := offer.listAmount,
                                          details := offer.details, failures := 0, lastError := "")];
      if moved {
        AddSnapshot(row.id, offer);
      } else {
        assert snapshots == snapshots + [];
      }
      return Written(moved, false, row.id, Some(row.observation.amount));
    }

    method AddSnapshot(id: nat, offer: Offer)
      modifies this`snapshots
      ensures snapshots == old(snapshots) + [Snapshot(id, offer.observation, offer.listAmount)]
    {
      snapshots := snapshots + [Snapshot(id, offer.observation, offer.listAmount)];
    }

    /** Every row with the id counts one more failure and carries the message; nothing else changes. */
    method Fail(id: nat, message: string)
      modifies this`rows
      ensures Value() == RecordFailure(old(Value()), id, message)
      ensures |rows| == |old(rows)|
      ensures forall i :: 0 <= i < |rows| ==>
                if old(rows)[i].id != id then rows[i] == old(rows)[i]
                else
                  && rows[i].failures == old(rows)[i].failures + 1 && |rows[i].lastError| <= 300
                  && rows[i].(failures := old(rows)[i].failures, lastError := old(rows)[i].lastError) == old(rows)[i]
    {
      for i := 0 to |rows|
        invariant |rows| == |old(rows)|
        invariant forall j :: 0 <= j < i ==> rows[j] == Failed(old(rows)[j], id, message)
        invariant forall j :: i <= j < |rows| ==> rows[j] == old(rows)[j]
      {
        if rows[i].id == id {
          rows := rows[i := rows[i].(failures := rows[i].failures + 1, lastError := FirstOf(message, 300))];
        }
      }
    }

    /** The refresh loop over the rows that were due when it started. */
    method Refresh(due: seq<Row>, outcome: nat -> Outcome) returns (stats: Stats)
      modifies this
      ensures Value() == RefreshAll(old(Value()), due, outcome)
      ensures stats.checked == CountReads(due, outcome) && stats.failed == CountFailures(due, outcome)
      ensures |snapshots| == |old(snapshots)| + stats.changed
    {
      stats := Stats(0, 0, 0);
      ghost var start := Value();
      assert due[0..] == due;
      for i := 0 to |due|
        invariant RefreshAll(start, due, outcome) == RefreshAll(Value(), due[i..], outcome)
        invariant stats.checked + CountReads(due[i..], outcome) == CountReads(due, outcome)
        invariant stats.failed + CountFailures(due[i..], outcome) == CountFailures(due, outcome)
        invariant |snapshots| == |old(snapshots)| + stats.changed
      {
        var row := due[i];
        assert due[i..][1..] == due[i + 1..];
        match outcome(row.id)
        case Skipped =>
        case ReadFailed(message) =>
          stats := stats.(failed := stats.failed + 1);
          Fail(row.id, message);
        case Read(offer) =>
          var written := UpsertOffer(row.vendor, offer);
          stats := stats.(checked := stats.checked + 1, changed := stats.changed + if written.changed then 1 else 0);
      }
    }
  }

  // Runs.

  datatype Event = Observed(vendor: string, offer: Offer) | FailedRead(id: nat, message: string)

  function Apply(s: Store, e: Event): Store {
    match e
    case Observed(vendor, offer) => Upsert(s, vendor, offer).0
    case FailedRead(id, message) => RecordFailure(s, id, message)
  }

  function Run(events: seq<Event>): Store {
    if events == [] then Store([], [], 0) else Apply(Run(events[..|events| - 1]), events[|events| - 1])
  }

  /** What was observed of one offer, in order. */
  function Observations(events: seq<Event>, vendor: string, url: string): seq<Observation> {
    if events == [] then []
    else
      var e := events[|events| - 1];
      Observations(events[..|events| - 1], vendor, url)
      + if e.Observed? && e.vendor == vendor && e.offer.url == url then [e.offer.observation] else []
  }

  /** Failures of a row since its offer was last observed. */
  function FailuresSince(events: seq<Event>, vendor: string, url: string, id: nat): nat {
    if events == [] then 0
    else
      var e := events[|events| - 1];
      if e.Observed? && e.vendor == vendor && e.offer.url == url then 0
      else
        FailuresSince(events[..|events| - 1], vendor, url, id) + if e.FailedRead? && e.id == id then 1 else 0
  }

  /** An offer as it was last observed. */
  function LastOffer(events: seq<Event>, vendor: string, url: string): Option<Offer> {
    if events == [] then None
    else
      var e := events[|events| - 1];
      if e.Observed? && e.vendor == vendor && e.offer.url == url then Some(e.offer)
      else LastOffer(events[..|events| - 1], vendor, url)
  }

  /** The message of a row's last failure since its offer was last observed. */
  function ErrorSince(events: seq<Event>, vendor: string, url: string, id: nat): string {
    if events == [] then ""
    else
      var e := events[|events| - 1];
      if e.Observed? && e.vendor == vendor && e.offer.url == url then ""
      else if e.FailedRead? && e.id == id then FirstOf(e.message, 300)
      else ErrorSince(events[..|events| - 1], vendor, url, id)
  }

  /** Adjacent repeats removed. */
  function Dedup(xs: seq<Observation>): (r: seq<Observation>)
    ensures xs != [] ==> r != [] && r[|r| - 1] == xs[|xs| - 1]
    ensures xs == [] ==> r == []
  {
    if |xs| <= 1 then xs
    else
      var init := Dedup(xs[..|xs| - 1]);
      if xs[|xs| - 1] == xs[|xs| - 2] then init else init + [xs[|xs| - 1]]
  }

  function LogOf(snapshots: seq<Snapshot>, id: nat): seq<Observation> {
    if snapshots == [] then []
    else
      var last := snapshots[|snapshots| - 1];
      LogOf(snapshots[..|snapshots| - 1], id) + if last.offerId == id then [last.observation] else []
  }

  /** One row tells the story of its offer. */
  predicate RowTells(row: Row, s: Store, events: seq<Event>) {
    && row.id < s.nextId
    && var seen := Observations(events, row.vendor, row.url);
       && seen != []
       && row.observation == seen[|seen| - 1]
       && LogOf(s.snapshots, row.id) == Dedup(seen)
       && row.failures == FailuresSince(events, row.vendor, row.url, row.id)
       && LastOffer(events, row.vendor, row.url) == Some(Offer(row.url, row.observation, row.listAmount, row.details))
       && row.lastError == ErrorSince(events, row.vendor, row.url, row.id)
  }

  predicate Keyed(s: Store) {
    && (forall i, j :: 0 <= i < j < |s.rows| ==> s.rows[i].id != s.rows[j].id)
    && (forall i, j :: 0 <= i < j < |s.rows| ==> !(s.rows[i].vendor == s.rows[j].vendor && s.rows[i].url == s.rows[j].url))
    && (forall i :: 0 <= i < |s.rows| ==> s.rows[i].id < s.nextId)
    && (forall i :: 0 <= i < |s.snapshots| ==> s.snapshots[i].offerId < s.nextId)
  }

  lemma {:induction false} NoLogYet(snapshots: seq<Snapshot>, id: nat)
    requires forall i :: 0 <= i < |snapshots| ==> snapshots[i].offerId < id
    ensures LogOf(snapshots, id) == []
  {
    if snapshots != [] {
      NoLogYet(snapshots[..|snapshots| - 1], id);
    }
  }

  lemma {:induction false} LogSnoc(snapshots: seq<Snapshot>, x: Snapshot, id: nat)
    ensures LogOf(snapshots + [x], id) == LogOf(snapshots, id) + if x.offerId == id then [x.observation] else []
  {
    assert (snapshots + [x])[..|snapshots|] == snapshots;
  }

  lemma {:induction false} DedupSnoc(xs: seq<Observation>, x: Observation)
    ensures Dedup(xs + [x]) == if xs != [] && xs[|xs| - 1] == x then Dedup(xs) else Dedup(xs) + [x]
  {
    assert (xs + [x])[..|xs|] == xs;
  }

  lemma {:induction false} RowsPersist(s: Store, e: Event, vendor: string, url: string)
    requires RowOf(Apply(s, e).rows, vendor, url).None?
    ensures RowOf(s.rows, vendor, url).None? && !(e.Observed? && e.vendor == vendor && e.offer.url == url)
  {
    var r := Apply(s, e);
    assert forall i :: 0 <= i < |s.rows| ==> r.rows[i].vendor == s.rows[i].vendor && r.rows[i].url == s.rows[i].url;
    match e
    case Observed(v, offer) =>
      var k := if RowOf(s.rows, v, offer.url).None? then |s.rows| else RowOf(s.rows, v, offer.url).value;
      assert r.rows[k].vendor == v && r.rows[k].url == offer.url;
    case FailedRead(id, message) =>
  }

  lemma {:induction false} NeverObserved(events: seq<Event>, vendor: string, url: string)
    requires RowOf(Run(events).rows, vendor, url).None?
    ensures Observations(events, vendor, url) == []
  {
    if events != [] {
      var before := events[..|events| - 1];
      RowsPersist(Run(before), events[|events| - 1], vendor, url);
      NeverObserved(before, vendor, url);
    }
  }

  /** A row some event did not concern is as it was, and so is its story. */
  lemma OtherRow(row: Row, s: Store, r: Store, before: seq<Event>, e: Event)
    requires RowTells(row, s, before) && r.nextId >= s.nextId
    requires LogOf(r.snapshots, row.id) == LogOf(s.snapshots, row.id)
    requires !(e.Observed? && e.vendor == row.vendor && e.offer.url == row.url)
    ensures RowTells(if e.FailedRead? then Failed(row, e.id, e.message) else row, r, before + [e])
  {
    var events := before + [e];
    assert events[..|events| - 1] == before;
    hide LogOf, Dedup;
    var seen := Observations(before, row.vendor, row.url);
    assert Observations(events, row.vendor, row.url) == seen + [] == seen;
  }

  lemma ObservedRow(row: Row, s: Store, before: seq<Event>, vendor: string, offer: Offer)
    requires RowTells(row, s, before) && row.vendor == vendor && row.url == offer.url
    ensures var moved := row.observation != offer.observation;
            var snapshots := s.snapshots + if moved then [Snapshot(row.id, offer.observation, offer.listAmount)] else [];
            var updated := row.(observation := offer.observation, listAmount := offer.listAmount,
                                details := offer.details, failures := 0, lastError := "");
            forall rows :: RowTells(updated, Store(rows, snapshots, s.nextId), before + [Observed(vendor, offer)])
  {
    var e := Observed(vendor, offer);
    var events := before + [e];
    assert events[..|events| - 1] == before;
    var seen := Observations(before, vendor, offer.url);
    DedupSnoc(seen, offer.observation);
    LogSnoc(s.snapshots, Snapshot(row.id, offer.observation, offer.listAmount), row.id);
    assert s.snapshots + [] == s.snapshots;
    hide LogOf, Dedup;
  }

  lemma {:induction false} CreatedRow(s: Store, before: seq<Event>, vendor: string, offer: Offer)
    requires Keyed(s) && s == Run(before) && RowOf(s.rows, vendor, offer.url).None?
    ensures var row := Row(s.nextId, vendor, offer.url, offer.observation, offer.listAmount, offer.details, 0, "");
            RowTells(row, Upsert(s, vendor, offer).0, before + [Observed(vendor, offer)])
  {
    var events := before + [Observed(vendor, offer)];
    assert events[..|events| - 1] == before;
    NeverObserved(before, vendor, offer.url);
    NoLogYet(s.snapshots, s.nextId);
    LogSnoc(s.snapshots, Snapshot(s.nextId, offer.observation, offer.listAmount), s.nextId);
  }

  predicate AllTell(s: Store, events: seq<Event>) {
    forall i :: 0 <= i < |s.rows| ==> RowTells(s.rows[i], s, events)
  }

  lemma {:induction false} UnobservedRow(s: Store, before: seq<Event>, vendor: string, offer: Offer, i: nat)
    requires Keyed(s) && i < |s.rows| && RowTells(s.rows[i], s, before) && RowOf(s.rows, vendor, offer.url) != Some(i)
    ensures var r := Upsert(s, vendor, offer).0;
            i < |r.rows| && r.rows[i] == s.rows[i] && RowTells(s.rows[i], r, before + [Observed(vendor, offer)])
  {
    var r := Upsert(s, vendor, offer).0;
    var k := RowOf(s.rows, vendor, offer.url);
    var id := if k.None? then s.nextId else s.rows[k.value].id;
    assert id != s.rows[i].id && !(s.rows[i].vendor == vendor && s.rows[i].url == offer.url);
    LogSnoc(s.snapshots, Snapshot(id, offer.observation, offer.listAmount), s.rows[i].id);
    hide Keyed, RowTells, RowOf, LogOf;
    assert s.snapshots + [] == s.snapshots;
    assert LogOf(s.snapshots, s.rows[i].id) + [] == LogOf(s.snapshots, s.rows[i].id);
    OtherRow(s.rows[i], s, r, before, Observed(vendor, offer));
  }

  lemma UpsertKeyed(s: Store, vendor: string, offer: Offer)
    requires Keyed(s)
    ensures Keyed(Upsert(s, vendor, offer).0)
  {}

  lemma {:induction false} ObserveKeeps(s: Store, before: seq<Event>, vendor: string, offer: Offer)
    requires s == Run(before) && Keyed(s) && AllTell(s, before)
    ensures Keyed(Upsert(s, vendor, offer).0) && AllTell(Upsert(s, vendor, offer).0, before + [Observed(vendor, offer)])
  {
    var e := Observed(vendor, offer);
    var r := Upsert(s, vendor, offer).0;
    var k := RowOf(s.rows, vendor, offer.url);
    UpsertKeyed(s, vendor, offer);
    hide Keyed, RowTells, LogOf;
    forall i | 0 <= i < |r.rows| ensures RowTells(r.rows[i], r, before + [e]) {
      if k.None? && i == |s.rows| {
        CreatedRow(s, before, vendor, offer);
      } else if k == Some(i) {
        ObservedRow(s.rows[i], s, before, vendor, offer);
      } else {
        UnobservedRow(s, before, vendor, offer, i);
      }
    }
  }

  lemma FailKeyed(s: Store, id: nat, message: string)
    requires Keyed(s)
    ensures Keyed(RecordFailure(s, id, message))
  {
    var r := RecordFailure(s, id, message);
    assert forall i :: 0 <= i < |r.rows| ==> r.rows[i] == Failed(s.rows[i], id, message);
  }

  lemma FailKeeps(s: Store, before: seq<Event>, id: nat, message: string)
    requires Keyed(s) && AllTell(s, before)
    ensures Keyed(RecordFailure(s, id, message))
    ensures AllTell(RecordFailure(s, id, message), before + [FailedRead(id, message)])
  {
    var r := RecordFailure(s, id, message);
    FailKeyed(s, id, message);
    hide Keyed, RowTells;
    forall i | 0 <= i < |r.rows| ensures RowTells(r.rows[i], r, before + [FailedRead(id, message)]) {
      assert RowTells(s.rows[i], s, before);
      OtherRow(s.rows[i], s, r, before, FailedRead(id, message));
    }
  }

  /** Over every run of upserts and failures, for every offer: its snapshots are what was observed of it with adjacent
      repeats removed, the row shows the last observation, and the failure counter counts the failures since. */
  lemma {:induction false} HistoryIsFaithful(events: seq<Event>)
    ensures Keyed(Run(events)) && AllTell(Run(events), events)
  {
    if events != [] {
      var before := events[..|events| - 1];
      var e := events[|events| - 1];
      HistoryIsFaithful(before);
      assert events == before + [e];
      match e
      case Observed(vendor, offer) => ObserveKeeps(Run(before), before, vendor, offer);
      case FailedRead(id, message) => FailKeeps(Run(before), before, id, message);
    }
  }

  // The failure limit.

  predicate WithinLimit(s: Store) {
    forall i :: 0 <= i < |s.rows| ==> s.rows[i].failures <= FAILURE_LIMIT
  }

  /** Every row still to be refreshed has failed less often than the limit. */
  predicate StillDue(s: Store, due: seq<Row>) {
    && (forall i, j :: 0 <= i < |s.rows| && 0 <= j < |due| && s.rows[i].id == due[j].id ==>
         s.rows[i].failures < FAILURE_LIMIT)
    && (forall i, j :: 0 <= i < j < |due| ==> due[i].id != due[j].id)
    && (forall j :: 0 <= j < |due| ==> due[j].id < s.nextId)
  }

  lemma UpsertWithin(s: Store, vendor: string, offer: Offer, due: seq<Row>)
    requires WithinLimit(s) && StillDue(s, due)
    ensures WithinLimit(Upsert(s, vendor, offer).0) && StillDue(Upsert(s, vendor, offer).0, due)
  {}

  lemma RefreshRowWithin(s: Store, due: seq<Row>, outcome: Outcome)
    requires due != [] && WithinLimit(s) && StillDue(s, due)
    ensures WithinLimit(RefreshRow(s, due[0], outcome)) && StillDue(RefreshRow(s, due[0], outcome), due[1..])
  {
    var later := due[1..];
    assert forall j :: 0 <= j < |later| ==> later[j] == due[j + 1];
    match outcome
    case Skipped =>
    case Read(offer) => UpsertWithin(s, due[0].vendor, offer, later);
    case ReadFailed(message) =>
      var r := RecordFailure(s, due[0].id, message);
      forall i | 0 <= i < |r.rows|
        ensures r.rows[i].failures <= FAILURE_LIMIT
        ensures forall j :: 0 <= j < |later| && r.rows[i].id == later[j].id ==> r.rows[i].failures < FAILURE_LIMIT
      {
        assert r.rows[i] == Failed(s.rows[i], due[0].id, message);
      }
  }

  lemma {:induction false} RefreshWithin(s: Store, due: seq<Row>, outcome: nat -> Outcome)
    requires WithinLimit(s) && StillDue(s, due)
    ensures WithinLimit(RefreshAll(s, due, outcome))
    decreases |due|
  {
    if due != [] {
      RefreshRowWithin(s, due, outcome(due[0].id));
      hide WithinLimit, StillDue, RefreshRow;
      RefreshWithin(RefreshRow(s, due[0], outcome(due[0].id)), due[1..], outcome);
    }
  }

  /** One agent's turns: an upsert from discovery, or a refresh over rows due when it starts. */
  datatype Turn = Discovery(vendor: string, offer: Offer) | Refreshing(due: seq<Row>, outcome: nat -> Outcome)

  function TakeTurn(s: Store, turn: Turn): Store {
    match turn
    case Discovery(vendor, offer) => Upsert(s, vendor, offer).0
    case Refreshing(due, outcome) => RefreshAll(s, due, outcome)
  }

  predicate InTurn(s: Store, turns: seq<Turn>)
    decreases |turns|
  {
    turns == [] ||
    ((turns[0].Refreshing? ==> Due(s, turns[0].due)) && InTurn(TakeTurn(s, turns[0]), turns[1..]))
  }

  function TakeTurns(s: Store, turns: seq<Turn>): Store
    decreases |turns|
  {
    if turns == [] then s else TakeTurns(TakeTurn(s, turns[0]), turns[1..])
  }

  lemma RefreshRowKeyed(s: Store, row: Row, outcome: Outcome)
    requires Keyed(s)
    ensures Keyed(RefreshRow(s, row, outcome))
  {
    match outcome
    case Skipped =>
    case Read(offer) => UpsertKeyed(s, row.vendor, offer);
    case ReadFailed(message) => FailKeyed(s, row.id, message);
  }

  lemma {:induction false} RefreshKeyed(s: Store, due: seq<Row>, outcome: nat -> Outcome)
    requires Keyed(s)
    ensures Keyed(RefreshAll(s, due, outcome))
    decreases |due|
  {
    hide Keyed, RefreshRow;
    if due != [] {
      RefreshRowKeyed(s, due[0], outcome(due[0].id));
      RefreshKeyed(RefreshRow(s, due[0], outcome(due[0].id)), due[1..], outcome);
    }
  }

  /** With a single agent the failure counter never exceeds 5, however its turns fall. */
  lemma {:induction false} FailuresNeverExceedFive(s: Store, turns: seq<Turn>)
    requires Keyed(s) && WithinLimit(s) && InTurn(s, turns)
    ensures WithinLimit(TakeTurns(s, turns))
    ensures forall row :: row in TakeTurns(s, turns).rows ==> row.failures <= 5
    decreases |turns|
  {
    if turns != [] {
      match turns[0]
      case Discovery(vendor, offer) =>
        UpsertKeyed(s, vendor, offer);
        UpsertWithin(s, vendor, offer, []);
        FailuresNeverExceedFive(TakeTurn(s, turns[0]), turns[1..]);
      case Refreshing(due, outcome) =>
        DueIsStillDue(s, due);
        RefreshKeyed(s, due, outcome);
        RefreshWithin(s, due, outcome);
        FailuresNeverExceedFive(TakeTurn(s, turns[0]), turns[1..]);
    }
  }

  lemma DueIsStillDue(s: Store, due: seq<Row>)
    requires Keyed(s) && Due(s, due)
    ensures StillDue(s, due)
  {
    forall i, j | 0 <= i < |s.rows| && 0 <= j < |due| && s.rows[i].id == due[j].id
      ensures s.rows[i].failures < FAILURE_LIMIT
    {
      var k :| 0 <= k < |s.rows| && s.rows[k] == due[j];
      assert k == i;
    }
    forall j | 0 <= j < |due| ensures due[j].id < s.nextId {
      var k :| 0 <= k < |s.rows| && s.rows[k] == due[j];
    }
  }

  // An agent's turns are a run of events.

  function EventsOfRow(row: Row, outcome: Outcome): seq<Event> {
    match outcome
    case Skipped => []
    case ReadFailed(message) => [FailedRead(row.id, message)]
    case Read(offer) => [Observed(row.vendor, offer)]
  }

  function EventsOfRefresh(due: seq<Row>, outcome: nat -> Outcome): seq<Event> {
    if due == [] then [] else EventsOfRow(due[0], outcome(due[0].id)) + EventsOfRefresh(due[1..], outcome)
  }

  function EventsOf(turns: seq<Turn>): seq<Event> {
    if turns == [] then []
    else
      (match turns[0]
       case Discovery(vendor, offer) => [Observed(vendor, offer)]
       case Refreshing(due, outcome) => EventsOfRefresh(due, outcome))
      + EventsOf(turns[1..])
  }

  lemma {:induction false} RunOneMore(events: seq<Event>, e: Event)
    ensures Run(events + [e]) == Apply(Run(events), e)
  {
    assert (events + [e])[..|events|] == events;
  }

  lemma {:induction false} RefreshIsRun(events: seq<Event>, due: seq<Row>, outcome: nat -> Outcome)
    ensures RefreshAll(Run(events), due, outcome) == Run(events + EventsOfRefresh(due, outcome))
    decreases |due|
  {
    hide Run, Apply;
    if due == [] {
      assert events + [] == events;
    } else {
      var now := EventsOfRow(due[0], outcome(due[0].id));
      RowIsRun(events, due[0], outcome(due[0].id));
      RefreshIsRun(events + now, due[1..], outcome);
      assert events + now + EventsOfRefresh(due[1..], outcome) == events + (now + EventsOfRefresh(due[1..], outcome));
    }
  }

  lemma {:induction false} RowIsRun(events: seq<Event>, row: Row, outcome: Outcome)
    ensures RefreshRow(Run(events), row, outcome) == Run(events + EventsOfRow(row, outcome))
  {
    match outcome
    case Skipped => assert events + [] == events;
    case ReadFailed(message) => RunOneMore(events, FailedRead(row.id, message));
    case Read(offer) => RunOneMore(events, Observed(row.vendor, offer));
  }

  lemma {:induction false} TurnsAreRun(events: seq<Event>, turns: seq<Turn>)
    ensures TakeTurns(Run(events), turns) == Run(events + EventsOf(turns))
    decreases |turns|
  {
    hide Run, Apply, RefreshAll;
    if turns == [] {
      assert events + [] == events;
    } else {
      var now := match turns[0]
        case Discovery(vendor, offer) => [Observed(vendor, offer)]
        case Refreshing(due, outcome) => EventsOfRefresh(due, outcome);
      match turns[0] {
        case Discovery(vendor, offer) => DiscoveryIsRun(events, vendor, offer);
        case Refreshing(due, outcome) => RefreshIsRun(events, due, outcome);
      }
      TurnsAreRun(events + now, turns[1..]);
      assert events + now + EventsOf(turns[1..]) == events + (now + EventsOf(turns[1..]));
    }
  }

  lemma {:induction false} DiscoveryIsRun(events: seq<Event>, vendor: string, offer: Offer)
    ensures Upsert(Run(events), vendor, offer).0 == Run(events + [Observed(vendor, offer)])
  {
    RunOneMore(events, Observed(vendor, offer));
  }

  /** The same history, and the same bound, for everything one agent does, refreshes included. */
  lemma {:induction false} AgentHistory(turns: seq<Turn>)
    requires InTurn(Store([], [], 0), turns)
    ensures var s := TakeTurns(Store([], [], 0), turns);
            Keyed(s) && AllTell(s, EventsOf(turns)) && WithinLimit(s)
  {
    assert Run([]) == Store([], [], 0);
    TurnsAreRun([], turns);
    assert [] + EventsOf(turns) == EventsOf(turns);
    HistoryIsFaithful(EventsOf(turns));
    FailuresNeverExceedFive(Store([], [], 0), turns);
    hide Run, Keyed, AllTell, WithinLimit, InTurn;
  }

  /** What an upsert reports: created if the vendor had no such page; changed if amount, status or quantity differ from
      the row's, or it is new; the row's id; the amount before. Exactly then one snapshot of the offer is added, under
      that id. */
  lemma {:induction false} UpsertReports(s: Store, vendor: string, offer: Offer)
    ensures var (t, written) := Upsert(s, vendor, offer);
            match RowOf(s.rows, vendor, offer.url)
            case None =>
              && written.created && written.changed && written.previousAmount == None
              && written.offerId == s.nextId == t.nextId - 1
              && t.snapshots == s.snapshots + [Snapshot(written.offerId, offer.observation, offer.listAmount)]
            case Some(k) =>
              var was := s.rows[k].observation;
              && !written.created && written.offerId == s.rows[k].id && written.previousAmount == Some(was.amount)
              && (written.changed <==> was.amount != offer.observation.amount || was.status != offer.observation.status
                                       || was.quantity != offer.observation.quantity)
              && t.snapshots
                 == s.snapshots
                    + (if written.changed then [Snapshot(written.offerId, offer.observation, offer.listAmount)] else [])
              && t.rows == s.rows[k := Row(written.offerId, vendor, offer.url, offer.observation, offer.listAmount, offer.details, 0, "")]
  {}
}
