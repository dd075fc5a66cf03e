/** The contract compiler's ordering of schemas: depth first, each schema after those its fields reference. */
module SchemaOrder {
  import opened Options

  /** A field is a bare type name, or a definition whose `items` may be a string. */
  datatype Definition = Shorthand(typeName: string) | Detailed(items: Option<string>)

  datatype Schema = NotAnObject | Object(fields: seq<Definition>)

  type Schemas = map<string, Schema>

  /** The names a schema's fields reference, in field order. */
  function Items(fields: seq<Definition>): seq<string> {
    if fields == [] then []
    else (if fields[0].Detailed? && fields[0].items.Some? then [fields[0].items.value] else []) + Items(fields[1..])
  }

  /** A name is referenced exactly by a field whose definition gives it as a string under `items`. */
  lemma {:induction false} ItemsAre(fields: seq<Definition>, name: string)
    ensures name in Items(fields) <==> Detailed(Some(name)) in fields
  {
    if fields != [] {
      ItemsAre(fields[1..], name);
      assert fields == [fields[0]] + fields[1..];
    }
  }

  function References(s: Schema): seq<string> {
    if s.Object? then Items(s.fields) else []
  }

  predicate Edge(schemas: Schemas, a: string, b: string) {
    a in schemas && b in schemas && b in References(schemas[a])
  }

  predicate Path(schemas: Schemas, p: seq<string>) {
    && (forall i :: 0 <= i < |p| ==> p[i] in schemas)
    && (forall i :: 0 <= i < |p| - 1 ==> Edge(schemas, p[i], p[i + 1]))
  }

  /** A closed walk of at least one reference; a self-reference is one. */
  predicate Cycle(schemas: Schemas, p: seq<string>) {
    |p| >= 2 && Path(schemas, p) && p[0] == p[|p| - 1]
  }

  /** A chain of references leads from a to b; every schema reaches itself. */
  predicate Leads(schemas: Schemas, p: seq<string>, a: string, b: string) {
    p != [] && Path(schemas, p) && p[0] == a && p[|p| - 1] == b
  }

  ghost predicate Reaches(schemas: Schemas, a: string, b: string) {
    exists p :: Leads(schemas, p, a, b)
  }

  datatype Emitted = Emitted(name: string, schema: Schema)

  /** By the time the i-th name's schema has come out, only schemas reached from a name up to the i-th have: schemas keep
      the order they are declared in, except where a reference brings one forward. */
  ghost predicate InTurn(schemas: Schemas, names: seq<string>, ordered: seq<Emitted>, i: nat)
    requires i < |names|
  {
    exists n :: 0 <= n <= |ordered| && EmittedBefore(ordered, n, names[i])
                && forall e :: 0 <= e < n ==> FromNames(schemas, names, i, ordered[e].name)
  }

  ghost predicate FromNames(schemas: Schemas, names: seq<string>, i: nat, name: string)
    requires i < |names|
  {
    exists h :: 0 <= h <= i && Reaches(schemas, names[h], name)
  }

  predicate EmittedBefore(ordered: seq<Emitted>, k: nat, name: string)
    requires k <= |ordered|
  {
    exists j :: 0 <= j < k && ordered[j].name == name
  }

  /** Every schema once, with its own definition, after every schema it references. */
  ghost predicate DependencyOrder(schemas: Schemas, ordered: seq<Emitted>) {
    && (forall k :: 0 <= k < |ordered| ==> ordered[k].name in schemas && ordered[k].schema == schemas[ordered[k].name])
    && (forall j, k :: 0 <= j < k < |ordered| ==> ordered[j].name != ordered[k].name)
    && (forall k, name :: 0 <= k < |ordered| && Edge(schemas, ordered[k].name, name) ==> EmittedBefore(ordered, k, name))
  }

  function Names(ordered: seq<Emitted>): set<string> {
    set k | 0 <= k < |ordered| :: ordered[k].name
  }

  class Sorter {
    const schemas: Schemas
    var ordered: seq<Emitted>
    var emitted: set<string>
    var visiting: set<string>

    constructor (schemas: Schemas)
      ensures this.schemas == schemas && ordered == [] && emitted == {} && visiting == {}
    {
      this.schemas := schemas;
      ordered, emitted, visiting := [], {}, {};
    }

    /** `stack` are the visits under way, outermost first. */
    ghost predicate Valid(stack: seq<string>)
      reads this
    {
      && DependencyOrder(schemas, ordered)
      && emitted == Names(ordered)
      && Path(schemas, stack)
      && visiting == Members(stack)
      && emitted !! visiting
    }

    /** Visits one name; on a cycle, the name the exception reports, and the cycle itself. */
    method Visit(name: string, ghost stack: seq<string>) returns (raised: Option<string>, ghost cycle: seq<string>)
      requires Valid(stack)
      requires stack != [] && name in schemas ==> Edge(schemas, stack[|stack| - 1], name)
      modifies this
      ensures raised.None? ==>
                && Valid(stack)
                && old(ordered) <= ordered
                && visiting == old(visiting)
                && (name in schemas ==> name in emitted)
                && (forall e :: |old(ordered)| <= e < |ordered| ==> Reaches(schemas, name, ordered[e].name))
      ensures raised.Some? ==> Cycle(schemas, cycle) && raised.value in cycle
      decreases schemas.Keys - visiting
    {
      cycle := [];
      hide DependencyOrder, Path, Cycle, Names, Members, Items;
      if name in emitted || name !in schemas {
        return None, [];
      }
      if name in visiting {
        cycle := ClosingCycle(schemas, stack, name);
        return Some(name), cycle;
      }
      visiting := visiting + {name};
      var schema := schemas[name];
      ghost var deeper := stack + [name];
      Deeper(schemas, stack, name);
      if schema.Object? {
        var k := 0;
        NoItems(schema.fields, emitted);
        while k < |schema.fields|
          invariant k <= |schema.fields|
          invariant Valid(deeper) && old(ordered) <= ordered && visiting == old(visiting) + {name}
          invariant AllEmitted(schemas, schema.fields[..k], emitted)
          invariant forall e :: |old(ordered)| <= e < |ordered| ==> Reaches(schemas, name, ordered[e].name)
        {
          var definition := schema.fields[k];
          ghost var before := ordered;
          if definition.Detailed? && definition.items.Some? {
            ItemOf(schema.fields, k);
            raised, cycle := Visit(definition.items.value, deeper);
            if raised.Some? {
              return;
            }
            forall e | |before| <= e < |ordered| ensures Reaches(schemas, name, ordered[e].name) {
              ReachesThrough(schemas, name, definition.items.value, ordered[e].name);
            }
          }
          NamesGrow(before, ordered);
          ItemsSnoc(schemas, schema.fields, k, Names(before), emitted);
          k := k + 1;
        }
        assert schema.fields[..|schema.fields|] == schema.fields;
      }
      AppendKeepsOrder(schemas, ordered, name);
      ReachesItself(schemas, name);
      visiting := visiting - {name};
      emitted := emitted + {name};
      ordered := ordered + [Emitted(name, schema)];
      assert visiting == old(visiting);
      return None, [];
    }

    method Order(names: seq<string>) returns (raised: Option<string>, ghost cycle: seq<string>)
      requires (forall name :: name in names <==> name in schemas)
      requires ordered == [] && emitted == {} && visiting == {}
      modifies this
      ensures raised.Some? ==> Cycle(schemas, cycle) && raised.value in cycle
      ensures raised.None? ==> DependencyOrder(schemas, ordered) && Names(ordered) == schemas.Keys
      ensures raised.None? ==> forall i :: 0 <= i < |names| ==> InTurn(schemas, names, ordered, i)
    {
      raised, cycle := None, [];
      hide Cycle;
      assert Valid([]);
      for k := 0 to |names|
        invariant Valid([]) && visiting == {}
        invariant forall name :: name in names[..k] ==> name in emitted
        invariant forall i :: 0 <= i < k ==> InTurn(schemas, names, ordered, i)
        invariant k > 0 ==> forall e :: 0 <= e < |ordered| ==> FromNames(schemas, names, k - 1, ordered[e].name)
        invariant k == 0 ==> ordered == []
      {
        ghost var orderedBefore := ordered;
        raised, cycle := Visit(names[k], []);
        if raised.Some? {
          return;
        }
        NamesGrow(orderedBefore, ordered);
        assert names[..k + 1] == names[..k] + [names[k]];
        TurnTaken(schemas, names, k, orderedBefore, ordered);
      }
      assert names[..|names|] == names;
      raised := None;
    }
  }

  lemma ReachesItself(schemas: Schemas, name: string)
    requires name in schemas
    ensures Reaches(schemas, name, name)
  {
    assert Leads(schemas, [name], name, name);
  }

  lemma ReachesThrough(schemas: Schemas, a: string, b: string, c: string)
    requires Reaches(schemas, b, c) && (b in schemas ==> Edge(schemas, a, b))
    ensures Reaches(schemas, a, c)
  {
    var p :| Leads(schemas, p, b, c);
    hide Edge;
    var q := [a] + p;
    assert forall i :: 1 <= i < |q| ==> q[i] == p[i - 1];
    assert b in schemas by { assert p[0] in schemas; }
    assert a in schemas by { EdgeFrom(schemas, a, b); }
    assert Leads(schemas, q, a, c);
  }

  lemma EdgeFrom(schemas: Schemas, a: string, b: string)
    requires Edge(schemas, a, b)
    ensures a in schemas
  {}

  /** Visiting the k-th name keeps the turns of the names before and adds its own. */
  lemma TurnTaken(schemas: Schemas, names: seq<string>, k: nat, before: seq<Emitted>, after: seq<Emitted>)
    requires k < |names| && before <= after && names[k] in Names(after)
    requires forall i :: 0 <= i < k ==> InTurn(schemas, names, before, i)
    requires if k > 0 then forall e :: 0 <= e < |before| ==> FromNames(schemas, names, k - 1, before[e].name)
             else before == []
    requires forall e :: |before| <= e < |after| ==> Reaches(schemas, names[k], after[e].name)
    ensures forall i :: 0 <= i < k ==> InTurn(schemas, names, after, i)
    ensures forall e :: 0 <= e < |after| ==> FromNames(schemas, names, k, after[e].name)
    ensures InTurn(schemas, names, after, k)
  {
    hide Reaches;
    forall e | 0 <= e < |after| ensures FromNames(schemas, names, k, after[e].name) {
      if e < |before| {
        assert after[e] == before[e] && FromNames(schemas, names, k - 1, before[e].name);
      }
    }
    forall i | 0 <= i < k ensures InTurn(schemas, names, after, i) { TurnKept(schemas, names, i, before, after); }
    var j :| 0 <= j < |after| && after[j].name == names[k];
    assert EmittedBefore(after, |after|, names[k]);
  }

  lemma TurnKept(schemas: Schemas, names: seq<string>, i: nat, before: seq<Emitted>, after: seq<Emitted>)
    requires i < |names| && before <= after && InTurn(schemas, names, before, i)
    ensures InTurn(schemas, names, after, i)
  {
    hide FromNames;
    var n :| 0 <= n <= |before| && EmittedBefore(before, n, names[i])
             && forall e :: 0 <= e < n ==> FromNames(schemas, names, i, before[e].name);
    var j :| 0 <= j < n && before[j].name == names[i];
    assert after[j] == before[j] && EmittedBefore(after, n, names[i]);
    assert forall e :: 0 <= e < n ==> after[e] == before[e];
  }

  function Members(p: seq<string>): set<string> {
    set i | 0 <= i < |p| :: p[i]
  }

  /** Every schema these fields reference has been emitted. */
  predicate AllEmitted(schemas: Schemas, fields: seq<Definition>, emitted: set<string>) {
    forall item :: item in Items(fields) && item in schemas ==> item in emitted
  }

  lemma NoItems(fields: seq<Definition>, emitted: set<string>)
    ensures Items(fields[..0]) == []
  {}

  lemma {:induction false} ItemsOfSnoc(fields: seq<Definition>, k: nat)
    requires k < |fields|
    ensures Items(fields[..k + 1])
         == Items(fields[..k])
            + (if fields[k].Detailed? && fields[k].items.Some? then [fields[k].items.value] else [])
    decreases k
  {
    if k == 0 {
      assert fields[..1][1..] == [];
    } else {
      ItemsOfSnoc(fields[1..], k - 1);
      assert fields[..k + 1][1..] == fields[1..][..k];
      assert fields[..k][1..] == fields[1..][..k - 1];
    }
  }

  lemma ItemsSnoc(schemas: Schemas, fields: seq<Definition>, k: nat, before: set<string>, emitted: set<string>)
    requires k < |fields| && AllEmitted(schemas, fields[..k], before) && before <= emitted
    requires fields[k].Detailed? && fields[k].items.Some? && fields[k].items.value in schemas
             ==> fields[k].items.value in emitted
    ensures AllEmitted(schemas, fields[..k + 1], emitted)
  {
    ItemsOfSnoc(fields, k);
    hide Items;
  }

  lemma Deeper(schemas: Schemas, stack: seq<string>, name: string)
    requires Path(schemas, stack) && name in schemas
    requires stack != [] ==> Edge(schemas, stack[|stack| - 1], name)
    ensures Path(schemas, stack + [name]) && Members(stack + [name]) == Members(stack) + {name}
  {
    var deeper := stack + [name];
    hide Edge;
    assert forall k :: 0 <= k < |stack| ==> deeper[k] == stack[k];
    assert deeper[|stack|] == name;
  }

  lemma ClosingCycle(schemas: Schemas, stack: seq<string>, name: string) returns (cycle: seq<string>)
    requires Path(schemas, stack) && name in Members(stack)
    requires stack != [] ==> Edge(schemas, stack[|stack| - 1], name)
    ensures Cycle(schemas, cycle) && name in cycle
  {
    hide Edge;
    var i :| 0 <= i < |stack| && stack[i] == name;
    cycle := stack[i..] + [name];
    assert forall k :: 0 <= k < |stack| - i ==> cycle[k] == stack[i + k];
  }

  lemma {:induction false} ItemOf(fields: seq<Definition>, k: nat)
    requires k < |fields| && fields[k].Detailed? && fields[k].items.Some?
    ensures fields[k].items.value in Items(fields)
    decreases k
  {
    if k > 0 {
      ItemOf(fields[1..], k - 1);
    }
  }

  lemma {:induction false} NamesGrow(a: seq<Emitted>, b: seq<Emitted>)
    requires a <= b
    ensures Names(a) <= Names(b)
  {
    forall n | n in Names(a) ensures n in Names(b) {
      var k :| 0 <= k < |a| && a[k].name == n;
      assert b[k] == a[k];
    }
  }

  lemma {:induction false} AppendKeepsOrder(schemas: Schemas, ordered: seq<Emitted>, name: string)
    requires DependencyOrder(schemas, ordered) && name in schemas && name !in Names(ordered)
    requires forall item :: Edge(schemas, name, item) ==> item in Names(ordered)
    ensures DependencyOrder(schemas, ordered + [Emitted(name, schemas[name])])
    ensures Names(ordered + [Emitted(name, schemas[name])]) == Names(ordered) + {name}
  {
    var more := ordered + [Emitted(name, schemas[name])];
    forall k, item | 0 <= k < |more| && Edge(schemas, more[k].name, item) ensures EmittedBefore(more, k, item) {
      if k < |ordered| {
        assert EmittedBefore(ordered, k, item);
        var j :| 0 <= j < k && ordered[j].name == item;
        assert more[j].name == item;
      } else {
        var j :| 0 <= j < |ordered| && ordered[j].name == item;
        assert more[j].name == item;
      }
    }
    forall n | n in Names(ordered) + {name} ensures n in Names(more) {
      if n == name {
        assert more[|ordered|].name == n;
      } else {
        var j :| 0 <= j < |ordered| && ordered[j].name == n;
        assert more[j].name == n;
      }
    }
  }

  // An order exists only without cycles.

  ghost function PositionOf(ordered: seq<Emitted>, name: string): (k: nat)
    requires name in Names(ordered)
    ensures k < |ordered| && ordered[k].name == name
  {
    var k :| 0 <= k < |ordered| && ordered[k].name == name;
    k
  }

  /** References point strictly backwards, so a walk cannot come back. */
  lemma {:induction false} WalkDescends(schemas: Schemas, ordered: seq<Emitted>, p: seq<string>, n: nat)
    requires DependencyOrder(schemas, ordered) && Names(ordered) == schemas.Keys
    requires Path(schemas, p) && n < |p|
    ensures p[n] in Names(ordered) && p[0] in Names(ordered)
    ensures PositionOf(ordered, p[n]) + n <= PositionOf(ordered, p[0])
  {
    if n > 0 {
      WalkDescends(schemas, ordered, p, n - 1);
      var k := PositionOf(ordered, p[n - 1]);
      assert Edge(schemas, p[n - 1], p[n]);
      assert EmittedBefore(ordered, k, p[n]);
      var j :| 0 <= j < k && ordered[j].name == p[n];
      assert PositionOf(ordered, p[n]) == j;
    }
  }

  lemma {:induction false} OrderedMeansAcyclic(schemas: Schemas, ordered: seq<Emitted>, p: seq<string>)
    requires DependencyOrder(schemas, ordered) && Names(ordered) == schemas.Keys
    ensures !Cycle(schemas, p)
  {
    if Cycle(schemas, p) {
      WalkDescends(schemas, ordered, p, |p| - 1);
    }
  }

  /** `_schemas_in_dependency_order`: terminates; raises exactly when the references form a cycle, and then names a
      schema on one; otherwise returns every schema exactly once, each after those it references. */
  method SchemasInDependencyOrder(schemas: Schemas, names: seq<string>)
    returns (raised: Option<string>, ordered: seq<Emitted>)
    requires forall name :: name in names <==> name in schemas
    ensures raised.Some? <==> exists p :: Cycle(schemas, p)
    ensures raised.Some? ==> exists p :: Cycle(schemas, p) && raised.value in p
    ensures raised.None? ==> DependencyOrder(schemas, ordered) && Names(ordered) == schemas.Keys
    ensures raised.None? ==> forall i :: 0 <= i < |names| ==> InTurn(schemas, names, ordered, i)
  {
    hide InTurn;
    var sorter := new Sorter(schemas);
    ghost var cycle;
    raised, cycle := sorter.Order(names);
    ordered := sorter.ordered;
    if raised.None? {
      forall p ensures !Cycle(schemas, p) {
        OrderedMeansAcyclic(schemas, ordered, p);
      }
    }
  }
}
