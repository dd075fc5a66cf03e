/** The generated wire converters: JSON values into typed records and back. */
module WireConverter {
  datatype Result<T> = Ok(value: T) | Error

  datatype Primitive = BoolType | IntType | FloatType | StrType

  /** The annotations the generator writes. */
  datatype Annotation =
    | AnyType
    | Plain(primitive: Primitive)
    | ListType(item: Annotation)
    | OptionalType(inner: Annotation)
    | ClassType(name: string)

  datatype Field = Field(wireName: string, declared: Annotation, required: bool)

  /** The record classes, each with its fields; a field that is not required is Optional with default None. */
  type Classes = map<string, seq<Field>>

  function FieldType(f: Field): Annotation {
    if f.required then f.declared else OptionalType(f.declared)
  }

  datatype Entry = Entry(key: string, value: Value)

  /** Dictionaries keep insertion order; records hold their field values in declaration order. */
  datatype Value =
    | Null
    | Bool(b: bool)
    | Int(n: int)
    | Float(x: real)
    | Str(s: string)
    | List(items: seq<Value>)
    | Dict(entries: seq<Entry>)
    | Record(name: string, values: seq<Value>)

  /** Python's int(), float() and str() on arbitrary values. */
  datatype Casts = Casts(toInt: Value -> Result<int>, toFloat: Value -> Result<real>, toStr: Value -> string)

  ghost predicate Lawful(k: Casts) {
    && (forall n :: k.toInt(Int(n)) == Ok(n))
    && (forall x :: k.toFloat(Float(x)) == Ok(x))
    && (forall s :: k.toStr(Str(s)) == s)
  }

  predicate Truthy(v: Value) {
    match v
    case Null => false
    case Bool(b) => b
    case Int(n) => n != 0
    case Float(x) => x != 0.0
    case Str(s) => s != ""
    case List(items) => items != []
    case Dict(entries) => entries != []
    case Record(_, _) => true
  }

  function Size(v: Value): (n: nat)
    ensures n > 0
    decreases v
  {
    match v
    case List(items) => 1 + SizeAll(items)
    case Dict(entries) => 1 + SizeEntries(entries)
    case Record(_, values) => 1 + SizeAll(values)
    case _ => 1
  }

  function SizeAll(items: seq<Value>): (n: nat)
    ensures forall i :: 0 <= i < |items| ==> Size(items[i]) <= n
    decreases items
  {
    if items == [] then 0
    else
      assert forall i :: 1 <= i < |items| ==> items[i] == items[1..][i - 1];
      Size(items[0]) + SizeAll(items[1..])
  }

  function SizeEntries(entries: seq<Entry>): (n: nat)
    ensures forall i :: 0 <= i < |entries| ==> Size(entries[i].value) <= n
    decreases entries
  {
    if entries == [] then 0
    else
      assert forall i :: 1 <= i < |entries| ==> entries[i] == entries[1..][i - 1];
      Size(entries[0].value) + SizeEntries(entries[1..])
  }

  function Depth(t: Annotation): (n: nat)
    ensures n > 0
  {
    match t
    case ListType(item) => 1 + Depth(item)
    case OptionalType(inner) => 1 + Depth(inner)
    case _ => 1
  }

  function Characters(s: string): (items: seq<Value>)
    ensures forall i :: 0 <= i < |items| ==> items[i].Str?
  {
    if s == "" then [] else [Str(s[..1])] + Characters(s[1..])
  }

  function Keys(entries: seq<Entry>): (items: seq<Value>)
    ensures forall i :: 0 <= i < |items| ==> items[i].Str?
  {
    if entries == [] then [] else [Str(entries[0].key)] + Keys(entries[1..])
  }

  /** What `for item in (value or [])` goes through. */
  function Iterate(v: Value): (r: Result<seq<Value>>)
    ensures r.Ok? ==> forall i :: 0 <= i < |r.value| ==> Size(r.value[i]) <= Size(v)
  {
    if !Truthy(v) then Ok([])
    else
      match v
      case List(items) => Ok(items)
      case Str(s) => Ok(Characters(s))
      case Dict(entries) => Ok(Keys(entries))
      case _ => Error
  }

  /** `value or {}`, when it is a mapping. */
  function Mapping(v: Value): (r: Result<seq<Entry>>)
    ensures r.Ok? ==> forall i :: 0 <= i < |r.value| ==> Size(r.value[i].value) < Size(v)
  {
    if !Truthy(v) then Ok([])
    else if v.Dict? then Ok(v.entries)
    else Error
  }

  function Lookup(entries: seq<Entry>, key: string): (r: Result<Value>)
    ensures r.Ok? <==> exists i :: 0 <= i < |entries| && entries[i].key == key
    ensures r.Ok? ==> exists i :: 0 <= i < |entries| && entries[i] == Entry(key, r.value)
  {
    if entries == [] then Error
    else if entries[0].key == key then Ok(entries[0].value)
    else
      assert forall i :: 1 <= i < |entries| ==> entries[i] == entries[1..][i - 1];
      assert forall i :: 0 <= i < |entries| - 1 ==> entries[1..][i] == entries[i + 1];
      Lookup(entries[1..], key)
  }

  function ConvertPrimitive(v: Value, p: Primitive, k: Casts): Result<Value> {
    if v.Null? then Ok(Null)
    else
      match p
      case BoolType => Ok(Bool(Truthy(v)))
      case IntType => (match k.toInt(v) case Ok(n) => Ok(Int(n)) case Error => Error)
      case FloatType => (match k.toFloat(v) case Ok(x) => Ok(Float(x)) case Error => Error)
      case StrType => Ok(Str(k.toStr(v)))
  }

  function Convert(v: Value, t: Annotation, classes: Classes, k: Casts): Result<Value>
    decreases Size(v), Depth(t), 0
  {
    match t
    case AnyType => Ok(v)
    case Plain(p) => ConvertPrimitive(v, p, k)
    case OptionalType(inner) => if v.Null? then Ok(Null) else Convert(v, inner, classes, k)
    case ListType(item) =>
      (match Iterate(v)
       case Error => Error
       case Ok(items) =>
         match ConvertItems(items, item, classes, k, Size(v))
         case Error => Error
         case Ok(converted) => Ok(List(converted)))
    case ClassType(name) =>
      if name !in classes then Error
      else
        match Mapping(v)
        case Error => Error
        case Ok(raw) =>
          match ConvertFields(raw, classes[name], classes, k, Size(v))
          case Error => Error
          case Ok(values) => Ok(Record(name, values))
  }

  function ConvertItems(items: seq<Value>, t: Annotation, classes: Classes, k: Casts, ghost bound: nat)
    : (r: Result<seq<Value>>)
    requires forall i :: 0 <= i < |items| ==> Size(items[i]) <= bound
    ensures r.Ok? ==> |r.value| == |items|
    decreases bound, Depth(t), |items|
  {
    if items == [] then Ok([])
    else
      assert forall i :: 0 <= i < |items[1..]| ==> items[1..][i] == items[i + 1];
      match (Convert(items[0], t, classes, k), ConvertItems(items[1..], t, classes, k, bound))
      case (Ok(first), Ok(others)) => Ok([first] + others)
      case _ => Error
  }

  /** The keyword arguments and the constructor call: a missing field takes its default, or is an error. */
  function ConvertFields(raw: seq<Entry>, fields: seq<Field>, classes: Classes, k: Casts, ghost bound: nat)
    : (r: Result<seq<Value>>)
    requires forall i :: 0 <= i < |raw| ==> Size(raw[i].value) < bound
    ensures r.Ok? ==> |r.value| == |fields|
    decreases bound, 0, |fields|
  {
    if fields == [] then Ok([])
    else
      var first := match Lookup(raw, fields[0].wireName)
        case Ok(v) => Convert(v, FieldType(fields[0]), classes, k)
        case Error => if fields[0].required then Error else Ok(Null);
      match (first, ConvertFields(raw, fields[1..], classes, k, bound))
      case (Ok(v), Ok(others)) => Ok([v] + others)
      case _ => Error
  }

  function ToWire(v: Value, classes: Classes): (w: Value)
    decreases v
  {
    match v
    case Record(name, values) =>
      Dict(if name in classes && |values| == |classes[name]| then WireFields(values, classes[name], classes) else [])
    case List(items) => List(WireItems(items, classes))
    case Dict(entries) => Dict(WireEntries(entries, classes))
    case _ => v
  }

  function WireItems(items: seq<Value>, classes: Classes): (w: seq<Value>)
    ensures |w| == |items|
    decreases items
  {
    if items == [] then [] else [ToWire(items[0], classes)] + WireItems(items[1..], classes)
  }

  /** Entries that are null are left out. */
  function WireEntries(entries: seq<Entry>, classes: Classes): seq<Entry>
    decreases entries
  {
    if entries == [] then []
    else
      var later := WireEntries(entries[1..], classes);
      if entries[0].value.Null? then later
      else [Entry(entries[0].key, ToWire(entries[0].value, classes))] + later
  }

  /** Fields that are null are left out. */
  function WireFields(values: seq<Value>, fields: seq<Field>, classes: Classes): seq<Entry>
    requires |values| == |fields|
    decreases values
  {
    if values == [] then []
    else
      var later := WireFields(values[1..], fields[1..], classes);
      if values[0].Null? then later
      else [Entry(fields[0].wireName, ToWire(values[0], classes))] + later
  }

  // Well-typed values.

  predicate DistinctNames(fields: seq<Field>) {
    forall i, j :: 0 <= i < j < |fields| ==> fields[i].wireName != fields[j].wireName
  }

  /** Field names are the keys of a schema, so they differ; every class named is there. */
  predicate Sound(classes: Classes) {
    forall name :: name in classes ==> DistinctNames(classes[name])
  }

  /** A JSON value without null dictionary entries. */
  predicate Clean(v: Value)
    decreases v
  {
    match v
    case Record(_, _) => false
    case List(items) => CleanItems(items)
    case Dict(entries) => CleanEntries(entries)
    case _ => true
  }

  predicate CleanItems(items: seq<Value>)
    decreases items
  {
    items == [] || (Clean(items[0]) && CleanItems(items[1..]))
  }

  predicate CleanEntries(entries: seq<Entry>)
    decreases entries
  {
    entries == [] || (!entries[0].value.Null? && Clean(entries[0].value) && CleanEntries(entries[1..]))
  }

  predicate WellTyped(v: Value, t: Annotation, classes: Classes)
    decreases v, t
  {
    match t
    case AnyType => Clean(v)
    case Plain(p) =>
      (match p
       case BoolType => v.Bool?
       case IntType => v.Int?
       case FloatType => v.Float?
       case StrType => v.Str?)
    case OptionalType(inner) => v.Null? || WellTyped(v, inner, classes)
    case ListType(item) => v.List? && WellTypedItems(v.items, item, classes)
    case ClassType(name) =>
      && v.Record? && v.name == name && name in classes && |v.values| == |classes[name]|
      && WellTypedFields(v.values, classes[name], classes)
  }

  predicate WellTypedItems(items: seq<Value>, t: Annotation, classes: Classes)
    decreases items, t
  {
    items == [] || (WellTyped(items[0], t, classes) && WellTypedItems(items[1..], t, classes))
  }

  /** Required fields hold a value. */
  predicate WellTypedFields(values: seq<Value>, fields: seq<Field>, classes: Classes)
    requires |values| == |fields|
    decreases values
  {
    values == [] ||
    (&& (fields[0].required ==> !values[0].Null?)
     && WellTyped(values[0], FieldType(fields[0]), classes)
     && WellTypedFields(values[1..], fields[1..], classes))
  }

  // Round trip: typed values survive the wire.

  lemma {:induction false} WireOfClean(v: Value, classes: Classes)
    requires Clean(v)
    ensures ToWire(v, classes) == v
    decreases v
  {
    match v
    case List(items) => WireOfCleanItems(items, classes);
    case Dict(entries) => WireOfCleanEntries(entries, classes);
    case _ =>
  }

  lemma {:induction false} WireOfCleanItems(items: seq<Value>, classes: Classes)
    requires CleanItems(items)
    ensures WireItems(items, classes) == items
    decreases items
  {
    if items != [] {
      WireOfClean(items[0], classes);
      WireOfCleanItems(items[1..], classes);
    }
  }

  lemma {:induction false} WireOfCleanEntries(entries: seq<Entry>, classes: Classes)
    requires CleanEntries(entries)
    ensures WireEntries(entries, classes) == entries
    decreases entries
  {
    if entries != [] {
      WireOfClean(entries[0].value, classes);
      WireOfCleanEntries(entries[1..], classes);
    }
  }

  lemma {:induction false} WireKeepsNull(v: Value, classes: Classes)
    ensures ToWire(v, classes).Null? <==> v.Null?
  {}

  /** A wire entry comes from a field of that name. */
  lemma {:induction false} WireFieldsLookup(values: seq<Value>, fields: seq<Field>, classes: Classes, j: nat)
    requires |values| == |fields| && DistinctNames(fields) && j < |fields|
    ensures Lookup(WireFields(values, fields, classes), fields[j].wireName)
         == if values[j].Null? then Error else Ok(ToWire(values[j], classes))
    decreases values
  {
    var later := WireFields(values[1..], fields[1..], classes);
    assert DistinctNames(fields[1..]) by {
      assert forall i :: 0 <= i < |fields[1..]| ==> fields[1..][i] == fields[i + 1];
    }
    if j > 0 {
      WireFieldsLookup(values[1..], fields[1..], classes, j - 1);
      assert WireFields(values, fields, classes) == later
          || WireFields(values, fields, classes)[1..] == later;
    } else if values[0].Null? {
      NoEntry(values[1..], fields[1..], classes, fields[0].wireName);
    }
  }

  lemma {:induction false} NoEntry(values: seq<Value>, fields: seq<Field>, classes: Classes, key: string)
    requires |values| == |fields| && forall i :: 0 <= i < |fields| ==> fields[i].wireName != key
    ensures Lookup(WireFields(values, fields, classes), key) == Error
    decreases values
  {
    if values != [] {
      var later := WireFields(values[1..], fields[1..], classes);
      assert forall i :: 0 <= i < |fields[1..]| ==> fields[1..][i] == fields[i + 1];
      NoEntry(values[1..], fields[1..], classes, key);
      assert WireFields(values, fields, classes) == later
          || WireFields(values, fields, classes)[1..] == later;
    }
  }

  /** `convert_value(to_wire_value(v), T) == v` for every well-typed value of any classes. */
  lemma {:induction false} RoundTrip(v: Value, t: Annotation, classes: Classes, k: Casts)
    requires Lawful(k) && Sound(classes) && WellTyped(v, t, classes)
    ensures Convert(ToWire(v, classes), t, classes, k) == Ok(v)
    decreases v, Depth(t), 0
  {
    match t
    case AnyType => WireOfClean(v, classes);
    case Plain(p) =>
    case OptionalType(inner) =>
      WireKeepsNull(v, classes);
      if !v.Null? {
        RoundTrip(v, inner, classes, k);
      }
    case ListType(item) =>
      RoundTripItems(v.items, item, classes, k, Size(ToWire(v, classes)));
    case ClassType(name) =>
      var w := ToWire(v, classes);
      RoundTripFields(w.entries, v.values, classes[name], v.values, classes[name], classes, k, Size(w), 0);
  }

  lemma {:induction false} ConvertCons(items: seq<Value>, t: Annotation, classes: Classes, k: Casts, bound: nat, first: Value,
                                       others: seq<Value>)
    requires items != [] && forall i :: 0 <= i < |items| ==> Size(items[i]) <= bound
    requires forall i :: 0 <= i < |items[1..]| ==> Size(items[1..][i]) <= bound
    requires Convert(items[0], t, classes, k) == Ok(first) && ConvertItems(items[1..], t, classes, k, bound) == Ok(others)
    ensures ConvertItems(items, t, classes, k, bound) == Ok([first] + others)
  {
    hide Convert, Size;
  }

  lemma {:induction false} WireCons(items: seq<Value>, classes: Classes)
    requires items != []
    ensures var wire := WireItems(items, classes);
            && wire[0] == ToWire(items[0], classes) && wire[1..] == WireItems(items[1..], classes)
            && forall i :: 0 <= i < |items[1..]| ==> wire[1..][i] == wire[i + 1]
  {
    hide ToWire;
  }

  lemma {:induction false} RoundTripItems(items: seq<Value>, t: Annotation, classes: Classes, k: Casts, bound: nat)
    requires Lawful(k) && Sound(classes) && WellTypedItems(items, t, classes)
    requires forall i :: 0 <= i < |items| ==> Size(WireItems(items, classes)[i]) <= bound
    ensures ConvertItems(WireItems(items, classes), t, classes, k, bound) == Ok(items)
    decreases items, Depth(t), |items|
  {
    if items != [] {
      hide WellTyped, Lawful, Sound, Convert, ToWire, WireItems, Size;
      WireCons(items, classes);
      RoundTrip(items[0], t, classes, k);
      RoundTripItems(items[1..], t, classes, k, bound);
      ConvertCons(WireItems(items, classes), t, classes, k, bound, items[0], items[1..]);
      assert items == [items[0]] + items[1..];
    }
  }

  lemma {:induction false} RoundTripFields(raw: seq<Entry>, allValues: seq<Value>, allFields: seq<Field>,
                                           values: seq<Value>, fields: seq<Field>, classes: Classes, k: Casts,
                                           bound: nat, from: nat)
    requires Lawful(k) && Sound(classes) && |values| == |fields| && WellTypedFields(values, fields, classes)
    requires |allValues| == |allFields| && DistinctNames(allFields) && raw == WireFields(allValues, allFields, classes)
    requires from <= |allValues| && values == allValues[from..] && fields == allFields[from..]
    requires forall i :: 0 <= i < |raw| ==> Size(raw[i].value) < bound
    ensures ConvertFields(raw, fields, classes, k, bound) == Ok(values)
    decreases values, 0, |fields|
  {
    if values != [] {
      WireFieldsLookup(allValues, allFields, classes, from);
      if !values[0].Null? {
        RoundTrip(values[0], FieldType(fields[0]), classes, k);
      }
      RoundTripFields(raw, allValues, allFields, values[1..], fields[1..], classes, k, bound, from + 1);
      assert values == [values[0]] + values[1..];
    }
  }

  // Converting and re-emitting what was received.

  lemma {:induction false} WireIsClean(v: Value, classes: Classes)
    ensures Clean(ToWire(v, classes))
    decreases v
  {
    match v
    case Record(name, values) =>
      if name in classes && |values| == |classes[name]| {
        WireFieldsClean(values, classes[name], classes);
      }
    case List(items) => WireItemsClean(items, classes);
    case Dict(entries) => WireEntriesClean(entries, classes);
    case _ =>
  }

  lemma {:induction false} WireItemsClean(items: seq<Value>, classes: Classes)
    ensures CleanItems(WireItems(items, classes))
    decreases items
  {
    if items != [] {
      WireIsClean(items[0], classes);
      WireItemsClean(items[1..], classes);
    }
  }

  lemma {:induction false} CleanCons(e: Entry, later: seq<Entry>)
    requires !e.value.Null? && Clean(e.value) && CleanEntries(later)
    ensures CleanEntries([e] + later)
  {
    assert ([e] + later)[1..] == later;
  }

  lemma {:induction false} WireEntriesClean(entries: seq<Entry>, classes: Classes)
    ensures CleanEntries(WireEntries(entries, classes))
    decreases entries
  {
    if entries != [] {
      WireEntriesClean(entries[1..], classes);
      WireIsClean(entries[0].value, classes);
      WireKeepsNull(entries[0].value, classes);
      if !entries[0].value.Null? {
        CleanCons(Entry(entries[0].key, ToWire(entries[0].value, classes)), WireEntries(entries[1..], classes));
      }
    }
  }

  lemma {:induction false} WireFieldsClean(values: seq<Value>, fields: seq<Field>, classes: Classes)
    requires |values| == |fields|
    ensures CleanEntries(WireFields(values, fields, classes))
    decreases values
  {
    if values != [] {
      WireFieldsClean(values[1..], fields[1..], classes);
      WireIsClean(values[0], classes);
      WireKeepsNull(values[0], classes);
      if !values[0].Null? {
        CleanCons(Entry(fields[0].wireName, ToWire(values[0], classes)), WireFields(values[1..], fields[1..], classes));
      }
    }
  }

  /** Types whose conversion passes a null through. */
  predicate KeepsNull(t: Annotation) {
    t.AnyType? || t.Plain? || t.OptionalType?
  }

  lemma {:induction false} NullComesFromNull(w: Value, t: Annotation, classes: Classes, k: Casts)
    requires Convert(w, t, classes, k).Ok?
    ensures Convert(w, t, classes, k).value.Null? <==> w.Null? && KeepsNull(t)
    decreases Depth(t)
  {
    if t.OptionalType? && !w.Null? {
      NullComesFromNull(w, t.inner, classes, k);
    }
  }

  /** The check a caller can make on the wire value: no required field that would stay null is sent as null. */
  predicate RequiredPresent(w: Value, t: Annotation, classes: Classes)
    decreases Size(w), Depth(t), 0
  {
    match t
    case AnyType => true
    case Plain(_) => true
    case OptionalType(inner) => w.Null? || RequiredPresent(w, inner, classes)
    case ListType(item) => Iterate(w).Ok? ==> RequiredPresentItems(Iterate(w).value, item, classes, Size(w))
    case ClassType(name) =>
      name in classes && Mapping(w).Ok? ==> RequiredPresentFields(Mapping(w).value, classes[name], classes, Size(w))
  }

  predicate RequiredPresentItems(items: seq<Value>, t: Annotation, classes: Classes, ghost bound: nat)
    requires forall i :: 0 <= i < |items| ==> Size(items[i]) <= bound
    decreases bound, Depth(t), |items|
  {
    items == [] ||
    (assert forall i :: 0 <= i < |items[1..]| ==> items[1..][i] == items[i + 1];
     RequiredPresent(items[0], t, classes) && RequiredPresentItems(items[1..], t, classes, bound))
  }

  predicate RequiredPresentFields(raw: seq<Entry>, fields: seq<Field>, classes: Classes, ghost bound: nat)
    requires forall i :: 0 <= i < |raw| ==> Size(raw[i].value) < bound
    decreases bound, 0, |fields|
  {
    fields == [] ||
    (&& (match Lookup(raw, fields[0].wireName)
         case Error => true
         case Ok(v) =>
           && !(fields[0].required && v.Null? && KeepsNull(fields[0].declared))
           && RequiredPresent(v, FieldType(fields[0]), classes))
     && RequiredPresentFields(raw, fields[1..], classes, bound))
  }

  /** What conversion produces: right constructors everywhere, nulls possibly left in required fields. */
  predicate Shaped(v: Value, t: Annotation, classes: Classes)
    decreases v, t
  {
    match t
    case AnyType => true
    case Plain(p) =>
      v.Null? ||
      (match p
       case BoolType => v.Bool?
       case IntType => v.Int?
       case FloatType => v.Float?
       case StrType => v.Str?)
    case OptionalType(inner) => v.Null? || Shaped(v, inner, classes)
    case ListType(item) => v.List? && ShapedItems(v.items, item, classes)
    case ClassType(name) =>
      && v.Record? && v.name == name && name in classes && |v.values| == |classes[name]|
      && ShapedFields(v.values, classes[name], classes)
  }

  predicate ShapedItems(items: seq<Value>, t: Annotation, classes: Classes)
    decreases items, t
  {
    items == [] || (Shaped(items[0], t, classes) && ShapedItems(items[1..], t, classes))
  }

  predicate ShapedFields(values: seq<Value>, fields: seq<Field>, classes: Classes)
    requires |values| == |fields|
    decreases values
  {
    values == [] || (Shaped(values[0], FieldType(fields[0]), classes) && ShapedFields(values[1..], fields[1..], classes))
  }

  /** No required field of the value is null. */
  predicate Filled(v: Value, t: Annotation, classes: Classes)
    decreases v, t
  {
    match t
    case AnyType => true
    case Plain(_) => true
    case OptionalType(inner) => v.Null? || Filled(v, inner, classes)
    case ListType(item) => v.List? ==> FilledItems(v.items, item, classes)
    case ClassType(name) =>
      v.Record? && name in classes && |v.values| == |classes[name]| ==> FilledFields(v.values, classes[name], classes)
  }

  predicate FilledItems(items: seq<Value>, t: Annotation, classes: Classes)
    decreases items, t
  {
    items == [] || (Filled(items[0], t, classes) && FilledItems(items[1..], t, classes))
  }

  predicate FilledFields(values: seq<Value>, fields: seq<Field>, classes: Classes)
    requires |values| == |fields|
    decreases values
  {
    values == [] ||
    (&& (fields[0].required ==> !values[0].Null?)
     && Filled(values[0], FieldType(fields[0]), classes)
     && FilledFields(values[1..], fields[1..], classes))
  }

  lemma {:induction false} ConvertedIsShaped(w: Value, t: Annotation, classes: Classes, k: Casts)
    requires Convert(w, t, classes, k).Ok?
    ensures Shaped(Convert(w, t, classes, k).value, t, classes)
    ensures Filled(Convert(w, t, classes, k).value, t, classes) <==> RequiredPresent(w, t, classes)
    decreases Size(w), Depth(t), 0
  {
    match t
    case AnyType =>
    case Plain(_) =>
    case OptionalType(inner) =>
      if !w.Null? {
        ConvertedIsShaped(w, inner, classes, k);
        NullComesFromNull(w, inner, classes, k);
      }
    case ListType(item) => ItemsAreShaped(Iterate(w).value, item, classes, k, Size(w));
    case ClassType(name) => FieldsAreShaped(Mapping(w).value, classes[name], classes, k, Size(w));
  }

  lemma {:induction false} ItemsAreShaped(items: seq<Value>, t: Annotation, classes: Classes, k: Casts, bound: nat)
    requires forall i :: 0 <= i < |items| ==> Size(items[i]) <= bound
    requires ConvertItems(items, t, classes, k, bound).Ok?
    ensures var vs := ConvertItems(items, t, classes, k, bound).value;
            && ShapedItems(vs, t, classes)
            && (FilledItems(vs, t, classes) <==> RequiredPresentItems(items, t, classes, bound))
    decreases bound, Depth(t), |items|
  {
    if items != [] {
      assert forall i :: 0 <= i < |items[1..]| ==> items[1..][i] == items[i + 1];
      ConvertedIsShaped(items[0], t, classes, k);
      ItemsAreShaped(items[1..], t, classes, k, bound);
      var vs := ConvertItems(items, t, classes, k, bound).value;
      assert vs[1..] == ConvertItems(items[1..], t, classes, k, bound).value;
    }
  }

  lemma {:induction false} FieldsAreShaped(raw: seq<Entry>, fields: seq<Field>, classes: Classes, k: Casts, bound: nat)
    requires forall i :: 0 <= i < |raw| ==> Size(raw[i].value) < bound
    requires ConvertFields(raw, fields, classes, k, bound).Ok?
    ensures var vs := ConvertFields(raw, fields, classes, k, bound).value;
            && ShapedFields(vs, fields, classes)
            && (FilledFields(vs, fields, classes) <==> RequiredPresentFields(raw, fields, classes, bound))
    decreases bound, 0, |fields|
  {
    if fields != [] {
      FieldsAreShaped(raw, fields[1..], classes, k, bound);
      var vs := ConvertFields(raw, fields, classes, k, bound).value;
      assert vs[1..] == ConvertFields(raw, fields[1..], classes, k, bound).value;
      match Lookup(raw, fields[0].wireName)
      case Error =>
      case Ok(x) =>
        ConvertedIsShaped(x, FieldType(fields[0]), classes, k);
        NullComesFromNull(x, FieldType(fields[0]), classes, k);
    }
  }

  /** Converting what a converted value is emitted as: it succeeds exactly when no required field is null, and then
      emits the same again. */
  lemma {:induction false} Reconverts(v: Value, t: Annotation, classes: Classes, k: Casts)
    requires Lawful(k) && Sound(classes) && Shaped(v, t, classes)
    ensures var again := Convert(ToWire(v, classes), t, classes, k);
            && (again.Ok? <==> Filled(v, t, classes))
            && (again.Ok? ==> ToWire(again.value, classes) == ToWire(v, classes) && (again.value.Null? <==> v.Null?))
    decreases v, Depth(t), 0
  {
    var w := ToWire(v, classes);
    WireKeepsNull(v, classes);
    match t
    case AnyType =>
      WireIsClean(v, classes);
      WireOfClean(w, classes);
    case Plain(p) =>
    case OptionalType(inner) =>
      if !v.Null? {
        Reconverts(v, inner, classes, k);
      }
    case ListType(item) =>
      ReconvertsItems(v.items, item, classes, k, Size(w));
    case ClassType(name) =>
      ReconvertsFields(w.entries, v.values, classes[name], v.values, classes[name], classes, k, Size(w), 0);
  }

  lemma {:induction false} ReconvertsItems(items: seq<Value>, t: Annotation, classes: Classes, k: Casts, bound: nat)
    requires Lawful(k) && Sound(classes) && ShapedItems(items, t, classes)
    requires forall i :: 0 <= i < |items| ==> Size(WireItems(items, classes)[i]) <= bound
    ensures var again := ConvertItems(WireItems(items, classes), t, classes, k, bound);
            && (again.Ok? <==> FilledItems(items, t, classes))
            && (again.Ok? ==> WireItems(again.value, classes) == WireItems(items, classes))
    decreases items, Depth(t), |items|
  {
    if items != [] {
      var wire := WireItems(items, classes);
      assert wire[1..] == WireItems(items[1..], classes);
      assert forall i :: 0 <= i < |items[1..]| ==> wire[1..][i] == wire[i + 1];
      Reconverts(items[0], t, classes, k);
      ReconvertsItems(items[1..], t, classes, k, bound);
      var again := ConvertItems(wire, t, classes, k, bound);
      if again.Ok? {
        assert again.value[1..] == ConvertItems(wire[1..], t, classes, k, bound).value;
      }
    }
  }

  lemma {:induction false} ReconvertsFields(raw: seq<Entry>, allValues: seq<Value>, allFields: seq<Field>,
                                            values: seq<Value>, fields: seq<Field>, classes: Classes, k: Casts,
                                            bound: nat, from: nat)
    requires Lawful(k) && Sound(classes) && |values| == |fields| && ShapedFields(values, fields, classes)
    requires |allValues| == |allFields| && DistinctNames(allFields) && raw == WireFields(allValues, allFields, classes)
    requires from <= |allValues| && values == allValues[from..] && fields == allFields[from..]
    requires forall i :: 0 <= i < |raw| ==> Size(raw[i].value) < bound
    ensures var again := ConvertFields(raw, fields, classes, k, bound);
            && (again.Ok? <==> FilledFields(values, fields, classes))
            && (again.Ok? ==> WireFields(again.value, fields, classes) == WireFields(values, fields, classes))
    decreases values, 0, |fields|
  {
    if values != [] {
      WireFieldsLookup(allValues, allFields, classes, from);
      Reconverts(values[0], FieldType(fields[0]), classes, k);
      ReconvertsFields(raw, allValues, allFields, values[1..], fields[1..], classes, k, bound, from + 1);
      var again := ConvertFields(raw, fields, classes, k, bound);
      if again.Ok? {
        assert again.value[1..] == ConvertFields(raw, fields[1..], classes, k, bound).value;
      }
    }
  }

  /** Converting and re-emitting twice equals doing it once exactly when no required field arrives as a null that
      conversion lets through; otherwise the second conversion raises. */
  lemma {:induction false} ReemitTwice(w: Value, t: Annotation, classes: Classes, k: Casts)
    requires Lawful(k) && Sound(classes) && Convert(w, t, classes, k).Ok?
    ensures var once := ToWire(Convert(w, t, classes, k).value, classes);
            var again := Convert(once, t, classes, k);
            && (again.Ok? <==> RequiredPresent(w, t, classes))
            && (again.Ok? ==> ToWire(again.value, classes) == once)
  {
    ConvertedIsShaped(w, t, classes, k);
    Reconverts(Convert(w, t, classes, k).value, t, classes, k);
  }

  /** A required string sent as null is accepted once and refused on the way back in. */
  lemma {:induction false} RequiredNullBreaks(k: Casts)
    requires Lawful(k)
    ensures var classes := map["Pong" := [Field("echo", Plain(StrType), true)]];
            var w := Dict([Entry("echo", Null)]);
            var once := Convert(w, ClassType("Pong"), classes, k);
            && once == Ok(Record("Pong", [Null]))
            && Convert(ToWire(once.value, classes), ClassType("Pong"), classes, k) == Error
  {
    var fields := [Field("echo", Plain(StrType), true)];
    var classes := map["Pong" := fields];
    var w := Dict([Entry("echo", Null)]);
    assert fields[1..] == [];
    var raw, n := [Entry("echo", Null)], Size(w);
    assert w.entries == raw && Mapping(w) == Ok(raw);
    assert Lookup(raw, fields[0].wireName) == Ok(Null);
    assert Convert(Null, FieldType(fields[0]), classes, k) == Ok(Null);
    assert ConvertFields(raw, fields[1..], classes, k, n) == Ok([]);
    var empty: seq<Value> := [];
    assert [Null] + empty == [Null];
    assert ConvertFields(raw, fields, classes, k, n) == Ok([Null]);
    assert WireFields([Null], fields, classes) == [];
    var back := ToWire(Record("Pong", [Null]), classes);
    assert back == Dict([]);
    assert ConvertFields([], fields, classes, k, Size(back)) == Error;
  }

  // Conversions of values that are not of the annotated type.

  /** What Python's truth tests say: null, false, zero and empty strings, lists and dictionaries are false, all else is
      true, the string "false" and the number 2 included. */
  lemma {:induction false} TruthTable(v: Value)
    ensures !Truthy(v) <==> v in {Null, Bool(false), Int(0), Float(0.0), Str(""), List([]), Dict([])}
  {}

  /** A boolean field takes the truth of whatever arrives. */
  lemma {:induction false} BooleansAreTruths(v: Value, classes: Classes, k: Casts)
    requires v != Null
    ensures var falsy := v in {Bool(false), Int(0), Float(0.0), Str(""), List([]), Dict([])};
            Convert(v, Plain(BoolType), classes, k) == Ok(Bool(!falsy))
  {
    TruthTable(v);
  }

  /** A list field takes anything falsy as the empty list, a string by characters, a dictionary by keys; any other value
      that is not a list is an error. */
  lemma {:induction false} ListsFromOthers(v: Value, classes: Classes, k: Casts)
    ensures !Truthy(v) ==> Convert(v, ListType(AnyType), classes, k) == Ok(List([]))
    ensures v.Str? ==> Convert(v, ListType(AnyType), classes, k) == Ok(List(Characters(v.s)))
    ensures v.Dict? ==> Convert(v, ListType(AnyType), classes, k) == Ok(List(Keys(v.entries)))
    ensures v.List? ==> Convert(v, ListType(AnyType), classes, k) == Ok(v)
    ensures Truthy(v) && !v.Str? && !v.Dict? && !v.List? ==> Convert(v, ListType(AnyType), classes, k) == Error
  {
    var r := Iterate(v);
    if r.Ok? {
      AnyItems(r.value, classes, k, Size(v));
    }
    hide ConvertItems, Characters, Keys, Size;
  }

  lemma {:induction false} AnyItems(items: seq<Value>, classes: Classes, k: Casts, bound: nat)
    requires forall i :: 0 <= i < |items| ==> Size(items[i]) <= bound
    ensures ConvertItems(items, AnyType, classes, k, bound) == Ok(items)
    decreases |items|
  {
    if items != [] {
      assert forall i :: 0 <= i < |items[1..]| ==> items[1..][i] == items[i + 1];
      AnyItems(items[1..], classes, k, bound);
      assert items == [items[0]] + items[1..];
    }
  }

  /** A record takes anything falsy as the empty mapping; any other value that is not a mapping is an error. */
  lemma {:induction false} RecordsFromOthers(v: Value, name: string, classes: Classes, k: Casts)
    requires name in classes
    ensures Truthy(v) && !v.Dict? ==> Convert(v, ClassType(name), classes, k) == Error
    ensures !Truthy(v) ==>
              (Convert(v, ClassType(name), classes, k).Ok?
               <==> forall i :: 0 <= i < |classes[name]| ==> !classes[name][i].required)
  {
    if !Truthy(v) {
      EmptyMapping(classes[name], classes, k, Size(v));
    }
  }

  lemma {:induction false} EmptyMapping(fields: seq<Field>, classes: Classes, k: Casts, bound: nat)
    ensures ConvertFields([], fields, classes, k, bound).Ok? <==> forall i :: 0 <= i < |fields| ==> !fields[i].required
    decreases |fields|
  {
    if fields != [] {
      var later := fields[1..];
      EmptyMapping(later, classes, k, bound);
      assert forall i :: 0 <= i < |later| ==> later[i] == fields[i + 1];
      assert (forall i :: 0 <= i < |fields| ==> !fields[i].required)
        <==> !fields[0].required && forall i :: 0 <= i < |later| ==> !later[i].required by {
        assert forall i :: 1 <= i < |fields| ==> fields[i] == later[i - 1];
      }
    }
  }

  /** Emitting leaves out exactly the null entries of a dictionary, and keeps the others in order under their keys. */
  lemma {:induction false} WireDropsNulls(a: seq<Entry>, key: string, v: Value, classes: Classes)
    ensures WireEntries(a + [Entry(key, v)], classes)
         == WireEntries(a, classes) + if v == Null then [] else [Entry(key, ToWire(v, classes))]
    decreases |a|
  {
    if a == [] {
      assert a + [Entry(key, v)] == [Entry(key, v)] && [Entry(key, v)][1..] == [];
    } else {
      WireDropsNulls(a[1..], key, v, classes);
      assert (a + [Entry(key, v)])[1..] == a[1..] + [Entry(key, v)] && (a + [Entry(key, v)])[0] == a[0];
    }
  }
}
