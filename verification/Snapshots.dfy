/**
 * Flattening of stored values into recorded samples (historian.rs, `collect_snapshot_samples` and
 * `flatten_value`). The recursion follows instances through the storage; it ends when no instance
 * holds itself through its variables, as in every ownership forest.
 */
module Snapshots {
  import opened Common
  import opened Values
  import opened StorageModel
  import opened OwnershipForest
  import opened ArrayOffsets

  /** Floating-point values stay bit patterns. */
  datatype HistorianValue =
    | BoolValue(flag: bool)
    | Integer(integer: i64)
    | Unsigned(unsigned: u64)
    | Float32(bits32: u32)
    | Float64(bits64: u64)
    | StringValue(text: string)

  datatype Recorded = Recorded(path: string, value: HistorianValue)

  function Code(n: u16): Option<char>
  {
    if n < 0xD800 || 0xE000 <= n then Some(n as char) else None
  }

  /** The recorded form of an elementary value; composite, reference and null values have none. */
  function ToHistorianValue(v: Value): Option<HistorianValue>
  {
    match v
    case Bool(flag) => Some(BoolValue(flag))
    case SInt(n) => Some(Integer(n))
    case Int(n) => Some(Integer(n))
    case DInt(n) => Some(Integer(n))
    case LInt(n) => Some(Integer(n))
    case USInt(n) => Some(Unsigned(n))
    case UInt(n) => Some(Unsigned(n))
    case UDInt(n) => Some(Unsigned(n))
    case ULInt(n) => Some(Unsigned(n))
    case Real(bits) => Some(Float32(bits))
    case LReal(bits) => Some(Float64(bits))
    case Byte(n) => Some(Unsigned(n))
    case Word(n) => Some(Unsigned(n))
    case DWord(n) => Some(Unsigned(n))
    case LWord(n) => Some(Unsigned(n))
    case Ticks(n) => Some(Integer(n))
    case Text(text) => Some(StringValue(text))
    case Char(n) => Some(StringValue([n as char]))
    case WChar(n) =>
      (match Code(n)
       case Some(c) => Some(StringValue([c]))
       case None => None)
    case Enum(variant, _) => Some(StringValue(variant))
    case _ => None
  }

  function Decimal(n: nat): string
  {
    if n < 10 then [('0' as int + n) as char] else Decimal(n / 10) + [('0' as int + n % 10) as char]
  }

  // ----- Why the recursion ends -----

  function Larger(a: nat, b: nat): nat
  {
    if a < b then b else a
  }

  /** One more than the highest rank of an instance that occurs in the value. */
  ghost function Height(rank: map<nat, nat>, v: Value): nat
    decreases v
  {
    match v
    case Instance(id) => if id in rank then rank[id] + 1 else 0
    case Array(elements, _) => HeightOfAll(rank, elements)
    case Struct(_, fields) => HeightOfSlots(rank, fields)
    case _ => 0
  }

  ghost function HeightOfAll(rank: map<nat, nat>, values: seq<Value>): (h: nat)
    ensures forall k :: 0 <= k < |values| ==> Height(rank, values[k]) <= h
    decreases values
  {
    if values == [] then 0 else Larger(Height(rank, values[0]), HeightOfAll(rank, values[1..]))
  }

  ghost function HeightOfSlots(rank: map<nat, nat>, slots: seq<Slot>): (h: nat)
    ensures forall k :: 0 <= k < |slots| ==> Height(rank, slots[k].value) <= h
    decreases slots
  {
    if slots == [] then 0 else Larger(Height(rank, slots[0].value), HeightOfSlots(rank, slots[1..]))
  }

  /** Every instance ranks at least as high as its variables reach. */
  ghost predicate Ranked(s: Storage, rank: map<nat, nat>)
  {
    && rank.Keys == s.instances.Keys
    && forall id :: id in s.instances ==> HeightOfSlots(rank, s.instances[id].variables) <= rank[id]
  }

  /** No instance holds itself through its variables, at any depth; sharing is allowed. */
  ghost predicate LinksAcyclic(s: Storage)
  {
    exists rank :: Ranked(s, rank)
  }

  ghost function RankOf(s: Storage): (rank: map<nat, nat>)
    requires LinksAcyclic(s)
    ensures Ranked(s, rank)
  {
    var rank :| Ranked(s, rank);
    rank
  }

  ghost function Level(s: Storage, v: Value): nat
    requires LinksAcyclic(s)
  {
    Height(RankOf(s), v)
  }

  ghost predicate SlotsWithin(s: Storage, slots: seq<Slot>, level: nat)
    requires LinksAcyclic(s)
  {
    forall k :: 0 <= k < |slots| ==> Level(s, slots[k].value) <= level
  }

  ghost predicate ElementsWithin(s: Storage, elements: seq<Value>, level: nat)
    requires LinksAcyclic(s)
  {
    forall k :: 0 <= k < |elements| ==> Level(s, elements[k]) <= level
  }

  /** The variables of an instance are strictly below it. */
  lemma InstanceDescends(s: Storage, id: nat)
    requires LinksAcyclic(s) && id in s.instances
    ensures Level(s, Instance(id)) > 0
    ensures SlotsWithin(s, s.instances[id].variables, Level(s, Instance(id)) - 1)
  {
    assert id in RankOf(s);
  }

  /** The children of a composite value are no higher than the value. */
  lemma ChildrenWithin(s: Storage, v: Value)
    requires LinksAcyclic(s)
    ensures v.Struct? ==> SlotsWithin(s, v.fields, Level(s, v))
    ensures v.Array? ==> ElementsWithin(s, v.elements, Level(s, v))
  {
  }

  // ----- Which storages have acyclic links -----

  lemma {:induction false} PlainHeight(rank: map<nat, nat>, v: Value)
    requires Plain(v)
    ensures Height(rank, v) == 0
    decreases v, 0
  {
    match v
    case Array(elements, _) => AllPlainHeight(rank, elements);
    case Struct(_, fields) => SlotsPlainHeight(rank, fields);
    case _ =>
  }

  lemma {:induction false} AllPlainHeight(rank: map<nat, nat>, values: seq<Value>)
    requires forall k :: 0 <= k < |values| ==> Plain(values[k])
    ensures HeightOfAll(rank, values) == 0
    decreases values, 1
  {
    if values != [] {
      PlainHeight(rank, values[0]);
      AllPlainHeight(rank, values[1..]);
    }
  }

  lemma {:induction false} SlotsPlainHeight(rank: map<nat, nat>, slots: seq<Slot>)
    requires forall k :: 0 <= k < |slots| ==> Plain(slots[k].value)
    ensures HeightOfSlots(rank, slots) == 0
    decreases slots, 1
  {
    if slots != [] {
      PlainHeight(rank, slots[0].value);
      SlotsPlainHeight(rank, slots[1..]);
    }
  }

  lemma {:induction false} SlotsBelow(rank: map<nat, nat>, slots: seq<Slot>, bound: nat)
    requires forall k :: 0 <= k < |slots| ==> Height(rank, slots[k].value) <= bound
    ensures HeightOfSlots(rank, slots) <= bound
    decreases |slots|
  {
    if slots != [] {
      SlotsBelow(rank, slots[1..], bound);
    }
  }

  lemma {:induction false} AllBelow(rank: map<nat, nat>, values: seq<Value>, bound: nat)
    requires forall k :: 0 <= k < |values| ==> Height(rank, values[k]) <= bound
    ensures HeightOfAll(rank, values) <= bound
    decreases |values|
  {
    if values != [] {
      AllBelow(rank, values[1..], bound);
    }
  }

  /** In an ownership forest, instances can be ranked by their distance from the newest one. */
  lemma ForestAcyclic(s: Storage)
    requires Forest(s)
    ensures LinksAcyclic(s)
  {
    var rank: map<nat, nat> := map id | id in s.instances :: s.nextInstance - id;
    forall id | id in s.instances ensures HeightOfSlots(rank, s.instances[id].variables) <= rank[id] {
      var slots := s.instances[id].variables;
      forall k | 0 <= k < |slots| ensures Height(rank, slots[k].value) <= rank[id] {
        if slots[k].value.Instance? {
          assert Owns(s, VariableLink(id, k), slots[k].value.id);
        } else {
          PlainHeight(rank, slots[k].value);
        }
      }
      SlotsBelow(rank, slots, rank[id]);
    }
    assert Ranked(s, rank);
  }

  /** Writing a plain value into a value makes it no higher. */
  lemma {:induction false} WriteKeepsHeight(rank: map<nat, nat>, v: Value, path: seq<RefSegment>, x: Value)
    requires Plain(x)
    ensures Height(rank, WritePath(v, path, x).1) <= Height(rank, v)
    decreases |path|
  {
    if path == [] {
      PlainHeight(rank, x);
    } else if Locate(v, path[0]).Some? {
      var k := Locate(v, path[0]).value;
      WriteKeepsHeight(rank, Child(v, k), path[1..], x);
      ChildReplaced(rank, v, k, WritePath(Child(v, k), path[1..], x).1);
    }
  }

  lemma ChildReplaced(rank: map<nat, nat>, v: Value, k: nat, child: Value)
    requires k < ChildCount(v) && Height(rank, child) <= Height(rank, Child(v, k))
    ensures Height(rank, WithChild(v, k, child)) <= Height(rank, v)
  {
    var after := WithChild(v, k, child);
    if v.Struct? {
      SlotsBelow(rank, after.fields, HeightOfSlots(rank, v.fields));
    } else {
      AllBelow(rank, after.elements, HeightOfAll(rank, v.elements));
    }
  }

  /** An instance's slots with one of them lowered, or a plain one added, reach no higher. */
  lemma SlotReplaced(rank: map<nat, nat>, slots: seq<Slot>, after: seq<Slot>)
    requires |slots| <= |after|
    requires forall k :: 0 <= k < |slots| ==> Height(rank, after[k].value) <= Height(rank, slots[k].value)
    requires forall k :: |slots| <= k < |after| ==> Height(rank, after[k].value) == 0
    ensures HeightOfSlots(rank, after) <= HeightOfSlots(rank, slots)
  {
    forall k | 0 <= k < |after| ensures Height(rank, after[k].value) <= HeightOfSlots(rank, slots) {
      if k < |slots| {
        assert Height(rank, slots[k].value) <= HeightOfSlots(rank, slots);
      }
    }
    SlotsBelow(rank, after, HeightOfSlots(rank, slots));
  }

  /** Every assignment of a plain value keeps the ranking. */
  lemma ApplyKeepsRanks(s: Storage, op: Operation, rank: map<nat, nat>)
    requires Ranked(s, rank) && Plain(ValueOf(op))
    ensures Ranked(Apply(s, op), rank)
  {
    PlainHeight(rank, ValueOf(op));
    match op
    case OpSetGlobal(_, _) =>
    case OpSetInstanceVar(id, name, value) =>
      if id in s.instances {
        var slots := s.instances[id].variables;
        SlotReplaced(rank, slots, Insert(slots, name, value));
      }
    case OpWriteByRef(r, value) =>
      if r.location.OfInstance? && Area(s, r.location).Some? && r.offset < |Area(s, r.location).value| {
        var slots := s.instances[r.location.instance].variables;
        WriteKeepsHeight(rank, slots[r.offset].value, r.path, value);
        SlotReplaced(rank, slots, Apply(s, op).instances[r.location.instance].variables);
      }
  }

  /** Over every run of assignments of plain values the links stay acyclic, so flattening still ends. */
  lemma {:induction false} RunKeepsAcyclic(s: Storage, ops: seq<Operation>)
    requires LinksAcyclic(s) && forall k :: 0 <= k < |ops| ==> Plain(ValueOf(ops[k]))
    ensures LinksAcyclic(StorageModel.Run(s, ops))
    decreases |ops|
  {
    if ops != [] {
      var rank := RankOf(s);
      ApplyKeepsRanks(s, ops[0], rank);
      RunKeepsAcyclic(Apply(s, ops[0]), ops[1..]);
    }
  }

  // ----- Flattening -----

  /** Every leaf of a value whose path is to be recorded, in order. */
  function FlattenValue(s: Storage, path: string, v: Value, record: string -> bool): seq<Recorded>
    requires LinksAcyclic(s)
    decreases Level(s, v), v, 0
  {
    match ToHistorianValue(v)
    case Some(value) => if record(path) then [Recorded(path, value)] else []
    case None =>
      ChildrenWithin(s, v);
      match v
      case Struct(_, fields) => FlattenSlots(s, path, fields, record, Level(s, v))
      case Array(elements, _) => FlattenElements(s, path, elements, 0, record, Level(s, v))
      case Instance(id) =>
        if id in s.instances then
          InstanceDescends(s, id);
          FlattenSlots(s, path, s.instances[id].variables, record, Level(s, v) - 1)
        else []
      case _ => []
  }

  function FlattenSlots(s: Storage, path: string, slots: seq<Slot>, record: string -> bool, ghost level: nat): seq<Recorded>
    requires LinksAcyclic(s) && SlotsWithin(s, slots, level)
    decreases level, slots, 1
  {
    if slots == [] then []
    else
      FlattenValue(s, path + "." + slots[0].name, slots[0].value, record)
      + FlattenSlots(s, path, slots[1..], record, level)
  }

  function FlattenElements(s: Storage, path: string, elements: seq<Value>, from: nat, record: string -> bool, ghost level: nat): seq<Recorded>
    requires LinksAcyclic(s) && ElementsWithin(s, elements, level)
    decreases level, elements, 1
  {
    if elements == [] then []
    else
      FlattenValue(s, path + "[" + Decimal(from) + "]", elements[0], record)
      + FlattenElements(s, path, elements[1..], from + 1, record, level)
  }

  function Filter(recorded: seq<Recorded>, record: string -> bool): seq<Recorded>
  {
    if recorded == [] then []
    else (if record(recorded[0].path) then [recorded[0]] else []) + Filter(recorded[1..], record)
  }

  lemma {:induction false} FilterConcat(a: seq<Recorded>, b: seq<Recorded>, record: string -> bool)
    ensures Filter(a + b, record) == Filter(a, record) + Filter(b, record)
  {
    if a == [] {
      assert a + b == b;
    } else {
      assert (a + b)[1..] == a[1..] + b;
      FilterConcat(a[1..], b, record);
    }
  }

  function Everything(): string -> bool
  {
    path => true
  }

  /** An allowlist records exactly the listed part of what recording everything records. */
  lemma {:induction false} AllowlistFilters(s: Storage, path: string, v: Value, record: string -> bool)
    requires LinksAcyclic(s)
    ensures FlattenValue(s, path, v, record) == Filter(FlattenValue(s, path, v, Everything()), record)
    decreases Level(s, v), v, 0
  {
    if ToHistorianValue(v).None? {
      ChildrenWithin(s, v);
      match v
      case Struct(_, fields) => AllowlistFiltersSlots(s, path, fields, record, Level(s, v));
      case Array(elements, _) => AllowlistFiltersElements(s, path, elements, 0, record, Level(s, v));
      case Instance(id) =>
        if id in s.instances {
          InstanceDescends(s, id);
          AllowlistFiltersSlots(s, path, s.instances[id].variables, record, Level(s, v) - 1);
        }
      case _ =>
    }
  }

  lemma {:induction false} AllowlistFiltersSlots(s: Storage, path: string, slots: seq<Slot>, record: string -> bool, level: nat)
    requires LinksAcyclic(s) && SlotsWithin(s, slots, level)
    ensures FlattenSlots(s, path, slots, record, level) == Filter(FlattenSlots(s, path, slots, Everything(), level), record)
    decreases level, slots, 1
  {
    if slots != [] {
      var inner := path + "." + slots[0].name;
      AllowlistFilters(s, inner, slots[0].value, record);
      AllowlistFiltersSlots(s, path, slots[1..], record, level);
      FilterConcat(FlattenValue(s, inner, slots[0].value, Everything()), FlattenSlots(s, path, slots[1..], Everything(), level), record);
    }
  }

  lemma {:induction false} AllowlistFiltersElements(s: Storage, path: string, elements: seq<Value>, from: nat, record: string -> bool, level: nat)
    requires LinksAcyclic(s) && ElementsWithin(s, elements, level)
    ensures FlattenElements(s, path, elements, from, record, level)
         == Filter(FlattenElements(s, path, elements, from, Everything(), level), record)
    decreases level, elements, 1
  {
    if elements != [] {
      var inner := path + "[" + Decimal(from) + "]";
      AllowlistFilters(s, inner, elements[0], record);
      AllowlistFiltersElements(s, path, elements[1..], from + 1, record, level);
      FilterConcat(FlattenValue(s, inner, elements[0], Everything()), FlattenElements(s, path, elements[1..], from + 1, Everything(), level), record);
    }
  }

  // ----- Whole snapshots -----

  function FlattenVariables(s: Storage, prefix: string, slots: seq<Slot>, record: string -> bool): seq<Recorded>
    requires LinksAcyclic(s)
  {
    if slots == [] then []
    else FlattenValue(s, prefix + slots[0].name, slots[0].value, record) + FlattenVariables(s, prefix, slots[1..], record)
  }

  /** The globals, then the retained variables under their own prefix. */
  function CollectValues(s: Storage, record: string -> bool): seq<Recorded>
    requires LinksAcyclic(s)
  {
    FlattenVariables(s, "", s.globals, record) + FlattenVariables(s, "retain.", s.retain, record)
  }

  lemma {:induction false} AllowlistFiltersVariables(s: Storage, prefix: string, slots: seq<Slot>, record: string -> bool)
    requires LinksAcyclic(s)
    ensures FlattenVariables(s, prefix, slots, record) == Filter(FlattenVariables(s, prefix, slots, Everything()), record)
  {
    if slots != [] {
      AllowlistFilters(s, prefix + slots[0].name, slots[0].value, record);
      AllowlistFiltersVariables(s, prefix, slots[1..], record);
      FilterConcat(FlattenValue(s, prefix + slots[0].name, slots[0].value, Everything()),
                   FlattenVariables(s, prefix, slots[1..], Everything()), record);
    }
  }

  /** Recording with an allowlist keeps exactly the listed samples of a full recording, in order. */
  lemma AllowlistFiltersSnapshot(s: Storage, record: string -> bool)
    requires LinksAcyclic(s)
    ensures CollectValues(s, record) == Filter(CollectValues(s, Everything()), record)
  {
    AllowlistFiltersVariables(s, "", s.globals, record);
    AllowlistFiltersVariables(s, "retain.", s.retain, record);
    FilterConcat(FlattenVariables(s, "", s.globals, Everything()), FlattenVariables(s, "retain.", s.retain, Everything()), record);
  }

  // ----- The recursion as the source runs it -----

  /** The output vector that the recursion pushes to. */
  class Recording {
    var values: seq<Recorded>

    constructor ()
      ensures values == []
    {
      values := [];
    }

    method Flatten(s: Storage, path: string, v: Value, record: string -> bool)
      requires LinksAcyclic(s)
      modifies this
      ensures values == old(values) + FlattenValue(s, path, v, record)
      decreases Level(s, v), v, 0
    {
      var value := ToHistorianValue(v);
      if value.Some? {
        if record(path) {
          values := values + [Recorded(path, value.value)];
        }
        return;
      }
      ChildrenWithin(s, v);
      match v
      case Struct(_, fields) =>
        FlattenFields(s, path, fields, record, Level(s, v));
      case Array(elements, _) =>
        FlattenItems(s, path, elements, record, Level(s, v));
      case Instance(id) =>
        if id in s.instances {
          InstanceDescends(s, id);
          FlattenFields(s, path, s.instances[id].variables, record, Level(s, v) - 1);
        }
      case _ =>
    }

    method FlattenFields(s: Storage, path: string, slots: seq<Slot>, record: string -> bool, ghost level: nat)
      requires LinksAcyclic(s) && SlotsWithin(s, slots, level)
      modifies this
      ensures values == old(values) + FlattenSlots(s, path, slots, record, level)
      decreases level, slots, 1
    {
      var i := 0;
      while i < |slots|
        invariant 0 <= i <= |slots| && SlotsWithin(s, slots[i..], level)
        invariant old(values) + FlattenSlots(s, path, slots, record, level)
               == values + FlattenSlots(s, path, slots[i..], record, level)
      {
        Flatten(s, path + "." + slots[i].name, slots[i].value, record);
        assert slots[i..][1..] == slots[i + 1..];
        i := i + 1;
      }
    }

    method FlattenItems(s: Storage, path: string, elements: seq<Value>, record: string -> bool, ghost level: nat)
      requires LinksAcyclic(s) && ElementsWithin(s, elements, level)
      modifies this
      ensures values == old(values) + FlattenElements(s, path, elements, 0, record, level)
      decreases level, elements, 1
    {
      var i := 0;
      while i < |elements|
        invariant 0 <= i <= |elements| && ElementsWithin(s, elements[i..], level)
        invariant old(values) + FlattenElements(s, path, elements, 0, record, level)
               == values + FlattenElements(s, path, elements[i..], i, record, level)
      {
        Flatten(s, path + "[" + Decimal(i) + "]", elements[i], record);
        assert elements[i..][1..] == elements[i + 1..];
        i := i + 1;
      }
    }

    method FlattenAll(s: Storage, prefix: string, slots: seq<Slot>, record: string -> bool)
      requires LinksAcyclic(s)
      modifies this
      ensures values == old(values) + FlattenVariables(s, prefix, slots, record)
    {
      var i := 0;
      while i < |slots|
        invariant 0 <= i <= |slots|
        invariant old(values) + FlattenVariables(s, prefix, slots, record)
               == values + FlattenVariables(s, prefix, slots[i..], record)
      {
        Flatten(s, prefix + slots[i].name, slots[i].value, record);
        assert slots[i..][1..] == slots[i + 1..];
        i := i + 1;
      }
    }
  }

  /** Everything that a snapshot of the storage records, in order. */
  method CollectSnapshot(s: Storage, record: string -> bool) returns (values: seq<Recorded>)
    requires LinksAcyclic(s)
    ensures values == CollectValues(s, record)
  {
    var recording := new Recording();
    recording.FlattenAll(s, "", s.globals, record);
    recording.FlattenAll(s, "retain.", s.retain, record);
    values := recording.values;
  }
}
