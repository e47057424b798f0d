/**
 * The ownership structure of instances: an instance owns its base part, through its parent link,
 * and the function blocks and class objects held by its variables.
 */
module OwnershipForest {
  import opened Common
  import opened Values
  import opened StorageModel

  /** No instance occurs in the value. */
  predicate Plain(v: Value)
  {
    match v
    case Instance(_) => false
    case Array(elements, _) => forall k :: 0 <= k < |elements| ==> Plain(elements[k])
    case Struct(_, fields) => forall k :: 0 <= k < |fields| ==> Plain(fields[k].value)
    case _ => true
  }

  /** Where an instance is owned from: the base link of `owner`, or its variable at `slot`. */
  datatype Link = BaseLink(owner: nat) | VariableLink(owner: nat, slot: nat)

  ghost predicate Owns(s: Storage, link: Link, id: nat)
  {
    && link.owner in s.instances
    && match link
       case BaseLink(owner) => s.instances[owner].parent == Some(id)
       case VariableLink(owner, slot) =>
         slot < |s.instances[owner].variables| && s.instances[owner].variables[slot].value == Instance(id)
  }

  ghost predicate Unowned(s: Storage, id: nat)
  {
    forall link :: !Owns(s, link, id)
  }

  /** Every variable holds an instance or a value without instances. */
  ghost predicate PlainOrInstance(slots: seq<Slot>)
  {
    forall k :: 0 <= k < |slots| ==> slots[k].value.Instance? || Plain(slots[k].value)
  }

  ghost predicate LinkOrdered(link: Link, id: nat)
  {
    match link
    case BaseLink(owner) => id < owner
    case VariableLink(owner, _) => owner < id
  }

  /**
   * Base parts come before and nested instances after their owner, everything owned exists, and
   * nothing is owned twice.
   */
  ghost predicate Forest(s: Storage)
  {
    && (forall id :: id in s.instances ==> id < s.nextInstance)
    && (forall id :: id in s.instances ==> PlainOrInstance(s.instances[id].variables))
    && (forall link, id :: Owns(s, link, id) ==> id in s.instances && LinkOrdered(link, id))
    && (forall a, b, id :: Owns(s, a, id) && Owns(s, b, id) ==> a == b)
  }

  lemma EmptyForest()
    ensures Forest(EMPTY)
  {
  }

  /** The parent chain of a forest descends, so lookups along it end. */
  lemma ForestParentsBelow(s: Storage)
    requires Forest(s)
    ensures ParentsBelow(s)
  {
    forall id | id in s.instances && s.instances[id].parent.Some? ensures s.instances[id].parent.value < id {
      assert Owns(s, BaseLink(id), s.instances[id].parent.value);
    }
  }

  // ----- The steps of instance creation -----

  function WithNew(s: Storage, typeName: string): Storage
  {
    s.(instances := s.instances[s.nextInstance := InstanceData(typeName, [], None)], nextInstance := s.nextInstance + 1)
  }

  function WithParent(s: Storage, id: nat, parent: nat): Storage
    requires id in s.instances
  {
    s.(instances := s.instances[id := s.instances[id].(parent := Some(parent))])
  }

  /** `after` has the instances of `before`, that of `self` with other variables at most, and new ones. */
  ghost predicate GrowsAround(before: Storage, after: Storage, self: Option<nat>)
  {
    && before.nextInstance <= after.nextInstance
    && after.globals == before.globals && after.frames == before.frames && after.retain == before.retain
    && before.instances.Keys <= after.instances.Keys
    && (forall id :: id in before.instances && Some(id) != self ==> after.instances[id] == before.instances[id])
    && (forall id :: id in before.instances && Some(id) == self ==>
          after.instances[id] == before.instances[id].(variables := after.instances[id].variables))
    && (forall id :: id in after.instances && id !in before.instances ==> before.nextInstance <= id)
    && (forall link, id :: Owns(after, link, id) && !Owns(before, link, id) ==> before.nextInstance <= id)
  }

  lemma UnownedStays(before: Storage, after: Storage, self: Option<nat>, id: nat)
    requires GrowsAround(before, after, self) && Unowned(before, id) && id < before.nextInstance
    ensures Unowned(after, id)
  {
  }

  lemma GrowsRefl(s: Storage, self: Option<nat>)
    ensures GrowsAround(s, s, self)
  {
  }

  lemma GrowsTrans(a: Storage, b: Storage, c: Storage, self: Option<nat>)
    requires GrowsAround(a, b, self) && GrowsAround(b, c, self)
    ensures GrowsAround(a, c, self)
  {
  }

  /** Growth that leaves every instance alone is growth around any instance. */
  lemma GrowsAnywhere(a: Storage, b: Storage, self: Option<nat>)
    requires GrowsAround(a, b, None)
    ensures GrowsAround(a, b, self)
  {
  }

  lemma NewKeepsForest(s: Storage, typeName: string)
    requires Forest(s)
    ensures Forest(WithNew(s, typeName)) && Unowned(WithNew(s, typeName), s.nextInstance)
    ensures GrowsAround(s, WithNew(s, typeName), None)
  {
    var after := WithNew(s, typeName);
    forall link, id | Owns(after, link, id) ensures Owns(s, link, id) {
      assert link.owner != s.nextInstance;
    }
  }

  lemma ParentKeepsForest(s: Storage, id: nat, parent: nat)
    requires Forest(s) && id in s.instances && s.instances[id].parent.None?
    requires parent in s.instances && parent < id && Unowned(s, parent)
    ensures Forest(WithParent(s, id, parent))
    ensures Unowned(s, id) ==> Unowned(WithParent(s, id, parent), id)
  {
    var after := WithParent(s, id, parent);
    forall link, n | Owns(after, link, n) ensures Owns(s, link, n) || (link == BaseLink(id) && n == parent) {
    }
  }

  /** Assigning a variable of `self` changes at most the link from that variable. */
  lemma {:induction false} AssignLinks(s: Storage, self: nat, name: string, value: Value, link: Link, id: nat)
    requires self in s.instances && Owns(SetInstanceVar(s, self, name, value).1, link, id)
    ensures Owns(s, link, id) || (value == Instance(id) && link == VariableLink(self, AssignedSlot(s, self, name)))
  {
    InsertIndex(s.instances[self].variables, name, value, name);
  }

  ghost function AssignedSlot(s: Storage, self: nat, name: string): nat
    requires self in s.instances
  {
    var slots := s.instances[self].variables;
    if IndexOf(slots, name).Some? then IndexOf(slots, name).value else |slots|
  }

  lemma {:induction false} AssignKeepsHeld(slots: seq<Slot>, name: string, value: Value)
    requires PlainOrInstance(slots) && (value.Instance? || Plain(value))
    ensures PlainOrInstance(Insert(slots, name, value))
  {
    hide Plain;
  }

  lemma {:induction false} AssignKeepsForest(s: Storage, self: nat, name: string, value: Value)
    requires Forest(s) && self in s.instances
    requires Plain(value) || (value.Instance? && value.id in s.instances && self < value.id && Unowned(s, value.id))
    ensures Forest(SetInstanceVar(s, self, name, value).1)
    ensures forall id :: Unowned(s, id) && value != Instance(id) ==> Unowned(SetInstanceVar(s, self, name, value).1, id)
  {
    hide Insert, PlainOrInstance;
    var after := SetInstanceVar(s, self, name, value).1;
    AssignKeepsHeld(s.instances[self].variables, name, value);
    forall link, id | Owns(after, link, id)
      ensures Owns(s, link, id) || (value == Instance(id) && link == VariableLink(self, AssignedSlot(s, self, name)))
    {
      AssignLinks(s, self, name, value, link, id);
    }
    hide Owns;
  }

  /** Assigning a plain value, or an instance created since `base`, is growth around `self`. */
  lemma {:induction false} AssignGrows(base: Storage, s: Storage, self: nat, name: string, value: Value)
    requires GrowsAround(base, s, Some(self)) && self in s.instances && self in base.instances
    requires Plain(value) || (value.Instance? && base.nextInstance <= value.id)
    ensures GrowsAround(base, SetInstanceVar(s, self, name, value).1, Some(self))
  {
    assert !(Plain(value) && value.Instance?);
    hide Insert, Plain;
    var after := SetInstanceVar(s, self, name, value).1;
    forall link, id | Owns(after, link, id) && !Owns(base, link, id) ensures base.nextInstance <= id {
      AssignLinks(s, self, name, value, link, id);
    }
    hide Owns;
  }

  // ----- Runs of assignments -----

  function ValueOf(op: Operation): Value
  {
    match op
    case OpSetGlobal(_, value) => value
    case OpSetInstanceVar(_, _, value) => value
    case OpWriteByRef(_, value) => value
  }

  /** Writing a plain value into a plain value leaves it plain. */
  lemma {:induction false} WriteKeepsPlain(v: Value, path: seq<RefSegment>, x: Value)
    requires Plain(v) && Plain(x)
    ensures Plain(WritePath(v, path, x).1)
    decreases |path|
  {
    if path != [] && Locate(v, path[0]).Some? {
      var k := Locate(v, path[0]).value;
      assert Plain(Child(v, k));
      WriteKeepsPlain(Child(v, k), path[1..], x);
    }
  }

  /** Changing one slot of an instance to a plain value removes at most a link. */
  lemma {:induction false} PlainSlotKeepsForest(s: Storage, id: nat, offset: nat, value: Value)
    requires Forest(s) && id in s.instances && offset < |s.instances[id].variables|
    requires Plain(value) || value == s.instances[id].variables[offset].value
    ensures var slots := s.instances[id].variables;
      Forest(WithArea(s, OfInstance(id), slots[offset := Slot(slots[offset].name, value)]))
  {
    var slots := s.instances[id].variables;
    var after := WithArea(s, OfInstance(id), slots[offset := Slot(slots[offset].name, value)]);
    forall link, n | Owns(after, link, n) ensures Owns(s, link, n) {
    }
  }

  /** Every assignment of a plain value keeps the forest, through references as well. */
  lemma {:induction false} ApplyKeepsForest(s: Storage, op: Operation)
    requires Forest(s) && Plain(ValueOf(op))
    ensures Forest(Apply(s, op))
  {
    match op
    case OpSetGlobal(_, _) => SameInstancesForest(s, Apply(s, op));
    case OpSetInstanceVar(id, name, value) =>
      if id in s.instances {
        AssignKeepsForest(s, id, name, value);
      }
    case OpWriteByRef(r, value) =>
      if r.location.OfInstance? && Area(s, r.location).Some? && r.offset < |Area(s, r.location).value| {
        var held := s.instances[r.location.instance].variables[r.offset].value;
        WriteIntoHeld(held, r.path, value);
        PlainSlotKeepsForest(s, r.location.instance, r.offset, WritePath(held, r.path, value).1);
      } else {
        SameInstancesForest(s, Apply(s, op));
      }
  }

  lemma {:induction false} WriteIntoHeld(held: Value, path: seq<RefSegment>, x: Value)
    requires held.Instance? || Plain(held)
    requires Plain(x)
    ensures Plain(WritePath(held, path, x).1) || WritePath(held, path, x).1 == held
  {
    if Plain(held) {
      WriteKeepsPlain(held, path, x);
    }
  }

  lemma {:induction false} SameInstancesForest(s: Storage, after: Storage)
    requires Forest(s) && after.instances == s.instances && after.nextInstance == s.nextInstance
    ensures Forest(after)
  {
    assert forall link, id :: Owns(after, link, id) <==> Owns(s, link, id);
  }

  /** Over every run of assignments of plain values the storage stays an ownership forest. */
  lemma {:induction false} RunKeepsForest(s: Storage, ops: seq<Operation>)
    requires Forest(s) && forall k :: 0 <= k < |ops| ==> Plain(ValueOf(ops[k]))
    ensures Forest(Run(s, ops))
    decreases |ops|
  {
    if ops != [] {
      ApplyKeepsForest(s, ops[0]);
      RunKeepsForest(Apply(s, ops[0]), ops[1..]);
    }
  }

  /** In particular from an empty storage. */
  lemma FreshRunForest(ops: seq<Operation>)
    requires forall k :: 0 <= k < |ops| ==> Plain(ValueOf(ops[k]))
    ensures Forest(Run(EMPTY, ops))
  {
    EmptyForest();
    RunKeepsForest(EMPTY, ops);
  }
}
