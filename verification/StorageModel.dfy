/**
 * Variable storage (memory.rs): globals, the frame stack, instances, and references into them.
 * `Storage` is the abstract state with the functions that specify each operation.
 */
module StorageModel {
  import opened Common
  import opened Values

  datatype Frame = Frame(
    id: nat, owner: string, variables: seq<Slot>, returnValue: Option<Value>, instance: Option<nat>)

  datatype InstanceData = InstanceData(typeName: string, variables: seq<Slot>, parent: Option<nat>)

  datatype Storage = Storage(
    globals: seq<Slot>,
    frames: seq<Frame>,
    instances: map<nat, InstanceData>,
    retain: seq<Slot>,
    nextFrame: nat,
    nextInstance: nat)

  const EMPTY := Storage([], [], map[], [], 0, 0)

  // ----- By-name access -----

  function SetGlobal(s: Storage, name: string, value: Value): Storage
  {
    s.(globals := Insert(s.globals, name, value))
  }

  function GetGlobal(s: Storage, name: string): Option<Value>
  {
    Get(s.globals, name)
  }

  /** The result is false when the instance does not exist. */
  function SetInstanceVar(s: Storage, id: nat, name: string, value: Value): (bool, Storage)
  {
    if id in s.instances then
      var data := s.instances[id];
      (true, s.(instances := s.instances[id := data.(variables := Insert(data.variables, name, value))]))
    else
      (false, s)
  }

  function GetInstanceVar(s: Storage, id: nat, name: string): Option<Value>
  {
    if id in s.instances then Get(s.instances[id].variables, name) else None
  }

  /** Parents come before their children; the lookups along the parent chain rely on it. */
  ghost predicate ParentsBelow(s: Storage)
  {
    forall id :: id in s.instances && s.instances[id].parent.Some? ==> s.instances[id].parent.value < id
  }

  ghost function GetInstanceVarRecursive(s: Storage, id: nat, name: string): Option<Value>
    requires ParentsBelow(s)
    decreases id
  {
    if GetInstanceVar(s, id, name).Some? then GetInstanceVar(s, id, name)
    else if id in s.instances && s.instances[id].parent.Some?
    then GetInstanceVarRecursive(s, s.instances[id].parent.value, name)
    else None
  }

  // ----- References -----

  function FrameIndex(frames: seq<Frame>, id: nat): (r: Option<nat>)
    ensures r.Some? ==> r.value < |frames| && frames[r.value].id == id
    ensures r.None? ==> forall k :: 0 <= k < |frames| ==> frames[k].id != id
  {
    if frames == [] then None
    else if frames[0].id == id then Some(0)
    else match FrameIndex(frames[1..], id)
      case Some(k) => Some(k + 1)
      case None => None
  }

  /** The variables at a location; the I/O and retain areas are not reachable by reference. */
  function Area(s: Storage, location: MemoryLocation): Option<seq<Slot>>
  {
    match location
    case Global => Some(s.globals)
    case Local(frame) =>
      (match FrameIndex(s.frames, frame)
       case Some(k) => Some(s.frames[k].variables)
       case None => None)
    case OfInstance(id) => if id in s.instances then Some(s.instances[id].variables) else None
    case Io(_) => None
    case Retain => None
  }

  function WithArea(s: Storage, location: MemoryLocation, slots: seq<Slot>): Storage
    requires Area(s, location).Some?
  {
    match location
    case Global => s.(globals := slots)
    case Local(frame) =>
      var k := FrameIndex(s.frames, frame).value;
      s.(frames := s.frames[k := s.frames[k].(variables := slots)])
    case OfInstance(id) => s.(instances := s.instances[id := s.instances[id].(variables := slots)])
  }

  function RefFor(s: Storage, location: MemoryLocation, name: string): Option<ValueRef>
  {
    match Area(s, location)
    case Some(slots) =>
      (match IndexOf(slots, name)
       case Some(offset) => Some(ValueRef(location, offset, []))
       case None => None)
    case None => None
  }

  ghost function RefForInstanceRecursive(s: Storage, id: nat, name: string): Option<ValueRef>
    requires ParentsBelow(s)
    decreases id
  {
    if RefFor(s, OfInstance(id), name).Some? then RefFor(s, OfInstance(id), name)
    else if id in s.instances && s.instances[id].parent.Some?
    then RefForInstanceRecursive(s, s.instances[id].parent.value, name)
    else None
  }

  function ReadByRef(s: Storage, r: ValueRef): Option<Value>
  {
    match Area(s, r.location)
    case Some(slots) => if r.offset < |slots| then ReadPath(slots[r.offset].value, r.path) else None
    case None => None
  }

  function WriteByRef(s: Storage, r: ValueRef, value: Value): (bool, Storage)
  {
    match Area(s, r.location)
    case Some(slots) =>
      if r.offset < |slots| then
        var slot := slots[r.offset];
        var (ok, after) := WritePath(slot.value, r.path, value);
        (ok, WithArea(s, r.location, slots[r.offset := Slot(slot.name, after)]))
      else (false, s)
    case None => (false, s)
  }

  // ----- What a reference selects -----

  /** A reference to a global, to a variable of an existing instance, or to one of a frame's, by slot. */
  lemma RefSelects(s: Storage, k: nat, offset: nat, id: nat, path: seq<RefSegment>)
    ensures offset < |s.globals| ==>
      ReadByRef(s, ValueRef(Global, offset, path)) == ReadPath(s.globals[offset].value, path)
    ensures id in s.instances && offset < |s.instances[id].variables| ==>
      ReadByRef(s, ValueRef(OfInstance(id), offset, path)) == ReadPath(s.instances[id].variables[offset].value, path)
    ensures FramesDistinct(s) && k < |s.frames| && offset < |s.frames[k].variables| ==>
      ReadByRef(s, ValueRef(Local(s.frames[k].id), offset, path)) == ReadPath(s.frames[k].variables[offset].value, path)
  {
  }

  /** Writing changes the selected slot's value along the path, and nothing else in the storage. */
  lemma RefWrites(s: Storage, k: nat, offset: nat, id: nat, path: seq<RefSegment>, x: Value)
    ensures offset < |s.globals| ==>
      var (ok, child) := WritePath(s.globals[offset].value, path, x);
      WriteByRef(s, ValueRef(Global, offset, path), x) ==
        (ok, s.(globals := s.globals[offset := Slot(s.globals[offset].name, child)]))
    ensures id in s.instances && offset < |s.instances[id].variables| ==>
      var data := s.instances[id];
      var (ok, child) := WritePath(data.variables[offset].value, path, x);
      WriteByRef(s, ValueRef(OfInstance(id), offset, path), x) ==
        (ok, s.(instances := s.instances[id := data.(variables := data.variables[offset := Slot(data.variables[offset].name, child)])]))
    ensures FramesDistinct(s) && k < |s.frames| && offset < |s.frames[k].variables| ==>
      var frame := s.frames[k];
      var (ok, child) := WritePath(frame.variables[offset].value, path, x);
      WriteByRef(s, ValueRef(Local(frame.id), offset, path), x) ==
        (ok, s.(frames := s.frames[k := frame.(variables := frame.variables[offset := Slot(frame.variables[offset].name, child)])]))
  {
  }

  /** Elsewhere there is nothing to select. */
  lemma RefMisses(s: Storage, r: ValueRef)
    requires match r.location
      case Global => r.offset >= |s.globals|
      case OfInstance(id) => id in s.instances ==> r.offset >= |s.instances[id].variables|
      case Local(id) => forall k :: 0 <= k < |s.frames| && s.frames[k].id == id ==> r.offset >= |s.frames[k].variables|
      case _ => true
    ensures ReadByRef(s, r).None? && forall x :: WriteByRef(s, r, x) == (false, s)
  {
  }

  /** The reference taken for a name selects the slot of that name. */
  lemma RefForSelects(s: Storage, k: nat, id: nat)
    ensures DistinctSlots(s.globals) && k < |s.globals| ==>
      RefFor(s, Global, s.globals[k].name) == Some(ValueRef(Global, k, []))
    ensures id in s.instances && DistinctSlots(s.instances[id].variables) && k < |s.instances[id].variables| ==>
      RefFor(s, OfInstance(id), s.instances[id].variables[k].name) == Some(ValueRef(OfInstance(id), k, []))
  {
  }

  /** The recursive lookup finds the variable of the first instance along the parents that has it. */
  lemma {:induction false} NearestFound(s: Storage, chain: seq<nat>, name: string)
    requires ParentsBelow(s) && chain != []
    requires forall i :: 0 <= i < |chain| - 1 ==>
      chain[i] in s.instances && s.instances[chain[i]].parent == Some(chain[i + 1])
      && forall k :: 0 <= k < |s.instances[chain[i]].variables| ==> s.instances[chain[i]].variables[k].name != name
    ensures GetInstanceVarRecursive(s, chain[0], name) == GetInstanceVarRecursive(s, chain[|chain| - 1], name)
    ensures GetInstanceVar(s, chain[|chain| - 1], name).Some? ==>
      GetInstanceVarRecursive(s, chain[0], name) == GetInstanceVar(s, chain[|chain| - 1], name)
    ensures var last := chain[|chain| - 1];
      GetInstanceVar(s, last, name).None? && (last in s.instances ==> s.instances[last].parent.None?) ==>
        GetInstanceVarRecursive(s, chain[0], name).None?
    decreases |chain|
  {
    if |chain| > 1 {
      NearestFound(s, chain[1..], name);
    }
  }

  // ----- Lens laws -----

  lemma {:induction false} FrameIndexSame(a: seq<Frame>, b: seq<Frame>, id: nat)
    requires |a| == |b| && forall k :: 0 <= k < |a| ==> a[k].id == b[k].id
    ensures FrameIndex(a, id) == FrameIndex(b, id)
  {
    if a != [] && a[0].id != id {
      FrameIndexSame(a[1..], b[1..], id);
    }
  }

  lemma WithAreaFrame(s: Storage, location: MemoryLocation, slots: seq<Slot>, other: MemoryLocation)
    requires Area(s, location).Some?
    ensures Area(WithArea(s, location, slots), location) == Some(slots)
    ensures other != location ==> Area(WithArea(s, location, slots), other) == Area(s, other)
    ensures WithArea(s, location, Area(s, location).value) == s
  {
    var after := WithArea(s, location, slots);
    if location.Local? {
      FrameIndexSame(s.frames, after.frames, location.frame);
      if other.Local? {
        FrameIndexSame(s.frames, after.frames, other.frame);
      }
      var k := FrameIndex(s.frames, location.frame).value;
      assert s.frames[k := s.frames[k]] == s.frames;
    }
    if location.OfInstance? {
      assert s.instances[location.instance := s.instances[location.instance]] == s.instances;
    }
  }

  /** A write succeeds exactly where a read does, and a failed write changes nothing. */
  lemma RefWriteWhereReadable(s: Storage, r: ValueRef, x: Value)
    ensures WriteByRef(s, r, x).0 <==> ReadByRef(s, r).Some?
    ensures !WriteByRef(s, r, x).0 ==> WriteByRef(s, r, x).1 == s
  {
    if Area(s, r.location).Some? && r.offset < |Area(s, r.location).value| {
      var slots := Area(s, r.location).value;
      WriteWhereReadable(slots[r.offset].value, r.path, x);
      WithAreaFrame(s, r.location, slots, r.location);
      assert slots[r.offset := Slot(slots[r.offset].name, slots[r.offset].value)] == slots;
    }
  }

  /** What is written is what the next read returns. */
  lemma RefPutGet(s: Storage, r: ValueRef, x: Value)
    requires WriteByRef(s, r, x).0
    ensures ReadByRef(WriteByRef(s, r, x).1, r) == Some(x)
  {
    var slots := Area(s, r.location).value;
    var after := WritePath(slots[r.offset].value, r.path, x).1;
    PutGet(slots[r.offset].value, r.path, x);
    WithAreaFrame(s, r.location, slots[r.offset := Slot(slots[r.offset].name, after)], r.location);
  }

  /** Writing back the value read changes nothing. */
  lemma RefGetPut(s: Storage, r: ValueRef)
    requires ReadByRef(s, r).Some?
    ensures WriteByRef(s, r, ReadByRef(s, r).value) == (true, s)
  {
    var slots := Area(s, r.location).value;
    GetPut(slots[r.offset].value, r.path);
    WithAreaFrame(s, r.location, slots, r.location);
    assert slots[r.offset := Slot(slots[r.offset].name, slots[r.offset].value)] == slots;
  }

  /** The two references select values neither of which contains the other. */
  predicate Apart(r: ValueRef, q: ValueRef)
  {
    r.location != q.location || r.offset != q.offset || Disjoint(r.path, q.path)
  }

  /** A write through a reference is seen through every readable reference that is not apart from it. */
  lemma RefShared(s: Storage, r: ValueRef, q: ValueRef)
    requires ReadByRef(s, r).Some? && ReadByRef(s, q).Some? && !Apart(r, q)
    ensures ReadByRef(WriteByRef(s, r, Other(ReadByRef(s, r).value)).1, q) != ReadByRef(s, q)
  {
    var slots := Area(s, r.location).value;
    var x := Other(ReadByRef(s, r).value);
    var after := WritePath(slots[r.offset].value, r.path, x).1;
    SharedSeen(slots[r.offset].value, r.path, q.path);
    WithAreaFrame(s, r.location, slots[r.offset := Slot(slots[r.offset].name, after)], r.location);
  }

  /** A write leaves every read through a reference apart from it unchanged. */
  lemma RefApart(s: Storage, r: ValueRef, q: ValueRef, x: Value)
    requires Apart(r, q)
    ensures ReadByRef(WriteByRef(s, r, x).1, q) == ReadByRef(s, q)
  {
    if Area(s, r.location).Some? && r.offset < |Area(s, r.location).value| {
      var slots := Area(s, r.location).value;
      var written := WritePath(slots[r.offset].value, r.path, x).1;
      WithAreaFrame(s, r.location, slots[r.offset := Slot(slots[r.offset].name, written)], q.location);
      if r.location == q.location && r.offset == q.offset {
        DisjointRead(slots[r.offset].value, r.path, q.path, x);
      }
    }
  }

  /** So two readable references are apart exactly if no write through the one is seen through the other. */
  lemma ApartExactly(s: Storage, r: ValueRef, q: ValueRef)
    requires ReadByRef(s, r).Some? && ReadByRef(s, q).Some?
    ensures Apart(r, q) <==> forall x :: ReadByRef(WriteByRef(s, r, x).1, q) == ReadByRef(s, q)
  {
    if Apart(r, q) {
      forall x ensures ReadByRef(WriteByRef(s, r, x).1, q) == ReadByRef(s, q) {
        RefApart(s, r, q, x);
      }
    } else {
      RefShared(s, r, q);
    }
  }

  // ----- References over later operations -----

  datatype Operation =
    | OpSetGlobal(name: string, value: Value)
    | OpSetInstanceVar(id: nat, name: string, value: Value)
    | OpWriteByRef(ref: ValueRef, value: Value)

  function Apply(s: Storage, op: Operation): Storage
  {
    match op
    case OpSetGlobal(name, value) => SetGlobal(s, name, value)
    case OpSetInstanceVar(id, name, value) => SetInstanceVar(s, id, name, value).1
    case OpWriteByRef(r, value) => WriteByRef(s, r, value).1
  }

  function Run(s: Storage, ops: seq<Operation>): Storage
    decreases |ops|
  {
    if ops == [] then s else Run(Apply(s, ops[0]), ops[1..])
  }

  /** The known slots of `a` keep their positions and names in `b`. */
  ghost predicate KeepsSlots(a: seq<Slot>, b: seq<Slot>)
  {
    |a| <= |b| && forall k :: 0 <= k < |a| ==> a[k].name == b[k].name
  }

  lemma InsertKeepsSlots(slots: seq<Slot>, name: string, value: Value)
    ensures KeepsSlots(slots, Insert(slots, name, value))
  {
  }

  lemma ApplyKeepsSlots(s: Storage, op: Operation, location: MemoryLocation)
    requires Area(s, location).Some?
    ensures Area(Apply(s, op), location).Some?
    ensures KeepsSlots(Area(s, location).value, Area(Apply(s, op), location).value)
  {
    match op
    case OpSetGlobal(name, value) =>
      InsertKeepsSlots(s.globals, name, value);
    case OpSetInstanceVar(id, name, value) =>
      if id in s.instances {
        InsertKeepsSlots(s.instances[id].variables, name, value);
      }
    case OpWriteByRef(r, value) =>
      if Area(s, r.location).Some? && r.offset < |Area(s, r.location).value| {
        var slots := Area(s, r.location).value;
        var after := WritePath(slots[r.offset].value, r.path, value).1;
        WithAreaFrame(s, r.location, slots[r.offset := Slot(slots[r.offset].name, after)], location);
      }
  }

  lemma {:induction false} RunKeepsSlots(s: Storage, ops: seq<Operation>, location: MemoryLocation)
    requires Area(s, location).Some?
    ensures Area(Run(s, ops), location).Some?
    ensures KeepsSlots(Area(s, location).value, Area(Run(s, ops), location).value)
    decreases |ops|
  {
    if ops != [] {
      ApplyKeepsSlots(s, ops[0], location);
      RunKeepsSlots(Apply(s, ops[0]), ops[1..], location);
    }
  }

  /**
   * A reference once taken stays what a fresh lookup of the name would give, and reads the
   * variable's current value, over every later run of assignments.
   */
  lemma ReferencesStayValid(s: Storage, ops: seq<Operation>, location: MemoryLocation, name: string)
    requires RefFor(s, location, name).Some?
    ensures var r := RefFor(s, location, name).value; var after := Run(s, ops);
      && RefFor(after, location, name) == Some(r)
      && ReadByRef(after, r).Some?
      && (location.Global? ==> ReadByRef(after, r) == GetGlobal(after, name))
      && (location.OfInstance? ==> ReadByRef(after, r) == GetInstanceVar(after, location.instance, name))
  {
    RunKeepsSlots(s, ops, location);
    SameNamesSameIndex(Area(s, location).value, Area(Run(s, ops), location).value, name);
  }

  /** Assignments keep every parent link. */
  lemma {:induction false} RunKeepsParents(s: Storage, ops: seq<Operation>)
    requires ParentsBelow(s)
    ensures ParentsBelow(Run(s, ops))
    decreases |ops|
  {
    if ops != [] {
      RunKeepsParents(Apply(s, ops[0]), ops[1..]);
    }
  }

  /** The recursive reference lookup finds the variable that the recursive value lookup reads. */
  lemma {:induction false} RecursiveLookupsAgree(s: Storage, id: nat, name: string)
    requires ParentsBelow(s)
    ensures RefForInstanceRecursive(s, id, name).Some? <==> GetInstanceVarRecursive(s, id, name).Some?
    ensures RefForInstanceRecursive(s, id, name).Some? ==>
      ReadByRef(s, RefForInstanceRecursive(s, id, name).value) == GetInstanceVarRecursive(s, id, name)
    decreases id
  {
    if GetInstanceVar(s, id, name).None? && id in s.instances && s.instances[id].parent.Some? {
      RecursiveLookupsAgree(s, s.instances[id].parent.value, name);
    }
  }

  // ----- Frames -----

  function PushFrame(s: Storage, owner: string, instance: Option<nat>): (nat, Storage)
  {
    (s.nextFrame,
     s.(frames := s.frames + [Frame(s.nextFrame, owner, [], None, instance)], nextFrame := s.nextFrame + 1))
  }

  function PopFrame(s: Storage): (Option<Frame>, Storage)
  {
    if s.frames == [] then (None, s)
    else (Some(s.frames[|s.frames| - 1]), s.(frames := s.frames[..|s.frames| - 1]))
  }

  /** Popping undoes a push: the frame is the new one, and the others are as they were. */
  lemma PopUndoesPush(s: Storage, owner: string, instance: Option<nat>)
    ensures var (id, pushed) := PushFrame(s, owner, instance);
      && id == s.nextFrame
      && PopFrame(pushed) == (Some(Frame(id, owner, [], None, instance)), s.(nextFrame := id + 1))
      && pushed.frames[..|s.frames|] == s.frames
    ensures PopFrame(EMPTY) == (None, EMPTY)
  {
    var pushed := PushFrame(s, owner, instance).1;
    assert pushed.frames[..|s.frames|] == s.frames;
  }

  /** Frame ids are those of earlier pushes, each used once. */
  ghost predicate FramesDistinct(s: Storage)
  {
    && (forall k :: 0 <= k < |s.frames| ==> s.frames[k].id < s.nextFrame)
    && (forall j, k :: 0 <= j < k < |s.frames| ==> s.frames[j].id != s.frames[k].id)
  }

  /** `frames` with the frame at `k` moved to the top. */
  function Raised(frames: seq<Frame>, k: nat): seq<Frame>
    requires k < |frames|
  {
    frames[..k] + frames[k + 1..] + [frames[k]]
  }

  lemma RaisedAt(frames: seq<Frame>, k: nat, j: nat)
    requires k < |frames| && j < |frames|
    ensures |Raised(frames, k)| == |frames|
    ensures Raised(frames, k)[j] == if j == |frames| - 1 then frames[k] else if j < k then frames[j] else frames[j + 1]
  {
  }

  /** The top frame moved back down to position `k`. */
  function Lowered(frames: seq<Frame>, k: nat): seq<Frame>
    requires k < |frames|
  {
    var top := |frames| - 1;
    frames[..top][..k] + [frames[top]] + frames[..top][k..]
  }

  /** Runs `body` with the given frame on top of the stack; nothing when there is no such frame. */
  function WithFrame(s: Storage, id: nat, body: Storage -> Storage): Option<Storage>
    requires FrameIndex(s.frames, id).Some? ==>
      var k := FrameIndex(s.frames, id).value;
      k + 1 < |s.frames| ==> k < |body(s.(frames := Raised(s.frames, k))).frames|
  {
    match FrameIndex(s.frames, id)
    case None => None
    case Some(k) =>
      if k + 1 == |s.frames| then Some(body(s))
      else
        var after := body(s.(frames := Raised(s.frames, k)));
        Some(after.(frames := Lowered(after.frames, k)))
  }

  /** `body` works on the top frame only: it may replace it, and leaves the frames below alone. */
  ghost predicate TopFrameOnly(body: Storage -> Storage, s: Storage)
  {
    var n := |s.frames|;
    n > 0 && |body(s).frames| == n && body(s).frames[..n - 1] == s.frames[..n - 1]
  }

  /** Lowering the top frame again undoes the raising, up to a change of that frame. */
  lemma LoweredRaised(frames: seq<Frame>, k: nat, after: seq<Frame>)
    requires k < |frames| == |after| && after[..|frames| - 1] == Raised(frames, k)[..|frames| - 1]
    ensures Lowered(after, k) == frames[k := after[|frames| - 1]]
  {
    assert after[..|frames| - 1] == frames[..k] + frames[k + 1..];
  }

  /** When `body` works on the top frame only, every other frame is back in its place afterwards. */
  lemma WithFrameRestores(s: Storage, id: nat, body: Storage -> Storage)
    requires FrameIndex(s.frames, id).Some?
    requires var k := FrameIndex(s.frames, id).value; TopFrameOnly(body, s.(frames := Raised(s.frames, k)))
    ensures WithFrame(s, id, body).Some?
    ensures var k := FrameIndex(s.frames, id).value;
      var ran := body(s.(frames := Raised(s.frames, k)));
      WithFrame(s, id, body).value == ran.(frames := s.frames[k := ran.frames[|s.frames| - 1]])
  {
    var k := FrameIndex(s.frames, id).value;
    var raised := s.(frames := Raised(s.frames, k));
    var frames := body(raised).frames;
    LoweredRaised(s.frames, k, frames);
    if k + 1 == |s.frames| {
      assert raised.frames == s.frames;
      assert Lowered(frames, k) == frames;
      assert body(raised).(frames := Lowered(frames, k)) == body(raised);
    }
  }
}
