/** The mutable variable storage (memory.rs), each method against its specification in `StorageModel`. */
module VariableStorage {
  import opened Common
  import opened Values
  import opened StorageModel
  import Model = StorageModel

  class VariableStorage {
    var globals: seq<Slot>
    var frames: seq<Frame>
    var instances: map<nat, InstanceData>
    var retain: seq<Slot>
    var nextFrameId: nat
    var nextInstanceId: nat

    constructor ()
      ensures State() == EMPTY
    {
      globals, frames, instances, retain, nextFrameId, nextInstanceId := [], [], map[], [], 0, 0;
    }

    ghost function State(): Storage
      reads this
    {
      Storage(globals, frames, instances, retain, nextFrameId, nextInstanceId)
    }

    method SetGlobal(name: string, value: Value)
      modifies this`globals
      ensures State() == Model.SetGlobal(old(State()), name, value)
    {
      globals := Insert(globals, name, value);
    }

    method SetInstanceVar(id: nat, name: string, value: Value) returns (ok: bool)
      modifies this`instances
      ensures (ok, State()) == Model.SetInstanceVar(old(State()), id, name, value)
    {
      if id !in instances {
        return false;
      }
      var data := instances[id];
      instances := instances[id := data.(variables := Insert(data.variables, name, value))];
      ok := true;
    }

    /** A fresh instance without variables or parent; its id is not used again. */
    method CreateInstance(typeName: string) returns (id: nat)
      modifies this`instances, this`nextInstanceId
      ensures id == old(nextInstanceId)
      ensures State() == old(State()).(
        instances := old(instances)[id := InstanceData(typeName, [], None)], nextInstance := id + 1)
    {
      id := nextInstanceId;
      nextInstanceId := nextInstanceId + 1;
      instances := instances[id := InstanceData(typeName, [], None)];
    }

    method SetParent(id: nat, parent: nat)
      modifies this`instances
      ensures State() == if id in old(instances)
        then old(State()).(instances := old(instances)[id := old(instances)[id].(parent := Some(parent))])
        else old(State())
    {
      if id in instances {
        instances := instances[id := instances[id].(parent := Some(parent))];
      }
    }

    method GetInstanceVarRecursive(id: nat, name: string) returns (r: Option<Value>)
      requires ParentsBelow(State())
      ensures r == Model.GetInstanceVarRecursive(State(), id, name)
    {
      var current := Some(id);
      while current.Some?
        invariant Model.GetInstanceVarRecursive(State(), id, name) ==
          if current.Some? then Model.GetInstanceVarRecursive(State(), current.value, name) else None
        decreases if current.Some? then current.value + 1 else 0
      {
        var instance := current.value;
        if instance in instances {
          r := Get(instances[instance].variables, name);
          if r.Some? {
            return;
          }
          current := instances[instance].parent;
        } else {
          current := None;
        }
      }
      r := None;
    }

    method RefForInstanceRecursive(id: nat, name: string) returns (r: Option<ValueRef>)
      requires ParentsBelow(State())
      ensures r == Model.RefForInstanceRecursive(State(), id, name)
      ensures r.Some? ==> Model.ReadByRef(State(), r.value) == Model.GetInstanceVarRecursive(State(), id, name)
    {
      RecursiveLookupsAgree(State(), id, name);
      var current := Some(id);
      while current.Some?
        invariant Model.RefForInstanceRecursive(State(), id, name) ==
          if current.Some? then Model.RefForInstanceRecursive(State(), current.value, name) else None
        decreases if current.Some? then current.value + 1 else 0
      {
        var instance := current.value;
        if instance in instances {
          var offset := IndexOf(instances[instance].variables, name);
          if offset.Some? {
            return Some(ValueRef(OfInstance(instance), offset.value, []));
          }
          current := instances[instance].parent;
        } else {
          current := None;
        }
      }
      r := None;
    }

    method ReadByRef(ref: ValueRef) returns (r: Option<Value>)
      ensures r == Model.ReadByRef(State(), ref)
    {
      match ref.location {
        case Global =>
          r := if ref.offset < |globals| then ReadPath(globals[ref.offset].value, ref.path) else None;
        case Local(id) =>
          var k := FrameIndex(frames, id);
          r := if k.Some? && ref.offset < |frames[k.value].variables|
            then ReadPath(frames[k.value].variables[ref.offset].value, ref.path) else None;
        case OfInstance(id) =>
          r := if id in instances && ref.offset < |instances[id].variables|
            then ReadPath(instances[id].variables[ref.offset].value, ref.path) else None;
        case Io(_) =>
          r := None;
        case Retain =>
          r := None;
      }
    }

    method WriteByRef(ref: ValueRef, value: Value) returns (ok: bool)
      modifies this
      ensures (ok, State()) == Model.WriteByRef(old(State()), ref, value)
      ensures ok <==> Model.ReadByRef(old(State()), ref).Some?
      ensures ok ==> Model.ReadByRef(State(), ref) == Some(value)
      ensures !ok ==> State() == old(State())
      ensures forall q :: Apart(ref, q) ==> Model.ReadByRef(State(), q) == Model.ReadByRef(old(State()), q)
    {
      RefWriteWhereReadable(State(), ref, value);
      if Model.ReadByRef(State(), ref).Some? {
        RefPutGet(State(), ref, value);
      }
      forall q | Apart(ref, q)
        ensures Model.ReadByRef(Model.WriteByRef(State(), ref, value).1, q) == Model.ReadByRef(State(), q)
      {
        RefApart(State(), ref, q, value);
      }
      match ref.location {
        case Global =>
          if ref.offset >= |globals| {
            return false;
          }
          var written := WritePath(globals[ref.offset].value, ref.path, value);
          globals := globals[ref.offset := Slot(globals[ref.offset].name, written.1)];
          ok := written.0;
        case Local(id) =>
          var k := FrameIndex(frames, id);
          if k.None? || ref.offset >= |frames[k.value].variables| {
            return false;
          }
          var slots := frames[k.value].variables;
          var written := WritePath(slots[ref.offset].value, ref.path, value);
          frames := frames[k.value := frames[k.value].(variables := slots[ref.offset := Slot(slots[ref.offset].name, written.1)])];
          ok := written.0;
        case OfInstance(id) =>
          if id !in instances || ref.offset >= |instances[id].variables| {
            return false;
          }
          var slots := instances[id].variables;
          var written := WritePath(slots[ref.offset].value, ref.path, value);
          instances := instances[id := instances[id].(variables := slots[ref.offset := Slot(slots[ref.offset].name, written.1)])];
          ok := written.0;
        case Io(_) =>
          ok := false;
        case Retain =>
          ok := false;
      }
    }

    method PushFrame(owner: string, instance: Option<nat>) returns (id: nat)
      modifies this`frames, this`nextFrameId
      ensures (id, State()) == Model.PushFrame(old(State()), owner, instance)
      ensures old(FramesDistinct(State())) ==> FramesDistinct(State())
    {
      id := nextFrameId;
      nextFrameId := nextFrameId + 1;
      frames := frames + [Frame(id, owner, [], None, instance)];
    }

    method PopFrame() returns (frame: Option<Frame>)
      modifies this`frames
      ensures (frame, State()) == Model.PopFrame(old(State()))
      ensures old(FramesDistinct(State())) ==> FramesDistinct(State())
    {
      if |frames| == 0 {
        return None;
      }
      frame := Some(frames[|frames| - 1]);
      frames := frames[..|frames| - 1];
    }

    /** First half of `with_frame`: the frame goes to the top; its old position, if there is one. */
    method RaiseFrame(id: nat) returns (position: Option<nat>)
      modifies this`frames
      ensures position == FrameIndex(old(frames), id)
      ensures frames == if position.Some? then Raised(old(frames), position.value) else old(frames)
    {
      position := FrameIndex(frames, id);
      if position.Some? {
        var k := position.value;
        if k + 1 < |frames| {
          var frame := frames[k];
          frames := frames[..k] + frames[k + 1..];
          frames := frames + [frame];
        } else {
          assert Raised(frames, k) == frames;
        }
      }
    }

    /** Second half: the top frame goes back to that position. */
    method LowerFrame(k: nat)
      requires k < |frames|
      modifies this`frames
      ensures frames == Lowered(old(frames), k)
    {
      if k + 1 < |frames| {
        var top := |frames| - 1;
        var frame := frames[top];
        frames := frames[..top];
        frames := frames[..k] + [frame] + frames[k..];
      } else {
        assert Lowered(frames, k) == frames;
      }
    }
  }
}
