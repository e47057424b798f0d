/**
 * Creation of function block, class and program instances (instance.rs): mutually recursive over
 * base types and nested variables, writing into the variable storage as it goes.
 */
module Instances {
  import opened Common
  import opened Values
  import opened StorageModel
  import opened OwnershipForest
  import opened TypeDefinitions
  import opened InstanceShape
  import opened Creation
  import VS = VariableStorage

  // ----- What creation delivers -----

  /**
   * The storage stays an ownership forest that only grew; a created instance is new and not yet
   * owned. This holds of a failed creation as well, whose partial instances stay behind.
   */
  ghost predicate Created(before: Storage, after: Storage, r: Result<nat, RuntimeError>)
  {
    && Forest(after)
    && GrowsAround(before, after, None)
    && (r.Ok? ==> r.value in after.instances && before.nextInstance <= r.value && Unowned(after, r.value))
  }

  /** The ids handed out between two states. */
  function Since(before: Storage, after: Storage): Region
  {
    Region(before.nextInstance, before.nextInstance, after.nextInstance)
  }

  // ----- Creation -----

  method CreateFbInstance(storage: VS.VariableStorage, env: Environment, def: FunctionBlockDef, ghost ranks: Ranks, ghost bound: nat)
    returns (r: Result<nat, RuntimeError>)
    requires Forest(storage.State()) && PlainEnvironment(env) && Acyclic(env, ranks)
    requires FunctionBlockDefBelow(env, ranks, def, bound)
    modifies storage
    ensures Made(r, storage.State()) == MakeFb(env, ranks, old(storage.State()), def, bound)
    ensures Created(old(storage.State()), storage.State(), r)
    ensures r.Ok? ==> FunctionBlockShape(env, ranks, storage.State(), r.value, def, bound, Since(old(storage.State()), storage.State()))
    ensures r.Ok? ==> InitializersTook(env, storage.State(), r.value, def.vars, |def.vars|)
    decreases bound, 3
  {
    ghost var start := storage.State();
    GrowsRefl(start, None);
    var parent: Option<nat> := None;
    if def.base.Some? {
      r := CreateBase(storage, env, def.base.value, ranks, bound);
      if r.Err? {
        return;
      }
      parent := Some(r.value);
    }
    ghost var based := storage.State();
    var id := CreateWithParent(storage, def.name, parent, start);
    ghost var entry := storage.State();
    BuildingStarts(start, entry, id);
    InitParamDefaults(storage, env, id, def.params, start, entry);
    var init := InitVarDefaults(storage, env, id, def.vars, ranks, bound, start, entry);
    if init.Err? {
      return Err(init.error);
    }
    r := Ok(id);
    FunctionBlockAssembled(env, ranks, start, based, entry, storage.State(), id, def, bound, parent);
  }

  /** The base part of a function block: another function block or a class. */
  method CreateBase(storage: VS.VariableStorage, env: Environment, base: Base, ghost ranks: Ranks, ghost bound: nat)
    returns (r: Result<nat, RuntimeError>)
    requires Forest(storage.State()) && PlainEnvironment(env) && Acyclic(env, ranks)
    requires FunctionBlockDefBelow(env, ranks, FunctionBlockDef("", Some(base), [], []), bound)
    modifies storage
    ensures Made(r, storage.State()) == MakeBase(env, ranks, old(storage.State()), base, bound)
    ensures Created(old(storage.State()), storage.State(), r)
    ensures r.Ok? ==> BaseShape(env, ranks, storage.State(), r.value, base, bound, Since(old(storage.State()), storage.State()))
    decreases bound, 1
  {
    GrowsRefl(storage.State(), None);
    match base {
      case FunctionBlockBase(name) =>
        if Key(name) !in env.functionBlocks {
          return Err(TypeMismatch);
        }
        r := CreateFbInstance(storage, env, env.functionBlocks[Key(name)], ranks, ranks.functionBlocks[Key(name)]);
      case ClassBase(name) =>
        if Key(name) !in env.classes {
          return Err(TypeMismatch);
        }
        r := CreateClassInstance(storage, env, env.classes[Key(name)], ranks, ranks.classes[Key(name)]);
    }
  }

  lemma BaseInside(env: Environment, ranks: Ranks, s: Storage, id: nat, base: Base, bound: nat, region: Region)
    requires BaseShape(env, ranks, s, id, base, bound, region)
    ensures Inside(region, id)
  {
    match base
    case FunctionBlockBase(name) =>
      assert FunctionBlockShape(env, ranks, s, id, env.functionBlocks[Key(name)], ranks.functionBlocks[Key(name)], region);
    case ClassBase(name) =>
      assert ClassShape(env, ranks, s, id, env.classes[Key(name)], ranks.classes[Key(name)], region);
  }

  /** The finished instance has the shape of its definition. */
  lemma FunctionBlockAssembled(env: Environment, ranks: Ranks, start: Storage, based: Storage, entry: Storage, s: Storage, id: nat, def: FunctionBlockDef, bound: nat, parent: Option<nat>)
    requires Building(start, entry, s, id) && id == based.nextInstance && id < s.nextInstance
    requires GrowsAround(start, based, None)
    requires entry.instances == based.instances[id := InstanceData(def.name, [], parent)]
    requires def.base.Some? <==> parent.Some?
    requires parent.Some? ==> BaseShape(env, ranks, based, parent.value, def.base.value, bound, Since(start, based))
    requires VarsShape(env, ranks, s, id, def.vars, |def.vars|, bound, After(start, id, s))
    requires ParamsShape(env, s.instances[id].variables, def.params, def.vars)
    requires InitializersTook(env, s, id, def.vars, |def.vars|)
    ensures FunctionBlockShape(env, ranks, s, id, def, bound, Since(start, s))
  {
    hide ParamsShape, InitializersTook;
    BaseUndisturbed(start, based, entry, s, id);
    if parent.Some? {
      BaseInside(env, ranks, based, parent.value, def.base.value, bound, Since(start, based));
      BaseShapeMoves(env, ranks, based, s, parent.value, def.base.value, bound, Since(start, based), Since(start, s));
    }
    InitializersSeen(env, start, entry, s, id, def.vars);
    VarsShapeMoves(env, ranks, s, s, id, def.vars, |def.vars|, bound, After(start, id, s), Since(start, s));
  }

  method CreateClassInstance(storage: VS.VariableStorage, env: Environment, def: ClassDef, ghost ranks: Ranks, ghost bound: nat)
    returns (r: Result<nat, RuntimeError>)
    requires Forest(storage.State()) && PlainEnvironment(env) && Acyclic(env, ranks)
    requires ClassDefBelow(env, ranks, def, bound)
    modifies storage
    ensures Made(r, storage.State()) == MakeClass(env, ranks, old(storage.State()), def, bound)
    ensures Created(old(storage.State()), storage.State(), r)
    ensures r.Ok? ==> ClassShape(env, ranks, storage.State(), r.value, def, bound, Since(old(storage.State()), storage.State()))
    ensures r.Ok? ==> InitializersTook(env, storage.State(), r.value, def.vars, |def.vars|)
    decreases bound, 3
  {
    ghost var start := storage.State();
    GrowsRefl(start, None);
    var parent: Option<nat> := None;
    if def.base.Some? {
      var key := Key(def.base.value);
      if key !in env.classes {
        return Err(TypeMismatch);
      }
      r := CreateClassInstance(storage, env, env.classes[key], ranks, ranks.classes[key]);
      if r.Err? {
        return;
      }
      parent := Some(r.value);
      assert NamedClassShape(env, ranks, storage.State(), parent.value, def.base.value, bound, Since(start, storage.State()));
    }
    ghost var based := storage.State();
    var id := CreateWithParent(storage, def.name, parent, start);
    ghost var entry := storage.State();
    BuildingStarts(start, entry, id);
    var init := InitVarDefaults(storage, env, id, def.vars, ranks, bound, start, entry);
    if init.Err? {
      return Err(init.error);
    }
    r := Ok(id);
    ClassAssembled(env, ranks, start, based, entry, storage.State(), id, def, bound, parent);
  }

  lemma ClassAssembled(env: Environment, ranks: Ranks, start: Storage, based: Storage, entry: Storage, s: Storage, id: nat, def: ClassDef, bound: nat, parent: Option<nat>)
    requires Building(start, entry, s, id) && id == based.nextInstance && id < s.nextInstance
    requires GrowsAround(start, based, None)
    requires entry.instances == based.instances[id := InstanceData(def.name, [], parent)]
    requires def.base.Some? <==> parent.Some?
    requires parent.Some? ==> NamedClassShape(env, ranks, based, parent.value, def.base.value, bound, Since(start, based))
    requires VarsShape(env, ranks, s, id, def.vars, |def.vars|, bound, After(start, id, s))
    requires ParamsShape(env, s.instances[id].variables, [], def.vars)
    requires InitializersTook(env, s, id, def.vars, |def.vars|)
    ensures ClassShape(env, ranks, s, id, def, bound, Since(start, s))
  {
    hide ParamsShape, InitializersTook;
    BaseUndisturbed(start, based, entry, s, id);
    InitializersSeen(env, start, entry, s, id, def.vars);
    if parent.Some? {
      NamedClassShapeMoves(env, ranks, based, s, parent.value, def.base.value, bound, Since(start, based), Since(start, s));
    }
    VarsShapeMoves(env, ranks, s, s, id, def.vars, |def.vars|, bound, After(start, id, s), Since(start, s));
  }

  method CreateProgramInstance(storage: VS.VariableStorage, env: Environment, def: ProgramDef, ghost ranks: Ranks, ghost bound: nat)
    returns (r: Result<nat, RuntimeError>)
    requires Forest(storage.State()) && PlainEnvironment(env) && Acyclic(env, ranks)
    requires VarsBelow(env, ranks, def.vars, bound)
    modifies storage
    ensures Made(r, storage.State()) == MakeProgram(env, ranks, old(storage.State()), def, bound)
    ensures Created(old(storage.State()), storage.State(), r)
    ensures r.Ok? ==>
      && storage.State().instances[r.value].typeName == def.name
      && storage.State().instances[r.value].parent.None?
      && ParamsShape(env, storage.State().instances[r.value].variables, [], def.vars)
      && InitializersTook(env, storage.State(), r.value, def.vars, |def.vars|)
      && VarsShape(env, ranks, storage.State(), r.value, def.vars, |def.vars|, bound, After(old(storage.State()), r.value, storage.State()))
  {
    ghost var start := storage.State();
    GrowsRefl(start, None);
    var id := CreateWithParent(storage, def.name, None, start);
    ghost var entry := storage.State();
    BuildingStarts(start, entry, id);
    var init := InitVarDefaults(storage, env, id, def.vars, ranks, bound, start, entry);
    r := if init.Ok? then Ok(id) else Err(init.error);
  }

  /**
   * Instance `id`, new since `start`, is being filled in: since `entry`, where it got its base,
   * only its variables have changed.
   */
  ghost predicate Building(start: Storage, entry: Storage, s: Storage, id: nat)
  {
    && Forest(s) && GrowsAround(start, s, None) && GrowsAround(entry, s, Some(id))
    && id in entry.instances && id in s.instances && id !in start.instances
    && start.nextInstance <= id && Unowned(s, id)
  }

  /** The ids handed out after `id`, whose creation began at `start`. */
  function After(start: Storage, id: nat, s: Storage): Region
  {
    Region(start.nextInstance, id + 1, s.nextInstance)
  }

  method CreateWithParent(storage: VS.VariableStorage, typeName: string, parent: Option<nat>, ghost start: Storage)
    returns (id: nat)
    requires Forest(storage.State()) && GrowsAround(start, storage.State(), None)
    requires parent.Some? ==>
      && parent.value in storage.State().instances
      && start.nextInstance <= parent.value && Unowned(storage.State(), parent.value)
    modifies storage
    ensures storage.State() == Attached(old(storage.State()), typeName, parent)
    ensures Forest(storage.State()) && GrowsAround(start, storage.State(), None)
    ensures id == old(storage.State()).nextInstance && Unowned(storage.State(), id)
    ensures storage.State().nextInstance == id + 1
    ensures storage.State().instances == old(storage.State()).instances[id := InstanceData(typeName, [], parent)]
  {
    hide Forest, GrowsAround, Unowned;
    ghost var before := storage.State();
    FreshId(start, before);
    NewKeepsForest(before, typeName);
    id := storage.CreateInstance(typeName);
    assert storage.State() == WithNew(before, typeName);
    GrowsTrans(start, before, storage.State(), None);
    if parent.Some? {
      ghost var created := storage.State();
      UnownedStays(before, created, None, parent.value);
      ParentKeepsForest(created, id, parent.value);
      storage.SetParent(id, parent.value);
      AttachGrows(start, created, id, parent.value);
    }
  }

  lemma FreshId(start: Storage, s: Storage)
    requires Forest(s) && GrowsAround(start, s, None)
    ensures s.nextInstance !in s.instances && s.nextInstance !in start.instances
    ensures start.nextInstance <= s.nextInstance
    ensures forall id :: id in s.instances ==> id < s.nextInstance
  {
  }

  lemma AttachGrows(start: Storage, s: Storage, id: nat, parent: nat)
    requires GrowsAround(start, s, None) && id in s.instances && id !in start.instances
    requires start.nextInstance <= parent
    ensures GrowsAround(start, WithParent(s, id, parent), None)
  {
    var after := WithParent(s, id, parent);
    forall link, n | Owns(after, link, n) && !Owns(start, link, n) ensures start.nextInstance <= n {
      if link != BaseLink(id) {
        assert Owns(s, link, n);
      }
    }
  }

  lemma BuildingStarts(start: Storage, entry: Storage, id: nat)
    requires Forest(entry) && GrowsAround(start, entry, None) && Unowned(entry, id)
    requires id in entry.instances && id !in start.instances
    ensures Building(start, entry, entry, id)
  {
    GrowsRefl(entry, Some(id));
  }

  /** The finished instance is itself the one whose creation is described. */
  lemma InitializersSeen(env: Environment, start: Storage, entry: Storage, s: Storage, id: nat, vars: seq<VarDef>)
    requires Building(start, entry, s, id) && id < s.nextInstance && InitializersTook(env, s, id, vars, |vars|)
    requires entry.instances[id].parent.Some? ==> start.nextInstance <= entry.instances[id].parent.value
    ensures InitializersShape(env, s, id, vars, Since(start, s))
  {
    hide InitializersTook;
    if s.instances[id].parent.Some? {
      assert Owns(s, BaseLink(id), s.instances[id].parent.value);
    }
    assert SeenFrom(s, s, id, Since(start, s));
  }

  /** The base part is as it was created. */
  lemma BaseUndisturbed(start: Storage, based: Storage, entry: Storage, s: Storage, id: nat)
    requires Building(start, entry, s, id) && id == based.nextInstance && GrowsAround(start, based, None)
    requires forall i :: i in based.instances && i != id ==> i in entry.instances && entry.instances[i] == based.instances[i]
    ensures Undisturbed(based, s, Since(start, based), Since(start, s))
  {
  }

  /** Assigning a variable of the instance being built. */
  lemma BuildAssign(start: Storage, entry: Storage, s: Storage, id: nat, name: string, value: Value)
    requires Building(start, entry, s, id) && Assignable(entry, s, id, value)
    requires start.nextInstance <= entry.nextInstance
    ensures Building(start, entry, SetInstanceVar(s, id, name, value).1, id)
  {
    hide Forest, GrowsAround, Unowned, Insert;
    AssignKeepsForest(s, id, name, value);
    AssignGrows(entry, s, id, name, value);
    AssignGrowsNew(start, s, id, name, value);
  }

  /** A value without instances, or an instance created since `entry` that nothing owns yet. */
  ghost predicate Assignable(entry: Storage, s: Storage, id: nat, value: Value)
  {
    Plain(value) ||
    (value.Instance? && value.id in s.instances && entry.nextInstance <= value.id && id < value.id && Unowned(s, value.id))
  }

  lemma {:induction false} AssignGrowsNew(start: Storage, s: Storage, id: nat, name: string, value: Value)
    requires GrowsAround(start, s, None) && id in s.instances && id !in start.instances
    requires Plain(value) || (value.Instance? && start.nextInstance <= value.id)
    ensures GrowsAround(start, SetInstanceVar(s, id, name, value).1, None)
  {
    hide Insert;
    var after := SetInstanceVar(s, id, name, value).1;
    forall link, n | Owns(after, link, n) && !Owns(start, link, n) ensures start.nextInstance <= n {
      AssignLinks(s, id, name, value, link, n);
    }
  }

  /** Creating a nested instance leaves the one being built as it is. */
  lemma BuildNested(start: Storage, entry: Storage, before: Storage, after: Storage, id: nat, nested: Result<nat, RuntimeError>)
    requires Building(start, entry, before, id) && Created(before, after, nested)
    ensures Building(start, entry, after, id)
    ensures nested.Ok? ==> id < nested.value && entry.nextInstance <= nested.value
    ensures after.instances[id] == before.instances[id]
    ensures Undisturbed(before, after, After(start, id, before), After(start, id, after))
  {
    GrowsTrans(start, before, after, None);
    GrowsAnywhere(before, after, Some(id));
    GrowsTrans(entry, before, after, Some(id));
    UnownedStays(before, after, None, id);
  }

  method InitParamDefaults(storage: VS.VariableStorage, env: Environment, id: nat, params: seq<Param>, ghost start: Storage, ghost entry: Storage)
    requires Building(start, entry, storage.State(), id) && start.nextInstance <= entry.nextInstance && PlainEnvironment(env)
    requires storage.State().instances[id].variables == []
    modifies storage
    ensures storage.State() == WithParams(env, old(storage.State()), id, params)
    ensures Building(start, entry, storage.State(), id)
    ensures forall name :: GetInstanceVar(storage.State(), id, name) == ParamDefault(env, params, name)
  {
    hide Forest, GrowsAround, Unowned, Insert, Plain;
    ghost var before := storage.State();
    var i := 0;
    while i < |params|
      invariant 0 <= i <= |params|
      invariant Building(start, entry, storage.State(), id)
      invariant WithParams(env, before, id, params) == WithParams(env, storage.State(), id, params[i..])
      invariant forall name :: GetInstanceVar(storage.State(), id, name) == ParamDefault(env, params[..i], name)
    {
      assert params[i..][1..] == params[i + 1..];
      var value := DefaultValue(env, params[i].typeId);
      DefaultPlain(env, params[i].typeId);
      BuildAssign(start, entry, storage.State(), id, params[i].name, value);
      forall name {
        InsertGet(storage.State().instances[id].variables, params[i].name, value, name);
      }
      assert params[..i + 1][..i] == params[..i];
      var _ := storage.SetInstanceVar(id, params[i].name, value);
      i := i + 1;
    }
    assert params[..i] == params;
  }

  /** The variables that creation passes over are as they were. */
  ghost predicate OthersKept(env: Environment, before: Storage, after: Storage, id: nat, vars: seq<VarDef>)
  {
    forall name :: !Assigned(env, vars, name) ==> GetInstanceVar(after, id, name) == GetInstanceVar(before, id, name)
  }

  lemma AssignKeepsOthers(env: Environment, start: Storage, before: Storage, id: nat, vars: seq<VarDef>, i: nat, value: Value)
    requires i < |vars| && id in before.instances && OthersKept(env, start, before, id, vars)
    requires !(DataTyped(env, vars[i]) && vars[i].external)
    ensures OthersKept(env, start, SetInstanceVar(before, id, vars[i].name, value).1, id, vars)
  {
    hide Insert, Get;
    forall name | !Assigned(env, vars, name)
      ensures GetInstanceVar(SetInstanceVar(before, id, vars[i].name, value).1, id, name) == GetInstanceVar(before, id, name)
    {
      InsertGet(before.instances[id].variables, vars[i].name, value, name);
    }
  }

  /** Extending the shape of the first variables by one more, which was assigned last. */
  lemma VarsShapeExtends(env: Environment, ranks: Ranks, before: Storage, id: nat, vars: seq<VarDef>, i: nat, value: Value, bound: nat, region: Region)
    requires i < |vars| && id in before.instances && region.floor <= id < region.lo
    requires VarsShape(env, ranks, before, id, vars, i, bound, region)
    requires var after := SetInstanceVar(before, id, vars[i].name, value).1;
      DistinctNames(vars) ==> VarShape(env, ranks, after, id, vars[i], bound, region)
    ensures VarsShape(env, ranks, SetInstanceVar(before, id, vars[i].name, value).1, id, vars, i + 1, bound, region)
  {
    var after := SetInstanceVar(before, id, vars[i].name, value).1;
    if DistinctNames(vars) {
      forall k | 0 <= k < i ensures VarShape(env, ranks, after, id, vars[k], bound, region) {
        InsertGet(before.instances[id].variables, vars[i].name, value, vars[k].name);
        VarShapeMoves(env, ranks, before, after, id, vars[k], bound, region, region);
      }
    }
  }

  /** The value just assigned is the one held. */
  lemma AssignedHeld(s: Storage, id: nat, name: string, value: Value)
    requires id in s.instances
    ensures GetInstanceVar(SetInstanceVar(s, id, name, value).1, id, name) == Some(value)
  {
    InsertGet(s.instances[id].variables, name, value, name);
  }

  method InitVarDefaults(storage: VS.VariableStorage, env: Environment, id: nat, vars: seq<VarDef>, ghost ranks: Ranks, ghost bound: nat, ghost start: Storage, ghost entry: Storage)
    returns (r: Result<(), RuntimeError>)
    requires Building(start, entry, storage.State(), id) && start.nextInstance <= entry.nextInstance
    requires PlainEnvironment(env) && Acyclic(env, ranks) && VarsBelow(env, ranks, vars, bound)
    modifies storage
    ensures Progress(storage.State(), ErrorOf(r)) == Fill(env, ranks, old(storage.State()), id, vars, bound)
    ensures Building(start, entry, storage.State(), id)
    ensures r.Ok? ==> VarsShape(env, ranks, storage.State(), id, vars, |vars|, bound, After(start, id, storage.State()))
    ensures r.Ok? ==> InitializersTook(env, storage.State(), id, vars, |vars|)
    ensures r.Ok? ==> OthersKept(env, old(storage.State()), storage.State(), id, vars)
    decreases bound, 2
  {
    hide InitializersTook, DefaultsHeld, VarsShape, OthersKept, Forest, GrowsAround, Unowned, VarBelow, Acyclic;
    ghost var before := storage.State();
    DefaultsStart(env, before, id, vars);
    VarsShapeStart(env, ranks, before, id, vars, bound, After(start, id, before));
    assert vars[0..] == vars;
    var i := 0;
    while i < |vars|
      invariant 0 <= i <= |vars|
      invariant Building(start, entry, storage.State(), id)
      invariant OthersKept(env, before, storage.State(), id, vars)
      invariant VarsBelow(env, ranks, vars[i..], bound)
      invariant FirstValues(env, ranks, before, id, vars, bound) == FirstValues(env, ranks, storage.State(), id, vars[i..], bound)
      invariant DefaultsHeld(env, storage.State(), id, vars, 0, i)
      invariant VarsShape(env, ranks, storage.State(), id, vars, i, bound, After(start, id, storage.State()))
    {
      ghost var step := storage.State();
      assert vars[i..][0] == vars[i] && vars[i..][1..] == vars[i + 1..];
      r := InitVarDefault(storage, env, id, vars, i, ranks, bound, start, entry);
      if r.Err? {
        return;
      }
      OthersKeptTrans(env, before, step, storage.State(), id, vars);
      i := i + 1;
    }
    ghost var filled := storage.State();
    assert FirstValues(env, ranks, before, id, vars, bound) == Progress(filled, None);
    r := RunInitializers(storage, env, id, vars, ranks, bound, start, entry);
    if r.Ok? {
      OthersKeptTrans(env, before, filled, storage.State(), id, vars);
    }
  }

  lemma OthersKeptTrans(env: Environment, a: Storage, b: Storage, c: Storage, id: nat, vars: seq<VarDef>)
    requires OthersKept(env, a, b, id, vars) && OthersKept(env, b, c, id, vars)
    ensures OthersKept(env, a, c, id, vars)
  {
  }

  lemma VarsShapeStart(env: Environment, ranks: Ranks, s: Storage, id: nat, vars: seq<VarDef>, bound: nat, region: Region)
    ensures VarsShape(env, ranks, s, id, vars, 0, bound, region)
  {
  }

  method InitVarDefault(storage: VS.VariableStorage, env: Environment, id: nat, vars: seq<VarDef>, i: nat, ghost ranks: Ranks, ghost bound: nat, ghost start: Storage, ghost entry: Storage)
    returns (r: Result<(), RuntimeError>)
    requires Building(start, entry, storage.State(), id) && start.nextInstance <= entry.nextInstance
    requires PlainEnvironment(env) && Acyclic(env, ranks) && VarsBelow(env, ranks, vars, bound)
    requires i < |vars| && VarsShape(env, ranks, storage.State(), id, vars, i, bound, After(start, id, storage.State()))
    modifies storage
    ensures Progress(storage.State(), ErrorOf(r)) == FirstValue(env, ranks, old(storage.State()), id, vars[i], bound)
    ensures Building(start, entry, storage.State(), id)
    ensures r.Ok? ==> VarsShape(env, ranks, storage.State(), id, vars, i + 1, bound, After(start, id, storage.State()))
    requires DefaultsHeld(env, storage.State(), id, vars, 0, i)
    ensures r.Ok? ==> OthersKept(env, old(storage.State()), storage.State(), id, vars)
    ensures r.Ok? ==> DefaultsHeld(env, storage.State(), id, vars, 0, i + 1)
    decreases bound, 1
  {
    hide Forest, GrowsAround, Unowned, VarsShape, VarShape, FitsType, DefaultsHeld;
    var v := vars[i];
    ghost var before := storage.State();
    var value := InitialValue(storage, env, id, v, ranks, bound, start, entry);
    if value.Err? {
      return Err(value.error);
    }
    VarsShapeMoves(env, ranks, before, storage.State(), id, vars, i, bound, After(start, id, before), After(start, id, storage.State()));
    r := Ok(());
    DefaultsSame(env, before, storage.State(), id, vars, i);
    if value.value.None? {
      DefaultsPassedOver(env, storage.State(), id, vars, i);
      ExternalShape(env, ranks, storage.State(), id, vars, i, bound, After(start, id, storage.State()));
      return;
    }
    ghost var held := storage.State();
    BuildAssign(start, entry, held, id, v.name, value.value.value);
    AssignedHeld(held, id, v.name, value.value.value);
    AssignKeepsOthers(env, before, held, id, vars, i, value.value.value);
    DefaultsExtend(env, ranks, held, id, vars, i, value.value.value, bound, After(start, id, held));
    InitialShape(env, ranks, start, held, id, v, value.value.value, bound);
    VarsShapeExtends(env, ranks, held, id, vars, i, value.value.value, bound, After(start, id, held));
    var _ := storage.SetInstanceVar(id, v.name, value.value.value);
  }

  /** The value is what the type of the variable calls for. */
  ghost predicate FitsType(env: Environment, ranks: Ranks, s: Storage, v: VarDef, value: Value, bound: nat, region: Region)
  {
    match TypeOf(env, v.typeId)
    case Some(FunctionBlockType(name)) => value.Instance? && NamedFunctionBlockShape(env, ranks, s, value.id, name, bound, region)
    case Some(ClassType(name)) => value.Instance? && NamedClassShape(env, ranks, s, value.id, name, bound, region)
    case _ => value == DefaultValue(env, v.typeId)
  }

  lemma InitialShape(env: Environment, ranks: Ranks, start: Storage, s: Storage, id: nat, v: VarDef, value: Value, bound: nat)
    requires start.nextInstance <= id && id in s.instances && FitsType(env, ranks, s, v, value, bound, After(start, id, s))
    requires GetInstanceVar(SetInstanceVar(s, id, v.name, value).1, id, v.name) == Some(value)
    ensures VarShape(env, ranks, SetInstanceVar(s, id, v.name, value).1, id, v, bound, After(start, id, s))
  {
    var after := SetInstanceVar(s, id, v.name, value).1;
    match TypeOf(env, v.typeId)
    case Some(FunctionBlockType(name)) =>
      NamedFunctionBlockShapeMoves(env, ranks, s, after, value.id, name, bound, After(start, id, s), After(start, id, s));
    case Some(ClassType(name)) =>
      NamedClassShapeMoves(env, ranks, s, after, value.id, name, bound, After(start, id, s), After(start, id, s));
    case _ =>
  }

  /** The first value of a variable; none for an external one. Nested instances are created here. */
  method InitialValue(storage: VS.VariableStorage, env: Environment, id: nat, v: VarDef, ghost ranks: Ranks, ghost bound: nat, ghost start: Storage, ghost entry: Storage)
    returns (r: Result<Option<Value>, RuntimeError>)
    requires Building(start, entry, storage.State(), id) && start.nextInstance <= entry.nextInstance
    requires PlainEnvironment(env) && Acyclic(env, ranks) && VarBelow(env, ranks, v, bound)
    modifies storage
    ensures Valued(r, storage.State()) == ValueFor(env, ranks, old(storage.State()), v, bound)
    ensures Building(start, entry, storage.State(), id)
    ensures storage.State().instances[id] == old(storage.State()).instances[id]
    ensures Undisturbed(old(storage.State()), storage.State(), After(start, id, old(storage.State())), After(start, id, storage.State()))
    ensures r.Ok? && r.value.Some? ==> FitsType(env, ranks, storage.State(), v, r.value.value, bound, After(start, id, storage.State()))
    ensures r.Ok? && r.value.Some? ==> Assignable(entry, storage.State(), id, r.value.value)
    ensures r.Ok? ==>
      (r.value.None? <==> v.external && FunctionBlockTypeName(env, v.typeId).None? && ClassTypeName(env, v.typeId).None?)
    decreases bound, 0
  {
    ghost var before := storage.State();
    var fbName := FunctionBlockTypeName(env, v.typeId);
    var className := ClassTypeName(env, v.typeId);
    if fbName.Some? {
      var key := Key(fbName.value);
      if key !in env.functionBlocks {
        return Err(UndefinedFunctionBlock(fbName.value));
      }
      var nested := CreateFbInstance(storage, env, env.functionBlocks[key], ranks, ranks.functionBlocks[key]);
      BuildNested(start, entry, before, storage.State(), id, nested);
      if nested.Err? {
        return Err(nested.error);
      }
      NamedFunctionBlockShapeMoves(env, ranks, storage.State(), storage.State(), nested.value, fbName.value, bound,
        Since(before, storage.State()), After(start, id, storage.State()));
      r := Ok(Some(Instance(nested.value)));
    } else if className.Some? {
      var key := Key(className.value);
      if key !in env.classes {
        return Err(TypeMismatch);
      }
      var nested := CreateClassInstance(storage, env, env.classes[key], ranks, ranks.classes[key]);
      BuildNested(start, entry, before, storage.State(), id, nested);
      if nested.Err? {
        return Err(nested.error);
      }
      NamedClassShapeMoves(env, ranks, storage.State(), storage.State(), nested.value, className.value, bound,
        Since(before, storage.State()), After(start, id, storage.State()));
      r := Ok(Some(Instance(nested.value)));
    } else if v.external {
      r := Ok(None);
    } else {
      DefaultPlain(env, v.typeId);
      r := Ok(Some(DefaultValue(env, v.typeId)));
    }
  }

  /** Nothing is held for an external variable. */
  lemma ExternalShape(env: Environment, ranks: Ranks, s: Storage, id: nat, vars: seq<VarDef>, i: nat, bound: nat, region: Region)
    requires i < |vars| && vars[i].external && VarsShape(env, ranks, s, id, vars, i, bound, region)
    requires FunctionBlockTypeName(env, vars[i].typeId).None? && ClassTypeName(env, vars[i].typeId).None?
    ensures VarsShape(env, ranks, s, id, vars, i + 1, bound, region)
  {
  }

  /** Overwriting a data variable that has an initializer keeps the shape. */
  lemma InitializerKeepsShape(env: Environment, ranks: Ranks, s: Storage, id: nat, vars: seq<VarDef>, i: nat, value: Value, bound: nat, region: Region)
    requires i < |vars| && id in s.instances && region.floor <= id < region.lo && VarsShape(env, ranks, s, id, vars, |vars|, bound, region)
    requires FunctionBlockTypeName(env, vars[i].typeId).None? && ClassTypeName(env, vars[i].typeId).None?
    requires vars[i].initializer.Some?
    ensures VarsShape(env, ranks, SetInstanceVar(s, id, vars[i].name, value).1, id, vars, |vars|, bound, region)
  {
    var after := SetInstanceVar(s, id, vars[i].name, value).1;
    if DistinctNames(vars) {
      forall k | 0 <= k < |vars| ensures VarShape(env, ranks, after, id, vars[k], bound, region) {
        InsertGet(s.instances[id].variables, vars[i].name, value, vars[k].name);
        if k != i {
          VarShapeMoves(env, ranks, s, after, id, vars[k], bound, region, region);
        }
      }
    }
  }

  lemma DefaultsStart(env: Environment, s: Storage, id: nat, vars: seq<VarDef>)
    requires id in s.instances
    ensures DefaultsHeld(env, s, id, vars, 0, 0) && InitializersTook(env, s, id, vars, 0)
    ensures OthersKept(env, s, s, id, vars)
  {
  }

  /** Defaults stay held as long as the instance's variables stay. */
  lemma DefaultsSame(env: Environment, before: Storage, after: Storage, id: nat, vars: seq<VarDef>, n: nat)
    requires n <= |vars| && DefaultsHeld(env, before, id, vars, 0, n)
    requires id in before.instances && id in after.instances && after.instances[id] == before.instances[id]
    ensures DefaultsHeld(env, after, id, vars, 0, n)
  {
  }

  lemma DefaultsPassedOver(env: Environment, s: Storage, id: nat, vars: seq<VarDef>, i: nat)
    requires i < |vars| && DefaultsHeld(env, s, id, vars, 0, i) && vars[i].external
    ensures DefaultsHeld(env, s, id, vars, 0, i + 1)
  {
  }

  /** One more variable has got its first value. */
  lemma DefaultsExtend(env: Environment, ranks: Ranks, s: Storage, id: nat, vars: seq<VarDef>, i: nat, value: Value, bound: nat, region: Region)
    requires i < |vars| && id in s.instances && DefaultsHeld(env, s, id, vars, 0, i)
    requires FitsType(env, ranks, s, vars[i], value, bound, region)
    ensures DefaultsHeld(env, SetInstanceVar(s, id, vars[i].name, value).1, id, vars, 0, i + 1)
  {
    hide Insert, Get;
    forall j | 0 <= j <= i && DistinctNames(vars) && Initialized(env, vars[j])
      ensures GetInstanceVar(SetInstanceVar(s, id, vars[i].name, value).1, id, vars[j].name) == Some(DefaultValue(env, vars[j].typeId))
    {
      InsertGet(s.instances[id].variables, vars[i].name, value, vars[j].name);
    }
  }

  method RunInitializers(storage: VS.VariableStorage, env: Environment, id: nat, vars: seq<VarDef>, ghost ranks: Ranks, ghost bound: nat, ghost start: Storage, ghost entry: Storage)
    returns (r: Result<(), RuntimeError>)
    requires Building(start, entry, storage.State(), id) && start.nextInstance <= entry.nextInstance && PlainEnvironment(env)
    requires VarsShape(env, ranks, storage.State(), id, vars, |vars|, bound, After(start, id, storage.State()))
    requires DefaultsHeld(env, storage.State(), id, vars, 0, |vars|)
    modifies storage
    ensures Progress(storage.State(), ErrorOf(r)) == Initializers(env, old(storage.State()), id, vars)
    ensures Building(start, entry, storage.State(), id)
    ensures r.Ok? ==> VarsShape(env, ranks, storage.State(), id, vars, |vars|, bound, After(start, id, storage.State()))
    ensures r.Ok? ==> InitializersTook(env, storage.State(), id, vars, |vars|)
    ensures r.Ok? ==> OthersKept(env, old(storage.State()), storage.State(), id, vars)
    ensures r.Ok? ==> forall v :: v in vars && v.initializer.Some? ==> DataTyped(env, v)
  {
    hide Forest, GrowsAround, Unowned, Insert, Plain, VarsShape, InitializersTook, DefaultsHeld, OthersKept;
    ghost var before := storage.State();
    DefaultsStart(env, before, id, vars);
    var i := 0;
    while i < |vars|
      invariant 0 <= i <= |vars|
      invariant Building(start, entry, storage.State(), id)
      invariant InitializersTook(env, storage.State(), id, vars, i) && DefaultsHeld(env, storage.State(), id, vars, i, |vars|)
      invariant OthersKept(env, before, storage.State(), id, vars)
      invariant VarsShape(env, ranks, storage.State(), id, vars, |vars|, bound, After(start, id, storage.State()))
      invariant forall k :: 0 <= k < i && vars[k].initializer.Some? ==> DataTyped(env, vars[k])
      invariant Initializers(env, before, id, vars) == Initializers(env, storage.State(), id, vars[i..])
    {
      var v := vars[i];
      assert vars[i..][1..] == vars[i + 1..];
      if !Initialized(env, v) {
        InitializerPassedOver(env, storage.State(), id, vars, i);
      }
      if FunctionBlockTypeName(env, v.typeId).Some? || ClassTypeName(env, v.typeId).Some? {
        if v.initializer.Some? {
          return Err(TypeMismatch);
        }
      } else if v.initializer.Some? && !v.external {
        var snapshot := Storage(storage.globals, storage.frames, storage.instances, storage.retain, storage.nextFrameId, storage.nextInstanceId);
        var value := env.eval(snapshot, id, v.initializer.value);
        if value.Err? {
          return Err(value.error);
        }
        BuildAssign(start, entry, storage.State(), id, v.name, value.value);
        InitializerKeepsShape(env, ranks, storage.State(), id, vars, i, value.value, bound, After(start, id, storage.State()));
        InitializersExtend(env, storage.State(), id, vars, i, value.value);
        AssignKeepsOthers(env, before, storage.State(), id, vars, i, value.value);
        var _ := storage.SetInstanceVar(id, v.name, value.value);
      }
      i := i + 1;
    }
    r := Ok(());
  }
}
