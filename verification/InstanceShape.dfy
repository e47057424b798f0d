/**
 * What a created instance looks like: it carries the name of its definition, its parent is an
 * instance of the base, each variable of function block or class type holds an instance of that
 * type, all the way down, its parameters hold their defaults, and each initialised variable holds
 * what its initializer gave.
 */
module InstanceShape {
  import opened Common
  import opened Values
  import opened StorageModel
  import opened TypeDefinitions

  /**
   * The ids from `lo` up to `hi`, where the parts of an instance are; the instances below `floor`
   * were there before its creation, and are not touched by it.
   */
  datatype Region = Region(floor: nat, lo: nat, hi: nat)

  predicate Inside(region: Region, id: nat)
  {
    region.lo <= id < region.hi
  }

  predicate DistinctNames(vars: seq<VarDef>)
  {
    forall i, j :: 0 <= i < j < |vars| ==> vars[i].name != vars[j].name
  }

  // ----- The variables of one instance -----

  /** Creation gives a variable of that name a value; external data variables are passed over. */
  ghost predicate Assigned(env: Environment, vars: seq<VarDef>, name: string)
  {
    exists k :: 0 <= k < |vars| && vars[k].name == name && !(DataTyped(env, vars[k]) && vars[k].external)
  }

  /** The default of the last parameter of a name. */
  function ParamDefault(env: Environment, params: seq<Param>, name: string): Option<Value>
  {
    if params == [] then None
    else if params[|params| - 1].name == name then Some(DefaultValue(env, params[|params| - 1].typeId))
    else ParamDefault(env, params[..|params| - 1], name)
  }

  /** Beside the assigned variables an instance holds its parameters with their defaults, and nothing else. */
  ghost predicate ParamsShape(env: Environment, slots: seq<Slot>, params: seq<Param>, vars: seq<VarDef>)
  {
    forall name :: !Assigned(env, vars, name) ==> Get(slots, name) == ParamDefault(env, params, name)
  }

  /** The last of the variables `k` up to `n` of that name whose initializer is evaluated. */
  function Pending(env: Environment, vars: seq<VarDef>, k: nat, n: nat, name: string): Option<VarDef>
    requires n <= |vars|
  {
    if n <= k then None
    else if Initialized(env, vars[n - 1]) && vars[n - 1].name == name then Some(vars[n - 1])
    else Pending(env, vars, k, n - 1, name)
  }

  /**
   * `at` is the storage in which initializer `k` is evaluated, seen from `s`, in which those up
   * to `n` have been: it is `s` except that the variables whose initializers come later, and the
   * variable itself, still hold the defaults of their types.
   */
  ghost predicate StageOf(env: Environment, at: Storage, s: Storage, id: nat, vars: seq<VarDef>, k: nat, n: nat)
    requires n <= |vars|
  {
    && id in s.instances && id in at.instances
    && at == s.(instances := s.instances[id := s.instances[id].(variables := at.instances[id].variables)])
    && |at.instances[id].variables| == |s.instances[id].variables|
    && KeepsSlots(at.instances[id].variables, s.instances[id].variables)
    && forall name :: Get(at.instances[id].variables, name) ==
         match Pending(env, vars, k, n, name)
         case Some(v) => Some(DefaultValue(env, v.typeId))
         case None => Get(s.instances[id].variables, name)
  }

  /** Variable `k` holds what its initializer gave at its stage. */
  ghost predicate Took(env: Environment, at: Storage, s: Storage, id: nat, vars: seq<VarDef>, k: nat, n: nat)
    requires n <= |vars| && k < |vars| && vars[k].initializer.Some?
  {
    && StageOf(env, at, s, id, vars, k, n)
    && env.eval(at, id, vars[k].initializer.value).Ok?
    && GetInstanceVar(s, id, vars[k].name) == Some(env.eval(at, id, vars[k].initializer.value).value)
  }

  ghost predicate TookEffect(env: Environment, s: Storage, id: nat, vars: seq<VarDef>, k: nat, n: nat)
    requires n <= |vars| && k < |vars| && vars[k].initializer.Some?
  {
    exists at :: Took(env, at, s, id, vars, k, n)
  }

  /** The first `n` initializers have taken effect, in order, unless two variables share a name. */
  ghost predicate InitializersTook(env: Environment, s: Storage, id: nat, vars: seq<VarDef>, n: nat)
    requires n <= |vars|
  {
    DistinctNames(vars) ==> forall k :: 0 <= k < n && Initialized(env, vars[k]) ==> TookEffect(env, s, id, vars, k, n)
  }

  /** The variables from `i` on whose initializers are to be evaluated hold their defaults. */
  ghost predicate DefaultsHeld(env: Environment, s: Storage, id: nat, vars: seq<VarDef>, i: nat, n: nat)
    requires n <= |vars|
  {
    DistinctNames(vars) ==> forall j :: i <= j < n && Initialized(env, vars[j]) ==>
      GetInstanceVar(s, id, vars[j].name) == Some(DefaultValue(env, vars[j].typeId))
  }

  lemma {:induction false} PendingNamed(env: Environment, vars: seq<VarDef>, k: nat, n: nat, name: string)
    requires n <= |vars| && DistinctNames(vars)
    requires exists j :: n <= j < |vars| && vars[j].name == name
    ensures Pending(env, vars, k, n, name).None?
  {
    if n > k {
      var j :| n <= j < |vars| && vars[j].name == name;
      PendingNamed(env, vars, k, n - 1, name);
    }
  }

  /** The stage of an earlier initializer, seen from after one more. */
  lemma StageOneLater(env: Environment, at: Storage, s: Storage, id: nat, vars: seq<VarDef>, k: nat, i: nat, value: Value)
    requires k <= i < |vars| && DistinctNames(vars) && Initialized(env, vars[i])
    requires StageOf(env, at, s, id, vars, k, i)
    requires GetInstanceVar(s, id, vars[i].name) == Some(DefaultValue(env, vars[i].typeId))
    ensures StageOf(env, at, SetInstanceVar(s, id, vars[i].name, value).1, id, vars, k, i + 1)
  {
    hide Insert;
    var slots := s.instances[id].variables;
    var after := SetInstanceVar(s, id, vars[i].name, value).1;
    InsertInPlace(slots, vars[i].name, value);
    PendingNamed(env, vars, k, i, vars[i].name);
    forall name
      ensures Get(at.instances[id].variables, name) ==
        match Pending(env, vars, k, i + 1, name)
        case Some(v) => Some(DefaultValue(env, v.typeId))
        case None => Get(after.instances[id].variables, name)
    {
      InsertGet(slots, vars[i].name, value, name);
    }
  }

  /** Inserting under a known name keeps every slot's name. */
  lemma InsertInPlace(slots: seq<Slot>, name: string, value: Value)
    requires Get(slots, name).Some?
    ensures |Insert(slots, name, value)| == |slots| && KeepsSlots(slots, Insert(slots, name, value))
    ensures KeepsSlots(Insert(slots, name, value), slots)
  {
  }

  lemma StageStarts(env: Environment, s: Storage, id: nat, vars: seq<VarDef>, i: nat)
    requires i <= |vars| && id in s.instances
    ensures StageOf(env, s, s, id, vars, i, i)
  {
    assert s.instances[id := s.instances[id].(variables := s.instances[id].variables)] == s.instances;
  }

  /** Evaluating one more initializer. */
  lemma InitializersExtend(env: Environment, s: Storage, id: nat, vars: seq<VarDef>, i: nat, value: Value)
    requires i < |vars| && id in s.instances && InitializersTook(env, s, id, vars, i)
    requires Initialized(env, vars[i]) && env.eval(s, id, vars[i].initializer.value) == Ok(value)
    requires DefaultsHeld(env, s, id, vars, i, |vars|)
    ensures InitializersTook(env, SetInstanceVar(s, id, vars[i].name, value).1, id, vars, i + 1)
    ensures DefaultsHeld(env, SetInstanceVar(s, id, vars[i].name, value).1, id, vars, i + 1, |vars|)
  {
    hide Insert, Get, StageOf, Pending;
    var slots := s.instances[id].variables;
    var after := SetInstanceVar(s, id, vars[i].name, value).1;
    if DistinctNames(vars) {
      InsertGet(slots, vars[i].name, value, vars[i].name);
      forall j | 0 <= j < |vars| && j != i ensures GetInstanceVar(after, id, vars[j].name) == GetInstanceVar(s, id, vars[j].name) {
        InsertGet(slots, vars[i].name, value, vars[j].name);
      }
      forall k | 0 <= k <= i && Initialized(env, vars[k])
        ensures TookEffect(env, after, id, vars, k, i + 1)
      {
        if k == i {
          StageStarts(env, s, id, vars, i);
          StageOneLater(env, s, s, id, vars, i, i, value);
          assert Took(env, s, after, id, vars, k, i + 1);
        } else {
          var at :| Took(env, at, s, id, vars, k, i);
          StageOneLater(env, at, s, id, vars, k, i, value);
          assert Took(env, at, after, id, vars, k, i + 1);
        }
      }
    }
  }

  /** A variable without an evaluated initializer is passed over. */
  lemma InitializerPassedOver(env: Environment, s: Storage, id: nat, vars: seq<VarDef>, i: nat)
    requires i < |vars| && InitializersTook(env, s, id, vars, i) && DefaultsHeld(env, s, id, vars, i, |vars|)
    requires !Initialized(env, vars[i])
    ensures InitializersTook(env, s, id, vars, i + 1) && DefaultsHeld(env, s, id, vars, i + 1, |vars|)
  {
    hide Get;
    forall k | 0 <= k < i && DistinctNames(vars) && Initialized(env, vars[k])
      ensures TookEffect(env, s, id, vars, k, i + 1)
    {
      var at :| Took(env, at, s, id, vars, k, i);
      assert forall name :: Pending(env, vars, k, i + 1, name) == Pending(env, vars, k, i, name);
      assert Took(env, at, s, id, vars, k, i + 1);
    }
  }

  /**
   * `t` is the storage right after the creation of instance `id`, seen from `s`: the same but for
   * instances being built at the time, which own the new one, and for instances created since.
   */
  ghost predicate SeenFrom(t: Storage, s: Storage, id: nat, region: Region)
  {
    && t.globals == s.globals && t.frames == s.frames && t.retain == s.retain
    && id in t.instances
    && (forall j :: j in t.instances && (j < region.floor || id <= j || t.instances[id].parent == Some(j)) ==>
          j in s.instances && s.instances[j] == t.instances[j])
    && (forall j :: j in t.instances && (id <= j || t.instances[id].parent == Some(j)) ==> Inside(region, j))
  }

  /** The initializers took effect when the instance was created. */
  ghost predicate InitializersShape(env: Environment, s: Storage, id: nat, vars: seq<VarDef>, region: Region)
  {
    exists t :: SeenFrom(t, s, id, region) && InitializersTook(env, t, id, vars, |vars|)
  }

  lemma InitializersShapeMoves(env: Environment, a: Storage, b: Storage, id: nat, vars: seq<VarDef>, small: Region, large: Region)
    requires InitializersShape(env, a, id, vars, small) && Undisturbed(a, b, small, large)
    ensures InitializersShape(env, b, id, vars, large)
  {
    hide InitializersTook;
    var t :| SeenFrom(t, a, id, small) && InitializersTook(env, t, id, vars, |vars|);
    assert SeenFrom(t, b, id, large);
  }

  // ----- Whole instances -----

  ghost predicate FunctionBlockShape(env: Environment, ranks: Ranks, s: Storage, id: nat, def: FunctionBlockDef, bound: nat, region: Region)
    decreases bound, 3
  {
    && Inside(region, id) && id in s.instances && s.instances[id].typeName == def.name
    && ParamsShape(env, s.instances[id].variables, def.params, def.vars)
    && InitializersShape(env, s, id, def.vars, region)
    && (def.base.Some? <==> s.instances[id].parent.Some?)
    && (def.base.Some? ==> BaseShape(env, ranks, s, s.instances[id].parent.value, def.base.value, bound, region))
    && VarsShape(env, ranks, s, id, def.vars, |def.vars|, bound, region)
  }

  ghost predicate BaseShape(env: Environment, ranks: Ranks, s: Storage, id: nat, base: Base, bound: nat, region: Region)
    decreases bound, 1
  {
    match base
    case FunctionBlockBase(name) => NamedFunctionBlockShape(env, ranks, s, id, name, bound, region)
    case ClassBase(name) => NamedClassShape(env, ranks, s, id, name, bound, region)
  }

  ghost predicate ClassShape(env: Environment, ranks: Ranks, s: Storage, id: nat, def: ClassDef, bound: nat, region: Region)
    decreases bound, 3
  {
    && Inside(region, id) && id in s.instances && s.instances[id].typeName == def.name
    && ParamsShape(env, s.instances[id].variables, [], def.vars)
    && InitializersShape(env, s, id, def.vars, region)
    && (match def.base
        case None => s.instances[id].parent.None?
        case Some(name) =>
          s.instances[id].parent.Some? && NamedClassShape(env, ranks, s, s.instances[id].parent.value, name, bound, region))
    && VarsShape(env, ranks, s, id, def.vars, |def.vars|, bound, region)
  }

  /** The first `n` variables hold what their types call for, unless two share a name. */
  ghost predicate VarsShape(env: Environment, ranks: Ranks, s: Storage, id: nat, vars: seq<VarDef>, n: nat, bound: nat, region: Region)
    decreases bound, 2
  {
    DistinctNames(vars) ==> forall k :: 0 <= k < n && k < |vars| ==> VarShape(env, ranks, s, id, vars[k], bound, region)
  }

  ghost predicate VarShape(env: Environment, ranks: Ranks, s: Storage, id: nat, v: VarDef, bound: nat, region: Region)
    decreases bound, 1
  {
    var held := GetInstanceVar(s, id, v.name);
    match TypeOf(env, v.typeId)
    case Some(FunctionBlockType(name)) =>
      held.Some? && held.value.Instance? && NamedFunctionBlockShape(env, ranks, s, held.value.id, name, bound, region)
    case Some(ClassType(name)) =>
      held.Some? && held.value.Instance? && NamedClassShape(env, ranks, s, held.value.id, name, bound, region)
    case _ =>
      v.external || (held.Some? && (v.initializer.None? ==> held.value == DefaultValue(env, v.typeId)))
  }

  ghost predicate NamedFunctionBlockShape(env: Environment, ranks: Ranks, s: Storage, id: nat, name: string, bound: nat, region: Region)
    decreases bound, 0
  {
    && Key(name) in env.functionBlocks && Key(name) in ranks.functionBlocks && ranks.functionBlocks[Key(name)] < bound
    && FunctionBlockShape(env, ranks, s, id, env.functionBlocks[Key(name)], ranks.functionBlocks[Key(name)], region)
  }

  ghost predicate NamedClassShape(env: Environment, ranks: Ranks, s: Storage, id: nat, name: string, bound: nat, region: Region)
    decreases bound, 0
  {
    && Key(name) in env.classes && Key(name) in ranks.classes && ranks.classes[Key(name)] < bound
    && ClassShape(env, ranks, s, id, env.classes[Key(name)], ranks.classes[Key(name)], region)
  }

  // ----- What the shape says in terms of the registered types -----

  /** The variable holds an existing instance whose definition has that name. */
  ghost predicate HoldsInstanceOf(s: Storage, id: nat, name: string, typeName: string)
  {
    var held := GetInstanceVar(s, id, name);
    held.Some? && held.value.Instance? && held.value.id in s.instances && s.instances[held.value.id].typeName == typeName
  }

  /** A variable of a function block type, through any aliases, holds an instance of the registered definition. */
  lemma HoldsFunctionBlock(env: Environment, ranks: Ranks, s: Storage, id: nat, vars: seq<VarDef>, k: nat, bound: nat, region: Region, ids: seq<nat>, name: string)
    requires VarsShape(env, ranks, s, id, vars, |vars|, bound, region) && DistinctNames(vars) && k < |vars|
    requires AliasChain(env.registry, ids, FunctionBlockType(name)) && vars[k].typeId == ids[0]
    ensures Key(name) in env.functionBlocks && HoldsInstanceOf(s, id, vars[k].name, env.functionBlocks[Key(name)].name)
  {
    ChainMeans(env, ids, FunctionBlockType(name));
    assert VarShape(env, ranks, s, id, vars[k], bound, region);
    var nested := GetInstanceVar(s, id, vars[k].name).value.id;
    assert NamedFunctionBlockShape(env, ranks, s, nested, name, bound, region);
    assert FunctionBlockShape(env, ranks, s, nested, env.functionBlocks[Key(name)], ranks.functionBlocks[Key(name)], region);
  }

  /** Likewise for a class type. */
  lemma HoldsClass(env: Environment, ranks: Ranks, s: Storage, id: nat, vars: seq<VarDef>, k: nat, bound: nat, region: Region, ids: seq<nat>, name: string)
    requires VarsShape(env, ranks, s, id, vars, |vars|, bound, region) && DistinctNames(vars) && k < |vars|
    requires AliasChain(env.registry, ids, ClassType(name)) && vars[k].typeId == ids[0]
    ensures Key(name) in env.classes && HoldsInstanceOf(s, id, vars[k].name, env.classes[Key(name)].name)
  {
    ChainMeans(env, ids, ClassType(name));
    assert VarShape(env, ranks, s, id, vars[k], bound, region);
    var nested := GetInstanceVar(s, id, vars[k].name).value.id;
    assert NamedClassShape(env, ranks, s, nested, name, bound, region);
    assert ClassShape(env, ranks, s, nested, env.classes[Key(name)], ranks.classes[Key(name)], region);
  }

  /** A data variable without an initializer holds the registered default, null if there is none. */
  lemma HoldsDefault(env: Environment, ranks: Ranks, s: Storage, id: nat, vars: seq<VarDef>, k: nat, bound: nat, region: Region, ids: seq<nat>, default: Option<Value>)
    requires VarsShape(env, ranks, s, id, vars, |vars|, bound, region) && DistinctNames(vars) && k < |vars|
    requires AliasChain(env.registry, ids, DataType(default)) && vars[k].typeId == ids[0]
    requires !vars[k].external && vars[k].initializer.None?
    ensures GetInstanceVar(s, id, vars[k].name) == Some(if default.Some? then default.value else Null)
  {
    ChainMeans(env, ids, DataType(default));
    assert VarShape(env, ranks, s, id, vars[k], bound, region);
  }

  /** So does a parameter that no other parameter or variable shares the name of. */
  lemma ParamHoldsDefault(env: Environment, slots: seq<Slot>, params: seq<Param>, vars: seq<VarDef>, k: nat, ids: seq<nat>, default: Option<Value>)
    requires ParamsShape(env, slots, params, vars) && k < |params|
    requires forall j :: 0 <= j < |params| && j != k ==> params[j].name != params[k].name
    requires forall j :: 0 <= j < |vars| ==> vars[j].name != params[k].name
    requires AliasChain(env.registry, ids, DataType(default)) && params[k].typeId == ids[0]
    ensures Get(slots, params[k].name) == Some(if default.Some? then default.value else Null)
  {
    ChainMeans(env, ids, DataType(default));
    OnlyParam(env, params, k);
    assert !Assigned(env, vars, params[k].name);
  }

  lemma {:induction false} OnlyParam(env: Environment, params: seq<Param>, k: nat)
    requires k < |params| && forall j :: 0 <= j < |params| && j != k ==> params[j].name != params[k].name
    ensures ParamDefault(env, params, params[k].name) == Some(DefaultValue(env, params[k].typeId))
  {
    if k < |params| - 1 {
      OnlyParam(env, params[..|params| - 1], k);
    }
  }

  /** A data variable with an initializer holds what it gave at its stage. */
  lemma HoldsInitializer(env: Environment, s: Storage, id: nat, vars: seq<VarDef>, k: nat, ids: seq<nat>, default: Option<Value>) returns (at: Storage)
    requires InitializersTook(env, s, id, vars, |vars|) && DistinctNames(vars) && k < |vars|
    requires AliasChain(env.registry, ids, DataType(default)) && vars[k].typeId == ids[0]
    requires !vars[k].external && vars[k].initializer.Some?
    ensures StageOf(env, at, s, id, vars, k, |vars|)
    ensures env.eval(at, id, vars[k].initializer.value).Ok?
    ensures GetInstanceVar(s, id, vars[k].name) == Some(env.eval(at, id, vars[k].initializer.value).value)
  {
    ChainMeans(env, ids, DataType(default));
    assert TookEffect(env, s, id, vars, k, |vars|);
    at :| Took(env, at, s, id, vars, k, |vars|);
  }

  /** An external data variable is not held, whatever its initializer, unless a parameter has its name. */
  lemma ExternalAbsent(env: Environment, slots: seq<Slot>, params: seq<Param>, vars: seq<VarDef>, k: nat, ids: seq<nat>, default: Option<Value>)
    requires ParamsShape(env, slots, params, vars) && DistinctNames(vars) && k < |vars| && vars[k].external
    requires AliasChain(env.registry, ids, DataType(default)) && vars[k].typeId == ids[0]
    requires forall j :: 0 <= j < |params| ==> params[j].name != vars[k].name
    ensures Get(slots, vars[k].name) == None
  {
    ChainMeans(env, ids, DataType(default));
    NoParam(env, params, vars[k].name);
    assert !Assigned(env, vars, vars[k].name);
  }

  lemma {:induction false} NoParam(env: Environment, params: seq<Param>, name: string)
    requires forall j :: 0 <= j < |params| ==> params[j].name != name
    ensures ParamDefault(env, params, name) == None
  {
    if params != [] {
      NoParam(env, params[..|params| - 1], name);
    }
  }

  // ----- Shapes outlive changes elsewhere -----

  /** Everything inside `small` or older than `large` is unchanged, and `large` encloses `small`. */
  ghost predicate Undisturbed(before: Storage, after: Storage, small: Region, large: Region)
  {
    && large.floor <= small.floor && large.lo <= small.lo && small.hi <= large.hi
    && after.globals == before.globals && after.frames == before.frames && after.retain == before.retain
    && (forall id :: id in before.instances && id < large.floor ==>
          id in after.instances && after.instances[id] == before.instances[id])
    && forall id :: id in before.instances && Inside(small, id) ==>
         id in after.instances && after.instances[id] == before.instances[id]
  }

  lemma {:induction false} FunctionBlockShapeMoves(env: Environment, ranks: Ranks, a: Storage, b: Storage, id: nat, def: FunctionBlockDef, bound: nat, small: Region, large: Region)
    requires FunctionBlockShape(env, ranks, a, id, def, bound, small) && Undisturbed(a, b, small, large)
    ensures FunctionBlockShape(env, ranks, b, id, def, bound, large)
    decreases bound, 3
  {
    InitializersShapeMoves(env, a, b, id, def.vars, small, large);
    if def.base.Some? {
      BaseShapeMoves(env, ranks, a, b, a.instances[id].parent.value, def.base.value, bound, small, large);
    }
    VarsShapeMoves(env, ranks, a, b, id, def.vars, |def.vars|, bound, small, large);
  }

  lemma {:induction false} BaseShapeMoves(env: Environment, ranks: Ranks, a: Storage, b: Storage, id: nat, base: Base, bound: nat, small: Region, large: Region)
    requires BaseShape(env, ranks, a, id, base, bound, small) && Undisturbed(a, b, small, large)
    ensures BaseShape(env, ranks, b, id, base, bound, large)
    decreases bound, 1
  {
    match base
    case FunctionBlockBase(name) => NamedFunctionBlockShapeMoves(env, ranks, a, b, id, name, bound, small, large);
    case ClassBase(name) => NamedClassShapeMoves(env, ranks, a, b, id, name, bound, small, large);
  }

  lemma {:induction false} ClassShapeMoves(env: Environment, ranks: Ranks, a: Storage, b: Storage, id: nat, def: ClassDef, bound: nat, small: Region, large: Region)
    requires ClassShape(env, ranks, a, id, def, bound, small) && Undisturbed(a, b, small, large)
    ensures ClassShape(env, ranks, b, id, def, bound, large)
    decreases bound, 3
  {
    InitializersShapeMoves(env, a, b, id, def.vars, small, large);
    if def.base.Some? {
      NamedClassShapeMoves(env, ranks, a, b, a.instances[id].parent.value, def.base.value, bound, small, large);
    }
    VarsShapeMoves(env, ranks, a, b, id, def.vars, |def.vars|, bound, small, large);
  }

  /** The instance itself may have gained other variables, as long as these are read the same. */
  lemma {:induction false} VarsShapeMoves(env: Environment, ranks: Ranks, a: Storage, b: Storage, id: nat, vars: seq<VarDef>, n: nat, bound: nat, small: Region, large: Region)
    requires VarsShape(env, ranks, a, id, vars, n, bound, small) && Undisturbed(a, b, small, large)
    requires DistinctNames(vars) ==> forall k :: 0 <= k < n && k < |vars| ==>
      GetInstanceVar(b, id, vars[k].name) == GetInstanceVar(a, id, vars[k].name)
    ensures VarsShape(env, ranks, b, id, vars, n, bound, large)
    decreases bound, 2
  {
    if DistinctNames(vars) {
      forall k | 0 <= k < n && k < |vars| ensures VarShape(env, ranks, b, id, vars[k], bound, large) {
        VarShapeMoves(env, ranks, a, b, id, vars[k], bound, small, large);
      }
    }
  }

  lemma {:induction false} VarShapeMoves(env: Environment, ranks: Ranks, a: Storage, b: Storage, id: nat, v: VarDef, bound: nat, small: Region, large: Region)
    requires VarShape(env, ranks, a, id, v, bound, small) && Undisturbed(a, b, small, large)
    requires GetInstanceVar(b, id, v.name) == GetInstanceVar(a, id, v.name)
    ensures VarShape(env, ranks, b, id, v, bound, large)
    decreases bound, 1
  {
    match TypeOf(env, v.typeId)
    case Some(FunctionBlockType(name)) =>
      NamedFunctionBlockShapeMoves(env, ranks, a, b, GetInstanceVar(a, id, v.name).value.id, name, bound, small, large);
    case Some(ClassType(name)) =>
      NamedClassShapeMoves(env, ranks, a, b, GetInstanceVar(a, id, v.name).value.id, name, bound, small, large);
    case _ =>
  }

  lemma {:induction false} NamedFunctionBlockShapeMoves(env: Environment, ranks: Ranks, a: Storage, b: Storage, id: nat, name: string, bound: nat, small: Region, large: Region)
    requires NamedFunctionBlockShape(env, ranks, a, id, name, bound, small) && Undisturbed(a, b, small, large)
    ensures NamedFunctionBlockShape(env, ranks, b, id, name, bound, large)
    decreases bound, 0
  {
    FunctionBlockShapeMoves(env, ranks, a, b, id, env.functionBlocks[Key(name)], ranks.functionBlocks[Key(name)], small, large);
  }

  lemma {:induction false} NamedClassShapeMoves(env: Environment, ranks: Ranks, a: Storage, b: Storage, id: nat, name: string, bound: nat, small: Region, large: Region)
    requires NamedClassShape(env, ranks, a, id, name, bound, small) && Undisturbed(a, b, small, large)
    ensures NamedClassShape(env, ranks, b, id, name, bound, large)
    decreases bound, 0
  {
    ClassShapeMoves(env, ranks, a, b, id, env.classes[Key(name)], ranks.classes[Key(name)], small, large);
  }
}
