/**
 * What instance creation computes (instance.rs): the result and the storage afterwards, of failed
 * creations as well. The methods of `Instances` are proved against these functions.
 */
module Creation {
  import opened Common
  import opened Values
  import opened StorageModel
  import opened TypeDefinitions

  /** The new instance or the error, and the storage with everything created by then. */
  datatype Made = Made(result: Result<nat, RuntimeError>, state: Storage)

  /** The first value of a variable, none for an external one, and the storage with nested instances. */
  datatype Valued = Valued(result: Result<Option<Value>, RuntimeError>, state: Storage)

  type Filled = Progress<Storage, RuntimeError>

  /** A new empty instance with its base part. */
  function Attached(s: Storage, typeName: string, parent: Option<nat>): Storage
  {
    s.(instances := s.instances[s.nextInstance := InstanceData(typeName, [], parent)], nextInstance := s.nextInstance + 1)
  }

  function WithParams(env: Environment, s: Storage, id: nat, params: seq<Param>): Storage
    decreases |params|
  {
    if params == [] then s
    else WithParams(env, SetInstanceVar(s, id, params[0].name, DefaultValue(env, params[0].typeId)).1, id, params[1..])
  }

  function Completed(filled: Filled, id: nat): Made
  {
    match filled.error
    case None => Made(Ok(id), filled.state)
    case Some(e) => Made(Err(e), filled.state)
  }

  ghost function MakeFb(env: Environment, ranks: Ranks, s: Storage, def: FunctionBlockDef, bound: nat): Made
    requires Acyclic(env, ranks) && FunctionBlockDefBelow(env, ranks, def, bound)
    decreases bound, 4, 0
  {
    match def.base
    case None => FillFb(env, ranks, s, None, def, bound)
    case Some(base) =>
      var made := MakeBase(env, ranks, s, base, bound);
      match made.result
      case Err(_) => made
      case Ok(parent) => FillFb(env, ranks, made.state, Some(parent), def, bound)
  }

  ghost function FillFb(env: Environment, ranks: Ranks, s: Storage, parent: Option<nat>, def: FunctionBlockDef, bound: nat): Made
    requires Acyclic(env, ranks) && FunctionBlockDefBelow(env, ranks, def, bound)
    decreases bound, 3, 0
  {
    var id := s.nextInstance;
    Completed(Fill(env, ranks, WithParams(env, Attached(s, def.name, parent), id, def.params), id, def.vars, bound), id)
  }

  ghost function MakeBase(env: Environment, ranks: Ranks, s: Storage, base: Base, bound: nat): Made
    requires Acyclic(env, ranks) && FunctionBlockDefBelow(env, ranks, FunctionBlockDef("", Some(base), [], []), bound)
    decreases bound, 1, 0
  {
    match base
    case FunctionBlockBase(name) =>
      if Key(name) in env.functionBlocks
      then MakeFb(env, ranks, s, env.functionBlocks[Key(name)], ranks.functionBlocks[Key(name)])
      else Made(Err(TypeMismatch), s)
    case ClassBase(name) =>
      if Key(name) in env.classes
      then MakeClass(env, ranks, s, env.classes[Key(name)], ranks.classes[Key(name)])
      else Made(Err(TypeMismatch), s)
  }

  ghost function MakeClass(env: Environment, ranks: Ranks, s: Storage, def: ClassDef, bound: nat): Made
    requires Acyclic(env, ranks) && ClassDefBelow(env, ranks, def, bound)
    decreases bound, 4, 0
  {
    match def.base
    case None => FillClass(env, ranks, s, None, def, bound)
    case Some(name) =>
      if Key(name) !in env.classes then Made(Err(TypeMismatch), s)
      else
        var made := MakeClass(env, ranks, s, env.classes[Key(name)], ranks.classes[Key(name)]);
        match made.result
        case Err(_) => made
        case Ok(parent) => FillClass(env, ranks, made.state, Some(parent), def, bound)
  }

  ghost function FillClass(env: Environment, ranks: Ranks, s: Storage, parent: Option<nat>, def: ClassDef, bound: nat): Made
    requires Acyclic(env, ranks) && ClassDefBelow(env, ranks, def, bound)
    decreases bound, 3, 0
  {
    Completed(Fill(env, ranks, Attached(s, def.name, parent), s.nextInstance, def.vars, bound), s.nextInstance)
  }

  ghost function MakeProgram(env: Environment, ranks: Ranks, s: Storage, def: ProgramDef, bound: nat): Made
    requires Acyclic(env, ranks) && VarsBelow(env, ranks, def.vars, bound)
  {
    Completed(Fill(env, ranks, Attached(s, def.name, None), s.nextInstance, def.vars, bound), s.nextInstance)
  }

  /** First values for all variables, then the initializers. */
  ghost function Fill(env: Environment, ranks: Ranks, s: Storage, id: nat, vars: seq<VarDef>, bound: nat): Filled
    requires Acyclic(env, ranks) && VarsBelow(env, ranks, vars, bound)
    decreases bound, 2, 0
  {
    var firsts := FirstValues(env, ranks, s, id, vars, bound);
    if firsts.error.Some? then firsts else Initializers(env, firsts.state, id, vars)
  }

  ghost function FirstValues(env: Environment, ranks: Ranks, s: Storage, id: nat, vars: seq<VarDef>, bound: nat): Filled
    requires Acyclic(env, ranks) && VarsBelow(env, ranks, vars, bound)
    decreases bound, 1, |vars|
  {
    if vars == [] then Progress(s, None)
    else
      var first := FirstValue(env, ranks, s, id, vars[0], bound);
      if first.error.Some? then first else FirstValues(env, ranks, first.state, id, vars[1..], bound)
  }

  ghost function FirstValue(env: Environment, ranks: Ranks, s: Storage, id: nat, v: VarDef, bound: nat): Filled
    requires Acyclic(env, ranks) && VarBelow(env, ranks, v, bound)
    decreases bound, 0, 1
  {
    var valued := ValueFor(env, ranks, s, v, bound);
    match valued.result
    case Err(e) => Progress(valued.state, Some(e))
    case Ok(None) => Progress(valued.state, None)
    case Ok(Some(value)) => Progress(SetInstanceVar(valued.state, id, v.name, value).1, None)
  }

  ghost function ValueFor(env: Environment, ranks: Ranks, s: Storage, v: VarDef, bound: nat): Valued
    requires Acyclic(env, ranks) && VarBelow(env, ranks, v, bound)
    decreases bound, 0, 0
  {
    match TypeOf(env, v.typeId)
    case Some(FunctionBlockType(name)) =>
      if Key(name) in env.functionBlocks
      then Nested(MakeFb(env, ranks, s, env.functionBlocks[Key(name)], ranks.functionBlocks[Key(name)]))
      else Valued(Err(UndefinedFunctionBlock(name)), s)
    case Some(ClassType(name)) =>
      if Key(name) in env.classes
      then Nested(MakeClass(env, ranks, s, env.classes[Key(name)], ranks.classes[Key(name)]))
      else Valued(Err(TypeMismatch), s)
    case _ => Valued(Ok(if v.external then None else Some(DefaultValue(env, v.typeId))), s)
  }

  function Nested(made: Made): Valued
  {
    match made.result
    case Ok(id) => Valued(Ok(Some(Instance(id))), made.state)
    case Err(e) => Valued(Err(e), made.state)
  }

  function Initializers(env: Environment, s: Storage, id: nat, vars: seq<VarDef>): Filled
    decreases |vars|
  {
    if vars == [] then Progress(s, None)
    else
      var step := Initializer(env, s, id, vars[0]);
      if step.error.Some? then step else Initializers(env, step.state, id, vars[1..])
  }

  /** A nested instance must not have an initializer; that of an external variable is passed over. */
  function Initializer(env: Environment, s: Storage, id: nat, v: VarDef): Filled
  {
    if !DataTyped(env, v) then Progress(s, if v.initializer.Some? then Some(TypeMismatch) else None)
    else if v.initializer.None? || v.external then Progress(s, None)
    else match env.eval(s, id, v.initializer.value)
      case Err(e) => Progress(s, Some(e))
      case Ok(value) => Progress(SetInstanceVar(s, id, v.name, value).1, None)
  }

  // ----- What makes a variable fail, in terms of the registered types -----

  /** A variable whose type leads to an unregistered function block or class has no first value. */
  lemma UndefinedTypeFails(env: Environment, ranks: Ranks, s: Storage, v: VarDef, bound: nat, ids: seq<nat>, name: string)
    requires Acyclic(env, ranks) && VarBelow(env, ranks, v, bound) && ids != [] && v.typeId == ids[0]
    ensures AliasChain(env.registry, ids, FunctionBlockType(name)) && Key(name) !in env.functionBlocks ==>
      ValueFor(env, ranks, s, v, bound) == Valued(Err(UndefinedFunctionBlock(name)), s)
    ensures AliasChain(env.registry, ids, ClassType(name)) && Key(name) !in env.classes ==>
      ValueFor(env, ranks, s, v, bound) == Valued(Err(TypeMismatch), s)
  {
    if AliasChain(env.registry, ids, FunctionBlockType(name)) {
      ChainMeans(env, ids, FunctionBlockType(name));
    }
    if AliasChain(env.registry, ids, ClassType(name)) {
      ChainMeans(env, ids, ClassType(name));
    }
  }

  /** A variable that holds an instance must not have an initializer, which then is not evaluated. */
  lemma InstanceInitializerFails(env: Environment, s: Storage, id: nat, v: VarDef, ids: seq<nat>, def: TypeDef)
    requires AliasChain(env.registry, ids, def) && (def.FunctionBlockType? || def.ClassType?) && v.typeId == ids[0]
    ensures Initializer(env, s, id, v) == Progress(s, if v.initializer == None then None else Some(TypeMismatch))
  {
    ChainMeans(env, ids, def);
  }
}
