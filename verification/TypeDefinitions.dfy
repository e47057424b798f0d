/**
 * Type definitions and registered types (instance.rs, `function_block_type_name` and
 * `class_type_name`), and what instance creation asks of them.
 */
module TypeDefinitions {
  import opened Common
  import opened Values
  import opened StorageModel
  import opened OwnershipForest

  datatype RuntimeError =
    | TypeMismatch
    | UndefinedFunctionBlock(name: string)
    | EvaluationFailed

  /** Registered types, as far as instance creation looks at them. */
  datatype TypeDef =
    | FunctionBlockType(name: string)
    | ClassType(name: string)
    | Alias(target: nat)
    | DataType(default: Option<Value>)

  datatype Base = FunctionBlockBase(name: string) | ClassBase(name: string)

  datatype Param = Param(name: string, typeId: nat)

  /** `initializer` is the text of the initial-value expression. */
  datatype VarDef = VarDef(name: string, typeId: nat, initializer: Option<string>, external: bool)

  datatype FunctionBlockDef =
    FunctionBlockDef(name: string, base: Option<Base>, params: seq<Param>, vars: seq<VarDef>)

  datatype ClassDef = ClassDef(name: string, base: Option<string>, vars: seq<VarDef>)

  datatype ProgramDef = ProgramDef(name: string, vars: seq<VarDef>)

  /** The definitions, and the evaluation of initializers for an instance in a storage. */
  datatype Environment = Environment(
    registry: map<nat, TypeDef>,
    functionBlocks: map<string, FunctionBlockDef>,
    classes: map<string, ClassDef>,
    eval: (Storage, nat, string) -> Result<Value, RuntimeError>)

  // ----- Type names -----

  function UpperChar(c: char): char
  {
    if 'a' <= c <= 'z' then (c as int - 32) as char else c
  }

  /** The key under which definitions are registered. */
  function Key(name: string): string
  {
    seq(|name|, i requires 0 <= i < |name| => UpperChar(name[i]))
  }

  /** The definition behind a type id once aliases are followed; an alias cycle has none. */
  function Resolve(registry: map<nat, TypeDef>, typeId: nat, unseen: set<nat>): Option<TypeDef>
    decreases unseen
  {
    if typeId !in registry then None
    else match registry[typeId]
      case Alias(target) =>
        if typeId in unseen then Resolve(registry, target, unseen - {typeId}) else None
      case def => Some(def)
  }

  function TypeOf(env: Environment, typeId: nat): Option<TypeDef>
  {
    Resolve(env.registry, typeId, env.registry.Keys)
  }

  function FunctionBlockTypeName(env: Environment, typeId: nat): Option<string>
  {
    match TypeOf(env, typeId)
    case Some(FunctionBlockType(name)) => Some(name)
    case _ => None
  }

  function ClassTypeName(env: Environment, typeId: nat): Option<string>
  {
    match TypeOf(env, typeId)
    case Some(ClassType(name)) => Some(name)
    case _ => None
  }

  /** The default of a data type; null when there is none. */
  function DefaultValue(env: Environment, typeId: nat): Value
  {
    match TypeOf(env, typeId)
    case Some(DataType(Some(value))) => value
    case _ => Null
  }

  /** The type is neither a function block nor a class. */
  predicate DataTyped(env: Environment, v: VarDef)
  {
    FunctionBlockTypeName(env, v.typeId).None? && ClassTypeName(env, v.typeId).None?
  }

  /** A data variable whose initializer is evaluated. */
  predicate Initialized(env: Environment, v: VarDef)
  {
    DataTyped(env, v) && !v.external && v.initializer.Some?
  }

  // ----- What names and aliases mean -----

  predicate LowerUpper(lower: char, upper: char)
  {
    'a' <= lower <= 'z' && lower as int == upper as int + 32
  }

  /** The same character, or the two cases of one ASCII letter. */
  predicate SameLetter(a: char, b: char)
  {
    a == b || LowerUpper(a, b) || LowerUpper(b, a)
  }

  /** Two names have the same key exactly when they differ at most in the case of ASCII letters. */
  lemma KeyIgnoresCase(a: string, b: string)
    ensures Key(a) == Key(b) <==> |a| == |b| && forall i :: 0 <= i < |a| ==> SameLetter(a[i], b[i])
    ensures |Key(a)| == |a| && forall i :: 0 <= i < |a| ==> SameLetter(Key(a)[i], a[i]) && !('a' <= Key(a)[i] <= 'z')
  {
    if Key(a) == Key(b) {
      assert |a| == |Key(a)| == |Key(b)| == |b|;
      forall i | 0 <= i < |a| ensures SameLetter(a[i], b[i]) {
        assert Key(a)[i] == UpperChar(a[i]) && Key(b)[i] == UpperChar(b[i]);
      }
    }
  }

  /** Ids each of which is an alias of the next, up to one that is registered as `def`. */
  predicate AliasChain(registry: map<nat, TypeDef>, ids: seq<nat>, def: TypeDef)
  {
    && ids != [] && (forall i, j :: 0 <= i < j < |ids| ==> ids[i] != ids[j])
    && (forall i :: 0 <= i < |ids| - 1 ==> ids[i] in registry && registry[ids[i]] == Alias(ids[i + 1]))
    && ids[|ids| - 1] in registry && registry[ids[|ids| - 1]] == def && !def.Alias?
  }

  lemma {:induction false} ChainResolves(registry: map<nat, TypeDef>, ids: seq<nat>, def: TypeDef, unseen: set<nat>)
    requires AliasChain(registry, ids, def)
    requires forall i :: 0 <= i < |ids| ==> ids[i] in unseen
    ensures Resolve(registry, ids[0], unseen) == Some(def)
    decreases |ids|
  {
    if |ids| > 1 {
      ChainResolves(registry, ids[1..], def, unseen - {ids[0]});
    }
  }

  /** The type name or default of the first id of a chain is the one written at its end. */
  lemma ChainMeans(env: Environment, ids: seq<nat>, def: TypeDef)
    requires AliasChain(env.registry, ids, def)
    ensures FunctionBlockTypeName(env, ids[0]) == match def case FunctionBlockType(name) => Some(name) case _ => None
    ensures ClassTypeName(env, ids[0]) == match def case ClassType(name) => Some(name) case _ => None
    ensures DefaultValue(env, ids[0]) == match def case DataType(Some(value)) => value case _ => Null
  {
    forall i | 0 <= i < |ids| ensures ids[i] in env.registry.Keys {
      assert i < |ids| - 1 || i == |ids| - 1;
    }
    ChainResolves(env.registry, ids, def, env.registry.Keys);
  }

  /** An id whose aliases lead to an id that is not registered has neither a name nor a default. */
  lemma {:induction false} DanglingMeans(registry: map<nat, TypeDef>, ids: seq<nat>, unseen: set<nat>)
    requires ids != [] && ids[|ids| - 1] !in registry
    requires forall i :: 0 <= i < |ids| - 1 ==> ids[i] in registry && registry[ids[i]] == Alias(ids[i + 1])
    ensures Resolve(registry, ids[0], unseen).None?
    decreases |ids|
  {
    if |ids| > 1 {
      assert registry[ids[0]] == Alias(ids[1]);
      var rest := ids[1..];
      assert rest[|rest| - 1] == ids[|ids| - 1] && rest[0] == ids[1];
      if ids[0] in unseen {
        DanglingMeans(registry, rest, unseen - {ids[0]});
      }
    } else {
      assert ids[|ids| - 1] == ids[0];
    }
  }

  // ----- What creation asks of its environment -----

  /** Defaults and initializers yield values without instances. */
  ghost predicate PlainEnvironment(env: Environment)
  {
    && (forall t :: t in env.registry && env.registry[t].DataType? && env.registry[t].default.Some? ==>
          Plain(env.registry[t].default.value))
    && (forall s, id, e :: env.eval(s, id, e).Ok? ==> Plain(env.eval(s, id, e).value))
  }

  /** Ranks of the definitions, keyed as in the environment. */
  datatype Ranks = Ranks(functionBlocks: map<string, nat>, classes: map<string, nat>)

  ghost predicate FunctionBlockBelow(env: Environment, ranks: Ranks, name: string, bound: nat)
  {
    Key(name) in env.functionBlocks ==>
      Key(name) in ranks.functionBlocks && ranks.functionBlocks[Key(name)] < bound
  }

  ghost predicate ClassBelow(env: Environment, ranks: Ranks, name: string, bound: nat)
  {
    Key(name) in env.classes ==> Key(name) in ranks.classes && ranks.classes[Key(name)] < bound
  }

  ghost predicate VarBelow(env: Environment, ranks: Ranks, v: VarDef, bound: nat)
  {
    match TypeOf(env, v.typeId)
    case Some(FunctionBlockType(name)) => FunctionBlockBelow(env, ranks, name, bound)
    case Some(ClassType(name)) => ClassBelow(env, ranks, name, bound)
    case _ => true
  }

  ghost predicate VarsBelow(env: Environment, ranks: Ranks, vars: seq<VarDef>, bound: nat)
  {
    forall v :: v in vars ==> VarBelow(env, ranks, v, bound)
  }

  ghost predicate FunctionBlockDefBelow(env: Environment, ranks: Ranks, def: FunctionBlockDef, bound: nat)
  {
    && VarsBelow(env, ranks, def.vars, bound)
    && match def.base
       case None => true
       case Some(FunctionBlockBase(name)) => FunctionBlockBelow(env, ranks, name, bound)
       case Some(ClassBase(name)) => ClassBelow(env, ranks, name, bound)
  }

  ghost predicate ClassDefBelow(env: Environment, ranks: Ranks, def: ClassDef, bound: nat)
  {
    VarsBelow(env, ranks, def.vars, bound) && (def.base.Some? ==> ClassBelow(env, ranks, def.base.value, bound))
  }

  /** The definitions are acyclic: each uses only definitions of lower rank. */
  ghost predicate Acyclic(env: Environment, ranks: Ranks)
  {
    && (forall k :: k in env.functionBlocks && k in ranks.functionBlocks ==>
          FunctionBlockDefBelow(env, ranks, env.functionBlocks[k], ranks.functionBlocks[k]))
    && (forall k :: k in env.classes && k in ranks.classes ==>
          ClassDefBelow(env, ranks, env.classes[k], ranks.classes[k]))
  }

  lemma DefaultPlain(env: Environment, typeId: nat)
    requires PlainEnvironment(env)
    ensures Plain(DefaultValue(env, typeId))
  {
    ResolveRegistered(env.registry, typeId, env.registry.Keys);
  }

  lemma {:induction false} ResolveRegistered(registry: map<nat, TypeDef>, typeId: nat, unseen: set<nat>)
    ensures Resolve(registry, typeId, unseen).Some? ==> Resolve(registry, typeId, unseen).value in registry.Values
    decreases unseen
  {
    if typeId in registry && registry[typeId].Alias? && typeId in unseen {
      ResolveRegistered(registry, registry[typeId].target, unseen - {typeId});
    } else if typeId in registry {
      assert registry[typeId] in registry.Values;
    }
  }
}
