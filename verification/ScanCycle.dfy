/**
 * The scan cycle's exchange between variables and the process image (io.rs, `write_outputs` and
 * `read_inputs`): outputs and memory bindings are written out, inputs and memory bindings are
 * read back.
 */
module ScanCycle {
  import opened Common
  import opened Values
  import opened StorageModel
  import opened Coercions
  import PI = ProcessImage

  datatype IoTarget = Name(name: string) | Ref(ref: ValueRef)

  datatype IoBinding = IoBinding(target: IoTarget, address: PI.IoAddress, valueType: Option<TypeId>)

  // ----- One binding -----

  /** Read by %I and %M bindings. */
  predicate ReadsIn(b: IoBinding)
  {
    b.address.area != Output
  }

  /** Written by %Q and %M bindings. */
  predicate WritesOut(b: IoBinding)
  {
    b.address.area != Input
  }

  predicate InMemory(b: IoBinding)
  {
    b.address.area == Memory
  }

  function ReadTarget(s: Storage, target: IoTarget): Result<Value, PI.IoError>
  {
    match target
    case Name(name) =>
      (match GetGlobal(s, name)
       case Some(v) => Ok(v)
       case None => Err(PI.UndefinedVariable(name)))
    case Ref(r) =>
      (match ReadByRef(s, r)
       case Some(v) => Ok(v)
       case None => Err(PI.NullReference))
  }

  function AssignTarget(s: Storage, target: IoTarget, v: Value): Result<Storage, PI.IoError>
  {
    match target
    case Name(name) => Ok(SetGlobal(s, name, v))
    case Ref(r) =>
      var (ok, after) := WriteByRef(s, r, v);
      if ok then Ok(after) else Err(PI.NullReference)
  }

  function ToIo(b: IoBinding, v: Value, floats: Floats): Result<Value, PI.IoError>
  {
    match b.valueType
    case Some(t) => CoerceToIo(v, t, b.address.size, floats)
    case None => Ok(v)
  }

  function FromIo(b: IoBinding, v: Value): Result<Value, PI.IoError>
  {
    match b.valueType
    case Some(t) => CoerceFromIo(v, t)
    case None => Ok(v)
  }

  function WriteOutput(img: PI.Image, b: IoBinding, s: Storage, floats: Floats): Result<PI.Image, PI.IoError>
  {
    if !WritesOut(b) then Ok(img)
    else match ReadTarget(s, b.target)
      case Err(e) => Err(e)
      case Ok(v) =>
        match ToIo(b, v, floats)
        case Err(e) => Err(e)
        case Ok(w) => PI.Write(img, b.address, w)
  }

  function ReadInput(img: PI.Image, b: IoBinding, s: Storage): Result<Storage, PI.IoError>
  {
    if !ReadsIn(b) then Ok(s)
    else match PI.Read(img, b.address)
      case Err(e) => Err(e)
      case Ok(w) =>
        match FromIo(b, w)
        case Err(e) => Err(e)
        case Ok(v) => AssignTarget(s, b.target, v)
  }

  // ----- All bindings in order -----

  function Advance<S, E>(before: S, step: Result<S, E>): Progress<S, E>
  {
    match step
    case Ok(after) => Progress(after, None)
    case Err(e) => Progress(before, Some(e))
  }

  function WriteOutputs(img: PI.Image, bindings: seq<IoBinding>, s: Storage, floats: Floats): Progress<PI.Image, PI.IoError>
  {
    if bindings == [] then Progress(img, None)
    else
      var before := WriteOutputs(img, bindings[..|bindings| - 1], s, floats);
      if before.error.Some? then before
      else Advance(before.state, WriteOutput(before.state, bindings[|bindings| - 1], s, floats))
  }

  function ReadInputs(img: PI.Image, bindings: seq<IoBinding>, s: Storage): Progress<Storage, PI.IoError>
  {
    if bindings == [] then Progress(s, None)
    else
      var before := ReadInputs(img, bindings[..|bindings| - 1], s);
      if before.error.Some? then before
      else Advance(before.state, ReadInput(img, bindings[|bindings| - 1], before.state))
  }

  // ----- What the bindings have to meet -----

  /** The variable holds a value of the bound type, at an address of its width. */
  ghost predicate WellTyped(b: IoBinding, s: Storage)
  {
    && ReadTarget(s, b.target).Ok?
    && match b.valueType
       case Some(t) => HasType(ReadTarget(s, b.target).value, t) && ExpectedSize(t) == Some(b.address.size)
       case None => PI.Hierarchical(b.address) || PI.Fits(b.address.size, ReadTarget(s, b.target).value)
  }

  /** The reference of a target, where it names an existing slot. */
  function TargetRef(s: Storage, target: IoTarget): Option<ValueRef>
  {
    match target
    case Name(name) => RefFor(s, Global, name)
    case Ref(r) => Some(r)
  }

  /** The targets do not share storage. */
  ghost predicate TargetsApart(s: Storage, a: IoTarget, b: IoTarget)
  {
    TargetRef(s, a).Some? && TargetRef(s, b).Some? ==> Apart(TargetRef(s, a).value, TargetRef(s, b).value)
  }

  ghost predicate OutputsWellTyped(bindings: seq<IoBinding>, s: Storage)
  {
    forall i :: 0 <= i < |bindings| && WritesOut(bindings[i]) ==>
      !bindings[i].address.wildcard && WellTyped(bindings[i], s)
  }

  ghost predicate MemoryDisjoint(bindings: seq<IoBinding>)
  {
    forall i, j :: 0 <= i < j < |bindings| && InMemory(bindings[i]) && InMemory(bindings[j]) ==>
      !PI.Overlaps(bindings[j].address, bindings[i].address)
  }

  /** No %I binding assigns to storage that a %M binding keeps. */
  ghost predicate InputsApart(bindings: seq<IoBinding>, s: Storage)
  {
    forall i, j :: 0 <= i < |bindings| && 0 <= j < |bindings| && InMemory(bindings[i]) && bindings[j].address.area == Input ==>
      TargetsApart(s, bindings[j].target, bindings[i].target)
  }

  // ----- Writing out -----

  /** What a well-typed variable puts into the image. */
  lemma WellTypedGoesOut(b: IoBinding, s: Storage, floats: Floats)
    requires WellTyped(b, s)
    ensures var v := ReadTarget(s, b.target).value;
      && ToIo(b, v, floats).Ok?
      && FromIo(b, ToIo(b, v, floats).value) == Ok(v)
      && (PI.Hierarchical(b.address) || PI.Fits(b.address.size, ToIo(b, v, floats).value))
  {
    if b.valueType.Some? {
      var v := ReadTarget(s, b.target).value;
      CoerceRoundTrip(v, b.valueType.value, b.address.size, floats);
      CoercedFits(v, b.valueType.value, b.address.size, floats);
    }
  }

  /** The image holds the converted value of every %M variable of the first bindings. */
  ghost predicate HoldsMemory(img: PI.Image, bindings: seq<IoBinding>, s: Storage, floats: Floats)
  {
    forall i :: 0 <= i < |bindings| && InMemory(bindings[i]) ==>
      && ReadTarget(s, bindings[i].target).Ok?
      && PI.Read(img, bindings[i].address) == ToIo(bindings[i], ReadTarget(s, bindings[i].target).value, floats)
  }

  lemma OtherAreaApart(a: PI.IoAddress, b: PI.IoAddress)
    requires a.area != b.area
    ensures !PI.Overlaps(a, b)
  {
  }

  /** Writing one more output leaves the %M values already held where they are. */
  lemma OneMoreWritten(before: PI.Image, init: seq<IoBinding>, b: IoBinding, w: Value, s: Storage, floats: Floats)
    requires HoldsMemory(before, init, s, floats) && PI.Write(before, b.address, w).Ok? && WritesOut(b)
    requires InMemory(b) ==> forall i :: 0 <= i < |init| && InMemory(init[i]) ==> !PI.Overlaps(b.address, init[i].address)
    ensures HoldsMemory(PI.Write(before, b.address, w).value, init, s, floats)
  {
    hide ToIo, PI.Read, PI.Overlaps;
    var after := PI.Write(before, b.address, w).value;
    forall i | 0 <= i < |init| && InMemory(init[i])
      ensures PI.Read(after, init[i].address) == PI.Read(before, init[i].address)
    {
      if !InMemory(b) {
        OtherAreaApart(b.address, init[i].address);
      }
      PI.NoInterference(before, b.address, w, init[i].address);
    }
  }

  lemma HoldsOneMore(img: PI.Image, init: seq<IoBinding>, b: IoBinding, s: Storage, floats: Floats)
    requires HoldsMemory(img, init, s, floats)
    requires InMemory(b) ==>
      ReadTarget(s, b.target).Ok? && PI.Read(img, b.address) == ToIo(b, ReadTarget(s, b.target).value, floats)
    ensures HoldsMemory(img, init + [b], s, floats)
  {
    hide ToIo, PI.Read, ReadTarget;
  }

  /** Well-typed outputs are all written, and each %M value is still there at the end. */
  lemma {:induction false} OutputsHeld(img: PI.Image, bindings: seq<IoBinding>, s: Storage, floats: Floats)
    requires OutputsWellTyped(bindings, s) && MemoryDisjoint(bindings)
    ensures WriteOutputs(img, bindings, s, floats).error.None?
    ensures HoldsMemory(WriteOutputs(img, bindings, s, floats).state, bindings, s, floats)
  {
    hide HoldsMemory, PI.Overlaps, PI.Read, ToIo, FromIo, ReadTarget;
    if bindings == [] {
      HoldsNothing(img, s, floats);
    } else {
      var init, b := bindings[..|bindings| - 1], bindings[|bindings| - 1];
      assert bindings == init + [b];
      OutputsHeld(img, init, s, floats);
      var before := WriteOutputs(img, init, s, floats).state;
      if WritesOut(b) {
        WellTypedGoesOut(b, s, floats);
        var w := ToIo(b, ReadTarget(s, b.target).value, floats).value;
        FittingWrites(before, b.address, w);
        PI.WriteRead(before, b.address, w);
        OneMoreWritten(before, init, b, w, s, floats);
        HoldsOneMore(PI.Write(before, b.address, w).value, init, b, s, floats);
      } else {
        HoldsOneMore(before, init, b, s, floats);
      }
    }
  }

  lemma HoldsNothing(img: PI.Image, s: Storage, floats: Floats)
    ensures HoldsMemory(img, [], s, floats)
  {
  }

  lemma FittingWrites(img: PI.Image, a: PI.IoAddress, w: Value)
    requires !a.wildcard && (PI.Hierarchical(a) || PI.Fits(a.size, w))
    ensures PI.Write(img, a, w).Ok?
  {
  }

  // ----- Reading back -----

  /** Assigning what the variable already holds changes nothing. */
  lemma ReassignSame(s: Storage, target: IoTarget)
    requires ReadTarget(s, target).Ok?
    ensures AssignTarget(s, target, ReadTarget(s, target).value) == Ok(s)
  {
    match target
    case Name(name) =>
      var k := IndexOf(s.globals, name).value;
      assert s.globals[k := Slot(name, s.globals[k].value)] == s.globals;
    case Ref(r) =>
      RefGetPut(s, r);
  }

  /** Setting an existing global is writing through its reference. */
  lemma SetGlobalIsWrite(s: Storage, name: string, v: Value)
    requires RefFor(s, Global, name).Some?
    ensures WriteByRef(s, RefFor(s, Global, name).value, v) == (true, SetGlobal(s, name, v))
  {
  }

  lemma ReadTargetByRef(s: Storage, target: IoTarget)
    ensures ReadTarget(s, target).Ok? ==>
      TargetRef(s, target).Some? && ReadByRef(s, TargetRef(s, target).value) == Some(ReadTarget(s, target).value)
    ensures TargetRef(s, target).Some? && ReadByRef(s, TargetRef(s, target).value).Some? ==>
      ReadTarget(s, target) == Ok(ReadByRef(s, TargetRef(s, target).value).value)
  {
  }

  lemma AssignKeepsSlots(s: Storage, target: IoTarget, v: Value)
    requires AssignTarget(s, target, v).Ok?
    ensures KeepsSlots(s.globals, AssignTarget(s, target, v).value.globals)
  {
    match target
    case Name(name) => ApplyKeepsSlots(s, OpSetGlobal(name, v), Global);
    case Ref(r) => ApplyKeepsSlots(s, OpWriteByRef(r, v), Global);
  }

  /** An assignment leaves a target apart from it readable and unchanged. */
  lemma AssignApart(s: Storage, target: IoTarget, v: Value, other: IoTarget)
    requires AssignTarget(s, target, v).Ok? && ReadTarget(s, other).Ok? && TargetsApart(s, target, other)
    ensures ReadTarget(AssignTarget(s, target, v).value, other) == ReadTarget(s, other)
  {
    var after := AssignTarget(s, target, v).value;
    ReadTargetByRef(s, other);
    var q := TargetRef(s, other).value;
    AssignKeepsSlots(s, target, v);
    if other.Name? {
      SameNamesSameIndex(s.globals, after.globals, other.name);
    }
    ReadTargetByRef(after, other);
    match target
    case Ref(r) =>
      RefApart(s, r, q, v);
    case Name(name) =>
      if RefFor(s, Global, name).Some? {
        SetGlobalIsWrite(s, name, v);
        RefApart(s, RefFor(s, Global, name).value, q, v);
      }
  }

  /** Two readable targets are apart exactly if no assignment to the one changes the other. */
  lemma TargetsApartExactly(s: Storage, target: IoTarget, other: IoTarget)
    requires ReadTarget(s, target).Ok? && ReadTarget(s, other).Ok?
    ensures TargetsApart(s, target, other) <==>
      forall v :: AssignTarget(s, target, v).Ok? ==> ReadTarget(AssignTarget(s, target, v).value, other) == ReadTarget(s, other)
  {
    if TargetsApart(s, target, other) {
      forall v | AssignTarget(s, target, v).Ok? ensures ReadTarget(AssignTarget(s, target, v).value, other) == ReadTarget(s, other) {
        AssignApart(s, target, v, other);
      }
    } else {
      TargetsShared(s, target, other);
    }
  }

  lemma TargetsShared(s: Storage, target: IoTarget, other: IoTarget)
    requires ReadTarget(s, target).Ok? && ReadTarget(s, other).Ok? && !TargetsApart(s, target, other)
    ensures var v := Other(ReadTarget(s, target).value);
      AssignTarget(s, target, v).Ok? && ReadTarget(AssignTarget(s, target, v).value, other) != ReadTarget(s, other)
  {
    ReadTargetByRef(s, target);
    ReadTargetByRef(s, other);
    var r, q := TargetRef(s, target).value, TargetRef(s, other).value;
    var v := Other(ReadTarget(s, target).value);
    RefShared(s, r, q);
    RefWriteWhereReadable(s, r, v);
    if target.Name? {
      SetGlobalIsWrite(s, target.name, v);
    }
    var after := AssignTarget(s, target, v).value;
    AssignKeepsSlots(s, target, v);
    if other.Name? {
      SameNamesSameIndex(s.globals, after.globals, other.name);
    }
    if ReadTarget(after, other).Ok? {
      ReadTargetByRef(after, other);
    }
  }

  /** Assignments keep the reference of every named target that has one. */
  lemma AssignKeepsTargetRef(s: Storage, target: IoTarget, v: Value, other: IoTarget)
    requires AssignTarget(s, target, v).Ok? && TargetRef(s, other).Some?
    ensures TargetRef(AssignTarget(s, target, v).value, other) == TargetRef(s, other)
  {
    AssignKeepsSlots(s, target, v);
    if other.Name? {
      SameNamesSameIndex(s.globals, AssignTarget(s, target, v).value.globals, other.name);
    }
  }

  /** Every %M variable reads as in `start`, and its reference is the same. */
  ghost predicate MemoryKept(bindings: seq<IoBinding>, start: Storage, s: Storage)
  {
    forall i :: 0 <= i < |bindings| && InMemory(bindings[i]) ==>
      && ReadTarget(s, bindings[i].target) == ReadTarget(start, bindings[i].target)
      && TargetRef(s, bindings[i].target) == TargetRef(start, bindings[i].target)
  }

  /** A named target keeps its reference once it has one, or gets a new slot at the end. */
  ghost predicate TargetsGrow(start: Storage, s: Storage)
  {
    KeepsSlots(start.globals, s.globals)
  }

  lemma ApartStays(start: Storage, s: Storage, input: IoTarget, kept: IoTarget)
    requires TargetsGrow(start, s) && TargetsApart(start, input, kept)
    requires TargetRef(s, kept) == TargetRef(start, kept) && ReadTarget(start, kept).Ok?
    ensures TargetsApart(s, input, kept)
  {
    if input.Name? && TargetRef(s, input).Some? {
      if TargetRef(start, input).Some? {
        SameNamesSameIndex(start.globals, s.globals, input.name);
      } else {
        // A slot added since lies past every slot that the kept target can select.
        ReadTargetByRef(start, kept);
        var k := IndexOf(s.globals, input.name).value;
        if k < |start.globals| {
          assert start.globals[k].name == input.name;
        }
      }
    }
  }

  /** One step of reading: a %M binding changes nothing, a %I binding nothing that %M bindings keep. */
  lemma ReadInputKeeps(img: PI.Image, all: seq<IoBinding>, b: IoBinding, start: Storage, s: Storage, floats: Floats)
    requires HoldsMemory(img, all, start, floats) && OutputsWellTyped(all, start) && InputsApart(all, start)
    requires b in all && MemoryKept(all, start, s) && TargetsGrow(start, s)
    requires ReadInput(img, b, s).Ok?
    ensures MemoryKept(all, start, ReadInput(img, b, s).value) && TargetsGrow(start, ReadInput(img, b, s).value)
    ensures InMemory(b) ==> ReadInput(img, b, s).value == s
  {
    var k :| 0 <= k < |all| && all[k] == b;
    if InMemory(b) {
      WellTypedGoesOut(b, start, floats);
      ReassignSame(s, b.target);
    } else if ReadsIn(b) {
      var v := FromIo(b, PI.Read(img, b.address).value).value;
      AssignKeepsSlots(s, b.target, v);
      forall i | 0 <= i < |all| && InMemory(all[i])
        ensures ReadTarget(ReadInput(img, b, s).value, all[i].target) == ReadTarget(start, all[i].target)
        ensures TargetRef(ReadInput(img, b, s).value, all[i].target) == TargetRef(start, all[i].target)
      {
        assert WellTyped(all[i], start);
        ApartStays(start, s, b.target, all[i].target);
        AssignApart(s, b.target, v, all[i].target);
        ReadTargetByRef(start, all[i].target);
        AssignKeepsTargetRef(s, b.target, v, all[i].target);
      }
    }
  }

  /** Reading back changes no %M variable, even if it stops at an error, and nothing at all without inputs. */
  lemma {:induction false} ReadInputsKeep(img: PI.Image, all: seq<IoBinding>, bindings: seq<IoBinding>, s: Storage, floats: Floats)
    requires HoldsMemory(img, all, s, floats) && OutputsWellTyped(all, s) && InputsApart(all, s)
    requires forall b :: b in bindings ==> b in all
    ensures MemoryKept(all, s, ReadInputs(img, bindings, s).state)
    ensures TargetsGrow(s, ReadInputs(img, bindings, s).state)
    ensures (forall b :: b in bindings ==> b.address.area != Input) ==> ReadInputs(img, bindings, s).state == s
    decreases |bindings|
  {
    hide HoldsMemory, OutputsWellTyped, InputsApart;
    if bindings != [] {
      var init, b := bindings[..|bindings| - 1], bindings[|bindings| - 1];
      ReadInputsKeep(img, all, init, s, floats);
      var before := ReadInputs(img, init, s);
      if before.error.None? && ReadInput(img, b, before.state).Ok? {
        ReadInputKeeps(img, all, b, s, before.state, floats);
      }
    }
  }

  /** Without inputs, reading back what was written out succeeds. */
  lemma {:induction false} ReadInputsSucceed(img: PI.Image, all: seq<IoBinding>, bindings: seq<IoBinding>, s: Storage, floats: Floats)
    requires HoldsMemory(img, all, s, floats) && OutputsWellTyped(all, s)
    requires forall b :: b in bindings ==> b in all && b.address.area != Input
    ensures ReadInputs(img, bindings, s) == Progress(s, None)
    decreases |bindings|
  {
    if bindings != [] {
      var init, b := bindings[..|bindings| - 1], bindings[|bindings| - 1];
      ReadInputsSucceed(img, all, init, s, floats);
      if InMemory(b) {
        var k :| 0 <= k < |all| && all[k] == b;
        WellTypedGoesOut(b, s, floats);
        ReassignSame(s, b.target);
      }
    }
  }

  /**
   * Main result: writing out succeeds, and reading back leaves every %M variable with exactly its
   * value, whatever the inputs bring and even if one of them fails.
   */
  lemma ScanKeepsMemory(img: PI.Image, bindings: seq<IoBinding>, s: Storage, floats: Floats)
    requires OutputsWellTyped(bindings, s) && MemoryDisjoint(bindings) && InputsApart(bindings, s)
    ensures WriteOutputs(img, bindings, s, floats).error.None?
    ensures var after := ReadInputs(WriteOutputs(img, bindings, s, floats).state, bindings, s).state;
      forall b :: b in bindings && InMemory(b) ==> ReadTarget(after, b.target) == ReadTarget(s, b.target)
  {
    OutputsHeld(img, bindings, s, floats);
    ReadInputsKeep(WriteOutputs(img, bindings, s, floats).state, bindings, bindings, s, floats);
  }

  /** When nothing is bound to an input, the exchange succeeds and the whole storage is unchanged. */
  lemma ScanWithoutInputs(img: PI.Image, bindings: seq<IoBinding>, s: Storage, floats: Floats)
    requires OutputsWellTyped(bindings, s) && MemoryDisjoint(bindings)
    requires forall b :: b in bindings ==> b.address.area != Input
    ensures WriteOutputs(img, bindings, s, floats).error.None?
    ensures ReadInputs(WriteOutputs(img, bindings, s, floats).state, bindings, s) == Progress(s, None)
  {
    OutputsHeld(img, bindings, s, floats);
    ReadInputsSucceed(WriteOutputs(img, bindings, s, floats).state, bindings, bindings, s, floats);
  }

  // ----- What reading in delivers -----

  /** The image value as the binding's type asks for it. */
  function Delivered(img: PI.Image, b: IoBinding): Result<Value, PI.IoError>
  {
    match PI.Read(img, b.address)
    case Err(e) => Err(e)
    case Ok(w) => if b.valueType.Some? then CoerceFromIo(w, b.valueType.value) else Ok(w)
  }

  /** No binding after the `i`-th that is not an output shares its target's storage. */
  ghost predicate Unshared(bindings: seq<IoBinding>, i: nat, after: Storage)
  {
    forall j :: i < j < |bindings| && i < |bindings| && bindings[j].address.area != Output ==>
      TargetsApart(after, bindings[j].target, bindings[i].target)
  }

  /** What is assigned is what the target reads next. */
  lemma AssignRead(s: Storage, target: IoTarget, v: Value)
    requires AssignTarget(s, target, v).Ok?
    ensures ReadTarget(AssignTarget(s, target, v).value, target) == Ok(v)
  {
    match target
    case Name(name) => InsertGet(s.globals, name, v, name);
    case Ref(r) => RefPutGet(s, r, v);
  }

  /** Apart after a later assignment is apart before it. */
  lemma ApartBefore(s: Storage, target: IoTarget, v: Value, a: IoTarget, b: IoTarget)
    requires AssignTarget(s, target, v).Ok? && TargetsApart(AssignTarget(s, target, v).value, a, b)
    ensures TargetsApart(s, a, b)
  {
    if TargetRef(s, a).Some? {
      AssignKeepsTargetRef(s, target, v, a);
    }
    if TargetRef(s, b).Some? {
      AssignKeepsTargetRef(s, target, v, b);
    }
  }

  /** One step: the target gets the delivered value, and a target apart from it keeps its own. */
  lemma ReadInputDelivers(img: PI.Image, b: IoBinding, s: Storage, other: IoTarget)
    requires ReadInput(img, b, s).Ok?
    ensures var after := ReadInput(img, b, s).value;
      && (b.address.area != Output ==> Delivered(img, b).Ok? && ReadTarget(after, b.target) == Delivered(img, b))
      && (ReadTarget(s, other).Ok? && (b.address.area != Output ==> TargetsApart(s, b.target, other)) ==>
            ReadTarget(after, other) == ReadTarget(s, other))
  {
    if b.address.area != Output {
      var v := Delivered(img, b).value;
      AssignRead(s, b.target, v);
      if ReadTarget(s, other).Ok? && TargetsApart(s, b.target, other) {
        AssignApart(s, b.target, v, other);
      }
    }
  }

  /**
   * After reading in without error, every %I and %M binding's target holds the image's value at its
   * address, converted to its type, unless a later binding assigns to the same storage.
   */
  lemma {:induction false} InputsArrive(img: PI.Image, bindings: seq<IoBinding>, s: Storage, i: nat)
    requires i < |bindings| && bindings[i].address.area != Output
    requires ReadInputs(img, bindings, s).error.None? && Unshared(bindings, i, ReadInputs(img, bindings, s).state)
    ensures Delivered(img, bindings[i]).Ok?
    ensures ReadTarget(ReadInputs(img, bindings, s).state, bindings[i].target) == Delivered(img, bindings[i])
    decreases |bindings|
  {
    hide ReadInput, Delivered, ReadTarget;
    var n := |bindings| - 1;
    var init, b := bindings[..n], bindings[n];
    var before := ReadInputs(img, init, s).state;
    ReadInputDelivers(img, b, before, bindings[i].target);
    if i < n {
      ReadStepApart(img, b, before);
      forall j | i < j < |init| && init[j].address.area != Output
        ensures TargetsApart(before, init[j].target, init[i].target)
      {
        assert TargetsApart(ReadInputs(img, bindings, s).state, bindings[j].target, bindings[i].target);
      }
      assert b.address.area != Output ==> TargetsApart(before, b.target, bindings[i].target);
      InputsArrive(img, init, s, i);
    }
  }

  lemma ReadStepApart(img: PI.Image, b: IoBinding, s: Storage)
    requires ReadInput(img, b, s).Ok?
    ensures forall x, y :: TargetsApart(ReadInput(img, b, s).value, x, y) ==> TargetsApart(s, x, y)
  {
    forall x, y | TargetsApart(ReadInput(img, b, s).value, x, y) ensures TargetsApart(s, x, y) {
      if ReadsIn(b) {
        ApartBefore(s, b.target, FromIo(b, PI.Read(img, b.address).value).value, x, y);
      }
    }
  }

  /** A target apart from every %I and %M binding's keeps its value, %Q bindings' targets among them. */
  lemma {:induction false} ReadingLeaves(img: PI.Image, bindings: seq<IoBinding>, s: Storage, other: IoTarget)
    requires ReadTarget(s, other).Ok?
    requires forall b :: b in bindings && b.address.area != Output ==>
      TargetsApart(ReadInputs(img, bindings, s).state, b.target, other)
    ensures ReadTarget(ReadInputs(img, bindings, s).state, other) == ReadTarget(s, other)
    decreases |bindings|
  {
    hide ReadInput, ReadTarget, TargetsApart;
    if bindings != [] {
      var n := |bindings| - 1;
      var init, b := bindings[..n], bindings[n];
      var before := ReadInputs(img, init, s);
      if before.error.None? && ReadInput(img, b, before.state).Ok? {
        ReadStepApart(img, b, before.state);
        ReadingLeaves(img, init, s, other);
        ReadInputDelivers(img, b, before.state, other);
      } else {
        ReadingLeaves(img, init, s, other);
      }
    }
  }

  // ----- What writing out delivers -----

  /** The variable's value as the address asks for it. */
  function Sent(b: IoBinding, s: Storage, floats: Floats): Result<Value, PI.IoError>
  {
    match ReadTarget(s, b.target)
    case Err(e) => Err(e)
    case Ok(v) => if b.valueType.Some? then CoerceToIo(v, b.valueType.value, b.address.size, floats) else Ok(v)
  }

  /** One step: the address gets the value sent, and an address that does not overlap keeps its own. */
  lemma WriteOutputDelivers(img: PI.Image, b: IoBinding, s: Storage, floats: Floats, other: PI.IoAddress)
    requires WriteOutput(img, b, s, floats).Ok?
    ensures var after := WriteOutput(img, b, s, floats).value;
      && (b.address.area != Input ==> Sent(b, s, floats).Ok? && PI.Read(after, b.address) == Sent(b, s, floats))
      && ((b.address.area != Input ==> !PI.Overlaps(b.address, other)) ==> PI.Read(after, other) == PI.Read(img, other))
  {
    if b.address.area != Input {
      var w := Sent(b, s, floats).value;
      PI.WriteRead(img, b.address, w);
      if !PI.Overlaps(b.address, other) {
        PI.NoInterference(img, b.address, w, other);
      }
    }
  }

  /**
   * After writing out without error, the image reads at every %Q and %M binding's address as the
   * variable's value, converted, unless a later binding writes over it.
   */
  lemma {:induction false} OutputsArrive(img: PI.Image, bindings: seq<IoBinding>, s: Storage, floats: Floats, i: nat)
    requires i < |bindings| && bindings[i].address.area != Input
    requires WriteOutputs(img, bindings, s, floats).error.None?
    requires forall j :: i < j < |bindings| && bindings[j].address.area != Input ==>
      !PI.Overlaps(bindings[j].address, bindings[i].address)
    ensures Sent(bindings[i], s, floats).Ok?
    ensures PI.Read(WriteOutputs(img, bindings, s, floats).state, bindings[i].address) == Sent(bindings[i], s, floats)
    decreases |bindings|
  {
    hide WriteOutput, Sent, PI.Overlaps, PI.Read;
    var n := |bindings| - 1;
    var init, b := bindings[..n], bindings[n];
    WriteOutputDelivers(WriteOutputs(img, init, s, floats).state, b, s, floats, bindings[i].address);
    if i < n {
      OutputsArrive(img, init, s, floats, i);
    }
  }

  /** An address that no %Q or %M binding overlaps reads as before, %I addresses among them. */
  lemma {:induction false} WritingLeaves(img: PI.Image, bindings: seq<IoBinding>, s: Storage, floats: Floats, other: PI.IoAddress)
    requires forall b :: b in bindings && b.address.area != Input ==> !PI.Overlaps(b.address, other)
    ensures PI.Read(WriteOutputs(img, bindings, s, floats).state, other) == PI.Read(img, other)
    decreases |bindings|
  {
    hide WriteOutput, PI.Overlaps, PI.Read;
    if bindings != [] {
      var n := |bindings| - 1;
      var init, b := bindings[..n], bindings[n];
      var before := WriteOutputs(img, init, s, floats);
      WritingLeaves(img, init, s, floats, other);
      if before.error.None? && WriteOutput(before.state, b, s, floats).Ok? {
        WriteOutputDelivers(before.state, b, s, floats, other);
      }
    }
  }

  // ----- When the exchange stops -----

  /** Reading in stops only at a binding whose value cannot be had or whose reference selects nothing. */
  lemma {:induction false} ReadingStopsAt(img: PI.Image, bindings: seq<IoBinding>, s: Storage) returns (k: nat)
    requires ReadInputs(img, bindings, s).error.Some?
    ensures k < |bindings| && bindings[k].address.area != Output
    ensures var before := ReadInputs(img, bindings[..k], s);
      && before == Progress(ReadInputs(img, bindings, s).state, None)
      && match Delivered(img, bindings[k])
         case Err(e) => ReadInputs(img, bindings, s).error == Some(e)
         case Ok(_) =>
           && bindings[k].target.Ref? && ReadByRef(before.state, bindings[k].target.ref).None?
           && ReadInputs(img, bindings, s).error == Some(PI.NullReference)
    decreases |bindings|
  {
    var n := |bindings| - 1;
    var init, b := bindings[..n], bindings[n];
    var before := ReadInputs(img, init, s);
    if before.error.Some? {
      k := ReadingStopsAt(img, init, s);
      assert bindings[..k] == init[..k];
    } else {
      k := n;
      if b.target.Ref? && Delivered(img, b).Ok? {
        RefWriteWhereReadable(before.state, b.target.ref, Delivered(img, b).value);
      }
    }
  }

  /** Writing out stops only at a binding whose value cannot be had or does not suit its address. */
  lemma {:induction false} WritingStopsAt(img: PI.Image, bindings: seq<IoBinding>, s: Storage, floats: Floats) returns (k: nat)
    requires WriteOutputs(img, bindings, s, floats).error.Some?
    ensures k < |bindings| && bindings[k].address.area != Input
    ensures var before := WriteOutputs(img, bindings[..k], s, floats);
      && before == Progress(WriteOutputs(img, bindings, s, floats).state, None)
      && match Sent(bindings[k], s, floats)
         case Err(e) => WriteOutputs(img, bindings, s, floats).error == Some(e)
         case Ok(w) =>
           var a := bindings[k].address;
           if a.wildcard then WriteOutputs(img, bindings, s, floats).error == Some(PI.InvalidIoAddress)
           else |a.path| <= 1 && !PI.Fits(a.size, w) && WriteOutputs(img, bindings, s, floats).error == Some(PI.TypeMismatch)
    decreases |bindings|
  {
    var n := |bindings| - 1;
    var init, b := bindings[..n], bindings[n];
    var before := WriteOutputs(img, init, s, floats);
    if before.error.Some? {
      k := WritingStopsAt(img, init, s, floats);
      assert bindings[..k] == init[..k];
    } else {
      k := n;
    }
  }
}
