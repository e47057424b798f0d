/** The process image and its bindings on mutable state (io.rs), against `ProcessImage` and `ScanCycle`. */
module IoInterface {
  import opened Common
  import opened Values
  import opened Coercions
  import opened ScanCycle
  import PI = ProcessImage
  import VS = VariableStorage
  import StorageModel

  class IoInterface {
    const floats: Floats
    var inputs: seq<u8>
    var outputs: seq<u8>
    var memory: seq<u8>
    var bindings: seq<IoBinding>
    var hierarchical: map<PI.AddressKey, Value>

    constructor (floats: Floats)
      ensures State() == PI.EMPTY_IMAGE && bindings == [] && this.floats == floats
    {
      this.floats := floats;
      inputs, outputs, memory, bindings, hierarchical := [], [], [], [], map[];
    }

    ghost function State(): PI.Image
      reads this
    {
      PI.Image(inputs, outputs, memory, hierarchical)
    }

    method Bind(binding: IoBinding)
      modifies this`bindings
      ensures bindings == old(bindings) + [binding]
    {
      bindings := bindings + [binding];
    }

    method Area(area: IoArea) returns (buffer: seq<u8>)
      ensures buffer == PI.Buffer(State(), area)
    {
      match area
      case Input => buffer := inputs;
      case Output => buffer := outputs;
      case Memory => buffer := memory;
    }

    method SetArea(area: IoArea, buffer: seq<u8>)
      modifies this`inputs, this`outputs, this`memory
      ensures State() == PI.WithBuffer(old(State()), area, buffer)
    {
      match area
      case Input => inputs := buffer;
      case Output => outputs := buffer;
      case Memory => memory := buffer;
    }

    method Read(address: PI.IoAddress) returns (r: Result<Value, PI.IoError>)
      ensures r == PI.Read(State(), address)
    {
      if address.wildcard {
        return Err(PI.InvalidIoAddress);
      }
      if PI.Hierarchical(address) {
        var key := PI.KeyOf(address);
        return if key in hierarchical then Ok(hierarchical[key]) else Err(PI.InvalidIoAddress);
      }
      var buffer := Area(address.area);
      if address.size == PI.BitSize {
        return Ok(Bool(PI.BitOf(PI.ByteAt(buffer, address.byte), address.bit)));
      }
      var n := PI.Width(address.size);
      var bytes := [];
      var idx := 0;
      while idx < n
        invariant 0 <= idx <= n
        invariant bytes == PI.BytesAt(buffer, address.byte, idx)
      {
        bytes := bytes + [PI.ByteAt(buffer, address.byte + idx)];
        idx := idx + 1;
      }
      r := Ok(PI.Decode(address.size, bytes));
    }

    method Write(address: PI.IoAddress, value: Value) returns (r: Result<(), PI.IoError>)
      modifies this`inputs, this`outputs, this`memory, this`hierarchical
      ensures r.Ok? <==> PI.Write(old(State()), address, value).Ok?
      ensures r.Ok? ==> State() == PI.Write(old(State()), address, value).value
      ensures r.Ok? ==> PI.Read(State(), address) == Ok(value)
      ensures r.Err? ==> State() == old(State()) && r.error == PI.Write(old(State()), address, value).error
      ensures forall b :: !PI.Overlaps(address, b) ==> PI.Read(State(), b) == PI.Read(old(State()), b)
    {
      if PI.Write(State(), address, value).Ok? {
        PI.WriteRead(State(), address, value);
      }
      forall b | !PI.Overlaps(address, b)
        ensures PI.Read(PI.Attempt(State(), PI.WriteRequest(address, value)), b) == PI.Read(State(), b)
      {
        PI.NoInterference(State(), address, value, b);
      }
      if address.wildcard {
        return Err(PI.InvalidIoAddress);
      }
      if PI.Hierarchical(address) {
        hierarchical := hierarchical[PI.KeyOf(address) := value];
        return Ok(());
      }
      if !PI.Fits(address.size, value) {
        return Err(PI.TypeMismatch);
      }
      var buffer := Area(address.area);
      var stored := StoreAt(buffer, address, value);
      SetArea(address.area, stored);
      r := Ok(());
    }

    /** Writes the variables of %Q and %M bindings into the image, up to the first error. */
    method WriteOutputs(storage: VS.VariableStorage) returns (r: Result<(), PI.IoError>)
      modifies this`inputs, this`outputs, this`memory, this`hierarchical
      ensures Progress(State(), ErrorOf(r)) == ScanCycle.WriteOutputs(old(State()), bindings, storage.State(), floats)
    {
      ghost var start := State();
      ghost var s := storage.State();
      var i := 0;
      while i < |bindings|
        invariant 0 <= i <= |bindings| && bindings == old(bindings)
        invariant ScanCycle.WriteOutputs(start, bindings[..i], s, floats) == Progress(State(), None)
      {
        var binding := bindings[i];
        assert bindings[..i + 1][..i] == bindings[..i];
        WritesStop(start, bindings, i + 1, s, floats);
        if WritesOut(binding) {
          var held := ReadTarget(
            StorageModel.Storage(storage.globals, storage.frames, storage.instances, storage.retain, storage.nextFrameId, storage.nextInstanceId),
            binding.target);
          if held.Err? {
            return Err(held.error);
          }
          var value := ToIo(binding, held.value, floats);
          if value.Err? {
            return Err(value.error);
          }
          var written := Write(binding.address, value.value);
          if written.Err? {
            return Err(written.error);
          }
        }
        i := i + 1;
      }
      assert bindings[..i] == bindings;
      r := Ok(());
    }

    /** Reads the image into the variables of %I and %M bindings, up to the first error. */
    method ReadInputs(storage: VS.VariableStorage) returns (r: Result<(), PI.IoError>)
      modifies storage
      ensures Progress(storage.State(), ErrorOf(r)) == ScanCycle.ReadInputs(State(), bindings, old(storage.State()))
    {
      ghost var start := storage.State();
      var i := 0;
      while i < |bindings|
        invariant 0 <= i <= |bindings|
        invariant ScanCycle.ReadInputs(State(), bindings[..i], start) == Progress(storage.State(), None)
      {
        var binding := bindings[i];
        assert bindings[..i + 1][..i] == bindings[..i];
        ReadsStop(State(), bindings, i + 1, start);
        if ReadsIn(binding) {
          var raw := Read(binding.address);
          if raw.Err? {
            return Err(raw.error);
          }
          var value := FromIo(binding, raw.value);
          if value.Err? {
            return Err(value.error);
          }
          match binding.target {
            case Name(name) =>
              storage.SetGlobal(name, value.value);
            case Ref(reference) =>
              var ok := storage.WriteByRef(reference, value.value);
              if !ok {
                return Err(PI.NullReference);
              }
          }
        }
        i := i + 1;
      }
      assert bindings[..i] == bindings;
      r := Ok(());
    }

    /** One exchange: out to the image and back. */
    method Exchange(storage: VS.VariableStorage) returns (r: Result<(), PI.IoError>)
      requires OutputsWellTyped(bindings, storage.State())
      requires MemoryDisjoint(bindings) && InputsApart(bindings, storage.State())
      modifies this`inputs, this`outputs, this`memory, this`hierarchical, storage
      ensures forall b :: b in bindings && InMemory(b) ==>
        ReadTarget(storage.State(), b.target) == ReadTarget(old(storage.State()), b.target)
      ensures (forall b :: b in bindings ==> b.address.area != Input) ==> r.Ok? && storage.State() == old(storage.State())
    {
      ScanKeepsMemory(State(), bindings, storage.State(), floats);
      if forall i :: 0 <= i < |bindings| ==> bindings[i].address.area != Input {
        ScanWithoutInputs(State(), bindings, storage.State(), floats);
      }
      r := WriteOutputs(storage);
      r := ReadInputs(storage);
    }
  }

  /** Stores a fitting value at a flat address, byte by byte, growing the buffer first. */
  method StoreAt(buffer: seq<u8>, address: PI.IoAddress, value: Value) returns (r: seq<u8>)
    requires PI.Fits(address.size, value)
    ensures r == PI.Store(buffer, address.byte, PI.Written(buffer, address, value))
  {
    var bytes := PI.Written(buffer, address, value);
    var start := address.byte;
    r := PI.EnsureLen(buffer, start + |bytes| - 1);
    ghost var grown := r;
    var idx := 0;
    hide PI.Written, PI.ByteAt;
    while idx < |bytes|
      invariant 0 <= idx <= |bytes| && |r| == |grown|
      invariant r == grown[..start] + bytes[..idx] + grown[start + idx..]
    {
      StoreStep(grown, start, bytes, idx);
      r := r[start + idx := bytes[idx]];
      idx := idx + 1;
    }
    assert bytes[..idx] == bytes;
  }

  /** Storing one more byte. */
  lemma StoreStep(grown: seq<u8>, start: nat, bytes: seq<u8>, idx: nat)
    requires start + |bytes| <= |grown| && idx < |bytes|
    ensures (grown[..start] + bytes[..idx] + grown[start + idx..])[start + idx := bytes[idx]]
         == grown[..start] + bytes[..idx + 1] + grown[start + idx + 1..]
  {
  }

  /** What stops at some binding has stopped for good. */
  lemma {:induction false} WritesStop(img: PI.Image, bindings: seq<IoBinding>, i: nat, s: StorageModel.Storage, floats: Floats)
    requires i <= |bindings|
    ensures ScanCycle.WriteOutputs(img, bindings[..i], s, floats).error.Some? ==>
      ScanCycle.WriteOutputs(img, bindings, s, floats) == ScanCycle.WriteOutputs(img, bindings[..i], s, floats)
    decreases |bindings| - i
  {
    if i < |bindings| {
      WritesStop(img, bindings, i + 1, s, floats);
      assert bindings[..i + 1][..i] == bindings[..i];
    } else {
      assert bindings[..i] == bindings;
    }
  }

  lemma {:induction false} ReadsStop(img: PI.Image, bindings: seq<IoBinding>, i: nat, s: StorageModel.Storage)
    requires i <= |bindings|
    ensures ScanCycle.ReadInputs(img, bindings[..i], s).error.Some? ==>
      ScanCycle.ReadInputs(img, bindings, s) == ScanCycle.ReadInputs(img, bindings[..i], s)
    decreases |bindings| - i
  {
    if i < |bindings| {
      ReadsStop(img, bindings, i + 1, s);
      assert bindings[..i + 1][..i] == bindings[..i];
    } else {
      assert bindings[..i] == bindings;
    }
  }
}
