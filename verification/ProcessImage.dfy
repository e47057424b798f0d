/**
 * The process image (io.rs, `IoInterface::read` and `write`): byte buffers that grow on write and
 * read as zero past their end, accessed at five widths in little-endian order, and a keyed store
 * for hierarchical addresses (the directly represented variables of IEC 61131-3, section 6.5.5).
 */
module ProcessImage {
  import opened Common
  import opened Values

  type bitIndex = x: int | 0 <= x < 8

  datatype IoSize = BitSize | ByteSize | WordSize | DWordSize | LWordSize

  datatype IoAddress = IoAddress(area: IoArea, size: IoSize, byte: u32, bit: bitIndex, path: seq<u32>, wildcard: bool)

  datatype AddressKey = AddressKey(area: IoArea, size: IoSize, path: seq<u32>, bit: bitIndex)

  datatype IoError = InvalidIoAddress | TypeMismatch | Overflow | UndefinedVariable(name: string) | NullReference

  datatype Image = Image(inputs: seq<u8>, outputs: seq<u8>, memory: seq<u8>, hierarchical: map<AddressKey, Value>)

  function KeyOf(a: IoAddress): AddressKey
  {
    AddressKey(a.area, a.size, a.path, a.bit)
  }

  predicate Hierarchical(a: IoAddress)
  {
    |a.path| > 1
  }

  // ----- Bytes and bits -----

  function Weight(n: nat): nat
  {
    if n == 0 then 1 else 2 * Weight(n - 1)
  }

  /** Bit `k` of a number. */
  predicate BitOf(b: nat, k: nat)
  {
    if k == 0 then b % 2 == 1 else BitOf(b / 2, k - 1)
  }

  /** The number with bit `k` set or cleared. */
  function WithBit(b: nat, k: nat, flag: bool): nat
  {
    if k == 0 then 2 * (b / 2) + (if flag then 1 else 0)
    else 2 * WithBit(b / 2, k - 1, flag) + b % 2
  }

  /** Setting adds and clearing removes the weight of the bit, as or-ing and masking do. */
  lemma {:induction false} WithBitMask(b: nat, k: nat, flag: bool)
    ensures WithBit(b, k, flag) ==
      if BitOf(b, k) == flag then b else if flag then b + Weight(k) else b - Weight(k)
  {
    if k > 0 {
      WithBitMask(b / 2, k - 1, flag);
    }
  }

  lemma {:induction false} WithBitBound(b: nat, k: nat, flag: bool, n: nat)
    requires k < n && b < Weight(n)
    ensures WithBit(b, k, flag) < Weight(n)
  {
    var w := Weight(n - 1);
    assert Weight(n) == 2 * w;
    hide Weight;
    if k > 0 {
      assert b / 2 < w;
      WithBitBound(b / 2, k - 1, flag, n - 1);
      assert WithBit(b, k, flag) == 2 * WithBit(b / 2, k - 1, flag) + b % 2;
    } else {
      assert b / 2 < w;
    }
  }

  /** The chosen bit gets its value and every other bit keeps it. */
  lemma {:induction false} WithBitAt(b: nat, k: nat, flag: bool, j: nat)
    ensures BitOf(WithBit(b, k, flag), j) == if j == k then flag else BitOf(b, j)
  {
    if k > 0 && j > 0 {
      WithBitAt(b / 2, k - 1, flag, j - 1);
      assert WithBit(b, k, flag) / 2 == WithBit(b / 2, k - 1, flag);
    } else if j > 0 {
      assert WithBit(b, k, flag) / 2 == b / 2;
    }
  }

  function PutBit(b: u8, k: bitIndex, flag: bool): u8
  {
    assert Weight(8) == 256;
    WithBitBound(b, k, flag, 8);
    WithBit(b, k, flag)
  }

  // ----- Little-endian numbers -----

  function Base(n: nat): nat
  {
    if n == 0 then 1 else 256 * Base(n - 1)
  }

  function ToBytes(v: nat, n: nat): (r: seq<u8>)
    ensures |r| == n
  {
    if n == 0 then [] else [v % 256] + ToBytes(v / 256, n - 1)
  }

  function FromBytes(bytes: seq<u8>): nat
  {
    if bytes == [] then 0 else bytes[0] + 256 * FromBytes(bytes[1..])
  }

  lemma {:induction false} FromToBytes(v: nat, n: nat)
    requires v < Base(n)
    ensures FromBytes(ToBytes(v, n)) == v
  {
    if n > 0 {
      FromToBytes(v / 256, n - 1);
      assert ToBytes(v, n)[1..] == ToBytes(v / 256, n - 1);
    }
  }

  lemma {:induction false} FromBytesBound(bytes: seq<u8>)
    ensures FromBytes(bytes) < Base(|bytes|)
  {
    if bytes != [] {
      FromBytesBound(bytes[1..]);
    }
  }

  lemma LowByte(low: u8, rest: nat)
    ensures (low + 256 * rest) % 256 == low && (low + 256 * rest) / 256 == rest
  {
  }

  lemma {:induction false} ToFromBytes(bytes: seq<u8>)
    ensures ToBytes(FromBytes(bytes), |bytes|) == bytes
  {
    if bytes != [] {
      ToFromBytes(bytes[1..]);
      LowByte(bytes[0], FromBytes(bytes[1..]));
      assert bytes == [bytes[0]] + bytes[1..];
    }
  }

  // ----- Values of each width -----

  function Width(size: IoSize): nat
  {
    match size
    case BitSize => 1
    case ByteSize => 1
    case WordSize => 2
    case DWordSize => 4
    case LWordSize => 8
  }

  lemma Bases()
    ensures Base(1) == 0x100 && Base(2) == 0x1_0000 && Base(4) == 0x1_0000_0000 && Base(8) == 0x1_0000_0000_0000_0000
  {
    assert Base(3) == 256 * Base(2);
    assert Base(5) == 256 * Base(4) && Base(6) == 256 * Base(5) && Base(7) == 256 * Base(6);
  }

  /** The value read as whole bytes; a bit is read from its byte instead. */
  function Decode(size: IoSize, bytes: seq<u8>): Value
    requires |bytes| == Width(size) && size != BitSize
  {
    Bases();
    FromBytesBound(bytes);
    match size
    case ByteSize => Byte(FromBytes(bytes))
    case WordSize => Word(FromBytes(bytes))
    case DWordSize => DWord(FromBytes(bytes))
    case LWordSize => LWord(FromBytes(bytes))
  }

  /** Whether a value has the kind that the width calls for. */
  predicate Fits(size: IoSize, v: Value)
  {
    match size
    case BitSize => v.Bool?
    case ByteSize => v.Byte?
    case WordSize => v.Word?
    case DWordSize => v.DWord?
    case LWordSize => v.LWord?
  }

  function Encode(size: IoSize, v: Value): (r: seq<u8>)
    requires Fits(size, v) && size != BitSize
    ensures |r| == Width(size)
  {
    match size
    case ByteSize => ToBytes(v.byte, 1)
    case WordSize => ToBytes(v.word, 2)
    case DWordSize => ToBytes(v.dword, 4)
    case LWordSize => ToBytes(v.lword, 8)
  }

  lemma DecodeEncode(size: IoSize, v: Value)
    requires Fits(size, v) && size != BitSize
    ensures Decode(size, Encode(size, v)) == v
  {
    Bases();
    match size
    case ByteSize => FromToBytes(v.byte, 1);
    case WordSize => FromToBytes(v.word, 2);
    case DWordSize => FromToBytes(v.dword, 4);
    case LWordSize => FromToBytes(v.lword, 8);
  }

  // ----- Buffers -----

  /** Past its end a buffer reads as zero. */
  function ByteAt(buffer: seq<u8>, i: nat): u8
  {
    if i < |buffer| then buffer[i] else 0
  }

  function BytesAt(buffer: seq<u8>, start: nat, n: nat): (r: seq<u8>)
    ensures |r| == n
    ensures forall k :: 0 <= k < n ==> r[k] == ByteAt(buffer, start + k)
  {
    if n == 0 then [] else BytesAt(buffer, start, n - 1) + [ByteAt(buffer, start + n - 1)]
  }

  function Zeros(n: nat): seq<u8>
  {
    seq(n, k => 0)
  }

  /** The buffer grown with zeros so that `index` is inside it. */
  function EnsureLen(buffer: seq<u8>, index: nat): (r: seq<u8>)
    ensures index < |r| && |buffer| <= |r|
    ensures forall i: nat :: ByteAt(r, i) == ByteAt(buffer, i)
  {
    if |buffer| <= index then buffer + Zeros(index + 1 - |buffer|) else buffer
  }

  /** The buffer with `bytes` stored from `start`, grown as needed. */
  function Store(buffer: seq<u8>, start: nat, bytes: seq<u8>): (r: seq<u8>)
    requires bytes != []
    ensures forall i: nat ::
      ByteAt(r, i) == if start <= i < start + |bytes| then bytes[i - start] else ByteAt(buffer, i)
  {
    var grown := EnsureLen(buffer, start + |bytes| - 1);
    grown[..start] + bytes + grown[start + |bytes|..]
  }

  function Buffer(img: Image, area: IoArea): seq<u8>
  {
    match area
    case Input => img.inputs
    case Output => img.outputs
    case Memory => img.memory
  }

  function WithBuffer(img: Image, area: IoArea, buffer: seq<u8>): (r: Image)
    ensures forall other :: Buffer(r, other) == if other == area then buffer else Buffer(img, other)
    ensures r.hierarchical == img.hierarchical
  {
    match area
    case Input => img.(inputs := buffer)
    case Output => img.(outputs := buffer)
    case Memory => img.(memory := buffer)
  }

  // ----- Reading and writing -----

  function Read(img: Image, a: IoAddress): Result<Value, IoError>
  {
    if a.wildcard then Err(InvalidIoAddress)
    else if Hierarchical(a) then
      if KeyOf(a) in img.hierarchical then Ok(img.hierarchical[KeyOf(a)]) else Err(InvalidIoAddress)
    else if a.size == BitSize then Ok(Bool(BitOf(ByteAt(Buffer(img, a.area), a.byte), a.bit)))
    else Ok(Decode(a.size, BytesAt(Buffer(img, a.area), a.byte, Width(a.size))))
  }

  /** The bytes that a flat write leaves at its address. */
  function Written(buffer: seq<u8>, a: IoAddress, v: Value): (r: seq<u8>)
    requires Fits(a.size, v)
    ensures |r| == Width(a.size)
  {
    if a.size == BitSize then [PutBit(ByteAt(buffer, a.byte), a.bit, v.flag)] else Encode(a.size, v)
  }

  function Write(img: Image, a: IoAddress, v: Value): Result<Image, IoError>
  {
    if a.wildcard then Err(InvalidIoAddress)
    else if Hierarchical(a) then Ok(img.(hierarchical := img.hierarchical[KeyOf(a) := v]))
    else if !Fits(a.size, v) then Err(TypeMismatch)
    else
      var buffer := Buffer(img, a.area);
      Ok(WithBuffer(img, a.area, Store(buffer, a.byte, Written(buffer, a, v))))
  }

  const EMPTY_IMAGE := Image([], [], [], map[])

  // ----- The total memory behind the buffers -----

  /** A zero-initialised memory without ends, and the keyed store. */
  datatype TotalMemory = TotalMemory(bytes: (IoArea, nat) -> u8, hierarchical: map<AddressKey, Value>)

  ghost predicate Represents(img: Image, m: TotalMemory)
  {
    && img.hierarchical == m.hierarchical
    && forall area, i: nat :: ByteAt(Buffer(img, area), i) == m.bytes(area, i)
  }

  const ZERO := TotalMemory((area, i) => 0, map[])

  function MemoryBytes(m: TotalMemory, area: IoArea, start: nat, n: nat): (r: seq<u8>)
    ensures |r| == n
    ensures forall k :: 0 <= k < n ==> r[k] == m.bytes(area, start + k)
  {
    if n == 0 then [] else MemoryBytes(m, area, start, n - 1) + [m.bytes(area, start + n - 1)]
  }

  function MemoryRead(m: TotalMemory, a: IoAddress): Result<Value, IoError>
  {
    if a.wildcard then Err(InvalidIoAddress)
    else if Hierarchical(a) then
      if KeyOf(a) in m.hierarchical then Ok(m.hierarchical[KeyOf(a)]) else Err(InvalidIoAddress)
    else if a.size == BitSize then Ok(Bool(BitOf(m.bytes(a.area, a.byte), a.bit)))
    else Ok(Decode(a.size, MemoryBytes(m, a.area, a.byte, Width(a.size))))
  }

  /** A write that fails leaves the memory as it is. */
  function MemoryWrite(m: TotalMemory, a: IoAddress, v: Value): TotalMemory
  {
    if a.wildcard then m
    else if Hierarchical(a) then m.(hierarchical := m.hierarchical[KeyOf(a) := v])
    else if !Fits(a.size, v) then m
    else
      var bytes := Laid(m, a, v);
      m.(bytes := (area: IoArea, i: nat) => Overlaid(m, a.area, a.byte, bytes, area, i))
  }

  function Laid(m: TotalMemory, a: IoAddress, v: Value): seq<u8>
    requires Fits(a.size, v)
  {
    if a.size == BitSize then [PutBit(m.bytes(a.area, a.byte), a.bit, v.flag)] else Encode(a.size, v)
  }

  /** The byte at `i` once `bytes` are laid over the memory from `start`. */
  function Overlaid(m: TotalMemory, at: IoArea, start: nat, bytes: seq<u8>, area: IoArea, i: nat): u8
  {
    if area == at && start <= i < start + |bytes| then bytes[i - start] else m.bytes(area, i)
  }

  datatype WriteRequest = WriteRequest(address: IoAddress, value: Value)

  function Attempt(img: Image, w: WriteRequest): Image
  {
    match Write(img, w.address, w.value)
    case Ok(after) => after
    case Err(_) => img
  }

  function Run(img: Image, writes: seq<WriteRequest>): Image
  {
    if writes == [] then img
    else Attempt(Run(img, writes[..|writes| - 1]), writes[|writes| - 1])
  }

  function MemoryRun(m: TotalMemory, writes: seq<WriteRequest>): TotalMemory
  {
    if writes == [] then m
    else
      var last := writes[|writes| - 1];
      MemoryWrite(MemoryRun(m, writes[..|writes| - 1]), last.address, last.value)
  }

  lemma RepresentedRead(img: Image, m: TotalMemory, a: IoAddress)
    requires Represents(img, m)
    ensures Read(img, a) == MemoryRead(m, a)
  {
    if !a.wildcard && !Hierarchical(a) && a.size != BitSize {
      assert BytesAt(Buffer(img, a.area), a.byte, Width(a.size)) == MemoryBytes(m, a.area, a.byte, Width(a.size));
    }
  }

  lemma RepresentedWrite(img: Image, m: TotalMemory, w: WriteRequest)
    requires Represents(img, m)
    ensures Represents(Attempt(img, w), MemoryWrite(m, w.address, w.value))
  {
    var a := w.address;
    if !a.wildcard && !Hierarchical(a) && Fits(a.size, w.value) {
      assert ByteAt(Buffer(img, a.area), a.byte) == m.bytes(a.area, a.byte);
      var written := Written(Buffer(img, a.area), a, w.value);
      assert written == Laid(m, a, w.value);
      var after, m' := Attempt(img, w), MemoryWrite(m, a, w.value);
      forall area, i: nat ensures ByteAt(Buffer(after, area), i) == m'.bytes(area, i) {
        assert m'.bytes(area, i) == Overlaid(m, a.area, a.byte, written, area, i);
      }
    }
  }

  /** Main result: over every sequence of writes, the image behaves as the memory without ends. */
  lemma {:induction false} RunRefinesMemory(img: Image, m: TotalMemory, writes: seq<WriteRequest>, a: IoAddress)
    requires Represents(img, m)
    ensures Represents(Run(img, writes), MemoryRun(m, writes))
    ensures Read(Run(img, writes), a) == MemoryRead(MemoryRun(m, writes), a)
  {
    if writes != [] {
      RunRefinesMemory(img, m, writes[..|writes| - 1], a);
      RepresentedWrite(Run(img, writes[..|writes| - 1]), MemoryRun(m, writes[..|writes| - 1]), writes[|writes| - 1]);
    }
    RepresentedRead(Run(img, writes), MemoryRun(m, writes), a);
  }

  /** Buffer growth is not observable: images with the same bytes stay indistinguishable. */
  lemma GrowthUnobservable(img: Image, other: Image, writes: seq<WriteRequest>, a: IoAddress)
    requires img.hierarchical == other.hierarchical
    requires forall area, i: nat :: ByteAt(Buffer(img, area), i) == ByteAt(Buffer(other, area), i)
    ensures Read(Run(img, writes), a) == Read(Run(other, writes), a)
  {
    var m := TotalMemory((area: IoArea, i: nat) => ByteAt(Buffer(img, area), i), img.hierarchical);
    RunRefinesMemory(img, m, writes, a);
    RunRefinesMemory(other, m, writes, a);
  }

  lemma FreshImage()
    ensures Represents(EMPTY_IMAGE, ZERO)
  {
  }

  /** A fresh image reads, after every sequence of writes, as the zero-initialised memory does. */
  lemma FreshRunRefines(writes: seq<WriteRequest>, a: IoAddress)
    ensures Read(Run(EMPTY_IMAGE, writes), a) == MemoryRead(MemoryRun(ZERO, writes), a)
  {
    FreshImage();
    RunRefinesMemory(EMPTY_IMAGE, ZERO, writes, a);
  }

  // ----- Composition and interference -----

  /** The flat address of one byte. */
  function ByteAddress(area: IoArea, byte: u32): IoAddress
  {
    IoAddress(area, ByteSize, byte, 0, [byte], false)
  }

  function WordValue(v: Value): nat
    requires v.Byte? || v.Word? || v.DWord? || v.LWord?
  {
    match v
    case Byte(n) => n
    case Word(n) => n
    case DWord(n) => n
    case LWord(n) => n
  }

  /** A byte read is the byte of the buffer. */
  lemma ByteRead(img: Image, area: IoArea, byte: u32)
    ensures Read(img, ByteAddress(area, byte)) == Ok(Byte(ByteAt(Buffer(img, area), byte)))
  {
    var one := BytesAt(Buffer(img, area), byte, 1);
    assert one[1..] == [];
    assert FromBytes(one) == one[0];
  }

  /** A read of whole bytes is the number that those bytes spell. */
  lemma NumberRead(img: Image, a: IoAddress)
    requires !a.wildcard && !Hierarchical(a) && a.size != BitSize
    ensures var v := Read(img, a);
      && v.Ok? && (v.value.Byte? || v.value.Word? || v.value.DWord? || v.value.LWord?)
      && WordValue(v.value) == FromBytes(BytesAt(Buffer(img, a.area), a.byte, Width(a.size)))
  {
  }

  /** Byte `k` of a value read at a wider size is the byte read at the k-th address. */
  lemma ReadsCompose(img: Image, a: IoAddress, k: nat)
    requires !a.wildcard && !Hierarchical(a) && a.size != BitSize && k < Width(a.size)
    requires a.byte + k < 0x1_0000_0000
    ensures Read(img, ByteAddress(a.area, a.byte + k)) == Ok(Byte(ToBytes(WordValue(Read(img, a).value), Width(a.size))[k]))
  {
    NumberRead(img, a);
    hide Read, FromBytes, ToBytes, WordValue;
    ByteRead(img, a.area, a.byte + k);
    ToFromBytes(BytesAt(Buffer(img, a.area), a.byte, Width(a.size)));
  }

  /** A bit read is that bit of the byte read. */
  lemma BitOfByte(img: Image, a: IoAddress)
    requires !a.wildcard && !Hierarchical(a) && a.size == BitSize
    ensures Read(img, a) == Ok(Bool(BitOf(WordValue(Read(img, ByteAddress(a.area, a.byte)).value), a.bit)))
  {
    ByteRead(img, a.area, a.byte);
  }

  /** Whether two addresses share storage. */
  predicate Overlaps(a: IoAddress, b: IoAddress)
  {
    if Hierarchical(a) || Hierarchical(b) then Hierarchical(a) && Hierarchical(b) && KeyOf(a) == KeyOf(b)
    else
      && a.area == b.area
      && a.byte < b.byte + Width(b.size) && b.byte < a.byte + Width(a.size)
      && !(a.size == BitSize && b.size == BitSize && a.bit != b.bit)
  }

  /** A successful write is read back. */
  lemma WriteRead(img: Image, a: IoAddress, v: Value)
    requires Write(img, a, v).Ok?
    ensures Read(Write(img, a, v).value, a) == Ok(v)
  {
    if !Hierarchical(a) {
      var after := Write(img, a, v).value;
      var written := Written(Buffer(img, a.area), a, v);
      if a.size == BitSize {
        assert ByteAt(Buffer(after, a.area), a.byte) == written[0];
        WithBitAt(ByteAt(Buffer(img, a.area), a.byte), a.bit, v.flag, a.bit);
      } else {
        assert BytesAt(Buffer(after, a.area), a.byte, Width(a.size)) == written;
        DecodeEncode(a.size, v);
      }
    }
  }

  /** A write does not change what is read at an address that shares no storage with it. */
  lemma NoInterference(img: Image, a: IoAddress, v: Value, b: IoAddress)
    requires !Overlaps(a, b)
    ensures Read(Attempt(img, WriteRequest(a, v)), b) == Read(img, b)
  {
    if Write(img, a, v).Ok? && !Hierarchical(a) && !b.wildcard && !Hierarchical(b) && a.area == b.area {
      var after := Write(img, a, v).value;
      if a.size == BitSize && b.size == BitSize && a.byte == b.byte {
        WithBitAt(ByteAt(Buffer(img, a.area), a.byte), a.bit, v.flag, b.bit);
      } else if b.size != BitSize {
        assert BytesAt(Buffer(after, b.area), b.byte, Width(b.size)) == BytesAt(Buffer(img, b.area), b.byte, Width(b.size));
      }
    }
  }

  /** The last write at an address is what is read, whatever else is written beside it. */
  lemma {:induction false} LastWriteWins(img: Image, before: seq<WriteRequest>, w: WriteRequest, later: seq<WriteRequest>)
    requires Write(Run(img, before), w.address, w.value).Ok?
    requires forall k :: 0 <= k < |later| ==> !Overlaps(later[k].address, w.address)
    ensures Read(Run(img, before + [w] + later), w.address) == Ok(w.value)
    decreases |later|
  {
    if later == [] {
      RunStep(img, before, w);
      assert before + [w] + later == before + [w];
      WriteRead(Run(img, before), w.address, w.value);
    } else {
      var init, last := later[..|later| - 1], later[|later| - 1];
      assert before + [w] + later == (before + [w] + init) + [last];
      RunStep(img, before + [w] + init, last);
      LastWriteWins(img, before, w, init);
      NoInterference(Run(img, before + [w] + init), last.address, last.value, w.address);
    }
  }

  lemma RunStep(img: Image, writes: seq<WriteRequest>, w: WriteRequest)
    ensures Run(img, writes + [w]) == Attempt(Run(img, writes), WriteRequest(w.address, w.value))
  {
    assert (writes + [w])[..|writes|] == writes;
  }
}
