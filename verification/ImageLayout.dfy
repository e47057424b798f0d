/**
 * Where the process image keeps each address: the exact bytes and bits that a flat read takes,
 * what a flat write leaves alone, and which hierarchical addresses are one.
 */
module ImageLayout {
  import opened Common
  import opened Values
  import opened ProcessImage

  /** The byte of the area's own buffer, zero past its end. */
  function Cell(img: Image, area: IoArea, i: nat): u8
  {
    match area
    case Input => if i < |img.inputs| then img.inputs[i] else 0
    case Output => if i < |img.outputs| then img.outputs[i] else 0
    case Memory => if i < |img.memory| then img.memory[i] else 0
  }

  predicate Flat(a: IoAddress)
  {
    !a.wildcard && |a.path| <= 1
  }

  /** The mask that selects a bit of a byte. */
  function Mask(k: bitIndex): nat
  {
    [0x01, 0x02, 0x04, 0x08, 0x10, 0x20, 0x40, 0x80][k]
  }

  /** Two, four and eight bytes from `i`, the lowest first. */
  function Pair(img: Image, area: IoArea, i: nat): nat
  {
    Cell(img, area, i) + 0x100 * Cell(img, area, i + 1)
  }

  function Quad(img: Image, area: IoArea, i: nat): nat
  {
    Pair(img, area, i) + 0x1_0000 * Pair(img, area, i + 2)
  }

  function Octet(img: Image, area: IoArea, i: nat): nat
  {
    Quad(img, area, i) + 0x1_0000_0000 * Quad(img, area, i + 4)
  }

  lemma {:induction false} HalvesOf(b: u8, k: bitIndex)
    ensures BitOf(b, k) <==> (b / Mask(k)) % 2 == 1
  {
    if k > 0 {
      HalvesOf(b / 2, k - 1);
      assert Mask(k) == 2 * Mask(k - 1);
      assert b / Mask(k) == b / 2 / Mask(k - 1);
    }
  }

  /** A flat read of a bit is that bit of the addressed byte. */
  lemma BitRead(img: Image, a: IoAddress)
    requires Flat(a) && a.size == BitSize
    ensures Read(img, a) == Ok(Bool((Cell(img, a.area, a.byte) / Mask(a.bit)) % 2 == 1))
  {
    HalvesOf(Cell(img, a.area, a.byte), a.bit);
  }

  lemma {:induction false} Spelled(bytes: seq<u8>)
    ensures |bytes| >= 1 ==> FromBytes(bytes) == bytes[0] + 0x100 * FromBytes(bytes[1..])
    ensures |bytes| == 1 ==> FromBytes(bytes) == bytes[0]
  {
  }

  lemma {:induction false} SpelledPair(bytes: seq<u8>)
    requires |bytes| >= 2
    ensures FromBytes(bytes) == bytes[0] + 0x100 * bytes[1] + 0x1_0000 * FromBytes(bytes[2..])
  {
    Spelled(bytes);
    Spelled(bytes[1..]);
    assert bytes[1..][1..] == bytes[2..];
  }

  lemma {:induction false} SpelledQuad(bytes: seq<u8>)
    requires |bytes| >= 4
    ensures FromBytes(bytes) == bytes[0] + 0x100 * bytes[1] + 0x1_0000 * (bytes[2] + 0x100 * bytes[3]) + 0x1_0000_0000 * FromBytes(bytes[4..])
  {
    SpelledPair(bytes);
    SpelledPair(bytes[2..]);
    assert bytes[2..][2..] == bytes[4..];
  }

  /** A flat read of whole bytes is the number that they spell, the lowest first. */
  lemma {:induction false} NumbersRead(img: Image, a: IoAddress)
    requires Flat(a)
    ensures match a.size
            case BitSize => true
            case ByteSize => Read(img, a) == Ok(Byte(Cell(img, a.area, a.byte)))
            case WordSize => Read(img, a) == Ok(Word(Pair(img, a.area, a.byte)))
            case DWordSize => Read(img, a) == Ok(DWord(Quad(img, a.area, a.byte)))
            case LWordSize => Read(img, a) == Ok(LWord(Octet(img, a.area, a.byte)))
  {
    if a.size != BitSize {
      var bytes := BytesAt(Buffer(img, a.area), a.byte, Width(a.size));
      assert forall k: nat :: ByteAt(Buffer(img, a.area), k) == Cell(img, a.area, k);
      Empty();
      hide FromBytes, BytesAt, ByteAt;
      match a.size
      case ByteSize => Spelled(bytes);
      case WordSize =>
        SpelledPair(bytes);
        assert bytes[2..] == [];
      case DWordSize =>
        SpelledQuad(bytes);
        assert bytes[4..] == [];
      case LWordSize =>
        SpelledQuad(bytes);
        SpelledQuad(bytes[4..]);
        assert bytes[4..][4..] == [];
    }
  }

  lemma Empty()
    ensures FromBytes([]) == 0
  {
  }

  /** How many bytes an address covers. */
  function Span(size: IoSize): nat
  {
    match size
    case BitSize => 1
    case ByteSize => 1
    case WordSize => 2
    case DWordSize => 4
    case LWordSize => 8
  }

  /**
   * A flat write succeeds exactly for a value of the address's kind. It changes no byte outside
   * the address and, for a bit, no other bit of its byte.
   */
  lemma FlatWrite(img: Image, a: IoAddress, v: Value)
    requires Flat(a)
    ensures Write(img, a, v).Ok? <==>
      match a.size
      case BitSize => v.Bool?
      case ByteSize => v.Byte?
      case WordSize => v.Word?
      case DWordSize => v.DWord?
      case LWordSize => v.LWord?
    ensures Write(img, a, v).Err? ==> Write(img, a, v).error == TypeMismatch
    ensures Write(img, a, v).Ok? ==>
      && Write(img, a, v).value.hierarchical == img.hierarchical
      && (forall area, i: nat :: area != a.area || i < a.byte || i >= a.byte + Span(a.size) ==>
            Cell(Write(img, a, v).value, area, i) == Cell(img, area, i))
      && (a.size == BitSize ==> forall k: bitIndex :: k != a.bit ==>
            (BitOf(Cell(Write(img, a, v).value, a.area, a.byte), k) <==> BitOf(Cell(img, a.area, a.byte), k)))
  {
    if Write(img, a, v).Ok? {
      var after := Write(img, a, v).value;
      var written := Written(Buffer(img, a.area), a, v);
      assert forall area, i: nat :: ByteAt(Buffer(img, area), i) == Cell(img, area, i);
      assert forall area, i: nat :: ByteAt(Buffer(after, area), i) == Cell(after, area, i);
      hide ByteAt, Cell;
      assert Buffer(after, a.area) == Store(Buffer(img, a.area), a.byte, written);
      if a.size == BitSize {
        var byte := ByteAt(Buffer(img, a.area), a.byte);
        assert Cell(after, a.area, a.byte) == written[0];
        forall k: bitIndex | k != a.bit ensures BitOf(written[0], k) <==> BitOf(byte, k) {
          WithBitAt(byte, a.bit, v.flag, k);
        }
      }
    }
  }

  /** A read or write at a wildcard address fails. */
  lemma WildcardFails(img: Image, a: IoAddress, v: Value)
    requires a.wildcard
    ensures Read(img, a) == Err(InvalidIoAddress) && Write(img, a, v) == Err(InvalidIoAddress)
  {
  }

  /**
   * A hierarchical address, of two or more parts, takes any value, and what is written is read
   * exactly where area, size, parts and bit are the same; nothing is read before a write.
   */
  lemma HierarchicalStore(img: Image, a: IoAddress, v: Value, b: IoAddress)
    requires !a.wildcard && |a.path| >= 2 && !b.wildcard
    ensures Write(img, a, v).Ok?
    ensures Read(Write(img, a, v).value, b) ==
      if |b.path| >= 2 && b.area == a.area && b.size == a.size && b.path == a.path && b.bit == a.bit then Ok(v) else Read(img, b)
    ensures Read(EMPTY_IMAGE, a) == Err(InvalidIoAddress)
  {
  }

  // ----- Which addresses share storage -----

  /** The value of a width with every bit set. */
  function Ones(size: IoSize): Value
  {
    match size
    case BitSize => Bool(true)
    case ByteSize => Byte(0xFF)
    case WordSize => Word(0xFFFF)
    case DWordSize => DWord(0xFFFF_FFFF)
    case LWordSize => LWord(0xFFFF_FFFF_FFFF_FFFF)
  }

  lemma {:induction false} AllOnes(n: nat, k: nat)
    requires k < n
    ensures Base(n) > 0 && Base(n - 1) > 0 && ToBytes(Base(n) - 1, n)[k] == 0xFF
  {
    if n == 1 {
      assert ToBytes(0, 0) == [];
    } else {
      AllOnes(n - 1, if k == 0 then 0 else k - 1);
      assert (Base(n) - 1) % 256 == 0xFF && (Base(n) - 1) / 256 == Base(n - 1) - 1;
    }
  }

  lemma OnesEncoded(size: IoSize, k: nat)
    requires size != BitSize && k < Width(size)
    ensures Fits(size, Ones(size)) && Encode(size, Ones(size))[k] == 0xFF
  {
    Bases();
    AllOnes(Width(size), k);
  }

  lemma {:induction false} SomeByte(bytes: seq<u8>, k: nat)
    requires k < |bytes| && bytes[k] > 0
    ensures FromBytes(bytes) > 0
  {
    if k > 0 {
      SomeByte(bytes[1..], k - 1);
    }
  }

  lemma {:induction false} NoByte(bytes: seq<u8>)
    requires forall k :: 0 <= k < |bytes| ==> bytes[k] == 0
    ensures FromBytes(bytes) == 0
  {
    if bytes != [] {
      NoByte(bytes[1..]);
    }
  }

  lemma {:induction false} NoBit(k: nat)
    ensures !BitOf(0, k)
  {
    if k > 0 {
      NoBit(k - 1);
    }
  }

  /** Nothing but zeros is read from an empty image. */
  lemma EmptyRead(a: IoAddress)
    requires Flat(a)
    ensures a.size == BitSize ==> Read(EMPTY_IMAGE, a) == Ok(Bool(false))
    ensures a.size != BitSize ==> Read(EMPTY_IMAGE, a).Ok? && FromBytes(BytesAt(Buffer(EMPTY_IMAGE, a.area), a.byte, Width(a.size))) == 0
  {
    NoBit(a.bit);
    if a.size != BitSize {
      NoByte(BytesAt(Buffer(EMPTY_IMAGE, a.area), a.byte, Width(a.size)));
    }
  }

  lemma FullByte(k: bitIndex)
    ensures BitOf(0xFF, k)
  {
    HalvesOf(0xFF, k);
  }

  /** A byte that is not zero is seen by every read that covers it. */
  lemma ByteSeen(img: Image, b: IoAddress, i: nat)
    requires Flat(b) && b.size != BitSize && b.byte <= i < b.byte + Width(b.size) && ByteAt(Buffer(img, b.area), i) > 0
    ensures Read(img, b) != Read(EMPTY_IMAGE, b)
  {
    NumberRead(img, b);
    NumberRead(EMPTY_IMAGE, b);
    EmptyRead(b);
    var bytes := BytesAt(Buffer(img, b.area), b.byte, Width(b.size));
    assert bytes[i - b.byte] > 0;
    SomeByte(bytes, i - b.byte);
  }

  /** Setting every bit of an address is seen at every flat address that overlaps it. */
  lemma OnesSeen(a: IoAddress, b: IoAddress)
    requires Flat(a) && Flat(b) && Overlaps(a, b)
    ensures Write(EMPTY_IMAGE, a, Ones(a.size)).Ok?
    ensures Read(Write(EMPTY_IMAGE, a, Ones(a.size)).value, b) != Read(EMPTY_IMAGE, b)
  {
    FlatWrite(EMPTY_IMAGE, a, Ones(a.size));
    var after := Write(EMPTY_IMAGE, a, Ones(a.size)).value;
    var written := Written(Buffer(EMPTY_IMAGE, a.area), a, Ones(a.size));
    assert Buffer(after, a.area) == Store(Buffer(EMPTY_IMAGE, a.area), a.byte, written);
    var i := if a.byte < b.byte then b.byte else a.byte;
    assert ByteAt(Buffer(after, a.area), i) == written[i - a.byte];
    EmptyRead(b);
    if a.size == BitSize {
      WithBitAt(0, a.bit, true, a.bit);
      NoBit(a.bit);
      assert written[0] > 0;
    } else {
      OnesEncoded(a.size, i - a.byte);
    }
    if b.size == BitSize {
      FullByte(b.bit);
    } else {
      ByteSeen(after, b, i);
    }
  }

  /** Two addresses overlap exactly if some write at the one changes what is read at the other. */
  lemma OverlapsExactly(a: IoAddress, b: IoAddress)
    requires !a.wildcard && !b.wildcard
    ensures Overlaps(a, b) <==>
      exists img, v :: Write(img, a, v).Ok? && Read(Write(img, a, v).value, b) != Read(img, b)
  {
    if Overlaps(a, b) {
      if |a.path| <= 1 {
        OnesSeen(a, b);
      } else {
        assert Write(EMPTY_IMAGE, a, Null).Ok? && Read(Write(EMPTY_IMAGE, a, Null).value, b) != Read(EMPTY_IMAGE, b);
      }
    } else {
      forall img, v | Write(img, a, v).Ok? ensures Read(Write(img, a, v).value, b) == Read(img, b) {
        NoInterference(img, a, v, b);
        assert Attempt(img, WriteRequest(a, v)) == Write(img, a, v).value;
      }
    }
  }
}
