/**
 * Conversions between typed variables and process image values (io.rs, `coerce_from_io` and
 * `coerce_to_io`, with `to_i64` and `to_u64` of numeric.rs).
 */
module Coercions {
  import opened Common
  import opened Values
  import opened ArrayOffsets
  import opened ProcessImage

  datatype TypeId =
    | BOOL | SINT | INT | DINT | LINT | USINT | UINT | UDINT | ULINT | REAL | LREAL
    | BYTE | WORD | DWORD | LWORD | CHAR | WCHAR | OTHER

  /** Conversion of a value of another type to a floating-point bit pattern. */
  datatype Floats = Floats(bits32: Value -> Result<u32, IoError>, bits64: Value -> Result<u64, IoError>)

  function ExpectedSize(t: TypeId): Option<IoSize>
  {
    match t
    case BOOL => Some(BitSize)
    case SINT => Some(ByteSize)
    case USINT => Some(ByteSize)
    case BYTE => Some(ByteSize)
    case CHAR => Some(ByteSize)
    case INT => Some(WordSize)
    case UINT => Some(WordSize)
    case WORD => Some(WordSize)
    case WCHAR => Some(WordSize)
    case DINT => Some(DWordSize)
    case UDINT => Some(DWordSize)
    case DWORD => Some(DWordSize)
    case REAL => Some(DWordSize)
    case LINT => Some(LWordSize)
    case ULINT => Some(LWordSize)
    case LWORD => Some(LWordSize)
    case LREAL => Some(LWordSize)
    case OTHER => None
  }

  // ----- Two's complement -----

  /** The unsigned number with the same bits as a signed one of `modulus` patterns. */
  function Unsigned(v: int, modulus: nat): int
  {
    if v < 0 then v + modulus else v
  }

  /** The signed number with the same bits as an unsigned one. */
  function Signed(v: int, modulus: nat): int
  {
    if v >= modulus / 2 then v - modulus else v
  }

  // ----- Numbers of other types -----

  function ToI64(v: Value): Result<int, IoError>
  {
    match v
    case SInt(n) => Ok(n)
    case Int(n) => Ok(n)
    case DInt(n) => Ok(n)
    case LInt(n) => Ok(n)
    case USInt(n) => Ok(n)
    case UInt(n) => Ok(n)
    case UDInt(n) => Ok(n)
    case ULInt(n) => if n <= I64_MAX then Ok(n) else Err(IoError.Overflow)
    case _ => Err(TypeMismatch)
  }

  function ToU64(v: Value): Result<int, IoError>
  {
    match v
    case USInt(n) => Ok(n)
    case UInt(n) => Ok(n)
    case UDInt(n) => Ok(n)
    case ULInt(n) => Ok(n)
    case SInt(n) => if n < 0 then Err(TypeMismatch) else Ok(n)
    case Int(n) => if n < 0 then Err(TypeMismatch) else Ok(n)
    case DInt(n) => if n < 0 then Err(TypeMismatch) else Ok(n)
    case LInt(n) => if n < 0 then Err(TypeMismatch) else Ok(n)
    case _ => Err(TypeMismatch)
  }

  /** The number if it lies between the bounds, an overflow otherwise. */
  function Narrow(n: Result<int, IoError>, low: int, high: int): (r: Result<int, IoError>)
    ensures r.Ok? <==> n.Ok? && low <= n.value <= high
    ensures r.Ok? ==> r == n
  {
    if n.Err? then n else if low <= n.value <= high then n else Err(IoError.Overflow)
  }

  // ----- The conversions -----

  function CoerceFromIo(v: Value, t: TypeId): Result<Value, IoError>
  {
    match (t, v)
    case (BOOL, Bool(_)) => Ok(v)
    case (SINT, Byte(n)) => Ok(SInt(Signed(n, 0x100)))
    case (USINT, Byte(n)) => Ok(USInt(n))
    case (BYTE, Byte(_)) => Ok(v)
    case (CHAR, Byte(n)) => Ok(Char(n))
    case (INT, Word(n)) => Ok(Int(Signed(n, 0x1_0000)))
    case (UINT, Word(n)) => Ok(UInt(n))
    case (WORD, Word(_)) => Ok(v)
    case (WCHAR, Word(n)) => Ok(WChar(n))
    case (DINT, DWord(n)) => Ok(DInt(Signed(n, 0x1_0000_0000)))
    case (UDINT, DWord(n)) => Ok(UDInt(n))
    case (DWORD, DWord(_)) => Ok(v)
    case (REAL, DWord(n)) => Ok(Real(n))
    case (LINT, LWord(n)) => Ok(LInt(Signed(n, 0x1_0000_0000_0000_0000)))
    case (ULINT, LWord(n)) => Ok(ULInt(n))
    case (LWORD, LWord(_)) => Ok(v)
    case (LREAL, LWord(n)) => Ok(LReal(n))
    case _ => Err(TypeMismatch)
  }

  function CoerceToIo(v: Value, t: TypeId, size: IoSize, floats: Floats): Result<Value, IoError>
  {
    if ExpectedSize(t) != Some(size) then Err(TypeMismatch)
    else match t
      case BOOL => if v.Bool? then Ok(v) else Err(TypeMismatch)
      case SINT => Converted(Narrow(ToI64(v), -0x80, 0x7F), n => AsByte(Unsigned(n, 0x100)))
      case USINT => Converted(Narrow(ToU64(v), 0, 0xFF), AsByte)
      case BYTE => if v.Byte? then Ok(v) else Err(TypeMismatch)
      case CHAR => if v.Char? then Ok(Byte(v.char_)) else Err(TypeMismatch)
      case INT => Converted(Narrow(ToI64(v), -0x8000, 0x7FFF), n => AsWord(Unsigned(n, 0x1_0000)))
      case UINT => Converted(Narrow(ToU64(v), 0, 0xFFFF), AsWord)
      case WORD => if v.Word? then Ok(v) else Err(TypeMismatch)
      case WCHAR => if v.WChar? then Ok(Word(v.wchar)) else Err(TypeMismatch)
      case DINT => Converted(Narrow(ToI64(v), -0x8000_0000, 0x7FFF_FFFF), n => AsDWord(Unsigned(n, 0x1_0000_0000)))
      case UDINT => Converted(Narrow(ToU64(v), 0, 0xFFFF_FFFF), AsDWord)
      case DWORD => if v.DWord? then Ok(v) else Err(TypeMismatch)
      case REAL =>
        if v.Real? then Ok(DWord(v.bits32))
        else (match floats.bits32(v) case Ok(n) => Ok(DWord(n)) case Err(e) => Err(e))
      case LINT => Converted(ToI64(v), n => AsLWord(Unsigned(n, 0x1_0000_0000_0000_0000)))
      case ULINT => Converted(ToU64(v), AsLWord)
      case LWORD => if v.LWord? then Ok(v) else Err(TypeMismatch)
      case LREAL =>
        if v.LReal? then Ok(LWord(v.bits64))
        else (match floats.bits64(v) case Ok(n) => Ok(LWord(n)) case Err(e) => Err(e))
      case OTHER => Err(TypeMismatch)
  }

  function Converted(n: Result<int, IoError>, wrap: int -> Value): Result<Value, IoError>
  {
    match n
    case Ok(value) => Ok(wrap(value))
    case Err(e) => Err(e)
  }

  function AsByte(n: int): Value
  {
    if 0 <= n < 0x100 then Byte(n) else Null
  }

  function AsWord(n: int): Value
  {
    if 0 <= n < 0x1_0000 then Word(n) else Null
  }

  function AsDWord(n: int): Value
  {
    if 0 <= n < 0x1_0000_0000 then DWord(n) else Null
  }

  function AsLWord(n: int): Value
  {
    if 0 <= n < 0x1_0000_0000_0000_0000 then LWord(n) else Null
  }

  /** The value has exactly the type. */
  predicate HasType(v: Value, t: TypeId)
  {
    match t
    case BOOL => v.Bool?
    case SINT => v.SInt?
    case INT => v.Int?
    case DINT => v.DInt?
    case LINT => v.LInt?
    case USINT => v.USInt?
    case UINT => v.UInt?
    case UDINT => v.UDInt?
    case ULINT => v.ULInt?
    case REAL => v.Real?
    case LREAL => v.LReal?
    case BYTE => v.Byte?
    case WORD => v.Word?
    case DWORD => v.DWord?
    case LWORD => v.LWord?
    case CHAR => v.Char?
    case WCHAR => v.WChar?
    case OTHER => false
  }

  /** What goes out always suits the width, and comes back with the type asked for. */
  lemma CoercedFits(v: Value, t: TypeId, size: IoSize, floats: Floats)
    requires CoerceToIo(v, t, size, floats).Ok?
    ensures Fits(size, CoerceToIo(v, t, size, floats).value)
    ensures CoerceFromIo(CoerceToIo(v, t, size, floats).value, t).Ok?
    ensures HasType(CoerceFromIo(CoerceToIo(v, t, size, floats).value, t).value, t)
  {
    if t in {SINT, INT, DINT, LINT} {
      SignedFits(v, t, size, floats);
    } else if t in {USINT, UINT, UDINT, ULINT} {
      UnsignedFits(v, t, size, floats);
    }
  }

  lemma SignedFits(v: Value, t: TypeId, size: IoSize, floats: Floats)
    requires t in {SINT, INT, DINT, LINT} && CoerceToIo(v, t, size, floats).Ok?
    ensures Fits(size, CoerceToIo(v, t, size, floats).value)
  {
  }

  lemma UnsignedFits(v: Value, t: TypeId, size: IoSize, floats: Floats)
    requires t in {USINT, UINT, UDINT, ULINT} && CoerceToIo(v, t, size, floats).Ok?
    ensures Fits(size, CoerceToIo(v, t, size, floats).value)
  {
  }

  /** A value of the type goes out and comes back as it was, signed types included. */
  lemma CoerceRoundTrip(v: Value, t: TypeId, size: IoSize, floats: Floats)
    requires HasType(v, t) && ExpectedSize(t) == Some(size)
    ensures CoerceToIo(v, t, size, floats).Ok?
    ensures CoerceFromIo(CoerceToIo(v, t, size, floats).value, t) == Ok(v)
  {
  }

  /** Coming in and going out gives the image value back: the two are inverse both ways. */
  lemma CoerceRoundTripIn(w: Value, t: TypeId, size: IoSize, floats: Floats)
    requires ExpectedSize(t) == Some(size) && Fits(size, w)
    ensures CoerceFromIo(w, t).Ok? && HasType(CoerceFromIo(w, t).value, t)
    ensures CoerceToIo(CoerceFromIo(w, t).value, t, size, floats) == Ok(w)
  {
  }

  // ----- Integers of one type bound as another -----

  predicate SignedType(t: TypeId)
  {
    t in {SINT, INT, DINT, LINT}
  }

  predicate UnsignedType(t: TypeId)
  {
    t in {USINT, UINT, UDINT, ULINT}
  }

  /** The number of an integer value. */
  function NumberOf(v: Value): Option<int>
  {
    match v
    case SInt(n) => Some(n)
    case Int(n) => Some(n)
    case DInt(n) => Some(n)
    case LInt(n) => Some(n)
    case USInt(n) => Some(n)
    case UInt(n) => Some(n)
    case UDInt(n) => Some(n)
    case ULInt(n) => Some(n)
    case _ => None
  }

  /** Half the number of values of a width. */
  function Half(size: IoSize): int
  {
    match size
    case BitSize => 1
    case ByteSize => 0x80
    case WordSize => 0x8000
    case DWordSize => 0x8000_0000
    case LWordSize => 0x8000_0000_0000_0000
  }

  /** The number can be held by the integer type of that width. */
  predicate Holds(t: TypeId, size: IoSize, n: int)
  {
    if SignedType(t) then -Half(size) <= n < Half(size) else 0 <= n < 2 * Half(size)
  }

  /** The image value of a width with a given bit pattern. */
  function Pattern(size: IoSize, n: int): Value
  {
    match size
    case BitSize => Bool(n == 1)
    case ByteSize => AsByte(n)
    case WordSize => AsWord(n)
    case DWordSize => AsDWord(n)
    case LWordSize => AsLWord(n)
  }

  /** A signed target takes the numbers it can hold, as their two's complement. */
  lemma SignedGoesOut(v: Value, t: TypeId, size: IoSize, floats: Floats, n: int)
    requires SignedType(t) && ExpectedSize(t) == Some(size) && NumberOf(v) == Some(n)
    ensures CoerceToIo(v, t, size, floats) ==
      if Holds(t, size, n) then Ok(Pattern(size, Unsigned(n, 2 * Half(size)))) else Err(IoError.Overflow)
  {
    assert ToI64(v) == if n <= I64_MAX then Ok(n) else Err(IoError.Overflow);
    hide ToI64, NumberOf;
  }

  lemma SignedComesIn(t: TypeId, size: IoSize, n: int)
    requires SignedType(t) && ExpectedSize(t) == Some(size) && Holds(t, size, n)
    ensures var back := CoerceFromIo(Pattern(size, Unsigned(n, 2 * Half(size))), t);
      back.Ok? && HasType(back.value, t) && NumberOf(back.value) == Some(n)
  {
  }

  /** An unsigned target takes the numbers it can hold as they are. */
  lemma UnsignedGoesOut(v: Value, t: TypeId, size: IoSize, floats: Floats, n: int)
    requires UnsignedType(t) && ExpectedSize(t) == Some(size) && NumberOf(v) == Some(n)
    ensures CoerceToIo(v, t, size, floats) ==
      if Holds(t, size, n) then Ok(Pattern(size, n)) else Err(if n < 0 then TypeMismatch else IoError.Overflow)
  {
    assert ToU64(v) == if n >= 0 then Ok(n) else Err(TypeMismatch);
    hide ToU64, NumberOf;
  }

  lemma UnsignedComesIn(t: TypeId, size: IoSize, n: int)
    requires UnsignedType(t) && ExpectedSize(t) == Some(size) && Holds(t, size, n)
    ensures var back := CoerceFromIo(Pattern(size, n), t);
      back.Ok? && HasType(back.value, t) && NumberOf(back.value) == Some(n)
  {
  }

  /** An integer of any type goes out exactly when the bound type can hold it, and keeps its number. */
  lemma CoerceKeepsNumber(v: Value, t: TypeId, size: IoSize, floats: Floats, n: int)
    requires SignedType(t) || UnsignedType(t)
    requires ExpectedSize(t) == Some(size) && NumberOf(v) == Some(n)
    ensures CoerceToIo(v, t, size, floats).Ok? <==> Holds(t, size, n)
    ensures CoerceToIo(v, t, size, floats).Ok? ==>
      var back := CoerceFromIo(CoerceToIo(v, t, size, floats).value, t);
      back.Ok? && HasType(back.value, t) && NumberOf(back.value) == Some(n)
  {
    hide CoerceToIo, CoerceFromIo, NumberOf, HasType, Holds, Pattern;
    if SignedType(t) {
      SignedGoesOut(v, t, size, floats, n);
      if Holds(t, size, n) {
        SignedComesIn(t, size, n);
      }
    } else {
      UnsignedGoesOut(v, t, size, floats, n);
      if Holds(t, size, n) {
        UnsignedComesIn(t, size, n);
      }
    }
  }

  // ----- The bits that come in -----

  /** A signed variable gets the number in its range that is the pattern modulo the number of patterns. */
  lemma TwosComplement(w: Value, t: TypeId, size: IoSize)
    requires SignedType(t) && ExpectedSize(t) == Some(size) && Fits(size, w)
    ensures var back := CoerceFromIo(w, t);
      && back.Ok? && HasType(back.value, t) && NumberOf(back.value).Some?
      && var n := NumberOf(back.value).value;
         -Half(size) <= n < Half(size) && (n == WordValue(w) || n == WordValue(w) - 2 * Half(size))
  {
  }

  /** Every other type gets the pattern itself; an image value of another width is refused. */
  lemma BitsKept(w: Value, t: TypeId, size: IoSize)
    requires !SignedType(t) && ExpectedSize(t) == Some(size)
    ensures Fits(size, w) ==>
      match t
      case USINT => CoerceFromIo(w, t) == Ok(USInt(w.byte))
      case UINT => CoerceFromIo(w, t) == Ok(UInt(w.word))
      case UDINT => CoerceFromIo(w, t) == Ok(UDInt(w.dword))
      case ULINT => CoerceFromIo(w, t) == Ok(ULInt(w.lword))
      case REAL => CoerceFromIo(w, t) == Ok(Real(w.dword))
      case LREAL => CoerceFromIo(w, t) == Ok(LReal(w.lword))
      case CHAR => CoerceFromIo(w, t) == Ok(Char(w.byte))
      case WCHAR => CoerceFromIo(w, t) == Ok(WChar(w.word))
      case _ => CoerceFromIo(w, t) == Ok(w)
    ensures !Fits(size, w) ==> CoerceFromIo(w, t) == Err(TypeMismatch)
  {
  }

  /** What is not an integer does not go out as one, whatever the target's width. */
  lemma NoNumberNoInteger(v: Value, t: TypeId, size: IoSize, floats: Floats)
    requires SignedType(t) || UnsignedType(t)
    requires NumberOf(v) == None || ExpectedSize(t) != Some(size)
    ensures CoerceToIo(v, t, size, floats) == Err(TypeMismatch)
  {
  }
}
