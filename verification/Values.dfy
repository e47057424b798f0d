/**
 * Runtime values and access along a path inside one value (value/types.rs and memory.rs,
 * `read_by_ref_path` and `write_by_ref_path`).
 */
module Values {
  import opened Common
  import opened ArrayOffsets

  type i8 = x: int | -0x80 <= x < 0x80
  type i16 = x: int | -0x8000 <= x < 0x8000
  type i32 = x: int | -0x8000_0000 <= x < 0x8000_0000
  type u8 = x: int | 0 <= x < 0x100
  type u16 = x: int | 0 <= x < 0x1_0000
  type u32 = x: int | 0 <= x < 0x1_0000_0000
  type u64 = x: int | 0 <= x < 0x1_0000_0000_0000_0000

  datatype IoArea = Input | Output | Memory

  datatype MemoryLocation =
    | Global
    | Local(frame: nat)
    | OfInstance(instance: nat)
    | Io(area: IoArea)
    | Retain

  datatype RefSegment = Index(indices: seq<i64>) | Field(name: string)

  datatype ValueRef = ValueRef(location: MemoryLocation, offset: nat, path: seq<RefSegment>)

  /** A runtime value; floating-point values are kept as their bit patterns, times as ticks. */
  datatype Value =
    | Bool(flag: bool)
    | SInt(sint: i8) | Int(int_: i16) | DInt(dint: i32) | LInt(lint: i64)
    | USInt(usint: u8) | UInt(uint: u16) | UDInt(udint: u32) | ULInt(ulint: u64)
    | Real(bits32: u32) | LReal(bits64: u64)
    | Byte(byte: u8) | Word(word: u16) | DWord(dword: u32) | LWord(lword: u64)
    | Ticks(ticks: i64)
    | Text(text: string) | Char(char_: u8) | WChar(wchar: u16)
    | Array(elements: seq<Value>, dimensions: seq<Dimension>)
    | Struct(typeName: string, fields: seq<Slot>)
    | Enum(variant: string, number: i64)
    | Reference(target: Option<ValueRef>)
    | Instance(id: nat)
    | Null

  /** A named variable; a sequence of slots with different names is an insertion-ordered map. */
  datatype Slot = Slot(name: string, value: Value)

  // ----- Insertion-ordered maps -----

  function IndexOf(slots: seq<Slot>, name: string): (r: Option<nat>)
    ensures r.Some? ==> r.value < |slots| && slots[r.value].name == name
    ensures r.Some? ==> forall k :: 0 <= k < r.value ==> slots[k].name != name
    ensures r.None? ==> forall k :: 0 <= k < |slots| ==> slots[k].name != name
  {
    if slots == [] then None
    else if slots[0].name == name then Some(0)
    else match IndexOf(slots[1..], name)
      case Some(k) => Some(k + 1)
      case None => None
  }

  function Get(slots: seq<Slot>, name: string): Option<Value>
  {
    match IndexOf(slots, name)
    case Some(k) => Some(slots[k].value)
    case None => None
  }

  /** Replaces the value of a known name in place; appends a new name. */
  function Insert(slots: seq<Slot>, name: string, value: Value): seq<Slot>
  {
    match IndexOf(slots, name)
    case Some(k) => slots[k := Slot(name, value)]
    case None => slots + [Slot(name, value)]
  }

  /** Positions depend on the names alone. */
  lemma {:induction false} SameNamesSameIndex(a: seq<Slot>, b: seq<Slot>, name: string)
    requires |a| <= |b| && forall k :: 0 <= k < |a| ==> a[k].name == b[k].name
    requires IndexOf(a, name).Some? || |a| == |b|
    ensures IndexOf(a, name) == IndexOf(b, name)
  {
    if a != [] && a[0].name != name {
      SameNamesSameIndex(a[1..], b[1..], name);
    }
  }

  /** An insertion is read back, leaves every other name alone, and moves no known name. */
  lemma InsertGet(slots: seq<Slot>, name: string, value: Value, other: string)
    ensures Get(Insert(slots, name, value), name) == Some(value)
    ensures other != name ==> Get(Insert(slots, name, value), other) == Get(slots, other)
    ensures IndexOf(slots, other).Some? ==> IndexOf(Insert(slots, name, value), other) == IndexOf(slots, other)
  {
    InsertIndex(slots, name, value, name);
    InsertIndex(slots, name, value, other);
  }

  lemma InsertIndex(slots: seq<Slot>, name: string, value: Value, other: string)
    ensures var after := Insert(slots, name, value);
      IndexOf(after, other) == if other == name && IndexOf(slots, name).None? then Some(|slots|) else IndexOf(slots, other)
  {
    var after := Insert(slots, name, value);
    if IndexOf(slots, name).Some? || IndexOf(slots, other).Some? {
      SameNamesSameIndex(slots, after, other);
    } else {
      assert after[|slots|].name == name;
      assert forall k :: 0 <= k < |slots| ==> after[k] == slots[k];
    }
  }

  // ----- Children of a composite value -----

  /** The position of the child that a segment selects: a field of that name, or an array element. */
  function Locate(v: Value, segment: RefSegment): (r: Option<nat>)
    ensures r.Some? ==> r.value < ChildCount(v)
  {
    match segment
    case Field(name) =>
      if v.Struct? then IndexOf(v.fields, name) else None
    case Index(indices) =>
      if v.Array? then
        match OffsetOf(v.dimensions, indices)
        case Some(offset) => if 0 <= offset < |v.elements| then Some(offset) else None
        case None => None
      else None
  }

  function ChildCount(v: Value): nat
  {
    match v
    case Struct(_, fields) => |fields|
    case Array(elements, _) => |elements|
    case _ => 0
  }

  function Child(v: Value, k: nat): Value
    requires k < ChildCount(v)
  {
    match v
    case Struct(_, fields) => fields[k].value
    case Array(elements, _) => elements[k]
  }

  function WithChild(v: Value, k: nat, child: Value): (r: Value)
    requires k < ChildCount(v)
    ensures ChildCount(r) == ChildCount(v)
  {
    match v
    case Struct(typeName, fields) => Struct(typeName, fields[k := Slot(fields[k].name, child)])
    case Array(elements, dimensions) => Array(elements[k := child], dimensions)
  }

  lemma WithChildTwice(v: Value, k: nat, a: Value, b: Value)
    requires k < ChildCount(v)
    ensures WithChild(WithChild(v, k, a), k, b) == WithChild(v, k, b)
  {
    if v.Struct? {
      var name := v.fields[k].name;
      assert v.fields[k := Slot(name, a)][k := Slot(name, b)] == v.fields[k := Slot(name, b)];
    } else {
      assert v.elements[k := a][k := b] == v.elements[k := b];
    }
  }

  lemma WithChildFrame(v: Value, k: nat, child: Value, segment: RefSegment, j: nat)
    requires k < ChildCount(v)
    ensures Locate(WithChild(v, k, child), segment) == Locate(v, segment)
    ensures j < ChildCount(v) ==> Child(WithChild(v, k, child), j) == if j == k then child else Child(v, j)
    ensures WithChild(v, k, Child(v, k)) == v
  {
    var after := WithChild(v, k, child);
    if v.Struct? && segment.Field? {
      SameNamesSameIndex(v.fields, after.fields, segment.name);
    }
    if v.Struct? {
      assert v.fields[k := Slot(v.fields[k].name, v.fields[k].value)] == v.fields;
    } else {
      assert v.elements[k := v.elements[k]] == v.elements;
    }
  }

  /** Different segments of one value select different children. */
  lemma LocateInjective(v: Value, a: RefSegment, b: RefSegment)
    requires Locate(v, a).Some? && Locate(v, b).Some? && a != b
    ensures Locate(v, a) != Locate(v, b)
  {
    if v.Array? {
      OffsetOrder(v.dimensions, a.indices, b.indices);
    }
  }

  // ----- Access along a path -----

  function ReadPath(v: Value, path: seq<RefSegment>): Option<Value>
    decreases |path|
  {
    if path == [] then Some(v)
    else match Locate(v, path[0])
      case Some(k) => ReadPath(Child(v, k), path[1..])
      case None => None
  }

  /** Whether the write succeeds, and the value afterwards. */
  function WritePath(target: Value, path: seq<RefSegment>, value: Value): (bool, Value)
    decreases |path|
  {
    if path == [] then (true, value)
    else match Locate(target, path[0])
      case Some(k) =>
        var (ok, child) := WritePath(Child(target, k), path[1..], value);
        (ok, WithChild(target, k, child))
      case None => (false, target)
  }

  /** Neither path starts with the other. */
  predicate Disjoint(p: seq<RefSegment>, q: seq<RefSegment>)
  {
    !(p <= q) && !(q <= p)
  }

  /** A write succeeds exactly where a read does; a failed write changes nothing. */
  lemma {:induction false} WriteWhereReadable(v: Value, path: seq<RefSegment>, x: Value)
    ensures WritePath(v, path, x).0 <==> ReadPath(v, path).Some?
    ensures !WritePath(v, path, x).0 ==> WritePath(v, path, x).1 == v
    decreases |path|
  {
    if path != [] && Locate(v, path[0]).Some? {
      var k := Locate(v, path[0]).value;
      WriteWhereReadable(Child(v, k), path[1..], x);
      WithChildFrame(v, k, x, path[0], k);
    }
  }

  /** What is written is what the next read returns. */
  lemma {:induction false} PutGet(v: Value, path: seq<RefSegment>, x: Value)
    requires WritePath(v, path, x).0
    ensures ReadPath(WritePath(v, path, x).1, path) == Some(x)
    decreases |path|
  {
    if path != [] {
      var k := Locate(v, path[0]).value;
      PutGet(Child(v, k), path[1..], x);
      WithChildFrame(v, k, WritePath(Child(v, k), path[1..], x).1, path[0], k);
    }
  }

  /** Writing back the value read changes nothing. */
  lemma {:induction false} GetPut(v: Value, path: seq<RefSegment>)
    requires ReadPath(v, path).Some?
    ensures WritePath(v, path, ReadPath(v, path).value) == (true, v)
    decreases |path|
  {
    if path != [] {
      var k := Locate(v, path[0]).value;
      GetPut(Child(v, k), path[1..]);
      WithChildFrame(v, k, Child(v, k), path[0], k);
    }
  }

  /** A second write at the same path hides the first. */
  lemma {:induction false} PutPut(v: Value, path: seq<RefSegment>, x: Value, y: Value)
    requires WritePath(v, path, x).0
    ensures WritePath(WritePath(v, path, x).1, path, y) == WritePath(v, path, y)
    decreases |path|
  {
    if path != [] {
      var k := Locate(v, path[0]).value;
      var child := WritePath(Child(v, k), path[1..], x).1;
      PutPut(Child(v, k), path[1..], x, y);
      WithChildFrame(v, k, child, path[0], k);
      WithChildTwice(v, k, child, WritePath(Child(v, k), path[1..], y).1);
    }
  }

  /** A write leaves alone whatever is read at a path that neither contains it nor lies inside it. */
  lemma {:induction false} DisjointRead(v: Value, p: seq<RefSegment>, q: seq<RefSegment>, x: Value)
    requires Disjoint(p, q)
    ensures ReadPath(WritePath(v, p, x).1, q) == ReadPath(v, q)
    decreases |p|
  {
    hide Locate, WithChild, Child, ChildCount;
    if Locate(v, p[0]).Some? {
      var k := Locate(v, p[0]).value;
      var child := WritePath(Child(v, k), p[1..], x).1;
      if Locate(v, q[0]).Some? {
        var j := Locate(v, q[0]).value;
        WithChildFrame(v, k, child, q[0], j);
        if p[0] == q[0] {
          assert Disjoint(p[1..], q[1..]) by {
            assert p == [p[0]] + p[1..] && q == [q[0]] + q[1..];
          }
          DisjointRead(Child(v, k), p[1..], q[1..], x);
        } else {
          LocateInjective(v, p[0], q[0]);
        }
      } else {
        WithChildFrame(v, k, child, q[0], k);
      }
    }
  }

  // ----- Which part a path selects -----

  predicate DistinctSlots(slots: seq<Slot>)
  {
    forall i, j :: 0 <= i < j < |slots| ==> slots[i].name != slots[j].name
  }

  /** The value of a slot is what its name gets; a name of no slot gets nothing. */
  lemma GetSelects(slots: seq<Slot>, name: string)
    ensures forall k :: 0 <= k < |slots| && DistinctSlots(slots) && slots[k].name == name ==>
      IndexOf(slots, name) == Some(k) && Get(slots, name) == Some(slots[k].value)
    ensures (forall k :: 0 <= k < |slots| ==> slots[k].name != name) ==> Get(slots, name).None?
  {
  }

  lemma {:induction false} ReadOn(v: Value, p: seq<RefSegment>, t: seq<RefSegment>)
    ensures ReadPath(v, p + t) == match ReadPath(v, p) case Some(u) => ReadPath(u, t) case None => None
    decreases |p|
  {
    if p == [] {
      assert p + t == t;
    } else {
      assert (p + t)[1..] == p[1..] + t;
      if Locate(v, p[0]).Some? {
        ReadOn(Child(v, Locate(v, p[0]).value), p[1..], t);
      }
    }
  }

  /** A value other than that, and without parts where that has none. */
  function Other(u: Value): Value
  {
    if u == Null then Bool(true) else Null
  }

  /** A write is seen at every readable path that starts with its own, or that its own starts with. */
  lemma {:induction false} SharedSeen(v: Value, p: seq<RefSegment>, q: seq<RefSegment>)
    requires ReadPath(v, p).Some? && ReadPath(v, q).Some? && !Disjoint(p, q)
    ensures ReadPath(WritePath(v, p, Other(ReadPath(v, p).value)).1, q) != ReadPath(v, q)
  {
    var u := ReadPath(v, p).value;
    var after := WritePath(v, p, Other(u)).1;
    WriteWhereReadable(v, p, Other(u));
    PutGet(v, p, Other(u));
    hide WritePath;
    if p <= q {
      var t := q[|p|..];
      assert q == p + t;
      ReadOn(v, p, t);
      ReadOn(after, p, t);
    } else {
      var t := p[|q|..];
      assert p == q + t;
      ReadOn(v, q, t);
      ReadOn(after, q, t);
    }
  }

  /** A field path reads the field of that name. */
  lemma FieldRead(typeName: string, fields: seq<Slot>, k: nat, rest: seq<RefSegment>)
    requires DistinctSlots(fields) && k < |fields|
    ensures ReadPath(Struct(typeName, fields), [Field(fields[k].name)] + rest) == ReadPath(fields[k].value, rest)
  {
    var path := [Field(fields[k].name)] + rest;
    GetSelects(fields, fields[k].name);
    assert path[1..] == rest;
  }

  /** A field path writes the field of that name and no other. */
  lemma FieldWritten(typeName: string, fields: seq<Slot>, k: nat, rest: seq<RefSegment>, x: Value)
    requires DistinctSlots(fields) && k < |fields|
    ensures var (ok, child) := WritePath(fields[k].value, rest, x);
      WritePath(Struct(typeName, fields), [Field(fields[k].name)] + rest, x) ==
        (ok, Struct(typeName, fields[k := Slot(fields[k].name, child)]))
  {
    var path := [Field(fields[k].name)] + rest;
    GetSelects(fields, fields[k].name);
    assert path[1..] == rest;
  }

  /** The sum of index distances, each weighted by the number of elements behind its dimension. */
  function StrideSum(dims: seq<Dimension>, indices: seq<i64>, k: nat): int
    requires k <= |dims| == |indices|
  {
    if k == 0 then 0
    else StrideSum(dims, indices, k - 1) + (indices[k - 1] - dims[k - 1].lower) * Count(dims[k..])
  }

  lemma {:induction false} StrideSumFront(dims: seq<Dimension>, indices: seq<i64>, k: nat)
    requires 0 < k <= |dims| == |indices|
    ensures StrideSum(dims, indices, k) ==
      (indices[0] - dims[0].lower) * Count(dims[1..]) + StrideSum(dims[1..], indices[1..], k - 1)
  {
    if k > 1 {
      StrideSumFront(dims, indices, k - 1);
      assert dims[1..][k - 1..] == dims[k..];
    }
  }

  lemma {:induction false} RowMajorIsStrideSum(dims: seq<Dimension>, indices: seq<i64>)
    requires InRange(dims, indices)
    ensures RowMajor(dims, indices) == StrideSum(dims, indices, |dims|)
  {
    if dims != [] {
      RowMajorIsStrideSum(dims[1..], indices[1..]);
      StrideSumFront(dims, indices, |dims|);
    }
  }

  /** An index path reads the element at the weighted sum of its indices. */
  lemma ElementRead(elements: seq<Value>, dims: seq<Dimension>, indices: seq<i64>, rest: seq<RefSegment>)
    requires InRange(dims, indices) && 0 <= StrideSum(dims, indices, |dims|) < |elements|
    ensures ReadPath(Array(elements, dims), [Index(indices)] + rest)
         == ReadPath(elements[StrideSum(dims, indices, |dims|)], rest)
  {
    var path := [Index(indices)] + rest;
    assert path[1..] == rest;
    RowMajorIsStrideSum(dims, indices);
  }

  /** Indices out of range, or of an element beyond the last one, select nothing. */
  lemma ElementMissing(elements: seq<Value>, dims: seq<Dimension>, indices: seq<i64>, rest: seq<RefSegment>, x: Value)
    requires InRange(dims, indices) ==> StrideSum(dims, indices, |dims|) >= |elements|
    ensures ReadPath(Array(elements, dims), [Index(indices)] + rest).None?
    ensures WritePath(Array(elements, dims), [Index(indices)] + rest, x) == (false, Array(elements, dims))
  {
    var path := [Index(indices)] + rest;
    assert path[0] == Index(indices);
    if InRange(dims, indices) {
      RowMajorIsStrideSum(dims, indices);
    }
  }

  lemma StrideSumNatural(dims: seq<Dimension>, indices: seq<i64>)
    requires InRange(dims, indices)
    ensures 0 <= StrideSum(dims, indices, |dims|)
  {
    RowMajorIsStrideSum(dims, indices);
    RowMajorBounded(dims, indices);
  }

  /** An index path writes that element and no other. */
  lemma ElementWritten(elements: seq<Value>, dims: seq<Dimension>, indices: seq<i64>, rest: seq<RefSegment>, x: Value)
    requires InRange(dims, indices) && 0 <= StrideSum(dims, indices, |dims|) < |elements|
    ensures var k := StrideSum(dims, indices, |dims|);
      var (ok, child) := WritePath(elements[k], rest, x);
      WritePath(Array(elements, dims), [Index(indices)] + rest, x) == (ok, Array(elements[k := child], dims))
  {
    var path := [Index(indices)] + rest;
    assert path[1..] == rest;
    RowMajorIsStrideSum(dims, indices);
  }

  /** Nothing is selected by an unknown field, a field of another kind of value, or an index into one. */
  lemma NothingSelected(v: Value, segment: RefSegment, rest: seq<RefSegment>, x: Value)
    requires match segment
      case Field(name) => v.Struct? ==> forall k :: 0 <= k < |v.fields| ==> v.fields[k].name != name
      case Index(indices) => !v.Array?
    ensures ReadPath(v, [segment] + rest).None? && WritePath(v, [segment] + rest, x) == (false, v)
  {
    var path := [segment] + rest;
    assert path[0] == segment;
  }
}
