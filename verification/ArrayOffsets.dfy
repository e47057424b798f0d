/**
 * Row-major offsets of array elements (memory.rs, `array_offset_i64`): the offset as a number,
 * the bijection and order it gives, and the source's loop with its machine integers.
 */
module ArrayOffsets {
  import opened Common

  const I64_MAX: int := 0x7FFF_FFFF_FFFF_FFFF
  const I128_MAX: int := 0x7FFF_FFFF_FFFF_FFFF_FFFF_FFFF_FFFF_FFFF
  const USIZE_MAX: int := 0xFFFF_FFFF_FFFF_FFFF

  type i64 = x: int | -0x8000_0000_0000_0000 <= x <= 0x7FFF_FFFF_FFFF_FFFF

  datatype Dimension = Dimension(lower: i64, upper: i64)

  function Span(d: Dimension): int
  {
    d.upper - d.lower + 1
  }

  predicate Within(d: Dimension, index: i64)
  {
    d.lower <= index <= d.upper
  }

  predicate InRange(dims: seq<Dimension>, indices: seq<i64>)
  {
    |dims| == |indices| && forall k :: 0 <= k < |dims| ==> Within(dims[k], indices[k])
  }

  /** The number of elements. */
  function Count(dims: seq<Dimension>): int
  {
    if dims == [] then 1 else Span(dims[0]) * Count(dims[1..])
  }

  /** The offset with the last index varying fastest. */
  function RowMajor(dims: seq<Dimension>, indices: seq<i64>): int
    requires InRange(dims, indices)
  {
    if dims == [] then 0
    else (indices[0] - dims[0].lower) * Count(dims[1..]) + RowMajor(dims[1..], indices[1..])
  }

  /** The offset of an index vector, if it is in range. */
  function OffsetOf(dims: seq<Dimension>, indices: seq<i64>): Option<int>
  {
    if InRange(dims, indices) then Some(RowMajor(dims, indices)) else None
  }

  // ----- The bijection -----

  lemma MulMonotone(a: int, b: int, p: int)
    requires a <= b && 0 <= p
    ensures a * p <= b * p
  {
  }

  lemma {:induction false} RowMajorBounded(dims: seq<Dimension>, indices: seq<i64>)
    requires InRange(dims, indices)
    ensures 0 <= RowMajor(dims, indices) < Count(dims)
  {
    if dims != [] {
      RowMajorBounded(dims[1..], indices[1..]);
      var p, q := Count(dims[1..]), indices[0] - dims[0].lower;
      MulMonotone(0, q, p);
      MulMonotone(q, Span(dims[0]) - 1, p);
      assert (Span(dims[0]) - 1) * p == Span(dims[0]) * p - p;
    }
  }

  /** Comparing `q * p + r` is comparing the quotients first. */
  lemma QuotientDecides(q: int, r: int, q': int, r': int, p: int)
    requires 0 <= r < p && 0 <= r' < p && q < q'
    ensures q * p + r < q' * p + r'
  {
    MulMonotone(q + 1, q', p);
    assert (q + 1) * p == q * p + p;
  }

  /** The first position where two vectors differ decides their order. */
  predicate IndexLess(a: seq<i64>, b: seq<i64>)
    requires |a| == |b|
  {
    a != [] && (a[0] < b[0] || (a[0] == b[0] && IndexLess(a[1..], b[1..])))
  }

  /** The offset keeps and reflects the lexicographic order. */
  lemma {:induction false} OffsetOrder(dims: seq<Dimension>, a: seq<i64>, b: seq<i64>)
    requires InRange(dims, a) && InRange(dims, b)
    ensures RowMajor(dims, a) < RowMajor(dims, b) <==> IndexLess(a, b)
    ensures RowMajor(dims, a) == RowMajor(dims, b) <==> a == b
  {
    if dims != [] {
      var rest := dims[1..];
      OffsetOrder(rest, a[1..], b[1..]);
      RowMajorBounded(rest, a[1..]);
      RowMajorBounded(rest, b[1..]);
      var qa, qb := a[0] - dims[0].lower, b[0] - dims[0].lower;
      var ra, rb := RowMajor(rest, a[1..]), RowMajor(rest, b[1..]);
      if qa < qb {
        QuotientDecides(qa, ra, qb, rb, Count(rest));
      } else if qb < qa {
        QuotientDecides(qb, rb, qa, ra, Count(rest));
      } else {
        assert a == [a[0]] + a[1..] && b == [b[0]] + b[1..];
      }
    } else {
      assert a == b;
    }
  }

  /** Every offset below the element count belongs to an index vector in range. */
  lemma {:induction false} OffsetOnto(dims: seq<Dimension>, n: int) returns (indices: seq<i64>)
    requires forall k :: 0 <= k < |dims| ==> dims[k].lower <= dims[k].upper
    requires 0 <= n < Count(dims)
    ensures InRange(dims, indices) && RowMajor(dims, indices) == n
  {
    if dims == [] {
      indices := [];
    } else {
      var p := Count(dims[1..]);
      CountPositive(dims[1..]);
      var q, r := Divide(n, p, Span(dims[0]));
      var rest := OffsetOnto(dims[1..], r);
      indices := [dims[0].lower + q] + rest;
      assert indices[1..] == rest;
    }
  }

  lemma Divide(n: int, p: int, count: int) returns (q: int, r: int)
    requires 0 < p && 0 <= n < count * p
    ensures n == q * p + r && 0 <= r < p && 0 <= q < count
  {
    q, r := n / p, n % p;
    assert n == q * p + r;
    if q >= count {
      MulMonotone(count, q, p);
    }
  }

  lemma {:induction false} CountPositive(dims: seq<Dimension>)
    requires forall k :: 0 <= k < |dims| ==> dims[k].lower <= dims[k].upper
    ensures Count(dims) >= 1
  {
    if dims != [] {
      CountPositive(dims[1..]);
      MulMonotone(1, Span(dims[0]), Count(dims[1..]));
    }
  }

  // ----- The loop over machine integers -----

  /** What the source computes; `Overflow` is an `i64` or `i128` operation out of range. */
  datatype OffsetResult = Offset(value: int) | NoOffset | Overflow

  predicate SpansFit(dims: seq<Dimension>)
  {
    forall k :: 0 <= k < |dims| ==> Span(dims[k]) <= I64_MAX
  }

  /** A suffix has at most as many elements as the whole. */
  lemma {:induction false} CountSuffix(dims: seq<Dimension>, i: nat)
    requires i <= |dims| && forall k :: 0 <= k < |dims| ==> dims[k].lower <= dims[k].upper
    ensures 1 <= Count(dims[i..]) <= Count(dims)
    decreases i
  {
    CountPositive(dims[i..]);
    if i == 0 {
      assert dims[0..] == dims;
    } else {
      CountSuffix(dims, i - 1);
      assert dims[i - 1..][1..] == dims[i..];
      MulMonotone(1, Span(dims[i - 1]), Count(dims[i..]));
    }
  }

  /** One step of the loop: the element before a suffix. */
  lemma PrependDimension(dims: seq<Dimension>, indices: seq<i64>, i: nat)
    requires 0 < i <= |dims| && |dims| == |indices|
    requires InRange(dims[i..], indices[i..]) && Within(dims[i - 1], indices[i - 1])
    ensures InRange(dims[i - 1..], indices[i - 1..])
    ensures Count(dims[i - 1..]) == Span(dims[i - 1]) * Count(dims[i..])
    ensures RowMajor(dims[i - 1..], indices[i - 1..])
         == RowMajor(dims[i..], indices[i..]) + (indices[i - 1] - dims[i - 1].lower) * Count(dims[i..])
    ensures SpansFit(dims[i..]) && Span(dims[i - 1]) <= I64_MAX ==> SpansFit(dims[i - 1..])
  {
    assert dims[i - 1..][1..] == dims[i..] && indices[i - 1..][1..] == indices[i..];
    var ds, ix := dims[i - 1..], indices[i - 1..];
    forall k | 0 <= k < |ds| ensures Within(ds[k], ix[k]) {
      if k > 0 {
        assert ds[k] == dims[i..][k - 1] && ix[k] == indices[i..][k - 1];
      }
    }
    assert forall k :: 0 < k < |ds| ==> ds[k] == dims[i..][k - 1];
  }

  /** What one round of the loop computes, and that it stays below the element count. */
  lemma StepBounds(dims: seq<Dimension>, indices: seq<i64>, i: nat, step: int, grown: int)
    requires 0 < i <= |dims| && |dims| == |indices|
    requires InRange(dims[i..], indices[i..]) && Within(dims[i - 1], indices[i - 1])
    requires step == (indices[i - 1] - dims[i - 1].lower) * Count(dims[i..])
    requires grown == Count(dims[i..]) * Span(dims[i - 1])
    ensures InRange(dims[i - 1..], indices[i - 1..])
    ensures Count(dims[i - 1..]) == grown
    ensures RowMajor(dims[i - 1..], indices[i - 1..]) == RowMajor(dims[i..], indices[i..]) + step < grown
    ensures 0 <= step <= RowMajor(dims[i..], indices[i..]) + step
    ensures SpansFit(dims[i..]) && Span(dims[i - 1]) <= I64_MAX ==> SpansFit(dims[i - 1..])
    ensures InRange(dims, indices) ==> grown <= Count(dims)
  {
    PrependDimension(dims, indices, i);
    RowMajorBounded(dims[i - 1..], indices[i - 1..]);
    RowMajorBounded(dims[i..], indices[i..]);
    MulMonotone(0, indices[i - 1] - dims[i - 1].lower, Count(dims[i..]));
    if InRange(dims, indices) {
      NonEmpty(dims, indices);
      CountSuffix(dims, i - 1);
    }
  }

  /** The last index out of range, where the loop, coming from the end, would notice. */
  predicate LastOutside(dims: seq<Dimension>, indices: seq<i64>, j: nat)
  {
    j < |dims| == |indices| && !Within(dims[j], indices[j]) && InRange(dims[j + 1..], indices[j + 1..])
  }

  /** Some index is the last one out of range when not all are in range. */
  lemma {:induction false} OutsideSomewhere(dims: seq<Dimension>, indices: seq<i64>) returns (j: nat)
    requires |dims| == |indices| && !InRange(dims, indices)
    ensures LastOutside(dims, indices, j)
    decreases |dims|
  {
    if InRange(dims[1..], indices[1..]) {
      j := 0;
      assert forall k :: 0 < k < |dims| ==> dims[k] == dims[1..][k - 1] && indices[k] == indices[1..][k - 1];
    } else {
      j := OutsideSomewhere(dims[1..], indices[1..]);
      j := j + 1;
      assert dims[1..][j..] == dims[j + 1..] && indices[1..][j..] == indices[j + 1..];
    }
  }

  /** The machine integers hold everything computed for these dimensions. */
  predicate Manageable(dims: seq<Dimension>)
  {
    SpansFit(dims) && Count(dims) <= I128_MAX
  }

  lemma WithinSuffix(dims: seq<Dimension>, indices: seq<i64>, i: nat, k: nat)
    requires i <= k < |dims| == |indices| && InRange(dims[i..], indices[i..])
    ensures Within(dims[k], indices[k])
  {
    assert Within(dims[i..][k - i], indices[i..][k - i]);
  }

  /** A position before an index that is out of range is not the last outside. */
  lemma OutsideBounds(dims: seq<Dimension>, indices: seq<i64>, i: nat, j: nat)
    requires i <= |dims| == |indices| && InRange(dims[i..], indices[i..]) && LastOutside(dims, indices, j)
    ensures j < i
    ensures i > 0 && !Within(dims[i - 1], indices[i - 1]) ==> j == i - 1
  {
    if j >= i {
      WithinSuffix(dims, indices, i, j);
      assert false;
    }
    if j < i - 1 {
      WithinSuffix(dims, indices, j + 1, i - 1);
    }
  }

  /** What overflows at dimension `i` overflows for every longer list in range. */
  lemma OverflowsFrom(dims: seq<Dimension>, indices: seq<i64>, i: nat, j: nat)
    requires j <= i < |dims| == |indices| && InRange(dims[j..], indices[j..])
    requires Span(dims[i]) > I64_MAX || Count(dims[i..]) > I128_MAX
    ensures !Manageable(dims[j..])
  {
    var ds, ix := dims[j..], indices[j..];
    NonEmpty(ds, ix);
    CountSuffix(ds, i - j);
    assert ds[i - j..] == dims[i..] && ds[i - j] == dims[i];
  }

  /**
   * The offset of an element. For indices in range an operation overflows exactly when some span
   * exceeds `i64` or the element count exceeds `i128`; otherwise the result is the row-major
   * offset, unless that exceeds `usize`. For indices out of range there is no offset: the loop
   * overflows when it does so on the dimensions behind the last index out of range, and returns
   * nothing otherwise.
   */
  method ArrayOffset(dims: seq<Dimension>, indices: seq<i64>) returns (r: OffsetResult)
    ensures |dims| != |indices| ==> r == NoOffset
    ensures InRange(dims, indices) ==> (r.Overflow? <==> !Manageable(dims))
    ensures InRange(dims, indices) && !r.Overflow? ==>
      r == if RowMajor(dims, indices) <= USIZE_MAX then Offset(RowMajor(dims, indices)) else NoOffset
    ensures forall j: nat :: LastOutside(dims, indices, j) ==> r == if Manageable(dims[j + 1..]) then NoOffset else Overflow
    ensures !InRange(dims, indices) ==> !r.Offset?
  {
    hide LastOutside;
    if |dims| != |indices| {
      NeverOutside(dims, indices);
      return NoOffset;
    }
    var offset, stride := 0, 1;
    var i := |dims|;
    while i > 0
      invariant 0 <= i <= |dims|
      invariant InRange(dims[i..], indices[i..])
      invariant stride == Count(dims[i..]) <= I128_MAX
      invariant offset == RowMajor(dims[i..], indices[i..])
      invariant SpansFit(dims[i..])
    {
      var d, index := dims[i - 1], indices[i - 1];
      if index < d.lower || index > d.upper {
        OutsideHere(dims, indices, i);
        return NoOffset;
      }
      var len := d.upper - d.lower + 1;
      if len > I64_MAX {
        OverflowHere(dims, indices, i);
        return Overflow;
      }
      var step := (index - d.lower) * stride;
      var grown := stride * len;
      StepBounds(dims, indices, i, step, grown);
      if step > I128_MAX || offset + step > I128_MAX {
        OverflowHere(dims, indices, i);
        return Overflow;
      }
      offset := offset + step;
      if grown > I128_MAX {
        OverflowHere(dims, indices, i);
        return Overflow;
      }
      stride := grown;
      i := i - 1;
    }
    assert dims[0..] == dims && indices[0..] == indices;
    AllInside(dims, indices);
    r := if offset <= USIZE_MAX then Offset(offset) else NoOffset;
  }

  lemma NeverOutside(dims: seq<Dimension>, indices: seq<i64>)
    requires |dims| != |indices|
    ensures !InRange(dims, indices) && forall j: nat :: !LastOutside(dims, indices, j)
  {
  }

  lemma AllInside(dims: seq<Dimension>, indices: seq<i64>)
    requires InRange(dims, indices)
    ensures forall j: nat :: !LastOutside(dims, indices, j)
  {
  }

  /** The loop has met the last index out of range. */
  lemma OutsideHere(dims: seq<Dimension>, indices: seq<i64>, i: nat)
    requires 0 < i <= |dims| == |indices| && InRange(dims[i..], indices[i..]) && Manageable(dims[i..])
    requires !Within(dims[i - 1], indices[i - 1])
    ensures !InRange(dims, indices)
    ensures forall j: nat :: LastOutside(dims, indices, j) ==> Manageable(dims[j + 1..])
  {
    forall j: nat | LastOutside(dims, indices, j) ensures Manageable(dims[j + 1..]) {
      OutsideBounds(dims, indices, i, j);
    }
  }

  /** The loop overflows at a dimension behind every index out of range. */
  lemma OverflowHere(dims: seq<Dimension>, indices: seq<i64>, i: nat)
    requires 0 < i <= |dims| == |indices| && InRange(dims[i..], indices[i..])
    requires Within(dims[i - 1], indices[i - 1])
    requires Span(dims[i - 1]) > I64_MAX || Count(dims[i - 1..]) > I128_MAX
    ensures InRange(dims, indices) ==> !Manageable(dims)
    ensures forall j: nat :: LastOutside(dims, indices, j) ==> !Manageable(dims[j + 1..])
  {
    if InRange(dims, indices) {
      assert dims[0..] == dims && indices[0..] == indices;
      OverflowsFrom(dims, indices, i - 1, 0);
    }
    forall j: nat | LastOutside(dims, indices, j) ensures !Manageable(dims[j + 1..]) {
      OutsideBounds(dims, indices, i, j);
      OverflowsFrom(dims, indices, i - 1, j + 1);
    }
  }

  lemma NonEmpty(dims: seq<Dimension>, indices: seq<i64>)
    requires InRange(dims, indices)
    ensures forall k :: 0 <= k < |dims| ==> dims[k].lower <= dims[k].upper
  {
    forall k | 0 <= k < |dims| ensures dims[k].lower <= dims[k].upper {
      assert Within(dims[k], indices[k]);
    }
  }
}
