/**
 The size of decode storage for a record list: the descriptor array, rounded up to the storage alignment,
 then the data of all records. Computed with checked arithmetic by the scanner, and with plain integers
 by the Python binding.
 */
module StorageSize {
  import opened Wire
  import opened Records
  import opened RecordScan

  function DescriptorSize(p: Platform, kind: Kind): nat {
    match kind
    case Operations => p.operationSize
    case Captures => p.recordSize
  }

  /** The rounding the Python binding computes. */
  function RoundUp(value: nat, alignment: nat): nat
    requires alignment > 0
  {
    (value + alignment - 1) / alignment * alignment
  }

  /** Where the payload pool starts. */
  function PoolOffset(p: Platform, kind: Kind, count: nat): nat
    requires p.Valid()
  {
    RoundUp(count * DescriptorSize(p, kind), p.alignment)
  }

  function StorageNeeded(p: Platform, kind: Kind, records: seq<Record>): nat
    requires p.Valid()
  {
    if records == [] then 0 else PoolOffset(p, kind, |records|) + |Data(records)|
  }

  lemma ProductAtLeast(k: int, d: int)
    requires d > 0 && k >= 1
    ensures k * d >= d && -k * d <= -d
  {
    assert k * d == (k - 1) * d + d;
    assert -k * d == -(k * d);
  }

  lemma NoSmallMultiple(k: int, d: int, difference: int)
    requires d > 0 && k * d == difference && -d < difference < d
    ensures k == 0
  {
    if k >= 1 {
      ProductAtLeast(k, d);
    } else if k <= -1 {
      ProductAtLeast(-k, d);
    }
  }

  lemma DivisionIsUnique(value: int, d: int, q: int, r: int)
    requires d > 0 && value == q * d + r && 0 <= r < d
    ensures value / d == q && value % d == r
  {
    var quotient, rest := value / d, value % d;
    assert (q - quotient) * d == q * d - quotient * d;
    NoSmallMultiple(q - quotient, d, rest - r);
  }

  /** The two ways to round up agree, and the result is the least multiple that is no smaller. */
  lemma RoundUpIsLeastMultiple(value: nat, alignment: nat)
    requires alignment > 0
    ensures var up := RoundUp(value, alignment);
            && up % alignment == 0
            && value <= up < value + alignment
            && up == if value % alignment == 0 then value else value + (alignment - value % alignment)
  {
    var q, r := value / alignment, value % alignment;
    assert value == q * alignment + r;
    if r == 0 {
      DivisionIsUnique(value + alignment - 1, alignment, q, alignment - 1);
      DivisionIsUnique(q * alignment, alignment, q, 0);
    } else {
      assert (q + 1) * alignment == q * alignment + alignment;
      DivisionIsUnique(value + alignment - 1, alignment, q + 1, r - 1);
      DivisionIsUnique((q + 1) * alignment, alignment, q + 1, 0);
    }
  }

  /** The checked rounding succeeds exactly when the Python binding's result fits the size type. */
  lemma AlignUpIsRoundUp(p: Platform, value: nat, alignment: nat)
    requires alignment > 0 && value <= p.sizeMax
    ensures AlignUp(p, value, alignment)
         == if RoundUp(value, alignment) <= p.sizeMax then Some(RoundUp(value, alignment)) else None
  {
    RoundUpIsLeastMultiple(value, alignment);
  }

  lemma ProductFits(limit: nat, a: nat, b: nat)
    requires b > 0
    ensures a > limit / b <==> a * b > limit
  {
    if a > limit / b {
      assert a * b >= (limit / b + 1) * b;
    } else {
      assert a * b <= limit / b * b;
    }
  }

  lemma CheckedMulIsExact(p: Platform, a: nat, b: nat)
    requires b > 0
    ensures CheckedMul(p, a, b) == if a * b <= p.sizeMax then Some(a * b) else None
  {
    ProductFits(p.sizeMax, a, b);
  }

  /** The storage computation at the end of a scan: multiply, align, add, each step checked. */
  function ListStorage(p: Platform, kind: Kind, count: nat, total: nat): Option<nat>
    requires p.Valid()
  {
    match CheckedMul(p, count, DescriptorSize(p, kind))
    case None => None
    case Some(descriptors) =>
      match AlignUp(p, descriptors, p.alignment)
      case None => None
      case Some(pool) => CheckedAdd(p, pool, total)
  }

  /** Overflow is reported exactly when the true size does not fit. */
  lemma ListStorageIsExact(p: Platform, kind: Kind, count: nat, total: nat)
    requires p.Valid()
    ensures var exact := PoolOffset(p, kind, count) + total;
            ListStorage(p, kind, count, total) == if exact <= p.sizeMax then Some(exact) else None
  {
    var size := DescriptorSize(p, kind);
    CheckedMulIsExact(p, count, size);
    RoundUpIsLeastMultiple(count * size, p.alignment);
    if count * size <= p.sizeMax {
      AlignUpIsRoundUp(p, count * size, p.alignment);
    }
  }

  lemma PoolIsMonotone(p: Platform, kind: Kind, few: nat, many: nat)
    requires p.Valid() && few <= many
    ensures PoolOffset(p, kind, few) < many * DescriptorSize(p, kind) + p.alignment
  {
    RoundUpIsLeastMultiple(few * DescriptorSize(p, kind), p.alignment);
    assert few * DescriptorSize(p, kind) <= many * DescriptorSize(p, kind);
  }
}
