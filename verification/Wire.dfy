/** Bytes, little-endian fields and alignment, as the wire format and the storage layout use them. */
module Wire {

  type byte = b: int | 0 <= b < 256

  type u16 = v: int | 0 <= v < 0x1_0000

  type u32 = v: int | 0 <= v < 0x1_0000_0000

  function U16Le(v: u16): (s: seq<byte>)
    ensures |s| == 2
  {
    [v % 256, v / 256]
  }

  function U32Le(v: u32): (s: seq<byte>)
    ensures |s| == 4
  {
    [v % 256, v / 256 % 256, v / 65536 % 256, v / 16777216]
  }

  function ReadU16(s: seq<byte>, at: nat): (v: u16)
    requires at + 2 <= |s|
  {
    (s[at] as int) + 256 * (s[at + 1] as int)
  }

  function ReadU32(s: seq<byte>, at: nat): (v: u32)
    requires at + 4 <= |s|
  {
    (s[at] as int) + 256 * (s[at + 1] as int) + 65536 * (s[at + 2] as int) + 16777216 * (s[at + 3] as int)
  }

  /** Writing and reading a 16-bit field are inverse to each other. */
  lemma U16RoundTrip(s: seq<byte>, at: nat, v: u16)
    requires at + 2 <= |s|
    ensures ReadU16(s, at) == v <==> s[at..at + 2] == U16Le(v)
  {
  }

  lemma DigitsOfU32(v: u32, a: byte, b: byte, c: byte, d: byte)
    requires v == (a as int) + 256 * (b as int) + 65536 * (c as int) + 16777216 * (d as int)
    ensures v % 256 == a && v / 256 % 256 == b && v / 65536 % 256 == c && v / 16777216 == d
  {
    assert v / 256 == (b as int) + 256 * (c as int) + 65536 * (d as int);
    assert v / 65536 == (c as int) + 256 * (d as int);
  }

  lemma U32OfDigits(v: u32)
    ensures v == v % 256 + 256 * (v / 256 % 256) + 65536 * (v / 65536 % 256) + 16777216 * (v / 16777216)
  {
    assert v / 65536 == (v / 256) / 256 && v / 16777216 == (v / 65536) / 256;
  }

  /** Writing and reading a 32-bit field are inverse to each other. */
  lemma U32RoundTrip(s: seq<byte>, at: nat, v: u32)
    requires at + 4 <= |s|
    ensures ReadU32(s, at) == v <==> s[at..at + 4] == U32Le(v)
  {
    if ReadU32(s, at) == v {
      DigitsOfU32(v, s[at], s[at + 1], s[at + 2], s[at + 3]);
    }
    if s[at..at + 4] == U32Le(v) {
      assert s[at..at + 4][0] == s[at] && s[at..at + 4][1] == s[at + 1];
      assert s[at..at + 4][2] == s[at + 2] && s[at..at + 4][3] == s[at + 3];
      U32OfDigits(v);
    }
  }

  function Zeros(n: nat): (s: seq<byte>)
    ensures |s| == n
    ensures forall i :: 0 <= i < n ==> s[i] == 0
  {
    seq(n, i => 0)
  }

  /** Bytes that bring a size to the next multiple of four. */
  function Pad4(size: nat): (pad: nat)
    ensures pad < 4 && (size + pad) % 4 == 0
  {
    (4 - size % 4) % 4
  }

  // ---------------------------------------------------------------------------
  // Checked arithmetic on the target's size type
  // ---------------------------------------------------------------------------

  /** What the model takes from the target: the largest size value, and how descriptors are laid out. */
  datatype Platform = Platform(sizeMax: nat, operationSize: nat, recordSize: nat, alignment: nat) {
    ghost predicate Valid() {
      sizeMax >= 0xFFFF && operationSize > 0 && recordSize > 0 && alignment > 0
    }
  }

  datatype Option<+T> = None | Some(value: T)

  function CheckedAdd(p: Platform, a: nat, b: nat): Option<nat> {
    if b > p.sizeMax || a > p.sizeMax - b then None else Some(a + b)
  }

  function CheckedMul(p: Platform, a: nat, b: nat): Option<nat> {
    if b != 0 && a > p.sizeMax / b then None else Some(a * b)
  }

  function AlignUp(p: Platform, value: nat, alignment: nat): Option<nat> {
    if alignment == 0 then None
    else
      var remainder := value % alignment;
      if remainder == 0 then Some(value) else CheckedAdd(p, value, alignment - remainder)
  }
}
