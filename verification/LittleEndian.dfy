/**
 Little-endian notation for any width: the base-256 digits of a number, least significant first. The fixed
 fields of the wire format are proved to be such digits, written as well as read.
 */
module LittleEndian {
  import opened Wire

  function Digits(width: nat, v: nat): (s: seq<byte>)
    ensures |s| == width
  {
    if width == 0 then [] else [v % 256] + Digits(width - 1, v / 256)
  }

  /** The number that digits stand for. */
  function ValueOf(s: seq<byte>): nat
    decreases |s|
  {
    if s == [] then 0 else (s[0] as int) + 256 * ValueOf(s[1..])
  }

  lemma {:induction false} DigitsOfValue(s: seq<byte>)
    ensures Digits(|s|, ValueOf(s)) == s
    decreases |s|
  {
    if s == [] {
    } else {
      DigitsOfValue(s[1..]);
      assert s == [s[0]] + s[1..];
      assert ValueOf(s) / 256 == ValueOf(s[1..]);
    }
  }

  function Power(width: nat): nat {
    if width == 0 then 1 else 256 * Power(width - 1)
  }

  lemma {:induction false} ValueOfDigits(width: nat, v: nat)
    requires v < Power(width)
    ensures ValueOf(Digits(width, v)) == v
  {
    if width == 0 {
    } else {
      ValueOfDigits(width - 1, v / 256);
      assert Digits(width, v)[1..] == Digits(width - 1, v / 256);
    }
  }

  /** Numbers that fit a field and have the same digits are the same. */
  lemma DigitsAreUnique(width: nat, one: nat, two: nat)
    requires one < Power(width) && two < Power(width) && Digits(width, one) == Digits(width, two)
    ensures one == two
  {
    ValueOfDigits(width, one);
    ValueOfDigits(width, two);
  }

  lemma FieldRanges()
    ensures Power(2) == 0x1_0000 && Power(4) == 0x1_0000_0000
  {
    assert Power(2) == 256 * Power(1);
    assert Power(4) == 256 * Power(3) && Power(3) == 256 * Power(2);
  }

  lemma TwoDigits(v: nat)
    ensures Digits(2, v) == [v % 256, v / 256 % 256]
  {
    assert Digits(1, v / 256) == [v / 256 % 256];
  }

  lemma FourDigits(v: nat)
    ensures Digits(4, v) == [v % 256, v / 256 % 256, v / 65536 % 256, v / 16777216 % 256]
  {
    TwoDigits(v / 65536);
    assert v / 256 / 256 == v / 65536 && v / 65536 / 256 == v / 16777216;
    assert Digits(3, v / 256) == [v / 256 % 256] + Digits(2, v / 65536);
  }

  /** What the codec writes into 16-bit and 32-bit fields. */
  lemma FieldsAreDigits(short: u16, long: u32)
    ensures U16Le(short) == Digits(2, short)
    ensures U32Le(long) == Digits(4, long)
  {
    TwoDigits(short);
    FourDigits(long);
    assert long / 16777216 < 256;
  }

  lemma TwoDigitValue(s: seq<byte>)
    requires |s| == 2
    ensures ValueOf(s) == (s[0] as int) + 256 * (s[1] as int)
  {
    assert ValueOf(s[1..]) == s[1] as int + 256 * ValueOf(s[1..][1..]);
  }

  lemma ShortReadsValue(s: seq<byte>, at: nat)
    requires at + 2 <= |s|
    ensures ReadU16(s, at) == ValueOf(s[at..at + 2])
  {
    TwoDigitValue(s[at..at + 2]);
  }

  lemma LongReadsValue(s: seq<byte>, at: nat)
    requires at + 4 <= |s|
    ensures ReadU32(s, at) == ValueOf(s[at..at + 4])
  {
    var t := s[at..at + 4];
    TwoDigitValue(t[2..]);
    assert t[1..][1..] == t[2..];
    assert ValueOf(t[1..]) == t[1] as int + 256 * ValueOf(t[2..]);
    assert ValueOf(t) == t[0] as int + 256 * ValueOf(t[1..]);
  }
}
