/** Hexadecimal text: `int(s, 16)` on plain hex digits, `format(v, '04x')`,
    `bytes.fromhex(s)` and the two-digit upper-case spelling of a byte
    that the capture logs use. */
module Hex {
  import opened Wrappers
  import opened Bytes

  predicate IsHexDigit(c: char) {
    '0' <= c <= '9' || 'a' <= c <= 'f' || 'A' <= c <= 'F'
  }

  predicate IsHexString(s: string) {
    forall i :: 0 <= i < |s| ==> IsHexDigit(s[i])
  }

  function DigitValue(c: char): (r: nat)
    requires IsHexDigit(c)
    ensures r < 16
  {
    if '0' <= c <= '9' then c as int - '0' as int
    else if 'a' <= c <= 'f' then c as int - 'a' as int + 10
    else c as int - 'A' as int + 10
  }

  function Pow16(n: nat): (r: nat)
    ensures r > 0
  {
    if n == 0 then 1 else 16 * Pow16(n - 1)
  }

  /** The value of a string of hex digits, most significant first. */
  function HexValue(s: string): nat
    requires IsHexString(s)
  {
    if |s| == 0 then 0 else 16 * HexValue(s[..|s| - 1]) + DigitValue(s[|s| - 1])
  }

  lemma {:induction false} HexValueBound(s: string)
    requires IsHexString(s)
    ensures HexValue(s) < Pow16(|s|)
  {
    if |s| > 0 {
      HexValueBound(s[..|s| - 1]);
    }
  }

  lemma HexConcatDigits(a: string, b: string)
    requires IsHexString(a) && IsHexString(b)
    ensures IsHexString(a + b)
  {
    forall i | 0 <= i < |a + b|
      ensures IsHexDigit((a + b)[i])
    {
      if i < |a| {
        assert (a + b)[i] == a[i];
      } else {
        assert (a + b)[i] == b[i - |a|];
      }
    }
  }

  lemma ShiftAdd(x: int, p: int, y: int, d: int)
    ensures 16 * (x * p + y) + d == x * (16 * p) + (16 * y + d)
  {
  }

  /** Splitting a digit string splits its value. */
  lemma {:induction false} HexValueSplit(a: string, b: string)
    requires IsHexString(a) && IsHexString(b)
    ensures IsHexString(a + b)
    ensures HexValue(a + b) == HexValue(a) * Pow16(|b|) + HexValue(b)
  {
    HexConcatDigits(a, b);
    if |b| > 0 {
      var b' := b[..|b| - 1];
      var c := b[|b| - 1];
      assert (a + b)[..|a + b| - 1] == a + b';
      assert (a + b)[|a + b| - 1] == c;
      HexValueSplit(a, b');
      assert HexValue(a + b) == 16 * HexValue(a + b') + DigitValue(c);
      ShiftAdd(HexValue(a), Pow16(|b'|), HexValue(b'), DigitValue(c));
    } else {
      assert a + b == a;
    }
  }

  /** `int(s, 16)` where `s` is restricted to plain hex digits: empty or
      non-hex text is the ValueError case. */
  function ParseHexInt(s: string): (r: Option<nat>)
    ensures r.Some? <==> |s| > 0 && IsHexString(s)
    ensures r.Some? ==> r.value == HexValue(s) && r.value < Pow16(|s|)
  {
    if |s| > 0 && IsHexString(s) then
      HexValueBound(s);
      Some(HexValue(s))
    else
      None
  }

  /** At most four hex digits spell a value that fits in 16 bits. */
  lemma ShortHexIsU16(s: string)
    requires |s| <= 4 && ParseHexInt(s).Some?
    ensures ParseHexInt(s).value < 0x10000
  {
    assert Pow16(4) == 0x10000;
    if |s| < 4 {
      assert Pow16(|s|) <= Pow16(3) by {
        assert Pow16(0) == 1 && Pow16(1) == 16 && Pow16(2) == 256 && Pow16(3) == 4096;
      }
    }
  }

  /** The lower-case hex digit of `d`. */
  function DigitChar(d: nat): (c: char)
    requires d < 16
    ensures IsHexDigit(c) && DigitValue(c) == d
    ensures !('A' <= c <= 'F')
  {
    if d < 10 then ('0' as int + d) as char
    else ('a' as int + d - 10) as char
  }

  /** `format(v, 'x')`: the shortest lower-case hex spelling of `v`. */
  function ToHexLower(v: nat): (r: string)
    ensures |r| > 0 && IsHexString(r)
    ensures HexValue(r) == v
    ensures forall i :: 0 <= i < |r| ==> !('A' <= r[i] <= 'F')
    ensures r[0] == '0' <==> v == 0
    decreases v
  {
    if v < 16 then
      [DigitChar(v)]
    else
      var r := ToHexLower(v / 16) + [DigitChar(v % 16)];
      assert r[..|r| - 1] == ToHexLower(v / 16);
      r
  }

  lemma {:induction false} ToHexLowerLength(v: nat, k: nat)
    requires k > 0 && v < Pow16(k)
    ensures |ToHexLower(v)| <= k
    decreases v
  {
    if v >= 16 {
      ToHexLowerLength(v / 16, k - 1);
    }
  }

  lemma SmallValueFourDigits(v: nat)
    ensures v < 0x10000 ==> |ToHexLower(v)| <= 4
  {
    if v < 0x10000 {
      assert Pow16(4) == 0x10000;
      ToHexLowerLength(v, 4);
    }
  }

  function Zeros(n: nat): (r: string)
    ensures |r| == n && IsHexString(r) && HexValue(r) == 0
  {
    if n == 0 then "" else
      var r := Zeros(n - 1) + "0";
      assert r[..|r| - 1] == Zeros(n - 1);
      r
  }

  /** `format(v, '04x')`: lower-case hex, left-padded with zeros to at
      least four digits. */
  function Format04x(v: nat): (r: string)
    ensures IsHexString(r) && HexValue(r) == v
    ensures |r| >= 4
    ensures v < 0x10000 ==> |r| == 4
  {
    var digits := ToHexLower(v);
    if |digits| < 4 then
      var r := Zeros(4 - |digits|) + digits;
      HexValueSplit(Zeros(4 - |digits|), digits);
      r
    else
      SmallValueFourDigits(v);
      digits
  }

  lemma HexValueOfPair(hi: char, lo: char)
    requires IsHexDigit(hi) && IsHexDigit(lo)
    ensures HexValue([hi, lo]) == 16 * DigitValue(hi) + DigitValue(lo)
  {
    assert [hi, lo][..1] == [hi];
    assert [hi][..0] == [];
    assert HexValue([hi]) == 16 * HexValue([]) + DigitValue(hi);
  }

  /** The byte spelled by two hex digits. */
  function PairValue(hi: char, lo: char): (r: byte)
    requires IsHexDigit(hi) && IsHexDigit(lo)
    ensures r == HexValue([hi, lo])
  {
    HexValueOfPair(hi, lo);
    16 * DigitValue(hi) + DigitValue(lo)
  }

  /** `bytes.fromhex(s)` on text without whitespace: pairs of hex digits,
      one byte each; odd length or a non-hex character is a ValueError. */
  function FromHex(s: string): (r: Option<seq<byte>>)
    ensures r.Some? <==> |s| % 2 == 0 && IsHexString(s)
    ensures r.Some? ==> 2 * |r.value| == |s|
    ensures r.Some? ==> forall i :: 0 <= i < |r.value| ==>
      r.value[i] == PairValue(s[2 * i], s[2 * i + 1])
  {
    if |s| % 2 == 0 && IsHexString(s) then
      Some(seq(|s| / 2, i requires 0 <= i < |s| / 2 => PairValue(s[2 * i], s[2 * i + 1])))
    else
      None
  }

  /** Decoding a concatenation of two even-length digit strings decodes
      each part. */
  lemma FromHexAppend(a: string, b: string)
    requires FromHex(a).Some? && FromHex(b).Some?
    ensures FromHex(a + b) == Some(FromHex(a).value + FromHex(b).value)
  {
    HexConcatDigits(a, b);
    var x, y, z := FromHex(a).value, FromHex(b).value, FromHex(a + b).value;
    assert |z| == |x + y|;
    forall i | 0 <= i < |z|
      ensures z[i] == (x + y)[i]
    {
      if i < |x| {
        assert (a + b)[2 * i] == a[2 * i] && (a + b)[2 * i + 1] == a[2 * i + 1];
      } else {
        var j := i - |x|;
        assert (a + b)[2 * i] == b[2 * j] && (a + b)[2 * i + 1] == b[2 * j + 1];
      }
    }
    assert z == x + y;
  }

  /** Four hex digits decode to a big-endian byte pair holding their value. */
  lemma FromHexFourDigits(s: string)
    requires |s| == 4 && IsHexString(s)
    ensures FromHex(s).Some? && |FromHex(s).value| == 2
    ensures BeValue(FromHex(s).value[0], FromHex(s).value[1]) == HexValue(s)
  {
    var bs := FromHex(s).value;
    assert s[0..2] == [s[0], s[1]] && s[2..4] == [s[2], s[3]];
    assert s == s[0..2] + s[2..4];
    HexValueSplit(s[0..2], s[2..4]);
  }
}
