/** Bytes and the fixed-width integer packings the Modbus engine uses:
    `struct.pack('>H')`, `struct.pack('<H')`, `struct.pack('>h')`,
    `struct.unpack('>h')` and `int.to_bytes(n, 'little')`. Every packing
    fails (None) exactly where Python raises `struct.error` or
    `OverflowError`. */
module Bytes {
  import opened Wrappers

  type byte = x: int | 0 <= x < 256

  /** True when `x` fits an unsigned 16-bit field (format code `H`). */
  predicate InU16(x: int) {
    0 <= x < 0x10000
  }

  /** True when `x` fits a signed 16-bit field (format code `h`). */
  predicate InI16(x: int) {
    -0x8000 <= x < 0x8000
  }

  /** The unsigned value of a big-endian byte pair. */
  function BeValue(hi: byte, lo: byte): (r: int)
    ensures InU16(r)
  {
    hi * 256 + lo
  }

  /** The value of a little-endian byte string. */
  function LeValue(bs: seq<byte>): nat
  {
    if |bs| == 0 then 0 else bs[0] + 256 * LeValue(bs[1..])
  }

  function Pow256(n: nat): (r: nat)
    ensures r > 0
  {
    if n == 0 then 1 else 256 * Pow256(n - 1)
  }

  /** `struct.pack('>H', x)`: high byte first. */
  function PackBeU16(x: int): (r: Option<seq<byte>>)
    ensures r.Some? <==> InU16(x)
    ensures r.Some? ==> |r.value| == 2 && BeValue(r.value[0], r.value[1]) == x
  {
    if InU16(x) then Some([x / 256, x % 256]) else None
  }

  /** A big-endian pair is the packing of its own value. */
  lemma PackBeOfValue(hi: byte, lo: byte)
    ensures PackBeU16(BeValue(hi, lo)) == Some([hi, lo])
  {
    var x := hi * 256 + lo;
    assert x / 256 == hi && x % 256 == lo;
  }

  /** `struct.pack('<H', x)`: low byte first. */
  function PackLeU16(x: int): (r: Option<seq<byte>>)
    ensures r.Some? <==> InU16(x)
    ensures r.Some? ==> |r.value| == 2 && BeValue(r.value[1], r.value[0]) == x
  {
    if InU16(x) then Some([x % 256, x / 256]) else None
  }

  /** `struct.pack('>h', x)`: the 16-bit two's-complement pattern of `x`,
      high byte first. */
  function PackBeI16(x: int): (r: Option<seq<byte>>)
    ensures r.Some? <==> InI16(x)
    ensures r.Some? ==> |r.value| == 2 && BeValue(r.value[0], r.value[1]) == x % 0x10000
  {
    if InI16(x) then
      var u := x % 0x10000;
      Some([u / 256, u % 256])
    else
      None
  }

  /** `struct.unpack('>h', bytes([hi, lo]))[0]`: the big-endian pair read
      as a signed 16-bit integer. */
  function UnpackBeI16(hi: byte, lo: byte): (r: int)
    ensures InI16(r)
    ensures r % 0x10000 == BeValue(hi, lo)
    ensures r < 0 <==> hi >= 0x80
  {
    var u := hi * 256 + lo;
    if u >= 0x8000 then u - 0x10000 else u
  }

  /** Unpacking a signed pair undoes packing it. */
  lemma SignedRoundTrip(x: int)
    requires InI16(x)
    ensures var bs := PackBeI16(x).value; UnpackBeI16(bs[0], bs[1]) == x
  {
  }

  /** The `n` low-order base-256 digits of `x`, least significant first. */
  function LittleDigits(x: nat, n: nat): seq<byte>
  {
    if n == 0 then [] else [x % 256] + LittleDigits(x / 256, n - 1)
  }

  lemma {:induction false} LittleDigitsValue(x: nat, n: nat)
    requires x < Pow256(n)
    ensures |LittleDigits(x, n)| == n
    ensures LeValue(LittleDigits(x, n)) == x
  {
    if n > 0 {
      LittleDigitsValue(x / 256, n - 1);
      assert LittleDigits(x, n)[1..] == LittleDigits(x / 256, n - 1);
    }
  }

  /** `x.to_bytes(n, byteorder='little')`: fails with OverflowError when
      `x` is negative or needs more than `n` bytes. */
  function ToBytesLittle(x: int, n: nat): (r: Option<seq<byte>>)
    ensures r.Some? <==> 0 <= x < Pow256(n)
    ensures r.Some? ==> |r.value| == n && LeValue(r.value) == x
  {
    if 0 <= x < Pow256(n) then
      LittleDigitsValue(x, n);
      Some(LittleDigits(x, n))
    else
      None
  }

  /** `int.to_bytes(2, 'little')` and `struct.pack('<H')` agree on every
      integer, including on which integers they reject. */
  lemma ToBytesLittleIsPackLe(x: int)
    ensures ToBytesLittle(x, 2) == PackLeU16(x)
  {
    assert Pow256(2) == 0x10000;
    if InU16(x) {
      assert LittleDigits(x / 256, 1) == [(x / 256) % 256];
      assert LittleDigits(x, 2) == [x % 256, x / 256];
    }
  }
}
