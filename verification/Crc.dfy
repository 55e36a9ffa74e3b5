/** The Modbus RTU CRC-16 of the MODBUS over Serial Line specification:
    register initialised to 0xFFFF, each byte XORed
    into the low 8 bits, then eight right shifts, XORing the reflected
    polynomial 0xA001 whenever the bit shifted out is 1.

    The repository holds two copies of the loop: `crc16` in
    modbus_controller_leo.py returns the register as an int, and
    `calculate_crc` in modbus_controller_mige.py packs it low byte first.
    The register is a Python int; here it is a 32-bit vector, wider than
    the 16 bits it needs, so that staying within 16 bits is a proved fact
    rather than a consequence of the type. For non-negative values below
    2^32, XOR and right shift on bv32 are exactly Python's. The integer
    value of the register is read off its low 16 bits one binary digit at
    a time. */
module Crc {
  import opened Wrappers
  import opened Bytes

  const INIT: bv32 := 0xFFFF
  const POLY: bv32 := 0xA001

  /** True when a register value fits 16 bits. */
  predicate Fits16(crc: bv32) {
    crc < 0x10000
  }

  /** One pass of the inner `for _ in range(8)` loop. */
  function ShiftRound(crc: bv32): (r: bv32)
    ensures Fits16(crc) ==> Fits16(r)
  {
    if crc & 1 != 0 then (crc >> 1) ^ POLY else crc >> 1
  }

  /** `k` passes of the inner loop, first pass first. */
  function Rounds(crc: bv32, k: nat): (r: bv32)
    ensures Fits16(crc) ==> Fits16(r)
    decreases k
  {
    if k == 0 then crc else Rounds(ShiftRound(crc), k - 1)
  }

  /** A byte as a register-width bit vector. */
  function ByteBits(b: byte): (r: bv32)
    ensures r < 0x100
  {
    b as bv32
  }

  /** The `range(8)` of the inner loop: one round per bit of a byte. */
  function BitsPerByte(): nat {
    8
  }

  /** One pass of the outer loop: `crc ^= pos` and eight rounds. */
  function UpdateByte(crc: bv32, b: byte): (r: bv32)
    ensures Fits16(crc) ==> Fits16(r)
  {
    Rounds(crc ^ ByteBits(b), BitsPerByte())
  }

  /** The register after the outer loop has consumed all of `data`. */
  function Register(data: seq<byte>): (r: bv32)
    ensures Fits16(r)
  {
    if |data| == 0 then INIT
    else UpdateByte(Register(data[..|data| - 1]), data[|data| - 1])
  }

  function Pow2(n: nat): (r: nat)
    ensures r > 0
  {
    if n == 0 then 1 else 2 * Pow2(n - 1)
  }

  lemma {:induction false} Pow2Add(a: nat, b: nat)
    ensures Pow2(a + b) == Pow2(a) * Pow2(b)
  {
    if b > 0 {
      Pow2Add(a, b - 1);
    }
  }

  lemma Pow2Sixteen()
    ensures Pow2(16) == 0x10000
  {
    assert Pow2(2) == 4;
    Pow2Add(2, 2);
    Pow2Add(4, 4);
    Pow2Add(8, 8);
  }

  /** The number written by the low `width` bits of a register, read as
      binary digits. */
  function BitsValue(reg: bv32, width: nat): (r: nat)
    ensures r < Pow2(width)
  {
    if width == 0 then 0
    else 2 * BitsValue(reg >> 1, width - 1) + (if reg & 1 == 1 then 1 else 0)
  }

  /** `crc16(data)` of modbus_controller_leo.py: the register as an int. */
  function Crc16(data: seq<byte>): (r: int)
    ensures InU16(r)
  {
    Pow2Sixteen();
    BitsValue(Register(data), 16)
  }

  /** `calculate_crc(data)` of modbus_controller_mige.py: the register
      packed with `struct.pack('<H')`, which cannot fail because the
      register fits 16 bits. */
  function CalculateCrc(data: seq<byte>): (r: seq<byte>)
    ensures |r| == 2
    ensures BeValue(r[1], r[0]) == Crc16(data)
  {
    PackLeU16(Crc16(data)).value
  }

  /** The two implementations agree: `crc16(d).to_bytes(2, 'little')`, as
      the leo controller frames it, never overflows and equals
      `calculate_crc(d)`. */
  lemma CrcImplementationsAgree(data: seq<byte>)
    ensures ToBytesLittle(Crc16(data), 2) == Some(CalculateCrc(data))
  {
    ToBytesLittleIsPackLe(Crc16(data));
  }

  /** Appending one byte continues the register from where the prefix
      left it: the CRC is a left fold over the bytes. */
  lemma RegisterAppend(data: seq<byte>, b: byte)
    ensures Register(data + [b]) == UpdateByte(Register(data), b)
  {
    assert (data + [b])[..|data|] == data;
  }

  /** The eight rounds of one pass of the outer loop, read off the nine
      register values they go through. */
  lemma EightRounds(x0: bv32, x1: bv32, x2: bv32, x3: bv32, x4: bv32,
                    x5: bv32, x6: bv32, x7: bv32, x8: bv32)
    requires ShiftRound(x0) == x1 && ShiftRound(x1) == x2
    requires ShiftRound(x2) == x3 && ShiftRound(x3) == x4
    requires ShiftRound(x4) == x5 && ShiftRound(x5) == x6
    requires ShiftRound(x6) == x7 && ShiftRound(x7) == x8
    ensures Rounds(x0, BitsPerByte()) == x8
  {
    assert Rounds(x7, 1) == x8;
    assert Rounds(x6, 2) == x8;
    assert Rounds(x5, 3) == x8;
    assert Rounds(x4, 4) == x8;
    assert Rounds(x3, 5) == x8;
    assert Rounds(x2, 6) == x8;
    assert Rounds(x1, 7) == x8;
  }

  /** The pass over the slave address 01 of `01 03 00 00 00 01`. */
  lemma ReadRequestSlave()
    ensures UpdateByte(INIT, 1) == 0x807E
  {
    EightRounds(0xFFFE, 0x7FFF, 0x9FFE, 0x4FFF, 0x87FE, 0x43FF, 0x81FE, 0x40FF, 0x807E);
  }

  /** The pass over the function code 03 of `01 03 00 00 00 01`. */
  lemma ReadRequestFunction()
    ensures UpdateByte(0x807E, 3) == 0x2140
  {
    EightRounds(0x807D, 0xE03F, 0xD01E, 0x680F, 0x9406, 0x4A03, 0x8500, 0x4280, 0x2140);
  }

  /** The pass over the high address byte 00 of `01 03 00 00 00 01`. */
  lemma ReadRequestAddressHigh()
    ensures UpdateByte(0x2140, 0) == 0xF020
  {
    EightRounds(0x2140, 0x10A0, 0x0850, 0x0428, 0x0214, 0x010A, 0x0085, 0xA043, 0xF020);
  }

  /** The pass over the low address byte 00 of `01 03 00 00 00 01`. */
  lemma ReadRequestAddressLow()
    ensures UpdateByte(0xF020, 0) == 0xD8F1
  {
    EightRounds(0xF020, 0x7810, 0x3C08, 0x1E04, 0x0F02, 0x0781, 0xA3C1, 0xF1E1, 0xD8F1);
  }

  /** The pass over the high count byte 00 of `01 03 00 00 00 01`. */
  lemma ReadRequestCountHigh()
    ensures UpdateByte(0xD8F1, 0) == 0x8419
  {
    EightRounds(0xD8F1, 0xCC79, 0xC63D, 0xC31F, 0xC18E, 0x60C7, 0x9062, 0x4831, 0x8419);
  }

  /** The pass over the low count byte 01 of `01 03 00 00 00 01`. */
  lemma ReadRequestCountLow()
    ensures UpdateByte(0x8419, 1) == 0x0A84
  {
    EightRounds(0x8418, 0x420C, 0x2106, 0x1083, 0xA840, 0x5420, 0x2A10, 0x1508, 0x0A84);
  }

  /** The check value of a concrete request: the read of one holding
      register at address 0 of slave 1, `01 03 00 00 00 01`, leaves the
      register at 0x0A84 and is sent with the CRC bytes `84 0A`. This pins
      the initial value, the polynomial and the bit order. */
  lemma ReadRequestCheckValue()
    ensures Register([1, 3, 0, 0, 0, 1]) == 0x0A84
    ensures CalculateCrc([1, 3, 0, 0, 0, 1]) == [0x84, 0x0A]
  {
    var d0: seq<byte> := [];
    var d1 := d0 + [1];
    var d2 := d1 + [3];
    var d3 := d2 + [0];
    var d4 := d3 + [0];
    var d5 := d4 + [0];
    var d6 := d5 + [1];
    RegisterAppend(d0, 1);
    ReadRequestSlave();
    RegisterAppend(d1, 3);
    ReadRequestFunction();
    RegisterAppend(d2, 0);
    ReadRequestAddressHigh();
    RegisterAppend(d3, 0);
    ReadRequestAddressLow();
    RegisterAppend(d4, 0);
    ReadRequestCountHigh();
    RegisterAppend(d5, 1);
    ReadRequestCountLow();
    assert d6 == [1, 3, 0, 0, 0, 1];
    CheckValueBits();
  }

  /** The register 0x0A84 read off its low 16 bits is the int 0x0A84. */
  lemma CheckValueBits()
    ensures BitsValue(0x0A84, 16) == 0x0A84
  {
    assert BitsValue(0x0000, 1) == 0x0000;
    assert BitsValue(0x0000, 2) == 0x0000;
    assert BitsValue(0x0000, 3) == 0x0000;
    assert BitsValue(0x0000, 4) == 0x0000;
    assert BitsValue(0x0001, 5) == 0x0001;
    assert BitsValue(0x0002, 6) == 0x0002;
    assert BitsValue(0x0005, 7) == 0x0005;
    assert BitsValue(0x000A, 8) == 0x000A;
    assert BitsValue(0x0015, 9) == 0x0015;
    assert BitsValue(0x002A, 10) == 0x002A;
    assert BitsValue(0x0054, 11) == 0x0054;
    assert BitsValue(0x00A8, 12) == 0x00A8;
    assert BitsValue(0x0150, 13) == 0x0150;
    assert BitsValue(0x02A1, 14) == 0x02A1;
    assert BitsValue(0x0542, 15) == 0x0542;
    assert BitsValue(0x0A84, 16) == 0x0A84;
  }
}
