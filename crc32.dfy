/** The 32-bit cyclic redundancy check of ISO 3309 and ITU-T V.42, the one
    zlib's `crc32` computes and section 8 of RFC 1952 specifies for gzip:
    the register is shifted right (bits are taken least significant first),
    the reflected generator polynomial is 0xEDB88320, the register starts
    at 0xFFFFFFFF and the result is the register complemented.

    zlib's `crc32(data, value)` continues a checksum: `value` is the
    checksum of what came before (0 for nothing). */
module Crc32 {

  import opened Bytes

  const Polynomial: bv32 := 0xEDB8_8320
  const Preset: bv32 := 0xFFFF_FFFF

  /** One step of the shift register: the low bit drops out and, when it
      was set, the polynomial is folded into what remains. */
  function ShiftBit(c: bv32): bv32 {
    if c & 1 == 1 then (c >> 1) ^ Polynomial else c >> 1
  }

  /** Feeds one byte into the register: eight steps, least significant bit
      first. */
  function UpdateByte(c: bv32, b: byte): bv32 {
    var x := c ^ (b as bv32);
    ShiftBit(ShiftBit(ShiftBit(ShiftBit(ShiftBit(ShiftBit(ShiftBit(ShiftBit(x))))))))
  }

  /** Feeds a byte string into the register, first byte first. */
  function Update(c: bv32, s: seq<byte>): bv32
    decreases |s|
  {
    if s == [] then c else Update(UpdateByte(c, s[0]), s[1..])
  }

  /** zlib's `crc32(data, value)`: the register is preset to the complement
      of the running checksum and complemented again at the end. */
  function Continue(data: seq<byte>, value: bv32): bv32 {
    Update(value ^ Preset, data) ^ Preset
  }

  /** zlib's `crc32(data)`: the running checksum of nothing is 0, so the
      register starts at 0xFFFFFFFF. */
  function Checksum(data: seq<byte>): (crc: bv32)
    ensures data == [] ==> crc == 0
  {
    Continue(data, 0)
  }

  /** Feeding a string in two pieces is feeding it whole. */
  lemma {:induction false} UpdateAppend(c: bv32, s: seq<byte>, t: seq<byte>)
    ensures Update(c, s + t) == Update(Update(c, s), t)
    decreases |s|
  {
    if s != [] {
      assert (s + t)[0] == s[0];
      assert (s + t)[1..] == s[1..] + t;
      UpdateAppend(UpdateByte(c, s[0]), s[1..], t);
    } else {
      assert s + t == t;
    }
  }

  /** The running form of zlib's API: continuing a checksum over `s + t`
      is continuing it over `s` and then over `t`. With `value` 0 this says
      `crc32(s + t) == crc32(t, crc32(s))`: the checksum of a byte string
      is fixed by the checksum of any prefix and the bytes that follow. */
  lemma ContinueAppend(s: seq<byte>, t: seq<byte>, value: bv32)
    ensures Continue(s + t, value) == Continue(t, Continue(s, value))
  {
    var start := value ^ Preset;
    var middle := Update(start, s);
    UpdateAppend(start, s, t);
    PresetInvolution(middle);
    assert Continue(s, value) ^ Preset == middle;
  }

  lemma PresetInvolution(r: bv32)
    ensures (r ^ Preset) ^ Preset == r
  {
  }

  /** The standard check value: the CRC-32 of the ASCII string "123456789"
      is 0xCBF43926. */
  lemma CheckValue()
    ensures Checksum([0x31, 0x32, 0x33, 0x34, 0x35, 0x36, 0x37, 0x38, 0x39]) == 0xCBF4_3926
  {
    CheckValueRegisters();
  }

  /** The register after each byte of "123456789". */
  lemma CheckValueRegisters()
    ensures UpdateByte(0xFFFF_FFFF, 0x31) == 0x7C23_1048
    ensures UpdateByte(0x7C23_1048, 0x32) == 0xB0AC_BB32
    ensures UpdateByte(0xB0AC_BB32, 0x33) == 0x77B7_9C2D
    ensures UpdateByte(0x77B7_9C2D, 0x34) == 0x641C_1F5C
    ensures UpdateByte(0x641C_1F5C, 0x35) == 0x340A_C5E3
    ensures UpdateByte(0x340A_C5E3, 0x36) == 0xF68D_2C9E
    ensures UpdateByte(0xF68D_2C9E, 0x37) == 0xAFFC_9660
    ensures UpdateByte(0xAFFC_9660, 0x38) == 0x651F_2550
    ensures UpdateByte(0x651F_2550, 0x39) == 0x340B_C6D9
  {
  }

  /** The checksum of eight zero bytes, the bytes of the identifier 0. */
  lemma EightZeroBytes()
    ensures Checksum([0, 0, 0, 0, 0, 0, 0, 0]) == 0x6522_DF69
  {
    EightZeroBytesRegisters();
  }

  /** The register after each of eight zero bytes. */
  lemma EightZeroBytesRegisters()
    ensures UpdateByte(0xFFFF_FFFF, 0) == 0x2DFD_1072
    ensures UpdateByte(0x2DFD_1072, 0) == 0xBE26_ED00
    ensures UpdateByte(0xBE26_ED00, 0) == 0x00BE_26ED
    ensures UpdateByte(0x00BE_26ED, 0) == 0xDEBB_20E3
    ensures UpdateByte(0xDEBB_20E3, 0) == 0x39DD_08E2
    ensures UpdateByte(0x39DD_08E2, 0) == 0x4E3D_5E5C
    ensures UpdateByte(0x4E3D_5E5C, 0) == 0x6293_2081
    ensures UpdateByte(0x6293_2081, 0) == 0x9ADD_2096
  {
  }
}
