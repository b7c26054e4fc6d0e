/** The bytes of a NumPy `int64` scalar as zlib's `crc32` reads them
    through the buffer protocol: eight bytes of two's complement, least
    significant byte first (the byte order of a little-endian machine). */
module Int64Bytes {

  import opened Bytes

  newtype int64 = x: int | -0x8000_0000_0000_0000 <= x < 0x8000_0000_0000_0000

  const TwoPow64: int := 0x1_0000_0000_0000_0000
  const Width: nat := 8

  function Pow256(k: nat): (r: nat)
    ensures r > 0
  {
    if k == 0 then 1 else 256 * Pow256(k - 1)
  }

  /** The unsigned value of the 64 bits of `x` in two's complement. */
  function Unsigned(x: int64): (u: nat)
    ensures u < TwoPow64
    ensures (x as int) % TwoPow64 == u
  {
    if x < 0 then x as int + TwoPow64 else x as int
  }

  /** The `k` low bytes of `u`, least significant first. */
  function LeBytes(u: nat, k: nat): (s: seq<byte>)
    ensures |s| == k
    decreases k
  {
    if k == 0 then [] else [(u % 256) as byte] + LeBytes(u / 256, k - 1)
  }

  /** The number a byte string denotes, least significant byte first. */
  function LeValue(s: seq<byte>): (u: nat)
    ensures u < Pow256(|s|)
    decreases |s|
  {
    if s == [] then 0 else s[0] as nat + 256 * LeValue(s[1..])
  }

  function ToLeBytes(x: int64): (s: seq<byte>)
    ensures |s| == Width
  {
    LeBytes(Unsigned(x), Width)
  }

  /** Reads eight bytes back as an `int64`: a top bit set means negative. */
  function FromLeBytes(s: seq<byte>): int64
    requires |s| == Width
  {
    Pow256Eight();
    var u := LeValue(s);
    if u < TwoPow64 / 2 then u as int64 else (u - TwoPow64) as int64
  }

  lemma Pow256Eight()
    ensures Pow256(Width) == TwoPow64
  {
  }

  lemma {:induction false} LeRoundTrip(u: nat, k: nat)
    requires u < Pow256(k)
    ensures LeValue(LeBytes(u, k)) == u
    decreases k
  {
    if k > 0 {
      var s := LeBytes(u, k);
      assert s[1..] == LeBytes(u / 256, k - 1);
      LeRoundTrip(u / 256, k - 1);
    }
  }

  /** Decoding the eight bytes gives the identifier back, so two distinct
      identifiers never share a byte string. */
  lemma RoundTrip(x: int64)
    ensures FromLeBytes(ToLeBytes(x)) == x
  {
    Pow256Eight();
    LeRoundTrip(Unsigned(x), Width);
  }

  lemma ToLeBytesInjective(x: int64, y: int64)
    requires ToLeBytes(x) == ToLeBytes(y)
    ensures x == y
  {
    RoundTrip(x);
    RoundTrip(y);
  }

  /** Byte order: 1 is stored low byte first, and -1 is all ones. */
  lemma Examples()
    ensures ToLeBytes(1) == [1, 0, 0, 0, 0, 0, 0, 0]
    ensures ToLeBytes(-1) == [0xFF, 0xFF, 0xFF, 0xFF, 0xFF, 0xFF, 0xFF, 0xFF]
  {
  }
}
