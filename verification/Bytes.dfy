/** Fixed-width integers as bytes: `memcpy` of a value on a little-endian machine. */
module Bytes {

  newtype byte = x: int | 0 <= x < 256

  lemma Associate(a: seq<byte>, b: seq<byte>, c: seq<byte>)
    ensures a + b + c == a + (b + c)
  {}

  const TWO_64: int := 0x1_0000_0000_0000_0000
  const TWO_63: int := 0x8000_0000_0000_0000
  const TWO_32: int := 0x1_0000_0000
  const TWO_31: int := 0x8000_0000

  function Pow256(w: nat): (p: nat)
    ensures p > 0
  {
    if w == 0 then 1 else 256 * Pow256(w - 1)
  }

  /** The `w` low-order bytes of `n`, least significant first. */
  function LittleEndian(n: nat, w: nat): (bs: seq<byte>)
    ensures |bs| == w
    decreases w
  {
    if w == 0 then [] else [(n % 256) as byte] + LittleEndian(n / 256, w - 1)
  }

  function FromLittleEndian(bs: seq<byte>): nat {
    if bs == [] then 0 else bs[0] as nat + 256 * FromLittleEndian(bs[1..])
  }

  lemma {:induction false} LittleEndianRoundTrip(n: nat, w: nat)
    requires n < Pow256(w)
    ensures FromLittleEndian(LittleEndian(n, w)) == n
    decreases w
  {
    if w > 0 {
      LittleEndianRoundTrip(n / 256, w - 1);
      assert LittleEndian(n, w)[1..] == LittleEndian(n / 256, w - 1);
    }
  }

  lemma {:induction false} FromLittleEndianRoundTrip(bs: seq<byte>)
    ensures FromLittleEndian(bs) < Pow256(|bs|) && LittleEndian(FromLittleEndian(bs), |bs|) == bs
  {
    if bs != [] {
      var n := FromLittleEndian(bs[1..]);
      FromLittleEndianRoundTrip(bs[1..]);
      assert (bs[0] as nat + 256 * n) % 256 == bs[0] as nat && (bs[0] as nat + 256 * n) / 256 == n;
    }
  }

  lemma Widths()
    ensures Pow256(4) == TWO_32 && Pow256(8) == TWO_64
  {
    assert Pow256(0) == 1 && Pow256(1) == 256 && Pow256(2) == 0x1_0000 && Pow256(3) == 0x100_0000;
    assert Pow256(4) == 256 * Pow256(3) && Pow256(5) == 256 * Pow256(4) && Pow256(6) == 256 * Pow256(5);
    assert Pow256(7) == 256 * Pow256(6) && Pow256(8) == 256 * Pow256(7);
  }

  /** `chunk_primitive` of a signed 64-bit value: two's complement. */
  function Int64Bytes(x: int): (bs: seq<byte>)
    ensures |bs| == 8
  {
    LittleEndian(x % TWO_64, 8)
  }

  function Int64Of(bs: seq<byte>): int {
    var n := FromLittleEndian(bs) % TWO_64;
    if n < TWO_63 then n else n - TWO_64
  }

  lemma Int64RoundTrip(x: int)
    requires -TWO_63 <= x < TWO_63
    ensures Int64Of(Int64Bytes(x)) == x
  {
    hide LittleEndian, FromLittleEndian, Pow256;
    Widths();
    LittleEndianRoundTrip(x % TWO_64, 8);
  }

  lemma Int64BytesBack(bs: seq<byte>)
    requires |bs| == 8
    ensures Int64Bytes(Int64Of(bs)) == bs
  {
    hide LittleEndian, FromLittleEndian, Pow256;
    Widths();
    FromLittleEndianRoundTrip(bs);
    ModCast(FromLittleEndian(bs));
  }

  lemma ModCast(n: nat)
    requires n < TWO_64
    ensures (if n < TWO_63 then n else n - TWO_64) % TWO_64 == n
  {}

  /** `chunk_primitive` of a signed 32-bit value, and of an enumerator. */
  function Int32Bytes(x: int): (bs: seq<byte>)
    ensures |bs| == 4
  {
    LittleEndian(x % TWO_32, 4)
  }

  function Int32Of(bs: seq<byte>): int {
    var n := FromLittleEndian(bs) % TWO_32;
    if n < TWO_31 then n else n - TWO_32
  }

  lemma Int32RoundTrip(x: int)
    requires -TWO_31 <= x < TWO_31
    ensures Int32Of(Int32Bytes(x)) == x
  {
    hide LittleEndian, FromLittleEndian, Pow256;
    Widths();
    LittleEndianRoundTrip(x % TWO_32, 4);
  }

  lemma Int32BytesBack(bs: seq<byte>)
    requires |bs| == 4
    ensures Int32Bytes(Int32Of(bs)) == bs
  {
    hide LittleEndian, FromLittleEndian, Pow256;
    Widths();
    FromLittleEndianRoundTrip(bs);
  }

  /** `static_cast<int64_t>` and back, for a 64-bit size. */
  function SizeToInt64(n: nat): int {
    var m := n % TWO_64;
    if m < TWO_63 then m else m - TWO_64
  }

  function Int64ToSize(x: int): nat {
    x % TWO_64
  }

  lemma CastBack(ts: nat)
    requires ts < TWO_64
    ensures -TWO_63 <= SizeToInt64(ts) < TWO_63 && Int64ToSize(SizeToInt64(ts)) == ts
  {
    assert ts % TWO_64 == ts;
  }
}
