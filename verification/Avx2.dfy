/**
  The vector instructions used by the fast VUYX conversion, lane by lane, on 32-bit lanes that
  wrap around (stream_server/src/decoder.c, 1372-1458).
 */
module Avx2 {
  import opened Bytes

  const TWO_TO_THE_32 := 0x1_0000_0000
  const TWO_TO_THE_31 := 0x8000_0000

  /** The value of a signed 32-bit lane. */
  function Wrap32(x: int): int {
    (x + TWO_TO_THE_31) % TWO_TO_THE_32 - TWO_TO_THE_31
  }

  predicate Fits32(x: int) {
    -TWO_TO_THE_31 <= x < TWO_TO_THE_31
  }

  lemma WrapFits(x: int)
    ensures Fits32(x) ==> Wrap32(x) == x
  {
  }

  /** A 256-bit register as eight 32-bit lanes. */
  type Lanes = seq<int>

  function Set1(x: int): (r: Lanes)
    ensures |r| == 8 && forall i :: 0 <= i < 8 ==> r[i] == x
  {
    seq(8, _ => x)
  }

  function Sub32(a: Lanes, b: Lanes): (r: Lanes)
    requires |a| == |b| == 8
    ensures |r| == 8 && forall i :: 0 <= i < 8 ==> r[i] == Wrap32(a[i] - b[i])
  {
    seq(8, i requires 0 <= i < 8 => Wrap32(a[i] - b[i]))
  }

  function Add32(a: Lanes, b: Lanes): (r: Lanes)
    requires |a| == |b| == 8
    ensures |r| == 8 && forall i :: 0 <= i < 8 ==> r[i] == Wrap32(a[i] + b[i])
  {
    seq(8, i requires 0 <= i < 8 => Wrap32(a[i] + b[i]))
  }

  /** The low half of each product. */
  function Mullo32(a: Lanes, b: Lanes): (r: Lanes)
    requires |a| == |b| == 8
    ensures |r| == 8 && forall i :: 0 <= i < 8 ==> r[i] == Wrap32(a[i] * b[i])
  {
    seq(8, i requires 0 <= i < 8 => Wrap32(a[i] * b[i]))
  }

  function Max(x: int, y: int): int {
    if x > y then x else y
  }

  function Min(x: int, y: int): int {
    if x < y then x else y
  }

  function Max32(a: Lanes, b: Lanes): (r: Lanes)
    requires |a| == |b| == 8
    ensures |r| == 8 && forall i :: 0 <= i < 8 ==> r[i] == Max(a[i], b[i])
  {
    seq(8, i requires 0 <= i < 8 => Max(a[i], b[i]))
  }

  function Min32(a: Lanes, b: Lanes): (r: Lanes)
    requires |a| == |b| == 8
    ensures |r| == 8 && forall i :: 0 <= i < 8 ==> r[i] == Min(a[i], b[i])
  {
    seq(8, i requires 0 <= i < 8 => Min(a[i], b[i]))
  }

  /** Arithmetic shift right by eight: division rounding down. */
  function Srai8(a: Lanes): (r: Lanes)
    requires |a| == 8
    ensures |r| == 8 && forall i :: 0 <= i < 8 ==> r[i] == a[i] / 256
  {
    seq(8, i requires 0 <= i < 8 => a[i] / 256)
  }

  /** `_mm256_shuffle_epi8`: picks within each 16-byte half; a negative index gives zero. */
  function Shuffle8(raw: seq<byte>, pick: seq<int>): (r: seq<byte>)
    requires |raw| == |pick| == 32
    ensures |r| == 32
    ensures forall i :: 0 <= i < 32 ==> r[i] == if pick[i] < 0 then 0 else raw[i / 16 * 16 + pick[i] % 16]
  {
    seq(32, i requires 0 <= i < 32 => if pick[i] < 0 then 0 else raw[i / 16 * 16 + pick[i] % 16])
  }

  /** `_mm_unpacklo_epi32`: the low two 4-byte groups of both, in turn. */
  function UnpackLo32(a: seq<byte>, b: seq<byte>): (r: seq<byte>)
    requires |a| == |b| == 16
    ensures |r| == 16
  {
    a[..4] + b[..4] + a[4..8] + b[4..8]
  }

  /** `_mm256_cvtepu8_epi32`: the low eight bytes, zero extended. */
  function Widen(a: seq<byte>): (r: Lanes)
    requires |a| == 16
    ensures |r| == 8 && forall i :: 0 <= i < 8 ==> r[i] == a[i] as int
  {
    seq(8, i requires 0 <= i < 8 => a[i] as int)
  }

  /** `_mm_packus_epi32` of the two halves: unsigned 16-bit saturation. */
  function PackUs32(a: Lanes): (r: seq<int>)
    requires |a| == 8
    ensures |r| == 8 && forall i :: 0 <= i < 8 ==> r[i] == Min(Max(a[i], 0), 0xFFFF)
  {
    seq(8, i requires 0 <= i < 8 => Min(Max(a[i], 0), 0xFFFF))
  }

  /** A 16-bit lane read as signed. */
  function Signed16(x: int): int {
    if x >= 0x8000 then x - 0x1_0000 else x
  }

  /** `_mm_packus_epi16`, low eight bytes: the lanes are signed, and saturate to a byte. */
  function PackUs16(a: seq<int>): (r: seq<byte>)
    requires |a| == 8 && forall i :: 0 <= i < 8 ==> 0 <= a[i] <= 0xFFFF
    ensures |r| == 8 && forall i :: 0 <= i < 8 ==> r[i] as int == Min(Max(Signed16(a[i]), 0), 255)
  {
    seq(8, i requires 0 <= i < 8 => Min(Max(Signed16(a[i]), 0), 255) as byte)
  }
}
