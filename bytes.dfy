/** Fixed-width integers and their little-endian byte encodings, as Rust's
    `u32::from_le_bytes`, `u32::to_le_bytes`, `i32::from_le_bytes`, the
    `as` casts between `u32` and `i32` and the wrapping `<<` on `u32`. */
module Bytes {

  /** A `u8`. */
  type Byte = b: int | 0 <= b < 0x100

  /** A `u32`. */
  type U32 = x: int | 0 <= x < 0x1_0000_0000

  /** An `i32`. */
  type I32 = x: int | -0x8000_0000 <= x < 0x8000_0000

  /** `u32::from_le_bytes`: byte 0 is the least significant. */
  function U32FromLe(b: seq<Byte>): U32
    requires |b| == 4
  {
    b[0] as int + 0x100 * b[1] as int + 0x1_0000 * b[2] as int + 0x100_0000 * b[3] as int
  }

  /** `u32::to_le_bytes`. */
  function U32ToLe(v: U32): (b: seq<Byte>)
    ensures |b| == 4
  {
    var q1 := v / 0x100;
    var q2 := q1 / 0x100;
    [v % 0x100, q1 % 0x100, q2 % 0x100, q2 / 0x100]
  }

  /** Encoding a `u32` and decoding it gives it back. */
  lemma U32LeRoundTrip(v: U32)
    ensures U32FromLe(U32ToLe(v)) == v
  {
    var q1 := v / 0x100;
    var q2 := q1 / 0x100;
    assert v == q1 * 0x100 + v % 0x100;
    assert q1 == q2 * 0x100 + q1 % 0x100;
    assert q2 == (q2 / 0x100) * 0x100 + q2 % 0x100;
  }

  /** Decoding four bytes and encoding the value gives the same bytes back,
      so no two byte strings decode to the same `u32`. */
  lemma U32LeInverse(b: seq<Byte>)
    requires |b| == 4
    ensures U32ToLe(U32FromLe(b)) == b
  {
    var v := U32FromLe(b);
    var q1: int := b[1] as int + 0x100 * b[2] as int + 0x1_0000 * b[3] as int;
    var q2: int := b[2] as int + 0x100 * b[3] as int;
    assert v == q1 * 0x100 + b[0];
    assert v / 0x100 == q1 && v % 0x100 == b[0];
    assert q1 == q2 * 0x100 + b[1];
    assert q1 / 0x100 == q2 && q1 % 0x100 == b[1];
    assert q2 / 0x100 == b[3] && q2 % 0x100 == b[2];
  }

  /** `u as i32` for a `u32` `u`: the same 32 bits read in two's complement. */
  function I32FromBits(u: U32): I32
  {
    if u < 0x8000_0000 then u else u - 0x1_0000_0000
  }

  /** `x as u32` for an `i32` `x`. */
  function I32ToBits(x: I32): U32
  {
    if x >= 0 then x else x + 0x1_0000_0000
  }

  /** `i32::from_le_bytes`. */
  function I32FromLe(b: seq<Byte>): I32
    requires |b| == 4
  {
    I32FromBits(U32FromLe(b))
  }

  /** `i32::to_le_bytes`. */
  function I32ToLe(x: I32): (b: seq<Byte>)
    ensures |b| == 4
  {
    U32ToLe(I32ToBits(x))
  }

  /** Encoding an `i32`, negative ones included, and decoding it gives it back. */
  lemma I32LeRoundTrip(x: I32)
    ensures I32FromLe(I32ToLe(x)) == x
  {
    U32LeRoundTrip(I32ToBits(x));
  }

  /** Decoding four bytes as an `i32` and encoding it gives the same bytes back. */
  lemma I32LeInverse(b: seq<Byte>)
    requires |b| == 4
    ensures I32ToLe(I32FromLe(b)) == b
  {
    U32LeInverse(b);
  }

  /** In two's complement -1 is all ones. */
  lemma MinusOneIsAllOnes()
    ensures I32ToLe(-1) == [0xff, 0xff, 0xff, 0xff]
    ensures I32FromLe([0xff, 0xff, 0xff, 0xff]) == -1
  {
  }

  /** `v << 8` on a `u32`: the top byte is shifted out. */
  function Shl8(v: U32): U32
  {
    v * 0x100 % 0x1_0000_0000
  }

  /** `n` zero bytes. */
  function Zeros(n: nat): (z: seq<Byte>)
    ensures |z| == n
    ensures forall i :: 0 <= i < n ==> z[i] == 0
  {
    seq(n, _ => 0)
  }

  /** `buf` with `field` written over it from offset `off` on, as
      `buf[off..off + field.len()].copy_from_slice(field)` leaves it. */
  function Put(buf: seq<Byte>, off: nat, field: seq<Byte>): (r: seq<Byte>)
    requires off + |field| <= |buf|
    ensures |r| == |buf|
    ensures r[off..off + |field|] == field
    ensures forall k :: 0 <= k < |buf| && !(off <= k < off + |field|) ==> r[k] == buf[k]
  {
    buf[..off] + field + buf[off + |field|..]
  }
}
