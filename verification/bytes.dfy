/** Machine integers of the widths the system uses, and byte-sequence helpers. */
module Bytes {

  type uint8 = x: int | 0 <= x < 0x100
  type uint16 = x: int | 0 <= x < 0x1_0000

  /** `n` zero bytes, as produced by `vec![0_u8; n]` or a zero-filled buffer. */
  function Zeros(n: nat): (z: seq<uint8>)
    ensures |z| == n
    ensures forall i :: 0 <= i < n ==> z[i] == 0
  {
    seq(n, _ => 0)
  }

  function Min(a: int, b: int): int {
    if a <= b then a else b
  }

  /** The high byte of a 16-bit value: `((x >> 8) & 0xFF) as u8`. */
  function HighByte(x: uint16): uint8 {
    x / 0x100
  }

  /** The low byte of a 16-bit value: `(x & 0xFF) as u8`. */
  function LowByte(x: uint16): uint8 {
    x % 0x100
  }

  /** Two big-endian bytes joined: `((hi as u16) << 8) | (lo as u16)`. */
  function JoinBytes(hi: uint8, lo: uint8): uint16 {
    hi * 0x100 + lo
  }

  /** Splitting a 16-bit value into bytes and joining them back is the identity,
      and joining is injective. */
  lemma SplitJoin(x: uint16, hi: uint8, lo: uint8)
    ensures JoinBytes(HighByte(x), LowByte(x)) == x
    ensures JoinBytes(hi, lo) == x <==> hi == HighByte(x) && lo == LowByte(x)
  {
  }
}
