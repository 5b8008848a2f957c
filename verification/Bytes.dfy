/** Little-endian numbers. */
module Bytes {
  type byte = x: int | 0 <= x < 256

  /** `v` as `n` bytes, least significant first. */
  function Le(v: nat, n: nat): (b: seq<byte>)
    ensures |b| == n
  {
    if n == 0 then [] else [v % 256] + Le(v / 256, n - 1)
  }

  function Power256(n: nat): nat { if n == 0 then 1 else 256 * Power256(n - 1) }

  /** The number that bytes spell, least significant first. */
  function LeValue(b: seq<byte>): nat { if b == [] then 0 else b[0] as int + 256 * LeValue(b[1..]) }

  lemma LowByte(low: byte, high: nat)
    ensures (low as int + 256 * high) % 256 == low && (low as int + 256 * high) / 256 == high
  {
  }

  lemma {:induction false} LeOfValue(b: seq<byte>)
    ensures LeValue(b) < Power256(|b|) && Le(LeValue(b), |b|) == b
  {
    if b != [] {
      LeOfValue(b[1..]);
      LowByte(b[0], LeValue(b[1..]));
      assert b == [b[0]] + b[1..];
    }
  }
}
