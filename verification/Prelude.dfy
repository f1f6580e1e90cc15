/** Shared vocabulary: bytes, fallible results and little-endian fields. */
module Prelude {

  type byte = b: int | 0 <= b < 256

  /** The kernel's `Result<T, &'static str>`; the error text is not modelled. */
  datatype Result<+T> = Ok(value: T) | Err

  datatype Option<+T> = Some(value: T) | None

  const U32_MAX := 0xFFFF_FFFF
  const U64_MAX := 0xFFFF_FFFF_FFFF_FFFF

  /** 256 to the power `k`: one more than the largest value of a `k`-byte field. */
  function Pow256(k: nat): (p: nat)
    ensures p > 0
  {
    if k == 0 then 1 else 256 * Pow256(k - 1)
  }

  /** `to_le_bytes` of a `k`-byte unsigned integer. */
  function ToLe(n: nat, k: nat): (s: seq<byte>)
    ensures |s| == k
  {
    if k == 0 then [] else [n % 256] + ToLe(n / 256, k - 1)
  }

  /** `from_le_bytes`. */
  function FromLe(s: seq<byte>): (n: nat)
    ensures n < Pow256(|s|)
  {
    if s == [] then 0 else s[0] + 256 * FromLe(s[1..])
  }

  lemma {:induction false} LeRoundTrip(n: nat, k: nat)
    requires n < Pow256(k)
    ensures FromLe(ToLe(n, k)) == n
  {
    if k != 0 {
      LeRoundTrip(n / 256, k - 1);
      assert ToLe(n, k)[1..] == ToLe(n / 256, k - 1);
    }
  }

  lemma {:induction false} LeRoundTripBytes(s: seq<byte>)
    ensures ToLe(FromLe(s), |s|) == s
  {
    if s != [] {
      LeRoundTripBytes(s[1..]);
      LowestByte(s[0], FromLe(s[1..]));
    }
  }

  lemma LowestByte(b: byte, n: nat)
    ensures (b + 256 * n) % 256 == b
    ensures (b + 256 * n) / 256 == n
  {}

  lemma Pow256Values()
    ensures Pow256(1) == 0x100
    ensures Pow256(2) == 0x1_0000
    ensures Pow256(4) == 0x1_0000_0000
    ensures Pow256(8) == 0x1_0000_0000_0000_0000
  {
    assert Pow256(3) == 256 * Pow256(2);
    assert Pow256(5) == 256 * Pow256(4);
    assert Pow256(6) == 256 * Pow256(5);
    assert Pow256(7) == 256 * Pow256(6);
  }

  function Min(a: int, b: int): (m: int) { if a < b then a else b }
}
