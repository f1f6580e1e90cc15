/**
 The CRC-32 that guards every TuwaiqFS checkpoint payload
 (section 8 of RFC 1952, bit-reflected polynomial 0xEDB88320).

 The `u32` register is a natural number below 2^32; its exclusive-or is written
 out bit by bit. The shift is linear over exclusive-or and has a trivial kernel,
 which is enough to prove, for payloads of any length, that damage confined to
 four consecutive bytes always changes the checksum, and that the bit-serial
 loop computes the register of the table-driven loop of RFC 1952.
 */
module Crc32 {
  import opened Prelude

  const POLYNOMIAL: nat := 0xEDB8_8320
  const U32_BOUND: nat := 0x1_0000_0000

  function Xor(a: nat, b: nat): (x: nat) {
    if a == 0 && b == 0 then 0 else (if a % 2 == b % 2 then 0 else 1) + 2 * Xor(a / 2, b / 2)
  }

  /** One turn of the inner loop: the register moves right by one bit. */
  function Shift(r: nat): (s: nat) {
    if r % 2 == 1 then Xor(r / 2, POLYNOMIAL) else r / 2
  }

  function ShiftN(r: nat, n: nat): (s: nat)
    decreases n, r
  {
    if n == 0 then r else ShiftN(Shift(r), n - 1)
  }

  /** The register after absorbing `data`, first byte first. */
  function Absorb(r: nat, data: seq<byte>): (s: nat)
    decreases |data|
  {
    if data == [] then r else Absorb(ShiftN(Xor(r, data[0]), 8), data[1..])
  }

  function Checksum(data: seq<byte>): (c: nat) {
    Xor(Absorb(0xFFFF_FFFF, data), 0xFFFF_FFFF)
  }

  method Compute(data: seq<byte>) returns (checksum: nat)
    ensures checksum == Checksum(data)
    ensures checksum < U32_BOUND
  {
    var crc: nat := 0xFFFF_FFFF;
    for i := 0 to |data|
      invariant Absorb(crc, data[i..]) == Absorb(0xFFFF_FFFF, data)
    {
      assert data[i..][1..] == data[i + 1..];
      crc := Xor(crc, data[i]);
      ghost var start := crc;
      for k := 0 to 8
        invariant ShiftN(crc, 8 - k) == ShiftN(start, 8)
      {
        var mask := if crc % 2 == 1 then POLYNOMIAL else 0;
        XorZero(crc / 2);
        crc := Xor(crc / 2, mask);
      }
    }
    checksum := Xor(crc, 0xFFFF_FFFF);
    ChecksumBound(data);
  }

  // ---- Exclusive-or ----

  lemma {:induction false} XorZero(a: nat)
    ensures Xor(a, 0) == a && Xor(0, a) == a
  {
    if a != 0 { XorZero(a / 2); }
  }

  lemma {:induction false} XorSelf(a: nat)
    ensures Xor(a, a) == 0
  {
    if a != 0 { XorSelf(a / 2); }
  }

  lemma {:induction false} XorComm(a: nat, b: nat)
    ensures Xor(a, b) == Xor(b, a)
  {
    if a != 0 || b != 0 { XorComm(a / 2, b / 2); }
  }

  /** The lowest bit and the remaining bits of an exclusive-or. */
  lemma XorStep(a: nat, b: nat)
    ensures Xor(a, b) / 2 == Xor(a / 2, b / 2)
    ensures Xor(a, b) % 2 == if a % 2 == b % 2 then 0 else 1
  {}

  lemma {:induction false} XorAssoc(a: nat, b: nat, c: nat)
    ensures Xor(Xor(a, b), c) == Xor(a, Xor(b, c))
  {
    if a != 0 || b != 0 || c != 0 {
      XorAssoc(a / 2, b / 2, c / 2);
      XorStep(a, b);
      XorStep(b, c);
      XorStep(Xor(a, b), c);
      XorStep(a, Xor(b, c));
      SameNumber(Xor(Xor(a, b), c), Xor(a, Xor(b, c)));
    }
  }

  lemma SameNumber(x: nat, y: nat)
    requires x % 2 == y % 2 && x / 2 == y / 2
    ensures x == y
  {}

  /** `(x ^ p) ^ y` and `(x ^ p) ^ (y ^ p)`, rearranged. */
  lemma XorSwap(x: nat, y: nat, p: nat)
    ensures Xor(Xor(x, p), y) == Xor(Xor(x, y), p)
    ensures Xor(Xor(x, p), Xor(y, p)) == Xor(x, y)
  {
    XorAssoc(x, p, y);
    XorComm(p, y);
    XorAssoc(x, y, p);
    XorAssoc(Xor(x, y), p, p);
    XorSelf(p);
    XorZero(Xor(x, y));
    XorAssoc(Xor(x, p), y, p);
  }

  lemma XorCancel(a: nat, b: nat, p: nat)
    requires Xor(a, p) == Xor(b, p)
    ensures a == b
  {
    XorAssoc(a, p, p);
    XorAssoc(b, p, p);
    XorSelf(p);
    XorZero(a);
    XorZero(b);
  }

  /** Bits that do not overlap add. */
  lemma {:induction false} XorDisjoint(a: nat, z: nat, k: nat)
    requires a < Pow2(k)
    ensures Xor(a, Pow2(k) * z) == a + Pow2(k) * z
  {
    if k == 0 {
      XorZero(z);
    } else {
      var v := Pow2(k - 1) * z;
      HalfScale(k, z);
      XorDisjoint(a / 2, z, k - 1);
      XorStep(a, 2 * v);
      HalfSum(a, v);
      SameNumber(Xor(a, 2 * v), a + 2 * v);
    }
  }

  lemma HalfSum(a: nat, v: nat)
    ensures (a + 2 * v) % 2 == a % 2 && (2 * v) % 2 == 0
    ensures (a + 2 * v) / 2 == a / 2 + v && (2 * v) / 2 == v
  {}

  lemma HalfScale(k: nat, z: nat)
    requires k > 0
    ensures Pow2(k) * z == 2 * (Pow2(k - 1) * z)
  {}

  function Pow2(k: nat): (p: nat)
    ensures p > 0
  {
    if k == 0 then 1 else 2 * Pow2(k - 1)
  }

  lemma {:induction false} XorBound(a: nat, b: nat, k: nat)
    requires a < Pow2(k) && b < Pow2(k)
    ensures Xor(a, b) < Pow2(k)
  {
    if k != 0 { XorBound(a / 2, b / 2, k - 1); }
  }

  lemma Pow2Values()
    ensures Pow2(8) == 256
    ensures Pow2(32) == U32_BOUND
  {
    assert Pow2(4) == 16;
    assert Pow2(8) == 16 * Pow2(4);
    Pow2Byte(8);
    Pow2Byte(16);
    Pow2Byte(24);
  }

  lemma Pow2Byte(k: nat)
    ensures Pow2(k + 8) == 256 * Pow2(k)
  {
    assert Pow2(k + 4) == 16 * Pow2(k) by { assert Pow2(k + 2) == 4 * Pow2(k); }
    assert Pow2(k + 8) == 16 * Pow2(k + 4) by { assert Pow2(k + 6) == 4 * Pow2(k + 4); }
  }

  // ---- The shift is linear, stays a u32, and is invertible on u32 ----

  lemma ShiftLinear(a: nat, b: nat)
    ensures Shift(Xor(a, b)) == Xor(Shift(a), Shift(b))
  {
    XorStep(a, b);
    XorSwap(a / 2, b / 2, POLYNOMIAL);
    XorAssoc(a / 2, b / 2, POLYNOMIAL);
  }

  lemma ShiftBound(r: nat)
    requires r < U32_BOUND
    ensures Shift(r) < U32_BOUND
  {
    Pow2Values();
    XorBound(r / 2, POLYNOMIAL, 32);
  }

  lemma ShiftKernel(r: nat)
    requires r < U32_BOUND && Shift(r) == 0
    ensures r == 0
  {
    if r % 2 == 1 {
      XorSelf(POLYNOMIAL);
      XorCancel(r / 2, POLYNOMIAL, POLYNOMIAL);
    }
  }

  lemma {:induction false} ShiftNLinear(a: nat, b: nat, n: nat)
    ensures ShiftN(Xor(a, b), n) == Xor(ShiftN(a, n), ShiftN(b, n))
    decreases n
  {
    if n != 0 {
      ShiftLinear(a, b);
      ShiftNLinear(Shift(a), Shift(b), n - 1);
    }
  }

  lemma {:induction false} ShiftNBound(r: nat, n: nat)
    requires r < U32_BOUND
    ensures ShiftN(r, n) < U32_BOUND
    decreases n
  {
    if n != 0 {
      ShiftBound(r);
      ShiftNBound(Shift(r), n - 1);
    }
  }

  lemma {:induction false} ShiftNInjective(a: nat, b: nat, n: nat)
    requires a < U32_BOUND && b < U32_BOUND
    requires ShiftN(a, n) == ShiftN(b, n)
    ensures a == b
    decreases n
  {
    if n != 0 {
      ShiftBound(a);
      ShiftBound(b);
      ShiftNInjective(Shift(a), Shift(b), n - 1);
      ShiftLinear(a, b);
      XorSelf(Shift(a));
      Pow2Values();
      XorBound(a, b, 32);
      ShiftKernel(Xor(a, b));
      XorSelf(b);
      XorCancel(a, b, b);
    }
  }

  lemma {:induction false} ShiftNConcat(r: nat, m: nat, n: nat)
    ensures ShiftN(ShiftN(r, m), n) == ShiftN(r, m + n)
    decreases m
  {
    if m != 0 { ShiftNConcat(Shift(r), m - 1, n); }
  }

  lemma ShiftPastNibble(y: nat)
    ensures ShiftN(16 * y, 4) == y
  {
    assert Shift(16 * y) == 8 * y;
    assert Shift(8 * y) == 4 * y;
    assert Shift(4 * y) == 2 * y;
    assert Shift(2 * y) == y;
    assert ShiftN(y, 0) == y;
    assert ShiftN(2 * y, 1) == y;
    assert ShiftN(4 * y, 2) == y;
    assert ShiftN(8 * y, 3) == y;
  }

  /** Whole bytes above the lowest move down unchanged. */
  lemma ShiftPastByte(y: nat)
    ensures ShiftN(256 * y, 8) == y
  {
    ShiftNConcat(256 * y, 4, 4);
    ShiftPastNibble(16 * y);
    ShiftPastNibble(y);
  }

  /** A value absorbed after eight shifts could have been absorbed before them, one byte higher. */
  lemma AbsorbEarlier(x: nat, y: nat)
    ensures Xor(ShiftN(x, 8), y) == ShiftN(Xor(x, 256 * y), 8)
  {
    ShiftPastByte(y);
    ShiftNLinear(x, 256 * y, 8);
  }

  /** `crc_table[n]` of RFC 1952. */
  function TableEntry(n: byte): (t: nat) { ShiftN(n, 8) }

  /** The table-driven loop of RFC 1952: `c = crc_table[(c ^ b) & 0xff] ^ (c >> 8)`. */
  function AbsorbByTable(r: nat, data: seq<byte>): (s: nat)
    decreases |data|
  {
    if data == [] then r
    else AbsorbByTable(Xor(TableEntry(Xor(r, data[0]) % 256), r / 256), data[1..])
  }

  lemma TableUpdate(low: byte, high: nat)
    ensures ShiftN(low + 256 * high, 8) == Xor(TableEntry(low), high)
  {
    LowByte(low, high);
    AbsorbEarlier(low, high);
  }

  lemma XorLowByte(low: byte, high: nat, b: byte)
    ensures Xor(low, b) < 256
    ensures Xor(low + 256 * high, b) == Xor(low, b) + 256 * high
  {
    Pow2Values();
    XorBound(low, b, 8);
    LowByte(low, high);
    LowByte(Xor(low, b), high);
    XorSwap(low, b, 256 * high);
  }

  /** The bit-serial register is the table-driven one. */
  lemma {:induction false} TableDriven(r: nat, data: seq<byte>)
    ensures AbsorbByTable(r, data) == Absorb(r, data)
    decreases |data|
  {
    if data != [] {
      TableStep(r, data[0]);
      TableDriven(ShiftN(Xor(r, data[0]), 8), data[1..]);
    }
  }

  lemma TableStep(r: nat, b: byte)
    ensures Xor(TableEntry(Xor(r, b) % 256), r / 256) == ShiftN(Xor(r, b), 8)
  {
    var low: byte, high: nat := r % 256, r / 256;
    XorLowByte(low, high, b);
    var x := Xor(low, b);
    TableUpdate(x, high);
    assert Xor(r, b) == x + 256 * high by { assert r == low + 256 * high; }
    LowestByte(x, high);
  }

  // ---- Whole payloads ----

  /** The register is the whole payload, read as one little-endian integer, shifted out bit by bit. */
  lemma {:induction false} AbsorbIsShift(r: nat, data: seq<byte>)
    ensures Absorb(r, data) == ShiftN(Xor(r, FromLe(data)), 8 * |data|)
    decreases |data|
  {
    if data == [] {
      XorZero(r);
    } else {
      var rest := data[1..];
      AbsorbIsShift(ShiftN(Xor(r, data[0]), 8), rest);
      AbsorbByteFirst(r, data[0], FromLe(rest), 8 * |rest|);
    }
  }

  lemma AbsorbByteFirst(r: nat, b: byte, w: nat, n: nat)
    ensures ShiftN(Xor(ShiftN(Xor(r, b), 8), w), n) == ShiftN(Xor(r, b + 256 * w), 8 + n)
  {
    AbsorbEarlier(Xor(r, b), w);
    ShiftNConcat(Xor(Xor(r, b), 256 * w), 8, n);
    XorAssoc(r, b, 256 * w);
    LowByte(b, w);
  }

  lemma LowByte(b: byte, w: nat)
    ensures Xor(b, 256 * w) == b + 256 * w
  {
    Pow2Values();
    XorDisjoint(b, w, 8);
  }

  lemma {:induction false} AbsorbBound(r: nat, data: seq<byte>)
    requires r < U32_BOUND
    ensures Absorb(r, data) < U32_BOUND
    decreases |data|
  {
    if data != [] {
      Pow2Values();
      XorBound(r, data[0], 32);
      ShiftNBound(Xor(r, data[0]), 8);
      AbsorbBound(ShiftN(Xor(r, data[0]), 8), data[1..]);
    }
  }

  lemma ChecksumBound(data: seq<byte>)
    ensures Checksum(data) < U32_BOUND
  {
    AbsorbBound(0xFFFF_FFFF, data);
    Pow2Values();
    XorBound(Absorb(0xFFFF_FFFF, data), 0xFFFF_FFFF, 32);
  }

  lemma {:induction false} AbsorbConcat(r: nat, a: seq<byte>, b: seq<byte>)
    ensures Absorb(r, a + b) == Absorb(Absorb(r, a), b)
    decreases |a|
  {
    if a == [] {
      assert a + b == b;
    } else {
      assert (a + b)[1..] == a[1..] + b;
      AbsorbConcat(ShiftN(Xor(r, a[0]), 8), a[1..], b);
    }
  }

  /** Absorbing the same bytes keeps different registers different. */
  lemma {:induction false} AbsorbInjective(r: nat, q: nat, data: seq<byte>)
    requires r < U32_BOUND && q < U32_BOUND
    requires Absorb(r, data) == Absorb(q, data)
    ensures r == q
    decreases |data|
  {
    if data != [] {
      var b := data[0];
      Pow2Values();
      XorBound(r, b, 32);
      XorBound(q, b, 32);
      ShiftNBound(Xor(r, b), 8);
      ShiftNBound(Xor(q, b), 8);
      AbsorbInjective(ShiftN(Xor(r, b), 8), ShiftN(Xor(q, b), 8), data[1..]);
      ShiftNInjective(Xor(r, b), Xor(q, b), 8);
      XorCancel(r, q, b);
    }
  }

  lemma ShortIsU32(data: seq<byte>)
    requires |data| <= 4
    ensures FromLe(data) < U32_BOUND
  {
    Pow256Values();
    assert Pow256(3) == 256 * Pow256(2);
  }

  /** From one register, two different bursts of at most four bytes reach different registers. */
  lemma BurstRegister(r: nat, a: seq<byte>, b: seq<byte>)
    requires r < U32_BOUND
    requires |a| == |b| <= 4
    requires Absorb(r, a) == Absorb(r, b)
    ensures a == b
  {
    AbsorbIsShift(r, a);
    AbsorbIsShift(r, b);
    ShortIsU32(a);
    ShortIsU32(b);
    Pow2Values();
    XorBound(r, FromLe(a), 32);
    XorBound(r, FromLe(b), 32);
    ShiftNInjective(Xor(r, FromLe(a)), Xor(r, FromLe(b)), 8 * |a|);
    XorComm(r, FromLe(a));
    XorComm(r, FromLe(b));
    XorCancel(FromLe(a), FromLe(b), r);
    LeRoundTripBytes(a);
    LeRoundTripBytes(b);
  }

  /** Damage confined to at most four consecutive bytes is always detected. */
  lemma BurstDetected(prefix: seq<byte>, a: seq<byte>, b: seq<byte>, suffix: seq<byte>)
    requires |a| == |b| <= 4
    requires a != b
    ensures Checksum(prefix + a + suffix) != Checksum(prefix + b + suffix)
  {
    if Checksum(prefix + a + suffix) == Checksum(prefix + b + suffix) {
      var seed := 0xFFFF_FFFF;
      XorCancel(Absorb(seed, prefix + a + suffix), Absorb(seed, prefix + b + suffix), seed);
      AbsorbConcat(seed, prefix + a, suffix);
      AbsorbConcat(seed, prefix + b, suffix);
      AbsorbBound(seed, prefix + a);
      AbsorbBound(seed, prefix + b);
      AbsorbInjective(Absorb(seed, prefix + a), Absorb(seed, prefix + b), suffix);
      AbsorbConcat(seed, prefix, a);
      AbsorbConcat(seed, prefix, b);
      AbsorbBound(seed, prefix);
      BurstRegister(Absorb(seed, prefix), a, b);
    }
  }
}
