/** Machine integers as ranges of `int`, and the few bit operations that the C code applies to them. */
module Bytes {

  type byte = x: int | 0 <= x < 256

  const TWO_TO_THE_64 := 0x1_0000_0000_0000_0000

  type u64 = x: int | 0 <= x < 0x1_0000_0000_0000_0000

  type i64 = x: int | -0x8000_0000_0000_0000 <= x < 0x8000_0000_0000_0000

  /** A C string held in memory: the bytes before its terminating NUL. */
  type cstring = s: seq<byte> | 0 !in s

  /** The cast `(uint64_t)i`. */
  function ToU64(i: i64): u64 {
    if i < 0 then i + TWO_TO_THE_64 else i
  }

  /** The cast `(int64_t)u`. */
  function ToI64(u: u64): i64 {
    if u < 0x8000_0000_0000_0000 then u else u - TWO_TO_THE_64
  }

  /** Both casts keep the number modulo 2^64. */
  lemma CastsWrap(i: i64, u: u64)
    ensures ToU64(i) == i % 0x1_0000_0000_0000_0000
    ensures ToI64(u) % 0x1_0000_0000_0000_0000 == u
  {
    var v := ToI64(u);
    assert i < 0 ==> (i + TWO_TO_THE_64) % TWO_TO_THE_64 == i % TWO_TO_THE_64;
    assert v < 0 ==> (v + TWO_TO_THE_64) % TWO_TO_THE_64 == v % TWO_TO_THE_64;
  }

  function Pow(base: nat, n: nat): nat {
    if n == 0 then 1 else base * Pow(base, n - 1)
  }

  /** Bitwise or of two naturals, bit by bit. */
  function Or(a: nat, b: nat): nat
    decreases a + b
  {
    if a == 0 && b == 0 then 0
    else 2 * Or(a / 2, b / 2) + (if a % 2 == 1 || b % 2 == 1 then 1 else 0)
  }

  /** Or of two naturals without a common bit is their sum: `a` lies below bit `k`, `b` is a multiple of 2^k. */
  lemma {:induction false} OrDisjoint(a: nat, b: nat, k: nat, c: nat)
    requires a < Pow(2, k) && b == c * Pow(2, k)
    ensures Or(a, b) == a + b
  {
    if k == 0 {
      OrZero(b);
    } else {
      assert b == 2 * (c * Pow(2, k - 1));
      OrDisjoint(a / 2, b / 2, k - 1, c);
    }
  }

  lemma {:induction false} OrZero(b: nat)
    ensures Or(0, b) == b
  {
    if b != 0 {
      OrZero(b / 2);
    }
  }

  /** A byte whose bits 0 to 6 are those of `v` and whose bit 7 is set: `(uint8_t)(v | 0x80)`. */
  function WithHighBit(v: nat): (b: byte)
    ensures b == v % 128 + 128
  {
    assert Pow(2, 7) == 128;
    OrDisjoint(v % 128, 0x80, 7, 1);
    Or(v % 128, 0x80)
  }

  lemma ModuloIs(m: nat, q: nat, r: nat)
    requires r < m
    ensures (m * q + r) % m == r && (m * q + r) / m == q
  {
    var x := m * q + r;
    DivisionUnique(m, x / m, x % m, q, r);
  }

  lemma DivisionUnique(m: nat, q0: int, r0: nat, q1: int, r1: nat)
    requires r0 < m && r1 < m && m * q0 + r0 == m * q1 + r1
    ensures q0 == q1 && r0 == r1
  {
    Distribute(m, q0, q1);
    if q0 > q1 {
      AtLeastOnce(m, q0 - q1);
    } else if q1 > q0 {
      AtLeastOnce(m, q1 - q0);
      Distribute(m, q1, q0);
    }
  }

  lemma Distribute(m: int, x: int, y: int)
    ensures m * (x - y) == m * x - m * y
  {
  }

  lemma AtLeastOnce(m: nat, d: nat)
    requires d > 0
    ensures m * d >= m
  {
    assert m * d == m + m * (d - 1);
  }

  lemma {:induction false} PowPositive(base: nat, n: nat)
    requires base > 0
    ensures Pow(base, n) > 0
  {
    if n > 0 {
      PowPositive(base, n - 1);
    }
  }

  lemma TimesAssoc(a: nat, b: nat, c: nat)
    ensures a * (b * c) == (a * b) * c
  {
  }

  lemma {:induction false} PowAdd(base: nat, m: nat, n: nat)
    ensures Pow(base, m + n) == Pow(base, m) * Pow(base, n)
  {
    if m > 0 {
      PowAdd(base, m - 1, n);
      TimesAssoc(base, Pow(base, m - 1), Pow(base, n));
    }
  }

  /** The bytes of a buffer that a C string function sees: those before the first NUL. */
  function CString(s: seq<byte>): (c: cstring)
    ensures c <= s
    ensures |c| == |s| || s[|c|] == 0
  {
    if s == [] || s[0] == 0 then [] else
      var rest := CString(s[1..]);
      assert forall i | 0 <= i < |rest| :: rest[i] == s[1..][i];
      [s[0]] + rest
  }

  /** The shift `v >> n`. */
  function Shr(v: nat, n: nat): nat {
    if n == 0 then v else Shr(v / 2, n - 1)
  }

  /** Shifting by n and then by eight more. */
  lemma {:induction false} ShrByte(v: nat, n: nat)
    ensures Shr(v, n + 8) == Shr(v, n) / 256
  {
    if n == 0 {
      ShrNibble(v, 4);
      ShrNibble(v / 16, 0);
    } else {
      ShrByte(v / 2, n - 1);
    }
  }

  lemma ShrNibble(v: nat, n: nat)
    ensures Shr(v, n + 4) == Shr(v / 16, n)
  {
    assert Shr(v, n + 4) == Shr(v / 2, n + 3);
    assert Shr(v / 2, n + 3) == Shr(v / 4, n + 2);
    assert Shr(v / 4, n + 2) == Shr(v / 8, n + 1);
  }
}
