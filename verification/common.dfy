// Shared vocabulary for the models: optional values, results that carry the
// error a C++ routine throws or returns, and the fixed-width unsigned integer
// arithmetic of the original code (which wraps modulo 2^N).

module Common {

  datatype Option<T> = None | Some(value: T)

  datatype Result<T, E> = Ok(value: T) | Err(error: E)

  /** The outcome of an operation that returns nothing or fails (throws). */
  datatype Outcome<E> = Pass | Fail(error: E)

  const TWO_8: int := 0x100
  const TWO_16: int := 0x1_0000
  const TWO_32: int := 0x1_0000_0000
  const TWO_64: int := 0x1_0000_0000_0000_0000

  type byte = x: int | 0 <= x < TWO_8
  type u16 = x: int | 0 <= x < TWO_16
  type u32 = x: int | 0 <= x < TWO_32
  type u64 = x: int | 0 <= x < TWO_64
  type i32 = x: int | -0x8000_0000 <= x < 0x8000_0000

  /** A UINT/uint32_t result: the value reduced modulo 2^32. */
  function Wrap32(x: int): u32 { x % TWO_32 }

  /** A wchar_t/uint16_t result: the value reduced modulo 2^16. */
  function Wrap16(x: int): u16 { x % TWO_16 }

  /** An int/LONG result: the value reduced modulo 2^32 and read as two's
      complement. */
  function WrapI32(x: int): i32
  {
    var w := x % TWO_32;
    if w < 0x8000_0000 then w else w - TWO_32
  }

  /** A size_t/uint64_t result: the value reduced modulo 2^64. */
  function Wrap64(x: int): u64 { x % TWO_64 }

  /** Reducing an intermediate sum does not change the wrapped total. */
  lemma Wrap32Add(a: int, b: int)
    ensures Wrap32(Wrap32(a) + b) == Wrap32(a + b)
  {
    var q := a / TWO_32;
    assert a == Wrap32(a) + TWO_32 * q;
  }

  lemma MulNonNeg(a: int, b: int)
    requires a >= 0 && b >= 0
    ensures a * b >= 0
  {}

  /** Euclidean division is determined by quotient and remainder. */
  lemma DivModUnique(m: int, a: int, q: int, r: int)
    requires a > 0 && 0 <= r < a && m == a * q + r
    ensures m / a == q && m % a == r
  {
    var q', r' := m / a, m % a;
    assert m == a * q' + r';
    if q > q' {
      var d := q - q';
      assert a * q == a * q' + a * (d - 1) + a;
      MulNonNeg(a, d - 1);
      assert false;
    } else if q < q' {
      var d := q' - q;
      assert a * q' == a * q + a * (d - 1) + a;
      MulNonNeg(a, d - 1);
      assert false;
    }
  }

  /** A value already in range is its own wrap. */
  lemma Wrap32Small(x: int)
    requires 0 <= x < TWO_32
    ensures Wrap32(x) == x
  {
    DivModUnique(x, TWO_32, 0, x);
  }

  /** A difference of two 32-bit values, read as a UINT. */
  lemma Wrap32Diff(d: int)
    requires -TWO_32 < d < TWO_32
    ensures d >= 0 ==> Wrap32(d) == d
    ensures d < 0 ==> Wrap32(d) == TWO_32 + d
  {
    if d >= 0 {
      Wrap32Small(d);
    } else {
      Wrap32Shift(d, 1);
      Wrap32Small(TWO_32 + d);
    }
  }

  lemma Wrap64Small(x: int)
    requires 0 <= x < TWO_64
    ensures Wrap64(x) == x
  {
    DivModUnique(x, TWO_64, 0, x);
  }

  lemma MulSucc(k: int, b: int)
    ensures (k + 1) * b == k * b + b
  {}

  /** Adding whole multiples of 2^32 does not change the wrapped value. */
  lemma Wrap32Shift(x: int, q: int)
    ensures Wrap32(x + TWO_32 * q) == Wrap32(x)
  {
    var p := x / TWO_32;
    assert x == TWO_32 * p + Wrap32(x);
    DivModUnique(x + TWO_32 * q, TWO_32, p + q, Wrap32(x));
  }

  /** Wrapping to 32 bits keeps the two low bits. */
  lemma Wrap32Mod4(x: int)
    ensures Wrap32(x) % 4 == x % 4
  {
    var q := x / TWO_32;
    var w := Wrap32(x);
    assert x == TWO_32 * q + w;
    assert w == 4 * (w / 4) + w % 4;
    DivModUnique(x, 4, 0x4000_0000 * q + w / 4, w % 4);
  }

  /** A power of two, as the alignment masks of the original code assume. */
  predicate IsPow2(a: nat)
  {
    a == 1 || (a > 1 && a % 2 == 0 && IsPow2(a / 2))
  }

  /** Bitwise AND of two naturals, one binary digit at a time. */
  function BitAnd(x: nat, y: nat): nat
  {
    if x == 0 || y == 0 then 0 else 2 * BitAnd(x / 2, y / 2) + (x % 2) * (y % 2)
  }

  lemma {:induction false} BitAndSelf(y: nat)
    ensures BitAnd(y, y) == y
  {
    if y > 0 {
      BitAndSelf(y / 2);
      assert (y % 2) * (y % 2) == y % 2;
    }
  }

  /** `(x + (a - 1)) & ~(a - 1)` in 32-bit arithmetic for a power-of-two `a`:
      the sum wraps, then the low bits are cleared, which for a power of two
      is subtracting the remainder. */
  function AlignUp32(x: int, a: nat): u32
    requires a > 0
  {
    var s := Wrap32(x + a - 1);
    s - s % a
  }

  /** Without wrap-around the mask gives the least multiple of `a` not below `x`. */
  lemma AlignUp32Bounds(x: nat, a: nat)
    requires a > 0 && x + a - 1 < TWO_32
    ensures AlignUp32(x, a) % a == 0 && x <= AlignUp32(x, a) < x + a
  {
    var s := x + a - 1;
    var q, r := s / a, s % a;
    assert s == a * q + r;
    assert AlignUp32(x, a) == a * q;
    DivModUnique(a * q, a, q, 0);
  }

  function Min(a: int, b: int): int { if a <= b then a else b }
  function Max(a: int, b: int): int { if a >= b then a else b }

  /** C/C++ integer division and remainder truncate toward zero. */
  function CDiv(a: int, b: int): int
    requires b != 0
  {
    if a >= 0 then a / b
    else if b > 0 then -((-a) / b)
    else (-a) / (-b)
  }

  function CRem(a: int, b: int): int
    requires b != 0
  {
    a - b * CDiv(a, b)
  }

  /** Sum of a sequence of naturals. */
  function Sum(s: seq<int>): int
  {
    if s == [] then 0 else Sum(s[..|s| - 1]) + s[|s| - 1]
  }

  lemma SumAppend(s: seq<int>, x: int)
    ensures Sum(s + [x]) == Sum(s) + x
  {
    assert (s + [x])[..|s + [x]| - 1] == s;
  }

  // Decimal text, as the C runtime's number scanners read it

  predicate IsDecimalDigit(c: char) { '0' <= c <= '9' }

  /** How many decimal digits `s` starts with. */
  function DecimalRun(s: string): (n: nat)
    ensures n <= |s| && (forall i :: 0 <= i < n ==> IsDecimalDigit(s[i]))
    ensures n < |s| ==> !IsDecimalDigit(s[n])
  {
    if s == [] || !IsDecimalDigit(s[0]) then 0 else 1 + DecimalRun(s[1..])
  }

  /** The value of decimal digits, most significant first. */
  function FromDecimal(s: string): nat
    requires forall i :: 0 <= i < |s| ==> IsDecimalDigit(s[i])
  {
    if s == [] then 0
    else
      assert IsDecimalDigit(s[|s| - 1]);
      10 * FromDecimal(s[..|s| - 1]) + (s[|s| - 1] as int - '0' as int)
  }

  /** Memory `m` with `b` stored from address `at`. */
  function WriteAt(m: seq<byte>, at: nat, b: seq<byte>): (r: seq<byte>)
    requires at + |b| <= |m|
    ensures |r| == |m|
  {
    m[..at] + b + m[at + |b|..]
  }

  /** Storing one byte is updating that address. */
  lemma WriteAtOne(m: seq<byte>, at: nat, v: byte)
    requires at < |m|
    ensures WriteAt(m, at, [v]) == m[at := v]
  {
  }

  lemma WriteAtAppend(m: seq<byte>, at: nat, x: seq<byte>, y: seq<byte>)
    requires at + |x| + |y| <= |m|
    ensures WriteAt(WriteAt(m, at, x), at + |x|, y) == WriteAt(m, at, x + y)
  {
    var w := WriteAt(m, at, x);
    assert w[..at + |x|] == m[..at] + x;
    assert w[at + |x| + |y|..] == m[at + |x| + |y|..];
  }
}
