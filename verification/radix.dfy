// Fixed-width bit fields packed into one integer, least significant field
// first: the layout of the 2-bit colour indices and 3-bit alpha indices of a
// BC block, of the bytes of a little-endian word, and of the bits of a byte.

module Radix {

  function Pow(b: nat, n: nat): (r: nat)
    ensures b > 0 ==> r > 0
  {
    if n == 0 then 1 else b * Pow(b, n - 1)
  }

  /** The integer whose base-`b` digits, lowest first, are `ds`. */
  function FromDigits(ds: seq<nat>, b: nat): nat
  {
    if ds == [] then 0 else ds[0] + b * FromDigits(ds[1..], b)
  }

  /** The field widths in use: single bits, 2-bit and 3-bit indices, and
      bytes. */
  predicate IsRadix(b: nat)
  {
    b == 2 || b == 4 || b == 8 || b == 256
  }

  /** Digit `k` of `v` in base `b`: shift right `k` digits, then mask. */
  function Digit(v: nat, b: nat, k: nat): (r: nat)
    requires IsRadix(b)
    ensures r < b
  {
    if k == 0 then v % b else Digit(v / b, b, k - 1)
  }

  predicate AllBelow(ds: seq<nat>, b: nat)
  {
    forall i :: 0 <= i < |ds| ==> ds[i] < b
  }

  lemma DivMulAdd(d: nat, b: nat, x: nat)
    requires d < b
    ensures (d + b * x) / b == x && (d + b * x) % b == d
  {
    var v := d + b * x;
    var q, r := v / b, v % b;
    assert b * (x - q) == r - d;
    MulSmall(b, x - q);
  }

  lemma MulSmall(b: int, k: int)
    requires b > 0 && -b < b * k < b
    ensures k == 0
  {
    if k > 0 { MulMono(b, k); } else if k < 0 { MulMono(b, -k); }
  }

  lemma MulMono(b: int, k: int)
    requires b > 0 && k >= 1
    ensures b * k >= b
  {
  }

  /** Every field of the packed value reads back as the field packed. */
  lemma {:induction false} DigitOfFromDigits(ds: seq<nat>, b: nat, k: nat)
    requires IsRadix(b) && AllBelow(ds, b) && k < |ds|
    ensures Digit(FromDigits(ds, b), b, k) == ds[k]
  {
    DivMulAdd(ds[0], b, FromDigits(ds[1..], b));
    if k > 0 {
      DigitOfFromDigits(ds[1..], b, k - 1);
    }
  }

  lemma {:induction false} FromDigitsBound(ds: seq<nat>, b: nat)
    requires b > 0 && AllBelow(ds, b)
    ensures FromDigits(ds, b) < Pow(b, |ds|)
  {
    if ds != [] {
      FromDigitsBound(ds[1..], b);
      var x := FromDigits(ds[1..], b);
      var p := Pow(b, |ds| - 1);
      MulLe(b, x + 1, p);
      Distribute(b, x, 1);
      assert FromDigits(ds, b) == ds[0] + b * x;
      assert Pow(b, |ds|) == b * p;
    }
  }

  lemma MulLe(b: nat, x: nat, y: nat)
    requires x <= y
    ensures b * x <= b * y
  {
  }

  /** Splitting the digits at `k`: the high part is shifted by b^k. */
  lemma {:induction false} FromDigitsSplit(ds: seq<nat>, b: nat, k: nat)
    requires k <= |ds|
    ensures FromDigits(ds, b) == FromDigits(ds[..k], b) + Pow(b, k) * FromDigits(ds[k..], b)
  {
    if k > 0 {
      FromDigitsSplit(ds[1..], b, k - 1);
      assert ds[1..][..k - 1] == ds[..k][1..];
      assert ds[1..][k - 1..] == ds[k..];
      var lo, hi := FromDigits(ds[1..][..k - 1], b), FromDigits(ds[k..], b);
      var p := Pow(b, k - 1);
      assert FromDigits(ds[1..], b) == lo + p * hi;
      Distribute(b, lo, p * hi);
      Associate(b, p, hi);
    }
  }

  lemma Distribute(b: nat, x: nat, y: nat)
    ensures b * (x + y) == b * x + b * y
  {
  }

  lemma Associate(a: nat, b: nat, c: nat)
    ensures a * (b * c) == (a * b) * c
  {
  }

  /** Setting a digit that was 0 to `d` adds `d` times its weight. */
  lemma {:induction false} FromDigitsSet(ds: seq<nat>, b: nat, k: nat, d: nat)
    requires k < |ds| && ds[k] == 0
    ensures FromDigits(ds[k := d], b) == FromDigits(ds, b) + d * Pow(b, k)
  {
    var ds' := ds[k := d];
    if k == 0 {
      assert ds'[1..] == ds[1..];
    } else {
      var t, p := ds[1..], Pow(b, k - 1);
      assert ds'[1..] == t[k - 1 := d];
      FromDigitsSet(t, b, k - 1, d);
      var x := FromDigits(t, b);
      assert FromDigits(ds', b) == ds[0] + b * (x + d * p);
      Distribute(b, x, d * p);
      SwapMul(b, d, p);
      assert Pow(b, k) == b * p;
    }
  }

  lemma SwapMul(b: nat, d: nat, p: nat)
    ensures b * (d * p) == d * (b * p)
  {
  }
}
