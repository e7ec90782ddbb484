// The byte image of integers as the serialization kit copies them with
// memcpy: the host order of the 64-bit little-endian targets, `size` bytes
// per value, least significant byte first.

module SerialBytes {
  import opened Common
  import Radix

  function Pow256(n: nat): (r: nat)
    ensures r >= 1
  {
    if n == 0 then 1 else 256 * Pow256(n - 1)
  }

  /** The `n` bytes memcpy copies out of an integer of width `n` holding `v`. */
  function LE(v: nat, n: nat): (r: seq<byte>)
    ensures |r| == n
  {
    if n == 0 then [] else [v % 256] + LE(v / 256, n - 1)
  }

  /** The integer memcpy rebuilds from a run of bytes. */
  function FromLE(b: seq<byte>): nat
  {
    if b == [] then 0 else b[0] + 256 * FromLE(b[1..])
  }

  lemma {:induction false} FromLEBound(b: seq<byte>)
    ensures FromLE(b) < Pow256(|b|)
  {
    if b != [] {
      FromLEBound(b[1..]);
    }
  }

  /** Reading back the bytes of a value that fits its width gives the value. */
  lemma {:induction false} FromLEOfLE(v: nat, n: nat)
    requires v < Pow256(n)
    ensures FromLE(LE(v, n)) == v
  {
    if n > 0 {
      FromLEOfLE(v / 256, n - 1);
      assert LE(v, n)[1..] == LE(v / 256, n - 1);
    }
  }

  /** Writing back the integer read from some bytes gives the same bytes. */
  lemma {:induction false} LEOfFromLE(b: seq<byte>)
    ensures LE(FromLE(b), |b|) == b
  {
    if b != [] {
      LEOfFromLE(b[1..]);
      assert FromLE(b) % 256 == b[0];
      assert FromLE(b) / 256 == FromLE(b[1..]);
    }
  }

  predicate AllFit(vals: seq<nat>, size: nat)
  {
    forall i :: 0 <= i < |vals| ==> vals[i] < Pow256(size)
  }

  /** The image of `count` values written by one WriteIntegers call. */
  function EncodeAll(vals: seq<nat>, size: nat): (r: seq<byte>)
    ensures |r| == size * |vals|
  {
    if vals == [] then [] else LE(vals[0], size) + EncodeAll(vals[1..], size)
  }

  /** The values one ReadIntegers call rebuilds from `size * count` bytes. */
  function DecodeAll(b: seq<byte>, size: nat, count: nat): (r: seq<nat>)
    requires |b| == size * count
    ensures |r| == count
  {
    if count == 0 then []
    else [FromLE(b[..size])] + DecodeAll(b[size..], size, count - 1)
  }

  lemma {:induction false} DecodeAllOfEncodeAll(vals: seq<nat>, size: nat)
    requires AllFit(vals, size)
    ensures DecodeAll(EncodeAll(vals, size), size, |vals|) == vals
  {
    if vals != [] {
      var e := EncodeAll(vals, size);
      assert e[..size] == LE(vals[0], size);
      assert e[size..] == EncodeAll(vals[1..], size);
      FromLEOfLE(vals[0], size);
      DecodeAllOfEncodeAll(vals[1..], size);
    }
  }

  lemma {:induction false} DecodeAllFits(b: seq<byte>, size: nat, count: nat)
    requires |b| == size * count
    ensures AllFit(DecodeAll(b, size, count), size)
  {
    if count > 0 {
      FromLEBound(b[..size]);
      DecodeAllFits(b[size..], size, count - 1);
    }
  }

  /** Re-encoding decoded values gives back the bytes they were read from. */
  lemma {:induction false} EncodeAllOfDecodeAll(b: seq<byte>, size: nat, count: nat)
    requires |b| == size * count
    ensures EncodeAll(DecodeAll(b, size, count), size) == b
  {
    if count > 0 {
      var head, tail := b[..size], b[size..];
      assert |tail| == size * (count - 1) by {
        assert size * count == size + size * (count - 1);
      }
      var d := DecodeAll(b, size, count);
      var dt := DecodeAll(tail, size, count - 1);
      assert d == [FromLE(head)] + dt;
      assert d[1..] == dt;
      EncodeAllOfDecodeAll(tail, size, count - 1);
      LEOfFromLE(head);
      assert EncodeAll(d, size) == LE(FromLE(head), size) + EncodeAll(dt, size);
      assert b == head + tail;
    }
  }

  /** The bytes of a wide value whose low `k` bytes hold `a` are those of `a`
      followed by those of the high part. */
  lemma {:induction false} LESplit(a: nat, b: nat, k: nat, n: nat)
    requires a < Pow256(k)
    ensures LE(a + Pow256(k) * b, k + n) == LE(a, k) + LE(b, n)
  {
    if k > 0 {
      var p := Pow256(k - 1);
      var v := a + Pow256(k) * b;
      assert v == a % 256 + 256 * (a / 256 + p * b);
      Radix.DivMulAdd(a % 256, 256, a / 256 + p * b);
      LESplit(a / 256, b, k - 1, n);
    }
  }
}
