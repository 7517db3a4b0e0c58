/** Unsigned machine integers as their binary digits, least significant first.

    A value of the program's 32-bit unsigned type is a sequence of 32 booleans; its operators are
    then digit-wise: `x & 1` is `x[0]`, `x >>> 1` is `x[1..] + [false]`, `x ^ y` is `Xor(x, y)`. */
module Bits {

  /** A byte of a file or of a buffer. */
  type byte = x: int | 0 <= x < 256

  function Zeros(n: nat): (r: seq<bool>)
    ensures |r| == n
  {
    seq(n, i => false)
  }

  function Ones(n: nat): (r: seq<bool>)
    ensures |r| == n
  {
    seq(n, i => true)
  }

  function Xor(a: seq<bool>, b: seq<bool>): (r: seq<bool>)
    requires |a| == |b|
    ensures |r| == |a|
    ensures forall i :: 0 <= i < |a| ==> r[i] == (a[i] != b[i])
  {
    seq(|a|, i requires 0 <= i < |a| => a[i] != b[i])
  }

  /** The `width` low binary digits of `n`. */
  function Of(n: nat, width: nat): (r: seq<bool>)
    ensures |r| == width
  {
    if width == 0 then [] else [n % 2 == 1] + Of(n / 2, width - 1)
  }

  function Value(b: seq<bool>): nat {
    if b == [] then 0 else (if b[0] then 1 else 0) + 2 * Value(b[1..])
  }

  function Pow2(n: nat): (r: nat)
    ensures r >= 1
  {
    if n == 0 then 1 else 2 * Pow2(n - 1)
  }

  lemma Pow2Values()
    ensures Pow2(8) == 256 && Pow2(16) == 65536
  {
    Pow2Sum(4, 4);
    Pow2Sum(8, 8);
  }

  lemma {:induction false} Pow2Sum(m: nat, n: nat)
    ensures Pow2(m + n) == Pow2(m) * Pow2(n)
  {
    if m == 0 {
    } else {
      Pow2Sum(m - 1, n);
      assert 2 * Pow2(m - 1) * Pow2(n) == 2 * (Pow2(m - 1) * Pow2(n));
    }
  }

  lemma {:induction false} ValueBound(b: seq<bool>)
    ensures Value(b) < Pow2(|b|)
  {
    if b == [] {
    } else {
      ValueBound(b[1..]);
    }
  }

  lemma MulDouble(p: int, v: int)
    ensures (2 * p) * v == 2 * (p * v)
  {
  }

  lemma {:induction false} ValueConcat(a: seq<bool>, b: seq<bool>)
    ensures Value(a + b) == Value(a) + Pow2(|a|) * Value(b)
  {
    if a == [] {
      assert a + b == b;
    } else {
      var v, p := Value(b), Pow2(|a| - 1);
      var rest, high := Value(a[1..]), p * v;
      ValueConcat(a[1..], b);
      assert Value(a[1..] + b) == rest + high;
      assert (a + b)[0] == a[0] && (a + b)[1..] == a[1..] + b;
      assert Pow2(|a|) * v == 2 * high by { MulDouble(p, v); }
    }
  }

  lemma ValueUnfold(b: seq<bool>)
    requires b != []
    ensures Value(b) == (if b[0] then 1 else 0) + 2 * Value(b[1..])
  {
  }

  lemma ValueOfFour(b: seq<bool>)
    requires |b| == 4
    ensures Value(b) == (if b[0] then 1 else 0) + (if b[1] then 2 else 0) + (if b[2] then 4 else 0) + (if b[3] then 8 else 0)
  {
    var b1 := b[1..];
    var b2 := b1[1..];
    var b3 := b2[1..];
    ValueUnfold(b);
    ValueUnfold(b1);
    ValueUnfold(b2);
    ValueUnfold(b3);
    assert b3[1..] == [];
  }

  lemma ValueOfEight(b: seq<bool>)
    requires |b| == 8
    ensures Value(b) == (if b[0] then 1 else 0) + (if b[1] then 2 else 0) + (if b[2] then 4 else 0) + (if b[3] then 8 else 0)
                      + (if b[4] then 16 else 0) + (if b[5] then 32 else 0) + (if b[6] then 64 else 0) + (if b[7] then 128 else 0)
  {
    var low, high := b[..4], b[4..];
    assert low + high == b;
    ValueConcat(low, high);
    ValueOfFour(low);
    ValueOfFour(high);
    assert Pow2(4) == 16 by { assert Pow2(2) == 4; }
  }

  lemma {:induction false} OfValue(b: seq<bool>)
    ensures Of(Value(b), |b|) == b
  {
    if b == [] {
    } else {
      OfValue(b[1..]);
    }
  }

  lemma {:induction false} ValueOf(n: nat, width: nat)
    requires n < Pow2(width)
    ensures Value(Of(n, width)) == n
  {
    if width == 0 {
    } else {
      ValueOf(n / 2, width - 1);
    }
  }

  /** Digits above the ones a value needs are all zero. */
  lemma {:induction false} OfHigh(n: nat, width: nat, more: nat)
    requires n < Pow2(width)
    ensures Of(n, width + more) == Of(n, width) + Zeros(more)
  {
    if width == 0 {
      OfZero(more);
    } else {
      OfHigh(n / 2, width - 1, more);
    }
  }

  lemma {:induction false} OfZero(width: nat)
    ensures Of(0, width) == Zeros(width)
  {
    if width == 0 {
    } else {
      OfZero(width - 1);
    }
  }

  /** The eight digits of each byte in turn: the bit order of RFC 1951 section 3.1.1. */
  function OfBytes(bytes: seq<byte>): (r: seq<bool>)
    ensures |r| == 8 * |bytes|
  {
    if bytes == [] then [] else Of(bytes[0], 8) + OfBytes(bytes[1..])
  }

  lemma {:induction false} OfBytesConcat(a: seq<byte>, b: seq<byte>)
    ensures OfBytes(a + b) == OfBytes(a) + OfBytes(b)
  {
    if a == [] {
      assert a + b == b;
    } else {
      assert (a + b)[1..] == a[1..] + b;
      OfBytesConcat(a[1..], b);
    }
  }
}
