/** Bit strings, most significant bit first, and the numbers they denote. */
module Bits {
  import opened Common

  function Pow2(n: nat): (r: nat)
    ensures r > 0
  {
    if n == 0 then 1 else 2 * Pow2(n - 1)
  }

  /** The n low bits of v. */
  function BitsN(v: nat, n: nat): (r: seq<bool>)
    ensures |r| == n
  {
    if n == 0 then [] else BitsN(v / 2, n - 1) + [v % 2 == 1]
  }

  function BitsOf(bytes: seq<byte>): (r: seq<bool>)
    ensures |r| == 8 * |bytes|
  {
    if bytes == [] then [] else BitsOf(bytes[..|bytes| - 1]) + BitsN(bytes[|bytes| - 1], 8)
  }

  function Value(bits: seq<bool>): (r: nat)
  {
    if bits == [] then 0
    else 2 * Value(bits[..|bits| - 1]) + if bits[|bits| - 1] then 1 else 0
  }

  /** Big-endian value of a byte string. */
  function Big(bytes: seq<byte>): nat
  {
    if bytes == [] then 0 else 256 * Big(bytes[..|bytes| - 1]) + bytes[|bytes| - 1]
  }

  lemma {:induction false} Pow2Add(a: nat, b: nat)
    ensures Pow2(a + b) == Pow2(a) * Pow2(b)
  {
    if b > 0 {
      Pow2Add(a, b - 1);
      assert a + b - 1 == a + (b - 1);
    }
  }

  lemma {:induction false} ValueConcat(x: seq<bool>, y: seq<bool>)
    ensures Value(x + y) == Value(x) * Pow2(|y|) + Value(y)
  {
    if y == [] {
      assert x + y == x;
    } else {
      var y' := y[..|y| - 1];
      assert (x + y)[..|x + y| - 1] == x + y';
      ValueConcat(x, y');
      Distribute(Value(x), Pow2(|y'|), Value(y'), if y[|y| - 1] then 1 else 0);
    }
  }

  lemma Distribute(x: nat, p: nat, y: nat, b: nat)
    ensures 2 * (x * p + y) + b == x * (2 * p) + (2 * y + b)
  {
  }

  lemma {:induction false} ValueBound(x: seq<bool>)
    ensures Value(x) < Pow2(|x|)
  {
    if x != [] {
      ValueBound(x[..|x| - 1]);
    }
  }

  lemma {:induction false} ValueBitsN(v: nat, n: nat)
    ensures Value(BitsN(v, n)) == v % Pow2(n)
  {
    if n > 0 {
      ValueBitsN(v / 2, n - 1);
      var p := Pow2(n - 1);
      assert BitsN(v, n)[..n - 1] == BitsN(v / 2, n - 1);
      HalfMod(v, p);
    }
  }

  lemma HalfMod(v: nat, p: nat)
    requires p > 0
    ensures v % (2 * p) == 2 * ((v / 2) % p) + v % 2
  {
    var q := (v / 2) / p;
    var r := 2 * ((v / 2) % p) + v % 2;
    assert v == q * (2 * p) + r by {
      assert v / 2 == q * p + (v / 2) % p;
    }
    DivModUnique(v, 2 * p, q, r);
  }

  lemma DivModUnique(v: int, m: nat, q: int, r: nat)
    requires m > 0 && v == q * m + r && r < m
    ensures v / m == q && v % m == r
  {
    var k := v / m - q;
    assert k * m == r - v % m;
    MultipleBelow(k, m);
  }

  lemma MultipleBelow(k: int, m: nat)
    requires 0 - m < k * m < m
    ensures k == 0
  {
  }

  lemma Pow2Eight()
    ensures Pow2(1) == 2 && Pow2(2) == 4 && Pow2(3) == 8 && Pow2(4) == 16
    ensures Pow2(5) == 32 && Pow2(6) == 64 && Pow2(7) == 128 && Pow2(8) == 256
  {
  }

  lemma AppendBits(x: seq<bool>, v: nat, n: nat, p: nat)
    requires p == Pow2(n)
    ensures Value(x + BitsN(v, n)) == Value(x) * p + v % p
  {
    ValueConcat(x, BitsN(v, n));
    ValueBitsN(v, n);
  }

  lemma ByteStep(x: seq<bool>, last: byte, n: nat)
    requires n == 8
    ensures Value(x + BitsN(last, n)) == 256 * Value(x) + last
  {
    assert 256 == Pow2(n) by { Pow2Eight(); }
    AppendBits(x, last, n, 256);
  }

  /** A byte string and its bits denote the same number. */
  lemma {:induction false} BigIsValue(bytes: seq<byte>)
    ensures Value(BitsOf(bytes)) == Big(bytes)
  {
    if bytes != [] {
      BigIsValue(bytes[..|bytes| - 1]);
      ByteStep(BitsOf(bytes[..|bytes| - 1]), bytes[|bytes| - 1], 8);
    }
  }

  /** Cutting a bit string is division and remainder of its number. */
  lemma ValueSplit(x: seq<bool>, i: nat)
    requires i <= |x|
    ensures Value(x[..i]) == Value(x) / Pow2(|x| - i)
    ensures Value(x[i..]) == Value(x) % Pow2(|x| - i)
  {
    assert x == x[..i] + x[i..];
    ValueConcat(x[..i], x[i..]);
    ValueBound(x[i..]);
    DivModUnique(Value(x), Pow2(|x| - i), Value(x[..i]), Value(x[i..]));
  }

  lemma {:induction false} BitsOfConcat(x: seq<byte>, y: seq<byte>)
    ensures BitsOf(x + y) == BitsOf(x) + BitsOf(y)
  {
    if y == [] {
      assert x + y == x;
    } else {
      var y' := y[..|y| - 1];
      assert (x + y)[..|x + y| - 1] == x + y';
      BitsOfConcat(x, y');
    }
  }

  function Zeros(n: nat): seq<bool> { seq(n, _ => false) }

  lemma {:induction false} ValueZeros(n: nat)
    ensures Value(Zeros(n)) == 0
  {
    if n > 0 {
      assert Zeros(n)[..n - 1] == Zeros(n - 1);
      ValueZeros(n - 1);
    }
  }

  /** `v << n` on a 32-bit register. */
  function Shl(v: nat, n: nat): nat
  {
    (v * Pow2(n)) % TWO32
  }

  /** `v >> n`. */
  function Shr(v: nat, n: nat): nat
  {
    QuotientNat(v, Pow2(n));
    v / Pow2(n)
  }

  lemma QuotientNat(v: nat, p: nat)
    requires p > 0
    ensures v / p >= 0
  {
  }

  lemma ShlZero(v: nat, n: nat)
    requires v < TWO32 && n == 0
    ensures Shl(v, n) == v
  {
  }

  lemma ShlNought(n: nat)
    ensures Shl(0, n) == 0
  {
  }
}
