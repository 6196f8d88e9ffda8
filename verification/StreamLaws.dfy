/** Laws of the bit reader over all streams: flushing is dropping bits from the destuffed stream,
    and looking ahead keeps its promise exactly under a condition on the stream's tail. */
module StreamLaws {
  import opened Common
  import opened Bits
  import opened Destuffing
  import opened Lookahead
  import opened StreamReader

  /** Two successful flushes are one. */
  lemma FlushTwice(s: seq<byte>, len: nat, c: Cursor, a: nat, b: nat)
    requires c.bit < 8
    requires Flushed(s, len, c, false, a).0 && Flushed(s, len, Flushed(s, len, c, false, a).1, false, b).0
    ensures Flushed(s, len, c, false, a + b) == Flushed(s, len, Flushed(s, len, c, false, a).1, false, b)
  {
    hide Advance;
    var j, r := (c.bit + a) / 8, (c.bit + a) % 8;
    AddInBytes(c.bit, a, b);
    AdvanceAdd(s, c.pos, j, (r + b) / 8);
    assert Flushed(s, len, c, false, a).1.pos == Advance(s, c.pos, j);
  }

  lemma AddInBytes(bit: nat, a: nat, b: nat)
    ensures (bit + (a + b)) / 8 == (bit + a) / 8 + ((bit + a) % 8 + b) / 8
    ensures (bit + (a + b)) % 8 == ((bit + a) % 8 + b) % 8
  {
  }

  /** Flushing n bits drops n bits of whatever the cursor saw. */
  lemma FlushDropsBits(s: seq<byte>, len: nat, c: Cursor, n: nat, k: nat)
    requires c.bit < 8 && InBuffer(s, c.pos, k) && (k == 0 ==> c.bit == 0)
    requires c.bit + n <= 8 * k && Flushed(s, len, c, false, n).0
    ensures var d, j := Flushed(s, len, c, false, n).1, (c.bit + n) / 8;
      && j <= k && InBuffer(s, d.pos, k - j) && (k == j ==> d.bit == 0) && d.bit < 8
      && Window(s, d.pos, d.bit, k - j) == Window(s, c.pos, c.bit, k)[n..]
  {
    hide Advance, Window, InBuffer;
    var j, r := (c.bit + n) / 8, (c.bit + n) % 8;
    assert c.bit + n == 8 * j + r;
    assert Flushed(s, len, c, false, n).1.pos == Advance(s, c.pos, j);
    WindowDrop(s, c.pos, c.bit, n, k, j, r);
  }

  lemma WindowDrop(s: seq<byte>, p: nat, b: nat, n: nat, k: nat, j: nat, r: nat)
    requires b < 8 && r < 8 && b + n == 8 * j + r <= 8 * k && InBuffer(s, p, k) && (k == 0 ==> b == 0)
    ensures j <= k && InBuffer(s, Advance(s, p, j), k - j) && (k == j ==> r == 0)
    ensures Window(s, Advance(s, p, j), r, k - j) == Window(s, p, b, k)[n..]
  {
    var q := Advance(s, p, j);
    Split(s, p, j, k);
    BitsOfConcat(Destuffed(s, p, j), Destuffed(s, q, k - j));
    DropDrop(BitsOf(Destuffed(s, p, j)), BitsOf(Destuffed(s, q, k - j)), b, n, r);
  }

  lemma DropDrop(x: seq<bool>, y: seq<bool>, b: nat, n: nat, r: nat)
    requires b + n == |x| + r && r <= |y|
    ensures (x + y)[b..][n..] == y[r..]
  {
  }

  /** A flush never stops on a stuffed zero, and keeps the counter in step with the cursor. */
  lemma FlushKeepsInvariants(s: seq<byte>, len: nat, c: Cursor, n: nat)
    requires c.bit < 8 && Flushed(s, len, c, false, n).0
    ensures var d := Flushed(s, len, c, false, n).1;
      && (!OnStuffedZero(s, c.pos) ==> !OnStuffedZero(s, d.pos))
      && (c.read == 8 * c.pos + c.bit ==> d.read == 8 * d.pos + d.bit)
  {
    if !OnStuffedZero(s, c.pos) {
      AdvanceOffZero(s, c.pos, (c.bit + n) / 8);
    }
  }

  /** Looking ahead after a flush: the two windows overlap in 32 - n bits. */
  lemma ShowAfterFlush(s: seq<byte>, len: nat, c: Cursor, n: nat)
    requires InReach(s, len, c.pos, c.bit)
    requires n <= 32 && n <= |Ahead(s, len, c.pos, c.bit)| && Flushed(s, len, c, false, n).0
    requires InReach(s, len, Flushed(s, len, c, false, n).1.pos, Flushed(s, len, c, false, n).1.bit)
    ensures var d := Flushed(s, len, c, false, n).1;
      Promised(s, len, d.pos, d.bit) / Pow2(n) == Promised(s, len, c.pos, c.bit) % Pow2(32 - n)
  {
    var d := Flushed(s, len, c, false, n).1;
    AheadAfterFlush(s, len, c, n);
    Overlap(Ahead(s, len, c.pos, c.bit), n);
  }

  lemma AheadAfterFlush(s: seq<byte>, len: nat, c: Cursor, n: nat)
    requires InReach(s, len, c.pos, c.bit)
    requires n <= |Ahead(s, len, c.pos, c.bit)| && Flushed(s, len, c, false, n).0
    requires InReach(s, len, Flushed(s, len, c, false, n).1.pos, Flushed(s, len, c, false, n).1.bit)
    ensures var d := Flushed(s, len, c, false, n).1;
      Ahead(s, len, d.pos, d.bit) == Ahead(s, len, c.pos, c.bit)[n..]
  {
    var k := Tokens(s, c.pos, len);
    TokensInBuffer(s, c.pos, len, k);
    FlushDropsBits(s, len, c, n, k);
    TokensAfter(s, c.pos, len, (c.bit + n) / 8);
  }

  lemma Overlap(x: seq<bool>, n: nat)
    requires n <= 32 && n <= |x|
    ensures Value((x[n..] + Zeros(32))[..32]) / Pow2(n) == Value((x + Zeros(32))[..32]) % Pow2(32 - n)
  {
    var before, after := (x + Zeros(32))[..32], (x[n..] + Zeros(32))[..32];
    assert before[n..] == after[..32 - n];
    ValueSplit(before, n);
    ValueSplit(after, 32 - n);
  }

  lemma {:induction false} TokensAfter(s: seq<byte>, p: nat, len: nat, j: nat)
    requires j <= Tokens(s, p, len)
    ensures Tokens(s, Advance(s, p, j), len) == Tokens(s, p, len) - j
    decreases j
  {
    if j > 0 {
      TokensAfter(s, Next(s, p), len, j - 1);
    }
  }

  /** When JpegDecShowBits keeps its promise: enough bytes are left, or no stuffed pair is, or the
      one pair left ends the stream and the padding byte read in its place is zero. */
  predicate Faithful(s: seq<byte>, len: nat, p: nat, b: nat)
    requires InReach(s, len, p, b)
  {
    var d := Tokens(s, p, len);
    var pairs := len - p - d;
    || d >= Need(b)
    || pairs == 0
    || (EndsInPair(s, p, len)
        && if d == 4 then s[len] < Pow2(8 - b) else s[len] == 0 && (pairs == 1 || (d == 3 && b == 0)))
  }

  /** With fewer bits left than asked for, the promise is the rest shifted to the top. */
  lemma PromisedShort(s: seq<byte>, len: nat, p: nat, b: nat, d: nat)
    requires InReach(s, len, p, b) && d == Tokens(s, p, len) < Need(b)
    ensures InBuffer(s, p, d)
    ensures Promised(s, len, p, b) == Shl(Big(Destuffed(s, p, d)), 32 - 8 * d + b)
  {
    TokensInBuffer(s, p, len, d);
    var x, m := Ahead(s, len, p, b), 32 - 8 * d + b;
    assert (x + Zeros(32))[..32] == x + Zeros(m);
    ValueConcat(x, Zeros(m));
    ValueZeros(m);
    BigIsValue(Destuffed(s, p, d));
    ValueSplit(BitsOf(Destuffed(s, p, d)), b);
    assert |BitsOf(Destuffed(s, p, d))| - b == 32 - m;
    ModShift(Big(Destuffed(s, p, d)), m, 32);
    SmallPowers();
  }

  lemma ShortBound(bytes: seq<byte>)
    requires |bytes| <= 4
    ensures Big(bytes) < TWO32
    ensures |bytes| <= 3 ==> Big(bytes) < 0x100_0000
    ensures |bytes| <= 2 ==> Big(bytes) < 0x1_0000
    ensures |bytes| <= 1 ==> Big(bytes) < 0x100
  {
    BigIsValue(bytes);
    ValueBound(BitsOf(bytes));
    SmallPowers();
    assert |bytes| == 0 || |bytes| == 1 || |bytes| == 2 || |bytes| == 3 || |bytes| == 4;
  }

  /** As many tokens as bytes means no stuffed pair among them. */
  lemma {:induction false} NoPairAtEnd(s: seq<byte>, p: nat, len: nat, d: nat)
    requires len + 5 <= |s| && p <= len && d == Tokens(s, p, len) == len - p
    ensures !EndsInPair(s, p, len)
    decreases d
  {
    if d > 0 && Next(s, p) <= len {
      NoPairAtEnd(s, Next(s, p), len, d - 1);
    }
  }

  /** Fewer tokens than bytes: one of them is FF, and if the stream ends in a pair the last one is. */
  lemma {:induction false} TailHasFF(s: seq<byte>, p: nat, len: nat, d: nat)
    requires len + 5 <= |s| && p <= len && d == Tokens(s, p, len) < len - p && !OnStuffedZero(s, p)
    ensures InBuffer(s, p, d) && d > 0 && Big(Destuffed(s, p, d)) > 0
    ensures EndsInPair(s, p, len) ==> Big(Destuffed(s, p, d)) % 256 == 255
  {
    TokensInBuffer(s, p, len, d);
    var bytes := Destuffed(s, p, d);
    if EndsInPair(s, p, len) {
      LastTokenOfPair(s, p, len, d);
    } else {
      SomeFF(s, p, len, d);
      BigPositive(bytes);
    }
  }

  lemma {:induction false} LastTokenOfPair(s: seq<byte>, p: nat, len: nat, d: nat)
    requires len + 5 <= |s| && EndsInPair(s, p, len) && d == Tokens(s, p, len) && InBuffer(s, p, d)
    requires !OnStuffedZero(s, p)
    ensures d > 0 && Destuffed(s, p, d)[d - 1] == 0xFF
    decreases d
  {
    if Next(s, p) == len {
      assert Destuffed(s, p, 1) == [s[p]] + Destuffed(s, len, 0);
      assert d == 1;
    } else {
      LastTokenOfPair(s, Next(s, p), len, d - 1);
    }
  }

  lemma {:induction false} SomeFF(s: seq<byte>, p: nat, len: nat, d: nat)
    requires len + 5 <= |s| && p <= len && d == Tokens(s, p, len) < len - p && InBuffer(s, p, d)
    ensures exists i :: 0 <= i < d && Destuffed(s, p, d)[i] == 0xFF
    decreases d
  {
    var rest := Destuffed(s, Next(s, p), d - 1);
    if Pair(s, p) {
      assert Destuffed(s, p, d)[0] == 0xFF;
    } else {
      SomeFF(s, Next(s, p), len, d - 1);
      var i :| 0 <= i < d - 1 && rest[i] == 0xFF;
      assert Destuffed(s, p, d)[i + 1] == 0xFF;
    }
  }

  lemma {:induction false} BigPositive(bytes: seq<byte>)
    requires exists i :: 0 <= i < |bytes| && bytes[i] == 0xFF
    ensures Big(bytes) > 0
  {
    var n := |bytes| - 1;
    if bytes[n] != 0xFF {
      var i :| 0 <= i < |bytes| && bytes[i] == 0xFF;
      assert bytes[..n][i] == 0xFF;
      BigPositive(bytes[..n]);
    }
  }

  /** No positive 32-bit number survives a proper left shift unchanged. */
  lemma ShiftMoves(v: nat, h: nat)
    requires 0 < v < TWO32 && h > 0
    ensures Shl(v, h) != v
  {
    if Shl(v, h) == v {
      var m := (v * Pow2(h)) / TWO32;
      assert v * Pow2(h) == m * TWO32 + v;
      assert v * (2 * Pow2(h - 1) - 1) == m * TWO32;
      SmallPowers();
      OddFactor(v, Pow2(h - 1), m, 32);
    }
  }

  /** Two to the n divides v if it divides an odd multiple of v. */
  lemma {:induction false} OddFactor(v: nat, w: nat, m: nat, n: nat)
    requires w > 0 && v * (2 * w - 1) == m * Pow2(n)
    ensures v % Pow2(n) == 0
    decreases n
  {
    if n > 0 {
      var q := Pow2(n - 1);
      DoubleProduct(m, q);
      var u := Halve(v, w, m * q);
      OddFactor(u, w, m, n - 1);
      DoubleMultiple(u, q);
    }
  }

  lemma DoubleProduct(m: nat, q: nat)
    ensures m * (2 * q) == 2 * (m * q)
  {
  }

  lemma Halve(v: nat, w: nat, x: nat) returns (u: nat)
    requires w > 0 && v * (2 * w - 1) == 2 * x
    ensures v == 2 * u && u * (2 * w - 1) == x
  {
    assert v * (2 * w - 1) == 2 * (v * w) - v;
    u := v * w - x;
    assert u * (2 * (2 * w - 1)) == (2 * u) * (2 * w - 1);
  }

  lemma DoubleMultiple(u: nat, q: nat)
    requires q > 0 && u % q == 0
    ensures (2 * u) % (2 * q) == 0
  {
    var k := u / q;
    assert u == k * q;
    DoubleProduct(k, q);
    DivModUnique(2 * u, 2 * q, k, 0);
  }

  lemma SmallQuotient(x: nat, q: nat)
    requires q > 0
    ensures x / q == 0 <==> x < q
  {
  }

  lemma ShlSplit(v: nat, g: nat)
    ensures Shl(v, g + 8) == Shl(v * 256, g)
  {
    Pow2Add(g, 8);
    Pow2Eight();
    assert v * (Pow2(g) * 256) == (v * 256) * Pow2(g);
  }

  /** One padding byte x was read behind the d tokens of value v. */
  lemma PaddingShows(v: nat, x: byte, d: nat, b: nat)
    requires 1 <= d <= 3 && b < 8 && v < 0x100_0000 && v % 256 == 255
    ensures Shl(v * 256 + x, 24 - 8 * d + b) == Shl(v, 32 - 8 * d + b) <==> x == 0
    ensures v * 256 + x == Shl(v, 32 - 8 * d + b) <==> x == 0 && d == 3 && b == 0
  {
    hide Shl;
    var g := 24 - 8 * d + b;
    ShlSplit(v, g);
    LowBitsShow(v * 256, x, g);
    if g == 0 {
      ShlZero(v * 256, g);
    } else {
      ShlMultiple(v, g);
      if v * 256 + x == Shl(v * 256, g) {
        ShiftMoves(v * 256, g);
      }
    }
  }

  lemma LowBitsShow(w: nat, x: byte, g: nat)
    requires g + 8 <= 31
    ensures Shl(w + x, g) == Shl(w, g) <==> x == 0
  {
    var p := Pow2(g);
    Pow2Add(g, 8);
    PowerBelow(g + 8);
    assert 256 * p < TWO32 by { Pow2Eight(); }
    Times(w, x, p);
    AddNothing(w * p, x * p);
  }

  lemma Times(w: nat, x: byte, p: nat)
    requires p > 0
    ensures (w + x) * p == w * p + x * p
    ensures 0 <= x * p < 256 * p
    ensures x * p == 0 <==> x == 0
  {
  }

  lemma PowerBelow(n: nat)
    requires n <= 31
    ensures Pow2(n) < TWO32
  {
    Pow2Add(n, 32 - n);
    SmallPowers();
    assert Pow2(32 - n) >= 2;
  }

  lemma AddNothing(a: nat, b: nat)
    requires b < TWO32
    ensures (a + b) % TWO32 == a % TWO32 <==> b == 0
  {
  }

  lemma ShlMultiple(v: nat, g: nat)
    ensures Shl(v * 256, g) % 256 == 0
  {
    var w := v * Pow2(g);
    assert (v * 256) * Pow2(g) == 256 * w;
    MultipleMod(w);
  }

  lemma MultipleMod(w: nat)
    ensures (256 * w) % TWO32 % 256 == 0
  {
  }

  lemma ShowBitsIsFaithfulIff(s: seq<byte>, len: nat, p: nat, b: nat)
    requires InReach(s, len, p, b) && !OnStuffedZero(s, p)
    ensures Shown(s, len, p, b) == Promised(s, len, p, b) <==> Faithful(s, len, p, b)
  {
    hide Tokens, EndsInPair, OnStuffedZero, Pow2, Big, Destuffed, Promised, Shl;
    var d := Tokens(s, p, len);
    if d < Need(b) {
      TokensInBuffer(s, p, len, d);
      PromisedShort(s, len, p, b, d);
      var v, h := Big(Destuffed(s, p, d)), 32 - 8 * d + b;
      ShortBound(Destuffed(s, p, d));
      if len - p - d == 0 {
        NoPairAtEnd(s, p, len, d);
      } else {
        TailHasFF(s, p, len, d);
        if !EndsInPair(s, p, len) {
          ShiftMoves(v, h);
        } else if d == 4 {
          SmallQuotient(s[len], Pow2(8 - b));
        } else {
          PaddingShows(v, s[len], d, b);
        }
      }
    }
  }

  /** It fails on the three bytes FF 00 12 and nothing behind them: the two data bytes are not moved up. */
  lemma ShowBitsFails(s: seq<byte>)
    requires |s| >= 8 && s[0] == 0xFF && s[1] == 0x00 && s[2] == 0x12
    ensures InReach(s, 3, 0, 0) && !OnStuffedZero(s, 0) && Shown(s, 3, 0, 0) != Promised(s, 3, 0, 0)
  {
    assert Tokens(s, 2, 3) == 1;
    assert Tokens(s, 0, 3) == 2;
    ShowBitsIsFaithfulIff(s, 3, 0, 0);
  }
}
