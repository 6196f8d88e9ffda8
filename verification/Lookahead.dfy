/** What JpegDecShowBits promises, what it computes, and when the two are equal. */
module Lookahead {
  import opened Common
  import opened Bits
  import opened Destuffing

  /** Bytes needed for 32 bits from bit b of a byte. */
  function Need(b: nat): nat { if b == 0 then 4 else 5 }

  /** The last two bytes of the stream are a stuffed pair that lies ahead of p. */
  predicate EndsInPair(s: seq<byte>, p: nat, len: nat) {
    p + 2 <= len && Pair(s, len - 2)
  }

  predicate InReach(s: seq<byte>, len: nat, p: nat, b: nat) {
    len + 5 <= |s| && b < 8 && 8 * p + b <= 8 * len
  }

  /** All destuffed bits between the cursor and the end of the stream. */
  function Ahead(s: seq<byte>, len: nat, p: nat, b: nat): seq<bool>
    requires InReach(s, len, p, b)
  {
    TokensInBuffer(s, p, len, Tokens(s, p, len));
    Window(s, p, b, Tokens(s, p, len))
  }

  /** The promise (jpegdecutils.c:126-144): the next 32 destuffed bits, zero bits after the end. */
  function Promised(s: seq<byte>, len: nat, p: nat, b: nat): nat
    requires InReach(s, len, p, b)
  {
    Value((Ahead(s, len, p, b) + Zeros(32))[..32])
  }

  /** What the code computes, case by case on how the stream ends. */
  function Shown(s: seq<byte>, len: nat, p: nat, b: nat): nat
    requires InReach(s, len, p, b)
  {
    var d := Tokens(s, p, len);
    TokensInBuffer(s, p, len, d);
    if d >= Need(b) then Promised(s, len, p, b)
    else
      var v := Big(Destuffed(s, p, d));
      var pairs := len - p - d;
      if !EndsInPair(s, p, len) then
        if pairs == 0 then Shl(v, 32 - 8 * d + b) else v
      else if d == 4 then Shl(v, b) + Shr(s[len], 8 - b)
      else if pairs == 1 then Shl(v * 256 + s[len], 24 - 8 * d + b)
      else v * 256 + s[len]
  }

  lemma {:induction false} TokensInBuffer(s: seq<byte>, p: nat, len: nat, k: nat)
    requires len + 1 < |s| && k <= Tokens(s, p, len)
    ensures InBuffer(s, p, k)
    ensures k < Tokens(s, p, len) ==> Advance(s, p, k) < len
    decreases k
  {
    if k > 0 {
      TokensInBuffer(s, Next(s, p), len, k - 1);
    }
  }

  /** The tokens of a stream tail reach exactly to its end, or one byte further when a last FF is
      followed by a zero of the padding. */
  lemma {:induction false} TokensReachEnd(s: seq<byte>, p: nat, len: nat)
    requires p <= len
    ensures var q := Advance(s, p, Tokens(s, p, len)); q == len || (q == len + 1 && p < len && Pair(s, len - 1))
    decreases len - p
  {
    if p < len {
      if Next(s, p) <= len {
        TokensReachEnd(s, Next(s, p), len);
      } else {
        assert Tokens(s, p, len) == 1;
        assert Advance(s, p, 1) == Next(s, p);
      }
    }
  }

  /** One more token: its byte, its position, and the number read so far. */
  lemma ReadOne(s: seq<byte>, p: nat, j: nat)
    requires InBuffer(s, p, j + 1)
    ensures InBuffer(s, p, j) && Advance(s, p, j) < |s|
    ensures Advance(s, p, j + 1) == Next(s, Advance(s, p, j))
    ensures Big(Destuffed(s, p, j + 1)) == 256 * Big(Destuffed(s, p, j)) + s[Advance(s, p, j)]
  {
    Split(s, p, j, j + 1);
    var q := Advance(s, p, j);
    assert Destuffed(s, q, 1) == [s[q]] + Destuffed(s, Next(s, q), 0) == [s[q]];
    AdvanceAdd(s, p, j, 1);
    assert Destuffed(s, p, j + 1)[..j] == Destuffed(s, p, j);
  }

  lemma SmallPowers()
    ensures Pow2(0) == 1 && Pow2(8) == 0x100 && Pow2(16) == 0x1_0000
    ensures Pow2(24) == 0x100_0000 && Pow2(32) == TWO32
  {
    Pow2Eight();
    Pow2Add(8, 8);
    Pow2Add(16, 8);
    Pow2Add(16, 16);
  }

  /** Five destuffed bytes seen from bit b: four bytes shifted up, topped up from the fifth. */
  lemma FiveBytes(four: seq<byte>, last: byte, b: nat)
    requires |four| == 4 && 0 < b < 8
    ensures Value((BitsOf(four + [last])[b..])[..32]) == Shl(Big(four), b) + Shr(last, 8 - b)
  {
    var x, y := BitsOf(four), BitsOf([last]);
    BitsOfConcat(four, [last]);
    assert ((x + y)[b..])[..32] == x[b..] + y[..b];
    ValueConcat(x[b..], y[..b]);
    BigIsValue(four);
    ValueSplit(x, b);
    var one := [last];
    assert one[..0] == [];
    BigIsValue(one);
    ValueSplit(y, b);
    ModShift(Big(four), b, 32);
    SmallPowers();
  }

  /** Shifting left and truncating to m bits keeps the low m - b bits. */
  lemma ModShift(v: nat, b: nat, m: nat)
    requires b <= m
    ensures (v % Pow2(m - b)) * Pow2(b) == (v * Pow2(b)) % Pow2(m)
  {
    Pow2Add(m - b, b);
    ModScale(v, Pow2(m - b), Pow2(b));
  }

  lemma ModScale(v: nat, l: nat, h: nat)
    requires l > 0 && h > 0
    ensures (v % l) * h == (v * h) % (l * h)
  {
    var q, r := v / l, v % l;
    ShiftParts(v, l, h, q, r);
    assert l * h > 0;
    DivModUnique(v * h, l * h, q, r * h);
  }

  lemma ShiftParts(v: nat, l: nat, h: nat, q: nat, r: nat)
    requires v == q * l + r && r < l && h > 0
    ensures v * h == q * (l * h) + r * h && r * h < l * h
  {
  }

  /** The tokens of a stream tail, listed: their positions, and the values of their prefixes. */
  datatype Trace = Trace(q: seq<nat>, v: seq<nat>)

  predicate Step(s: seq<byte>, len: nat, t: Trace, j: nat)
    requires |t.q| == |t.v| && j + 1 < |t.q| && len < |s|
  {
    t.q[j] < len && t.q[j + 1] == Next(s, t.q[j]) && t.v[j + 1] == 256 * t.v[j] + s[t.q[j]]
  }

  predicate TraceFrom(s: seq<byte>, p: nat, v: nat, len: nat, t: Trace) {
    && |t.q| == |t.v| >= 1 && t.q[0] == p && t.v[0] == v
    && len + 5 <= |s| && t.q[|t.q| - 1] >= len
    && forall j :: 0 <= j < |t.q| - 1 ==> Step(s, len, t, j)
  }

  predicate TraceOf(s: seq<byte>, p: nat, len: nat, t: Trace) {
    TraceFrom(s, p, 0, len, t)
  }

  lemma {:induction false} TraceExists(s: seq<byte>, p: nat, v: nat, len: nat) returns (t: Trace)
    requires len + 5 <= |s|
    ensures TraceFrom(s, p, v, len, t) && |t.q| == Tokens(s, p, len) + 1
    decreases len - p
  {
    if p >= len {
      t := Trace([p], [v]);
    } else {
      var u := TraceExists(s, Next(s, p), 256 * v + s[p], len);
      t := Trace([p] + u.q, [v] + u.v);
      forall j | 0 <= j < |t.q| - 1 ensures Step(s, len, t, j) {
        if j > 0 { assert Step(s, len, u, j - 1); }
      }
    }
  }

  lemma {:induction false} TraceAt(s: seq<byte>, p: nat, len: nat, t: Trace, j: nat)
    requires TraceOf(s, p, len, t) && j < |t.q|
    ensures t.q[j] == Advance(s, p, j) && InBuffer(s, p, j) && t.v[j] == Big(Destuffed(s, p, j))
    decreases j
  {
    if j > 0 {
      TraceAt(s, p, len, t, j - 1);
      assert Step(s, len, t, j - 1);
      AdvanceAdd(s, p, j - 1, 1);
      LongerBuffer(s, p, j - 1);
      ReadOne(s, p, j - 1);
    }
  }

  lemma {:induction false} LongerBuffer(s: seq<byte>, p: nat, k: nat)
    requires InBuffer(s, p, k) && Advance(s, p, k) + 1 < |s|
    ensures InBuffer(s, p, k + 1)
    decreases k
  {
    if k > 0 {
      LongerBuffer(s, Next(s, p), k - 1);
    }
  }

  /** Shown, over a trace. */
  function ShownBy(s: seq<byte>, len: nat, p: nat, b: nat, t: Trace): nat
    requires InReach(s, len, p, b) && TraceOf(s, p, len, t)
  {
    var d := |t.q| - 1;
    if b == 0 && d >= 4 then t.v[4]
    else if b > 0 && d >= 5 then
      assert Step(s, len, t, 4);
      Shl(t.v[4], b) + Shr(s[t.q[4]], 8 - b)
    else if !EndsInPair(s, p, len) then
      if len - p - d == 0 then Shl(t.v[d], 32 - 8 * d + b) else t.v[d]
    else if d == 4 then Shl(t.v[d], b) + Shr(s[len], 8 - b)
    else if len - p - d == 1 then Shl(t.v[d] * 256 + s[len], 24 - 8 * d + b)
    else t.v[d] * 256 + s[len]
  }

  lemma ShownByTrace(s: seq<byte>, len: nat, p: nat, b: nat, d: nat) returns (t: Trace)
    requires InReach(s, len, p, b) && d == Tokens(s, p, len)
    ensures TraceOf(s, p, len, t) && ShownBy(s, len, p, b, t) == Shown(s, len, p, b)
  {
    t := TraceExists(s, p, 0, len);
    TraceAt(s, p, len, t, d);
    if d >= 4 { TraceAt(s, p, len, t, 4); }
    if d >= Need(b) {
      EnoughBits(s, len, p, b, d, 4);
    }
  }

  lemma EnoughBits(s: seq<byte>, len: nat, p: nat, b: nat, d: nat, four: nat)
    requires InReach(s, len, p, b) && d == Tokens(s, p, len) >= Need(b) && four == 4
    ensures InBuffer(s, p, four) && Advance(s, p, four) < |s|
    ensures b == 0 ==> Promised(s, len, p, b) == Big(Destuffed(s, p, four))
    ensures b > 0 ==>
      Promised(s, len, p, b) == Shl(Big(Destuffed(s, p, four)), b) + Shr(s[Advance(s, p, four)], 8 - b)
  {
    var n := Need(b);
    FromPrefix(s, len, p, b, d, n);
    TokensInBuffer(s, p, len, four);
    TokensReachEnd(s, p, len);
    Split(s, p, four, n);
    if b == 0 {
      BigIsValue(Destuffed(s, p, n));
      assert BitsOf(Destuffed(s, p, n))[b..][..32] == BitsOf(Destuffed(s, p, n));
    } else {
      var q := Advance(s, p, four);
      assert Destuffed(s, q, 1) == [s[q]] + Destuffed(s, Next(s, q), 0) == [s[q]];
      FiveBytes(Destuffed(s, p, four), s[q], b);
    }
  }

  /** Only the first bytes matter. */
  lemma FromPrefix(s: seq<byte>, len: nat, p: nat, b: nat, d: nat, n: nat)
    requires InReach(s, len, p, b) && d == Tokens(s, p, len) >= n >= Need(b)
    ensures InBuffer(s, p, n)
    ensures Promised(s, len, p, b) == Value((BitsOf(Destuffed(s, p, n))[b..])[..32])
  {
    TokensInBuffer(s, p, len, d);
    Split(s, p, n, d);
    hide Tokens, InBuffer, Destuffed, Advance, BitsOf, Value;
    var bytes, rest := Destuffed(s, p, n), Destuffed(s, Advance(s, p, n), d - n);
    BitsOfConcat(bytes, rest);
    assert (Ahead(s, len, p, b) + Zeros(32))[..32] == (BitsOf(bytes)[b..])[..32];
  }
}
