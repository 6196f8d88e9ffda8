/** The byte-stuffed view of a buffer: section F.1.2.3 of ITU-T T.81 puts a zero byte after every
    FF of the entropy-coded data.  A token is one destuffed byte: FF 00 or a single byte. */
module Destuffing {
  import opened Common
  import opened Bits

  predicate Pair(s: seq<byte>, p: nat) {
    p + 1 < |s| && s[p] == 0xFF && s[p + 1] == 0
  }

  predicate OnStuffedZero(s: seq<byte>, p: nat) {
    0 < p < |s| && Pair(s, p - 1)
  }

  function Next(s: seq<byte>, p: nat): (q: nat)
    ensures p < q <= p + 2
  {
    if Pair(s, p) then p + 2 else p + 1
  }

  /** k tokens starting at p can be looked at (each look reads two bytes). */
  predicate InBuffer(s: seq<byte>, p: nat, k: nat)
    decreases k
  {
    k == 0 || (p + 1 < |s| && InBuffer(s, Next(s, p), k - 1))
  }

  function Advance(s: seq<byte>, p: nat, k: nat): (q: nat)
    ensures p + k <= q <= p + 2 * k
    decreases k
  {
    if k == 0 then p else Advance(s, Next(s, p), k - 1)
  }

  function Destuffed(s: seq<byte>, p: nat, k: nat): (r: seq<byte>)
    requires InBuffer(s, p, k)
    ensures |r| == k
    decreases k
  {
    if k == 0 then [] else [s[p]] + Destuffed(s, Next(s, p), k - 1)
  }

  /** The bits ahead of a cursor at byte p and bit b, over k destuffed bytes. */
  function Window(s: seq<byte>, p: nat, b: nat, k: nat): (r: seq<bool>)
    requires InBuffer(s, p, k) && b < 8 && (k == 0 ==> b == 0)
    ensures |r| == 8 * k - b
  {
    BitsOf(Destuffed(s, p, k))[b..]
  }

  lemma {:induction false} Split(s: seq<byte>, p: nat, j: nat, k: nat)
    requires j <= k && InBuffer(s, p, k)
    ensures InBuffer(s, p, j) && InBuffer(s, Advance(s, p, j), k - j)
    ensures Advance(s, p, k) == Advance(s, Advance(s, p, j), k - j)
    ensures Destuffed(s, p, k) == Destuffed(s, p, j) + Destuffed(s, Advance(s, p, j), k - j)
    decreases j
  {
    if j > 0 {
      Split(s, Next(s, p), j - 1, k - 1);
    }
  }

  lemma {:induction false} AdvanceAdd(s: seq<byte>, p: nat, j: nat, k: nat)
    ensures Advance(s, p, j + k) == Advance(s, Advance(s, p, j), k)
    decreases j
  {
    if j > 0 {
      AdvanceAdd(s, Next(s, p), j - 1, k);
      assert j + k - 1 == (j - 1) + k;
    }
  }

  /** Stepping by tokens never stops on the zero of a stuffed pair. */
  lemma {:induction false} AdvanceOffZero(s: seq<byte>, p: nat, k: nat)
    requires !OnStuffedZero(s, p)
    ensures !OnStuffedZero(s, Advance(s, p, k))
    decreases k
  {
    if k > 0 {
      AdvanceOffZero(s, Next(s, p), k - 1);
    }
  }

  /** Without stuffed pairs the tokens are the bytes. */
  lemma {:induction false} PlainAdvance(s: seq<byte>, p: nat, k: nat)
    requires forall i :: p <= i < p + k ==> !Pair(s, i)
    ensures Advance(s, p, k) == p + k
    ensures InBuffer(s, p, k) <==> (k == 0 || p + k < |s|)
    ensures InBuffer(s, p, k) && k > 0 ==> Destuffed(s, p, k) == s[p..p + k]
    decreases k
  {
    if k > 0 {
      PlainAdvance(s, p + 1, k - 1);
      assert p + k < |s| ==> [s[p]] + s[p + 1..p + k] == s[p..p + k];
    }
  }

  /** Number of tokens that start before end. */
  function Tokens(s: seq<byte>, p: nat, end: nat): (n: nat)
    ensures p < end ==> n > 0
    ensures n <= if p < end then end - p else 0
    decreases end - p
  {
    if p >= end then 0 else 1 + Tokens(s, Next(s, p), end)
  }
}
