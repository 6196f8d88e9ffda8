/** How pv_rkJpegdecoder_oneframe brings the input into the stream buffer: the filter for AVI1 cameras, the
    plain copy, and the removal of FF and FF 00 before the end marker. */
module StreamLoading {
  import opened Common

  // ---- The AVI1 filter

  /** FF 00 directly before FF Dn. */
  predicate Match(s: seq<byte>, i: nat) {
    i + 3 < |s| && s[i] == 0xFF && s[i + 1] == 0x00 && s[i + 2] == 0xFF && s[i + 3] / 16 == 0xD
  }

  /** Byte j goes: it is in a pair FF 00 before FF Dn that starts before the last four bytes. */
  predicate Dropped(s: seq<byte>, j: nat) {
    (j + 4 < |s| && Match(s, j)) || (j >= 1 && j + 3 < |s| && Match(s, j - 1))
  }

  /** The bytes from j on that stay. */
  function Keep(s: seq<byte>, j: nat): seq<byte>
    decreases |s| - j
  {
    if j >= |s| then [] else if Dropped(s, j) then Keep(s, j + 1) else [s[j]] + Keep(s, j + 1)
  }

  /** The number of pairs from j on that go. */
  function Pairs(s: seq<byte>, j: nat): nat
    decreases |s| - j
  {
    if j + 4 >= |s| then 0 else (if Match(s, j) then 1 else 0) + Pairs(s, j + 1)
  }

  /** A pair cannot start inside another. */
  lemma AfterMatch(s: seq<byte>, i: nat)
    requires i + 4 < |s| && Match(s, i)
    ensures Keep(s, i) == [s[i + 2]] + Keep(s, i + 3) && Pairs(s, i) == 1 + Pairs(s, i + 3)
  {
    assert Dropped(s, i) && Dropped(s, i + 1) && !Match(s, i + 1) && !Match(s, i + 2) && !Dropped(s, i + 2);
    assert Keep(s, i + 1) == Keep(s, i + 2);
    assert Pairs(s, i + 1) == Pairs(s, i + 2) == Pairs(s, i + 3);
  }

  /** The bytes FF 00 FF Dn at i, not at the very end. */
  predicate PairAt(s: seq<byte>, i: nat) {
    i + 4 < |s| && s[i..i + 3] == [0xFF, 0x00, 0xFF] && 0xD0 <= s[i + 3] <= 0xDF
  }

  lemma PairIs(s: seq<byte>, i: nat)
    ensures PairAt(s, i) <==> i + 4 < |s| && Match(s, i)
  {
    assert i + 4 < |s| ==> s[i..i + 3] == [s[i], s[i + 1], s[i + 2]];
  }

  /** Up to the first such place everything is kept. */
  lemma {:induction false} KeptUpTo(s: seq<byte>, j: nat, i: nat)
    requires j <= i <= |s| && (j > 0 && j + 3 < |s| ==> !Match(s, j - 1))
    requires forall m :: j <= m < i ==> !PairAt(s, m)
    ensures Keep(s, j) == s[j..i] + Keep(s, i)
    decreases i - j
  {
    if j < i {
      PairIs(s, j);
      assert !(j + 3 < |s| && j + 4 >= |s|) || !Dropped(s, j);
      if j + 4 < |s| {
        KeptUpTo(s, j + 1, i);
        assert s[j..i] == [s[j]] + s[j + 1..i];
      } else {
        TailKept(s, j);
        TailOf(s, j, i);
      }
    }
  }

  lemma TailOf(s: seq<byte>, j: nat, i: nat)
    requires |s| <= j + 4 && j <= i <= |s| && (j > 0 && j + 3 < |s| ==> !Match(s, j - 1))
    ensures s[j..] == s[j..i] + Keep(s, i)
  {
    TailKept(s, i);
  }

  /** The filter, from place to place: FF 00 before FF Dn goes, all else stays. */
  lemma FirstPairGoes(s: seq<byte>, j: nat, i: nat)
    requires j <= i && PairAt(s, i) && (forall m :: j <= m < i ==> !PairAt(s, m)) && (j > 0 ==> !PairAt(s, j - 1))
    ensures Keep(s, j) == s[j..i] + Keep(s, i + 2) && !PairAt(s, i + 1)
  {
    PairIs(s, i);
    PairIs(s, i + 1);
    if j > 0 {
      PairIs(s, j - 1);
    }
    KeptUpTo(s, j, i);
    AfterMatch(s, i);
    assert Keep(s, i) == Keep(s, i + 1) == Keep(s, i + 2) by {
      assert Dropped(s, i) && Dropped(s, i + 1);
    }
  }

  lemma NoPairNoChange(s: seq<byte>, j: nat)
    requires j <= |s| && (forall m :: j <= m < |s| ==> !PairAt(s, m)) && (j > 0 ==> !PairAt(s, j - 1))
    ensures Keep(s, j) == s[j..]
  {
    if j > 0 {
      PairIs(s, j - 1);
    }
    KeptUpTo(s, j, |s|);
    assert Keep(s, |s|) == [];
    hide Keep, PairAt, Match, Dropped;
    assert s[j..|s|] + [] == s[j..];
  }

  /** The byte the loop keeps next, having come to j and, behind a pair that goes, to i. */
  lemma NextKept(s: seq<byte>, j: nat, i: nat)
    requires j + 4 < |s| && !(j > 0 && Match(s, j - 1))
    requires i == if s[j] == 0xFF && s[j + 1] == 0x00 && s[j + 2] == 0xFF && s[j + 3] / 16 == 0xD then j + 2 else j
    ensures Keep(s, j) == [s[i]] + Keep(s, i + 1) && !(i + 4 < |s| && Match(s, i))
  {
    if Match(s, j) {
      AfterMatch(s, j);
    }
  }

  lemma {:induction false} TailKept(s: seq<byte>, j: nat)
    requires |s| <= j + 4 && j <= |s| && (j > 0 && j + 3 < |s| ==> !Match(s, j - 1))
    ensures Keep(s, j) == s[j..] && Pairs(s, j) == 0
    decreases |s| - j
  {
    if j < |s| {
      TailKept(s, j + 1);
    }
  }

  lemma {:induction false} KeepLength(s: seq<byte>, j: nat)
    requires j <= |s| && !(j > 0 && j + 3 < |s| && Match(s, j - 1))
    ensures |Keep(s, j)| == |s| - j - 2 * Pairs(s, j)
    decreases |s| - j
  {
    if j + 4 >= |s| {
      TailKept(s, j);
    } else if Match(s, j) {
      AfterMatch(s, j);
      KeepLength(s, j + 3);
    } else {
      KeepLength(s, j + 1);
    }
  }

  /** `*dst++ = x` */
  method Put(dst: array<byte>, n: nat, x: byte)
    requires n < dst.Length
    modifies dst
    ensures dst[..n + 1] == old(dst[..n]) + [x] && dst[n + 1..] == old(dst[n + 1..])
  {
    dst[n] := x;
  }

  /** The first filter loop. */
  method FilterPairs(src: seq<byte>, dst: array<byte>) returns (i: nat, copyLen: nat)
    requires 16 <= |src| <= dst.Length
    modifies dst
    ensures |src| - 4 <= i < |src| && copyLen <= i
    ensures dst[..copyLen] + src[i..] == Keep(src, 0) && dst[|src|..] == old(dst[|src|..])
  {
    hide Keep, Match, Dropped;
    copyLen, i := 0, 0;
    while i < |src| - 4
      invariant i < |src| && copyLen <= i
      invariant !(i > 0 && i + 3 < |src| && Match(src, i - 1))
      invariant dst[..copyLen] + Keep(src, i) == Keep(src, 0)
      invariant dst[|src|..] == old(dst[|src|..])
    {
      ghost var j, done := i, dst[..copyLen];
      if src[i] == 0xFF {
        if src[i + 1] == 0x00 && src[i + 2] == 0xFF && src[i + 3] / 16 == 0xD {
          i := i + 2;
        }
      }
      NextKept(src, j, i);
      AddByte(done, src[i], Keep(src, i + 1));
      DropBoth(dst[..], copyLen + 1, |src|);
      Put(dst, copyLen, src[i]);
      DropBoth(dst[..], copyLen + 1, |src|);
      copyLen := copyLen + 1;
      i := i + 1;
    }
    TailKept(src, i);
  }

  lemma AddByte(a: seq<byte>, x: byte, b: seq<byte>)
    ensures a + ([x] + b) == (a + [x]) + b
  {
  }

  lemma DropBoth(s: seq<byte>, i: nat, j: nat)
    requires i <= j <= |s|
    ensures s[j..] == s[i..][j - i..]
  {
  }

  /** The second filter loop. */
  method CopyRest(src: seq<byte>, dst: array<byte>, i0: nat, copyLen0: nat) returns (copyLen: nat)
    requires copyLen0 <= i0 <= |src| <= dst.Length
    modifies dst
    ensures copyLen == copyLen0 + |src| - i0
    ensures dst[..copyLen] == old(dst[..copyLen0]) + src[i0..] && dst[|src|..] == old(dst[|src|..])
  {
    var i := i0;
    copyLen := copyLen0;
    while i < |src|
      invariant i <= |src| && copyLen == copyLen0 + i - i0
      invariant dst[..copyLen] == old(dst[..copyLen0]) + src[i0..i]
      invariant dst[|src|..] == old(dst[|src|..])
    {
      DropBoth(dst[..], copyLen + 1, |src|);
      Put(dst, copyLen, src[i]);
      DropBoth(dst[..], copyLen + 1, |src|);
      assert src[i0..i] + [src[i]] == src[i0..i + 1];
      copyLen := copyLen + 1;
      i := i + 1;
    }
  }

  /** The filter: copy_len and the gap. */
  method FilterAvi1(src: seq<byte>, dst: array<byte>) returns (copyLen: nat)
    requires 16 <= |src| <= dst.Length
    modifies dst
    ensures copyLen == |src| - 2 * Pairs(src, 0) && dst[..copyLen] == Keep(src, 0)
    ensures forall j :: copyLen <= j < |src| ==> dst[j] == 0
    ensures dst[|src|..] == old(dst[|src|..])
  {
    var i;
    i, copyLen := FilterPairs(src, dst);
    copyLen := CopyRest(src, dst, i, copyLen);
    KeepLength(src, 0);
    forall j | copyLen <= j < |src| {
      dst[j] := 0;
    }
  }

  // ---- The end of the stream

  /** Bytes that are a sequence of FF and FF 00. */
  predicate TokenRun(x: seq<byte>) {
    var n := |x|;
    n == 0
    || (x[n - 1] == 0xFF && TokenRun(x[..n - 1]))
    || (n >= 2 && x[n - 1] == 0 && x[n - 2] == 0xFF && TokenRun(x[..n - 2]))
  }

  /** FF, or 00 directly behind FF. */
  predicate FillAt(x: seq<byte>, i: nat)
    requires i < |x|
  {
    x[i] == 0xFF || (i > 0 && x[i] == 0x00 && x[i - 1] == 0xFF)
  }

  lemma {:induction false} TokenRunIff(x: seq<byte>)
    ensures TokenRun(x) <==> forall i :: 0 <= i < |x| ==> FillAt(x, i)
    decreases |x|
  {
    var n := |x|;
    if n > 0 && x[n - 1] == 0xFF {
      FillBefore(x, n - 1);
      TokenRunIff(x[..n - 1]);
    } else if n > 1 && x[n - 1] == 0x00 && x[n - 2] == 0xFF {
      FillBefore(x, n - 2);
      TokenRunIff(x[..n - 2]);
    } else if n > 0 {
      assert !FillAt(x, n - 1);
    }
  }

  lemma FillBefore(x: seq<byte>, m: nat)
    requires m < |x| && forall i :: m <= i < |x| ==> FillAt(x, i)
    ensures (forall i :: 0 <= i < |x| ==> FillAt(x, i)) <==> forall i :: 0 <= i < m ==> FillAt(x[..m], i)
  {
    assert forall i :: 0 <= i < m ==> (FillAt(x, i) <==> FillAt(x[..m], i));
  }

  predicate EndsInToken(s: seq<byte>, e: nat)
    requires e <= |s|
  {
    (e >= 1 && s[e - 1] == 0xFF) || (e >= 2 && s[e - 1] == 0x00 && s[e - 2] == 0xFF)
  }

  /** Stripping the first e bytes leaves k: what goes is FF and FF 00, and no more could go. */
  predicate Stripped(s: seq<byte>, e: nat, k: nat)
    requires e <= |s|
  {
    k <= e && TokenRun(s[k..e]) && !EndsInToken(s, k)
  }

  /** That determines k: every run of FF and FF 00 that ends at e starts at k or later. */
  lemma {:induction false} StrippedIsMaximal(s: seq<byte>, e: nat, k: nat, j: nat)
    requires e <= |s| && Stripped(s, e, k) && j <= e && TokenRun(s[j..e])
    ensures j >= k
    decreases e
  {
    if j < e && k < e {
      assert s[j..e][e - j - 1] == s[k..e][e - k - 1] == s[e - 1];
      if s[e - 1] == 0xFF {
        Shorter(s, j, e, 1);
        Shorter(s, k, e, 1);
        StrippedIsMaximal(s, e - 1, k, j);
      } else {
        assert s[j..e][e - j - 2] == s[e - 2] && s[k..e][e - k - 2] == s[e - 2];
        Shorter(s, j, e, 2);
        Shorter(s, k, e, 2);
        StrippedIsMaximal(s, e - 2, k, j);
      }
    } else if j < e {
      RunEnds(s, j, e);
    }
  }

  lemma Shorter(s: seq<byte>, j: nat, e: nat, n: nat)
    requires j + n <= e <= |s|
    ensures s[j..e][..e - j - n] == s[j..e - n]
  {
  }

  lemma RunEnds(s: seq<byte>, j: nat, e: nat)
    requires j < e <= |s| && TokenRun(s[j..e])
    ensures EndsInToken(s, e)
  {
    var x, n := s[j..e], e - j;
    assert x[n - 1] == s[e - 1] && (n >= 2 ==> x[n - 2] == s[e - 2]);
  }

  /** Nothing is left to strip from a stripped prefix. */
  lemma StripTwice(s: seq<byte>, e: nat, k: nat, j: nat)
    requires e <= |s| && Stripped(s, e, k) && Stripped(s, k, j)
    ensures j == k
  {
    if j < k {
      RunEnds(s, j, k);
    }
  }

  lemma TokenRunGrows(x: seq<byte>, y: seq<byte>)
    requires TokenRun(y) && (x == [0xFF] || x == [0xFF, 0x00])
    ensures TokenRun(x + y)
    decreases |y|
  {
    var n := |y|;
    if n == 0 {
      assert x + y == x && x[..|x| - 1] == x[..|x| - 1];
      assert x == [0xFF] ==> x[..0] == [];
      assert x == [0xFF, 0x00] ==> x[..0] == [];
    } else {
      var z := x + y;
      assert z[|z| - 1] == y[n - 1];
      if y[n - 1] == 0xFF && TokenRun(y[..n - 1]) {
        assert z[..|z| - 1] == x + y[..n - 1];
        TokenRunGrows(x, y[..n - 1]);
      } else {
        assert z[|z| - 2] == y[n - 2] && z[..|z| - 2] == x + y[..n - 2];
        TokenRunGrows(x, y[..n - 2]);
      }
    }
  }

  predicate RunFrom(s: seq<byte>, k: nat, e: nat) { k <= e <= |s| && TokenRun(s[k..e]) }

  lemma NoRunYet(s: seq<byte>, e: nat)
    requires e <= |s|
    ensures RunFrom(s, e, e)
  {
  }

  lemma OneMore(s: seq<byte>, k: nat, e: nat)
    requires 1 <= k && RunFrom(s, k, e) && s[k - 1] == 0xFF
    ensures RunFrom(s, k - 1, e)
  {
    TokenRunGrows([0xFF], s[k..e]);
    assert s[k - 1..e] == [0xFF] + s[k..e];
  }

  lemma TwoMore(s: seq<byte>, k: nat, e: nat)
    requires 2 <= k && RunFrom(s, k, e) && s[k - 2] == 0xFF && s[k - 1] == 0x00
    ensures RunFrom(s, k - 2, e)
  {
    TokenRunGrows([0xFF, 0x00], s[k..e]);
    assert s[k - 2..e] == [0xFF, 0x00] + s[k..e];
  }

  /** The strip runs to the start of the buffer and reads what lies before it. */
  predicate Runaway(s: seq<byte>, e: nat)
    requires e <= |s|
  {
    TokenRun(s[..e]) || (e >= 1 && s[0] == 0x00 && TokenRun(s[1..e]))
  }

  lemma NoRunaway(s: seq<byte>, e: nat, k: nat)
    requires e <= |s| && Stripped(s, e, k) && k >= 1 && !(k == 1 && s[0] == 0x00)
    ensures !Runaway(s, e)
  {
    if TokenRun(s[..e]) {
      assert s[0..e] == s[..e];
      StrippedIsMaximal(s, e, k, 0);
    }
    if e >= 1 && s[0] == 0x00 && TokenRun(s[1..e]) {
      StrippedIsMaximal(s, e, k, 1);
    }
  }

  lemma StripStops(s: seq<byte>, e: nat, p: nat)
    requires 1 <= p && RunFrom(s, p, e) && p <= |s| && !(p == 1 && s[0] == 0x00)
    requires s[p - 1] != 0xFF && !(s[p - 1] == 0x00 && p >= 2 && s[p - 2] == 0xFF)
    ensures Stripped(s, e, p) && !Runaway(s, e)
  {
    NoRunaway(s, e, p);
  }

  lemma StripRuns(s: seq<byte>, e: nat, p: nat)
    requires RunFrom(s, p, e) && (p == 0 || (p == 1 && s[0] == 0x00))
    ensures Runaway(s, e)
  {
    assert s[0..e] == s[..e];
  }

  /** The loop would read before the buffer. */
  predicate Leaves(buffer: array<byte>, p: nat)
    requires p <= buffer.Length
    reads buffer
  {
    p == 0 || (p == 1 && buffer[0] == 0x00)
  }

  /** Once round the loop: the token before p goes; there is none if p stays. */
  method StripOne(buffer: array<byte>, p: nat, ghost e: nat) returns (q: nat)
    requires p <= e <= buffer.Length && !Leaves(buffer, p) && RunFrom(buffer[..], p, e)
    ensures q <= p && RunFrom(buffer[..], q, e)
    ensures q == p ==> 1 <= p && Stripped(buffer[..], e, p) && !Runaway(buffer[..], e)
  {
    ghost var s := buffer[..];
    hide RunFrom, Runaway, Stripped, EndsInToken, TokenRun;
    if buffer[p - 1] == 0xFF {
      OneMore(s, p, e);
      q := p - 1;
    } else if buffer[p - 1] == 0x00 && buffer[p - 2] == 0xFF {
      TwoMore(s, p, e);
      q := p - 2;
    } else {
      StripStops(s, e, p);
      q := p;
    }
  }

  /** The pointer-walking loop, which the source leaves by `break` alone; None if it reads before the buffer,
      which is where the guard here ends it. */
  method StripLoop(buffer: array<byte>, e: nat) returns (end: Option<nat>)
    requires e <= buffer.Length
    ensures end.None? <==> Runaway(buffer[..], e)
    ensures end.Some? ==> 1 <= end.value && Stripped(buffer[..], e, end.value)
  {
    ghost var s := buffer[..];
    NoRunYet(s, e);
    end := None;
    var p := e;
    while !Leaves(buffer, p)
      invariant 0 <= p <= e && RunFrom(s, p, e)
      decreases p
    {
      var q := StripOne(buffer, p, e);
      if q == p {
        return Some(p);
      }
      p := q;
    }
    StripRuns(s, e, p);
  }

  /** `end[0] = 0xff; end[1] = 0xD9` */
  method PutMarker(buffer: array<byte>, k: nat)
    requires k + 2 <= buffer.Length
    modifies buffer
    ensures buffer[..] == old(buffer[..])[..k] + [0xFF, 0xD9] + old(buffer[..])[k + 2..]
  {
    buffer[k] := 0xFF;
    buffer[k + 1] := 0xD9;
  }

  /** The block around it.  size is the size of the input, also after the AVI1 filter has shortened it.  The
      result is None if the loop reads before the buffer. */
  method StripTail(buffer: array<byte>, size: nat) returns (end: Option<nat>)
    requires 2 <= size <= buffer.Length
    modifies buffer
    ensures var s := old(buffer[..]);
      if !EndsWithMarker(s[..size]) then end == Some(size) && buffer[..] == s
      else if Runaway(s, size - 2) then end == None
      else
        && end.Some? && 1 <= end.value <= size - 2 && Stripped(s, size - 2, end.value)
        && buffer[..] == s[..end.value] + [0xFF, 0xD9] + s[end.value + 2..]
  {
    hide Runaway, Stripped, TokenRun, EndsInToken;
    end := Some(size);
    if buffer[size - 1] == 0xD9 && buffer[size - 2] == 0xFF {
      end := StripLoop(buffer, size - 2);
      if end.Some? {
        StrippedBound(buffer[..], size - 2, end.value);
        PutMarker(buffer, end.value);
      }
    }
  }

  lemma StrippedBound(s: seq<byte>, e: nat, k: nat)
    requires e <= |s| && Stripped(s, e, k)
    ensures k <= e
  {
  }

  /** Stripping once more what was stripped, up to its new end, changes nothing. */
  method StripAgain(buffer: array<byte>, size: nat) returns (end: Option<nat>)
    requires 2 <= size <= buffer.Length && EndsWithMarker(buffer[..size]) && !Runaway(buffer[..], size - 2)
    modifies buffer
    ensures end.Some? && 1 <= end.value && Stripped(old(buffer[..]), size - 2, end.value)
    ensures var s := old(buffer[..]); buffer[..] == s[..end.value] + [0xFF, 0xD9] + s[end.value + 2..]
  {
    hide Runaway, TokenRun, EndsInToken;
    ghost var s := buffer[..];
    end := StripTail(buffer, size);
    ghost var k, t := end.value, buffer[..];
    StaysStripped(s, t, size - 2, k);
    end := StripTail(buffer, end.value + 2);
    StripTwice(t, k, k, end.value);
    assert buffer[..] == t;
  }

  lemma StaysStripped(s: seq<byte>, t: seq<byte>, e: nat, k: nat)
    requires e + 2 <= |s| && 1 <= k && Stripped(s, e, k) && t == s[..k] + [0xFF, 0xD9] + s[k + 2..]
    requires !Runaway(s, e)
    ensures Stripped(t, k, k) && !Runaway(t, k) && EndsWithMarker(t[..k + 2])
  {
    assert TokenRun(t[k..k]);
    assert t[k - 1] == s[k - 1] && (k >= 2 ==> t[k - 2] == s[k - 2]) && t[0] == s[0];
    NoRunaway(t, k, k);
  }

  /** Both ways in, then the end: the stream that the decoder is given.  ok is false if the strip reads
      before the buffer. */
  method LoadStream(input: seq<byte>, buffer: array<byte>, padded: nat) returns (inputSize: nat, ok: bool)
    requires 16 <= |input| <= padded <= buffer.Length
    modifies buffer
    ensures var avi := input[6] == 0x41 && input[7] == 0x56 && input[8] == 0x49 && input[9] == 0x31;
      inputSize == if avi then |input| - 2 * Pairs(input, 0) else |input|
    ensures inputSize < |input| ==> ok && buffer[..inputSize] == Keep(input, 0)
    ensures inputSize == |input| && !EndsWithMarker(input) ==> ok && buffer[..|input|] == input
    ensures inputSize == |input| && EndsWithMarker(input) ==>
      && (ok <==> !Runaway(input, |input| - 2))
      && (ok ==>
           exists k :: 1 <= k <= |input| - 2 && Stripped(input, |input| - 2, k)
             && buffer[..|input|] == input[..k] + [0xFF, 0xD9] + input[k + 2..])
  {
    hide TokenRun, EndsInToken, Stripped, Keep, Match, Runaway, Pairs;
    inputSize := |input|;
    var n := |input|;
    if input[6] == 0x41 && input[7] == 0x56 && input[8] == 0x49 && input[9] == 0x31 {
      inputSize := FilterAvi1(input, buffer);
      if inputSize == n {
        KeepsAll(input, 0);
      }
    } else {
      forall j | 0 <= j < n {
        buffer[j] := input[j];
      }
      forall j | n <= j < padded {
        buffer[j] := 0;
      }
    }
    assert inputSize == n ==> buffer[..n] == input;
    ghost var s := buffer[..];
    if inputSize == n {
      SamePrefix(s, input);
      SameRunaway(s, input);
    }
    var end := StripTail(buffer, n);
    ok := end.Some?;
    if inputSize == n && EndsWithMarker(input) && ok {
      Rewritten(s, input, buffer[..], end.value);
    }
  }

  lemma SameRunaway(s: seq<byte>, input: seq<byte>)
    requires 2 <= |input| <= |s| && s[..|input|] == input
    ensures Runaway(s, |input| - 2) <==> Runaway(input, |input| - 2)
    ensures EndsWithMarker(s[..|input|]) <==> EndsWithMarker(input)
  {
    SamePrefix(s, input);
    var e := |input| - 2;
    assert s[..e] == input[..e];
    if e >= 1 {
      assert s[1..e] == input[1..e];
    }
  }

  /** Stripping the buffer is stripping the input it starts with. */
  lemma Rewritten(s: seq<byte>, input: seq<byte>, result: seq<byte>, end: nat)
    requires 4 <= |input| <= |s| && s[..|input|] == input && end <= |input| - 2
    requires Stripped(s, |input| - 2, end) && result == s[..end] + [0xFF, 0xD9] + s[end + 2..]
    ensures Stripped(input, |input| - 2, end)
    ensures result[..|input|] == input[..end] + [0xFF, 0xD9] + input[end + 2..]
  {
    SamePrefix(s, input);
    assert s[end..|input| - 2] == input[end..|input| - 2];
  }

  lemma {:induction false} KeepsAll(s: seq<byte>, j: nat)
    requires j <= |s| && Pairs(s, j) == 0 && !(j > 0 && j + 3 < |s| && Match(s, j - 1))
    ensures Keep(s, j) == s[j..]
    decreases |s| - j
  {
    if j + 4 >= |s| {
      TailKept(s, j);
    } else {
      KeepsAll(s, j + 1);
    }
  }

  lemma SamePrefix(s: seq<byte>, t: seq<byte>)
    requires |t| <= |s| && s[..|t|] == t
    ensures forall i :: 0 <= i < |t| ==> s[i] == t[i]
  {
    assert forall i :: 0 <= i < |t| ==> s[..|t|][i] == t[i];
  }

  predicate EndsWithMarker(s: seq<byte>)
    requires |s| >= 2
  {
    s[|s| - 2] == 0xFF && s[|s| - 1] == 0xD9
  }
}
