/** The bit and byte reader of jpegdecutils.c. */
module StreamReader {
  import opened Common
  import opened Bits
  import opened Destuffing
  import opened Lookahead

  /** Cursor state: byte index, bit in that byte, and the consumed-bit counter. */
  datatype Cursor = Cursor(pos: nat, bit: nat, read: nat)

  /** Where flushing n bits leaves a cursor.  Entropy-coded data counts FF 00 as one byte; with the
      no-stuffing flag whole bytes are plain, but a partial last byte still honours FF 00. */
  function Target(s: seq<byte>, c: Cursor, appn: bool, n: nat): (pos: nat)
    requires c.bit < 8
    ensures c.pos + (c.bit + n) / 8 <= pos <= c.pos + 2 * ((c.bit + n) / 8)
  {
    if !appn then Advance(s, c.pos, (c.bit + n) / 8)
    else if c.bit + n % 8 < 8 then c.pos + n / 8
    else Next(s, c.pos + n / 8)
  }

  /** The cursor after a flush: an over-long flush parks it at the end of the stream, any other
      moves it and charges the counter with the flushed bits and 8 for every stuffed zero. */
  function Flushed(s: seq<byte>, len: nat, c: Cursor, appn: bool, n: nat): (bool, Cursor)
    requires c.bit < 8
  {
    if c.read + n > 8 * len then (false, Cursor(len, 0, 8 * len))
    else
      var pos := Target(s, c, appn, n);
      (true, Cursor(pos, (c.bit + n) % 8, c.read + n + 8 * (pos - c.pos - (c.bit + n) / 8)))
  }

  /** The bytes a flush looks at are mapped. */
  predicate CanFlush(s: seq<byte>, len: nat, c: Cursor, appn: bool, n: nat) {
    c.read + n <= 8 * len ==>
      if !appn then InBuffer(s, c.pos, (c.bit + n) / 8)
      else c.bit + n % 8 < 8 || c.pos + n / 8 + 1 < |s|
  }

  /** The byte that GetByte makes of two: the eight bits from bit b on (see ByteFromIsWindow). */
  function ByteFrom(hi: byte, lo: byte, b: nat): (r: nat)
    requires b < 8
  {
    if b == 0 then hi else ((hi as int * 256 + lo as int) / Pow2(8 - b)) % 256
  }

  /** The word from bit b on: two windows of eight bits, one behind the other. */
  function WordFrom(s: seq<byte>, p: nat, b: nat): nat
    requires p + 2 < |s| && b < 8
  {
    256 * ByteFrom(s[p], s[p + 1], b) + ByteFrom(s[p + 1], s[p + 2], b)
  }

  lemma WordFromIs(s: seq<byte>, p: nat, b: nat)
    requires p + 2 < |s| && b < 8
    ensures b > 0 ==>
      WordFrom(s, p, b)
      == ((s[p] as nat * 256 + s[p + 1]) * 256 + s[p + 2]) % TWO32 / Pow2(8 - b) % 0x1_0000
  {
    if b > 0 {
      Pow2Add(8 - b, b);
      Pow2Eight();
      hide Pow2;
      TwoWindows(s[p], s[p + 1], s[p + 2], Pow2(8 - b), Pow2(b));
      ThreeBytes(s[p], s[p + 1], s[p + 2]);
    }
  }

  lemma ThreeBytes(x: byte, y: byte, z: byte)
    ensures ((x as nat * 256 + y) * 256 + z) % TWO32 == (x as nat * 256 + y) * 256 + z
  {
  }

  class StreamStorage {
    const mem: array<byte>           // the mapped buffer: the stream and its padding
    ghost const s: seq<byte>         // its content; the reader never writes
    const streamLength: nat
    var pCurrPos: nat                // index into mem; pStartOfStream is index 0
    var bitPosInByte: nat
    var readBits: nat
    var appnFlag: bool

    ghost predicate Valid()
      reads this, mem
    {
      && mem[..] == s
      && mem.Length >= streamLength + 5
      && 64 * streamLength < TWO32
      && readBits < TWO32 / 2
      && bitPosInByte < 8
      && 8 * pCurrPos + bitPosInByte <= readBits
    }

    /** The counter equals the cursor: true in JpegDecDecode, not in JpegDecGetImageInfo. */
    ghost predicate InSync()
      reads this
    {
      readBits == 8 * pCurrPos + bitPosInByte
    }

    ghost function At(): Cursor
      reads this
    {
      Cursor(pCurrPos, bitPosInByte, readBits)
    }

    constructor (buffer: array<byte>, length: nat)
      requires buffer.Length >= length + 5 && 64 * length < TWO32
      ensures Valid() && InSync() && pCurrPos == 0 && bitPosInByte == 0 && !appnFlag
      ensures mem == buffer && s == buffer[..] && streamLength == length
    {
      mem, s, streamLength := buffer, buffer[..], length;
      pCurrPos, bitPosInByte, readBits, appnFlag := 0, 0, 0, false;
    }

    method GetByte() returns (r: nat)
      requires Valid()
      modifies this
      ensures Valid() && unchanged(`bitPosInByte, `appnFlag)
      ensures old(readBits) + 8 > 8 * streamLength ==> r == STRM_ERROR && unchanged(this)
      ensures old(readBits) + 8 <= 8 * streamLength ==>
        && old(pCurrPos) < streamLength
        && pCurrPos == old(pCurrPos) + 1 && readBits == old(readBits) + 8 && pCurrPos < |s|
        && r == if bitPosInByte == 0 then s[pCurrPos - 1] else ByteFrom(s[pCurrPos - 1], s[pCurrPos], bitPosInByte)
    {
      if readBits + 8 > 8 * streamLength {
        return STRM_ERROR;
      }
      var tmp: nat := mem[pCurrPos];
      pCurrPos := pCurrPos + 1;
      tmp := tmp * 256 + mem[pCurrPos];
      HighByte(s[pCurrPos - 1], s[pCurrPos]);
      Pow2Eight();
      tmp := (tmp / Pow2(8 - bitPosInByte)) % 256;
      readBits := readBits + 8;
      return tmp;
    }

    method Get2Bytes() returns (r: nat)
      requires Valid()
      modifies this
      ensures Valid() && unchanged(`bitPosInByte, `appnFlag)
      ensures old(readBits) + 16 > 8 * streamLength ==> r == STRM_ERROR && unchanged(this)
      ensures old(readBits) + 16 <= 8 * streamLength ==>
        && old(pCurrPos) + 1 < streamLength
        && pCurrPos == old(pCurrPos) + 2 && readBits == old(readBits) + 16 && pCurrPos <= |s|
        && r == if bitPosInByte == 0 then Be16(s, old(pCurrPos)) else WordFrom(s, old(pCurrPos), bitPosInByte)
    {
      if readBits + 16 > 8 * streamLength {
        return STRM_ERROR;
      }
      var tmp: nat := mem[pCurrPos];
      pCurrPos := pCurrPos + 1;
      tmp := tmp * 256 + mem[pCurrPos];
      pCurrPos := pCurrPos + 1;
      tmp := (tmp * 256 + mem[pCurrPos]) % TWO32;
      WordFromIs(s, pCurrPos - 2, bitPosInByte);
      tmp := (tmp / Pow2(8 - bitPosInByte)) % 0x1_0000;
      readBits := readBits + 16;
      assert Pow2(8) == 256 by { Pow2Eight(); }
      return tmp;
    }

    /** ShowBits leaves the stream as it is.  RK_S32 bits goes negative when a token ends past the
        stream. */
    method ShowBits() returns (out: nat)
      requires Valid() && InSync() && readBits <= 8 * streamLength
      requires !OnStuffedZero(s, pCurrPos)
      ensures out == Shown(s, streamLength, pCurrPos, bitPosInByte)
    {
      ghost var d := Tokens(s, pCurrPos, streamLength);
      ghost var t := ShownByTrace(s, streamLength, pCurrPos, bitPosInByte, d);
      out := ShowTraced(t);
    }

    method ShowTraced(ghost t: Trace) returns (out: nat)
      requires Valid() && InSync() && readBits <= 8 * streamLength
      requires !OnStuffedZero(s, pCurrPos) && TraceOf(s, pCurrPos, streamLength, t)
      ensures out == ShownBy(s, streamLength, pCurrPos, bitPosInByte, t)
    {
      var bits: int := 8 * streamLength - readBits;
      ghost var d := |t.q| - 1;
      if bits == 0 {
        FirstStep(s, pCurrPos, streamLength, t);
        ShlNought(32 - 8 * d + bitPosInByte);
        return 0;
      }
      var read;
      out, bits, read := ShowLoop(t);
      if read == 32 && bitPosInByte == 0 && d >= 4 {
        ShlZero(out, 32 - (read - bitPosInByte));
      }
      if bits <= 0 && read + readBits >= streamLength * 8 {
        out := Shl(out, 32 - (read - bitPosInByte));
      }
    }

    /** The loop of ShowBits, and the four ways it ends: with a byte and a half, with four bytes, at
        the end of the stream, or one byte past it. */
    method ShowLoop(ghost t: Trace) returns (out: nat, bits: int, read: nat)
      requires Valid() && InSync() && readBits < 8 * streamLength
      requires !OnStuffedZero(s, pCurrPos) && TraceOf(s, pCurrPos, streamLength, t)
      ensures var p, b, d, len := pCurrPos, bitPosInByte, |t.q| - 1, streamLength;
        || (read == 0 && d >= 4 && out == ShownBy(s, len, p, b, t))
        || (read == 32 && b == 0 && d >= 4 && out == t.v[4] && out < TWO32)
        || (read == 8 * d && d < Need(b) && bits <= 0 && !EndsInPair(s, p, len) && len >= p + d
            && out == t.v[d])
        || (read == 8 * (d + 1) && d <= 3 && bits <= 0 && EndsInPair(s, p, len) && len > p + d
            && out == t.v[d] * 256 + s[len])
    {
      hide Shl, Shr, OnStuffedZero, TraceOf, EndsInPair, ShownBy, HeadAt, Cap;
      ghost var p, b, d, j := pCurrPos, bitPosInByte, |t.q| - 1, 0;
      bits := 8 * streamLength - readBits;
      read := 0;
      var pData: nat := pCurrPos;
      out := 0;
      HeadAtFirst(s, streamLength, p, t);
      while true
        invariant j <= 4 && read == 8 * j && read < 32 + b && HeadAt(s, streamLength, p, t, j, pData, out)
        invariant pData < streamLength && bits == 8 * (streamLength - pData) - b
        decreases 4 - j
      {
        AtToken(s, streamLength, p, t, j, pData, out);
        if pData > 0 && mem[pData - 1] == 0xFF && mem[pData] == 0x00 {
          pData := pData + 1;
          bits := bits - 8;
        }
        if read == 32 && bitPosInByte != 0 {
          FifthToken(s, streamLength, p, b, t);
          out := Shl(out, bitPosInByte);
          out := out + Shr(mem[pData], 8 - bitPosInByte);
          read := 0;
          break;
        }
        TokenTaken(s, streamLength, p, t, j, pData, out);
        out := (out * 256 + mem[pData]) % TWO32;
        pData := pData + 1;
        read := read + 8;
        bits := bits - 8;
        if !(read < 32 + bitPosInByte && bits > 0) {
          break;
        }
        j := j + 1;
      }
    }

    /** The block that both branches of FlushBits share: step over a byte, or over FF 00. */
    method SkipToken(extraBits: nat) returns (extra: nat)
      requires pCurrPos + 1 < mem.Length && mem[..] == s
      modifies `pCurrPos
      ensures pCurrPos == Next(s, old(pCurrPos))
      ensures extra == extraBits + 8 * (pCurrPos - old(pCurrPos) - 1)
    {
      if mem[pCurrPos] == 0xFF && mem[pCurrPos + 1] == 0x00 {
        extra := extraBits + 8;
        pCurrPos := pCurrPos + 2;
      } else {
        extra := extraBits;
        pCurrPos := pCurrPos + 1;
      }
    }

    /** The loop of FlushBits. */
    method SkipBits(bits: nat) returns (extraBits: nat)
      requires mem[..] == s && bitPosInByte < 8
      requires if !appnFlag then InBuffer(s, pCurrPos, (bitPosInByte + bits) / 8)
               else bitPosInByte + bits % 8 < 8 || pCurrPos + bits / 8 + 1 < |s|
      modifies `pCurrPos, `bitPosInByte
      ensures pCurrPos == Target(s, old(At()), appnFlag, bits)
      ensures bitPosInByte == (old(bitPosInByte) + bits) % 8
      ensures extraBits == 8 * (pCurrPos - old(pCurrPos) - (old(bitPosInByte) + bits) / 8)
    {
      ghost var p, b := pCurrPos, bitPosInByte;
      ghost var w, r, k := bits / 8, bits % 8, (b + bits) / 8;
      ghost var target := Target(s, At(), appnFlag, bits);
      WholeAndRest(b, bits);
      ghost var j, partial := 0, false;
      var tmp := 0;
      extraBits := 0;
      while tmp < bits
        invariant !partial ==> tmp == 8 * j && j <= w && bitPosInByte == b
        invariant !partial ==> pCurrPos == if appnFlag then p + j else Advance(s, p, j)
        invariant partial ==> tmp == bits && j == k && pCurrPos == target
        invariant partial ==> bitPosInByte == if b + r < 8 then b + r else b + r - 8
        invariant extraBits == 8 * (pCurrPos - p - j)
      {
        if !appnFlag {
          TokenAhead(s, p, j, k);
        }
        if bits - tmp < 8 {
          partial := true;
          assert j == w && bits - tmp == r;
          if 8 - bitPosInByte > bits - tmp {
            bitPosInByte := bitPosInByte + (bits - tmp);
            tmp := bits;
          } else {
            extraBits := SkipToken(extraBits);
            j := j + 1;
            tmp := tmp + (8 - bitPosInByte);
            bitPosInByte := 0;
            bitPosInByte := bits - tmp;
            tmp := bits;
          }
        } else {
          tmp := tmp + 8;
          j := j + 1;
          if appnFlag {
            pCurrPos := pCurrPos + 1;
          } else {
            extraBits := SkipToken(extraBits);
          }
        }
      }
      assert !partial ==> j == w == k && r == 0;
    }

    /** STRM_ERROR is reported as false. */
    method FlushBits(bits: nat) returns (ok: bool)
      requires Valid() && readBits + bits < TWO32
      requires CanFlush(s, streamLength, At(), appnFlag, bits)
      modifies `pCurrPos, `bitPosInByte, `readBits
      ensures Valid()
      ensures (ok, At()) == Flushed(s, streamLength, old(At()), appnFlag, bits)
    {
      if readBits + bits > 8 * streamLength {
        readBits := 8 * streamLength;
        bitPosInByte := 0;
        pCurrPos := streamLength;
        return false;
      }
      var extraBits := SkipBits(bits);
      WholeAndRest(old(bitPosInByte), bits);
      readBits := readBits + bits + extraBits;
      return true;
    }
  }

  /** Bound of a j-byte number. */
  function Cap(j: nat): nat {
    if j == 0 then 1 else if j == 1 then 0x100 else if j == 2 then 0x1_0000
    else if j == 3 then 0x100_0000 else TWO32
  }

  lemma ShiftIn(out: nat, x: byte, j: nat)
    requires j <= 3 && out < Cap(j)
    ensures (out * 256 + x) % TWO32 == 256 * out + x < Cap(j + 1) <= TWO32
  {
  }

  /** The head of the loop of ShowBits: j tokens have been shifted in, and pData is behind the last of them,
      but on its stuffed zero if it has one. */
  predicate HeadAt(s: seq<byte>, len: nat, p: nat, t: Trace, j: nat, pData: nat, out: nat)
    requires TraceOf(s, p, len, t)
  {
    && j < |t.q| && out == t.v[j] < Cap(j) && !OnStuffedZero(s, t.q[j])
    && (j > 0 ==> t.q[j - 1] >= p + j - 1)
    && pData == (if j == 0 then p else t.q[j - 1] + 1) < len
  }

  lemma HeadAtFirst(s: seq<byte>, len: nat, p: nat, t: Trace)
    requires TraceOf(s, p, len, t) && p < len && !OnStuffedZero(s, p)
    ensures HeadAt(s, len, p, t, 0, p, 0)
  {
  }

  /** Behind the stuffed zero the loop is at token j, or at the end of a stream that ends in a pair. */
  lemma AtToken(s: seq<byte>, len: nat, p: nat, t: Trace, j: nat, pData: nat, out: nat)
    requires TraceOf(s, p, len, t) && HeadAt(s, len, p, t, j, pData, out)
    ensures |t.v| == |t.q| > j && out == t.v[j] < Cap(j) && !OnStuffedZero(s, t.q[j]) && pData < |s|
    ensures t.q[j] == if pData > 0 && s[pData - 1] == 0xFF && s[pData] == 0x00 then pData + 1 else pData
    ensures t.q[j] <= len < |s| && t.q[j] >= p + j
    ensures j + 1 < |t.q| ==> t.q[j] < len
    ensures j + 1 == |t.q| ==> EndsInPair(s, p, len) && t.q[j] == len > p + j
  {
    assert j > 0 ==> Step(s, len, t, j - 1);
    assert j + 1 < |t.q| ==> Step(s, len, t, j);
  }

  lemma FifthToken(s: seq<byte>, len: nat, p: nat, b: nat, t: Trace)
    requires InReach(s, len, p, b) && b > 0 && TraceOf(s, p, len, t) && |t.q| > 4 && t.q[4] < |s|
    requires |t.q| == 5 ==> EndsInPair(s, p, len) && t.q[4] == len
    ensures ShownBy(s, len, p, b, t) == Shl(t.v[4], b) + Shr(s[t.q[4]], 8 - b)
  {
    hide Shl, Shr, EndsInPair;
  }

  /** Taking token j leads back to the head of the loop, or to the last byte of the stream. */
  lemma TokenTaken(s: seq<byte>, len: nat, p: nat, t: Trace, j: nat, pData: nat, out: nat)
    requires TraceOf(s, p, len, t) && j <= 3 && j < |t.q| && pData == t.q[j] <= len < |s| && pData >= p + j
    requires out == t.v[j] < Cap(j) && !OnStuffedZero(s, t.q[j])
    requires j + 1 < |t.q| ==> t.q[j] < len
    ensures (out * 256 + s[pData]) % TWO32 == 256 * out + s[pData] < TWO32
    ensures j + 1 < |t.q| ==> t.v[j + 1] == 256 * out + s[pData]
    ensures j + 1 < |t.q| && pData + 1 < len ==> HeadAt(s, len, p, t, j + 1, pData + 1, 256 * out + s[pData])
    ensures j + 1 < |t.q| && pData + 1 >= len ==> j + 2 == |t.q| && !EndsInPair(s, p, len) && len >= p + j + 1
  {
    ShiftIn(out, s[pData], j);
    hide Cap;
    assert j + 1 < |t.q| ==> Step(s, len, t, j);
    assert j + 2 < |t.q| ==> Step(s, len, t, j + 1);
  }

  /** Whole bytes and remaining bits of a flush of n bits from bit b. */
  lemma WholeAndRest(b: nat, n: nat)
    requires b < 8
    ensures n == 8 * (n / 8) + n % 8
    ensures b + n % 8 < 8 ==> (b + n) / 8 == n / 8 && (b + n) % 8 == b + n % 8
    ensures b + n % 8 >= 8 ==> (b + n) / 8 == n / 8 + 1 && (b + n) % 8 == b + n % 8 - 8
  {
  }

  /** The token after the first j of k is mapped, and stepping over it is one Advance more. */
  lemma TokenAhead(s: seq<byte>, p: nat, j: nat, k: nat)
    requires j <= k && InBuffer(s, p, k)
    ensures Advance(s, p, j + 1) == Next(s, Advance(s, p, j))
    ensures j < k ==> Advance(s, p, j) + 1 < |s|
  {
    AdvanceAdd(s, p, j, 1);
    Destuffing.Split(s, p, j, k);
  }

  lemma SubBits(bits: seq<bool>, i: nat, n: nat)
    requires i + n <= |bits|
    ensures Value(bits[i..i + n]) == (Value(bits) / Pow2(|bits| - i - n)) % Pow2(n)
  {
    ValueSplit(bits, i + n);
    ValueSplit(bits[..i + n], i);
    assert bits[..i + n][i..] == bits[i..i + n];
  }

  /** The eight bits at offset b of two bytes, as shift and mask compute them. */
  lemma ByteWindow(two: seq<byte>, b: nat, n: nat)
    requires b < 8 && |two| == 2 && n == 8
    ensures Value(BitsOf(two)[b..b + n]) == (Big(two) / Pow2(n - b)) % Pow2(n)
  {
    SubBits(BitsOf(two), b, n);
    BigIsValue(two);
  }

  /** GetByte and the destuffed bit string agree on what eight bits are. */
  lemma ByteFromIsWindow(two: seq<byte>, b: nat)
    requires b < 8 && |two| == 2
    ensures ByteFrom(two[0], two[1], b) == Value(BitsOf(two)[b..b + 8])
  {
    hide Pow2, Value, BitsOf, Big;
    ByteWindow(two, b, 8);
    BigTwo(two);
    HighByte(two[0], two[1]);
    Pow2Eight();
  }

  lemma FirstStep(s: seq<byte>, p: nat, len: nat, t: Trace)
    requires TraceOf(s, p, len, t)
    ensures |t.q| > 1 ==> p < len
  {
    if |t.q| > 1 {
      assert Step(s, len, t, 0);
    }
  }

  lemma HighByte(x: byte, y: byte)
    ensures ((x as int * 256 + y) / 256) % 256 == x
  {
  }

  lemma BigTwo(two: seq<byte>)
    requires |two| == 2
    ensures Big(two) == two[0] as int * 256 + two[1]
  {
    var one := two[..1];
    assert one[..0] == [];
    assert Big(one) == two[0];
  }

  /** Dividing by m, where 256 = m * k, splits two bytes and three bytes at the same places. */
  lemma TwoWindows(x: nat, y: nat, z: nat, m: nat, k: nat)
    requires x < 256 && y < 256 && z < 256 && m > 0 && m * k == 256
    ensures ((x * 256 + y) * 256 + z) / m % 0x1_0000
         == 256 * ((x * 256 + y) / m % 256) + (y * 256 + z) / m % 256
  {
    var high, q, low := Quotients(x, y, z, m, k);
    Combine(high, q, low);
  }

  lemma Combine(high: nat, q: nat, low: nat)
    requires low < 256
    ensures (high * 256 + low) % 0x1_0000 == 256 * (high % 256) + (q * 256 + low) % 256
  {
  }

  lemma Quotients(x: nat, y: nat, z: nat, m: nat, k: nat) returns (high: nat, q: nat, low: nat)
    requires z < 256 && m > 0 && m * k == 256
    ensures low < 256 && (x * 256 + y) / m == high && (y * 256 + z) / m == q * 256 + low
    ensures ((x * 256 + y) * 256 + z) / m == high * 256 + low
  {
    var r, c, d;
    q, r := QuotientOf(y, m);
    c, d := QuotientOf(z, m);
    LowPart(r, c, d, m, k, z);
    high, low := x * k + q, r * k + c;
    Whole(x, m, k, q, r);
    Quotient(x * 256 + y, z, m, k, high, r, c, d);
    Quotient(y, z, m, k, q, r, c, d);
  }

  lemma QuotientOf(n: nat, m: nat) returns (q: nat, r: nat)
    requires m > 0
    ensures n == q * m + r && r < m
  {
    q, r := n / m, n % m;
  }

  lemma Divides(n: nat, q: nat, r: nat, m: nat)
    requires n == q * m + r && r < m
    ensures n / m == q
  {
    var p, _ := QuotientOf(n, m);
    Grows(n / m, q, m);
    Grows(q, n / m, m);
  }

  lemma Grows(p: nat, q: nat, m: nat)
    ensures p < q ==> (p + 1) * m <= q * m
  {
  }

  lemma LowPart(r: nat, c: nat, d: nat, m: nat, k: nat, z: nat)
    requires r < m && m * k == 256 && z == c * m + d && z < 256
    ensures r * k + c < 256
  {
    SmallerFactor(m, c, k);
    assert r * k <= (m - 1) * k;
  }

  lemma SmallerFactor(m: nat, c: nat, k: nat)
    ensures m > 0 && c * m < m * k ==> c < k
  {
    if c >= k {
      assert c * m >= m * k;
    }
  }

  lemma Quotient(w: nat, z: nat, m: nat, k: nat, q: nat, r: nat, c: nat, d: nat)
    requires m * k == 256 && w == q * m + r && z == c * m + d && d < m
    ensures (w * 256 + z) / m == q * 256 + (r * k + c)
  {
    assert w * 256 == q * m * 256 + r * (m * k);
    Divides(w * 256 + z, q * 256 + (r * k + c), d, m);
  }

  lemma Whole(x: nat, m: nat, k: nat, q: nat, r: nat)
    requires m * k == 256 && r < m
    ensures x * 256 + (q * m + r) == (x * k + q) * m + r && (x * 256 + (q * m + r)) / m == x * k + q
  {
    assert x * 256 == x * k * m;
    Divides(x * 256 + (q * m + r), x * k + q, r, m);
  }
}
