/** JpegDecDecodeQuantTables and JpegDecDecodeHuffmanTables on the stream reader; TableSegments says what
    they amount to. */
module TableReaders {
  import opened Common
  import opened StreamReader
  import opened Container
  import opened TableSegments

  /** The reader as JpegDecDecode uses it on headers: on byte boundaries, the counter in step. */
  ghost predicate Ready(stream: StreamStorage)
    reads stream, stream.mem
  {
    stream.Valid() && stream.InSync() && stream.bitPosInByte == 0
  }

  /** n calls of GetByte. */
  method ReadBytes(stream: StreamStorage, n: nat) returns (bytes: seq<nat>)
    requires Ready(stream)
    modifies stream
    ensures Ready(stream) && stream.appnFlag == old(stream.appnFlag)
    ensures bytes == BytesAt(stream.s, stream.streamLength, old(stream.pCurrPos), n)
    ensures stream.pCurrPos == After(stream.streamLength, old(stream.pCurrPos), n) >= old(stream.pCurrPos)
  {
    ghost var s, len, p := stream.s, stream.streamLength, stream.pCurrPos;
    bytes := [];
    var i := 0;
    while i < n
      invariant i <= n && Ready(stream) && stream.appnFlag == old(stream.appnFlag)
      invariant bytes == BytesAt(s, len, p, i) && stream.pCurrPos == After(len, p, i)
    {
      var b := stream.GetByte();
      bytes := bytes + [b];
      i := i + 1;
    }
  }

  /** The table loop from the position after Lq. */
  method QuantLoop(stream: StreamStorage, c: JpegDecContainer, lq: nat) returns (ret: Ret)
    requires Ready(stream)
    modifies stream, c`quant
    ensures Ready(stream) && stream.appnFlag == old(stream.appnFlag) && stream.pCurrPos >= old(stream.pCurrPos)
    ensures QuantEnd(ret, stream.pCurrPos, c.quant)
         == QuantRun(stream.s, stream.streamLength, old(stream.pCurrPos), 4, lq, old(c.quant))
  {
    hide BytesAt, QuantRun;
    ghost var s, len := stream.s, stream.streamLength;
    ghost var end := QuantRun(s, len, stream.pCurrPos, 4, lq, c.quant);
    var t: int := 4;
    while t < lq
      invariant t >= 4 && Ready(stream) && stream.pCurrPos >= old(stream.pCurrPos)
                   && stream.appnFlag == old(stream.appnFlag)
      invariant QuantRun(s, len, stream.pCurrPos, t, lq, c.quant) == end
      decreases lq - t
    {
      QuantRunStep(s, len, stream.pCurrPos, t, lq, c.quant);
      var tmp := stream.GetByte();
      t := t + 1;
      if tmp / 16 != 0 {
        return Unsupported;
      }
      tmp := tmp % 16;
      if tmp > 3 {
        return Unsupported;
      }
      var table := ReadBytes(stream, 64);
      c.quant := c.quant[tmp := table];
      t := t + 64;
    }
    QuantRunStep(s, len, stream.pCurrPos, t, lq, c.quant);
    ret := Ok;
  }

  lemma QuantRunStep(s: seq<byte>, len: nat, p: nat, t: nat, lq: nat, tables: QuantTables)
    requires len <= |s|
    ensures QuantRun(s, len, p, t, lq, tables)
         == if t >= lq then QuantEnd(Ok, p, tables)
            else
              var b, p1 := ByteAt(s, len, p), After(len, p, 1);
              if b / 16 != 0 || b % 16 > 3 then QuantEnd(Unsupported, p1, tables)
              else QuantRun(s, len, After(len, p1, 64), t + 65, lq, tables[b % 16 := BytesAt(s, len, p1, 64)])
  {
  }

  method DecodeQuantTables(stream: StreamStorage, c: JpegDecContainer) returns (ret: Ret)
    requires Ready(stream)
    modifies stream, c`quant
    ensures Ready(stream) && stream.appnFlag == old(stream.appnFlag)
    ensures stream.pCurrPos >= old(stream.pCurrPos)
    ensures QuantEnd(ret, stream.pCurrPos, c.quant)
         == QuantSegment(stream.s, stream.streamLength, old(stream.pCurrPos), old(c.quant))
  {
    hide QuantRun;
    var lq := stream.Get2Bytes();
    if (stream.readBits / 8 + lq) % TWO32 > stream.streamLength {
      return StrmError;
    }
    ret := QuantLoop(stream, c, lq);
  }

  /** The list BITS and the sum of its entries. */
  method ReadBits16(stream: StreamStorage) returns (bits: seq<nat>, sum: nat)
    requires Ready(stream)
    modifies stream
    ensures Ready(stream) && stream.appnFlag == old(stream.appnFlag)
    ensures bits == BytesAt(stream.s, stream.streamLength, old(stream.pCurrPos), 16)
    ensures stream.pCurrPos == After(stream.streamLength, old(stream.pCurrPos), 16) >= old(stream.pCurrPos)
    ensures sum == Total(bits) % TWO32
  {
    bits := ReadBytes(stream, 16);
    sum := 0;
    var i := 0;
    while i < 16
      invariant i <= 16 && sum == Total(bits[..i]) % TWO32
      modifies {}
    {
      TotalSnoc(bits, i);
      sum := (sum + bits[i]) % TWO32;
      i := i + 1;
    }
    assert bits[..16] == bits;
  }

  lemma {:induction false} TotalSnoc(bits: seq<nat>, i: nat)
    requires i < |bits|
    ensures Total(bits[..i + 1]) == Total(bits[..i]) + bits[i]
  {
    if i > 0 {
      TotalSnoc(bits[1..], i - 1);
      assert bits[..i + 1][1..] == bits[1..][..i] && bits[..i][1..] == bits[1..][..i - 1];
    }
  }

  /** First and last used code length; an all-zero list leaves both as they were. */
  method Lengths(bits: seq<nat>, was: VlcTable) returns (start: nat, last: nat)
    ensures start == FirstUsed(bits, 0, was.start) && last == LastUsed(bits, |bits|, was.last)
  {
    start, last := was.start, was.last;
    var i := 0;
    while i < |bits|
      invariant i <= |bits| && FirstUsed(bits, i, was.start) == FirstUsed(bits, 0, was.start)
      invariant start == was.start
    {
      if bits[i] != 0 {
        start := i;
        break;
      }
      i := i + 1;
    }
    var j := |bits|;
    while j > 0
      invariant 0 <= j <= |bits| && LastUsed(bits, j, was.last) == LastUsed(bits, |bits|, was.last)
      invariant last == was.last
    {
      if bits[j - 1] != 0 {
        last := j;
        break;
      }
      j := j - 1;
    }
  }

  /** The body of the table loop of JpegDecDecodeHuffmanTables. */
  method DecodeHuffmanTable(stream: StreamStorage, c: JpegDecContainer) returns (ret: Ret, count: nat)
    requires Ready(stream)
    modifies stream, c`vlc
    ensures Ready(stream) && stream.appnFlag == old(stream.appnFlag)
    ensures stream.pCurrPos >= old(stream.pCurrPos)
    ensures match ReadHuff(stream.s, stream.streamLength, old(stream.pCurrPos), c.codingType, old(c.vlc))
      case Refused(r, end) => ret == r && r != Ok && stream.pCurrPos == end && c.vlc == old(c.vlc)
      case Read(next, n, filled) => ret == Ok && stream.pCurrPos == next && count == n && c.vlc == filled
  {
    var tmp := stream.GetByte();
    count := 1;
    var tc := tmp / 16;
    if tc != 0 && tc != 1 {
      return Unsupported, count;
    }
    var th := tmp % 16;
    if c.codingType == SOF0 && th > 1 {
      return Unsupported, count;
    }
    if c.codingType == SOF2 && th > 3 {
      return Unsupported, count;
    }
    if th > 3 {
      return Unsupported, count;
    }
    var slot := if tc != 0 then 4 + th else th;
    var bits, sum := ReadBits16(stream);
    if sum >= 0x4000_0000 {
      return WildJump, count;
    }
    var vals := ReadBytes(stream, sum);
    var start, last := Lengths(bits, c.vlc[slot]);
    c.vlc := c.vlc[slot := VlcTable(bits, vals, start, last)];
    ret, count := Ok, 17 + sum;
  }

  /** The table loop from the position after Lh. */
  method HuffmanLoop(stream: StreamStorage, c: JpegDecContainer, lh: nat) returns (ret: Ret)
    requires Ready(stream)
    modifies stream, c`vlc
    ensures Ready(stream) && stream.appnFlag == old(stream.appnFlag) && stream.pCurrPos >= old(stream.pCurrPos)
    ensures HuffEnd(ret, stream.pCurrPos, c.vlc)
         == HuffRun(stream.s, stream.streamLength, old(stream.pCurrPos), 4, lh, c.codingType, old(c.vlc))
  {
    hide ReadHuff, HuffRun;
    ghost var s, len := stream.s, stream.streamLength;
    ghost var end := HuffRun(s, len, stream.pCurrPos, 4, lh, c.codingType, c.vlc);
    var t: int := 4;
    while t < lh
      invariant t >= 4 && Ready(stream) && stream.pCurrPos >= old(stream.pCurrPos)
                   && stream.appnFlag == old(stream.appnFlag)
      invariant HuffRun(s, len, stream.pCurrPos, t, lh, c.codingType, c.vlc) == end
      decreases lh - t
    {
      HuffRunStep(s, len, stream.pCurrPos, t, lh, c.codingType, c.vlc);
      var count;
      ret, count := DecodeHuffmanTable(stream, c);
      if ret != Ok {
        return;
      }
      t := t + count;
    }
    HuffRunStep(s, len, stream.pCurrPos, t, lh, c.codingType, c.vlc);
    ret := Ok;
  }

  lemma HuffRunStep(s: seq<byte>, len: nat, p: nat, t: nat, lh: nat, coding: nat, tables: VlcTables)
    requires len <= |s|
    ensures HuffRun(s, len, p, t, lh, coding, tables)
         == if t >= lh then HuffEnd(Ok, p, tables)
            else match ReadHuff(s, len, p, coding, tables)
              case Refused(ret, end) => HuffEnd(ret, end, tables)
              case Read(next, count, filled) => HuffRun(s, len, next, t + count, lh, coding, filled)
  {
  }

  method DecodeHuffmanTables(stream: StreamStorage, c: JpegDecContainer) returns (ret: Ret)
    requires Ready(stream)
    modifies stream, c`vlc
    ensures Ready(stream) && stream.appnFlag == old(stream.appnFlag)
    ensures stream.pCurrPos >= old(stream.pCurrPos)
    ensures HuffEnd(ret, stream.pCurrPos, c.vlc)
         == HuffSegment(stream.s, stream.streamLength, old(stream.pCurrPos), c.codingType, old(c.vlc))
  {
    hide HuffRun;
    var lh := stream.Get2Bytes();
    if (stream.readBits / 8 + lh) % TWO32 > stream.streamLength {
      return StrmError;
    }
    ret := HuffmanLoop(stream, c, lh);
  }
}
