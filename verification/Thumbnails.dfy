/** The marker loop that JpegDecGetImageInfo runs inside a JFXX segment with a JPEG thumbnail, up to the
    frame header of the thumbnail. */
module Thumbnails {
  import opened Common
  import opened FrameGeometry
  import opened StreamReader
  import opened HeaderSyntax
  import opened Container
  import opened InfoSegments
  import opened App0
  import opened TableSegments

  const MAX_THUMB: nat := 256    // JPEGDEC_MAX_WIDTH_TN, JPEGDEC_MAX_HEIGHT_TN

  /** One segment of the thumbnail: go on, errorCode is set, the function returned, or there was no
      marker. */
  datatype Inner = Next | Failed | Back(ret: Failure) | NoPrefix

  // ---- The headers of a thumbnail, from the bytes

  predicate ThumbSize(n: nat) { 1 <= n < 0x1_0000 && MIN_SIZE <= Align16(n) <= MAX_THUMB }

  /** 33 to 256 samples. */
  lemma ThumbSizes(n: nat)
    ensures ThumbSize(n) <==> 33 <= n <= 256
  {
  }

  predicate GoodThumbSize(s: seq<byte>, q: nat)
    requires q + 8 <= |s|
  {
    s[q + 2] == 8 && ThumbSize(Be16(s, q + 3)) && ThumbSize(Be16(s, q + 5)) && (s[q + 7] == 1 || s[q + 7] == 3)
  }

  /** The frame header of a thumbnail; its length field is not looked at. */
  predicate GoodThumb(s: seq<byte>, q: nat, was: seq<(nat, nat)>)
    requires |was| == 3
  {
    q + 8 <= |s| && GoodThumbSize(s, q) && InfoFormat(Slots(s, true, q + 8, s[q + 7], was)).Some?
  }

  /** End of the segment of code c whose length field is at q; None if the loop does not get there or
      does not charge it to appBits. */
  function InnerEnd(s: seq<byte>, c: nat, q: nat, was: seq<(nat, nat)>): (e: Option<nat>)
    requires |was| == 3
    ensures e.Some? ==> e.value >= q
  {
    if IsSof(c) then if GoodThumb(s, q, was) then Some(q + 8 + 3 * s[q + 7] as int) else None
    else if HasLength(c) || c == DNL then if q + 2 <= |s| && Be16(s, q) >= 2 then Some(q + Be16(s, q)) else None
    else if c == SOS || OtherProcess(c) || c == 0 then None
    else Some(q)
  }

  /** By their codes: a frame header of 8 bits, 33 to 256 samples either way and a format ends with its
      components, a segment by its length, a marker without parameters at once; behind SOS, a process that is refused
      or a code of zero the loop is not followed. */
  lemma InnerEnds(s: seq<byte>, c: nat, q: nat, was: seq<(nat, nat)>)
    requires |was| == 3 && c < 0x100
    ensures var e := InnerEnd(s, c, q, was);
      if c == 0xC0 || c == 0xC2 then
        if && q + 8 <= |s| && s[q + 2] == 8 && 33 <= Be16(s, q + 3) <= 256 && 33 <= Be16(s, q + 5) <= 256
           && s[q + 7] in [1, 3] && InfoFormat(Slots(s, true, q + 8, s[q + 7], was)).Some?
        then e == Some(q + 8 + 3 * s[q + 7] as int) else e.None?
      else if c in {0xC4, 0xDB, 0xDC, 0xDD, 0xFE} || 0xE0 <= c <= 0xEF then
        if q + 2 <= |s| && Be16(s, q) >= 2 then e == Some(q + Be16(s, q)) else e.None?
      else if c in {0x00, 0xC1, 0xC3, 0xC5, 0xC6, 0xC7, 0xC8, 0xCA, 0xCB, 0xCC, 0xCD, 0xCE, 0xCF, 0xDA, 0xDE}
      then e.None?
      else e == Some(q)
  {
    hide Slots, InfoFormat;
    if q + 8 <= |s| {
      ThumbSizes(Be16(s, q + 3));
      ThumbSizes(Be16(s, q + 5));
    }
    hide ThumbSize;
  }

  /** End of the marker segment at p. */
  function MarkerEnd(s: seq<byte>, p: nat, was: seq<(nat, nat)>): (e: Option<nat>)
    requires |was| == 3
    ensures e.Some? ==> p + 2 <= |s| && e.value >= p + 2
  {
    if p + 2 > |s| || s[p] != 0xFF then None else InnerEnd(s, s[p + 1], p + 2, was)
  }

  /** Where the headers of the thumbnail at p end, and the number of marker steps before the last; with
      seen, a thumbnail frame was found in an earlier segment and the first marker is the last. */
  function ThumbHeaders(s: seq<byte>, p: nat, seen: bool, was: seq<(nat, nat)>): (r: Option<(nat, nat)>)
    requires |was| == 3
    ensures r.Some? ==> MarkerEnd(s, p, was).Some? && r.value.0 >= MarkerEnd(s, p, was).value
    decreases |s| - p
  {
    match MarkerEnd(s, p, was)
    case None => None
    case Some(e) =>
      if seen || IsSof(s[p + 1]) then Some((e, 0))
      else if e > |s| then None
      else match ThumbHeaders(s, e, seen, was)
        case None => None
        case Some(r) => Some((r.0, r.1 + 1))
  }

  // ---- The segments

  /** DQT, DHT, DRI, APPn, DNL and COM inside a thumbnail: appBits is advanced by the length, which is
      zero for a length field of zero although two bytes were read. */
  method InnerJump(stream: StreamStorage, appBits0: nat) returns (r: Inner, appBits: nat, ghost missed: nat)
    requires stream.Valid() && stream.bitPosInByte == 0 && appBits0 % 8 == 0
    requires stream.readBits <= 8 * stream.streamLength
    modifies stream
    ensures stream.Valid() && stream.bitPosInByte == 0 && stream.appnFlag == old(stream.appnFlag)
    ensures stream.readBits - 8 * stream.pCurrPos == old(stream.readBits - 8 * stream.pCurrPos)
    ensures old(stream.readBits) <= stream.readBits <= old(stream.readBits) + 0x10_0000
    ensures appBits % 8 == 0 && (r.Back? ==> r.ret == WildJump)
    ensures r.Next? ==> appBits == appBits0 + 8 * (stream.pCurrPos - old(stream.pCurrPos) - missed)
    ensures var q, s := old(stream.pCurrPos), stream.s;
      old(stream.readBits) + 16 <= 8 * stream.streamLength ==>
        && (Be16(s, q) >= 2 ==> r == Next && stream.pCurrPos == q + Be16(s, q) && missed == 0)
        && (Be16(s, q) == 0 ==> r == Next && stream.pCurrPos == q + 2 && missed == 2)
  {
    appBits, missed := appBits0, 0;
    var length := stream.Get2Bytes();
    if length == STRM_ERROR {
      return Failed, appBits, 0;
    }
    if length == 1 {
      return Back(WildJump), appBits, 0;
    }
    if length != 0 {
      stream.readBits := stream.readBits + (length * 8 - 16);
      stream.pCurrPos := stream.pCurrPos + (length * 8 - 16) / 8;
    } else {
      missed := 2;
    }
    appBits := appBits + length * 8;
    r := Next;
  }

  /** SOS inside a thumbnail, before its frame header: nothing is added to appBits, and the segment is
      skipped from one byte too far. */
  method InnerScan(stream: StreamStorage, c: JpegDecContainer, info0: ImageInfo)
    returns (r: Inner, info: ImageInfo, ghost missed: nat)
    requires stream.Valid() && stream.bitPosInByte == 0
    requires stream.readBits <= 8 * stream.streamLength
    modifies stream, c`init, c`operationTypeThumb
    ensures stream.Valid() && stream.bitPosInByte == 0 && stream.appnFlag == old(stream.appnFlag)
    ensures stream.readBits - 8 * stream.pCurrPos == old(stream.readBits - 8 * stream.pCurrPos)
    ensures old(stream.readBits) <= stream.readBits <= old(stream.readBits) + 0x10_0000
    ensures r.Next? ==> c.init && missed >= 2 && stream.pCurrPos == old(stream.pCurrPos) + missed
    ensures !r.Next? ==> c.init == old(c.init)
    ensures r.Back? ==> r.ret == WildJump || r.ret == IncreaseInputBuffer
  {
    hide TooLong, Be16, ByteFrom, WordFrom;
    info, missed := info0, 0;
    ghost var start := stream.pCurrPos;
    var headerLength := stream.Get2Bytes();
    if headerLength == STRM_ERROR || TooLong(stream.readBits, headerLength, stream.streamLength) {
      return Failed, info, 0;
    }
    var ns := stream.GetByte();
    if ns == 1 && info.outputFormatThumb != Some(Yuv400) && info.codingModeThumb == Baseline {
      info := info.(codingModeThumb := NonInterleaved);
      c.operationTypeThumb := NonInterleaved;
    }
    if headerLength == 1 {
      return Back(WildJump), info, 0;
    }
    if headerLength != 0 {
      stream.readBits := stream.readBits + (headerLength * 8 - 16);
      stream.pCurrPos := stream.pCurrPos + (headerLength * 8 - 16) / 8;
    }
    if stream.readBits + 8 < 8 * stream.streamLength {
      c.init := true;
    } else {
      return Back(IncreaseInputBuffer), info, 0;
    }
    missed := stream.pCurrPos - start;
    r := Next;
  }

  /** The fixed part of the thumbnail's frame header: length, precision, size, number of components. */
  method InnerSize(stream: StreamStorage, info0: ImageInfo) returns (r: Inner, info: ImageInfo, nf: nat)
    requires stream.Valid() && stream.bitPosInByte == 0 && stream.appnFlag
    requires stream.readBits <= 8 * stream.streamLength
    modifies stream
    ensures stream.Valid() && stream.bitPosInByte == 0 && stream.appnFlag
    ensures old(stream.readBits) <= stream.readBits <= old(stream.readBits) + 64
    ensures r.Next? ==>
      && (nf == 1 || nf == 3) && stream.readBits <= 8 * stream.streamLength
      && stream.pCurrPos == old(stream.pCurrPos) + 8 && stream.readBits == old(stream.readBits) + 64
    ensures r.Back? ==> r.ret == Unsupported
    ensures var q := old(stream.pCurrPos);
      old(stream.readBits) + 64 <= 8 * stream.streamLength ==>
        && (r.Next? <==> GoodThumbSize(stream.s, q)) && (r.Next? ==> nf == stream.s[q + 7])
  {
    assert Align16(STRM_ERROR) == 0;
    hide Align16, Be16, ByteFrom, WordFrom;
    info, nf := info0, 0;
    var ok := stream.FlushBits(16);
    if !ok {
      return Failed, info, nf;
    }
    var precision := stream.GetByte();
    if precision != 8 {
      return Back(Unsupported), info, nf;
    }
    var y := stream.Get2Bytes();
    info := info.(displayHeightThumb := y);
    if y < 1 {
      return Back(Unsupported), info, nf;
    }
    var x := stream.Get2Bytes();
    info := info.(displayWidthThumb := x);
    if x < 1 || Align16(x) < MIN_SIZE || Align16(y) < MIN_SIZE || Align16(x) > MAX_THUMB || Align16(y) > MAX_THUMB {
      return Back(Unsupported), info, nf;
    }
    nf := stream.GetByte();
    if nf != 3 && nf != 1 {
      return Back(Unsupported), info, nf;
    }
    r := Next;
  }

  /** The thumbnail's frame header.  appBits grows with every field; when all were read, by exactly the
      bits read. */
  method InnerFrame(stream: StreamStorage, c: JpegDecContainer, baseline: bool, info0: ImageInfo,
                    appBits0: nat, was: seq<(nat, nat)>)
    returns (r: Inner, info: ImageInfo, appBits: nat, hv: seq<(nat, nat)>, found: bool)
    requires stream.Valid() && stream.bitPosInByte == 0 && stream.appnFlag && |was| == 3 && appBits0 % 8 == 0
    requires stream.readBits <= 8 * stream.streamLength
    modifies stream, c`initThumb, c`operationTypeThumb
    ensures stream.Valid() && stream.bitPosInByte == 0 && stream.appnFlag && |hv| == 3 && appBits % 8 == 0
    ensures old(stream.readBits) <= stream.readBits <= old(stream.readBits) + 0x10_0000
    ensures (found ==> c.initThumb) && (!found ==> c.initThumb == old(c.initThumb))
    ensures r.Next? ==>
      && found && appBits == appBits0 + 8 * (stream.pCurrPos - old(stream.pCurrPos))
      && stream.pCurrPos > old(stream.pCurrPos)
      && stream.readBits - 8 * stream.pCurrPos == old(stream.readBits - 8 * stream.pCurrPos)
      && InfoFormat(hv).Some? && info.outputFormatThumb == InfoFormat(hv)
    ensures r.Back? ==> r.ret == Unsupported
    ensures var q := old(stream.pCurrPos);
      GoodThumb(stream.s, q, was) && old(stream.readBits) + 64 + 24 * stream.s[q + 7] as int <= 8 * stream.streamLength
      ==> r == Next && stream.pCurrPos == q + 8 + 3 * stream.s[q + 7] as int
  {
    hide Slots, CompsEnd, InfoFormat, GoodThumbSize;
    appBits, hv, found := appBits0, was, false;
    c.operationTypeThumb := if baseline then Baseline else Progressive;
    var nf;
    r, info, nf := InnerSize(stream, info0.(codingModeThumb := c.operationTypeThumb));
    if !r.Next? {
      return;
    }
    appBits := appBits + 64;
    var ok, hmax, vmax;
    PlainComps(stream.s, stream.pCurrPos, nf);
    ok, hv, hmax, vmax := Components(stream, nf, was);
    if ok {
      appBits := appBits + 24 * nf;
    }
    if hmax == 0 || vmax == 0 {
      return Back(Unsupported), info, appBits, hv, found;
    }
    var fmt := FormatFrom(hv);
    if fmt.None? {
      return Back(Unsupported), info, appBits, hv, found;
    }
    info := info.(outputFormatThumb := fmt);
    c.initThumb, found := true, true;
    r := if ok then Next else Failed;
  }

  lemma PlainComps(s: seq<byte>, p: nat, n: nat)
    requires n <= 3
    ensures CompsEnd(s, true, p, n) == p + 3 * n
  {
  }

  /** The switch. */
  method InnerSegment(stream: StreamStorage, c: JpegDecContainer, code: nat, info0: ImageInfo,
                      appBits0: nat, was: seq<(nat, nat)>)
    returns (r: Inner, info: ImageInfo, appBits: nat, hv: seq<(nat, nat)>, found: bool, ghost missed: nat)
    requires stream.Valid() && stream.bitPosInByte == 0 && stream.appnFlag && |was| == 3 && appBits0 % 8 == 0
    requires stream.readBits <= 8 * stream.streamLength
    modifies stream, c`init, c`initThumb, c`operationTypeThumb
    ensures stream.Valid() && stream.bitPosInByte == 0 && stream.appnFlag && |hv| == 3 && appBits % 8 == 0
    ensures old(stream.readBits) <= stream.readBits <= old(stream.readBits) + 0x10_0000
    ensures r.Next? ==>
      && appBits == appBits0 + 8 * (stream.pCurrPos - old(stream.pCurrPos) - missed)
      && stream.readBits - 8 * stream.pCurrPos == old(stream.readBits - 8 * stream.pCurrPos)
    ensures c.init == (old(c.init) || (code == SOS && r == Next))
    ensures OtherProcess(code) ==> r == Back(Unsupported)
    ensures (found ==> c.initThumb) && (!found ==> c.initThumb == old(c.initThumb))
    ensures var e := InnerEnd(stream.s, code, old(stream.pCurrPos), was);
      e.Some? && old(stream.readBits) + 8 * (e.value - old(stream.pCurrPos)) <= 8 * stream.streamLength ==>
        && r == Next && stream.pCurrPos == e.value && missed == 0
        && (found <==> IsSof(code)) && (!found ==> hv == was)
  {
    r, info, appBits, hv, found, missed := Next, info0, appBits0, was, false, 0;
    if IsSof(code) {
      r, info, appBits, hv, found := InnerFrame(stream, c, code == SOF0, info, appBits, hv);
    } else if code == SOS {
      r, info, missed := InnerScan(stream, c, info);
    } else if HasLength(code) || code == DNL {
      r, appBits, missed := InnerJump(stream, appBits);
    } else if OtherProcess(code) {
      r := Back(Unsupported);
    }
  }

  /** Prefix byte, marker code and segment.  missed is the number of bytes that appBits does not count,
      less the one it counts for a marker code that the stream no longer has. */
  method InnerMarker(stream: StreamStorage, c: JpegDecContainer, info0: ImageInfo, appBits0: nat, was: seq<(nat, nat)>)
    returns (r: Inner, info: ImageInfo, appBits: nat, hv: seq<(nat, nat)>, found: bool, scanned: bool,
             ghost missed: int)
    requires stream.Valid() && stream.bitPosInByte == 0 && stream.appnFlag && |was| == 3 && appBits0 % 8 == 0
    requires stream.readBits <= 8 * stream.streamLength
    modifies stream, c`init, c`initThumb, c`operationTypeThumb
    ensures stream.Valid() && stream.bitPosInByte == 0 && stream.appnFlag && |hv| == 3 && appBits % 8 == 0
    ensures old(stream.readBits) <= stream.readBits <= old(stream.readBits) + 0x11_0000
    ensures r.Next? ==>
      && appBits == appBits0 + 8 * (stream.pCurrPos - old(stream.pCurrPos) - missed)
      && stream.readBits - 8 * stream.pCurrPos == old(stream.readBits - 8 * stream.pCurrPos)
    ensures c.init == (old(c.init) || scanned)
    ensures old(stream.readBits) + 16 <= 8 * stream.streamLength ==>
      var p := old(stream.pCurrPos);
      && p + 1 < |stream.s|
      && (stream.s[p] != 0xFF ==> r == NoPrefix)
      && (stream.s[p] == 0xFF && OtherProcess(stream.s[p + 1]) ==> r == Back(Unsupported))
    ensures (found ==> c.initThumb) && (!found ==> c.initThumb == old(c.initThumb))
    ensures var p := old(stream.pCurrPos);
      var e := MarkerEnd(stream.s, p, was);
      e.Some? && old(stream.readBits) + 8 * (e.value - p) <= 8 * stream.streamLength ==>
        && r == Next && stream.pCurrPos == e.value && missed == 0 && !scanned
        && (found <==> IsSof(stream.s[p + 1])) && (!found ==> hv == was)
  {
    info, appBits, hv, found, scanned, missed := info0, appBits0 + 8, was, false, false, 0;
    var prefix := stream.GetByte();
    if prefix != 0xFF {
      r := NoPrefix;
      return;
    }
    appBits := appBits + 8;
    var code := stream.GetByte();
    r, info, appBits, hv, found, missed := InnerSegment(stream, c, code, info, appBits, hv);
    scanned := code == SOS && r == Next;
    missed := missed - if code == STRM_ERROR then 1 else 0;
  }

  /** Landed: the rest of the segment was flushed.  Errored: errorCode is set.  RanOut: the stream ended.
      Left: the function returned. */
  datatype End = Landed | Errored | RanOut | Left(ret: Failure)

  /** Flush the rest of the thumbnail data and end the loop. */
  method FlushThumbnail(stream: StreamStorage, errorCode: bool, appLength: nat, appBits: nat) returns (end: End)
    requires stream.Valid() && stream.bitPosInByte == 0 && stream.appnFlag
    requires appLength < 0x1_0000 && appBits % 8 == 0
    modifies stream
    ensures stream.Valid() && stream.bitPosInByte == 0 && end != RanOut
    ensures var n := 8 * appLength - appBits;
      if !errorCode && n >= 0 && old(stream.readBits) + n <= 8 * stream.streamLength then
        && end == Landed && !stream.appnFlag
        && stream.pCurrPos == old(stream.pCurrPos) + n / 8 && stream.readBits == old(stream.readBits) + n
      else end != Landed
  {
    if errorCode {
      return Errored;
    }
    var flushed := FlushRest(stream, appLength, appBits);
    stream.appnFlag := false;
    end := match flushed case Fine => Landed case Wild => Left(WildJump) case _ => Errored;
  }

  /** The thumbnail's headers from p on fit: they end inside the segment, which ends at end, and the
      stream does not end before the drifted counter read has passed the segment. */
  predicate HeadersFit(s: seq<byte>, len: nat, p: nat, read: int, end: int, seen: bool, was: seq<(nat, nat)>)
    requires |was| == 3
  {
    match ThumbHeaders(s, p, seen, was)
    case None => false
    case Some((e, n)) => e <= end && read + 8 * (end - p) + n <= 8 * len
  }

  /** The markers of a thumbnail's headers, from the first to the end of the last segment. */
  predicate Mark(s: seq<byte>, seen: bool, was: seq<(nat, nat)>, marks: seq<nat>, i: nat)
    requires |was| == 3 && i + 1 < |marks|
  {
    && MarkerEnd(s, marks[i], was) == Some(marks[i + 1])
    && marks[i + 1] <= marks[|marks| - 1]
    && (i + 2 == |marks| <==> seen || IsSof(s[marks[i] + 1]))
  }

  predicate Marks(s: seq<byte>, p: nat, seen: bool, was: seq<(nat, nat)>, marks: seq<nat>)
    requires |was| == 3
  {
    |marks| >= 2 && marks[0] == p && forall i :: 0 <= i < |marks| - 1 ==> Mark(s, seen, was, marks, i)
  }

  lemma {:induction false} MarksOf(s: seq<byte>, p: nat, seen: bool, was: seq<(nat, nat)>) returns (marks: seq<nat>)
    requires |was| == 3 && ThumbHeaders(s, p, seen, was).Some?
    ensures Marks(s, p, seen, was, marks)
    ensures ThumbHeaders(s, p, seen, was) == Some((marks[|marks| - 1], |marks| - 2))
    decreases |s| - p
  {
    hide MarkerEnd, IsSof;
    var e := MarkerEnd(s, p, was).value;
    if seen || IsSof(s[p + 1]) {
      marks := [p, e];
    } else {
      var rest := MarksOf(s, e, seen, was);
      marks := [p] + rest;
      assert forall i :: 0 <= i < |rest| - 1 ==> Mark(s, seen, was, rest, i);
      assert rest[0] <= rest[|rest| - 1] by { assert Mark(s, seen, was, rest, 0); }
      forall i | 0 <= i < |marks| - 1 ensures Mark(s, seen, was, marks, i) {
        assert i > 0 ==> Mark(s, seen, was, rest, i - 1);
      }
    }
  }

  predicate WholeBytes(bits: nat) { bits % 8 == 0 }

  /** The locals of the loop. */
  datatype Thumb = Thumb(info: ImageInfo, hv: seq<(nat, nat)>, seen: bool, sawScan: bool, errorCode: bool, appBits: nat)

  /** The body of the loop: one marker, and the flush once a frame was seen.  missed is as in InnerMarker. */
  method Round(stream: StreamStorage, c: JpegDecContainer, t0: Thumb, appLength: nat, bufferSize: nat)
    returns (t: Thumb, end: Option<End>, ghost missed: int)
    requires stream.Valid() && stream.bitPosInByte == 0 && stream.appnFlag && appLength < 0x1_0000
    requires |t0.hv| == 3 && WholeBytes(t0.appBits) && (t0.seen ==> c.initThumb) && (t0.sawScan ==> c.init)
    requires stream.readBits <= 8 * stream.streamLength
    modifies stream, c`init, c`initThumb, c`operationTypeThumb
    ensures stream.Valid() && stream.bitPosInByte == 0 && |t.hv| == 3 && (t.seen ==> c.initThumb)
      && (t0.seen ==> t.seen)
    ensures (t.sawScan ==> c.init) && (t0.sawScan ==> t.sawScan) && (!t.sawScan ==> c.init == old(c.init))
    ensures end.None? ==>
      && stream.appnFlag && WholeBytes(t.appBits) && (t0.errorCode ==> t.errorCode)
      && old(stream.readBits) <= stream.readBits <= old(stream.readBits) + 0x11_0000
      && (!t.errorCode ==>
           && t.appBits == t0.appBits + 8 * (stream.pCurrPos - old(stream.pCurrPos) - missed)
           && stream.readBits - 8 * stream.pCurrPos == old(stream.readBits - 8 * stream.pCurrPos))
    ensures end == Some(Landed) ==>
      && !t0.errorCode && t.seen && !stream.appnFlag
      && old(stream.readBits) <= stream.readBits <= 8 * stream.streamLength
      && 8 * (stream.pCurrPos - old(stream.pCurrPos) - missed) == 8 * appLength - t0.appBits
      && stream.readBits - 8 * stream.pCurrPos == old(stream.readBits - 8 * stream.pCurrPos)
    ensures end != Some(RanOut)
    ensures old(stream.readBits) + 16 <= 8 * stream.streamLength ==>
      var p := old(stream.pCurrPos);
      && p + 1 < |stream.s|
      && (stream.s[p] != 0xFF ==>
           end == Some(Left(if !c.initThumb && bufferSize != 0 then IncreaseInputBuffer else StrmError)))
      && (stream.s[p] == 0xFF && OtherProcess(stream.s[p + 1]) ==> end == Some(Left(Unsupported)))
    ensures var p, e := old(stream.pCurrPos), MarkerEnd(stream.s, old(stream.pCurrPos), t0.hv);
      && e.Some? && !t0.errorCode
      && old(stream.readBits) + 8 * (e.value - p) <= 8 * stream.streamLength ==>
        && missed == 0 && t.sawScan == t0.sawScan
        && if t0.seen || IsSof(stream.s[p + 1]) then
             (t0.appBits + 8 * (e.value - p) <= 8 * appLength
              && old(stream.readBits) + 8 * appLength - t0.appBits <= 8 * stream.streamLength
              ==> end == Some(Landed))
           else end.None? && !t.errorCode && !t.seen && t.hv == t0.hv && stream.pCurrPos == e.value
  {
    var r, info, appBits, hv, found, scanned;
    r, info, appBits, hv, found, scanned, missed := InnerMarker(stream, c, t0.info, t0.appBits, t0.hv);
    t := Thumb(info, hv, t0.seen || found, t0.sawScan || scanned, t0.errorCode || r == Failed, appBits);
    end := None;
    if r == NoPrefix {
      end := Some(Left(if !c.initThumb && bufferSize != 0 then IncreaseInputBuffer else StrmError));
    } else if r.Back? {
      end := Some(Left(r.ret));
    } else if c.initThumb && t.seen {
      var last := FlushThumbnail(stream, t.errorCode, appLength, t.appBits);
      end := Some(last);
    }
  }

  /** HeadersFit in terms of the markers. */
  ghost predicate MarksFit(stream: StreamStorage, p: nat, read: int, appLength: nat, seen: bool, was: seq<(nat, nat)>,
                     marks: seq<nat>)
    requires |was| == 3
  {
    && Marks(stream.s, p, seen, was, marks)
    && marks[|marks| - 1] <= p - 8 + appLength
    && read + 8 * (appLength - 8) + |marks| - 2 <= 8 * stream.streamLength
  }

  lemma MarkFacts(stream: StreamStorage, p: nat, read: int, appLength: nat, seen: bool, was: seq<(nat, nat)>,
                  marks: seq<nat>, i: nat)
    requires |was| == 3 && MarksFit(stream, p, read, appLength, seen, was, marks) && i + 1 < |marks|
    ensures |marks| >= 2 && marks[0] == p && marks[i] + 2 <= |stream.s|
    ensures MarkerEnd(stream.s, marks[i], was) == Some(marks[i + 1])
    ensures marks[i] < marks[i + 1] <= marks[|marks| - 1] <= p - 8 + appLength
    ensures i + 2 == |marks| <==> seen || IsSof(stream.s[marks[i] + 1])
    ensures read + 8 * (appLength - 8) + |marks| - 2 <= 8 * stream.streamLength
  {
    assert Mark(stream.s, seen, was, marks, i);
  }

  /** Where the loop began: cursor, counter, what was known, and the length of the segment. */
  datatype Start = Start(p: nat, read: nat, seen: bool, hv: seq<(nat, nat)>, init: bool, appLength: nat)

  /** The head of the loop.  slip is the number of bytes that appBits missed, those of scan headers and of
      segments of length zero, less the byte it counts for a marker code that the stream no longer has. */
  ghost predicate AtRound(stream: StreamStorage, c: JpegDecContainer, t: Thumb, g: Start, marks: seq<nat>,
                          steps: nat, slip: int)
    requires |g.hv| == 3
    reads stream, stream.mem, c
  {
    && stream.Valid() && stream.bitPosInByte == 0 && stream.appnFlag && |t.hv| == 3
    && WholeBytes(t.appBits) && (t.seen ==> c.initThumb) && (g.seen ==> t.seen)
    && (!t.errorCode ==>
         && t.appBits == 8 * (stream.pCurrPos - g.p + 8 - slip)
         && stream.readBits - 8 * stream.pCurrPos == g.read - 8 * g.p + steps)
    && g.read <= stream.readBits <= Max(g.read, 8 * stream.streamLength + 0x12_0000)
    && (t.sawScan ==> c.init) && (!t.sawScan ==> c.init == g.init)
    && (MarksFit(stream, g.p, g.read, g.appLength, g.seen, g.hv, marks) ==>
         && !t.errorCode && slip == 0 && !t.sawScan && t.seen == g.seen && t.hv == g.hv
         && steps + 1 < |marks| && stream.pCurrPos == marks[steps])
  }

  /** The end of the loop. */
  ghost predicate AtEnd(stream: StreamStorage, c: JpegDecContainer, t: Thumb, g: Start, marks: seq<nat>,
                        end: End, steps: nat, slip: int)
    requires |g.hv| == 3
    reads stream, stream.mem, c
  {
    && stream.Valid() && stream.bitPosInByte == 0 && |t.hv| == 3
    && (t.seen ==> c.initThumb) && (g.seen ==> t.seen)
    && (t.sawScan ==> c.init) && (!t.sawScan ==> c.init == g.init)
    && (end == Landed ==> t.seen && stream.pCurrPos == g.p - 8 + g.appLength + slip && !stream.appnFlag)
    && (end == Landed || end == RanOut ==>
         && stream.readBits - 8 * stream.pCurrPos == g.read - 8 * g.p + steps
         && g.read <= stream.readBits <= Max(g.read, 8 * stream.streamLength + 0x12_0000))
    && (MarksFit(stream, g.p, g.read, g.appLength, g.seen, g.hv, marks) ==>
         end == Landed && slip == 0 && !t.sawScan && steps == |marks| - 2)
  }

  /** The `readBits++` of the loop head. */
  method CountUp(stream: StreamStorage)
    requires stream.Valid() && stream.readBits + 1 < TWO32 / 2
    modifies stream`readBits
    ensures stream.Valid() && stream.readBits == old(stream.readBits) + 1
  {
    stream.readBits := stream.readBits + 1;
  }

  /** Once round the loop. */
  method MarkRound(stream: StreamStorage, c: JpegDecContainer, t0: Thumb, appLength: nat, bufferSize: nat,
                   ghost g: Start, ghost marks: seq<nat>, ghost steps0: nat, ghost slip0: int)
    returns (t: Thumb, end: Option<End>, ghost steps: nat, ghost slip: int)
    requires |g.hv| == 3 && g.p >= 8 && g.appLength == appLength < 0x1_0000
    requires AtRound(stream, c, t0, g, marks, steps0, slip0) && stream.readBits / 8 < stream.streamLength
    modifies stream, c`init, c`initThumb, c`operationTypeThumb
    ensures match end
      case None => AtRound(stream, c, t, g, marks, steps, slip) && stream.readBits > old(stream.readBits)
      case Some(e) => AtEnd(stream, c, t, g, marks, e, steps, slip)
  {
    ghost var fits := MarksFit(stream, g.p, g.read, appLength, g.seen, g.hv, marks);
    if fits {
      MarkFacts(stream, g.p, g.read, appLength, g.seen, g.hv, marks, steps0);
      if steps0 + 2 < |marks| {
        MarkFacts(stream, g.p, g.read, appLength, g.seen, g.hv, marks, steps0 + 1);
      }
    }
    hide WholeBytes, MarksFit, Marks, Mark, MarkerEnd, InnerEnd, IsSof;
    ghost var missed;
    t, end, missed := Round(stream, c, t0, appLength, bufferSize);
    steps, slip := steps0, slip0 + missed;
    if end.None? {
      CountUp(stream);
      steps := steps + 1;
    }
  }

  /** The guard fails. */
  lemma RoundsEnd(stream: StreamStorage, c: JpegDecContainer, t: Thumb, g: Start, marks: seq<nat>, steps: nat,
                  slip: int)
    requires |g.hv| == 3 && g.p >= 8
    requires AtRound(stream, c, t, g, marks, steps, slip) && stream.readBits / 8 >= stream.streamLength
    ensures AtEnd(stream, c, t, g, marks, if t.errorCode then Errored else RanOut, steps, slip)
  {
    if MarksFit(stream, g.p, g.read, g.appLength, g.seen, g.hv, marks) {
      MarkFacts(stream, g.p, g.read, g.appLength, g.seen, g.hv, marks, steps);
    }
    hide WholeBytes, MarksFit, Marks, Mark, MarkerEnd, InnerEnd, IsSof;
  }

  lemma FirstRound(stream: StreamStorage, c: JpegDecContainer, t: Thumb, g: Start, marks: seq<nat>)
    requires stream.Valid() && stream.bitPosInByte == 0 && stream.appnFlag && |g.hv| == 3 && (g.seen ==> c.initThumb)
    requires t.hv == g.hv && t.seen == g.seen && !t.sawScan && !t.errorCode && t.appBits == 64
    requires g.p == stream.pCurrPos && g.read == stream.readBits && g.init == c.init
    ensures AtRound(stream, c, t, g, marks, 0, 0)
  {
    if MarksFit(stream, g.p, g.read, g.appLength, g.seen, g.hv, marks) {
      MarkFacts(stream, g.p, g.read, g.appLength, g.seen, g.hv, marks, 0);
    }
    hide MarksFit;
  }

  /** The loop.  The length field of the JFXX segment is 8 bytes before the cursor. */
  method WalkMarks(stream: StreamStorage, c: JpegDecContainer, info0: ImageInfo, hv0: seq<(nat, nat)>, seen0: bool,
              appLength: nat, bufferSize: nat, ghost marks: seq<nat>)
    returns (end: End, t: Thumb, ghost steps: nat, ghost slip: int)
    requires stream.Valid() && stream.bitPosInByte == 0 && stream.appnFlag && |hv0| == 3 && (seen0 ==> c.initThumb)
    requires stream.pCurrPos >= 8 && appLength < 0x1_0000
    modifies stream, c`init, c`initThumb, c`operationTypeThumb
    ensures AtEnd(stream, c, t, Start(old(stream.pCurrPos), old(stream.readBits), seen0, hv0, old(c.init), appLength),
                  marks, end, steps, slip)
  {
    t := Thumb(info0, hv0, seen0, false, false, 64);
    steps, slip := 0, 0;
    ghost var g := Start(stream.pCurrPos, stream.readBits, seen0, hv0, c.init, appLength);
    FirstRound(stream, c, t, g, marks);
    hide AtRound, AtEnd;
    while stream.readBits / 8 < stream.streamLength
      invariant AtRound(stream, c, t, g, marks, steps, slip)
      decreases 8 * stream.streamLength + 8 - stream.readBits
    {
      var last;
      t, last, steps, slip := MarkRound(stream, c, t, appLength, bufferSize, g, marks, steps, slip);
      if last.Some? {
        end := last.value;
        return;
      }
    }
    RoundsEnd(stream, c, t, g, marks, steps, slip);
    end := if t.errorCode then Errored else RanOut;
  }

  /** The loop, without the markers. */
  method Walk(stream: StreamStorage, c: JpegDecContainer, info0: ImageInfo, hv0: seq<(nat, nat)>, seen0: bool,
              appLength: nat, bufferSize: nat)
    returns (end: End, t: Thumb, ghost steps: nat, ghost slip: int)
    requires stream.Valid() && stream.bitPosInByte == 0 && stream.appnFlag && |hv0| == 3 && (seen0 ==> c.initThumb)
    requires stream.pCurrPos >= 8 && appLength < 0x1_0000
    modifies stream, c`init, c`initThumb, c`operationTypeThumb
    ensures stream.Valid() && stream.bitPosInByte == 0 && |t.hv| == 3
    ensures (t.seen ==> c.initThumb) && (seen0 ==> t.seen)
    ensures (t.sawScan ==> c.init) && (!t.sawScan ==> c.init == old(c.init))
    ensures end == Landed ==>
      && t.seen && stream.pCurrPos == old(stream.pCurrPos) - 8 + appLength + slip && !stream.appnFlag
    ensures end == Landed || end == RanOut ==>
      && stream.readBits - 8 * stream.pCurrPos == old(stream.readBits - 8 * stream.pCurrPos) + steps
      && old(stream.readBits) <= stream.readBits <= Max(old(stream.readBits), 8 * stream.streamLength + 0x12_0000)
    ensures HeadersFit(stream.s, stream.streamLength, old(stream.pCurrPos), old(stream.readBits),
                       old(stream.pCurrPos) - 8 + appLength, seen0, hv0)
      ==> end == Landed && slip == 0 && !t.sawScan
          && steps == ThumbHeaders(stream.s, old(stream.pCurrPos), seen0, hv0).value.1
  {
    ghost var marks := [];
    if ThumbHeaders(stream.s, stream.pCurrPos, seen0, hv0).Some? {
      marks := MarksOf(stream.s, stream.pCurrPos, seen0, hv0);
    }
    end, t, steps, slip := WalkMarks(stream, c, info0, hv0, seen0, appLength, bufferSize, marks);
  }
}
