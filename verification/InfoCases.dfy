/** The marker cases of JpegDecGetImageInfo as they act on its local variables: application segments with
    the thumbnail loop, restart interval, scan header, and the dispatch over them. */
module InfoCases {
  import opened Common
  import opened FrameGeometry
  import opened StreamReader
  import opened HeaderSyntax
  import opened Container
  import opened InfoSegments
  import opened App0
  import opened Thumbnails

  /** The local variables that live across markers; hv and hvThumb are the arrays H, V, Htn and Vtn. */
  datatype Locals = Locals(info: ImageInfo, hv: seq<(nat, nat)>, hvThumb: seq<(nat, nat)>,
                           thumbnail: bool, initThumb: bool, init: bool, currentByte: nat)

  predicate Proper(w: Locals) { |w.hv| == 3 && |w.hvThumb| == 3 }

  /** Fall out of the switch, with errorCode set or not, or return. */
  datatype Outcome = Go | ErrorCode | Return(ret: Failure)

  function OutcomeOf(code: Code): Outcome {
    match code
    case Fine => Go
    case Short => ErrorCode
    case Refused => Return(Unsupported)
    case Wild => Return(WildJump)
  }

  // ---- APP0

  /** An APP0 segment of 16 bytes or more, its length read and checked. */
  method LongApp0(stream: StreamStorage, c: JpegDecContainer, w0: Locals, appLength: nat, bufferSize: nat)
    returns (out: Outcome, w: Locals, ghost steps: nat, ghost slip: int)
    requires stream.Valid() && stream.bitPosInByte == 0 && 2 <= stream.pCurrPos && 16 <= appLength < 0x1_0000
    requires stream.readBits + 8 * appLength - 16 <= 8 * stream.streamLength
    requires Proper(w0) && (w0.initThumb ==> c.initThumb) && (w0.init ==> c.init)
    modifies stream, c`init, c`initThumb, c`operationTypeThumb
    ensures stream.Valid() && stream.bitPosInByte == 0 && Proper(w) && w.hv == w0.hv
    ensures (w.init ==> c.init) && (w.initThumb ==> c.initThumb)
    ensures out == Go ==>
      && stream.readBits - 8 * stream.pCurrPos == old(stream.readBits - 8 * stream.pCurrPos) + steps
      && old(stream.readBits) <= stream.readBits <= 8 * stream.streamLength + 0x12_0000
    ensures var s, q := stream.s, old(stream.pCurrPos) - 2;
      && w.thumbnail == StillThumb(s, q, w0.thumbnail) && w.currentByte == LeftByte(s, q, w0.thumbnail)
      && (KindOf(s, q, w0.thumbnail) != JpegExtension ==>
           && out == Go && steps == 0 && stream.pCurrPos == q + appLength
           && stream.readBits == old(stream.readBits) + 8 * appLength - 16
           && w.init == w0.init && c.init == old(c.init) && SameGeometry(w.info, w0.info))
      && (KindOf(s, q, w0.thumbnail) == JpegExtension
          && HeadersFit(s, stream.streamLength, q + 8, old(stream.readBits) + 48, q + appLength,
                        w0.initThumb, w0.hvThumb) ==>
           && out == Go && stream.pCurrPos == q + appLength
           && steps == ThumbHeaders(s, q + 8, w0.initThumb, w0.hvThumb).value.1
           && stream.readBits == old(stream.readBits) + 8 * appLength - 16 + steps)
  {
    var code, kind, info, thumbnail, currentByte := Identify(stream, w0.info, w0.thumbnail, appLength);
    w := w0.(info := info, thumbnail := thumbnail, currentByte := currentByte);
    steps, slip := 0, 0;
    out := Go;
    if kind == JpegExtension {
      var end, t;
      end, t, steps, slip := Walk(stream, c, info, w0.hvThumb, w0.initThumb, appLength, bufferSize);
      w := w.(info := t.info, hvThumb := t.hv, initThumb := t.seen, init := w.init || t.sawScan);
      out := match end case Landed => Go case RanOut => Go case Errored => ErrorCode case Left(ret) => Return(ret);
    }
  }

  /** An APP0 segment too short for JFIF, its length read and checked. */
  method ShortApp0(stream: StreamStorage, appLength: nat) returns (out: Outcome)
    requires stream.Valid() && stream.bitPosInByte == 0 && appLength < 16
    requires stream.readBits + 8 * appLength - 16 <= 8 * stream.streamLength
    modifies stream
    ensures stream.Valid() && stream.bitPosInByte == 0
    ensures if appLength < 2 then out == Return(WildJump)
            else out == Go && stream.pCurrPos == old(stream.pCurrPos) + appLength - 2
                 && stream.readBits == old(stream.readBits) + 8 * (appLength - 2)
  {
    stream.appnFlag := true;
    var code := FlushRest(stream, appLength, 16);
    out := OutcomeOf(code);
  }

  /** The APP0 case.  Every branch that falls out of the switch without an error lands on the end of the
      segment; those with a thumbnail whose headers do not fit may not. */
  method App0Segment(stream: StreamStorage, c: JpegDecContainer, w0: Locals, bufferSize: nat)
    returns (out: Outcome, w: Locals, ghost steps: nat, ghost slip: int)
    requires stream.Valid() && stream.bitPosInByte == 0 && stream.readBits <= 8 * stream.streamLength
    requires Proper(w0) && (w0.initThumb ==> c.initThumb) && (w0.init ==> c.init)
    modifies stream, c`init, c`initThumb, c`operationTypeThumb
    ensures stream.Valid() && stream.bitPosInByte == 0 && Proper(w) && w.hv == w0.hv
    ensures (w.init ==> c.init) && (w.initThumb ==> c.initThumb)
    ensures out == Go ==>
      && stream.readBits - 8 * stream.pCurrPos == old(stream.readBits - 8 * stream.pCurrPos) + steps
      && old(stream.readBits) <= stream.readBits <= 8 * stream.streamLength + 0x12_0000
    ensures var s, q, r, len := stream.s, old(stream.pCurrPos), old(stream.readBits), stream.streamLength;
      if r + 16 > 8 * len || (Be16(s, q) >= 2 && r + 8 * Be16(s, q) > 8 * len)
      then out == ErrorCode && w.init == w0.init
      else if Be16(s, q) < 2 then out == Return(WildJump) && w.init == w0.init
      else if Be16(s, q) < 16 then
        && out == Go && steps == 0 && stream.pCurrPos == q + Be16(s, q) && w == w0.(currentByte := APP0)
        && c.init == old(c.init)
      else
        var l, kind := Be16(s, q), KindOf(s, q, w0.thumbnail);
        && w.thumbnail == StillThumb(s, q, w0.thumbnail) && w.currentByte == LeftByte(s, q, w0.thumbnail)
        && (kind != JpegExtension ==>
             && out == Go && steps == 0 && stream.pCurrPos == q + l
             && w.init == w0.init && c.init == old(c.init) && SameGeometry(w.info, w0.info))
        && (kind == JpegExtension && HeadersFit(s, len, q + 8, r + 64, q + l, w0.initThumb, w0.hvThumb) ==>
             && out == Go && stream.pCurrPos == q + l
             && steps == ThumbHeaders(s, q + 8, w0.initThumb, w0.hvThumb).value.1)
  {
    hide KindOf, LeftByte, StillThumb, HeadersFit, ThumbHeaders, TooLong, SameGeometry;
    w, steps, slip := w0.(currentByte := APP0), 0, 0;
    stream.appnFlag := false;
    var appLength := stream.Get2Bytes();
    if appLength != STRM_ERROR {
      TooLongIs(stream.readBits, appLength, stream.streamLength);
    }
    if appLength == STRM_ERROR || TooLong(stream.readBits, appLength, stream.streamLength) {
      return ErrorCode, w, 0, 0;
    }
    if appLength < 16 {
      out := ShortApp0(stream, appLength);
      return;
    }
    out, w, steps, slip := LongApp0(stream, c, w, appLength, bufferSize);
  }

  // ---- DRI, SOS

  /** The DRI case: the restart interval is range-checked as if it were another length. */
  method RestartInterval(stream: StreamStorage, c: JpegDecContainer) returns (out: Outcome)
    requires stream.Valid() && stream.bitPosInByte == 0
    modifies stream, c`restart
    ensures stream.Valid() && stream.bitPosInByte == 0 && stream.appnFlag == old(stream.appnFlag)
    ensures var s, q, r, len := stream.s, old(stream.pCurrPos), old(stream.readBits), stream.streamLength;
      if r + 32 <= 8 * len && !TooLong(r + 16, Be16(s, q), len) && !TooLong(r + 32, Be16(s, q + 2), len) then
        out == Go && c.restart == Be16(s, q + 2) && stream.pCurrPos == q + 4 && stream.readBits == r + 32
      else out == ErrorCode && c.restart == old(c.restart)
  {
    var headerLength := stream.Get2Bytes();
    if headerLength == STRM_ERROR || TooLong(stream.readBits, headerLength, stream.streamLength) {
      return ErrorCode;
    }
    headerLength := stream.Get2Bytes();
    if headerLength == STRM_ERROR || TooLong(stream.readBits, headerLength, stream.streamLength) {
      return ErrorCode;
    }
    c.restart := headerLength;
    out := Go;
  }

  /** Bits read when the SOS case asks whether a byte of scan data follows: it has skipped the header from
      one byte too far. */
  function ScanBits(s: seq<byte>, len: nat, q: nat, r: nat): int
    requires q + 2 <= |s|
  {
    r + (if r + 24 <= 8 * len then 24 else 16) + if Be16(s, q) >= 2 then 8 * Be16(s, q) - 16 else 0
  }

  /** A scan of one component makes a baseline image that is not grey non-interleaved. */
  function ModeAfterScan(info: ImageInfo, ns: nat): OpType {
    if ns == 1 && info.outputFormat != Some(Yuv400) && info.codingMode == Baseline then NonInterleaved
    else info.codingMode
  }

  predicate ModeStep(s: seq<byte>, q: nat, info0: ImageInfo, info: ImageInfo, op0: OpType, op: OpType) {
    && q + 2 < |s| && info == info0.(codingMode := ModeAfterScan(info0, s[q + 2]))
    && op == if info == info0 then op0 else NonInterleaved
  }

  /** The SOS case. */
  method ScanHeader(stream: StreamStorage, c: JpegDecContainer, w0: Locals) returns (out: Outcome, w: Locals)
    requires stream.Valid() && stream.bitPosInByte == 0 && stream.readBits <= 8 * stream.streamLength
    modifies stream, c`init, c`operationType
    ensures stream.Valid() && stream.bitPosInByte == 0 && stream.appnFlag == old(stream.appnFlag)
    ensures w == w0.(info := w0.info.(codingMode := w.info.codingMode), init := w.init)
    ensures out == Go ==>
      && w.init && c.init
      && stream.readBits - 8 * stream.pCurrPos == old(stream.readBits - 8 * stream.pCurrPos)
      && old(stream.readBits) <= stream.readBits <= 8 * stream.streamLength
    ensures out != Go ==> c.init == old(c.init) && w.init == w0.init
    ensures var s, q, r, len := stream.s, old(stream.pCurrPos), old(stream.readBits), stream.streamLength;
      if r + 16 > 8 * len || (Be16(s, q) >= 2 && r + 8 * Be16(s, q) > 8 * len) then out == ErrorCode
      else if Be16(s, q) == 1 then out == Return(WildJump)
      else out == if ScanBits(s, len, q, r) + 8 < 8 * len then Go else Return(IncreaseInputBuffer)
    ensures out == Go ==>
      ModeStep(stream.s, old(stream.pCurrPos), w0.info, w.info, old(c.operationType), c.operationType)
  {
    hide TooLong;
    w := w0;
    var headerLength := stream.Get2Bytes();
    if headerLength != STRM_ERROR {
      TooLongIs(stream.readBits, headerLength, stream.streamLength);
    }
    if headerLength == STRM_ERROR || TooLong(stream.readBits, headerLength, stream.streamLength) {
      return ErrorCode, w;
    }
    var ns := stream.GetByte();
    if ns == 1 && w.info.outputFormat != Some(Yuv400) && w.info.codingMode == Baseline {
      w := w.(info := w.info.(codingMode := NonInterleaved));
      c.operationType := NonInterleaved;
    }
    out, w := SkipScan(stream, c, w, headerLength);
  }

  /** Jump over the header and see that a byte of scan data follows. */
  method SkipScan(stream: StreamStorage, c: JpegDecContainer, w0: Locals, headerLength: nat)
    returns (out: Outcome, w: Locals)
    requires stream.Valid() && stream.bitPosInByte == 0 && headerLength < 0x1_0000
    requires stream.readBits <= 8 * stream.streamLength
    modifies stream, c`init
    ensures stream.Valid() && stream.bitPosInByte == 0 && stream.appnFlag == old(stream.appnFlag)
    ensures stream.readBits - 8 * stream.pCurrPos == old(stream.readBits - 8 * stream.pCurrPos)
    ensures stream.readBits == old(stream.readBits) + if headerLength >= 2 then 8 * headerLength - 16 else 0
    ensures w == w0.(init := w.init)
    ensures if headerLength == 1 then out == Return(WildJump)
            else out == if stream.readBits + 8 < 8 * stream.streamLength then Go else Return(IncreaseInputBuffer)
    ensures if out == Go then w.init && c.init else w.init == w0.init && c.init == old(c.init)
  {
    w := w0;
    if headerLength == 1 {
      return Return(WildJump), w;
    }
    if headerLength != 0 {
      stream.readBits := stream.readBits + (headerLength * 8 - 16);
      stream.pCurrPos := stream.pCurrPos + (headerLength * 8 - 16) / 8;
    }
    if stream.readBits + 8 < 8 * stream.streamLength {
      c.init := true;
      return Go, w.(init := true);
    }
    out := Return(IncreaseInputBuffer);
  }
}
