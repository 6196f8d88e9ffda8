/** The marker cases of JpegDecGetImageInfo that need more than the length of their segment: the frame
    header and the restart interval, and the jump shared by the others. */
module InfoSegments {
  import opened Common
  import opened Destuffing
  import opened FrameGeometry
  import opened StreamReader
  import opened Container

  /** Fine, errorCode = 1, `return JPEGDEC_UNSUPPORTED`, or a wild pointer. */
  datatype Code = Fine | Short | Refused | Wild

  /** `readBits + ((headerLength * 8) - 16) > 8 * streamLength`, in RK_U32. */
  predicate TooLong(read: nat, n: nat, len: nat) {
    (read + (8 * n - 16) % TWO32) % TWO32 > 8 * len
  }

  lemma TooLongIs(read: nat, n: nat, len: nat)
    requires 16 <= read < TWO32 / 2 && n < 0x1_0000 && 64 * len < TWO32
    ensures TooLong(read, n, len) <==> read + 8 * n - 16 > 8 * len
  {
  }

  /** The body of the DQT, DHT, APPn, DNL and COM cases: read the length, check it, jump. */
  method JumpSegment(stream: StreamStorage) returns (code: Code)
    requires stream.Valid() && stream.bitPosInByte == 0
    modifies stream
    ensures stream.Valid() && stream.bitPosInByte == 0 && stream.appnFlag == old(stream.appnFlag)
    ensures stream.readBits - 8 * stream.pCurrPos == old(stream.readBits - 8 * stream.pCurrPos)
    ensures stream.readBits >= old(stream.readBits)
    ensures var q, r, len := old(stream.pCurrPos), old(stream.readBits) + 16, stream.streamLength;
      if r > 8 * len then code == Short && stream.pCurrPos == q
      else
        var l := Be16(stream.s, q);
        if l == 1 then code == Wild
        else if l >= 2 && r + 8 * l - 16 > 8 * len then code == Short && stream.pCurrPos == q + 2
        else code == Fine && stream.pCurrPos == if l == 0 then q + 2 else q + l
  {
    var headerLength := stream.Get2Bytes();
    if headerLength == STRM_ERROR || TooLong(stream.readBits, headerLength, stream.streamLength) {
      return Short;
    }
    if headerLength != 0 {
      if headerLength == 1 {
        return Wild;
      }
      stream.readBits := stream.readBits + (headerLength * 8 - 16);
      stream.pCurrPos := stream.pCurrPos + (headerLength * 8 - 16) / 8;
    }
    return Fine;
  }

  // ---- SOF0 and SOF2

  /** Where FlushBits(8) goes from a byte boundary. */
  function Skip(s: seq<byte>, appn: bool, p: nat): (q: nat)
    ensures q > p
  {
    if appn then p + 1 else Next(s, p)
  }

  /** Cursor after a component specification: identifier, factors, table selector. */
  function CompEnd(s: seq<byte>, appn: bool, p: nat): (q: nat)
    ensures q >= p + 3
  {
    Skip(s, appn, Skip(s, appn, p) + 1)
  }

  /** Cursor after the first n of at most three. */
  function CompsEnd(s: seq<byte>, appn: bool, p: nat, n: nat): (q: nat)
    ensures q >= p && (n <= 3 ==> q >= p + 3 * n)
  {
    if n == 0 then p
    else if n == 1 then CompEnd(s, appn, p)
    else if n == 2 then CompEnd(s, appn, CompEnd(s, appn, p))
    else CompEnd(s, appn, CompEnd(s, appn, CompEnd(s, appn, p)))
  }

  /** The factors byte of specification i. */
  function FactorsAt(s: seq<byte>, appn: bool, p: nat, i: nat): (nat, nat) {
    var a := Skip(s, appn, CompsEnd(s, appn, p, i));
    if a < |s| then (s[a] as int / 16, s[a] as int % 16) else (0, 0)
  }

  /** The slots after reading n of them. */
  function Slots(s: seq<byte>, appn: bool, p: nat, n: nat, was: seq<(nat, nat)>): (r: seq<(nat, nat)>)
    requires |was| == 3
    ensures |r| == 3
  {
    seq(3, i requires 0 <= i < 3 => if i < n then FactorsAt(s, appn, p, i) else was[i])
  }

  method FormatFrom(k: seq<(nat, nat)>) returns (fmt: Option<Format>)
    requires |k| == 3
    ensures fmt == InfoFormat(k)
  {
    if k[0] == (2, 2) && k[1] == (1, 1) && k[2] == (1, 1) {
      return Some(Yuv420);
    } else if k[0] == (2, 1) && k[1] == (1, 1) && k[2] == (1, 1) {
      return Some(Yuv422);
    } else if k[0] == (1, 2) && k[1] == (1, 1) && k[2] == (1, 1) {
      return Some(Yuv440);
    } else if k[0] == (1, 1) && k[1] == (0, 0) && k[2] == (0, 0) {
      return Some(Yuv400);
    } else if k[0] == (4, 1) && k[1] == (1, 1) && k[2] == (1, 1) {
      return Some(Yuv411);
    } else if k[0] == (1, 1) && k[1] == (1, 1) && k[2] == (1, 1) {
      return Some(Yuv444);
    }
    return None;
  }

  /** The body of the component loop; read tells whether it got as far as storing H and V. */
  method OneComponent(stream: StreamStorage) returns (ok: bool, read: bool, h: nat, v: nat)
    requires stream.Valid() && stream.bitPosInByte == 0
    modifies stream
    ensures stream.Valid() && stream.bitPosInByte == 0 && stream.appnFlag == old(stream.appnFlag)
    ensures var p, a := old(stream.pCurrPos), Skip(stream.s, old(stream.appnFlag), old(stream.pCurrPos));
      var end := CompEnd(stream.s, old(stream.appnFlag), p);
      if ok then
        && stream.pCurrPos == end <= stream.streamLength + 1 && a < |stream.s| && read
        && (h, v) == (stream.s[a] as int / 16, stream.s[a] as int % 16)
        && stream.readBits == old(stream.readBits) + 8 * (end - p)
      else old(stream.readBits) + 8 * (end - p) > 8 * stream.streamLength == stream.readBits
  {
    read, h, v := false, 0, 0;
    ok := stream.FlushBits(8);
    if ok {
      assert Advance(stream.s, old(stream.pCurrPos), 1) == Next(stream.s, old(stream.pCurrPos));
      assert stream.pCurrPos == Skip(stream.s, stream.appnFlag, old(stream.pCurrPos));
      label L:
      var currentByte := stream.GetByte();
      read, h, v := true, currentByte / 16, currentByte % 16;
      ghost var b := stream.pCurrPos;
      ok := stream.FlushBits(8);
      assert Advance(stream.s, b, 1) == Next(stream.s, b);
    }
  }

  /** The component loop; hv are the arrays H and V. */
  method Components(stream: StreamStorage, nf: nat, was: seq<(nat, nat)>)
    returns (ok: bool, hv: seq<(nat, nat)>, hmax: nat, vmax: nat)
    requires stream.Valid() && stream.bitPosInByte == 0 && 0 < nf <= 3 && |was| == 3
    modifies stream
    ensures stream.Valid() && stream.bitPosInByte == 0 && stream.appnFlag == old(stream.appnFlag) && |hv| == 3
    ensures ok && (hmax == 0 || vmax == 0) ==> InfoFormat(hv) == None
    ensures var p, end := old(stream.pCurrPos), CompsEnd(stream.s, old(stream.appnFlag), old(stream.pCurrPos), nf);
      if ok then
        && stream.pCurrPos == end && hv == Slots(stream.s, stream.appnFlag, p, nf, was)
        && stream.readBits == old(stream.readBits) + 8 * (end - p)
      else old(stream.readBits) + 8 * (end - p) > 8 * stream.streamLength == stream.readBits
  {
    hide CompsEnd, Slots, CompEnd;
    ghost var s, p, appn, r := stream.s, stream.pCurrPos, stream.appnFlag, stream.readBits;
    CompsStart(s, appn, p, was);
    ok, hv, hmax, vmax := true, was, 0, 0;
    var j := 0;
    while j < nf
      invariant j <= nf && stream.Valid() && stream.bitPosInByte == 0 && stream.appnFlag == appn
      invariant |hv| == 3 && hv == Slots(s, appn, p, j, was)
      invariant stream.pCurrPos == CompsEnd(s, appn, p, j) && stream.readBits == r + 8 * (stream.pCurrPos - p)
      invariant j > 0 ==> hmax >= hv[0].0 && vmax >= hv[0].1
    {
      CompsGrow(s, appn, p, j, nf);
      ghost var next := CompsEnd(s, appn, p, j + 1);
      assert next <= CompsEnd(s, appn, p, nf);
      var read, h, v;
      ok, read, h, v := OneComponent(stream);
      if read {
        hv := hv[j := (h, v)];
      }
      if !ok {
        return;
      }
      assert stream.pCurrPos == next;
      assert (h, v) == FactorsAt(s, appn, p, j);
      SlotsGrow(s, appn, p, j, was);
      assert hv == Slots(s, appn, p, j + 1, was);
      hmax := Max(hmax, h);
      vmax := Max(vmax, v);
      j := j + 1;
    }
  }

  lemma CompsStart(s: seq<byte>, appn: bool, p: nat, was: seq<(nat, nat)>)
    requires |was| == 3
    ensures CompsEnd(s, appn, p, 0) == p && Slots(s, appn, p, 0, was) == was
  {
  }

  lemma SlotsGrow(s: seq<byte>, appn: bool, p: nat, j: nat, was: seq<(nat, nat)>)
    requires |was| == 3 && j < 3
    ensures Slots(s, appn, p, j + 1, was) == Slots(s, appn, p, j, was)[j := FactorsAt(s, appn, p, j)]
  {
  }

  lemma CompsGrow(s: seq<byte>, appn: bool, p: nat, j: nat, n: nat)
    requires j < n <= 3
    ensures CompsEnd(s, appn, p, j + 1) <= CompsEnd(s, appn, p, n)
    ensures CompsEnd(s, appn, p, j + 1) == CompEnd(s, appn, CompsEnd(s, appn, p, j))
  {
  }

  /** The frame header at q, its components starting from the given slots. */
  function GeometryAt(s: seq<byte>, appn: bool, q: nat, was: seq<(nat, nat)>): Option<Geometry>
    requires q + 8 <= |s| && |was| == 3
  {
    if s[q + 7] == 1 || s[q + 7] == 3
    then InfoOf(s[q + 2], Be16(s, q + 3), Be16(s, q + 5), s[q + 7], Slots(s, appn, q + 8, s[q + 7], was))
    else None
  }

  ghost predicate HasGeometry(c: JpegDecContainer, info: ImageInfo, g: Geometry)
    reads c
  {
    && c.getInfoYCbCrMode == info.outputFormat == Some(g.format)
    && c.hwX == info.outputWidth == g.hwX && c.hwY == info.outputHeight == g.hwY
    && c.numMcuInRow == g.mcuInRow && c.numMcuInFrame == g.mcuInFrame
  }

  /** The first half of the SOF0 and SOF2 cases: length, precision, size and number of components. */
  method FrameSize(stream: StreamStorage, c: JpegDecContainer, info0: ImageInfo)
    returns (code: Code, info: ImageInfo, nf: nat)
    requires stream.Valid() && stream.bitPosInByte == 0
    modifies stream, c`hwX, c`hwY
    ensures stream.Valid() && stream.bitPosInByte == 0 && stream.appnFlag == old(stream.appnFlag)
    ensures stream.readBits >= old(stream.readBits) && code != Wild
    ensures var s, q, r, len := stream.s, old(stream.pCurrPos), old(stream.readBits), stream.streamLength;
      if r + 16 > 8 * len || TooLong(r + 16, Be16(s, q), len) then code == Short
      else if r + 64 > 8 * len then code == Refused
      else if GoodSize(s, q) then
        && code == Fine && nf == s[q + 7] && stream.pCurrPos == q + 8 && stream.readBits == r + 64
        && info == info0.(displayHeight := Be16(s, q + 3), displayWidth := Be16(s, q + 5),
                          outputHeight := Align16(Be16(s, q + 3)), outputWidth := Align16(Be16(s, q + 5)))
        && c.hwX == info.outputWidth && c.hwY == info.outputHeight
      else code == Refused
  {
    info, nf := info0, 0;
    var headerLength := stream.Get2Bytes();
    if headerLength == STRM_ERROR || TooLong(stream.readBits, headerLength, stream.streamLength) {
      return Short, info, nf;
    }
    var precision := stream.GetByte();
    if precision != 8 {
      return Refused, info, nf;
    }
    var y := stream.Get2Bytes();
    info := info.(displayHeight := y);
    if y < 1 {
      return Refused, info, nf;
    }
    c.hwY := Align16(y);
    info := info.(outputHeight := c.hwY);
    var x := stream.Get2Bytes();
    info := info.(displayWidth := x);
    if x < 1 {
      return Refused, info, nf;
    }
    c.hwX := Align16(x);
    info := info.(outputWidth := c.hwX);
    if !Supported(c.hwX, c.hwY) {
      return Refused, info, nf;
    }
    nf := stream.GetByte();
    if nf != 3 && nf != 1 {
      return Refused, info, nf;
    }
    code := Fine;
  }

  /** The end of these cases: the format decides the padding and the number of MCUs. */
  method FrameFormat(c: JpegDecContainer, info0: ImageInfo, hv: seq<(nat, nat)>) returns (ok: bool, info: ImageInfo)
    requires |hv| == 3 && Supported(info0.outputWidth, info0.outputHeight)
    requires c.hwX == info0.outputWidth && c.hwY == info0.outputHeight
    modifies c`hwX, c`getInfoYCbCrMode, c`numMcuInRow, c`numMcuInFrame
    ensures match InfoFormat(hv)
      case None => !ok
      case Some(fmt) =>
        var w, h := PadWidth(fmt, info0.outputWidth), info0.outputHeight;
        && (ok <==> Supported(w, h))
        && (ok ==> HasGeometry(c, info, GeometryOf(fmt, w, h))
                   && info == info0.(outputWidth := w, outputFormat := Some(fmt)))
  {
    info := info0;
    var fmt := FormatFrom(hv);
    if fmt.None? {
      return false, info;
    }
    if fmt == Some(Yuv411) {
      if info.outputWidth % 32 != 0 {
        info := info.(outputWidth := info.outputWidth + 16);
        c.hwX := info.outputWidth;
      }
      if info.outputWidth > MAX_SIZE || info.outputWidth * info.outputHeight > MAX_PIXELS_8190 {
        return false, info;
      }
    }
    info := info.(outputFormat := fmt);
    c.numMcuInRow := c.hwX / McuWidth(fmt.value);
    c.numMcuInFrame := c.hwX * c.hwY / McuArea(fmt.value);
    c.getInfoYCbCrMode := info.outputFormat;
    ok := true;
  }

  predicate GoodSize(s: seq<byte>, q: nat)
    requires q + 8 <= |s|
  {
    && s[q + 2] == 8 && Be16(s, q + 3) >= 1 && Be16(s, q + 5) >= 1 && (s[q + 7] == 1 || s[q + 7] == 3)
    && Supported(Align16(Be16(s, q + 5)), Align16(Be16(s, q + 3)))
  }

  lemma GeometryNeedsSize(s: seq<byte>, appn: bool, q: nat, was: seq<(nat, nat)>)
    requires |was| == 3
    ensures q + 8 <= |s| && !GoodSize(s, q) ==> GeometryAt(s, appn, q, was) == None
  {
  }

  lemma GeometryNeedsFormat(s: seq<byte>, appn: bool, q: nat, was: seq<(nat, nat)>)
    requires |was| == 3 && q + 8 <= |s| && GoodSize(s, q)
    ensures var w, h := Align16(Be16(s, q + 5)), Align16(Be16(s, q + 3));
      GeometryAt(s, appn, q, was) == match InfoFormat(Slots(s, appn, q + 8, s[q + 7], was))
        case None => None
        case Some(fmt) => if Supported(PadWidth(fmt, w), h) then Some(GeometryOf(fmt, PadWidth(fmt, w), h)) else None
  {
  }

  /** Bits up to the end of the component specifications of the frame header at q. */
  function FrameBits(s: seq<byte>, appn: bool, q: nat): int
    requires q + 8 <= |s|
  {
    if s[q + 7] == 1 || s[q + 7] == 3 then 8 * (CompsEnd(s, appn, q + 8, s[q + 7]) - q) else 64
  }

  /** The SOF0 and SOF2 cases. */
  method FrameHeader(stream: StreamStorage, c: JpegDecContainer, baseline: bool, info0: ImageInfo,
                     was: seq<(nat, nat)>)
    returns (code: Code, info: ImageInfo, hv: seq<(nat, nat)>)
    requires stream.Valid() && stream.bitPosInByte == 0 && |was| == 3
    modifies stream, c`operationType, c`getInfoYCbCrMode, c`hwX, c`hwY, c`numMcuInRow, c`numMcuInFrame
    ensures stream.Valid() && stream.bitPosInByte == 0 && stream.appnFlag == old(stream.appnFlag) && |hv| == 3
    ensures code != Wild
    ensures var s, q, r, len := stream.s, old(stream.pCurrPos), old(stream.readBits), stream.streamLength;
      if r + 16 > 8 * len || TooLong(r + 16, Be16(s, q), len) then code == Short
      else if r + 64 > 8 * len then code == Refused
      else
        var g := GeometryAt(s, stream.appnFlag, q, was);
        && (r + FrameBits(s, stream.appnFlag, q) <= 8 * len ==> code == if g.Some? then Fine else Refused)
        && (code == Fine ==>
             && g.Some? && HasGeometry(c, info, g.value)
             && stream.readBits == r + FrameBits(s, stream.appnFlag, q)
             && stream.pCurrPos == CompsEnd(s, stream.appnFlag, q + 8, s[q + 7])
             && hv == Slots(s, stream.appnFlag, q + 8, s[q + 7], was)
             && c.operationType == info.codingMode == (if baseline then Baseline else Progressive)
             && info.displayWidth == Be16(s, q + 5) && info.displayHeight == Be16(s, q + 3))
  {
    hide Slots, CompsEnd, InfoFormat, PadWidth, GeometryOf, HasGeometry, GeometryAt, Supported, Align16, TooLong;
    hv := was;
    c.operationType := if baseline then Baseline else Progressive;
    var nf;
    code, info, nf := FrameSize(stream, c, info0.(codingMode := c.operationType));
    if code != Fine {
      GeometryNeedsSize(stream.s, stream.appnFlag, old(stream.pCurrPos), was);
      return;
    }
    GeometryNeedsFormat(stream.s, stream.appnFlag, old(stream.pCurrPos), was);
    code, info, hv := FrameFactors(stream, c, info, nf, was);
  }

  /** The second half: components, then format. */
  method FrameFactors(stream: StreamStorage, c: JpegDecContainer, info0: ImageInfo, nf: nat, was: seq<(nat, nat)>)
    returns (code: Code, info: ImageInfo, hv: seq<(nat, nat)>)
    requires stream.Valid() && stream.bitPosInByte == 0 && |was| == 3 && 0 < nf <= 3
    requires Supported(info0.outputWidth, info0.outputHeight)
    requires c.hwX == info0.outputWidth && c.hwY == info0.outputHeight
    modifies stream, c`hwX, c`getInfoYCbCrMode, c`numMcuInRow, c`numMcuInFrame
    ensures stream.Valid() && stream.bitPosInByte == 0 && stream.appnFlag == old(stream.appnFlag) && |hv| == 3
    ensures code != Wild
    ensures var s, p, r, len := stream.s, old(stream.pCurrPos), old(stream.readBits), stream.streamLength;
      var end, k := CompsEnd(s, stream.appnFlag, p, nf), Slots(s, stream.appnFlag, p, nf, was);
      && (r + 8 * (end - p) <= 8 * len ==> code == if Fits(k, info0) then Fine else Refused)
      && (code == Fine ==>
           && Fits(k, info0) && HasGeometry(c, info, Fitted(k, info0))
           && stream.readBits == r + 8 * (end - p) && stream.pCurrPos == end && hv == k
           && info == info0.(outputWidth := c.hwX, outputFormat := InfoFormat(k)))
  {
    var ok, hmax, vmax, fine;
    ok, hv, hmax, vmax := Components(stream, nf, was);
    if hmax == 0 || vmax == 0 {
      return Refused, info0, hv;
    }
    fine, info := FrameFormat(c, info0, hv);
    code := if !fine then Refused else if ok then Fine else Short;
  }

  /** The factors k make a format that fits. */
  predicate Fits(k: seq<(nat, nat)>, info: ImageInfo)
    requires |k| == 3
  {
    InfoFormat(k).Some? && Supported(PadWidth(InfoFormat(k).value, info.outputWidth), info.outputHeight)
  }

  function Fitted(k: seq<(nat, nat)>, info: ImageInfo): Geometry
    requires |k| == 3 && Fits(k, info)
  {
    GeometryOf(InfoFormat(k).value, PadWidth(InfoFormat(k).value, info.outputWidth), info.outputHeight)
  }
}
