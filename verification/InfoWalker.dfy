/** JpegDecGetImageInfo: the marker loop, and the headers it accepts. */
module InfoWalker {
  import opened Common
  import opened FrameGeometry
  import opened StreamReader
  import opened HeaderSyntax
  import opened Container
  import opened InfoSegments
  import opened App0
  import opened InfoCases
  import opened TableSegments

  const NO_FACTORS: seq<(nat, nat)> := [(0, 0), (0, 0), (0, 0)]

  // ---- One segment

  /** What Segment asks of a segment, without the tables it fills. */
  predicate WellFormed(s: seq<byte>, len: nat, q: nat, c: nat, jfxx: bool)
    requires len <= |s| && q + 2 <= len
  {
    var l := Be16(s, q);
    && 2 <= l <= len - q && HasLength(c)
    && (IsSof(c) ==> WellFormedSof(s, len, q))
    && (c == DRI ==> l == 4)
    && (c == APP0 && l >= 16 ==> !TakenForThumbnail(s, q, jfxx))
  }

  lemma SegmentFacts(s: seq<byte>, len: nat, q: nat, c: nat, h: Header)
    requires len <= |s| && q + 2 <= len && HasLength(c) && Segment(s, len, q, c, h).Some?
    ensures WellFormed(s, len, q, c, h.jfxx) && (IsSof(c) ==> h.sof.None?)
    ensures var g := Segment(s, len, q, c, h).value;
      && g.jfxx == AfterApp0(s, q, c, h.jfxx) && g.sof == (if IsSof(c) then Some(q) else h.sof)
      && g.ri == (if c == DRI then Some(Be16(s, q + 2)) else h.ri)
  {
  }

  /** The thumbnail flag after a segment. */
  predicate AfterApp0(s: seq<byte>, q: nat, c: nat, jfxx: bool)
    requires q + 2 <= |s| && q + Be16(s, q) <= |s|
  {
    if c == APP0 && Be16(s, q) >= 16 then StillThumb(s, q, jfxx) else jfxx
  }

  /** The case leaves currentByte at FF, so that the next byte is taken for a marker code. */
  predicate LeavesPrefix(s: seq<byte>, q: nat, c: nat, jfxx: bool)
    requires q + 2 <= |s| && q + Be16(s, q) <= |s|
  {
    c == APP0 && Be16(s, q) >= 16 && LeftByte(s, q, jfxx) == 0xFF
  }

  /** The walker gets through a well-formed segment when r bits are on the counter at its length field. */
  predicate Passes(s: seq<byte>, len: nat, q: nat, c: nat, r: nat)
    requires len <= |s| && q + 2 <= len && q + Be16(s, q) <= len
    requires (IsSof(c) ==> WellFormedSof(s, len, q)) && (c == DRI ==> Be16(s, q) == 4)
  {
    && r + 8 * Be16(s, q) <= 8 * len
    && (IsSof(c) ==> InfoFrame(SofAt(s, q)).Some?)
    && (c == DRI ==> !TooLong(r + 32, Be16(s, q + 2), len))
  }

  /** No pair FF 00 in a well-formed frame header, so that it is read as it stands. */
  lemma SofIsPlain(s: seq<byte>, len: nat, appn: bool, q: nat)
    requires len + 1 < |s| && WellFormedSof(s, len, q)
    ensures var nf := s[q + 7] as nat;
      && CompsEnd(s, appn, q + 8, nf) == q + Be16(s, q)
      && Slots(s, appn, q + 8, nf, NO_FACTORS) == Factors(SofAt(s, q).comps)
      && forall i :: 0 <= i < nf ==> FactorsAt(s, appn, q + 8, i) == (SofAt(s, q).comps[i].h, SofAt(s, q).comps[i].v)
  {
    var nf, k := s[q + 7] as nat, SofAt(s, q).comps;
    PlainTo(s, len, appn, q, 0);
    if nf == 3 {
      PlainTo(s, len, appn, q, 1);
      PlainTo(s, len, appn, q, 2);
    }
    forall i | 0 <= i < nf ensures FactorsAt(s, appn, q + 8, i) == (k[i].h, k[i].v) {
      PlainTo(s, len, appn, q, i);
    }
  }

  /** The first i specifications are read as they stand, and so is the factors byte of the next. */
  lemma PlainTo(s: seq<byte>, len: nat, appn: bool, q: nat, i: nat)
    requires len + 1 < |s| && WellFormedSof(s, len, q) && i < s[q + 7] as nat
    ensures CompsEnd(s, appn, q + 8, i) == q + 8 + 3 * i && CompsEnd(s, appn, q + 8, i + 1) == q + 11 + 3 * i
    ensures Skip(s, appn, q + 8 + 3 * i) == q + 9 + 3 * i
  {
    PlainOne(s, len, appn, q, 0);
    if i > 0 {
      PlainOne(s, len, appn, q, 1);
      PlainOne(s, len, appn, q, 2);
    }
  }

  lemma PlainOne(s: seq<byte>, len: nat, appn: bool, q: nat, i: nat)
    requires len + 1 < |s| && WellFormedSof(s, len, q) && i < s[q + 7] as nat
    ensures CompEnd(s, appn, q + 8 + 3 * i) == q + 11 + 3 * i
    ensures Skip(s, appn, q + 8 + 3 * i) == q + 9 + 3 * i
  {
    assert s[q + 9 + 3 * i] <= 0x44 && s[q + 10 + 3 * i] < 4;
    assert !(s[q + 8 + 3 * i] == 0xFF && s[q + 9 + 3 * i] == 0);
  }

  lemma SameGeometryAt(s: seq<byte>, len: nat, appn: bool, q: nat)
    requires len + 1 < |s| && WellFormedSof(s, len, q)
    ensures GeometryAt(s, appn, q, NO_FACTORS) == InfoFrame(SofAt(s, q))
    ensures FrameBits(s, appn, q) == 8 * Be16(s, q) && CompsEnd(s, appn, q + 8, s[q + 7]) == q + Be16(s, q)
    ensures Be16(s, q) == 11 || Be16(s, q) == 17
  {
    SofIsPlain(s, len, appn, q);
  }

  /** A frame header of n bytes that is read as it stands and comes to geometry g. */
  predicate PlainFrame(s: seq<byte>, appn: bool, q: nat, n: nat, g: Option<Geometry>) {
    && q + 8 <= |s| && n == Be16(s, q) && n >= 8
    && GeometryAt(s, appn, q, NO_FACTORS) == g
    && FrameBits(s, appn, q) == 8 * n && CompsEnd(s, appn, q + 8, s[q + 7]) == q + n
  }

  lemma PlainFrameIs(s: seq<byte>, appn: bool, q: nat, n: nat, g: Option<Geometry>)
    requires PlainFrame(s, appn, q, n, g)
    ensures q + 8 <= |s| && n == Be16(s, q) && n >= 8 && GeometryAt(s, appn, q, NO_FACTORS) == g
    ensures FrameBits(s, appn, q) == 8 * n && CompsEnd(s, appn, q + 8, s[q + 7]) == q + n
  {
  }

  lemma FrameBitsAre(s: seq<byte>, appn: bool, q: nat, was: seq<(nat, nat)>)
    requires |was| == 3
    ensures q + 8 <= |s| && GeometryAt(s, appn, q, was).Some? ==>
      64 <= FrameBits(s, appn, q) == 8 * (CompsEnd(s, appn, q + 8, s[q + 7]) - q) <= 200
  {
  }

  /** The SOF0 and SOF2 cases.  The ghost parameters say what a well-formed frame header is. */
  method FrameCase(stream: StreamStorage, c: JpegDecContainer, code: nat, w0: Locals,
                   ghost wf: bool, ghost n: nat, ghost g: Option<Geometry>)
    returns (out: Outcome, w: Locals)
    requires stream.Valid() && stream.bitPosInByte == 0 && IsSof(code) && Proper(w0)
    requires stream.readBits <= 8 * stream.streamLength
    requires wf ==> w0.hv == NO_FACTORS && PlainFrame(stream.s, stream.appnFlag, stream.pCurrPos, n, g)
    modifies stream, c`operationType, c`getInfoYCbCrMode, c`hwX, c`hwY, c`numMcuInRow, c`numMcuInFrame
    ensures stream.Valid() && stream.bitPosInByte == 0 && Proper(w)
    ensures w == w0.(info := w.info, hv := w.hv, currentByte := 0)
    ensures out == Go ==>
      && stream.readBits - 8 * stream.pCurrPos == old(stream.readBits - 8 * stream.pCurrPos)
      && old(stream.readBits) <= stream.readBits <= 8 * stream.streamLength + 0x100
    ensures wf ==>
      var q, r := old(stream.pCurrPos), old(stream.readBits);
      if r + 8 * n <= 8 * stream.streamLength && g.Some? then
        && out == Go && stream.pCurrPos == q + n && HasGeometry(c, w.info, g.value)
        && w.info.displayWidth == Be16(stream.s, q + 5) && w.info.displayHeight == Be16(stream.s, q + 3)
        && c.operationType == w.info.codingMode == SofMode(code)
      else out != Go
  {
    hide GeometryAt, FrameBits, CompsEnd, Slots, PlainFrame, HasGeometry, TooLong;
    if wf {
      PlainFrameIs(stream.s, stream.appnFlag, stream.pCurrPos, n, g);
      TooLongIs(stream.readBits + 16, n, stream.streamLength);
    }
    FrameBitsAre(stream.s, stream.appnFlag, stream.pCurrPos, w0.hv);
    var code_, info, hv := FrameHeader(stream, c, code == SOF0, w0.info, w0.hv);
    out := OutcomeOf(code_);
    w := w0.(info := info, hv := hv, currentByte := 0);   // the last factors byte, which is not FF
  }

  /** The APP0 case on a well-formed segment. */
  method App0Case(stream: StreamStorage, c: JpegDecContainer, w0: Locals, bufferSize: nat, ghost wf: bool)
    returns (out: Outcome, w: Locals, ghost steps: nat)
    requires stream.Valid() && stream.bitPosInByte == 0 && stream.readBits <= 8 * stream.streamLength
    requires Proper(w0) && (w0.initThumb ==> c.initThumb) && (w0.init ==> c.init)
    requires wf ==> stream.pCurrPos + 2 <= stream.streamLength
                    && WellFormed(stream.s, stream.streamLength, stream.pCurrPos, APP0, w0.thumbnail)
    modifies stream, c`init, c`initThumb, c`operationTypeThumb
    ensures stream.Valid() && stream.bitPosInByte == 0 && Proper(w) && w.hv == w0.hv
    ensures (w.init ==> c.init) && (w.initThumb ==> c.initThumb)
    ensures out == Go ==>
      && stream.readBits - 8 * stream.pCurrPos == old(stream.readBits - 8 * stream.pCurrPos) + steps
      && old(stream.readBits) <= stream.readBits <= 8 * stream.streamLength + 0x12_0000
    ensures wf ==>
      var s, q, r, len := stream.s, old(stream.pCurrPos), old(stream.readBits), stream.streamLength;
      if r + 8 * Be16(s, q) <= 8 * len then
        && out == Go && steps == 0 && stream.pCurrPos == q + Be16(s, q)
        && w.init == w0.init && c.init == old(c.init) && SameGeometry(w.info, w0.info)
        && w.thumbnail == AfterApp0(s, q, APP0, w0.thumbnail)
        && (w.currentByte == 0xFF <==> LeavesPrefix(s, q, APP0, w0.thumbnail))
      else out != Go && w.init == w0.init
  {
    ghost var slip;
    out, w, steps, slip := App0Segment(stream, c, w0, bufferSize);
  }

  /** Everything but the frame header and the scan header. */
  method OtherCase(stream: StreamStorage, c: JpegDecContainer, code: nat, w0: Locals, bufferSize: nat, ghost wf: bool)
    returns (out: Outcome, w: Locals, ghost steps: nat)
    requires stream.Valid() && stream.bitPosInByte == 0 && stream.readBits <= 8 * stream.streamLength
    requires Proper(w0) && (w0.initThumb ==> c.initThumb) && (w0.init ==> c.init) && w0.currentByte == code
    requires (HasLength(code) && !IsSof(code)) || code == DNL
    requires wf ==> stream.pCurrPos + 2 <= stream.streamLength
                    && WellFormed(stream.s, stream.streamLength, stream.pCurrPos, code, w0.thumbnail)
    modifies stream, c`init, c`initThumb, c`operationTypeThumb, c`restart
    ensures stream.Valid() && stream.bitPosInByte == 0 && Proper(w) && w.hv == w0.hv
    ensures (w.init ==> c.init) && (w.initThumb ==> c.initThumb)
    ensures out == Go ==>
      && stream.readBits - 8 * stream.pCurrPos == old(stream.readBits - 8 * stream.pCurrPos) + steps
      && old(stream.readBits) <= stream.readBits <= 8 * stream.streamLength + 0x12_0000
    ensures wf ==>
      var s, q, r, len := stream.s, old(stream.pCurrPos), old(stream.readBits), stream.streamLength;
      if Passes(s, len, q, code, r) then
        && out == Go && steps == 0 && stream.pCurrPos == q + Be16(s, q)
        && w.init == w0.init && c.init == old(c.init) && SameGeometry(w.info, w0.info)
        && w.thumbnail == AfterApp0(s, q, code, w0.thumbnail)
        && (w.currentByte == 0xFF <==> LeavesPrefix(s, q, code, w0.thumbnail))
        && c.restart == if code == DRI then Be16(s, q + 2) else old(c.restart)
      else out != Go && w.init == w0.init
  {
    w, steps := w0, 0;
    if code == DRI {
      out := RestartInterval(stream, c);
    } else if code == APP0 {
      out, w, steps := App0Case(stream, c, w, bufferSize, wf);
    } else {
      var jump := JumpSegment(stream);
      out := OutcomeOf(jump);
    }
  }

  /** The geometry that the frame header, if this is one, has left behind. */
  ghost predicate FrameKnown(s: seq<byte>, c: JpegDecContainer, info: ImageInfo, sof: Option<nat>)
    reads c
  {
    sof.Some? ==>
      && 1 <= sof.value && sof.value + 8 <= |s| && sof.value + 8 + 3 * s[sof.value + 7] as int <= |s|
      && InfoFrame(SofAt(s, sof.value)).Some? && HasGeometry(c, info, InfoFrame(SofAt(s, sof.value)).value)
      && info.displayWidth == SofAt(s, sof.value).x && info.displayHeight == SofAt(s, sof.value).y
  }

  function SofMode(code: nat): OpType { if code == SOF0 then Baseline else Progressive }

  /** The coding mode is that of the frame header's marker. */
  ghost predicate ModeKnown(s: seq<byte>, c: JpegDecContainer, info: ImageInfo, sof: Option<nat>)
    reads c
  {
    sof.Some? ==> 1 <= sof.value <= |s| && c.operationType == info.codingMode == SofMode(s[sof.value - 1])
  }

  /** The coding mode once the scan header is read too. */
  ghost predicate ScanModeKnown(s: seq<byte>, c: JpegDecContainer, info: ImageInfo, sof: Option<nat>, sos: nat)
    reads c
  {
    sof.Some? ==>
      && 1 <= sof.value <= |s| && sos + 2 < |s| && c.operationType == info.codingMode
      && info.codingMode == ModeAfterScan(info.(codingMode := SofMode(s[sof.value - 1])), s[sos + 2])
  }

  ghost predicate KnownAt(s: seq<byte>, c: JpegDecContainer, info: ImageInfo, q: nat)
    reads c
  {
    FrameKnown(s, c, info, Some(q)) && ModeKnown(s, c, info, Some(q))
  }

  /** The frame header case on a well-formed frame header. */
  method SofCase(stream: StreamStorage, c: JpegDecContainer, code: nat, w0: Locals, ghost wf: bool)
    returns (out: Outcome, w: Locals)
    requires stream.Valid() && stream.bitPosInByte == 0 && IsSof(code) && Proper(w0)
    requires stream.readBits <= 8 * stream.streamLength
    requires wf ==> stream.pCurrPos + 2 <= stream.streamLength && w0.hv == NO_FACTORS
                    && WellFormedSof(stream.s, stream.streamLength, stream.pCurrPos)
                    && 1 <= stream.pCurrPos && stream.s[stream.pCurrPos - 1] == code
    modifies stream, c`operationType, c`getInfoYCbCrMode, c`hwX, c`hwY, c`numMcuInRow, c`numMcuInFrame
    ensures stream.Valid() && stream.bitPosInByte == 0 && Proper(w)
    ensures w == w0.(info := w.info, hv := w.hv, currentByte := 0)
    ensures out == Go ==>
      && stream.readBits - 8 * stream.pCurrPos == old(stream.readBits - 8 * stream.pCurrPos)
      && old(stream.readBits) <= stream.readBits <= 8 * stream.streamLength + 0x100
    ensures wf ==>
      var s, q, r := stream.s, old(stream.pCurrPos), old(stream.readBits);
      if r + 8 * Be16(s, q) <= 8 * stream.streamLength && InfoFrame(SofAt(s, q)).Some? then
        && out == Go && stream.pCurrPos == q + Be16(s, q) && KnownAt(s, c, w.info, q)
      else out != Go
  {
    ghost var n, g := 0, None;
    if wf {
      n, g := Be16(stream.s, stream.pCurrPos), InfoFrame(SofAt(stream.s, stream.pCurrPos));
      SameGeometryAt(stream.s, stream.streamLength, stream.appnFlag, stream.pCurrPos);
    }
    out, w := FrameCase(stream, c, code, w0, wf, n, g);
  }

  /** What a step does to the two counters: they drift apart by the readBits++ steps. */
  twostate predicate Drifts(stream: StreamStorage, steps: nat)
    reads stream
  {
    stream.readBits - 8 * stream.pCurrPos == old(stream.readBits - 8 * stream.pCurrPos) + steps
  }

  /** What passing a marker of this code, with its segment at q, leaves in the container and the locals. */
  twostate predicate Carried(s: seq<byte>, c: JpegDecContainer, w0: Locals, w: Locals, code: nat, q: nat)
    requires HasLength(code) ==> q + 2 <= |s| && q + Be16(s, q) <= |s| && (code == DRI ==> Be16(s, q) == 4)
    reads c
  {
    && w.thumbnail == (if HasLength(code) then AfterApp0(s, q, code, w0.thumbnail) else w0.thumbnail)
    && c.restart == (if code == DRI then Be16(s, q + 2) else old(c.restart))
    && if IsSof(code) then KnownAt(s, c, w.info, q)
       else
         && SameGeometry(w.info, w0.info) && w.hv == w0.hv
         && unchanged(c`operationType, c`getInfoYCbCrMode, c`hwX, c`hwY, c`numMcuInRow, c`numMcuInFrame)
  }

  /** What a scan header at q leaves. */
  twostate predicate ScanCarried(s: seq<byte>, c: JpegDecContainer, w0: Locals, w: Locals, q: nat)
    reads c
  {
    && c.restart == old(c.restart) && ModeStep(s, q, w0.info, w.info, old(c.operationType), c.operationType)
    && unchanged(c`getInfoYCbCrMode, c`hwX, c`hwY, c`numMcuInRow, c`numMcuInFrame)
  }

  /** The switch on a marker code.  sos is the index of the length field of an accepted scan header. */
  method Switch(stream: StreamStorage, c: JpegDecContainer, code: nat, w0: Locals, bufferSize: nat, ghost wf: bool)
    returns (out: Outcome, w: Locals, ghost steps: nat, ghost sos: Option<nat>)
    requires stream.Valid() && stream.bitPosInByte == 0 && stream.readBits <= 8 * stream.streamLength
    requires Proper(w0) && (w0.initThumb ==> c.initThumb) && !w0.init && w0.currentByte == code
    requires wf ==>
      && stream.pCurrPos + 2 <= stream.streamLength && HasLength(code)
      && WellFormed(stream.s, stream.streamLength, stream.pCurrPos, code, w0.thumbnail)
      && (IsSof(code) ==> w0.hv == NO_FACTORS && 1 <= stream.pCurrPos && stream.s[stream.pCurrPos - 1] == code)
    modifies stream, c`init, c`initThumb, c`operationType, c`operationTypeThumb, c`getInfoYCbCrMode,
             c`hwX, c`hwY, c`numMcuInRow, c`numMcuInFrame, c`restart
    ensures stream.Valid() && stream.bitPosInByte == 0 && Proper(w)
    ensures (w.init ==> c.init) && (w.initThumb ==> c.initThumb)
    ensures out == Go ==>
      && Drifts(stream, steps)
      && old(stream.readBits) <= stream.readBits <= 8 * stream.streamLength + 0x12_0000
    ensures sos.Some? <==> code == SOS && out == Go
    ensures sos.Some? ==> w.init && sos.value == old(stream.pCurrPos)
    ensures !HasLength(code) && !OtherProcess(code) && code != SOS && code != DNL ==>
      out == Go && w == w0 && steps == 0 && unchanged(stream) && unchanged(c)
    ensures OtherProcess(code) ==> out == Return(Unsupported) && unchanged(c)
    ensures code == SOS ==>
      var s, q, r, len := stream.s, old(stream.pCurrPos), old(stream.readBits), stream.streamLength;
      && (q + 2 <= len && Be16(s, q) >= 2 ==>
           (out == Go <==> r + 8 * Be16(s, q) <= 8 * len && r + 8 * Be16(s, q) + 16 < 8 * len))
      && (out == Go ==> w == w0.(info := w.info, init := true) && ScanCarried(s, c, w0, w, q))
      && (out != Go ==> w.init == w0.init)
    ensures wf ==>
      var s, q, r, len := stream.s, old(stream.pCurrPos), old(stream.readBits), stream.streamLength;
      if Passes(s, len, q, code, r) then
        && out == Go && steps == 0 && stream.pCurrPos == q + Be16(s, q)
        && !w.init && c.init == old(c.init) && Carried(s, c, w0, w, code, q)
        && (w.currentByte == 0xFF <==> LeavesPrefix(s, q, code, w0.thumbnail))
      else out != Go && !w.init
  {
    w, steps, sos, out := w0, 0, None, Go;
    if IsSof(code) {
      out, w := SofCase(stream, c, code, w, wf);
    } else if code == SOS {
      sos := Some(stream.pCurrPos);
      ghost var r := stream.readBits;
      out, w := ScanHeader(stream, c, w);
      sos := if out == Go then sos else None;
    } else if HasLength(code) || code == DNL {
      out, w, steps := OtherCase(stream, c, code, w, bufferSize, wf);
    } else if OtherProcess(code) {
      out := Return(Unsupported);
    }
  }

  // ---- The loop

  /** Where a head of the loop stands with respect to a marker at v, with k steps behind it: before the
      prefix byte; after it, because the last byte read was a fill byte; or, when an APP0 segment left FF in
      currentByte, before it but taking it for a marker code. */
  ghost predicate Stands(stream: StreamStorage, w: Locals, v: nat, k: int)
    reads stream
  {
    if w.currentByte != 0xFF then stream.pCurrPos == v && stream.readBits == 8 * v + k
    else if stream.pCurrPos == v + 1 then stream.readBits == 8 * v + 8 + k
    else stream.pCurrPos == v && stream.readBits == 8 * v + k - 1
  }

  /** It takes the prefix byte for a marker code. */
  ghost predicate TakesPrefix(stream: StreamStorage, w: Locals, v: nat, k: nat)
    reads stream
  {
    w.currentByte == 0xFF && stream.pCurrPos == v && 8 * v + 7 + k <= 8 * stream.streamLength
  }

  /** Markers that this walker passes although they end the headers. */
  predicate Ignored(c: nat) { c == EOI || c == TEM }

  /** A last marker at which this walker stops: a scan, a process that is refused, or one it passes with no
      prefix byte behind it. */
  predicate Stopping(s: seq<byte>, len: nat, v: nat)
    requires len <= |s| && v + 2 <= len
  {
    var c, q := s[v + 1] as nat, v + 2;
    || (c == SOS && q + 2 <= len && Be16(s, q) >= 2)
    || OtherProcess(c)
    || (Ignored(c) && (q >= len || s[q] != 0xFF))
  }

  /** A marker that the headers go on from, or end with. */
  predicate GoodMarker(s: seq<byte>, len: nat, v: nat, jfxx: bool)
    requires len <= |s|
  {
    && v + 2 <= len && s[v] == 0xFF
    && var c, q := s[v + 1] as nat, v + 2;
      if HasLength(c) then q + 2 <= len && WellFormed(s, len, q, c, jfxx)
      else c == 0xFF || Standalone(c) || Stopping(s, len, v)
  }

  /** The marker at v can be read when k steps were taken, and the walker gets through its segment. */
  predicate MarkerPasses(s: seq<byte>, len: nat, v: nat, k: nat, jfxx: bool)
    requires len <= |s| && GoodMarker(s, len, v, jfxx)
  {
    var c, q := s[v + 1] as nat, v + 2;
    && 8 * q + k <= 8 * len
    && (HasLength(c) ==> Passes(s, len, q, c, 8 * q + k))
    && (c == SOS ==> 8 * (q + Be16(s, q)) + k <= 8 * len && 8 * (q + Be16(s, q)) + k + 16 < 8 * len)
  }

  /** The next marker, and the steps taken by then. */
  function MarkerAfter(s: seq<byte>, len: nat, v: nat): nat
    requires len <= |s| && v + 2 <= len && (HasLength(s[v + 1]) ==> v + 4 <= len)
  {
    var c, q := s[v + 1] as nat, v + 2;
    if c == 0xFF then v + 1 else if HasLength(c) then q + Be16(s, q) else q
  }

  function StepsAfter(s: seq<byte>, len: nat, v: nat, k: nat, jfxx: bool): nat
    requires len <= |s| && GoodMarker(s, len, v, jfxx)
  {
    k + if HasLength(s[v + 1]) && LeavesPrefix(s, v + 2, s[v + 1], jfxx) then 2 else 1
  }

  /** No prefix byte is there to be read. */
  ghost predicate NoMore(stream: StreamStorage, w: Locals)
    reads stream
  {
    && w.currentByte != 0xFF
    && (stream.readBits + 8 > 8 * stream.streamLength
        || (stream.pCurrPos < |stream.s| && stream.s[stream.pCurrPos] != 0xFF))
  }

  /** At the prefix of a marker without parameters, or of one whose code cannot be read. */
  ghost predicate AtPlain(stream: StreamStorage, w: Locals)
    reads stream
  {
    && w.currentByte != 0xFF && stream.readBits + 8 <= 8 * stream.streamLength
    && stream.pCurrPos + 1 < |stream.s| && stream.s[stream.pCurrPos] == 0xFF
    && (stream.readBits + 16 <= 8 * stream.streamLength ==> Standalone(stream.s[stream.pCurrPos + 1]))
  }

  /** Past such a marker, or at the end. */
  twostate predicate PastPlain(stream: StreamStorage, c: JpegDecContainer, w: Locals, steps: nat)
    reads stream, c
  {
    && w.currentByte != 0xFF && steps == 1 && c.init == old(c.init)
    && stream.pCurrPos
       == old(stream.pCurrPos) + if old(stream.readBits) + 16 <= 8 * stream.streamLength then 2 else 1
  }

  /** Prefix and code of a marker; no prefix byte is read if currentByte is FF.  ok is false if there is
      none where it should be. */
  method MarkerCode(stream: StreamStorage, w: Locals, ghost wf: bool, ghost v: nat, ghost k: nat)
    returns (ok: bool, code: nat)
    requires stream.Valid() && stream.bitPosInByte == 0 && stream.readBits < 8 * stream.streamLength
    requires wf ==> Stands(stream, w, v, k) && v + 2 <= stream.streamLength && stream.s[v] == 0xFF
    modifies stream
    ensures stream.Valid() && stream.bitPosInByte == 0
    ensures old(stream.readBits) <= stream.readBits <= 8 * stream.streamLength
    ensures stream.readBits - 8 * stream.pCurrPos == old(stream.readBits - 8 * stream.pCurrPos)
    ensures old(NoMore(stream, w)) ==> !ok
    ensures old(AtPlain(stream, w)) ==>
      && ok
      && if old(stream.readBits) + 16 <= 8 * stream.streamLength
         then code == stream.s[old(stream.pCurrPos) + 1] && stream.pCurrPos == old(stream.pCurrPos) + 2
         else code == STRM_ERROR && stream.pCurrPos == old(stream.pCurrPos) + 1
    ensures wf ==>
      if w.currentByte == 0xFF && old(stream.pCurrPos) == v && 8 * v + 7 + k <= 8 * stream.streamLength then
        ok && code == 0xFF && stream.pCurrPos == v + 1
      else if 8 * (v + 2) + k <= 8 * stream.streamLength then
        ok && code == stream.s[v + 1] && stream.pCurrPos == v + 2 && stream.readBits == 8 * (v + 2) + k
      else ok ==> code == STRM_ERROR && stream.readBits + 8 > 8 * stream.streamLength
  {
    if w.currentByte != 0xFF {
      var prefix := stream.GetByte();
      if prefix != 0xFF {
        return false, prefix;
      }
    }
    ok := true;
    code := stream.GetByte();
  }

  /** End of the body: the loop goes on, has found the scan, or the function returned. */
  datatype Turn = Onward | Found | Left(ret: Failure)

  /** What follows the switch. */
  method Decide(stream: StreamStorage, c: JpegDecContainer, outcome: Outcome, w: Locals, bufferSize: nat)
    returns (out: Turn)
    requires stream.Valid() && (outcome == Go ==> stream.readBits + 1 < TWO32 / 2) && (w.init ==> c.init)
    modifies stream`readBits
    ensures stream.Valid()
    ensures out == match outcome
      case Return(ret) => Left(ret)
      case ErrorCode => if w.init then Found else Left(if bufferSize != 0 then IncreaseInputBuffer else StrmError)
      case Go => if w.init then Found else Onward
    ensures stream.readBits == old(stream.readBits) + if out == Onward then 1 else 0
  {
    if outcome.Return? {
      return Left(outcome.ret);
    }
    if c.init && w.init {
      return Found;
    }
    if outcome == ErrorCode {
      return Left(if bufferSize != 0 then IncreaseInputBuffer else StrmError);
    }
    stream.readBits := stream.readBits + 1;
    out := Onward;
  }

  /** The rest of the body once the marker code has been read. */
  method AfterCode(stream: StreamStorage, c: JpegDecContainer, code: nat, w0: Locals, bufferSize: nat,
                   ghost wf: bool, ghost v: nat, ghost k: nat)
    returns (out: Turn, w: Locals, ghost steps: nat, ghost sos: Option<nat>)
    requires stream.Valid() && stream.bitPosInByte == 0 && stream.readBits <= 8 * stream.streamLength
    requires Proper(w0) && (w0.initThumb ==> c.initThumb) && !w0.init && w0.currentByte == code
    requires wf ==>
      && GoodMarker(stream.s, stream.streamLength, v, w0.thumbnail) && code == stream.s[v + 1]
      && stream.pCurrPos == v + 2 && stream.readBits == 8 * (v + 2) + k
      && (IsSof(code) ==> w0.hv == NO_FACTORS)
    modifies stream, c`init, c`initThumb, c`operationType, c`operationTypeThumb, c`getInfoYCbCrMode,
             c`hwX, c`hwY, c`numMcuInRow, c`numMcuInFrame, c`restart
    ensures stream.Valid() && stream.bitPosInByte == 0 && Proper(w)
    ensures out == Onward ==> !w.init && (w.initThumb ==> c.initThumb)
    ensures out == Onward ==>
      && Drifts(stream, steps)
      && stream.readBits > old(stream.readBits) && steps > 0
    ensures out == Found ==> c.init
    ensures sos.Some? ==>
      out == Found && Drifts(stream, steps)
    ensures code == 0xFF || code == STRM_ERROR || Standalone(code) || Ignored(code) ==>
      out == Onward && w == w0 && stream.pCurrPos == old(stream.pCurrPos) && steps == 1 && unchanged(c)
    ensures wf && !MarkerPasses(stream.s, stream.streamLength, v, k, w0.thumbnail) ==> out.Left?
    ensures wf && MarkerPasses(stream.s, stream.streamLength, v, k, w0.thumbnail) ==>
      if code == SOS then
        out == Found && sos == Some(v + 2) && ScanCarried(stream.s, c, w0, w, v + 2)
      else if OtherProcess(stream.s[v + 1]) then out == Left(Unsupported)
      else
        && out == Onward && c.init == old(c.init) && Carried(stream.s, c, w0, w, stream.s[v + 1], v + 2)
        && Stands(stream, w, MarkerAfter(stream.s, stream.streamLength, v),
                  StepsAfter(stream.s, stream.streamLength, v, k, w0.thumbnail))
  {
    hide AfterApp0, WellFormedSof, KnownAt, Be16;
    var outcome;
    outcome, w, steps, sos := Switch(stream, c, code, w0, bufferSize, wf && HasLength(code));
    out := Decide(stream, c, outcome, w, bufferSize);
    sos, steps := if out == Found then sos else None, if out == Onward then steps + 1 else steps;
  }

  /** The body of the loop and its increment. */
  method OneTurn(stream: StreamStorage, c: JpegDecContainer, w0: Locals, bufferSize: nat,
                 ghost wf: bool, ghost v: nat, ghost k: nat)
    returns (out: Turn, w: Locals, ghost steps: nat, ghost sos: Option<nat>)
    requires stream.Valid() && stream.bitPosInByte == 0 && stream.readBits < 8 * stream.streamLength
    requires Proper(w0) && (w0.initThumb ==> c.initThumb) && !w0.init
    requires wf ==>
      && Stands(stream, w0, v, k) && GoodMarker(stream.s, stream.streamLength, v, w0.thumbnail)
      && (IsSof(stream.s[v + 1]) ==> w0.hv == NO_FACTORS)
    modifies stream, c`init, c`initThumb, c`operationType, c`operationTypeThumb, c`getInfoYCbCrMode,
             c`hwX, c`hwY, c`numMcuInRow, c`numMcuInFrame, c`restart
    ensures stream.Valid() && stream.bitPosInByte == 0 && Proper(w)
    ensures out == Onward ==> !w.init && (w.initThumb ==> c.initThumb)
    ensures out == Onward ==>
      && Drifts(stream, steps)
      && stream.readBits > old(stream.readBits) && steps > 0
    ensures out == Found ==> c.init
    ensures sos.Some? ==>
      out == Found && Drifts(stream, steps)
    ensures old(NoMore(stream, w0)) ==> out == Left(if old(c.init) then StrmError else IncreaseInputBuffer)
    ensures old(AtPlain(stream, w0)) ==> out == Onward && PastPlain(stream, c, w, steps)
    ensures wf && out == Onward && !old(TakesPrefix(stream, w0, v, k)) && Ignored(stream.s[v + 1]) ==>
      w.currentByte != 0xFF
    ensures wf && old(TakesPrefix(stream, w0, v, k)) ==>
      out == Onward && w == w0 && Stands(stream, w, v, k) && stream.pCurrPos == v + 1 && unchanged(c)
    ensures wf && !old(TakesPrefix(stream, w0, v, k))
            && !MarkerPasses(stream.s, stream.streamLength, v, k, w0.thumbnail) ==>
      && out != Found
      && (out == Onward ==> NoMore(stream, w) && unchanged(c))
    ensures wf && !old(TakesPrefix(stream, w0, v, k))
            && MarkerPasses(stream.s, stream.streamLength, v, k, w0.thumbnail) ==>
      if stream.s[v + 1] == SOS then
        out == Found && sos == Some(v + 2) && ScanCarried(stream.s, c, w0, w, v + 2)
      else if OtherProcess(stream.s[v + 1]) then out == Left(Unsupported)
      else
        && out == Onward && c.init == old(c.init) && Carried(stream.s, c, w0, w, stream.s[v + 1], v + 2)
        && Stands(stream, w, MarkerAfter(stream.s, stream.streamLength, v),
                  StepsAfter(stream.s, stream.streamLength, v, k, w0.thumbnail))
  {
    hide WellFormed, Passes, AfterApp0, KnownAt, Be16, SameGeometry;
    w, steps, sos := w0, 0, None;
    var ok, currentByte := MarkerCode(stream, w, wf, v, k);
    if !ok {
      return Left(if !c.init then IncreaseInputBuffer else StrmError), w, 0, None;
    }
    ghost var good := wf && stream.pCurrPos == v + 2 && currentByte != STRM_ERROR;
    out, w, steps, sos := AfterCode(stream, c, currentByte, w.(currentByte := currentByte), bufferSize, good, v, k);
  }

  /** The headers read once the marker at v has been passed. */
  function HeaderAfter(s: seq<byte>, len: nat, v: nat, h: Header): Header
    requires len <= |s| && v + 2 <= len
    requires HasLength(s[v + 1]) ==> v + 4 <= len && Segment(s, len, v + 2, s[v + 1], h).Some?
  {
    if HasLength(s[v + 1]) then Segment(s, len, v + 2, s[v + 1], h).value else h
  }

  /** Well-formed headers from v on lead to a marker at which this walker stops. */
  predicate Leads(s: seq<byte>, len: nat, v: nat, h: Header)
    requires len <= |s|
  {
    var last := LastMarker(s, len, v, h);
    last.Some? && Stopping(s, len, last.value.v)
  }

  /** One step of LastMarker. */
  lemma LastStep(s: seq<byte>, len: nat, v: nat, h: Header)
    requires len <= |s| && Leads(s, len, v, h)
    ensures GoodMarker(s, len, v, h.jfxx) && (IsSof(s[v + 1]) ==> h.sof.None?)
    ensures HasLength(s[v + 1]) ==> v + 4 <= len && Segment(s, len, v + 2, s[v + 1], h).Some?
    ensures Final(s[v + 1]) ==> LastMarker(s, len, v, h) == Some(Stop(v, h))
    ensures !Final(s[v + 1]) ==>
      var g, c, q := HeaderAfter(s, len, v, h), s[v + 1], v + 2;
      && v < MarkerAfter(s, len, v) <= len
      && LastMarker(s, len, MarkerAfter(s, len, v), g) == LastMarker(s, len, v, h)
      && Leads(s, len, MarkerAfter(s, len, v), g)
      && g.sof == (if IsSof(c) then Some(q) else h.sof)
      && g.ri == (if c == DRI then Some(Be16(s, q + 2)) else h.ri)
      && g.jfxx == if HasLength(c) then AfterApp0(s, q, c, h.jfxx) else h.jfxx
  {
    if HasLength(s[v + 1]) {
      SegmentFacts(s, len, v + 2, s[v + 1], h);
    }
    hide OtherProcess, WellFormed, AfterApp0, Segment;
  }

  /** The walker passes every marker of the headers, and the last too. */
  predicate InfoPasses(s: seq<byte>, len: nat, v: nat, k: nat, h: Header)
    requires len <= |s| && Leads(s, len, v, h)
    decreases len - v
  {
    LastStep(s, len, v, h);
    && MarkerPasses(s, len, v, k, h.jfxx)
    && (Final(s[v + 1])
        || InfoPasses(s, len, MarkerAfter(s, len, v), StepsAfter(s, len, v, k, h.jfxx), HeaderAfter(s, len, v, h)))
  }

  /** One step of ReadHeader. */
  lemma ReadStep(s: seq<byte>, len: nat, v: nat, h: Header)
    requires len <= |s| && ReadHeader(s, len, v, h).Some?
    ensures GoodMarker(s, len, v, h.jfxx) && (IsSof(s[v + 1]) ==> h.sof.None?)
    ensures HasLength(s[v + 1]) ==> v + 4 <= len && Segment(s, len, v + 2, s[v + 1], h).Some?
    ensures s[v + 1] == SOS ==> ReadHeader(s, len, v, h) == Some(h.(sos := v + 2))
    ensures s[v + 1] != SOS ==>
      var g, c, q := HeaderAfter(s, len, v, h), s[v + 1], v + 2;
      && ReadHeader(s, len, MarkerAfter(s, len, v), g) == ReadHeader(s, len, v, h)
      && g.sof == (if IsSof(c) then Some(q) else h.sof)
      && g.ri == (if c == DRI then Some(Be16(s, q + 2)) else h.ri)
      && g.jfxx == if HasLength(c) then AfterApp0(s, q, c, h.jfxx) else h.jfxx
  {
    if HasLength(s[v + 1]) {
      SegmentFacts(s, len, v + 2, s[v + 1], h);
    }
  }

  /** The headers JpegDecGetImageInfo accepts: its counter, which runs a bit ahead for every marker passed,
      stays inside the stream, the frame is supported, and no restart interval exceeds the bytes left. */
  predicate InfoAccepts(s: seq<byte>, len: nat, v: nat, k: nat, h: Header)
    requires len <= |s| && ReadHeader(s, len, v, h).Some?
    decreases len - v
  {
    ReadStep(s, len, v, h);
    && MarkerPasses(s, len, v, k, h.jfxx)
    && (s[v + 1] == SOS
        || InfoAccepts(s, len, MarkerAfter(s, len, v), StepsAfter(s, len, v, k, h.jfxx), HeaderAfter(s, len, v, h)))
  }

  lemma {:induction false} AcceptsIsPasses(s: seq<byte>, len: nat, v: nat, k: nat, h: Header)
    requires len <= |s| && ReadHeader(s, len, v, h).Some?
    ensures Leads(s, len, v, h)
    ensures InfoAccepts(s, len, v, k, h) <==> InfoPasses(s, len, v, k, h)
    decreases len - v
  {
    ReadIsLast(s, len, v, h);
    ReadStops(s, len, v, h);
    ReadStep(s, len, v, h);
    LastStep(s, len, v, h);
    Kinds(s[v + 1]);
    hide MarkerPasses, StepsAfter, Segment, WellFormed, HasLength, Standalone, Final, Stopping, LastMarker, ReadHeader;
    if s[v + 1] != SOS && MarkerPasses(s, len, v, k, h.jfxx) {
      AcceptsIsPasses(s, len, MarkerAfter(s, len, v), StepsAfter(s, len, v, k, h.jfxx), HeaderAfter(s, len, v, h));
    }
  }

  lemma {:induction false} ReadStops(s: seq<byte>, len: nat, v: nat, h: Header)
    requires len <= |s| && ReadHeader(s, len, v, h).Some?
    ensures ReadHeader(s, len, v, h).value.sos + 2 <= len && Be16(s, ReadHeader(s, len, v, h).value.sos) >= 2
    decreases len - v
  {
    ReadStep(s, len, v, h);
    hide Segment, WellFormed, GoodMarker;
    if s[v + 1] != SOS {
      ReadStops(s, len, MarkerAfter(s, len, v), HeaderAfter(s, len, v, h));
    }
  }

  /** Nothing read yet. */
  predicate Empty(h: Header) { h.sof.None? && h.ri.None? && !h.jfxx }

  /** A marker of the walk: its index, the steps taken by then, and what the headers before it amount to. */
  datatype View = View(v: nat, k: nat, jfxx: bool, sof: Option<nat>, ri: Option<nat>)

  function ViewAfter(s: seq<byte>, len: nat, w: View): View
    requires len <= |s| && GoodMarker(s, len, w.v, w.jfxx)
  {
    var c, q := s[w.v + 1], w.v + 2;
    View(MarkerAfter(s, len, w.v), StepsAfter(s, len, w.v, w.k, w.jfxx),
         if HasLength(c) then AfterApp0(s, q, c, w.jfxx) else w.jfxx,
         if IsSof(c) then Some(q) else w.sof, if c == DRI then Some(Be16(s, q + 2)) else w.ri)
  }

  /** The walk goes on after every marker but the last, which is an SOS or does not pass. */
  predicate ViewAt(s: seq<byte>, len: nat, views: seq<View>, i: nat)
    requires len <= |s| && i < |views|
  {
    var w := views[i];
    && GoodMarker(s, len, w.v, w.jfxx) && (IsSof(s[w.v + 1]) ==> w.sof.None?)
    && var on := !Final(s[w.v + 1]) && MarkerPasses(s, len, w.v, w.k, w.jfxx);
       (on <==> i + 1 < |views|) && (on ==> views[i + 1] == ViewAfter(s, len, w))
  }

  predicate Views(s: seq<byte>, len: nat, views: seq<View>)
    requires len <= |s|
  {
    views != [] && forall i :: 0 <= i < |views| ==> ViewAt(s, len, views, i)
  }

  /** The last marker passes; it ends the headers then. */
  predicate LastPasses(s: seq<byte>, len: nat, views: seq<View>)
    requires len <= |s| && Views(s, len, views)
  {
    var i := |views| - 1;
    assert ViewAt(s, len, views, i);
    MarkerPasses(s, len, views[i].v, views[i].k, views[i].jfxx)
  }

  lemma ViewOfNext(s: seq<byte>, len: nat, v: nat, k: nat, h: Header)
    requires len <= |s| && Leads(s, len, v, h)
    ensures GoodMarker(s, len, v, h.jfxx)
    ensures !Final(s[v + 1]) ==>
      && (HasLength(s[v + 1]) ==> v + 4 <= len && Segment(s, len, v + 2, s[v + 1], h).Some?)
      && var g := HeaderAfter(s, len, v, h);
         ViewAfter(s, len, View(v, k, h.jfxx, h.sof, h.ri))
         == View(MarkerAfter(s, len, v), StepsAfter(s, len, v, k, h.jfxx), g.jfxx, g.sof, g.ri)
  {
    LastStep(s, len, v, h);
    hide LastMarker, Segment, WellFormed, Standalone, Final, Stopping, AfterApp0, StepsAfter;
  }

  lemma {:induction false} ViewsOf(s: seq<byte>, len: nat, v: nat, k: nat, h: Header) returns (views: seq<View>)
    requires len <= |s| && Leads(s, len, v, h)
    ensures views != [] && Views(s, len, views) && views[0] == View(v, k, h.jfxx, h.sof, h.ri)
    ensures LastPasses(s, len, views) <==> InfoPasses(s, len, v, k, h)
    ensures var r, last := LastMarker(s, len, v, h).value, views[|views| - 1];
      LastPasses(s, len, views) ==> r.v == last.v && r.h.sof == last.sof && r.h.ri == last.ri
    decreases len - v
  {
    LastStep(s, len, v, h);
    ViewOfNext(s, len, v, k, h);
    var w := View(v, k, h.jfxx, h.sof, h.ri);
    if !Final(s[v + 1]) && MarkerPasses(s, len, v, k, h.jfxx) {
      hide MarkerPasses, StepsAfter, MarkerAfter, HeaderAfter, ViewAfter, GoodMarker, Leads, LastMarker, Segment,
           HasLength, Final, Views, LastPasses;
      var rest := ViewsOf(s, len, MarkerAfter(s, len, v), StepsAfter(s, len, v, k, h.jfxx), HeaderAfter(s, len, v, h));
      views := [w] + rest;
      MoreViews(s, len, w, rest);
    } else {
      views := [w];
      OneView(s, len, w);
    }
  }

  lemma OneView(s: seq<byte>, len: nat, w: View)
    requires len <= |s| && GoodMarker(s, len, w.v, w.jfxx) && (IsSof(s[w.v + 1]) ==> w.sof.None?)
    requires Final(s[w.v + 1]) || !MarkerPasses(s, len, w.v, w.k, w.jfxx)
    ensures Views(s, len, [w]) && (LastPasses(s, len, [w]) <==> MarkerPasses(s, len, w.v, w.k, w.jfxx))
  {
    assert ViewAt(s, len, [w], 0);
    hide MarkerPasses, GoodMarker, Final;
  }

  lemma MoreViews(s: seq<byte>, len: nat, w: View, rest: seq<View>)
    requires len <= |s| && GoodMarker(s, len, w.v, w.jfxx) && (IsSof(s[w.v + 1]) ==> w.sof.None?)
    requires !Final(s[w.v + 1]) && MarkerPasses(s, len, w.v, w.k, w.jfxx)
    requires rest != [] && Views(s, len, rest) && rest[0] == ViewAfter(s, len, w)
    ensures Views(s, len, [w] + rest) && (LastPasses(s, len, [w] + rest) <==> LastPasses(s, len, rest))
  {
    hide MarkerPasses, GoodMarker, Final, ViewAfter;
    var views := [w] + rest;
    forall i | 0 <= i < |views| ensures ViewAt(s, len, views, i) {
      assert i > 0 ==> ViewAt(s, len, rest, i - 1);
    }
  }

  function LastCode(s: seq<byte>, len: nat, views: seq<View>): nat
    requires len <= |s| && Views(s, len, views)
  {
    assert ViewAt(s, len, views, |views| - 1);
    s[views[|views| - 1].v + 1]
  }

  /** FF D8 eight times. */
  predicate EightStarts(s: seq<byte>, len: nat)
  {
    len == 16 < |s| && forall i :: 0 <= i < 16 ==> s[i] == if i % 2 == 0 then 0xFF else 0xD8
  }

  lemma {:induction false} StartsAreNoHeader(s: seq<byte>, len: nat, i: nat, h: Header)
    requires EightStarts(s, len) && i <= 8
    ensures ReadHeader(s, len, 2 * i, h).None? && LastMarker(s, len, 2 * i, h).None?
    decreases 8 - i
  {
    if i < 7 {
      StartsAreNoHeader(s, len, i + 1, h);
    }
  }

  /** JpegDecGetImageInfo after its argument checks.  For every stream with well-formed headers it finds
      the scan that ReadHeader finds if and only if InfoAccepts holds, and has the geometry of the frame
      header by then.  steps is the number of readBits++ steps, which is all that the counter drifts from
      the cursor. */
  method GetImageInfo(stream: StreamStorage, c: JpegDecContainer, bufferSize: nat, ghost h0: Header)
    returns (ret: Ret, info: ImageInfo, ghost sos: Option<nat>, ghost steps: nat)
    requires stream.Valid() && stream.bitPosInByte == 0 && stream.pCurrPos == 0 && stream.readBits == 0
    requires Empty(h0)
    modifies stream, c`init, c`initThumb, c`operationType, c`operationTypeThumb, c`getInfoYCbCrMode,
             c`hwX, c`hwY, c`numMcuInRow, c`numMcuInFrame, c`restart
    ensures ret == Ok ==> c.init
    ensures ret == Error || sos.Some? ==> stream.readBits - 8 * stream.pCurrPos == steps
    ensures ReadHeader(stream.s, stream.streamLength, 0, h0).Some? ==>
      var r := ReadHeader(stream.s, stream.streamLength, 0, h0).value;
      && (sos.Some? <==> InfoAccepts(stream.s, stream.streamLength, 0, 0, h0))
      && (sos.Some? ==>
           && ret == Ok && sos.value == r.sos && FrameKnown(stream.s, c, info, r.sof)
           && ScanModeKnown(stream.s, c, info, r.sof, r.sos)
           && (r.ri.Some? ==> c.restart == r.ri.value))
      && (!old(c.init) ==> (ret == Ok <==> sos.Some?))
    ensures EightStarts(stream.s, stream.streamLength) ==> sos.None? && ret == if old(c.init) then Ok else Error
    ensures Leads(stream.s, stream.streamLength, 0, h0) ==>
      var code := stream.s[LastMarker(stream.s, stream.streamLength, 0, h0).value.v + 1];
      code != SOS ==>
        && sos.None? && (!old(c.init) ==> ret != Ok)
        && (OtherProcess(code) && InfoPasses(stream.s, stream.streamLength, 0, 0, h0) ==>
             ret == Unsupported)
  {
    hide Stopping, OtherProcess, LastPasses, InfoPasses, InfoAccepts, ReadHeader, LastMarker, Views;
    ghost var views := [];
    if EightStarts(stream.s, stream.streamLength) {
      StartsAreNoHeader(stream.s, stream.streamLength, 0, h0);
    }
    if ReadHeader(stream.s, stream.streamLength, 0, h0).Some? {
      ReadIsLast(stream.s, stream.streamLength, 0, h0);
      AcceptsIsPasses(stream.s, stream.streamLength, 0, 0, h0);
    }
    if Leads(stream.s, stream.streamLength, 0, h0) {
      views := ViewsOf(stream.s, stream.streamLength, 0, 0, h0);
    }
    ret, info, sos, steps := MarkerLoop(stream, c, bufferSize, views);
  }

  /** The state of the walk at a marker. */
  ghost predicate Reached(stream: StreamStorage, c: JpegDecContainer, w: Locals, view: View)
    reads stream, c
  {
    && Stands(stream, w, view.v, view.k) && w.thumbnail == view.jfxx && (view.sof.None? ==> w.hv == NO_FACTORS)
    && FrameKnown(stream.s, c, w.info, view.sof) && ModeKnown(stream.s, c, w.info, view.sof)
    && (view.ri.Some? ==> c.restart == view.ri.value)
  }

  /** One turn at a marker: it stays (having taken the prefix for a code), or goes on to the next marker. */
  method ViewTurn(stream: StreamStorage, c: JpegDecContainer, w0: Locals, bufferSize: nat, ghost wf: bool,
                  ghost view: View)
    returns (out: Turn, w: Locals, ghost steps: nat, ghost sos: Option<nat>, ghost stays: bool)
    requires stream.Valid() && stream.bitPosInByte == 0 && stream.readBits < 8 * stream.streamLength
    requires Proper(w0) && (w0.initThumb ==> c.initThumb) && !w0.init
    requires wf ==>
      && Reached(stream, c, w0, view) && GoodMarker(stream.s, stream.streamLength, view.v, view.jfxx)
      && (IsSof(stream.s[view.v + 1]) ==> view.sof.None?)
    modifies stream, c`init, c`initThumb, c`operationType, c`operationTypeThumb, c`getInfoYCbCrMode,
             c`hwX, c`hwY, c`numMcuInRow, c`numMcuInFrame, c`restart
    ensures stream.Valid() && stream.bitPosInByte == 0 && Proper(w)
    ensures out == Onward ==> !w.init && (w.initThumb ==> c.initThumb)
    ensures out == Onward || sos.Some? ==>
      Drifts(stream, steps)
    ensures out == Onward ==> stream.readBits > old(stream.readBits) && sos.None?
    ensures (out == Found ==> c.init) && (sos.Some? ==> out == Found)
    ensures old(NoMore(stream, w0)) ==> out == Left(if old(c.init) then StrmError else IncreaseInputBuffer)
    ensures old(AtPlain(stream, w0)) ==> out == Onward && PastPlain(stream, c, w, steps)
    ensures wf && stays ==> out == Onward && Reached(stream, c, w, view) && c.init == old(c.init)
    ensures wf && !stays ==>
      if !MarkerPasses(stream.s, stream.streamLength, view.v, view.k, view.jfxx) then
        && out != Found
        && (out == Onward ==> NoMore(stream, w) && c.init == old(c.init))
      else if OtherProcess(stream.s[view.v + 1]) then out == Left(Unsupported)
      else if stream.s[view.v + 1] == SOS then
        && out == Found && sos == Some(view.v + 2)
        && FrameKnown(stream.s, c, w.info, view.sof) && ScanModeKnown(stream.s, c, w.info, view.sof, view.v + 2)
        && (view.ri.Some? ==> c.restart == view.ri.value)
      else
        && out == Onward && Reached(stream, c, w, ViewAfter(stream.s, stream.streamLength, view))
        && c.init == old(c.init) && (Ignored(stream.s[view.v + 1]) ==> w.currentByte != 0xFF)
  {
    hide MarkerPasses, StepsAfter, MarkerAfter, AfterApp0, TakesPrefix, AtPlain, PastPlain, Drifts, Proper;
    stays := wf && TakesPrefix(stream, w0, view.v, view.k);
    out, w, steps, sos := OneTurn(stream, c, w0, bufferSize, wf, view.v, view.k);
  }

  lemma StartReached(stream: StreamStorage, c: JpegDecContainer, w: Locals)
    requires stream.pCurrPos == 0 && stream.readBits == 0 && w.currentByte == 0 && !w.thumbnail && w.hv == NO_FACTORS
    ensures Reached(stream, c, w, View(0, 0, false, None, None))
  {
  }

  lemma StartIsPlain(stream: StreamStorage, w: Locals, steps: nat)
    requires EightStarts(stream.s, stream.streamLength) && w.currentByte != 0xFF && steps <= 8
    requires stream.readBits - 8 * stream.pCurrPos == steps && stream.readBits / 8 < 16
    requires if steps < 8 then stream.pCurrPos == 2 * steps else stream.pCurrPos == 15
    ensures steps < 8 && AtPlain(stream, w)
  {
    var p := stream.pCurrPos;
    assert stream.s[p] == 0xFF;
    assert p + 1 < 16 ==> stream.s[p + 1] == 0xD8;
  }

  /** The head of the loop.  With wf the walk stands at marker i; without, although there are markers, it is
      at the end of the stream. */
  ghost predicate AtHead(stream: StreamStorage, c: JpegDecContainer, w: Locals, steps: nat, views: seq<View>,
                         wf: bool, i: nat, init0: bool)
    reads stream, stream.mem, c
  {
    var s, len := stream.s, stream.streamLength;
    && stream.Valid() && stream.bitPosInByte == 0 && Proper(w) && !w.init && (w.initThumb ==> c.initThumb)
    && stream.readBits - 8 * stream.pCurrPos == steps
    && (views != [] || EightStarts(s, len) ==> c.init == init0)
    && (views != [] ==> Views(s, len, views))
    && (wf ==> i < |views| && Reached(stream, c, w, views[i]))
    && (views != [] && !wf ==> NoMore(stream, w) && (LastPasses(s, len, views) ==> Ignored(LastCode(s, len, views))))
    && (views == [] && EightStarts(s, len) ==>
         steps <= 8 && w.currentByte != 0xFF && stream.pCurrPos == if steps < 8 then 2 * steps else 15)
  }

  /** What is known when the scan is found. */
  ghost predicate AtScan(s: seq<byte>, c: JpegDecContainer, info: ImageInfo, last: View, sos: nat)
    reads c
  {
    && sos == last.v + 2 && FrameKnown(s, c, info, last.sof) && ScanModeKnown(s, c, info, last.sof, last.v + 2)
    && (last.ri.Some? ==> c.restart == last.ri.value)
  }

  lemma KindAt(s: seq<byte>, len: nat, views: seq<View>, i: nat)
    requires len <= |s| && Views(s, len, views) && i < |views|
    ensures var w := views[i];
      && GoodMarker(s, len, w.v, w.jfxx) && (IsSof(s[w.v + 1]) ==> w.sof.None?)
      && var passes := MarkerPasses(s, len, w.v, w.k, w.jfxx);
         if i + 1 < |views|
         then passes && !OtherProcess(s[w.v + 1]) && s[w.v + 1] != SOS && views[i + 1] == ViewAfter(s, len, w)
         else (LastPasses(s, len, views) <==> passes) && LastCode(s, len, views) == s[w.v + 1]
  {
    assert ViewAt(s, len, views, i);
    Kinds(s[views[i].v + 1]);
    hide MarkerPasses, ViewAfter, GoodMarker;
  }

  lemma LastKind(s: seq<byte>, len: nat, views: seq<View>)
    requires len <= |s| && Views(s, len, views)
    ensures var c := LastCode(s, len, views);
      && (LastPasses(s, len, views) ==> c == SOS || OtherProcess(c) || Ignored(c))
      && (OtherProcess(c) ==> c != SOS && !Ignored(c)) && !Ignored(SOS)
  {
    assert ViewAt(s, len, views, |views| - 1);
    hide MarkerPasses;
  }

  /** Behind a marker that is passed at the end of the headers. */
  lemma BehindIgnored(stream: StreamStorage, c: JpegDecContainer, w: Locals, view: View)
    requires stream.Valid() && w.currentByte != 0xFF && GoodMarker(stream.s, stream.streamLength, view.v, view.jfxx)
    requires Reached(stream, c, w, ViewAfter(stream.s, stream.streamLength, view))
    requires Ignored(stream.s[view.v + 1])
    ensures NoMore(stream, w)
  {
    hide StepsAfter, FrameKnown, ModeKnown;
  }

  /** Once round the loop. */
  method LoopTurn(stream: StreamStorage, c: JpegDecContainer, w0: Locals, bufferSize: nat,
                  ghost steps0: nat, ghost views: seq<View>, ghost wf0: bool, ghost i0: nat, ghost init0: bool)
    returns (out: Turn, w: Locals, ghost steps: nat, ghost sos: Option<nat>, ghost wf: bool, ghost i: nat)
    requires AtHead(stream, c, w0, steps0, views, wf0, i0, init0) && stream.readBits / 8 < stream.streamLength
    modifies stream, c`init, c`initThumb, c`operationType, c`operationTypeThumb, c`getInfoYCbCrMode,
             c`hwX, c`hwY, c`numMcuInRow, c`numMcuInFrame, c`restart
    ensures out == Onward ==>
      AtHead(stream, c, w, steps, views, wf, i, init0) && stream.readBits > old(stream.readBits) && sos.None?
    ensures out == Found ==> c.init
    ensures sos.Some? ==> out == Found && stream.readBits - 8 * stream.pCurrPos == steps
    ensures views == [] && EightStarts(stream.s, stream.streamLength) ==> out == Onward
    ensures views != [] && out != Onward ==>
      && Views(stream.s, stream.streamLength, views)
      && var passes, code := LastPasses(stream.s, stream.streamLength, views),
                             LastCode(stream.s, stream.streamLength, views);
      && (out == Found <==> sos.Some?) && (sos.Some? <==> passes && code == SOS)
      && (passes && OtherProcess(code) ==> out == Left(Unsupported))
      && (sos.Some? ==> AtScan(stream.s, c, w.info, views[|views| - 1], sos.value))
  {
    ghost var s, len := stream.s, stream.streamLength;
    ghost var eight := views == [] && EightStarts(s, len);
    ghost var view := if wf0 then views[i0] else View(0, 0, false, None, None);
    if eight {
      StartIsPlain(stream, w0, steps0);
    }
    if wf0 {
      LastKind(s, len, views);
      KindAt(s, len, views, i0);
    }
    hide ViewAt, Views, LastPasses, LastCode, MarkerPasses, GoodMarker, ViewAfter, Stands, FrameKnown, ModeKnown,
         ScanModeKnown, EightStarts, AtPlain, Final, OtherProcess, Ignored, NoMore;
    ghost var more, stays;
    out, w, more, sos, stays := ViewTurn(stream, c, w0, bufferSize, wf0, view);
    steps, wf, i := steps0 + more, wf0, i0;
    if wf0 && !stays {
      wf := i0 + 1 < |views|;
      i := i0 + 1;
      if !wf && out == Onward && LastPasses(s, len, views) {
        BehindIgnored(stream, c, w, view);
      }
    }
  }

  /** The guard fails. */
  lemma LoopEnds(stream: StreamStorage, c: JpegDecContainer, w: Locals, steps: nat, views: seq<View>, wf: bool, i: nat,
                 init0: bool)
    requires AtHead(stream, c, w, steps, views, wf, i, init0) && stream.readBits / 8 >= stream.streamLength
    ensures stream.readBits - 8 * stream.pCurrPos == steps
    ensures views != [] ==>
      && Views(stream.s, stream.streamLength, views)
      && (LastPasses(stream.s, stream.streamLength, views) ==>
           Ignored(LastCode(stream.s, stream.streamLength, views)))
    ensures views != [] || EightStarts(stream.s, stream.streamLength) ==> c.init == init0
  {
    assert wf ==> ViewAt(stream.s, stream.streamLength, views, i);
  }

  /** Its loop.  views are the markers to be passed; there are none if the headers are not well formed. */
  method MarkerLoop(stream: StreamStorage, c: JpegDecContainer, bufferSize: nat, ghost views: seq<View>)
    returns (ret: Ret, info: ImageInfo, ghost sos: Option<nat>, ghost steps: nat)
    requires stream.Valid() && stream.bitPosInByte == 0 && stream.pCurrPos == 0 && stream.readBits == 0
    requires views != [] ==> Views(stream.s, stream.streamLength, views) && views[0] == View(0, 0, false, None, None)
    modifies stream, c`init, c`initThumb, c`operationType, c`operationTypeThumb, c`getInfoYCbCrMode,
             c`hwX, c`hwY, c`numMcuInRow, c`numMcuInFrame, c`restart
    ensures ret == Ok ==> c.init
    ensures ret == Error || sos.Some? ==> stream.readBits - 8 * stream.pCurrPos == steps
    ensures views != [] ==>
      && var passes, code := LastPasses(stream.s, stream.streamLength, views),
                             LastCode(stream.s, stream.streamLength, views);
      && (sos.Some? <==> passes && code == SOS) && (passes && OtherProcess(code) ==> ret == Unsupported)
      && (sos.Some? ==> ret == Ok && AtScan(stream.s, c, info, views[|views| - 1], sos.value))
      && (!old(c.init) ==> (ret == Ok <==> sos.Some?))
    ensures views == [] && EightStarts(stream.s, stream.streamLength) ==>
      sos.None? && ret == if old(c.init) then Ok else Error
  {
    info := ImageInfo(0, 0, 0, 0, None, Baseline, 0, 0, 0, 0, NoThumbnail, 0, 0, None, Baseline);
    var w := Locals(info, NO_FACTORS, NO_FACTORS, false, false, false, 0);
    steps, sos := 0, None;
    ghost var init0, i, wf := c.init, 0, views != [];
    StartReached(stream, c, w);
    AtFirst(stream, c, w, views);
    hide AtHead, AtScan, Views, LastPasses, EightStarts;
    while stream.readBits / 8 < stream.streamLength
      invariant AtHead(stream, c, w, steps, views, wf, i, init0) && sos.None?
      decreases 8 * stream.streamLength - stream.readBits
    {
      var out;
      out, w, steps, sos, wf, i := LoopTurn(stream, c, w, bufferSize, steps, views, wf, i, init0);
      match out {
        case Left(r) => return r, w.info, None, steps;
        case Found => return Ok, w.info, sos, steps;
        case Onward =>
      }
    }
    LoopEnds(stream, c, w, steps, views, wf, i, init0);
    ret, info := if c.init then Ok else Error, w.info;
  }

  lemma AtFirst(stream: StreamStorage, c: JpegDecContainer, w: Locals, views: seq<View>)
    requires stream.Valid() && stream.bitPosInByte == 0 && stream.pCurrPos == 0 && stream.readBits == 0
    requires views != [] ==> Views(stream.s, stream.streamLength, views) && views[0] == View(0, 0, false, None, None)
    requires Proper(w) && !w.init && !w.initThumb && w.currentByte == 0
    requires Reached(stream, c, w, View(0, 0, false, None, None))
    ensures AtHead(stream, c, w, 0, views, views != [], 0, c.init)
  {
  }
}
