/** The marker loop of JpegDecDecode, from the start of an image to its first scan. */
module DecodeWalker {
  import opened Common
  import opened FrameGeometry
  import opened StreamReader
  import opened HeaderSyntax
  import opened Container
  import opened TableSegments
  import opened TableReaders
  import opened FrameReader
  import opened MarkerWalk

  /** APPn and COM: the jump has no bound check. */
  method SkipSegment(stream: StreamStorage) returns (out: Case)
    requires Ready(stream) && stream.readBits <= 8 * stream.streamLength
    modifies stream
    ensures Ready(stream) && stream.appnFlag == old(stream.appnFlag)
    ensures var s, len, q := stream.s, stream.streamLength, old(stream.pCurrPos);
      && out == SkipCase(s, len, q)
      && (out == Next ==> stream.pCurrPos == q + if Be16(s, q) == 0 then 2 else Be16(s, q))
  {
    var currentBytes := stream.Get2Bytes();
    if currentBytes == STRM_ERROR {
      return Leave(StrmError);
    }
    if currentBytes == 1 {
      return Leave(WildJump);
    }
    if currentBytes != 0 {
      stream.readBits := stream.readBits + (currentBytes * 8 - 16);
      stream.pCurrPos := stream.pCurrPos + (currentBytes * 8 - 16) / 8;
    }
    out := Next;
  }

  /** The number of bits to flush, a negative one wrapped, and whether the check of FlushBits lets it
      pass. */
  method FlushLength(w: nat, readBits: nat, len: nat) returns (n: nat, fits: bool)
    requires readBits <= 8 * len && 64 * len < TWO32 && (w < 0x1_0000 || w == STRM_ERROR)
    ensures n % 8 == 0
    ensures 2 <= w < 0x1_0000 ==> n == 8 * (w - 2)
    ensures w < 2 ==> n == TWO32 - (16 - 8 * w) && (fits <==> readBits >= 16 - 8 * w)
    ensures w == STRM_ERROR ==> n == TWO32 - 24 && (fits <==> readBits >= 24)
  {
    assert w == STRM_ERROR ==> w * 8 - 16 == 7 * TWO32 + (TWO32 - 24);
    n := (w * 8 - 16) % TWO32;
    fits := (readBits + n) % TWO32 <= 8 * len;
  }

  /** Flushing whole bytes without stuffing. */
  lemma WholeFlush(s: seq<byte>, len: nat, c: Cursor, n: nat)
    requires n % 8 == 0 && c.bit == 0 && c.read == 8 * c.pos
    ensures CanFlush(s, len, c, true, n)
    ensures Flushed(s, len, c, true, n)
         == if c.pos + n / 8 > len then (false, Cursor(len, 0, 8 * len))
            else (true, Cursor(c.pos + n / 8, 0, c.read + n))
  {
  }

  /** APP0 when the image is wanted, not the thumbnail: `FlushBits((currentBytes - 2) * 8)` in RK_U32. */
  method SkipApp0(stream: StreamStorage) returns (out: Case)
    requires Ready(stream) && stream.readBits <= 8 * stream.streamLength
    modifies stream
    ensures Ready(stream) && (out == Next ==> !stream.appnFlag)
    ensures var s, len, q := stream.s, stream.streamLength, old(stream.pCurrPos);
      out == App0Case(s, len, q) && (out == Next ==> stream.pCurrPos == q + Be16(s, q))
  {
    var currentBytes := stream.Get2Bytes();
    stream.appnFlag := true;
    var n, fits := FlushLength(currentBytes, stream.readBits, stream.streamLength);
    if n >= TWO32 / 2 {
      return Leave(if fits then WildJump else StrmError);
    }
    hide Flushed, CanFlush;
    WholeFlush(stream.s, stream.streamLength, stream.At(), n);
    var ok := stream.FlushBits(n);
    if !ok {
      return Leave(StrmError);
    }
    stream.appnFlag := false;
    out := Next;
  }

  /** What the switch has stored when it goes on, besides the coding process. */
  twostate predicate Kept(stream: StreamStorage, c: JpegDecContainer, code: nat, slice: nat)
    reads stream, c
  {
    var s, len, q := stream.s, stream.streamLength, old(stream.pCurrPos);
    len <= |s| ==>
    && (if IsSof(code) then
          && c.operationType == (if code == SOF0 then Baseline else Progressive)
          && EnoughData(s, len, q)
          && c.frame == DecFrame(SofRead(s, len, q), slice) && c.frame.Some?
          && c.hwX == c.frame.value.geo.hwX && c.hwY == c.frame.value.geo.hwY
          && c.numMcuInRow == c.frame.value.geo.mcuInRow && c.numMcuInFrame == c.frame.value.geo.mcuInFrame
        else
          && c.frame == old(c.frame)
          && unchanged(c`operationType, c`hwX, c`hwY, c`numMcuInRow, c`numMcuInFrame))
    && c.quant == (if code == DQT then QuantSegment(s, len, q, old(c.quant)).tables else old(c.quant))
    && c.vlc == (if code == DHT then HuffSegment(s, len, q, old(c.codingType), old(c.vlc)).tables else old(c.vlc))
    && c.restart == (if code == DRI then WordAt(s, len, q + 2) else old(c.restart))
  }

  /** The switch. */
  method Switch(stream: StreamStorage, c: JpegDecContainer, code: nat, imageReady: bool, slice: nat) returns (out: Case)
    requires Ready(stream) && stream.readBits <= 8 * stream.streamLength && !stream.appnFlag
    modifies stream, c`codingType, c`operationType, c`restart, c`hwX, c`hwY, c`numMcuInRow, c`numMcuInFrame,
             c`frame, c`fillRight, c`fillBottom, c`quant, c`vlc
    ensures Ready(stream)
    ensures var s, len, q := stream.s, stream.streamLength, old(stream.pCurrPos);
      && out == CaseOf(s, len, slice, imageReady, q, code, old(c.codingType))
      && (out == Next ==> stream.pCurrPos == Landing(s, len, q, code, old(c.codingType)))
      && (out == Scan ==> code == SOS && unchanged(stream) && unchanged(c))
    ensures out == Next ==> Kept(stream, c, code, slice) && !stream.appnFlag
    ensures c.codingType == if IsSof(code) then code else old(c.codingType)
  {
    hide QuantSegment, HuffSegment, SofRead, DecFrame, EnoughData, After;
    TablesDoNotMatter(stream.s, stream.streamLength, stream.pCurrPos, c.codingType, c.quant, c.vlc);
    out := Next;
    if IsSof(code) {
      c.codingType := code;
      c.operationType := if code == SOF0 then Baseline else Progressive;
      var ret := DecodeFrameHdr(stream, c, slice);
      out := if ret == Ok then Next else Leave(ret);
    } else if code == SOS {
      out := Scan;
    } else if code == DHT {
      var ret := DecodeHuffmanTables(stream, c);
      out := if ret == Ok then Next else Leave(ret);
    } else if code == DQT {
      var ret := DecodeQuantTables(stream, c);
      out := if ret == Ok then Next else Leave(ret);
    } else if code == EOI {
      out := Leave(if imageReady then FrameReady else Error);
    } else if code == DRI {
      var currentBytes := stream.Get2Bytes();
      if currentBytes == STRM_ERROR {
        return Leave(StrmError);
      }
      c.restart := stream.Get2Bytes();
    } else if code == DNL || code == TEM || OtherProcess(code) {
      out := Leave(Unsupported);
    } else if code == APP0 {
      out := SkipApp0(stream);
    } else if IsApp(code) || code == COM {
      out := SkipSegment(stream);
    }
  }

  // ---- Well-formed headers

  lemma {:induction false} QuantTablesRead(s: seq<byte>, len: nat, a: nat, b: nat, t: nat, lq: nat, tables: QuantTables)
    requires len <= |s| && a <= b <= len && WellFormedQuant(s, a, b) && t + (b - a) == lq + 2
    ensures var r := QuantRun(s, len, a, t, lq, tables); r.ret == Ok && r.pos == b
    decreases b - a
  {
    if a < b {
      QuantTablesRead(s, len, a + 65, b, t + 65, lq, tables[s[a] as nat % 16 := BytesAt(s, len, a + 1, 64)]);
    }
  }

  lemma {:induction false} HuffTablesRead(s: seq<byte>, len: nat, a: nat, b: nat, t: nat, lh: nat, coding: nat,
                                          tables: VlcTables)
    requires len <= |s| && a <= b <= len && WellFormedHuff(s, a, b, coding) && t + (b - a) == lh + 2
    ensures var r := HuffRun(s, len, a, t, lh, coding, tables); r.ret == Ok && r.pos == b
    decreases b - a
  {
    if a < b {
      var n := Total(s[a + 1..a + 17]);
      OneTableRead(s, len, a, b, coding, tables);
      HuffTablesRead(s, len, a + 17 + n, b, t + 17 + n, lh, coding, ReadHuff(s, len, a, coding, tables).filled);
    }
  }

  lemma OneTableRead(s: seq<byte>, len: nat, a: nat, b: nat, coding: nat, tables: VlcTables)
    requires len <= |s| && a < b <= len && WellFormedHuff(s, a, b, coding)
    ensures var r, n := ReadHuff(s, len, a, coding, tables), Total(s[a + 1..a + 17]);
      r.Read? && r.next == a + 17 + n && r.count == 17 + n
  {
    var bits := s[a + 1..a + 17];
    assert BytesAt(s, len, a + 1, 16) == bits;
    TotalBound(bits);
  }

  /** A marker that is not the last leads to the next. */
  predicate LeadsTo(s: seq<byte>, len: nat, v: nat, h: Header, next: Stop)
    requires len <= |s| && v + 2 <= len
  {
    var c, q := s[v + 1], v + 2;
    && next.v + 2 <= len
    && if c == 0xFF then next == Stop(v + 1, h)
       else if Standalone(c) then next == Stop(q, h)
       else q + 2 <= len && Segment(s, len, q, c, h) == Some(next.h) && next.v == q + Be16(s, q)
  }

  predicate StopAt(s: seq<byte>, len: nat, stops: seq<Stop>, i: nat)
    requires len <= |s| && i < |stops|
  {
    var v := stops[i].v;
    && v + 2 <= len && s[v] == 0xFF
    && (Final(s[v + 1]) <==> i + 1 == |stops|)
    && (!Final(s[v + 1]) ==> LeadsTo(s, len, v, stops[i].h, stops[i + 1]))
  }

  predicate Stops(s: seq<byte>, len: nat, stops: seq<Stop>)
    requires len <= |s|
  {
    stops != [] && forall i :: 0 <= i < |stops| ==> StopAt(s, len, stops, i)
  }

  lemma NextStop(s: seq<byte>, len: nat, v: nat, h: Header) returns (next: Stop)
    requires len <= |s| && LastMarker(s, len, v, h).Some?
    ensures v + 2 <= len && s[v] == 0xFF
    ensures if Final(s[v + 1]) then LastMarker(s, len, v, h) == Some(Stop(v, h))
            else
              && LeadsTo(s, len, v, h, next) && v < next.v
              && LastMarker(s, len, next.v, next.h) == LastMarker(s, len, v, h)
  {
    var c, q := s[v + 1], v + 2;
    Kinds(c);
    if HasLength(c) {
      SegmentLength(s, len, q, c, h);
      next := Stop(q + Be16(s, q), Segment(s, len, q, c, h).value);
    } else {
      next := if c == 0xFF then Stop(v + 1, h) else Stop(q, h);
    }
    hide Segment, HasLength, Standalone, Final;
  }

  lemma {:induction false} StopsOf(s: seq<byte>, len: nat, v: nat, h: Header) returns (stops: seq<Stop>)
    requires len <= |s| && LastMarker(s, len, v, h).Some?
    ensures stops != [] && Stops(s, len, stops)
    ensures stops[0] == Stop(v, h) && LastMarker(s, len, v, h) == Some(stops[|stops| - 1])
    decreases len - v
  {
    var next := NextStop(s, len, v, h);
    hide LastMarker, LeadsTo, Final;
    stops := [Stop(v, h)];
    if Final(s[v + 1]) {
      assert StopAt(s, len, stops, 0);
    } else {
      var rest := StopsOf(s, len, next.v, next.h);
      stops := stops + rest;
      forall i | 0 <= i < |stops| ensures StopAt(s, len, stops, i) {
        assert i > 0 ==> StopAt(s, len, rest, i - 1);
      }
    }
  }

  /** The decoder has stored what the headers say. */
  ghost predicate Stored(s: seq<byte>, c: JpegDecContainer, slice: nat, h: Header)
    reads c
  {
    && c.codingType == h.coding && c.quant == h.quant && c.vlc == h.vlc
    && (h.ri.Some? ==> c.restart == h.ri.value)
    && (h.sof.Some? ==>
         && h.sof.value + 8 <= |s| && h.sof.value + 8 + 3 * s[h.sof.value + 7] as int <= |s|
         && c.operationType == (if h.coding == SOF0 then Baseline else Progressive)
         && c.frame.Some? && c.frame == DecFrame(SofAt(s, h.sof.value), slice)
         && c.hwX == c.frame.value.geo.hwX && c.hwY == c.frame.value.geo.hwY
         && c.numMcuInRow == c.frame.value.geo.mcuInRow && c.numMcuInFrame == c.frame.value.geo.mcuInFrame)
  }

  lemma StoredSays(s: seq<byte>, c: JpegDecContainer, slice: nat, h: Header)
    requires Stored(s, c, slice, h)
    ensures c.codingType == h.coding && !UnsupportedFrame(s, h.sof)
  {
  }

  /** What SofRead reads of a well-formed frame header. */
  lemma SofReadIs(s: seq<byte>, len: nat, q: nat)
    requires len <= |s| && WellFormedSof(s, len, q)
    ensures SofRead(s, len, q) == SofAt(s, q) && |SofAt(s, q).comps| == s[q + 7]
    ensures Be16(s, q) == 8 + 3 * s[q + 7] as int
  {
    var a, b := SofRead(s, len, q).comps, SofAt(s, q).comps;
    forall i | 0 <= i < |b| ensures a[i] == b[i] {
      assert a[i] == ComponentAt(s, len, q + 8 + 3 * i);
    }
  }

  /** What the parsers make of a well-formed segment that two more bytes follow. */
  lemma SegmentReads(s: seq<byte>, len: nat, q: nat, code: nat, h: Header, slice: nat)
    requires len <= |s| && 64 * len < TWO32 && q + 2 <= len && HasLength(code)
    requires Segment(s, len, q, code, h).Some? && q + Be16(s, q) + 2 <= len
    ensures var g, l := Segment(s, len, q, code, h).value, Be16(s, q);
      && 2 <= l && (IsApp(code) || code == COM ==> g == h.(jfxx := g.jfxx))
      && (code == DRI ==> l == 4 && g == h.(ri := Some(Be16(s, q + 2))))
      && (code == DQT ==>
           && g == h.(quant := QuantSegment(s, len, q, h.quant).tables)
           && QuantSegment(s, len, q, h.quant).ret == Ok && QuantSegment(s, len, q, h.quant).pos == q + l)
      && (code == DHT ==>
           && g == h.(vlc := HuffSegment(s, len, q, h.coding, h.vlc).tables)
           && HuffSegment(s, len, q, h.coding, h.vlc).ret == Ok
           && HuffSegment(s, len, q, h.coding, h.vlc).pos == q + l)
      && (IsSof(code) ==>
           && g == h.(coding := code, sof := Some(q)) && EnoughData(s, len, q)
           && q + 8 + 3 * s[q + 7] as int <= |s| && SofRead(s, len, q) == SofAt(s, q)
           && After(len, q + 8, 3 * |SofAt(s, q).comps|) == q + l
           && (DecFrame(SofAt(s, q), slice).None? <==> DecShape(SofAt(s, q)).None?))
  {
    if IsSof(code) {
      SofReadIs(s, len, q);
    } else if code == DQT {
      QuantTablesRead(s, len, q + 2, q + Be16(s, q), 4, Be16(s, q), h.quant);
    } else if code == DHT {
      HuffTablesRead(s, len, q + 2, q + Be16(s, q), 4, Be16(s, q), h.coding, h.vlc);
    }
  }

  /** The switch on a well-formed segment that two more bytes follow. */
  lemma SegmentCase(s: seq<byte>, len: nat, q: nat, code: nat, h: Header, slice: nat, ready: bool)
    requires len <= |s| && 64 * len < TWO32 && q + 2 <= len && HasLength(code)
    requires Segment(s, len, q, code, h).Some? && q + Be16(s, q) + 2 <= len
    ensures CaseOf(s, len, slice, ready, q, code, h.coding)
         == if IsSof(code) && DecShape(SofAt(s, q)).None? then Leave(Unsupported) else Next
    ensures Landing(s, len, q, code, h.coding) == q + Be16(s, q)
  {
    hide Segment, QuantSegment, HuffSegment, SofRead, SofAt, DecFrame, DecShape, EnoughData, After;
    SegmentReads(s, len, q, code, h, slice);
    TablesDoNotMatter(s, len, q, h.coding, h.quant, h.vlc);
  }

  predicate UnsupportedFrame(s: seq<byte>, sof: Option<nat>) {
    && sof.Some? && sof.value + 8 <= |s| && sof.value + 8 + 3 * s[sof.value + 7] as int <= |s|
    && DecShape(SofAt(s, sof.value)).None?
  }

  /** A stream has one frame header. */
  lemma {:induction false} FrameStays(s: seq<byte>, len: nat, stops: seq<Stop>, i: nat)
    requires len <= |s| && Stops(s, len, stops) && i < |stops|
    ensures stops[i].h.sof.Some? ==> stops[|stops| - 1].h.sof == stops[i].h.sof
    decreases |stops| - i
  {
    assert StopAt(s, len, stops, i);
    if i + 1 < |stops| {
      FrameStays(s, len, stops, i + 1);
    }
  }

  /** A marker at v that the headers h lead to, and what comes behind it. */
  predicate MarkerAt(s: seq<byte>, len: nat, v: nat, h: Header)
    requires len <= |s|
  {
    && v + 2 <= len && s[v] == 0xFF
    && var code, q := s[v + 1], v + 2;
       !HasLength(code)
       || (q + 2 <= len && q + Be16(s, q) + 2 <= len && Segment(s, len, q, code, h).Some?)
  }

  /** What the walk comes to at a marker that ends the headers. */
  function EndAt(code: nat, q: nat, ready: bool): Search {
    if code == SOS then AtScan(q)
    else if code == EOI then Back(if ready then FrameReady else Error)
    else Back(Unsupported)
  }

  /** Where the walk stands before the marker at v, or behind its prefix byte. */
  predicate Before(a: Stance, v: nat, h: Header) {
    a.coding == h.coding && a.code != STRM_ERROR && a.pos == if a.code == 0xFF then v + 1 else v
  }

  lemma StandsBefore(a: Stance, h: Header)
    requires a.coding == h.coding && a.pos == a.code == 0
    ensures Before(a, 0, h)
  {
  }

  /** A round at a marker of well-formed headers. */
  lemma MarkerRound(s: seq<byte>, len: nat, slice: nat, ready: bool, a: Stance, v: nat, h: Header)
    requires len <= |s| && 64 * len < TWO32 && MarkerAt(s, len, v, h) && Before(a, v, h)
    ensures var code, q := s[v + 1], v + 2;
      RoundOf(s, len, slice, ready, a) ==
        if Final(code) then End(EndAt(code, q, ready))
        else if !HasLength(code) then Onward(Stance(q, code, h.coding))
        else if IsSof(code) && DecShape(SofAt(s, q)).None? then End(Back(Unsupported))
        else Onward(Stance(q + Be16(s, q), code, if IsSof(code) then code else h.coding))
  {
    hide Segment, DecShape, SofAt, CaseOf, Landing;
    var code, q := s[v + 1], v + 2;
    if HasLength(code) {
      SegmentCase(s, len, q, code, h, slice, ready);
    } else {
      PlainCase(s, len, q, code, slice, ready, h.coding);
    }
  }

  lemma PlainCase(s: seq<byte>, len: nat, q: nat, code: nat, slice: nat, ready: bool, coding: nat)
    requires len <= |s| && !HasLength(code)
    ensures !Final(code) ==> CaseOf(s, len, slice, ready, q, code, coding) == Next
    ensures Final(code) ==>
      CaseOf(s, len, slice, ready, q, code, coding)
      == match EndAt(code, q, ready) case AtScan(_) => Scan case Back(ret) => Leave(ret)
    ensures Landing(s, len, q, code, coding) == q
  {
  }

  ghost function StanceOf(stream: StreamStorage, c: JpegDecContainer, currentByte: nat): Stance
    reads stream, c
  {
    Stance(stream.pCurrPos, currentByte, c.codingType)
  }

  /** The headers behind the marker at v. */
  function HeadersPast(s: seq<byte>, len: nat, v: nat, h: Header): Header
    requires len <= |s| && MarkerAt(s, len, v, h)
  {
    if HasLength(s[v + 1]) then Segment(s, len, v + 2, s[v + 1], h).value else h
  }

  /** The switch in the loop, on the code just read, and the test at the end of the loop. */
  method OneMarker(stream: StreamStorage, c: JpegDecContainer, currentByte: nat, imageReady: bool, slice: nat,
                   ghost wf: bool, ghost h: Header)
    returns (out: Option<Search>)
    requires Ready(stream) && !stream.appnFlag && stream.pCurrPos <= stream.streamLength
    requires wf ==>
      && Stored(stream.s, c, slice, h) && 2 <= stream.pCurrPos
      && MarkerAt(stream.s, stream.streamLength, stream.pCurrPos - 2, h)
      && currentByte == stream.s[stream.pCurrPos - 1]
    modifies stream, c`codingType, c`operationType, c`restart, c`hwX, c`hwY, c`numMcuInRow, c`numMcuInFrame,
             c`frame, c`fillRight, c`fillBottom, c`quant, c`vlc
    ensures Ready(stream)
    ensures Switched(stream.s, stream.streamLength, slice, imageReady, old(stream.pCurrPos), currentByte,
                     old(c.codingType))
         == match out
            case Some(end) => End(end)
            case None => Onward(StanceOf(stream, c, currentByte))
    ensures out.None? ==> !stream.appnFlag
    ensures out.Some? && out.value.AtScan? ==> stream.pCurrPos == out.value.sos
    ensures wf && (out.None? || out.value.AtScan?) ==>
      var s, len, q := stream.s, stream.streamLength, old(stream.pCurrPos);
      Stored(s, c, slice, if HasLength(currentByte) then Segment(s, len, q, currentByte, h).value else h)
  {
    hide CaseOf, Landing, Segment, SofAt, DecFrame, DecShape, SofRead, EnoughData, QuantSegment, HuffSegment;
    if wf && HasLength(currentByte) {
      SegmentReads(stream.s, stream.streamLength, stream.pCurrPos, currentByte, h, slice);
    }
    var marker := Switch(stream, c, currentByte, imageReady, slice);
    match marker {
      case Leave(ret) => return Some(Back(ret));
      case Scan => return Some(AtScan(stream.pCurrPos));
      case Next =>
    }
    out := if stream.readBits / 8 > stream.streamLength then Some(NoScan) else None;
  }

  /** The body of the loop.  With wf, the walk stands at the marker at v. */
  method OneRound(stream: StreamStorage, c: JpegDecContainer, currentByte0: nat, imageReady: bool, slice: nat,
                  ghost wf: bool, ghost v: nat, ghost h: Header)
    returns (out: Option<Search>, currentByte: nat)
    requires Ready(stream) && !stream.appnFlag && stream.pCurrPos <= stream.streamLength
    requires wf ==>
      && Stored(stream.s, c, slice, h) && MarkerAt(stream.s, stream.streamLength, v, h)
      && Before(StanceOf(stream, c, currentByte0), v, h)
    modifies stream, c`codingType, c`operationType, c`restart, c`hwX, c`hwY, c`numMcuInRow, c`numMcuInFrame,
             c`frame, c`fillRight, c`fillBottom, c`quant, c`vlc
    ensures Ready(stream)
    ensures RoundOf(stream.s, stream.streamLength, slice, imageReady, old(StanceOf(stream, c, currentByte0)))
         == match out
            case Some(end) => End(end)
            case None => Onward(StanceOf(stream, c, currentByte))
    ensures out.None? ==> !stream.appnFlag
    ensures out.Some? && out.value.AtScan? ==> stream.pCurrPos == out.value.sos
    ensures wf && (out.None? || out.value.AtScan?) ==>
      Stored(stream.s, c, slice, HeadersPast(stream.s, stream.streamLength, v, h))
  {
    hide Switched, Segment, Stored, OtherProcess;
    currentByte := currentByte0;
    var found := currentByte == 0xFF;
    if !found {
      var b := stream.GetByte();
      found := b == 0xFF;
      if b == STRM_ERROR && currentByte != STRM_ERROR && stream.readBits / 8 <= stream.streamLength {
        return Some(Endless), currentByte;
      }
    }
    if found {
      currentByte := stream.GetByte();
      out := OneMarker(stream, c, currentByte, imageReady, slice, wf, h);
      return;
    }
    if currentByte == STRM_ERROR {
      return Some(NoScan), currentByte;
    }
    out := if stream.readBits / 8 > stream.streamLength then Some(NoScan) else None;
  }

  /** A round at one of the markers of well-formed headers. */
  lemma StopRound(s: seq<byte>, len: nat, slice: nat, ready: bool, a: Stance, stops: seq<Stop>, i: nat)
    requires len <= |s| && 64 * len < TWO32 && Stops(s, len, stops) && i < |stops|
    requires Before(a, stops[i].v, stops[i].h)
    ensures MarkerAt(s, len, stops[i].v, stops[i].h)
    ensures var r, h := RoundOf(s, len, slice, ready, a), HeadersPast(s, len, stops[i].v, stops[i].h);
      if i + 1 == |stops| then r == End(EndAt(s[stops[i].v + 1], stops[i].v + 2, ready)) && h == stops[i].h
      else if r.Onward? then Before(r.to, stops[i + 1].v, stops[i + 1].h) && h == stops[i + 1].h
      else r == End(Back(Unsupported)) && UnsupportedFrame(s, stops[|stops| - 1].h.sof)
    ensures RoundOf(s, len, slice, ready, a).Onward? && !UnsupportedFrame(s, stops[i].h.sof) ==>
      !UnsupportedFrame(s, stops[i + 1].h.sof)
  {
    hide RoundOf, DecShape;
    assert StopAt(s, len, stops, i);
    MarkerRound(s, len, slice, ready, a, stops[i].v, stops[i].h);
    if i + 1 < |stops| {
      FrameStays(s, len, stops, i + 1);
    }
  }

  lemma {:induction false} WalkFollows(s: seq<byte>, len: nat, slice: nat, ready: bool, a: Stance,
                                       stops: seq<Stop>, i: nat)
    requires len <= |s| && 64 * len < TWO32 && Stops(s, len, stops) && i < |stops| && a.pos <= len
    requires Before(a, stops[i].v, stops[i].h) && !UnsupportedFrame(s, stops[i].h.sof)
    ensures var last := stops[|stops| - 1];
      last.v + 2 <= len && Walk(s, len, slice, ready, a)
      == if UnsupportedFrame(s, last.h.sof) then Back(Unsupported) else EndAt(s[last.v + 1], last.v + 2, ready)
    decreases |stops| - i
  {
    LastInside(s, len, stops);
    hide RoundOf, Before, MarkerAt, UnsupportedFrame, StopAt;
    StopRound(s, len, slice, ready, a, stops, i);
    var r := RoundOf(s, len, slice, ready, a);
    if r.Onward? {
      RoundMoves(s, len, slice, ready, a);
      WalkFollows(s, len, slice, ready, r.to, stops, i + 1);
    }
  }

  lemma LastInside(s: seq<byte>, len: nat, stops: seq<Stop>)
    requires len <= |s| && Stops(s, len, stops)
    ensures stops[|stops| - 1].v + 2 <= len
  {
    assert StopAt(s, len, stops, |stops| - 1);
  }

  /** On well-formed headers the walk ends at the marker they lead to: at a scan, at the end of the image, or with
      a refusal of what the marker stands for, or of the frame before it. */
  lemma WalkOnMarkers(s: seq<byte>, len: nat, slice: nat, ready: bool, h: Header)
    requires len <= |s| && 64 * len < TWO32 && LastMarker(s, len, 0, h).Some? && h.sof.None?
    ensures var last := LastMarker(s, len, 0, h).value;
      var code := s[last.v + 1];
      Walk(s, len, slice, ready, Stance(0, 0, h.coding)) ==
        if UnsupportedFrame(s, last.h.sof) then Back(Unsupported)
        else if code == 0xDA then AtScan(last.v + 2)
        else if code == 0xD9 then Back(if ready then FrameReady else Error)
        else Back(Unsupported)
  {
    hide Walk;
    var stops := StopsOf(s, len, 0, h);
    WalkFollows(s, len, slice, ready, Stance(0, 0, h.coding), stops, 0);
  }

  /** On well-formed headers the walk ends at their scan, or returns because the frame is not supported. */
  lemma WalkOnHeaders(s: seq<byte>, len: nat, slice: nat, ready: bool, h: Header)
    requires len <= |s| && 64 * len < TWO32 && ReadHeader(s, len, 0, h).Some? && h.sof.None?
    ensures var r := ReadHeader(s, len, 0, h).value;
      Walk(s, len, slice, ready, Stance(0, 0, h.coding))
      == if UnsupportedFrame(s, r.sof) then Back(Unsupported) else AtScan(r.sos)
  {
    ReadIsLast(s, len, 0, h);
    hide Walk, ReadHeader, LastMarker, UnsupportedFrame;
    WalkOnMarkers(s, len, slice, ready, h);
  }

  /** The loop.  imageReady and slice are fields of the container that it only reads. */
  method MarkerLoop(stream: StreamStorage, c: JpegDecContainer, imageReady: bool, slice: nat, ghost stops: seq<Stop>)
    returns (end: Search)
    requires Ready(stream) && stream.pCurrPos == 0 && !stream.appnFlag
    requires stops != [] ==>
      Stops(stream.s, stream.streamLength, stops) && stops[0].v == 0 && Stored(stream.s, c, slice, stops[0].h)
    modifies stream, c`codingType, c`operationType, c`restart, c`hwX, c`hwY, c`numMcuInRow, c`numMcuInFrame,
             c`frame, c`fillRight, c`fillBottom, c`quant, c`vlc
    ensures Ready(stream)
    ensures end == Walk(stream.s, stream.streamLength, slice, imageReady, Stance(0, 0, old(c.codingType)))
    ensures stops != [] ==>
      var last := stops[|stops| - 1];
      && last.v + 2 <= stream.streamLength
      && if UnsupportedFrame(stream.s, last.h.sof) then end == Back(Unsupported)
         else
           && end == EndAt(stream.s[last.v + 1], last.v + 2, imageReady)
           && (end.AtScan? ==> stream.pCurrPos == end.sos && Stored(stream.s, c, slice, last.h))
  {
    hide RoundOf, Stored, Before, MarkerAt, StopAt, Segment;
    var currentByte := 0;
    ghost var s, len, i, wf := stream.s, stream.streamLength, 0, stops != [];
    ghost var whole := Walk(s, len, slice, imageReady, StanceOf(stream, c, 0));
    if wf {
      LastInside(s, len, stops);
      StoredSays(s, c, slice, stops[0].h);
      StandsBefore(StanceOf(stream, c, 0), stops[0].h);
    }
    while true
      invariant Ready(stream) && !stream.appnFlag && stream.pCurrPos <= len
      invariant Walk(s, len, slice, imageReady, StanceOf(stream, c, currentByte)) == whole
      invariant wf ==> i < |stops| && Stored(s, c, slice, stops[i].h)
      invariant wf ==> Before(StanceOf(stream, c, currentByte), stops[i].v, stops[i].h)
      decreases len - stream.pCurrPos, if currentByte == 0xFF then 1 else 0
    {
      ghost var a := StanceOf(stream, c, currentByte);
      ghost var stop := if wf then stops[i] else Stop(0, Header(0, 0, None, None, false, c.quant, c.vlc));
      if wf {
        StoredSays(s, c, slice, stop.h);
        StopRound(s, len, slice, imageReady, a, stops, i);
      }
      var out;
      out, currentByte := OneRound(stream, c, currentByte, imageReady, slice, wf, stop.v, stop.h);
      if out.Some? {
        return out.value;
      }
      RoundMoves(s, len, slice, imageReady, a);
      i := i + 1;
    }
  }

  /** The loop of JpegDecDecode up to the scan.  On every stream it ends as Walk says, or never.  On
      well-formed headers it stops at the scan that ReadHeader finds, with the tables, the restart
      interval and the frame stored, unless the frame is not supported. */
  method FindScan(stream: StreamStorage, c: JpegDecContainer, imageReady: bool, slice: nat, ghost h0: Header)
    returns (end: Search)
    requires Ready(stream) && stream.pCurrPos == 0 && !stream.appnFlag
    requires Stored(stream.s, c, slice, h0)
    modifies stream, c`codingType, c`operationType, c`restart, c`hwX, c`hwY, c`numMcuInRow, c`numMcuInFrame,
             c`frame, c`fillRight, c`fillBottom, c`quant, c`vlc
    ensures Ready(stream)
    ensures end == Walk(stream.s, stream.streamLength, slice, imageReady, Stance(0, 0, old(c.codingType)))
    ensures match ReadHeader(stream.s, stream.streamLength, 0, h0)
      case None => true
      case Some(r) =>
        if UnsupportedFrame(stream.s, r.sof) then end == Back(Unsupported)
        else end == AtScan(r.sos) && stream.pCurrPos == r.sos && Stored(stream.s, c, slice, r)
    ensures match LastMarker(stream.s, stream.streamLength, 0, h0)
      case None => true
      case Some(last) =>
        end == if UnsupportedFrame(stream.s, last.h.sof) then Back(Unsupported)
               else EndAt(stream.s[last.v + 1], last.v + 2, imageReady)
  {
    hide Walk, UnsupportedFrame, Segment, OtherProcess, ReadHeader, LastMarker, Stops, DecFrame;
    ghost var stops := [];
    if ReadHeader(stream.s, stream.streamLength, 0, h0).Some? {
      ReadIsLast(stream.s, stream.streamLength, 0, h0);
    }
    if LastMarker(stream.s, stream.streamLength, 0, h0).Some? {
      stops := StopsOf(stream.s, stream.streamLength, 0, h0);
    }
    end := MarkerLoop(stream, c, imageReady, slice, stops);
  }

  // ---- Segments that are not well formed

  /** What the loop makes, at a marker, of an application or comment segment that is too short or longer than the
      stream, of one of tables or a frame whose length asks for more than the stream has, and of a restart interval
      that is cut off. */
  lemma BadSegment(s: seq<byte>, len: nat, slice: nat, ready: bool, v: nat, coding: nat)
    requires v + 4 <= len <= |s| && 64 * len < TWO32 && s[v] == 0xFF
    ensures var c, l, end := s[v + 1], Be16(s, v + 2), Walk(s, len, slice, ready, Stance(v, 0, coding));
      && (c == 0xE0 && l < 2 ==> end == Back(WildJump))
      && (c == 0xE0 && l >= 2 && v + 2 + l > len ==> end == Back(StrmError))
      && ((0xE1 <= c <= 0xEF || c == 0xFE) && l == 1 ==> end == Back(WildJump))
      && ((0xE1 <= c <= 0xEF || c == 0xFE) && v + 2 + l > len ==> end == NoScan)
      && (c in {0xC0, 0xC2, 0xC4, 0xDB} && v + 4 + l > len ==> end == Back(StrmError))
      && (c in {0xC0, 0xC2} && v + 4 + l <= len && DecFrame(SofRead(s, len, v + 2), slice).None? ==>
           end == Back(Unsupported))
  {
    hide QuantRun, HuffRun, DecFrame, SofRead;
  }

  /** A header byte that is not taken, at the head of a segment of tables. */
  lemma BadTable(s: seq<byte>, len: nat, slice: nat, ready: bool, v: nat, coding: nat)
    requires v + 5 <= len <= |s| && 64 * len < TWO32 && s[v] == 0xFF
    requires 4 < Be16(s, v + 2) && v + 4 + Be16(s, v + 2) <= len
    ensures var c, b, end := s[v + 1], s[v + 4], Walk(s, len, slice, ready, Stance(v, 0, coding));
      && (c == 0xDB && b > 3 ==> end == Back(Unsupported))
      && (c == 0xC4 && !Allowed(coding, b as int / 16, b as int % 16) ==> end == Back(Unsupported))
  {
    hide DecFrame, SofRead, OtherProcess, BytesAt;
  }
}
