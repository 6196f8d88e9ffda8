/** Between two scans: the search for another scan, which looks at all bytes, and the marker loop of
    JpegDecNextScanHdrs, which follows the segments. */
module NextScan {
  import opened Common
  import opened Container
  import opened DecodeWalker
  import opened HeaderSyntax
  import opened MarkerWalk
  import opened StreamReader
  import opened TableReaders
  import opened TableSegments

  // ---- The search

  /** Marker codes that decide whether a scan is the last. */
  predicate Deciding(code: nat) { code in {EOI, DHT, SOS} }

  predicate Decisive(s: seq<byte>, i: nat)
    requires i + 1 < |s|
  {
    s[i] == 0xFF && Deciding(s[i + 1])
  }

  /** i is the first decisive place from p on. */
  predicate FirstDecisive(s: seq<byte>, len: nat, p: nat, i: nat)
    requires len < |s|
  {
    p <= i < len && Decisive(s, i) && forall j :: p <= j < i ==> !Decisive(s, j)
  }

  /** The search from p for another scan: endOfImage is false exactly when a DHT or SOS marker is the first
      of the decisive ones. */
  method EndOfImage(s: seq<byte>, len: nat, p: nat) returns (endOfImage: bool)
    requires p <= len < |s|
    ensures !endOfImage <==> exists i :: FirstDecisive(s, len, p, i) && s[i + 1] != EOI
  {
    endOfImage := true;
    var i := p;
    while i < len
      invariant p <= i <= len && endOfImage
      invariant forall j :: p <= j < i ==> !Decisive(s, j)
    {
      if s[i] == 0xFF {
        var currentByte := s[i + 1];
        if currentByte == 0xD9 {
          assert Decisive(s, i);
          return true;
        } else if currentByte == 0xC4 || currentByte == 0xDA {
          assert FirstDecisive(s, len, p, i);
          return false;
        }
      }
      i := i + 1;
    }
  }

  // ---- The marker loop

  /** The switch: frame headers are not read, and APP0 is skipped like the others. */
  function NextCase(s: seq<byte>, len: nat, ready: bool, q: nat, code: nat, coding: nat): Case
    requires len <= |s|
  {
    if IsSof(code) then Next
    else if code == SOS then Scan
    else if code == DHT then Judged(HuffSegment(s, len, q, coding, NO_VLC).ret)
    else if code == DQT then Judged(QuantSegment(s, len, q, NO_QUANT).ret)
    else if code == EOI then Leave(if ready then FrameReady else Error)
    else if code == DRI then if q + 2 > len then Leave(StrmError) else Next
    else if code == DNL || code == TEM || OtherProcess(code) then Leave(Unsupported)
    else if IsApp(code) || code == COM then SkipCase(s, len, q)
    else Next
  }

  function NextLanding(s: seq<byte>, len: nat, q: nat, code: nat, coding: nat): nat
    requires len <= |s|
  {
    if IsSof(code) then q else Landing(s, len, q, code, coding)
  }

  /** The switch on a marker whose code is at q - 1, and the test at the end of the loop. */
  function NextSwitched(s: seq<byte>, len: nat, ready: bool, q: nat, code: nat, coding: nat): Round
    requires len <= |s|
  {
    match NextCase(s, len, ready, q, code, coding)
    case Leave(ret) => End(Back(ret))
    case Scan => End(AtScan(q))
    case Next =>
      var pos := NextLanding(s, len, q, code, coding);
      if pos > len then End(NoScan) else Onward(Stance(pos, code, coding))
  }

  /** A round: unlike that of JpegDecDecode it does not take a code FF for a prefix. */
  function NextRound(s: seq<byte>, len: nat, ready: bool, a: Stance): Round
    requires len <= |s|
  {
    if a.pos < len && s[a.pos] == 0xFF then
      var q := a.pos + 1;
      if q < len then NextSwitched(s, len, ready, q + 1, s[q], a.coding)
      else NextSwitched(s, len, ready, q, STRM_ERROR, a.coding)
    else if a.code == STRM_ERROR then End(NoScan)
    else if a.pos < len then Onward(a.(pos := a.pos + 1))
    else End(Endless)
  }

  lemma NextMoves(s: seq<byte>, len: nat, ready: bool, a: Stance)
    requires len <= |s| && a.pos <= len && NextRound(s, len, ready, a).Onward?
    ensures var b := NextRound(s, len, ready, a).to; a.pos < b.pos <= len && b.coding == a.coding
  {
    hide Landing, QuantSegment, HuffSegment, OtherProcess;
    if a.pos < len && s[a.pos] == 0xFF {
      var q := a.pos + 1;
      var c, r := if q < len then s[q] as nat else STRM_ERROR, if q < len then q + 1 else q;
      LandsBehind(s, len, ready, r, c, a.coding);
    }
  }

  lemma LandsBehind(s: seq<byte>, len: nat, ready: bool, q: nat, code: nat, coding: nat)
    requires len <= |s| && q <= len && NextCase(s, len, ready, q, code, coding) == Next
    ensures q <= NextLanding(s, len, q, code, coding)
  {
    hide QuantRun, HuffRun, OtherProcess;
    if code == DHT {
      HuffRunMoves(s, len, AfterWord(len, q), 4, WordAt(s, len, q), coding, NO_VLC);
    } else if code == DQT {
      QuantRunMoves(s, len, AfterWord(len, q), 4, WordAt(s, len, q), NO_QUANT);
    }
  }

  /** The whole loop.  NoScan is its return of OK without a scan. */
  function NextWalk(s: seq<byte>, len: nat, ready: bool, a: Stance): Search
    requires len <= |s| && a.pos <= len
    decreases len - a.pos
  {
    var r := NextRound(s, len, ready, a);
    if r.End? then r.end
    else
      NextMoves(s, len, ready, a);
      NextWalk(s, len, ready, r.to)
  }

  method NextSwitch(stream: StreamStorage, c: JpegDecContainer, imageReady: bool, code: nat) returns (out: Case)
    requires Ready(stream) && stream.pCurrPos <= stream.streamLength
    modifies stream, c`quant, c`vlc, c`restart
    ensures Ready(stream)
    ensures var s, len, q := stream.s, stream.streamLength, old(stream.pCurrPos);
      && out == NextCase(s, len, imageReady, q, code, c.codingType)
      && (out == Next ==> stream.pCurrPos == NextLanding(s, len, q, code, c.codingType))
      && (out == Scan ==> stream.pCurrPos == q)
  {
    hide QuantSegment, HuffSegment, OtherProcess;
    TablesDoNotMatter(stream.s, stream.streamLength, stream.pCurrPos, c.codingType, c.quant, c.vlc);
    out := Next;
    if IsSof(code) {
    } else if code == SOS {
      out := Scan;
    } else if code == DHT {
      var ret := DecodeHuffmanTables(stream, c);
      out := if ret == Ok then Next else Leave(ret);
    } else if code == DQT {
      var ret := DecodeQuantTables(stream, c);
      out := if ret == Ok then Next else Leave(ret);
    } else if code == EOI {
      out := Leave(if imageReady then FrameReady else Error);
    } else if code == DRI {
      var currentBytes := stream.Get2Bytes();
      if currentBytes == STRM_ERROR {
        return Leave(StrmError);
      }
      c.restart := stream.Get2Bytes();
    } else if code == DNL || code == TEM || OtherProcess(code) {
      out := Leave(Unsupported);
    } else if IsApp(code) || code == COM {
      out := SkipSegment(stream);
    }
  }

  /** JpegDecNextScanHdrs up to the scan header. */
  method NextScanHdrs(stream: StreamStorage, c: JpegDecContainer, imageReady: bool) returns (end: Search)
    requires Ready(stream) && stream.pCurrPos <= stream.streamLength
    modifies stream, c`quant, c`vlc, c`restart
    ensures Ready(stream)
    ensures end == NextWalk(stream.s, stream.streamLength, imageReady, Stance(old(stream.pCurrPos), 0, c.codingType))
    ensures end.AtScan? ==> stream.pCurrPos == end.sos
  {
    hide NextCase, NextLanding;
    var currentByte := 0;
    ghost var s, len, coding := stream.s, stream.streamLength, c.codingType;
    ghost var whole := NextWalk(s, len, imageReady, Stance(stream.pCurrPos, 0, coding));
    while true
      invariant Ready(stream) && stream.pCurrPos <= len
      invariant NextWalk(s, len, imageReady, Stance(stream.pCurrPos, currentByte, coding)) == whole
      decreases len - stream.pCurrPos
    {
      ghost var a := Stance(stream.pCurrPos, currentByte, coding);
      var b := stream.GetByte();
      if b == 0xFF {
        currentByte := stream.GetByte();
        var marker := NextSwitch(stream, c, imageReady, currentByte);
        match marker {
          case Leave(ret) => return Back(ret);
          case Scan => return AtScan(stream.pCurrPos);
          case Next =>
        }
      } else if currentByte == STRM_ERROR {
        return NoScan;
      } else if b == STRM_ERROR {
        return Endless;
      }
      if stream.readBits / 8 > stream.streamLength {
        return NoScan;
      }
      NextMoves(s, len, imageReady, a);
    }
  }

  // ---- Where it goes

  /** Well-formed headers from p on without a fill byte. */
  predicate Unfilled(s: seq<byte>, len: nat, p: nat, h: Header)
    requires len <= |s|
    decreases len - p
  {
    p + 2 <= len && s[p] == 0xFF
    && var c, q := s[p + 1], p + 2;
       if c == 0xFF then false
       else if Standalone(c) then Unfilled(s, len, q, h)
       else if !HasLength(c) then true
       else if q + 2 > len then false
       else match Segment(s, len, q, c, h)
         case None => false
         case Some(g) => Unfilled(s, len, q + Be16(s, q), g)
  }

  /** Behind a scan, tables, restart intervals and application segments are passed up to the next scan, the end of
      the image, or a marker that is refused. */
  lemma {:induction false} NextOnMarkers(s: seq<byte>, len: nat, ready: bool, p: nat, code: nat, h: Header)
    requires len <= |s| && 64 * len < TWO32 && code != STRM_ERROR && h.sof.Some?
    requires Unfilled(s, len, p, h) && LastMarker(s, len, p, h).Some?
    ensures var last := LastMarker(s, len, p, h).value;
      var c := s[last.v + 1];
      NextWalk(s, len, ready, Stance(p, code, h.coding)) ==
        if c == 0xDA then AtScan(last.v + 2)
        else if c == 0xD9 then Back(if ready then FrameReady else Error)
        else Back(Unsupported)
    decreases len - p
  {
    hide *;
    UnfilledStep(s, len, p, h);
    var c, q := s[p + 1], p + 2;
    if Final(c) {
      FinalNext(s, len, ready, p, code, h.coding);
    } else if HasLength(c) {
      PassedNext(s, len, ready, p, code, h);
      NextOnMarkers(s, len, ready, q + Be16(s, q), c, Segment(s, len, q, c, h).value);
    } else {
      PlainNext(s, len, ready, p, code, h.coding);
      NextOnMarkers(s, len, ready, q, c, h);
    }
  }

  lemma NextStep(s: seq<byte>, len: nat, ready: bool, a: Stance, b: Stance)
    requires len <= |s| && a.pos <= len && b.pos <= len && NextRound(s, len, ready, a) == Onward(b)
    ensures NextWalk(s, len, ready, a) == NextWalk(s, len, ready, b)
  {
    hide NextRound;
  }

  lemma UnfilledStep(s: seq<byte>, len: nat, p: nat, h: Header)
    requires len <= |s| && h.sof.Some? && Unfilled(s, len, p, h) && LastMarker(s, len, p, h).Some?
    ensures p + 2 <= len && s[p] == 0xFF && s[p + 1] != 0xFF && s[p + 1] != STRM_ERROR
    ensures var c, q := s[p + 1], p + 2;
      if Final(c) then LastMarker(s, len, p, h) == Some(Stop(p, h)) && !HasLength(c)
      else if HasLength(c) then
        && q + 2 <= len && Segment(s, len, q, c, h).Some? && 2 <= Be16(s, q) && q + Be16(s, q) + 2 <= len
        && var g := Segment(s, len, q, c, h).value;
           && g.sof == h.sof && g.coding == h.coding && Unfilled(s, len, q + Be16(s, q), g)
           && LastMarker(s, len, q + Be16(s, q), g) == LastMarker(s, len, p, h)
      else Standalone(c) && Unfilled(s, len, q, h) && LastMarker(s, len, q, h) == LastMarker(s, len, p, h)
  {
    var c, q := s[p + 1], p + 2;
    Kinds(c);
    if HasLength(c) {
      SegmentLength(s, len, q, c, h);
      SegmentKeepsFrame(s, len, q, c, h);
    }
    hide Segment, HasLength, Standalone, Final;
  }

  lemma SegmentKeepsFrame(s: seq<byte>, len: nat, q: nat, c: nat, h: Header)
    requires len <= |s| && q + 2 <= len && Segment(s, len, q, c, h).Some? && h.sof.Some?
    ensures var g := Segment(s, len, q, c, h).value; !IsSof(c) && g.sof == h.sof && g.coding == h.coding
  {
  }

  lemma PlainNext(s: seq<byte>, len: nat, ready: bool, p: nat, code: nat, coding: nat)
    requires p + 2 <= len <= |s| && s[p] == 0xFF && Standalone(s[p + 1])
    ensures NextWalk(s, len, ready, Stance(p, code, coding)) == NextWalk(s, len, ready, Stance(p + 2, s[p + 1], coding))
  {
    assert NextRound(s, len, ready, Stance(p, code, coding)) == Onward(Stance(p + 2, s[p + 1], coding));
    NextStep(s, len, ready, Stance(p, code, coding), Stance(p + 2, s[p + 1], coding));
  }

  lemma FinalNext(s: seq<byte>, len: nat, ready: bool, p: nat, code: nat, coding: nat)
    requires p + 2 <= len <= |s| && s[p] == 0xFF && Final(s[p + 1])
    ensures var c := s[p + 1];
      NextWalk(s, len, ready, Stance(p, code, coding)) ==
        if c == 0xDA then AtScan(p + 2)
        else if c == 0xD9 then Back(if ready then FrameReady else Error)
        else Back(Unsupported)
  {
  }

  lemma PassedNext(s: seq<byte>, len: nat, ready: bool, p: nat, code: nat, h: Header)
    requires len <= |s| && 64 * len < TWO32 && h.sof.Some? && p + 4 <= len && s[p] == 0xFF && HasLength(s[p + 1])
    requires Segment(s, len, p + 2, s[p + 1], h).Some? && p + 2 + Be16(s, p + 2) + 2 <= len
    ensures NextWalk(s, len, ready, Stance(p, code, h.coding))
         == NextWalk(s, len, ready, Stance(p + 2 + Be16(s, p + 2), s[p + 1], h.coding))
  {
    PassedRound(s, len, ready, p, code, h);
    hide *;
    NextStep(s, len, ready, Stance(p, code, h.coding), Stance(p + 2 + Be16(s, p + 2), s[p + 1], h.coding));
  }

  lemma PassedRound(s: seq<byte>, len: nat, ready: bool, p: nat, code: nat, h: Header)
    requires len <= |s| && 64 * len < TWO32 && h.sof.Some? && p + 4 <= len && s[p] == 0xFF && HasLength(s[p + 1])
    requires Segment(s, len, p + 2, s[p + 1], h).Some? && p + 2 + Be16(s, p + 2) + 2 <= len
    ensures NextRound(s, len, ready, Stance(p, code, h.coding))
         == Onward(Stance(p + 2 + Be16(s, p + 2), s[p + 1], h.coding))
  {
    var c, q := s[p + 1], p + 2;
    SegmentKeepsFrame(s, len, q, c, h);
    SegmentReads(s, len, q, c, h, 0);
    TablesDoNotMatter(s, len, q, h.coding, h.quant, h.vlc);
    hide Segment, QuantSegment, HuffSegment, OtherProcess;
  }

  // ---- When they see the same

  /** From p on the loop passes only segments that hide no decisive pair, and comes to a decisive marker
      at v. */
  predicate ComesTo(s: seq<byte>, len: nat, ready: bool, p: nat, coding: nat, v: nat)
    requires len < |s|
    decreases len - p
  {
    p <= v && v + 1 < len
    && if s[p] != 0xFF then ComesTo(s, len, ready, p + 1, coding, v)
       else if Deciding(s[p + 1]) then v == p
       else
         var code, q := s[p + 1], p + 2;
         && NextCase(s, len, ready, q, code, coding) == Next
         && var to := NextLanding(s, len, q, code, coding);
            && p < to <= v && (forall i :: p < i < to ==> !Decisive(s, i))
            && ComesTo(s, len, ready, to, coding, v)
  }

  lemma {:induction false} SameMarker(s: seq<byte>, len: nat, ready: bool, p: nat, code: nat, coding: nat, v: nat)
    requires len < |s| && code != STRM_ERROR && ComesTo(s, len, ready, p, coding, v)
    ensures v + 1 < len && FirstDecisive(s, len, p, v)
    ensures NextWalk(s, len, ready, Stance(p, code, coding)) == NextWalk(s, len, ready, Stance(v, 0, coding))
    decreases len - p
  {
    hide NextCase, NextLanding;
    if s[p] != 0xFF {
      SameMarker(s, len, ready, p + 1, code, coding, v);
    } else if !Deciding(s[p + 1]) {
      var to := NextLanding(s, len, p + 2, s[p + 1], coding);
      SameMarker(s, len, ready, to, s[p + 1], coding, v);
    } else {
      assert NextRound(s, len, ready, Stance(p, code, coding)) == NextRound(s, len, ready, Stance(v, 0, coding));
    }
  }

  lemma AtMarker(s: seq<byte>, len: nat, ready: bool, v: nat, coding: nat)
    requires len < |s| && v + 1 < len && Decisive(s, v)
    ensures s[v + 1] == SOS ==> NextWalk(s, len, ready, Stance(v, 0, coding)) == AtScan(v + 2)
    ensures s[v + 1] == EOI ==>
      NextWalk(s, len, ready, Stance(v, 0, coding)) == Back(if ready then FrameReady else Error)
  {
  }

  /** Then the search announces another scan exactly when the loop is not at an EOI, and at an SOS the loop
      finds the scan that was announced. */
  method SearchThenLoop(buffer: array<byte>, stream: StreamStorage, c: JpegDecContainer, imageReady: bool, ghost v: nat)
      returns (endOfImage: bool, end: Search)
    requires Ready(stream) && stream.pCurrPos <= stream.streamLength && buffer == stream.mem
    requires ComesTo(stream.s, stream.streamLength, imageReady, stream.pCurrPos, c.codingType, v)
    modifies stream, c`quant, c`vlc, c`restart
    ensures var code := stream.s[v + 1];
      && (endOfImage <==> code == EOI)
      && (code == SOS ==> end == AtScan(v + 2))
      && (code == EOI ==> end == Back(if imageReady then FrameReady else Error))
  {
    hide ComesTo;
    ghost var s, len, p := stream.s, stream.streamLength, stream.pCurrPos;
    SameMarker(s, len, imageReady, p, 0, c.codingType, v);
    assert buffer[..] == s;
    AtMarker(s, len, imageReady, v, c.codingType);
    endOfImage := EndOfImage(buffer[..], stream.streamLength, stream.pCurrPos);
    end := NextScanHdrs(stream, c, imageReady);
  }

  /** They do not see the same if a segment hides a pair: a comment with FF DA in it, and then EOI. */
  lemma HiddenPair(s: seq<byte>, coding: nat)
    requires |s| >= 9 && s[0] == 0xFF && s[1] == 0xFE && s[2] == 0 && s[3] == 4 && s[4] == 0xFF && s[5] == 0xDA
    requires s[6] == 0xFF && s[7] == 0xD9
    ensures FirstDecisive(s, 8, 0, 4) && s[5] != EOI
    ensures NextWalk(s, 8, false, Stance(0, 0, coding)) == Back(Error)
  {
    assert Decisive(s, 4);
    assert NextRound(s, 8, false, Stance(0, 0, coding)) == Onward(Stance(6, 0xFE, coding));
    assert NextRound(s, 8, false, Stance(6, 0xFE, coding)) == End(Back(Error));
  }

  /** Nor behind a fill byte, which makes the loop pass over the marker. */
  lemma FilledMarker(s: seq<byte>, coding: nat)
    requires |s| >= 6 && s[0] == 0xFF && s[1] == 0xFF && s[2] == 0xDA && s[3] == 0xFF && s[4] == 0xD9
    ensures FirstDecisive(s, 5, 0, 1) && s[2] != EOI
    ensures NextWalk(s, 5, false, Stance(0, 0, coding)) == Back(Error)
  {
    assert !Decisive(s, 0) && Decisive(s, 1);
    assert NextWalk(s, 5, false, Stance(3, 0xFF, coding)) == Back(Error);
    assert NextRound(s, 5, false, Stance(0, 0, coding)) == Onward(Stance(2, 0xFF, coding));
    assert NextRound(s, 5, false, Stance(2, 0xFF, coding)) == Onward(Stance(3, 0xFF, coding));
    assert NextRound(s, 5, false, Stance(3, 0xFF, coding)) == End(Back(Error));
  }

  /** Nor if tables come before the EOI. */
  lemma TablesAtEnd(s: seq<byte>, ready: bool, coding: nat)
    requires |s| >= 7 && s[0] == 0xFF && s[1] == 0xC4 && s[2] == 0 && s[3] == 2 && s[4] == 0xFF && s[5] == 0xD9
    ensures FirstDecisive(s, 6, 0, 0) && s[1] != EOI
    ensures NextWalk(s, 6, ready, Stance(0, 0, coding)) == Back(if ready then FrameReady else Error)
  {
    assert NextRound(s, 6, ready, Stance(0, 0, coding)) == Onward(Stance(4, 0xC4, coding));
    AtMarker(s, 6, ready, 4, coding);
  }
}
