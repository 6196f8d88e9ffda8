/** The two marker walkers on the same stream. */
module Agreement {
  import opened Common
  import opened FrameGeometry
  import opened FrameLaws
  import opened StreamReader
  import opened HeaderSyntax
  import opened Container
  import opened InfoSegments
  import opened InfoWalker
  import opened DecodeWalker
  import opened MarkerWalk
  import opened TableSegments

  predicate InfoTakes(s: seq<byte>, sof: Option<nat>) {
    sof.Some? ==>
      && sof.value + 8 <= |s| && sof.value + 8 + 3 * s[sof.value + 7] as int <= |s|
      && InfoFrame(SofAt(s, sof.value)).Some?
  }

  /** Headers that JpegDecGetImageInfo accepts have a frame it supports, if any. */
  lemma {:induction false} AcceptedFrame(s: seq<byte>, len: nat, v: nat, k: nat, h: Header)
    requires len <= |s| && ReadHeader(s, len, v, h).Some? && InfoAccepts(s, len, v, k, h) && InfoTakes(s, h.sof)
    ensures InfoTakes(s, ReadHeader(s, len, v, h).value.sof)
    decreases len - v
  {
    ReadStep(s, len, v, h);
    if s[v + 1] != SOS {
      AcceptedFrame(s, len, MarkerAfter(s, len, v), StepsAfter(s, len, v, k, h.jfxx), HeaderAfter(s, len, v, h));
    }
  }

  /** A frame header and a restart interval, once read, stay read; the scan lies behind every marker. */
  lemma {:induction false} HeaderGrows(s: seq<byte>, len: nat, v: nat, h: Header)
    requires len <= |s| && ReadHeader(s, len, v, h).Some?
    ensures var r := ReadHeader(s, len, v, h).value;
      && (h.sof.Some? ==> r.sof == h.sof) && (h.ri.Some? ==> r.ri.Some?) && v + 2 <= r.sos
    decreases len - v
  {
    hide Segment, WellFormed, SofAt;
    ReadStep(s, len, v, h);
    if s[v + 1] != SOS {
      MarkerGoesOn(s, len, v, h.jfxx);
      HeaderGrows(s, len, MarkerAfter(s, len, v), HeaderAfter(s, len, v, h));
    }
  }

  lemma MarkerGoesOn(s: seq<byte>, len: nat, v: nat, jfxx: bool)
    requires len <= |s| && GoodMarker(s, len, v, jfxx) && s[v + 1] != SOS
    ensures v < MarkerAfter(s, len, v) <= len
    ensures forall k: nat :: k <= v ==> StepsAfter(s, len, v, k, jfxx) <= MarkerAfter(s, len, v)
  {
  }

  /** A condition that can be seen without following the counter: no restart interval, a supported frame,
      and an eighth of a byte of slack for every byte of header. */
  lemma {:induction false} RoomToSpare(s: seq<byte>, len: nat, v: nat, k: nat, h: Header)
    requires len <= |s| && ReadHeader(s, len, v, h).Some? && k <= v
    requires var r := ReadHeader(s, len, v, h).value;
      && r.ri.None? && InfoTakes(s, r.sof) && 9 * r.sos + 8 * Be16(s, r.sos) + 16 < 8 * len
    ensures InfoAccepts(s, len, v, k, h)
    decreases len - v
  {
    hide Segment, WellFormed, SofAt, LeavesPrefix;
    ReadStep(s, len, v, h);
    if s[v + 1] != SOS {
      var u, g := MarkerAfter(s, len, v), HeaderAfter(s, len, v, h);
      MarkerGoesOn(s, len, v, h.jfxx);
      HeaderGrows(s, len, u, g);
      RoomToSpare(s, len, u, StepsAfter(s, len, v, k, h.jfxx), g);
    }
  }

  /** A frame header whose components the decoder takes: consecutive identifiers, and no absent components
      that GetImageInfo would read as 4:0:0. */
  predicate Decodable(f: Sof)
    requires WellTyped(f)
  {
    ConsecutiveIds(f.comps)
    && (InfoFrame(f).Some? && InfoFrame(f).value.format == Yuv400 ==> |f.comps| == 1)
  }

  /** On headers that JpegDecGetImageInfo accepts, JpegDecDecode refuses the frame exactly when its
      component identifiers jump or it is a 4:0:0 frame with three components; otherwise both compute the
      same geometry, whatever the slice height. */
  lemma WalkersAgree(s: seq<byte>, len: nat, h0: Header, slice: nat)
    requires len <= |s| && Empty(h0) && ReadHeader(s, len, 0, h0).Some? && InfoAccepts(s, len, 0, 0, h0)
    ensures var sof := ReadHeader(s, len, 0, h0).value.sof;
      && InfoTakes(s, sof)
      && (sof.Some? ==>
           var f := SofAt(s, sof.value);
           && (UnsupportedFrame(s, sof) <==> !Decodable(f))
           && (!UnsupportedFrame(s, sof) ==> DecFrame(f, slice).value.geo == InfoFrame(f).value))
  {
    AcceptedFrame(s, len, 0, 0, h0);
    var sof := ReadHeader(s, len, 0, h0).value.sof;
    if sof.Some? {
      FramesAgree(SofAt(s, sof.value));
      SliceKeepsGeometry(SofAt(s, sof.value), slice);
    }
  }

  lemma SliceKeepsGeometry(f: Sof, slice: nat)
    requires f.y < TWO32 && f.x < TWO32
    ensures DecFrame(f, 0).Some? ==>
      DecFrame(f, slice).Some? && DecFrame(f, slice).value.geo == DecFrame(f, 0).value.geo
  {
    hide DecShape;
  }

  /** The decoder is at the scan, with everything stored that the headers r say and the geometry that was
      reported in info; or it has refused a frame that is not Decodable. */
  ghost predicate Agree(s: seq<byte>, c: JpegDecContainer, info: ImageInfo, end: Search, r: Header)
    reads c
  {
    && r.sof.Some? && InfoTakes(s, r.sof)
    && var f := SofAt(s, r.sof.value);
       if Decodable(f) then
         && end == AtScan(r.sos) && c.frame.Some? && c.frame.value.geo == InfoFrame(f).value
         && HasGeometry(c, info, InfoFrame(f).value)
         && c.quant == r.quant && c.vlc == r.vlc && (r.ri.Some? ==> c.restart == r.ri.value)
       else end == Back(Unsupported)
  }

  /** What JpegDecGetImageInfo has reported, where the decoder does not write. */
  ghost predicate Reported(s: seq<byte>, c: JpegDecContainer, info: ImageInfo, r: Header)
    reads c`getInfoYCbCrMode
  {
    r.sof.Some? && InfoTakes(s, r.sof) ==>
      var g := InfoFrame(SofAt(s, r.sof.value)).value;
      && c.getInfoYCbCrMode == info.outputFormat == Some(g.format)
      && info.outputWidth == g.hwX && info.outputHeight == g.hwY
  }

  lemma ReportedIs(s: seq<byte>, c: JpegDecContainer, info: ImageInfo, r: Header)
    requires FrameKnown(s, c, info, r.sof)
    ensures Reported(s, c, info, r)
  {
  }

  lemma StoredAtStart(s: seq<byte>, c: JpegDecContainer, slice: nat, h0: Header)
    requires Empty(h0) && h0.coding == c.codingType && h0.quant == c.quant && h0.vlc == c.vlc
    ensures Stored(s, c, slice, h0)
  {
  }

  lemma Agreed(s: seq<byte>, c: JpegDecContainer, info: ImageInfo, end: Search, r: Header, slice: nat)
    requires InfoTakes(s, r.sof) && Reported(s, c, info, r)
    requires r.sof.Some? ==>
      var f := SofAt(s, r.sof.value);
      && (UnsupportedFrame(s, r.sof) <==> !Decodable(f))
      && (!UnsupportedFrame(s, r.sof) ==> DecFrame(f, slice).value.geo == InfoFrame(f).value)
    requires if UnsupportedFrame(s, r.sof) then end == Back(Unsupported)
             else end == AtScan(r.sos) && Stored(s, c, slice, r)
    ensures r.sof.Some? ==> Agree(s, c, info, end, r)
  {
  }

  lemma {:induction false} StartsForEver(s: seq<byte>, len: nat, slice: nat, coding: nat, i: nat, code: nat)
    requires EightStarts(s, len) && i <= 8 && code in {0, 0xD8}
    ensures Walk(s, len, slice, false, Stance(2 * i, code, coding)) == Endless
    decreases 8 - i
  {
    if i < 8 {
      assert RoundOf(s, len, slice, false, Stance(2 * i, code, coding))
        == Round.Onward(Stance(2 * i + 2, 0xD8, coding));
      StartsForEver(s, len, slice, coding, i + 1, 0xD8);
    }
  }

  /** JpegDecGetImageInfo and then JpegDecDecode up to the first scan, on one container, as the wrapper
      calls them: the buffer size is 0 or that of the stream, the slice height is anything, and the decoder
      may have seen other images before.  Whenever GetImageInfo accepts the headers of a stream that has a
      frame, either the decoder reaches the same scan, with the geometry that GetImageInfo reported, or it
      refuses a frame that is not Decodable.  A decoder that has seen an image accepts FF D8 eight times
      too, and never returns. */
  method InfoThenDecode(buffer: array<byte>, length: nat, bufferSize: nat, slice: nat, c: JpegDecContainer,
                        ghost h0: Header)
    returns (ret: Ret, info: ImageInfo, end: Search)
    requires bufferSize == 0 || bufferSize == length
    requires buffer.Length >= length + 5 && 64 * length < TWO32
    requires Empty(h0) && h0.coding == c.codingType && h0.quant == c.quant && h0.vlc == c.vlc
    modifies c
    ensures ReadHeader(buffer[..], length, 0, h0).Some? ==>
      var r := ReadHeader(buffer[..], length, 0, h0).value;
      && (InfoAccepts(buffer[..], length, 0, 0, h0) ==> ret == Ok)
      && (ret == Ok && !old(c.init) ==> InfoAccepts(buffer[..], length, 0, 0, h0))
      && (InfoAccepts(buffer[..], length, 0, 0, h0) && r.sof.Some? ==> Agree(buffer[..], c, info, end, r))
    ensures EightStarts(buffer[..], length) && old(c.init) ==> ret == Ok && end == Endless
  {
    hide InfoAccepts, Agree, EightStarts, Walk, FrameKnown, Reported, Stored, UnsupportedFrame, Decodable;
    var infoStream := new StreamStorage(buffer, length);
    ghost var sos, steps;
    ret, info, sos, steps := GetImageInfo(infoStream, c, bufferSize, h0);
    end := NoScan;
    if ret != Ok {
      return;
    }
    if ReadHeader(buffer[..], length, 0, h0).Some? && sos.Some? {
      ReportedIs(buffer[..], c, info, ReadHeader(buffer[..], length, 0, h0).value);
    }
    StoredAtStart(buffer[..], c, slice, h0);
    if EightStarts(buffer[..], length) {
      StartsForEver(buffer[..], length, slice, c.codingType, 0, 0);
    }
    var stream := new StreamStorage(buffer, length);
    end := FindScan(stream, c, false, slice, h0);
    if ReadHeader(buffer[..], length, 0, h0).Some? && sos.Some? {
      WalkersAgree(buffer[..], length, h0, slice);
      Agreed(buffer[..], c, info, end, ReadHeader(buffer[..], length, 0, h0).value, slice);
    }
  }

  // ---- Headers that only one of them takes

  /** A restart interval longer than the stream is refused by JpegDecGetImageInfo, which checks it as if it
      were a segment length, wherever it stands. */
  lemma {:induction false} LongIntervalRefused(s: seq<byte>, len: nat, v: nat, k: nat, h: Header)
    requires len <= |s| && 64 * len < TWO32 && ReadHeader(s, len, v, h).Some?
    requires h.ri.None? || h.ri.value <= len
    requires var r := ReadHeader(s, len, v, h).value; r.ri.Some? && r.ri.value > len
    ensures !InfoAccepts(s, len, v, k, h)
    decreases len - v
  {
    hide Segment, WellFormedSof, SofAt, LeavesPrefix;
    ReadStep(s, len, v, h);
    if s[v + 1] != SOS && MarkerPasses(s, len, v, k, h.jfxx) {
      MarkerGoesOn(s, len, v, h.jfxx);
      if s[v + 1] == DRI {
        TooLongIs(8 * (v + 2) + k + 32, Be16(s, v + 4), len);
      }
      LongIntervalRefused(s, len, MarkerAfter(s, len, v), StepsAfter(s, len, v, k, h.jfxx),
                          HeaderAfter(s, len, v, h));
    }
  }

  /** The stream has these bytes at p. */
  predicate Has(s: seq<byte>, p: nat, b: seq<byte>) {
    p + |b| <= |s| && forall i :: p <= i < p + |b| ==> s[i] == b[i - p]
  }

  /** A stream of SOI, a restart interval of 256, a supported frame and a scan header: JpegDecGetImageInfo
      refuses it, and the marker loop of JpegDecDecode, once the decoder is initialised, reaches its scan. */
  lemma LongIntervalExample(s: seq<byte>, h0: Header, slice: nat)
    requires |s| >= 27 && Empty(h0)
    requires Has(s, 0, [0xFF, 0xD8, 0xFF, 0xDD, 0, 4, 1, 0]) && Has(s, 8, [0xFF, 0xC0, 0, 11, 8, 0, 64, 0, 64, 1])
    requires Has(s, 18, [1, 0x11, 0, 0xFF, 0xDA, 0, 2])
    ensures ReadHeader(s, 27, 0, h0).Some? && ReadHeader(s, 27, 0, h0).value.sof.Some?
    ensures !InfoAccepts(s, 27, 0, 0, h0)
    ensures Walk(s, 27, slice, false, Stance(0, 0, h0.coding)) == AtScan(ReadHeader(s, 27, 0, h0).value.sos)
  {
    hide Walk, InfoAccepts, UnsupportedFrame;
    var h1 := h0.(ri := Some(256));
    assert s[0] == 0xFF && s[1] == 0xD8 && s[2] == 0xFF && s[3] == 0xDD && Be16(s, 4) == 4 && Be16(s, 6) == 256;
    assert Segment(s, 27, 4, DRI, h0) == Some(h1);
    FrameThenScan(s, h1);
    LongIntervalRefused(s, 27, 0, 0, h0);
    WalkOnHeaders(s, 27, slice, false, h0);
  }

  lemma FrameThenScan(s: seq<byte>, h: Header)
    requires |s| >= 27 && h.sof.None?
    requires Has(s, 8, [0xFF, 0xC0, 0, 11, 8, 0, 64, 0, 64, 1]) && Has(s, 18, [1, 0x11, 0, 0xFF, 0xDA, 0, 2])
    ensures ReadHeader(s, 27, 8, h) == Some(h.(coding := SOF0, sof := Some(10), sos := 23))
    ensures !UnsupportedFrame(s, Some(10))
  {
    hide DecShape;
    assert s[8] == 0xFF && s[9] == 0xC0 && Be16(s, 10) == 11 && s[12] == 8 && Be16(s, 13) == 64 && Be16(s, 15) == 64;
    assert s[17] == 1 && s[18] == 1 && s[19] == 0x11 && s[20] == 0;
    assert s[21] == 0xFF && s[22] == 0xDA && Be16(s, 23) == 2;
    var g := h.(coding := SOF0, sof := Some(10));
    assert WellFormedSof(s, 27, 10);
    assert ReadHeader(s, 27, 21, g) == Some(g.(sos := 23));
    SmallGrey(SofAt(s, 10));
  }

  lemma SmallGrey(f: Sof)
    requires f.p == 8 && f.y == 64 && f.x == 64 && |f.comps| == 1
    ensures DecShape(f).Some?
  {
  }

  /** A grey frame declared with three components, two of them absent: JpegDecGetImageInfo accepts the
      stream, JpegDecDecode refuses the frame. */
  lemma GreyExample(s: seq<byte>, h0: Header, slice: nat)
    requires |s| >= 32 && Empty(h0)
    requires Has(s, 0, [0xFF, 0xD8, 0xFF, 0xC0, 0, 17, 8, 0, 64, 0, 64, 3])
    requires Has(s, 12, [1, 0x11, 0, 2, 0, 0, 3, 0, 0, 0xFF, 0xDA, 0, 2])
    ensures ReadHeader(s, 32, 0, h0).Some? && InfoAccepts(s, 32, 0, 0, h0)
    ensures Walk(s, 32, slice, false, Stance(0, 0, h0.coding)) == Back(Unsupported)
  {
    hide InfoAccepts, UnsupportedFrame, InfoTakes, Decodable, Walk;
    assert s[0] == 0xFF && s[1] == 0xD8 && s[2] == 0xFF && s[3] == 0xC0 && s[21] == 0xFF && s[22] == 0xDA;
    assert s[11] == 3 && Be16(s, 4) == 17 && Be16(s, 23) == 2;
    var g := h0.(coding := SOF0, sof := Some(4));
    assert s[12] == 1 && s[13] == 0x11 && s[14] == 0 && s[15] == 2 && s[16] == 0 && s[17] == 0;
    assert s[18] == 3 && s[19] == 0 && s[20] == 0;
    assert WellFormedSof(s, 32, 4);
    assert Segment(s, 32, 4, SOF0, h0) == Some(g);
    assert ReadHeader(s, 32, 21, g) == Some(g.(sos := 23));
    assert ReadHeader(s, 32, 2, h0) == Some(g.(sos := 23));
    AbsentComponents(s);
    RoomToSpare(s, 32, 0, 0, h0);
    WalkersAgree(s, 32, h0, slice);
    WalkOnHeaders(s, 32, slice, false, h0);
  }

  lemma AbsentComponents(s: seq<byte>)
    requires |s| >= 21 && Has(s, 4, [0, 17, 8, 0, 64, 0, 64, 3]) && Has(s, 12, [1, 0x11, 0, 2, 0, 0, 3, 0, 0])
    ensures InfoTakes(s, Some(4)) && !Decodable(SofAt(s, 4))
  {
    assert s[6] == 8 && Be16(s, 7) == 64 && Be16(s, 9) == 64 && s[11] == 3;
    assert s[12] == 1 && s[13] == 0x11 && s[15] == 2 && s[16] == 0 && s[18] == 3 && s[19] == 0;
    var f := SofAt(s, 4);
    assert Factors(f.comps) == [(1, 1), (0, 0), (0, 0)];
  }
}
