/** Which images are got, in terms of the fields of their scan headers alone. */
module ImageLaws {
  import opened CallChecks
  import opened Common
  import opened Container
  import opened Finishing
  import opened FrameGeometry
  import opened Images
  import opened InfoCases
  import opened Scans
  import opened SliceSizing
  import opened TableSegments

  /** The state at the first scan header, after the frame header of this image. */
  predicate AtHeader(c: Control, f: FrameFacts) {
    AtFrame(c, f) && WholeFrame(f) && FromHeader(c.p, f)
  }

  /** Every component of a non-interleaved image has a scan of its own, or counted as decoded before. */
  predicate EachAlone(c: Control, scans: seq<ScanHeader>) {
    forall i: Index :: c.components[i] || ScannedAlone(scans, i)
  }

  /** Finishes, with acceptance of the headers said of each of them. */
  lemma FinishesIff(k: Setup, c: Control, f: FrameFacts, scans: seq<ScanHeader>, end: Ending)
    requires WellPosed(scans, end) && scans != [] && AtHeader(c, f)
    ensures Finishes(k, c, f, scans, end) <==>
      if f.coding == SOF2 then
        && end.Eoi? && TakesAll(f, scans) && NoticedReady(c, scans)
        && (DecodeChecks(k, Progressive).Some? ==> |scans| == 1 && FewOwed(c, f, scans))
      else if f.nf == 3 && scans[0].ns == 1 then
        && end in {Eoi, NoEoi} && TakesAll(f, scans) && EachAlone(c, scans)
        && (DecodeChecks(k, NonInterleaved).Some? ==> FewOwed(c, f, scans))
      else Takes(f, scans[0]) && (|scans| == 1 ==> !end.Failed?)
  {
    StartsSteady(c.p, f);
    RunTakenIff(c, f, scans, false);
    OneScan(c.p, f, scans[0], c.scanReady);
    hide Run, ScanStep, Takes, TakesAll, FewOwed, NoticedReady, ScannedAlone, DecodeChecks, Steady, Says;
  }

  /** The images the wrapper gets from the decoder as JpegDecInit sets it up: baseline ones whose first scan
      header is taken and decoded, and non-interleaved ones of at most 16370688 samples whose headers are all
      taken, that have a scan of every component alone, and that owe at most one component an empty scan. */
  lemma WrapperGetsImages(k: Setup, sof: Sof, c: Control, f: FrameFacts, scans: seq<ScanHeader>, end: Ending)
    requires WellPosed(scans, end) && scans != [] && AtHeader(c, f)
    requires WellTyped(sof) && InfoFrame(sof) == Some(k.geo) && Chosen(k.geo, k.slice) && k.fuseBurned == FUSE_BURNED
    ensures GetsFrame(ImageCalls(k, HeadOf(c, f, scans), c, f, scans, end).codes) <==>
      && f.coding == SOF0
      && if f.nf == 3 && scans[0].ns == 1 then
           && k.geo.hwX * k.geo.hwY <= 16370688 && end in {Eoi, NoEoi}
           && TakesAll(f, scans) && EachAlone(c, scans) && FewOwed(c, f, scans)
         else Takes(f, scans[0]) && (|scans| == 1 ==> !end.Failed?)
  {
    WrapperDecodesIff(k, sof, c, f, scans, end);
    FinishesIff(k, c, f, scans, end);
    hide ImageCalls, Finishes, TakesAll, Takes, FewOwed, EachAlone, DecodeChecks, InfoFrame, Chosen, WholeFrame;
  }

  /** The only scan of an ordinary baseline image of one or three components. */
  function Interleaved(nf: nat): ScanHeader
    requires nf == 1 || nf == 3
  {
    ScanHeader(nf, if nf == 1 then [1] else [1, 2, 3], 0, 63, 0)
  }

  /** It is got, whatever its format and its size. */
  lemma OrdinaryBaseline(k: Setup, sof: Sof, c: Control, f: FrameFacts, end: Ending)
    requires AtHeader(c, f) && f.coding == SOF0 && end in {Eoi, NoEoi}
    requires WellTyped(sof) && InfoFrame(sof) == Some(k.geo) && Chosen(k.geo, k.slice) && k.fuseBurned == FUSE_BURNED
    ensures GetsFrame(ImageCalls(k, Baseline, c, f, [Interleaved(f.nf)], end).codes)
  {
    var scans := [Interleaved(f.nf)];
    assert Takes(f, scans[0]);
    WrapperGetsImages(k, sof, c, f, scans, end);
    hide ImageCalls, Takes, InfoFrame, Chosen;
  }

  function Lone(i: Index): ScanHeader { ScanHeader(1, [i + 1], 0, 63, 0) }

  /** So is an ordinary non-interleaved one, a scan for each component, on a decoder without old marks, if it is
      not 4:4:4 or 4:1:1 and not too large. */
  lemma OrdinarySeparate(k: Setup, sof: Sof, c: Control, f: FrameFacts, end: Ending)
    requires AtHeader(c, f) && f.coding == SOF0 && f.nf == 3 && end in {Eoi, NoEoi}
    requires c.p.pfNeeded == [false, false, false]
    requires WellTyped(sof) && InfoFrame(sof) == Some(k.geo) && Chosen(k.geo, k.slice) && k.fuseBurned == FUSE_BURNED
    ensures GetsFrame(ImageCalls(k, NonInterleaved, c, f, [Lone(0), Lone(1), Lone(2)], end).codes)
       <==> f.format !in {Yuv444, Yuv411} && k.geo.hwX * k.geo.hwY <= 16370688
  {
    var scans := [Lone(0), Lone(1), Lone(2)];
    assert TakesAll(f, scans) <==> f.format !in {Yuv444, Yuv411} by {
      assert Takes(f, scans[0]) && Takes(f, scans[1]) && Takes(f, scans[2]) <==> f.format !in {Yuv444, Yuv411};
    }
    assert EachAlone(c, scans) by {
      assert Alone(scans[0], 0) && Alone(scans[1], 1) && Alone(scans[2], 2);
    }
    assert FewOwed(c, f, scans);
    WrapperGetsImages(k, sof, c, f, scans, end);
    hide ImageCalls, Takes, TakesAll, EachAlone, FewOwed, InfoFrame, Chosen;
  }

  /** The operation type that JpegDecGetImageInfo stores, having looked at the frame header and the first scan
      header, is the one that the first call finds at its head. */
  lemma HeadIsStored(info: ImageInfo, c: Control, f: FrameFacts, scans: seq<ScanHeader>)
    requires AtHeader(c, f) && scans != [] && info.outputFormat == Some(f.format)
    requires info.codingMode == if f.coding == SOF0 then Baseline else Progressive
    ensures ModeAfterScan(info, scans[0].ns) == HeadOf(c, f, scans)
  {
  }

  /** The bytes of the scan header of an ordinary image. */
  lemma OrdinaryBytes(s: seq<byte>, len: nat, q: nat, tables: seq<byte>)
    requires len <= |s| && |tables| == 3 && q + 12 <= len
    requires s[q..q + 12] == [0, 12, 3, 1, tables[0], 2, tables[1], 3, tables[2], 0, 63, 0]
    ensures HeaderAt(s, len, q) == Interleaved(3)
  {
    var b := s[q..q + 12];
    assert forall i :: 0 <= i < 12 ==> s[q + i] == b[i];
    assert s[q + 2] == 3;
    HeaderFields(s, len, q);
    var h := HeaderAt(s, len, q);
    assert h.cs[0] == b[3] && h.cs[1] == b[5] && h.cs[2] == b[7] && h.ss == b[9] && h.se == b[10] && h.a == b[11];
    assert h.cs == [1, 2, 3];
  }
}
