/** Whole images: the calls of JpegDecDecode from the first scan to the last empty one, the codes they
    return, and what the wrapper makes of these codes. */
module Images {
  import opened CallChecks
  import opened Common
  import opened EmptyScans
  import opened Finishing
  import opened FrameGeometry
  import opened FrameReader
  import opened Scans
  import opened SliceSizing
  import opened StreamReader
  import opened TableSegments

  /** What is found behind the last scan: the marker EOI, the end of the stream with no FF as its last byte,
      or another scan that is refused with a code before its header is read; or the hardware fails in the
      last scan. */
  datatype Ending = Eoi | NoEoi | Broken(ret: Ret) | Failed(ret: Ret)

  /** A code that the source returns on an error. */
  predicate Refusal(ret: Ret) { ret !in {Ok, FrameReady, SliceReady, StrmProcessed, ScanProcessed} }

  predicate WellPosed(scans: seq<ScanHeader>, end: Ending) {
    && AllReadable(scans) && (scans == [] ==> end.Broken?)
    && (end.Broken? || end.Failed? ==> Refusal(end.ret))
  }

  // ---- The calls

  /** What one scan, header and result, comes to: codes and the end, or codes and the next scan. */
  datatype ScanEnd = Ends(calls: Calls) | GoesOn(codes: seq<Ret>, c: Control)

  /** A scan header, its result, and what comes behind it, which may be the head of the next call. */
  function ScanTurn(k: Setup, c: Control, f: FrameFacts, h: ScanHeader, last: bool, end: Ending): (r: ScanEnd)
    requires Readable(h)
    ensures r.GoesOn? && last ==> end.Broken?
  {
    var (refused, d) := HeaderDone(c, f, h);
    if refused != Ok then Ends(Calls([refused], false, []))
    else if last && end.Failed? then Ends(Calls([end.ret], false, []))
    else
      var more := !last || end.Broken?;
      var (ret, e, rdy) := ScanDone(d, !more, false);
      if ret.Some? then
        match DecodeChecks(k, e.p.op)
        case Some(atHead) => Ends(Calls([ret.value, atHead], false, []))
        case None => GoesOn([ret.value], e)
      else if e.p.op == Baseline then Ends(Calls([FrameReady], false, []))
      else if more then GoesOn([], e)
      else if !rdy && end == NoEoi then Ends(Calls([], true, []))
      else if rdy || e.imageReady then Ends(FinishCalls(k, e.p.op, f, e.p.pfNeeded))
      else Ends(Calls([Error], false, []))
  }

  function Append(codes: seq<Ret>, rest: Calls): Calls { rest.(codes := codes + rest.codes) }

  /** The rest of a call, and the calls of an application that calls again as long as SCAN_PROCESSED comes
      back. */
  function Codes(k: Setup, c: Control, f: FrameFacts, scans: seq<ScanHeader>, end: Ending): Calls
    requires WellPosed(scans, end)
    decreases |scans|
  {
    if scans == [] then Calls([end.ret], false, [])
    else
      match ScanTurn(k, c, f, scans[0], |scans| == 1, end)
      case Ends(calls) => calls
      case GoesOn(codes, d) => Append(codes, Codes(k, d, f, scans[1..], end))
  }

  /** All calls for an image.  head is the operation type that the first call finds at its head, before it
      reads the frame header; c is the state at the first scan header. */
  function ImageCalls(k: Setup, head: OpType, c: Control, f: FrameFacts, scans: seq<ScanHeader>, end: Ending): Calls
    requires WellPosed(scans, end)
  {
    match DecodeChecks(k, head)
    case Some(ret) => Calls([ret], false, [])
    case None => Codes(k, c, f, scans, end)
  }

  /** After these codes the rest of all the calls is that of the scans from i on. */
  predicate UpTo(all: Calls, codes: seq<Ret>, k: Setup, c: Control, f: FrameFacts, scans: seq<ScanHeader>, i: nat,
                 end: Ending)
  {
    i <= |scans| && WellPosed(scans[i..], end) && all == Append(codes, Codes(k, c, f, scans[i..], end))
  }

  lemma UpToFirst(k: Setup, c: Control, f: FrameFacts, scans: seq<ScanHeader>, end: Ending)
    requires WellPosed(scans, end)
    ensures UpTo(Codes(k, c, f, scans, end), [], k, c, f, scans, 0, end)
  {
    hide Codes;
    assert scans[0..] == scans;
    assert [] + Codes(k, c, f, scans, end).codes == Codes(k, c, f, scans, end).codes;
  }

  lemma UpToNext(all: Calls, codes: seq<Ret>, k: Setup, c: Control, f: FrameFacts, scans: seq<ScanHeader>, i: nat,
                 end: Ending)
    requires i < |scans| && AllReadable(scans) && UpTo(all, codes, k, c, f, scans, i, end)
    ensures
      match ScanTurn(k, c, f, scans[i], i == |scans| - 1, end)
      case Ends(calls) => all == Append(codes, calls)
      case GoesOn(more, d) => UpTo(all, codes + more, k, d, f, scans, i + 1, end)
  {
    hide ScanTurn;
    var r := ScanTurn(k, c, f, scans[i], i == |scans| - 1, end);
    assert scans[i..][1..] == scans[i + 1..];
    if r.GoesOn? {
      var rest := Codes(k, r.c, f, scans[i + 1..], end).codes;
      assert codes + (r.codes + rest) == (codes + r.codes) + rest;
    }
  }

  lemma UpToEnd(all: Calls, codes: seq<Ret>, k: Setup, c: Control, f: FrameFacts, scans: seq<ScanHeader>, end: Ending)
    requires UpTo(all, codes, k, c, f, scans, |scans|, end)
    ensures end.Broken? && all == Calls(codes + [end.ret], false, [])
  {
  }

  /** The scan header behind an SOS marker that ends at q. */
  function HeaderAt(s: seq<byte>, len: nat, q: nat): (r: ScanHeader)
    requires len <= |s|
    ensures Readable(r)
  {
    ScanRead(s, len, AfterWord(len, q))
  }

  /** Its fields as section B.2.3 lays them out, where they are all there. */
  lemma HeaderFields(s: seq<byte>, len: nat, q: nat)
    requires q + 3 <= len <= |s| && s[q + 2] <= 3 && q + 6 + 2 * s[q + 2] as int <= len
    ensures var h, n := HeaderAt(s, len, q), s[q + 2] as int;
      && h.ns == |h.cs| == n && (forall i :: 0 <= i < n ==> h.cs[i] == s[q + 3 + 2 * i])
      && h.ss == s[q + 3 + 2 * n] && h.se == s[q + 4 + 2 * n] && h.a == s[q + 5 + 2 * n]
  {
  }

  function HeadersAt(s: seq<byte>, len: nat, at: seq<nat>): (r: seq<ScanHeader>)
    requires len <= |s|
    ensures |r| == |at| && AllReadable(r) && forall i :: 0 <= i < |at| ==> r[i] == HeaderAt(s, len, at[i])
  {
    seq(|at|, i requires 0 <= i < |at| => HeaderAt(s, len, at[i]))
  }

  /** One turn of the loop over hardware results in JpegDecDecode, and of the calls that finish the image.
      q is the place of the scan header, which the marker loop has reached. */
  method ScanAndResult(k: Setup, hw: HwControl, fin: Finisher, stream: StreamStorage, q: nat, last: bool, end: Ending)
      returns (codes: seq<Ret>, hangs: bool, on: bool)
    requires stream.Valid() && fin.Valid() && !fin.progressiveFinish && fin.info == hw.info
    requires q <= stream.streamLength && EnoughData(stream.s, stream.streamLength, q)
    modifies hw, hw.info, fin, stream
    ensures stream.Valid()
    ensures on ==> !hangs && fin.Valid() && !fin.progressiveFinish && fin.log == old(fin.log)
    ensures var r := ScanTurn(k, old(hw.Current()), fin.f, HeaderAt(stream.s, stream.streamLength, q), last, end);
      if on then r == GoesOn(codes, hw.Current())
      else r.Ends? && codes == r.calls.codes && hangs == r.calls.hangs && fin.log == old(fin.log) + r.calls.empty
  {
    hide HeaderDone, ScanRead, FinishCalls, AfterWord, EnoughData, EmptyScansOf, Needed, DecodeChecks;
    codes, hangs, on := [], false, false;
    var ret := hw.StartScan(stream, fin.f, q);
    if ret != Ok {
      return [ret], false, false;
    }
    if last && end.Failed? {
      return [end.ret], false, false;
    }
    var more := !last || end.Broken?;
    var processed, rdy := hw.AfterScan(!more, false);
    if processed.Some? {
      var atHead := DecodeChecks(k, hw.info.operationType);
      if atHead.Some? {
        return [processed.value, atHead.value], false, false;
      }
      return [processed.value], false, true;
    }
    if hw.info.operationType == Baseline {
      return [FrameReady], false, false;
    }
    if more {
      return [], false, true;
    }
    if !rdy && end == NoEoi {
      return [], true, false;
    }
    if !rdy && !hw.imageReady {
      return [Error], false, false;
    }
    codes := fin.FinishImage(k);
  }

  /** All calls for an image: the loop in JpegDecDecode inside the loop of the application.  at has the
      places of the scan headers. */
  method DecodeImage(k: Setup, head: OpType, hw: HwControl, fin: Finisher, stream: StreamStorage, at: seq<nat>,
                     end: Ending)
      returns (codes: seq<Ret>, hangs: bool)
    requires stream.Valid() && fin.Valid() && !fin.progressiveFinish && fin.info == hw.info
    requires forall i :: 0 <= i < |at| ==>
      at[i] <= stream.streamLength && EnoughData(stream.s, stream.streamLength, at[i])
    requires WellPosed(HeadersAt(stream.s, stream.streamLength, at), end)
    modifies hw, hw.info, fin, stream
    ensures var scans := HeadersAt(stream.s, stream.streamLength, at);
      var calls := ImageCalls(k, head, old(hw.Current()), fin.f, scans, end);
      codes == calls.codes && hangs == calls.hangs && fin.log == old(fin.log) + calls.empty
  {
    hide ScanTurn, HeaderAt, HeadersAt, Codes, UpTo, EnoughData, WellPosed, DecodeChecks;
    codes, hangs := [], false;
    var refused := DecodeChecks(k, head);
    if refused.Some? {
      return [refused.value], false;
    }
    ghost var f, scans := fin.f, HeadersAt(stream.s, stream.streamLength, at);
    ghost var all := Codes(k, hw.Current(), f, scans, end);
    var i, on := 0, true;
    UpToFirst(k, hw.Current(), f, scans, end);
    while i < |at| && on
      invariant i <= |at| && stream.Valid()
      invariant on ==> !hangs && fin.Valid() && !fin.progressiveFinish && fin.log == old(fin.log)
      invariant on ==> UpTo(all, codes, k, hw.Current(), f, scans, i, end)
      invariant !on ==> codes == all.codes && hangs == all.hangs && fin.log == old(fin.log) + all.empty
      decreases |at| - i
    {
      UpToNext(all, codes, k, hw.Current(), f, scans, i, end);
      var more;
      more, hangs, on := ScanAndResult(k, hw, fin, stream, at[i], i == |at| - 1, end);
      codes := codes + more;
      i := i + 1;
    }
    if on {
      UpToEnd(all, codes, k, hw.Current(), f, scans, end);
      codes := codes + [end.ret];
    }
  }

  /** The wrapper takes every code but these three for an error. */
  predicate GetsFrame(codes: seq<Ret>) {
    codes != [] && (codes[0] == FrameReady || (codes[0] in {SliceReady, StrmProcessed} && GetsFrame(codes[1..])))
  }

  /** Its loop over the codes that JpegDecDecode returns. */
  method DecodeLoop(codes: seq<Ret>) returns (got: bool)
    ensures got == GetsFrame(codes)
  {
    var i := 0;
    while i < |codes|
      invariant i <= |codes| && GetsFrame(codes) == GetsFrame(codes[i..])
    {
      if codes[i] == FrameReady {
        return true;
      } else if codes[i] == SliceReady {
      } else if codes[i] == StrmProcessed {
      } else {
        return false;
      }
      i := i + 1;
    }
    got := false;
  }

  /** FRAME_READY comes, and nothing but pauses before it. */
  lemma {:induction false} GetsFrameIff(codes: seq<Ret>)
    ensures GetsFrame(codes) <==>
      exists i :: 0 <= i < |codes| && codes[i] == FrameReady
                  && forall j :: 0 <= j < i ==> codes[j] == SliceReady || codes[j] == StrmProcessed
    decreases |codes|
  {
    if codes != [] {
      var rest := codes[1..];
      GetsFrameIff(rest);
      assert forall i :: 0 <= i < |rest| ==> rest[i] == codes[i + 1];
      if i :| 0 <= i < |rest| && rest[i] == FrameReady
              && forall j :: 0 <= j < i ==> rest[j] in {SliceReady, StrmProcessed} {
        assert codes[i + 1] == FrameReady;
      }
      if i :| 0 <= i < |codes| && codes[i] == FrameReady
              && forall j :: 0 <= j < i ==> codes[j] in {SliceReady, StrmProcessed} {
        assert i > 0 ==> rest[i - 1] == FrameReady;
      }
    }
  }

  function WithoutPauses(codes: seq<Ret>): seq<Ret> {
    if codes == [] then []
    else (if codes[0] in {SliceReady, StrmProcessed} then [] else [codes[0]]) + WithoutPauses(codes[1..])
  }

  /** Calls that return for a slice or for input make no difference. */
  lemma {:induction false} PausesDoNotMatter(codes: seq<Ret>)
    ensures GetsFrame(codes) <==> GetsFrame(WithoutPauses(codes))
  {
    if codes != [] {
      PausesDoNotMatter(codes[1..]);
      var rest := WithoutPauses(codes[1..]);
      assert [] + rest == rest;
      assert ([codes[0]] + rest)[1..] == rest;
    }
  }

  // ---- What single turns come to

  /** Some call returns FRAME_READY. */
  predicate Completes(calls: Calls) { FrameReady in calls.codes }

  lemma HeaderRefusal(c: Control, f: FrameFacts, h: ScanHeader)
    requires Readable(h)
    ensures HeaderDone(c, f, h).0 == Ok || Refusal(HeaderDone(c, f, h).0)
  {
  }

  lemma CheckRefusal(k: Setup, op: OpType)
    ensures DecodeChecks(k, op).Some? ==> Refusal(DecodeChecks(k, op).value)
  {
  }

  /** One turn of a progressive image. */
  lemma ProgressiveTurn(k: Setup, c: Control, f: FrameFacts, h: ScanHeader, last: bool, end: Ending)
    requires Readable(h) && f.coding == SOF2 && c.p.op == Progressive
    ensures var r, atHead := ScanTurn(k, c, f, h, last, end), DecodeChecks(k, Progressive);
      if HeaderDone(c, f, h).0 != Ok then r == Ends(Calls([HeaderDone(c, f, h).0], false, []))
      else if !last || end.Broken? then
        var d := Decoded(c, f, h, false).value;
        && d.p.op == Progressive && d.noSliceIrq == (h.ns != 1)
        && r == if h.ns != 1 then GoesOn([], d)
                else if atHead.None? then GoesOn([ScanProcessed], d)
                else Ends(Calls([ScanProcessed, atHead.value], false, []))
      else
        var d := Decoded(c, f, h, true).value;
        r == Ends(if end.Failed? then Calls([end.ret], false, [])
                  else if end == NoEoi then Calls([], true, [])
                  else if c.noSliceIrq then Calls([Error], false, [])
                  else FinishCalls(k, Progressive, f, d.p.pfNeeded))
  {
    hide ScanStep, DecodeChecks, FinishCalls;
    var (refused, d) := HeaderDone(c, f, h);
    if refused == Ok {
      CurrentComponent(c.p, f, h, c.scanReady);
    }
  }

  /** One turn of a non-interleaved image. */
  lemma SeparateTurn(k: Setup, c: Control, f: FrameFacts, scans: seq<ScanHeader>, end: Ending)
    requires WellPosed(scans, end) && scans != [] && f.coding == SOF0 && Separate(c, scans)
    ensures var h, last := scans[0], |scans| == 1;
      var r := ScanTurn(k, c, f, h, last, end);
      if HeaderDone(c, f, h).0 != Ok then r == Ends(Calls([HeaderDone(c, f, h).0], false, []))
      else if !last || end.Broken? then r == GoesOn([], Decoded(c, f, h, false).value)
      else
        var d := Decoded(c, f, h, true).value;
        r == Ends(if end.Failed? then Calls([end.ret], false, [])
                  else if AllDecoded(d.components) then FinishCalls(k, NonInterleaved, f, d.p.pfNeeded)
                  else if end == NoEoi then Calls([], true, [])
                  else Calls([Error], false, []))
  {
    hide ScanStep, DecodeChecks, FinishCalls;
    if HeaderDone(c, f, scans[0]).0 == Ok {
      CurrentComponent(c.p, f, scans[0], c.scanReady);
    }
  }

  lemma BaselineTurn(k: Setup, c: Control, f: FrameFacts, scans: seq<ScanHeader>, end: Ending)
    requires WellPosed(scans, end) && scans != [] && f.coding == SOF0 && c.p.op == Baseline && !Separate(c, scans)
    ensures var (refused, _) := HeaderDone(c, f, scans[0]);
      ScanTurn(k, c, f, scans[0], |scans| == 1, end) == Ends(Calls([
        if refused != Ok then refused else if |scans| == 1 && end.Failed? then end.ret else FrameReady], false, []))
  {
    hide ScanStep, DecodeChecks, FinishCalls;
    if HeaderDone(c, f, scans[0]).0 == Ok {
      CurrentComponent(c.p, f, scans[0], c.scanReady);
    }
  }

  /** The calls that finish an image. */
  lemma FinishCallsEnd(k: Setup, op: OpType, f: FrameFacts, flags: Flags)
    ensures var calls, few := FinishCalls(k, op, f, flags), |EmptyScansOf(f, flags)| <= 1;
      && (Completes(calls) <==> few || DecodeChecks(k, op).None?)
      && (Completes(calls) ==> calls.empty == EmptyScansOf(f, flags))
      && (GetsFrame(calls.codes) <==> few)
  {
    CheckRefusal(k, op);
    hide DecodeChecks, EmptyScansOf;
    var calls, n := FinishCalls(k, op, f, flags), |EmptyScansOf(f, flags)|;
    if n > 1 {
      assert calls.codes[0] == ScanProcessed;
      assert DecodeChecks(k, op).None? ==> calls.codes[n - 1] == FrameReady;
    }
  }

  // ---- Progressive images

  /** A progressive image whose scans are all taken: after the last one it is found to be ready if and only
      if the one before it was of a single component; for one scan, if noSliceIrqForUser was clear. */
  predicate NoticedReady(c: Control, scans: seq<ScanHeader>)
    requires scans != []
  {
    if |scans| == 1 then !c.noSliceIrq else scans[|scans| - 2].ns == 1
  }

  /** The codes of the calls before the last scan of a progressive image. */
  function Processed(scans: seq<ScanHeader>): seq<Ret> {
    if |scans| <= 1 then [] else (if scans[0].ns == 1 then [ScanProcessed] else []) + Processed(scans[1..])
  }

  /** All the calls of a progressive image whose scans are all taken, if progressive calls pass the checks. */
  function ProgressiveCalls(k: Setup, c: Control, f: FrameFacts, scans: seq<ScanHeader>, end: Ending): Calls
    requires AllReadable(scans) && scans != [] && Run(c, f, scans, false).Some?
  {
    Append(Processed(scans),
           if end == NoEoi then Calls([], true, [])
           else if !NoticedReady(c, scans) then Calls([Error], false, [])
           else FinishCalls(k, Progressive, f, Run(c, f, scans, false).value.p.pfNeeded))
  }

  lemma OnlyScan(k: Setup, c: Control, f: FrameFacts, scans: seq<ScanHeader>, end: Ending)
    requires WellPosed(scans, end) && |scans| == 1
    ensures Run(c, f, scans, false) == Decoded(c, f, scans[0], true)
    ensures var r := ScanTurn(k, c, f, scans[0], true, end);
      Codes(k, c, f, scans, end) == if r.Ends? then r.calls else Calls(r.codes + [end.ret], false, [])
  {
    hide Decoded, ScanTurn;
    assert scans[1..] == [];
  }

  lemma AppendNothing(calls: Calls)
    ensures Append([], calls) == calls
  {
    assert [] + calls.codes == calls.codes;
  }

  lemma AppendTwice(a: seq<Ret>, b: seq<Ret>, calls: Calls)
    ensures Append(a, Append(b, calls)) == Append(a + b, calls)
  {
    assert a + (b + calls.codes) == (a + b) + calls.codes;
  }

  lemma {:induction false} CodesOfProgressive(k: Setup, c: Control, f: FrameFacts, scans: seq<ScanHeader>, end: Ending)
    requires WellPosed(scans, end) && scans != [] && f.coding == SOF2 && c.p.op == Progressive
    requires !end.Broken? && !end.Failed? && Run(c, f, scans, false).Some? && DecodeChecks(k, Progressive).None?
    ensures Codes(k, c, f, scans, end) == ProgressiveCalls(k, c, f, scans, end)
    decreases |scans|
  {
    hide HeaderDone, ScanTurn, FinishCalls, DecodeChecks, Append;
    ProgressiveTurn(k, c, f, scans[0], |scans| == 1, end);
    if |scans| == 1 {
      OnlyScan(k, c, f, scans, end);
      AppendNothing(ProgressiveCalls(k, c, f, scans, end));
      AppendNothing(Codes(k, c, f, scans, end));
    } else {
      var d := Decoded(c, f, scans[0], false).value;
      CodesOfProgressive(k, d, f, scans[1..], end);
      var first := if scans[0].ns == 1 then [ScanProcessed] else [];
      AppendTwice(first, Processed(scans[1..]),
                  if end == NoEoi then Calls([], true, [])
                  else if !NoticedReady(c, scans) then Calls([Error], false, [])
                  else FinishCalls(k, Progressive, f, Run(c, f, scans, false).value.p.pfNeeded));
    }
  }

  /** What the scans of a progressive image must be; if a progressive call is refused at its head, it must
      be over within one call. */
  predicate ProgressiveFinishes(k: Setup, c: Control, f: FrameFacts, scans: seq<ScanHeader>, end: Ending)
    requires AllReadable(scans) && scans != []
  {
    && end.Eoi? && Run(c, f, scans, false).Some? && NoticedReady(c, scans)
    && (DecodeChecks(k, Progressive).Some? ==> OneCall(c, f, scans))
  }

  predicate OneCall(c: Control, f: FrameFacts, scans: seq<ScanHeader>)
    requires AllReadable(scans) && Run(c, f, scans, false).Some?
  {
    |scans| == 1 && |EmptyScansOf(f, Run(c, f, scans, false).value.p.pfNeeded)| <= 1
  }

  /** Both, of the codes of a progressive image. */
  predicate ProgressiveLaw(k: Setup, c: Control, f: FrameFacts, scans: seq<ScanHeader>, end: Ending, calls: Calls)
    requires AllReadable(scans) && scans != []
  {
    && (Completes(calls) <==> ProgressiveFinishes(k, c, f, scans, end))
    && (Completes(calls) ==> calls.empty == EmptyScansOf(f, Run(c, f, scans, false).value.p.pfNeeded))
    && (GetsFrame(calls.codes) <==> ProgressiveFinishes(k, c, f, scans, end) && OneCall(c, f, scans))
  }

  lemma {:induction false} ProgressiveFinishesIff(k: Setup, c: Control, f: FrameFacts, scans: seq<ScanHeader>,
                                                  end: Ending)
    requires WellPosed(scans, end) && scans != [] && f.coding == SOF2 && c.p.op == Progressive
    ensures ProgressiveLaw(k, c, f, scans, end, Codes(k, c, f, scans, end))
    decreases |scans|
  {
    hide HeaderDone, ScanTurn, ProgressiveLaw, Decoded, DecodeChecks;
    if |scans| == 1 {
      LastProgressive(k, c, f, scans, end);
    } else {
      ProgressiveTurn(k, c, f, scans[0], false, end);
      if HeaderDone(c, f, scans[0]).0 == Ok && !(scans[0].ns == 1 && DecodeChecks(k, Progressive).Some?) {
        DecodedIsOk(c, f, scans[0], false);
        var d := Decoded(c, f, scans[0], false).value;
        ProgressiveFinishesIff(k, d, f, scans[1..], end);
        MoreProgressive(k, c, f, scans, end, Codes(k, d, f, scans[1..], end));
      } else {
        EarlyProgressive(k, c, f, scans, end, Codes(k, c, f, scans, end));
      }
    }
  }

  lemma DecodedIsOk(c: Control, f: FrameFacts, h: ScanHeader, last: bool)
    requires Readable(h)
    ensures Decoded(c, f, h, last).Some? <==> HeaderDone(c, f, h).0 == Ok
  {
  }

  /** A header that is refused, or the next call. */
  lemma EarlyProgressive(k: Setup, c: Control, f: FrameFacts, scans: seq<ScanHeader>, end: Ending, calls: Calls)
    requires WellPosed(scans, end) && |scans| > 1
    requires var refused, atHead := HeaderDone(c, f, scans[0]).0, DecodeChecks(k, Progressive);
      || (refused != Ok && calls == Calls([refused], false, []))
      || (atHead.Some? && calls == Calls([ScanProcessed, atHead.value], false, []))
    ensures ProgressiveLaw(k, c, f, scans, end, calls)
  {
    hide HeaderDone, DecodeChecks, NoticedReady;
    HeaderRefusal(c, f, scans[0]);
    CheckRefusal(k, Progressive);
    assert calls.codes[0] != FrameReady;
    assert |calls.codes| == 1 || calls.codes[1] != FrameReady;
  }

  /** The law for all scans from that for all but the first. */
  lemma MoreProgressive(k: Setup, c: Control, f: FrameFacts, scans: seq<ScanHeader>, end: Ending, rest: Calls)
    requires WellPosed(scans, end) && |scans| > 1 && Decoded(c, f, scans[0], false).Some?
    requires var d := Decoded(c, f, scans[0], false).value;
      d.noSliceIrq == (scans[0].ns != 1) && ProgressiveLaw(k, d, f, scans[1..], end, rest)
    requires scans[0].ns == 1 ==> DecodeChecks(k, Progressive).None?
    ensures ProgressiveLaw(k, c, f, scans, end, Append(if scans[0].ns == 1 then [ScanProcessed] else [], rest))
  {
    hide Decoded, DecodeChecks, EmptyScansOf;
    assert [] + rest.codes == rest.codes;
    assert ([ScanProcessed] + rest.codes)[0] == ScanProcessed;
  }

  lemma LastProgressive(k: Setup, c: Control, f: FrameFacts, scans: seq<ScanHeader>, end: Ending)
    requires WellPosed(scans, end) && |scans| == 1 && f.coding == SOF2 && c.p.op == Progressive
    ensures ProgressiveLaw(k, c, f, scans, end, Codes(k, c, f, scans, end))
  {
    hide HeaderDone, ScanTurn, FinishCalls, DecodeChecks, EmptyScansOf, Run, Codes;
    ProgressiveTurn(k, c, f, scans[0], true, end);
    HeaderRefusal(c, f, scans[0]);
    CheckRefusal(k, Progressive);
    OnlyScan(k, c, f, scans, end);
    var codes := Codes(k, c, f, scans, end).codes;
    if HeaderDone(c, f, scans[0]).0 == Ok && end.Eoi? && !c.noSliceIrq {
      FinishCallsEnd(k, Progressive, f, Decoded(c, f, scans[0], true).value.p.pfNeeded);
    } else if HeaderDone(c, f, scans[0]).0 == Ok && end.Broken? && scans[0].ns == 1 {
      assert codes[0] == ScanProcessed && codes[1] != FrameReady;
    } else {
      assert codes == [] || (|codes| == 1 && codes[0] != FrameReady);
    }
  }

  // ---- Non-interleaved images

  lemma {:induction false} CodesOfSeparate(k: Setup, c: Control, f: FrameFacts, scans: seq<ScanHeader>, end: Ending)
    requires WellPosed(scans, end) && scans != [] && f.coding == SOF0 && Separate(c, scans)
    ensures var r, calls := Run(c, f, scans, false), Codes(k, c, f, scans, end);
      if r.None? || end.Broken? || end.Failed? then exists ret :: Refusal(ret) && calls == Calls([ret], false, [])
      else if AllDecoded(r.value.components) then calls == FinishCalls(k, NonInterleaved, f, r.value.p.pfNeeded)
      else calls == if end == NoEoi then Calls([], true, []) else Calls([Error], false, [])
    decreases |scans|
  {
    hide HeaderDone, ScanTurn, FinishCalls, AllDecoded;
    SeparateTurn(k, c, f, scans, end);
    HeaderRefusal(c, f, scans[0]);
    if HeaderDone(c, f, scans[0]).0 == Ok && |scans| > 1 {
      SeparateStep(c, f, scans, false, 0);
      var d := Decoded(c, f, scans[0], false).value;
      CodesOfSeparate(k, d, f, scans[1..], end);
      AppendNothing(Codes(k, d, f, scans[1..], end));
    }
  }

  lemma AllDecodedIff(c: Control, f: FrameFacts, scans: seq<ScanHeader>)
    requires AllReadable(scans) && f.coding == SOF0 && Separate(c, scans) && Run(c, f, scans, false).Some?
    ensures AllDecoded(Run(c, f, scans, false).value.components)
       <==> forall i: Index :: c.components[i] || ScannedAlone(scans, i)
  {
    hide ScannedAlone, Run;
    forall i: Index
      ensures Run(c, f, scans, false).value.components[i] <==> c.components[i] || ScannedAlone(scans, i)
    {
      DecodedIff(c, f, scans, false, i);
    }
  }

  // ---- Every image

  /** What a frame header leaves, in a call that has started its stream anew. */
  predicate AtFrame(c: Control, f: FrameFacts) {
    && f.coding in {SOF0, SOF2} && f.nf in {1, 3} && !c.scanReady
    && c.p.op == if f.coding == SOF0 then Baseline else Progressive
  }

  /** The operation type that JpegDecGetImageInfo has stored for such an image: it looks at the first scan
      header too. */
  function HeadOf(c: Control, f: FrameFacts, scans: seq<ScanHeader>): OpType
    requires AtFrame(c, f)
  {
    if f.coding == SOF2 then Progressive else if Separate(c, scans) then NonInterleaved else Baseline
  }

  /** At most one component is owed an empty scan. */
  predicate FewOwed(c: Control, f: FrameFacts, scans: seq<ScanHeader>) {
    f.nf == 1 || forall i: Index, j: Index :: i < j ==>
      !(Owed(c.p.pfNeeded[i], scans, i) && Owed(c.p.pfNeeded[j], scans, j))
  }

  /** What the scans of an image must be for JpegDecDecode to come to FRAME_READY, once its first call has
      passed the checks at its head; the clauses about later calls are void if head is HeadOf. */
  predicate Finishes(k: Setup, c: Control, f: FrameFacts, scans: seq<ScanHeader>, end: Ending)
    requires WellPosed(scans, end) && scans != []
  {
    if c.p.op == Progressive then
      && end.Eoi? && Run(c, f, scans, false).Some? && NoticedReady(c, scans)
      && (DecodeChecks(k, Progressive).Some? ==> |scans| == 1 && FewOwed(c, f, scans))
    else if Separate(c, scans) then
      && end in {Eoi, NoEoi} && Run(c, f, scans, false).Some?
      && (forall i: Index :: c.components[i] || ScannedAlone(scans, i))
      && (DecodeChecks(k, NonInterleaved).Some? ==> FewOwed(c, f, scans))
    else HeaderDone(c, f, scans[0]).0 == Ok && (|scans| == 1 ==> !end.Failed?)
  }

  lemma FlagsAre(c: Control, f: FrameFacts, scans: seq<ScanHeader>)
    requires AllReadable(scans) && f.nf == 3 && Run(c, f, scans, false).Some?
    ensures forall i: Index ::
      Run(c, f, scans, false).value.p.pfNeeded[i] <==> Owed(c.p.pfNeeded[i], scans, i)
  {
    hide Owed, Run;
    var ready := RunParams(c, f, scans, false);
    forall i: Index ensures Run(c, f, scans, false).value.p.pfNeeded[i] <==> Owed(c.p.pfNeeded[i], scans, i) {
      NeededIff(c.p, f, scans, ready, i);
    }
  }

  lemma FewOwedIff(c: Control, f: FrameFacts, scans: seq<ScanHeader>)
    requires AllReadable(scans) && f.nf in {1, 3} && Run(c, f, scans, false).Some?
    ensures |EmptyScansOf(f, Run(c, f, scans, false).value.p.pfNeeded)| <= 1 <==> FewOwed(c, f, scans)
  {
    hide Owed, Run;
    if f.nf == 3 {
      FlagsAre(c, f, scans);
      AtMostOne(Run(c, f, scans, false).value.p.pfNeeded);
    }
  }

  lemma AtMostOne(flags: Flags)
    ensures |Needed(flags, 0)| <= 1 <==> forall i: Index, j: Index :: i < j ==> !(flags[i] && flags[j])
  {
    NeededLists(flags, 0);
    var need := Needed(flags, 0);
    if |need| > 1 {
      assert need[0] in need && need[1] in need && need[0] < need[1];
    }
    if i: Index, j: Index :| i < j && flags[i] && flags[j] {
      assert i as nat in need && j as nat in need;
    }
  }

  /** For every image and every operation type at the head of the first call: some call returns FRAME_READY
      if and only if the first call passes and Finishes holds of the scans; and because the wrapper takes
      SCAN_PROCESSED for an error, it gets the image if and only if moreover it is of one scan if
      progressive, and owes at most one empty scan. */
  lemma ImageFinishesIff(k: Setup, head: OpType, c: Control, f: FrameFacts, scans: seq<ScanHeader>, end: Ending)
    requires WellPosed(scans, end) && scans != [] && AtFrame(c, f)
    ensures Completes(ImageCalls(k, head, c, f, scans, end))
       <==> DecodeChecks(k, head).None? && Finishes(k, c, f, scans, end)
  {
    hide Codes, DecodeChecks;
    CheckRefusal(k, head);
    CallsFinishIff(k, c, f, scans, end);
  }

  lemma WrapperGetsIff(k: Setup, head: OpType, c: Control, f: FrameFacts, scans: seq<ScanHeader>, end: Ending)
    requires WellPosed(scans, end) && scans != [] && AtFrame(c, f)
    ensures GetsFrame(ImageCalls(k, head, c, f, scans, end).codes) <==>
      && DecodeChecks(k, head).None? && Finishes(k, c, f, scans, end)
      && (c.p.op == Progressive ==> |scans| == 1)
      && (c.p.op == Progressive || Separate(c, scans) ==> FewOwed(c, f, scans))
  {
    hide Codes, DecodeChecks;
    CheckRefusal(k, head);
    CallsFinishIff(k, c, f, scans, end);
  }

  lemma CallsFinishIff(k: Setup, c: Control, f: FrameFacts, scans: seq<ScanHeader>, end: Ending)
    requires WellPosed(scans, end) && scans != [] && AtFrame(c, f)
    ensures Completes(Codes(k, c, f, scans, end)) <==> Finishes(k, c, f, scans, end)
    ensures GetsFrame(Codes(k, c, f, scans, end).codes) <==>
      && Finishes(k, c, f, scans, end) && (c.p.op == Progressive ==> |scans| == 1)
      && (c.p.op == Progressive || Separate(c, scans) ==> FewOwed(c, f, scans))
  {
    hide HeaderDone, ScanTurn, FinishCalls, Run, NoticedReady, ScannedAlone, FewOwed, DecodeChecks, EmptyScansOf;
    HeaderRefusal(c, f, scans[0]);
    if Run(c, f, scans, false).Some? {
      FewOwedIff(c, f, scans);
    }
    if c.p.op == Progressive {
      ProgressiveFinishesIff(k, c, f, scans, end);
    } else if Separate(c, scans) {
      CodesOfSeparate(k, c, f, scans, end);
      if Run(c, f, scans, false).Some? {
        AllDecodedIff(c, f, scans);
        FinishCallsEnd(k, NonInterleaved, f, Run(c, f, scans, false).value.p.pfNeeded);
      }
    } else {
      BaselineTurn(k, c, f, scans, end);
    }
  }

  /** An image of three components that is finished has had empty scans for exactly the components owed
      one; a baseline image has none. */
  lemma EmptyScansIssued(k: Setup, head: OpType, c: Control, f: FrameFacts, scans: seq<ScanHeader>, end: Ending,
                         i: Index)
    requires WellPosed(scans, end) && scans != [] && AtFrame(c, f) && f.nf == 3
    requires Completes(ImageCalls(k, head, c, f, scans, end))
    ensures i in ImageCalls(k, head, c, f, scans, end).empty
       <==> (c.p.op == Progressive || Separate(c, scans)) && Owed(c.p.pfNeeded[i], scans, i)
  {
    hide HeaderDone, ScanTurn, FinishCalls, Run, Owed, DecodeChecks, AllDecoded;
    CheckRefusal(k, head);
    if c.p.op == Progressive {
      ProgressiveFinishesIff(k, c, f, scans, end);
      OwedAreListed(c, f, scans, i);
    } else if Separate(c, scans) {
      CodesOfSeparate(k, c, f, scans, end);
      OwedAreListed(c, f, scans, i);
      FinishCallsEnd(k, NonInterleaved, f, Run(c, f, scans, false).value.p.pfNeeded);
    } else {
      BaselineTurn(k, c, f, scans, end);
    }
  }

  lemma OwedAreListed(c: Control, f: FrameFacts, scans: seq<ScanHeader>, i: Index)
    requires AllReadable(scans) && f.nf == 3 && Run(c, f, scans, false).Some?
    ensures i in EmptyScansOf(f, Run(c, f, scans, false).value.p.pfNeeded) <==> Owed(c.p.pfNeeded[i], scans, i)
  {
    hide Run, Owed, Needed;
    FlagsAre(c, f, scans);
    NeededLists(Run(c, f, scans, false).value.p.pfNeeded, 0);
  }

  // ---- The decoder as JpegDecInit sets it up

  /** Every progressive image that JpegDecGetImageInfo has looked at is refused by the first call. */
  lemma ProgressiveIsRefused(k: Setup, c: Control, f: FrameFacts, scans: seq<ScanHeader>, end: Ending)
    requires WellPosed(scans, end) && scans != [] && AtFrame(c, f) && f.coding == SOF2
    requires k.fuseBurned == FUSE_BURNED
    ensures ImageCalls(k, HeadOf(c, f, scans), c, f, scans, end) == Calls([Unsupported], false, [])
  {
  }

  /** The wrapper, for an image it has looked at and whose slice height it has chosen: it gets the image if
      and only if it is not progressive, is baseline or not over 16M, and Finishes and FewOwed hold. */
  lemma WrapperDecodesIff(k: Setup, sof: Sof, c: Control, f: FrameFacts, scans: seq<ScanHeader>, end: Ending)
    requires WellPosed(scans, end) && scans != [] && AtFrame(c, f)
    requires WellTyped(sof) && InfoFrame(sof) == Some(k.geo) && Chosen(k.geo, k.slice) && k.fuseBurned == FUSE_BURNED
    ensures var head := HeadOf(c, f, scans);
      GetsFrame(ImageCalls(k, head, c, f, scans, end).codes) <==>
        && f.coding == SOF0 && (head == Baseline || k.geo.hwX * k.geo.hwY <= MAX_PIXELS)
        && Finishes(k, c, f, scans, end) && (head == NonInterleaved ==> FewOwed(c, f, scans))
  {
    hide ImageCalls, Finishes, FewOwed, DecodeChecks, InfoFrame, Chosen;
    ChosenPasses(sof, k, HeadOf(c, f, scans));
    WrapperGetsIff(k, HeadOf(c, f, scans), c, f, scans, end);
  }

  // ---- Images that fail

  /** A scan of all components, and one of component i alone, of coefficients ss to se. */
  function AllOf(ss: nat, se: nat): ScanHeader { ScanHeader(3, [1, 2, 3], ss, se, 0) }

  function One(i: Index, ss: nat, se: nat): ScanHeader { ScanHeader(1, [i + 1], ss, se, 0) }

  predicate Progressive420(c: Control, f: FrameFacts) {
    f.coding == SOF2 && c.p.op == Progressive && f.format == Yuv420 && f.nf == 3
  }

  lemma AllTaken(c: Control, f: FrameFacts, last: bool)
    requires Progressive420(c, f)
    ensures var d := Decoded(c, f, AllOf(0, 0), last);
      d.Some? && Progressive420(d.value, f) && d.value.p.mode == 2
  {
  }

  lemma OneTaken(c: Control, f: FrameFacts, i: Index, last: bool)
    requires Progressive420(c, f) && c.p.mode in {0, 2}
    ensures var d := Decoded(c, f, One(i, 1, 63), last);
      && d.Some? && Progressive420(d.value, f) && d.value.p.mode == 0
      && d.value.p.pfNeeded == c.p.pfNeeded[i := false]
  {
    hide Single;
    var p := c.p.(fillX := false, fillY := false);
    SingleTaken(p, f, i, c.scanReady);
    SingleNeeded(p, f, i + 1, c.scanReady);
  }

  lemma SingleTaken(p: Params, f: FrameFacts, i: Index, ready: bool)
    requires p.op == Progressive && f.format == Yuv420 && f.nf == 3 && p.mode in {0, 2}
    ensures var (ret, q) := Single(p, f, i + 1, ready); ret == Ok && q.op == Progressive && q.mode == 0
  {
    hide FillOf;
    ThreeKeeps(Opened(p, i + 1), f, i + 1, ready);
  }

  /** An ordinary progressive image, DC coefficients together and then AC coefficients of each component, on
      a decoder without the fuse: no empty scan is needed, the third call returns the frame, and the
      wrapper would not get it. */
  lemma OrdinaryProgressive(k: Setup, c: Control, f: FrameFacts)
    requires Progressive420(c, f) && DecodeChecks(k, Progressive).None?
    ensures var scans := [AllOf(0, 0), One(0, 1, 63), One(1, 1, 63), One(2, 1, 63)];
      && ImageCalls(k, Progressive, c, f, scans, Eoi) == Calls([ScanProcessed, ScanProcessed, FrameReady], false, [])
      && !GetsFrame(ImageCalls(k, Progressive, c, f, scans, Eoi).codes)
  {
    hide Decoded, ScanTurn, Codes, DecodeChecks;
    var ac := [One(0, 1, 63), One(1, 1, 63), One(2, 1, 63)];
    var scans := [AllOf(0, 0)] + ac;
    assert scans == [AllOf(0, 0), One(0, 1, 63), One(1, 1, 63), One(2, 1, 63)];
    AllTaken(c, f, false);
    var d := Decoded(c, f, scans[0], false).value;
    ThreeTaken(d, f);
    assert scans[1..] == ac;
    CodesOfProgressive(k, c, f, scans, Eoi);
    var flags := Run(c, f, scans, false).value.p.pfNeeded;
    assert flags == [false, false, false];
    assert Processed(ac) == [ScanProcessed, ScanProcessed] by {
      assert ac[1..] == [One(1, 1, 63), One(2, 1, 63)];
      assert ac[1..][1..] == [One(2, 1, 63)];
    }
    assert EmptyScansOf(f, flags) == [];
  }

  lemma ThreeTaken(c: Control, f: FrameFacts)
    requires Progressive420(c, f) && c.p.mode == 2
    ensures var r := Run(c, f, [One(0, 1, 63), One(1, 1, 63), One(2, 1, 63)], false);
      r.Some? && r.value.p.pfNeeded == [false, false, false]
  {
    hide Decoded;
    var ac := [One(0, 1, 63), One(1, 1, 63), One(2, 1, 63)];
    OneTaken(c, f, 0, false);
    var c1 := Decoded(c, f, ac[0], false).value;
    OneTaken(c1, f, 1, false);
    var c2 := Decoded(c1, f, ac[1], false).value;
    OneTaken(c2, f, 2, true);
    var c3 := Decoded(c2, f, ac[2], true).value;
    assert ac[1..] == [ac[1], ac[2]] && ac[1..][1..] == [ac[2]] && ac[1..][1..][1..] == [];
    assert Run(c2, f, [ac[2]], false) == Run(c3, f, [], false);
    assert Run(c1, f, ac[1..], false) == Run(c2, f, [ac[2]], false);
  }

  /** Two scans of all components: the end is not noticed, with or without the fuse. */
  lemma EndNotNoticed(k: Setup, c: Control, f: FrameFacts)
    requires Progressive420(c, f)
    ensures Codes(k, c, f, [AllOf(0, 0), AllOf(0, 0)], Eoi) == Calls([Error], false, [])
  {
    hide ScanTurn, DecodeChecks, HeaderDone, ScanDone;
    var scans, one := [AllOf(0, 0), AllOf(0, 0)], [AllOf(0, 0)];
    assert scans[1..] == one;
    AllTaken(c, f, false);
    ProgressiveTurn(k, c, f, scans[0], false, Eoi);
    var d := Decoded(c, f, scans[0], false).value;
    AllTaken(d, f, true);
    ProgressiveTurn(k, d, f, one[0], true, Eoi);
    OnlyScan(k, d, f, one, Eoi);
    AppendNothing(Codes(k, d, f, one, Eoi));
  }

  /** No frame header clears the decoded components, only JpegDecInit does: after one finished
      non-interleaved image, the next on the same decoder is ready after any single scan. */
  lemma SecondSeparateImage(k: Setup, c: Control, f: FrameFacts, h: ScanHeader)
    requires AtFrame(c, f) && f.coding == SOF0 && c.p.mode != 0 && c.components == [true, true, true]
    requires Readable(h) && h.ns == 1 && HeaderDone(c, f, h).0 == Ok && DecodeChecks(k, NonInterleaved).None?
    ensures Completes(ImageCalls(k, NonInterleaved, c, f, [h], Eoi))
  {
    hide ImageCalls, HeaderDone, DecodeChecks;
    ImageFinishesIff(k, NonInterleaved, c, f, [h], Eoi);
    OnlyScan(k, c, f, [h], Eoi);
  }

  /** A non-interleaved image that a refused scan header ends leaves nonInterleavedScanReady set.  The next
      call then goes on in the old stream instead of starting its own. */
  lemma AbandonedImage(c: Control, f: FrameFacts, scans: seq<ScanHeader>, h: ScanHeader)
    requires AllReadable(scans) && scans != [] && f.coding == SOF0 && Separate(c, scans) && Readable(h)
    requires Run(c, f, scans, true).Some? && HeaderDone(Run(c, f, scans, true).value, f, h).0 != Ok
    ensures HeaderDone(Run(c, f, scans, true).value, f, h).1.scanReady
  {
    hide ScanStep;
    LastSetsReady(c, f, scans);
  }

  lemma {:induction false} LastSetsReady(c: Control, f: FrameFacts, scans: seq<ScanHeader>)
    requires AllReadable(scans) && scans != [] && f.coding == SOF0 && Separate(c, scans)
    requires Run(c, f, scans, true).Some?
    ensures Run(c, f, scans, true).value.scanReady
    decreases |scans|
  {
    hide ScanStep;
    SeparateStep(c, f, scans, false, 0);
    if |scans| > 1 {
      LastSetsReady(Decoded(c, f, scans[0], false).value, f, scans[1..]);
    } else {
      CurrentComponent(c.p, f, scans[0], c.scanReady);
      assert scans[1..] == [];
    }
  }
}
