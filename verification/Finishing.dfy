/** The hardware result loop of JpegDecDecode: what a scan header and the result of its scan do to the
    decoder, and what all scans of an image leave. */
module Finishing {
  import opened Common
  import opened FrameReader
  import opened Scans
  import opened StreamReader
  import opened TableSegments

  // ---- One scan

  /** What the loop keeps besides the parameters; scanReady is nonInterleavedScanReady. */
  datatype Control = Control(p: Params, components: Flags, noSliceIrq: bool, imageReady: bool, scanReady: bool)

  predicate AllDecoded(components: Flags) { components[0] && components[1] && components[2] }

  /** A scan header: the marker resets imageReady, and starting the hardware nonInterleavedScanReady. */
  function HeaderDone(c: Control, f: FrameFacts, h: ScanHeader): (Ret, Control)
    requires Readable(h)
  {
    var (ret, p) := ScanStep(c.p, f, h, c.scanReady);
    (ret, c.(p := p, imageReady := false, scanReady := ret != Ok && c.scanReady))
  }

  /** The part of the loop that follows a hardware wait without a slice interrupt: what is returned, if
      anything, the state, and nonInterleavedRdy.  endOfImage says that no further scan was found. */
  function ScanDone(c: Control, endOfImage: bool, rdy: bool): (Option<Ret>, Control, bool) {
    if c.p.op == NonInterleaved then
      var components := c.components[c.p.componentId := true];
      var all := AllDecoded(components);
      (None, c.(components := components, noSliceIrq := !all, imageReady := c.imageReady || all,
                scanReady := c.scanReady || !endOfImage), all && endOfImage)
    else if c.p.op == Progressive && !endOfImage then
      if c.p.nonInterleaved then (Some(ScanProcessed), c.(noSliceIrq := false), rdy)
      else (None, c.(noSliceIrq := true), rdy)
    else if c.p.op == Progressive then (None, c.(imageReady := c.imageReady || !c.noSliceIrq), rdy)
    else (None, c.(noSliceIrq := false, imageReady := true), rdy)
  }

  class HwControl {
    const info: DecInfo
    var components: Flags
    var noSliceIrqForUser: bool
    var imageReady: bool
    var progressiveScanReady: bool

    ghost function Current(): Control
      reads this, info
    {
      Control(info.Current(), components, noSliceIrqForUser, imageReady, info.nonInterleavedScanReady)
    }

    constructor (i: DecInfo)
      ensures info == i
      ensures Current() == Control(i.Current(), [false, false, false], false, false, i.nonInterleavedScanReady)
    {
      info := i;
      components, noSliceIrqForUser, imageReady, progressiveScanReady := [false, false, false], false, false, false;
    }

    /** The next scan header, which the marker loop finds at q, up to the start of the hardware. */
    method StartScan(stream: StreamStorage, f: FrameFacts, q: nat) returns (ret: Ret)
      requires stream.Valid() && q <= stream.streamLength && EnoughData(stream.s, stream.streamLength, q)
      modifies this, info, stream
      ensures stream.Valid()
      ensures (ret, Current())
           == HeaderDone(old(Current()), f, ScanRead(stream.s, stream.streamLength, AfterWord(stream.streamLength, q)))
    {
      hide ScanStep, ScanRead, AfterWord, EnoughData;
      imageReady := false;
      stream.pCurrPos, stream.bitPosInByte, stream.readBits := q, 0, 8 * q;
      ret := info.DecodeScanHeader(stream, f);
      if ret == Ok {
        info.nonInterleavedScanReady := false;
        progressiveScanReady := false;
      }
    }

    /** Set the decoded component and see if all are. */
    method ComponentDone() returns (all: bool)
      modifies `components, `noSliceIrqForUser
      ensures components == old(components)[info.componentId := true]
      ensures all == AllDecoded(components) && noSliceIrqForUser == !all
    {
      components := components[info.componentId := true];
      if components[0] && components[1] && components[2] {
        noSliceIrqForUser := false;
        all := true;
      } else {
        noSliceIrqForUser := true;
        all := false;
      }
    }

    method AfterScan(endOfImage: bool, rdy0: bool) returns (ret: Option<Ret>, rdy: bool)
      modifies this, info`nonInterleavedScanReady
      ensures (ret, Current(), rdy) == ScanDone(old(Current()), endOfImage, rdy0)
      ensures progressiveScanReady == (old(progressiveScanReady) || (info.operationType == Progressive && !endOfImage))
    {
      ret, rdy := None, rdy0;
      if info.operationType == Progressive || info.operationType == NonInterleaved {
        if !endOfImage {
          noSliceIrqForUser := false;
          if info.operationType == Progressive {
            progressiveScanReady := true;
          } else {
            info.nonInterleavedScanReady := true;
          }
          if info.operationType != NonInterleaved {
            if !info.nonInterleaved {
              noSliceIrqForUser := true;
            } else {
              return Some(ScanProcessed), rdy;
            }
          } else {
            var all := ComponentDone();
            rdy := false;
          }
        } else if info.operationType == NonInterleaved {
          rdy := ComponentDone();
        }
      } else {
        noSliceIrqForUser := false;
      }
      if !noSliceIrqForUser {
        imageReady := true;
      }
    }
  }

  // ---- All scans of an image

  /** A scan: its header and, if that is accepted, its result.  None if it is not. */
  function Decoded(c: Control, f: FrameFacts, h: ScanHeader, last: bool): Option<Control>
    requires Readable(h)
  {
    var (ret, d) := HeaderDone(c, f, h);
    if ret == Ok then Some(ScanDone(d, last, false).1) else None
  }

  /** The state after all these scans, each decoded before the next header is read; more says that the
      search finds another behind the last.  None if a header is refused. */
  function Run(c: Control, f: FrameFacts, scans: seq<ScanHeader>, more: bool): Option<Control>
    requires AllReadable(scans)
    decreases |scans|
  {
    if scans == [] then Some(c)
    else
      match Decoded(c, f, scans[0], |scans| == 1 && !more)
      case None => None
      case Some(d) => Run(d, f, scans[1..], more)
  }

  /** The parameters in such a run are those of the headers alone. */
  lemma {:induction false} RunParams(c: Control, f: FrameFacts, scans: seq<ScanHeader>, more: bool)
      returns (ready: seq<bool>)
    requires AllReadable(scans) && Run(c, f, scans, more).Some?
    ensures |ready| == |scans| && ParamsAfter(c.p, f, scans, ready) == Some(Run(c, f, scans, more).value.p)
    decreases |scans|
  {
    hide ScanStep;
    if scans == [] {
      ready := [];
    } else {
      var rest := RunParams(Decoded(c, f, scans[0], |scans| == 1 && !more).value, f, scans[1..], more);
      ready := [c.scanReady] + rest;
      assert ready[1..] == rest;
    }
  }

  /** A run goes through exactly when every header is one of those that are taken. */
  lemma {:induction false} RunTakenIff(c: Control, f: FrameFacts, scans: seq<ScanHeader>, more: bool)
    requires AllReadable(scans) && WholeFrame(f) && Steady(c.p, f)
    ensures Run(c, f, scans, more).Some? <==> TakesAll(f, scans)
    decreases |scans|
  {
    hide ScanStep, Takes, Steady, Says, TakesAll;
    if scans != [] {
      var last := |scans| == 1 && !more;
      OneScan(c.p, f, scans[0], c.scanReady);
      TakesAllStep(f, scans);
      if Takes(f, scans[0]) {
        RunTakenIff(Decoded(c, f, scans[0], last).value, f, scans[1..], more);
      }
    } else {
      NoneToTake(f, scans);
    }
  }

  /** Some scan is of component c alone; in a run its result came. */
  predicate ScannedAlone(scans: seq<ScanHeader>, c: nat) {
    exists i :: 0 <= i < |scans| && Alone(scans[i], c)
  }

  /** A baseline frame before its first scan, which will be of a single component, or a non-interleaved
      image whose current component counts as decoded. */
  predicate Separate(c: Control, scans: seq<ScanHeader>) {
    if c.p.op == NonInterleaved then c.components[c.p.componentId]
    else c.p.op == Baseline && scans != [] && scans[0].ns == 1 && c.p.mode != 0
  }

  lemma SingleComponentIs(p: Params, f: FrameFacts, c: nat, ready: bool)
    requires Single(p, f, c, ready).0 == Ok
    ensures var q := Single(p, f, c, ready).1;
      && 1 <= c <= 3 && q.componentId == q.cIndex == c - 1 && q.op == Opened(p, c).op
  {
    hide SingleOfThree;
    if 1 <= c <= 3 {
      ThreeKeeps(Opened(p, c), f, c, ready);
    }
  }

  /** Operation type and component that an accepted scan header makes current. */
  lemma CurrentComponent(p: Params, f: FrameFacts, h: ScanHeader, ready: bool)
    requires Readable(h) && ScanStep(p, f, h, ready).0 == Ok
    ensures var q := ScanStep(p, f, h, ready).1;
      && q.op == (if h.ns == 1 && p.op == Baseline && p.mode != 0 then NonInterleaved else p.op)
      && (f.coding == SOF2 ==> q.nonInterleaved == (h.ns == 1))
      && (f.coding == SOF0 ==> if h.ns == 1 then Alone(h, q.componentId) else q.componentId == p.componentId)
  {
    if h.ns == 1 {
      assert h.cs == [h.cs[0]];
      SingleComponentIs(p.(fillX := false, fillY := false), f, h.cs[0], ready);
    }
  }

  /** One scan of a non-interleaved image marks the component it is of, or one already marked. */
  lemma SeparateStep(c: Control, f: FrameFacts, scans: seq<ScanHeader>, last: bool, k: Index)
    requires AllReadable(scans) && scans != [] && f.coding == SOF0 && Separate(c, scans)
    requires Decoded(c, f, scans[0], last).Some?
    ensures var d := Decoded(c, f, scans[0], last).value;
      && d.p.op == NonInterleaved && d.components[d.p.componentId]
      && d.components[k] == (c.components[k] || Alone(scans[0], k))
  {
    hide ScanStep;
    CurrentComponent(c.p, f, scans[0], c.scanReady);
  }

  /** After any scans of a non-interleaved image a component counts as decoded exactly when it did before
      or a scan of it alone was among them. */
  lemma {:induction false} DecodedIff(c: Control, f: FrameFacts, scans: seq<ScanHeader>, more: bool, k: Index)
    requires AllReadable(scans) && f.coding == SOF0 && Separate(c, scans) && Run(c, f, scans, more).Some?
    ensures Run(c, f, scans, more).value.p.op == NonInterleaved
    ensures Run(c, f, scans, more).value.components[k] <==> c.components[k] || ScannedAlone(scans, k)
    decreases |scans|
  {
    hide Decoded;
    if scans != [] {
      var last := |scans| == 1 && !more;
      SeparateStep(c, f, scans, last, k);
      DecodedIff(Decoded(c, f, scans[0], last).value, f, scans[1..], more, k);
      AloneStep(scans, k);
    }
  }

  lemma AloneStep(scans: seq<ScanHeader>, k: nat)
    requires scans != []
    ensures ScannedAlone(scans, k) <==> Alone(scans[0], k) || ScannedAlone(scans[1..], k)
  {
    assert scans == [scans[0]] + scans[1..];
    if i :| 0 <= i < |scans[1..]| && Alone(scans[1..][i], k) {
      assert Alone(scans[i + 1], k);
    }
    if i :| 0 <= i < |scans| && Alone(scans[i], k) {
      assert i > 0 ==> scans[1..][i - 1] == scans[i];
    }
  }
}
