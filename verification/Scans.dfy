/** JpegDecDecodeScanHeader: what every scan header does to the decoding parameters, and what any
    sequence of scans leaves (sections B.2.3 and G.1.1.1 of ITU-T T.81). */
module Scans {
  import opened Common
  import opened FrameGeometry
  import opened FrameLaws
  import opened StreamReader
  import opened TableSegments
  import opened TableReaders
  import opened FrameReader

  /** yCbCrMode values (jpegdeccontainer.h).  Scans also store 0 and 1 for single components. */
  function ModeOf(f: Format): nat {
    match f
    case Yuv400 => 0
    case Yuv420 => 2
    case Yuv422 => 3
    case Yuv444 => 4
    case Yuv440 => 5
    case Yuv411 => 6
  }

  /** Fields of the frame that a scan header reads. */
  datatype FrameFacts = FrameFacts(hwX: int, hwY: int, x: nat, y: nat, nf: nat, coding: nat, format: Format)

  /** The index of a component. */
  type Index = i: nat | i < 3

  /** One flag per component. */
  type Flags = f: seq<bool> | |f| == 3 witness [false, false, false]

  /** The fields of info, and cIndex, that it updates. */
  datatype Params = Params(op: OpType, mode: nat, x: int, y: int,
                           fillX: bool, fillY: bool, fillRight: bool, fillBottom: bool,
                           pfNeeded: Flags, cIndex: Index, componentId: Index,
                           nonInterleaved: bool, qTables: nat, yCbCr422: bool)

  /** A scan header as read: number of components, their selectors, and the spectral and bit parameters. */
  datatype ScanHeader = ScanHeader(ns: nat, cs: seq<nat>, ss: nat, se: nat, a: nat)

  /** The header after its length, from p on, as GetByte returns it, for at most three components. */
  function ScanRead(s: seq<byte>, len: nat, p: nat): ScanHeader
    requires len <= |s|
  {
    var ns := ByteAt(s, len, p);
    var n := if ns <= 3 then ns else 0;
    ScanHeader(ns, seq(n, i requires 0 <= i < n => ByteAt(s, len, p + 1 + 2 * i)),
               ByteAt(s, len, p + 1 + 2 * n), ByteAt(s, len, p + 2 + 2 * n), ByteAt(s, len, p + 3 + 2 * n))
  }

  lemma ScanReadIs(s: seq<byte>, len: nat, p: nat)
    requires len <= |s|
    ensures var h := ScanRead(s, len, p);
      && h.ns == ByteAt(s, len, p) && Readable(h) && (h.ns == 1 ==> h.cs[0] == ByteAt(s, len, p + 1))
      && (h.ns <= 3 ==>
           && h.ss == ByteAt(s, len, p + 1 + 2 * h.ns) && h.se == ByteAt(s, len, p + 2 + 2 * h.ns)
           && h.a == ByteAt(s, len, p + 3 + 2 * h.ns))
  {
  }

  predicate Chroma(c: nat) { c == 2 || c == 3 }

  /** `(n & 0xF) && (n & 0xF) <= 8`, the test of NeedsFill, decides the fill flags of luma scans. */
  function Rounded(n: int): int { if n % 16 != 0 then n + 8 else n }

  /** A single-component scan makes a baseline image non-interleaved. */
  function Opened(p: Params, c: nat): Params {
    var q := p.(op := if p.op == Baseline && p.mode != 0 then NonInterleaved else p.op);
    if 1 <= c <= 3 then q.(cIndex := c - 1, componentId := c - 1) else q
  }

  function Closed(p: Params): Params {
    if p.op != Baseline then p.(mode := 0) else p
  }

  /** A single-component scan up to its spectral parameters; Ok goes on to those.  Selectors that are not 1
      to 3 are written outside the arrays, whatever the frame. */
  function Single(p0: Params, f: FrameFacts, c: nat, scanReady: bool): (Ret, Params) {
    var p := Opened(p0, c);
    if c < 1 || c > 3 then (WildJump, p)
    else if f.nf == 3 then
      var r := SingleOfThree(p, f, c, scanReady);
      (r.0, if r.0 == Ok then Closed(r.1) else r.1)
    else (Ok, Closed(if f.nf == 1 then p.(yCbCr422 := false) else p))
  }

  /** The same in a frame of three components: the size and the fill flags of the component. */
  function SingleOfThree(p0: Params, f: FrameFacts, c: nat, scanReady: bool): (Ret, Params)
    requires 1 <= c <= 3
  {
    var p := p0.(fillRight := false, fillBottom := false, pfNeeded := p0.pfNeeded[c - 1 := false]);
    if Chroma(c) then ChromaOfThree(p, f, c, scanReady)
    else
      var q := p.(x := f.hwX, y := f.hwY);
      if p.mode == 4 then (Unsupported, q.(mode := 0))
      else if p.mode == 2 then (Ok, FillOf(q.(mode := 1), f, c))
      else if p.mode == 3 then (Ok, FillOf(q.(mode := 0, yCbCr422 := true), f, c))
      else (Ok, FillOf(q, f, c))
  }

  function ChromaOfThree(p: Params, f: FrameFacts, c: nat, scanReady: bool): (Ret, Params) {
    if p.op != Baseline || scanReady then
      match f.format
      case Yuv420 => (Ok, FillOf(p.(x := f.hwX / 2, y := f.hwY / 2, mode := 0), f, c))
      case Yuv422 => (Ok, FillOf(p.(x := f.hwX / 2, mode := 0), f, c))
      case Yuv440 => (Ok, FillOf(p.(y := f.hwY / 2, mode := 0), f, c))
      case _ => (Unsupported, p.(mode := 0))
    else (Ok, FillOf(p.(mode := 0), f, c))
  }

  /** Round the size up to 16, or else note a partial block. */
  function FillOf(p: Params, f: FrameFacts, c: nat): Params {
    p.(x := Rounded(p.x), fillX := p.fillX || p.x % 16 != 0,
       fillRight := p.fillRight || (p.x % 16 == 0 && (c == 1 || f.format == Yuv440) && NeedsFill(f.x)),
       y := Rounded(p.y), fillY := p.fillY || p.y % 16 != 0,
       fillBottom := p.fillBottom || (p.y % 16 == 0 && (c == 1 || f.format == Yuv422) && NeedsFill(f.y)))
  }

  /** A scan of several components: the needed flags are set by position, not by selector. */
  function Several(p: Params, f: FrameFacts, n: nat): (Ret, Params)
  {
    if n > 3 then (WildJump, p)
    else (Ok, p.(pfNeeded := seq(3, i requires 0 <= i < 3 => i < n || p.pfNeeded[i]),
                 x := f.hwX, y := f.hwY, cIndex := 0, mode := ModeOf(f.format)))
  }

  /** Spectral selection and successive approximation. */
  function Spectral(p: Params, f: FrameFacts, ns: nat, ss: nat, se: nat, a: nat): (Ret, Params) {
    if f.coding == SOF0 then
      if ss != 0 || se != 63 || a != 0 then (Unsupported, p)
      else (Ok, p.(nonInterleaved := p.op != Baseline, qTables := if ns == 1 then 1 else 3))
    else if f.coding == SOF2 then
      if (ss == 0 && se != 0) || a / 16 > 13 || a % 16 > 13 then (Unsupported, p)
      else if ns == 1 then (Ok, p.(nonInterleaved := true, componentId := p.cIndex, qTables := 1))
      else (Ok, p.(nonInterleaved := false, componentId := 0, qTables := 3))
    else (Ok, p)
  }

  predicate Readable(h: ScanHeader) { |h.cs| == if h.ns <= 3 then h.ns else 0 }

  /** A scan header up to its spectral parameters; c is the selector of a single component. */
  function Selected(p0: Params, f: FrameFacts, ns: nat, c: nat, scanReady: bool): (Ret, Params) {
    var p := p0.(fillX := false, fillY := false);
    if ns == 1 then Single(p, f, c, scanReady) else Several(p, f, ns)
  }

  /** JpegDecDecodeScanHeader after its length check. */
  function ScanStep(p0: Params, f: FrameFacts, h: ScanHeader, scanReady: bool): (Ret, Params)
    requires Readable(h)
  {
    var r := Selected(p0, f, h.ns, if h.ns == 1 then h.cs[0] else 0, scanReady);
    if r.0 != Ok then r else Spectral(r.1, f, h.ns, h.ss, h.se, h.a)
  }

  /** The fields of DecInfo that scans use. */
  class DecInfo {
    var operationType: OpType
    var yCbCrMode: nat
    var x: int
    var y: int
    var fillX: bool
    var fillY: bool
    var fillRight: bool
    var fillBottom: bool
    var pfNeeded: Flags
    var cIndex: Index
    var componentId: Index
    var nonInterleaved: bool
    var amountOfQTables: nat
    var yCbCr422: bool
    var nonInterleavedScanReady: bool

    ghost function Current(): Params
      reads this
    {
      Params(operationType, yCbCrMode, x, y, fillX, fillY, fillRight, fillBottom, pfNeeded, cIndex, componentId,
             nonInterleaved, amountOfQTables, yCbCr422)
    }

    /** A chroma component of its own: false if its format is not supported. */
    method ChromaSize(f: FrameFacts) returns (ok: bool)
      modifies `x, `y, `yCbCrMode
      ensures ok == (f.format in {Yuv420, Yuv422, Yuv440} || (operationType == Baseline && !nonInterleavedScanReady))
      ensures yCbCrMode == 0
      ensures x == (if ok && f.format in {Yuv420, Yuv422} && (operationType != Baseline || nonInterleavedScanReady)
                    then f.hwX / 2 else old(x))
      ensures y == (if ok && f.format in {Yuv420, Yuv440} && (operationType != Baseline || nonInterleavedScanReady)
                    then f.hwY / 2 else old(y))
    {
      if operationType != Baseline || nonInterleavedScanReady {
        if f.format == Yuv420 {
          x := f.hwX / 2;
          y := f.hwY / 2;
        } else if f.format == Yuv422 {
          x := f.hwX / 2;
        } else if f.format == Yuv440 {
          y := f.hwY / 2;
        } else {
          yCbCrMode := 0;
          return false;
        }
      }
      yCbCrMode := 0;
      ok := true;
    }

    /** The luma component of its own. */
    method LumaSize(f: FrameFacts) returns (ok: bool)
      modifies `x, `y, `yCbCrMode, `yCbCr422
      ensures x == f.hwX && y == f.hwY && ok == (old(yCbCrMode) != 4)
      ensures yCbCrMode == (if old(yCbCrMode) == 2 then 1 else if old(yCbCrMode) in {3, 4} then 0 else old(yCbCrMode))
      ensures yCbCr422 == (old(yCbCr422) || old(yCbCrMode) == 3)
    {
      x := f.hwX;
      y := f.hwY;
      if yCbCrMode == 2 {
        yCbCrMode := 1;
      } else if yCbCrMode == 3 {
        yCbCrMode := 0;
        yCbCr422 := true;
      } else if yCbCrMode == 4 {
        yCbCrMode := 0;
        return false;
      }
      ok := true;
    }

    method FillSize(f: FrameFacts, c: nat)
      modifies `x, `y, `fillX, `fillY, `fillRight, `fillBottom
      ensures Current() == FillOf(old(Current()), f, c)
    {
      if x % 16 != 0 {
        x := x + 8;
        fillX := true;
      } else if (c == 1 || f.format == Yuv440) && f.x % 16 != 0 && f.x % 16 <= 8 {
        fillRight := true;
      }
      if y % 16 != 0 {
        y := y + 8;
        fillY := true;
      } else if (c == 1 || f.format == Yuv422) && f.y % 16 != 0 && f.y % 16 <= 8 {
        fillBottom := true;
      }
    }

    /** One component of a frame with three. */
    method OneOfThree(f: FrameFacts, c: nat) returns (ret: Ret)
      requires 1 <= c <= 3
      modifies `x, `y, `yCbCrMode, `yCbCr422, `fillX, `fillY, `fillRight, `fillBottom, `pfNeeded
      ensures (ret, Current()) == SingleOfThree(old(Current()), f, c, nonInterleavedScanReady)
    {
      hide ChromaOfThree, FillOf;
      fillRight := false;
      fillBottom := false;
      pfNeeded := pfNeeded[c - 1 := false];
      if c == 2 || c == 3 {
        ret := Sized(f, c);
      } else {
        var ok := LumaSize(f);
        if !ok {
          return Unsupported;
        }
        FillSize(f, c);
        ret := Ok;
      }
    }

    method Sized(f: FrameFacts, c: nat) returns (ret: Ret)
      requires Chroma(c)
      modifies `x, `y, `yCbCrMode, `fillX, `fillY, `fillRight, `fillBottom
      ensures (ret, Current()) == ChromaOfThree(old(Current()), f, c, nonInterleavedScanReady)
    {
      var ok := ChromaSize(f);
      if !ok {
        return Unsupported;
      }
      FillSize(f, c);
      ret := Ok;
    }

    method OpenSingle(c: nat)
      modifies `operationType, `cIndex, `componentId
      ensures Current() == Opened(old(Current()), c)
    {
      if operationType == Baseline && yCbCrMode != 0 {
        operationType := NonInterleaved;
      }
      if 1 <= c <= 3 {
        cIndex := c - 1;
        componentId := c - 1;
      }
    }

    method CloseSingle()
      modifies `yCbCrMode
      ensures Current() == Closed(old(Current()))
    {
      if operationType == Progressive || operationType == NonInterleaved {
        yCbCrMode := 0;
      }
    }

    /** The branch for one component. */
    method SingleComponent(f: FrameFacts, c: nat) returns (ret: Ret)
      modifies this
      ensures (ret, Current()) == Single(old(Current()), f, c, old(nonInterleavedScanReady))
      ensures nonInterleavedScanReady == old(nonInterleavedScanReady)
    {
      hide Opened, Closed, SingleOfThree;
      OpenSingle(c);
      if c < 1 || c > 3 {
        return WildJump;
      }
      if f.nf == 3 {
        ret := OneOfThree(f, c);
        if ret != Ok {
          return;
        }
      } else if f.nf == 1 {
        yCbCr422 := false;
      }
      CloseSingle();
      ret := Ok;
    }

    /** A component selector and its table selectors. */
    method ReadPair(stream: StreamStorage)
      requires Ready(stream)
      modifies stream
      ensures Ready(stream)
      ensures stream.pCurrPos == After(stream.streamLength, old(stream.pCurrPos), 2)
    {
      var cs := stream.GetByte();
      var tables := stream.GetByte();
    }

    /** The branch for several components: read them and mark the first ns. */
    method SeveralComponents(stream: StreamStorage, f: FrameFacts, ns: nat) returns (ret: Ret)
      requires Ready(stream)
      modifies this, stream
      ensures Ready(stream) && nonInterleavedScanReady == old(nonInterleavedScanReady)
      ensures (ret, Current()) == Several(old(Current()), f, ns)
      ensures ret == Ok ==> stream.pCurrPos == After(stream.streamLength, old(stream.pCurrPos), 2 * ns)
    {
      if ns > 3 {
        return WildJump;
      }
      MarkComponents(stream, ns);
      x, y, cIndex, yCbCrMode := f.hwX, f.hwY, 0, ModeOf(f.format);
      ret := Ok;
    }

    /** The loop: every component read marks the next position. */
    method MarkComponents(stream: StreamStorage, ns: nat)
      requires Ready(stream) && ns <= 3
      modifies `pfNeeded, stream
      ensures Ready(stream)
      ensures pfNeeded == seq(3, i requires 0 <= i < 3 => i < ns || old(pfNeeded)[i])
      ensures stream.pCurrPos == After(stream.streamLength, old(stream.pCurrPos), 2 * ns)
    {
      hide After;
      ghost var was, p, len := pfNeeded, stream.pCurrPos, stream.streamLength;
      AfterNothing(len, p);
      var i := 0;
      while i < ns
        invariant i <= ns && Ready(stream) && stream.pCurrPos == After(len, p, 2 * i)
        invariant forall j :: 0 <= j < 3 ==> pfNeeded[j] == (j < i || was[j])
      {
        AfterAdds(len, p, 2 * i, 2);
        ReadPair(stream);
        pfNeeded := pfNeeded[i := true];
        i := i + 1;
      }
    }

    /** Ss, Se, Ah and Al. */
    method SpectralParameters(stream: StreamStorage, f: FrameFacts, ns: nat) returns (ret: Ret)
      requires Ready(stream)
      modifies this, stream
      ensures Ready(stream) && nonInterleavedScanReady == old(nonInterleavedScanReady)
      ensures var s, len, p := stream.s, stream.streamLength, old(stream.pCurrPos);
        && (ret, Current()) ==
             Spectral(old(Current()), f, ns, ByteAt(s, len, p), ByteAt(s, len, p + 1), ByteAt(s, len, p + 2))
        && stream.pCurrPos == After(len, p, 3)
    {
      var ss := stream.GetByte();
      var se := stream.GetByte();
      var a := stream.GetByte();
      if f.coding == SOF0 {
        if ss != 0 || se != 63 || a / 16 != 0 || a % 16 != 0 {
          return Unsupported;
        }
        nonInterleaved := operationType != Baseline;
        amountOfQTables := if ns == 1 then 1 else 3;
      }
      if f.coding == SOF2 {
        if (ss == 0 && se != 0) || a / 16 > 13 || a % 16 > 13 {
          return Unsupported;
        }
        if ns == 1 {
          nonInterleaved, componentId, amountOfQTables := true, cIndex, 1;
        } else {
          nonInterleaved, componentId, amountOfQTables := false, 0, 3;
        }
      }
      ret := Ok;
    }

    method DecodeScanHeader(stream: StreamStorage, f: FrameFacts) returns (ret: Ret)
      requires Ready(stream)
      modifies this, stream
      ensures Ready(stream) && nonInterleavedScanReady == old(nonInterleavedScanReady)
      ensures var s, len, q := stream.s, stream.streamLength, old(stream.pCurrPos);
        if !EnoughData(s, len, q) then ret == StrmError && Current() == old(Current())
        else
          var h := ScanRead(s, len, AfterWord(len, q));
          && (ret, Current()) == ScanStep(old(Current()), f, h, nonInterleavedScanReady)
          && (ret == Ok ==> stream.pCurrPos == After(len, AfterWord(len, q), 4 + 2 * h.ns))
    {
      hide ScanStep, ScanRead;
      var ls := stream.Get2Bytes();
      if (stream.readBits / 8 + ls) % TWO32 > stream.streamLength {
        return StrmError;
      }
      ret := ScanFields(stream, f);
    }

    /** What follows the length. */
    method ScanFields(stream: StreamStorage, f: FrameFacts) returns (ret: Ret)
      requires Ready(stream)
      modifies this, stream
      ensures Ready(stream) && nonInterleavedScanReady == old(nonInterleavedScanReady)
      ensures var s, len, p := stream.s, stream.streamLength, old(stream.pCurrPos);
        var h := ScanRead(s, len, p);
        && (ret, Current()) == ScanStep(old(Current()), f, h, nonInterleavedScanReady)
        && (ret == Ok ==> stream.pCurrPos == After(len, p, 4 + 2 * h.ns))
    {
      hide Single, Several, Spectral;
      ghost var s, len, p := stream.s, stream.streamLength, stream.pCurrPos;
      ghost var h := ScanRead(s, len, p);
      ScanReadIs(s, len, p);
      if h.ns != 1 {
        NotSingle(Current(), f, h.ns, ByteAt(s, len, p + 1), nonInterleavedScanReady);
      }
      hide ScanRead, Selected;
      var ns;
      ret, ns := ScanSelectors(stream, f);
      if ret != Ok {
        return;
      }
      AfterReads(s, len, p, 1 + 2 * ns, 0);
      AfterReads(s, len, p, 1 + 2 * ns, 1);
      AfterReads(s, len, p, 1 + 2 * ns, 2);
      AfterAdds(len, p, 1 + 2 * ns, 3);
      hide ByteAt, After;
      ret := SpectralParameters(stream, f, ns);
    }

    /** Ns and the component selectors. */
    method ScanSelectors(stream: StreamStorage, f: FrameFacts) returns (ret: Ret, ns: nat)
      requires Ready(stream)
      modifies this, stream
      ensures Ready(stream) && nonInterleavedScanReady == old(nonInterleavedScanReady)
      ensures var s, len, p := stream.s, stream.streamLength, old(stream.pCurrPos);
        && ns == ByteAt(s, len, p)
        && (ret, Current()) == Selected(old(Current()), f, ns, ByteAt(s, len, p + 1), nonInterleavedScanReady)
        && (ret == Ok ==> ns <= 3 && stream.pCurrPos == After(len, p, 1 + 2 * ns))
    {
      hide Single, Several;
      ghost var s, len, p := stream.s, stream.streamLength, stream.pCurrPos;
      ns := stream.GetByte();
      AfterReads(s, len, p, 1, 0);
      AfterAdds(len, p, 1, 2 * ns);
      AfterNothing(len, After(len, p, 1));
      fillX, fillY := false, false;
      ret := ScanComponents(stream, f, ns);
    }

    /** The component selectors. */
    method ScanComponents(stream: StreamStorage, f: FrameFacts, ns: nat) returns (ret: Ret)
      requires Ready(stream)
      modifies this, stream
      ensures Ready(stream) && nonInterleavedScanReady == old(nonInterleavedScanReady)
      ensures var s, len, p := stream.s, stream.streamLength, old(stream.pCurrPos);
        && (ret, Current()) == (if ns == 1 then Single(old(Current()), f, ByteAt(s, len, p), nonInterleavedScanReady)
                                else Several(old(Current()), f, ns))
        && (ret == Ok ==> ns <= 3 && stream.pCurrPos == After(len, p, 2 * ns))
    {
      hide Single;
      if ns == 1 {
        var c := stream.GetByte();
        var tables := stream.GetByte();
        ret := SingleComponent(f, c);
      } else {
        ret := SeveralComponents(stream, f, ns);
      }
    }
  }

  lemma NotSingle(p0: Params, f: FrameFacts, ns: nat, c: nat, scanReady: bool)
    requires ns != 1
    ensures Selected(p0, f, ns, c, scanReady) == Selected(p0, f, ns, 0, scanReady)
  {
  }

  // ---- Runs

  predicate AllReadable(scans: seq<ScanHeader>) { forall i :: 0 <= i < |scans| ==> Readable(scans[i]) }

  /** The parameters after a sequence of scan headers, None if one was not accepted; ready has
      nonInterleavedScanReady at each of them. */
  function ParamsAfter(p: Params, f: FrameFacts, scans: seq<ScanHeader>, ready: seq<bool>): Option<Params>
    requires AllReadable(scans) && |ready| == |scans|
    decreases |scans|
  {
    if scans == [] then Some(p)
    else
      var (ret, q) := ScanStep(p, f, scans[0], ready[0]);
      if ret == Ok then ParamsAfter(q, f, scans[1..], ready[1..]) else None
  }

  /** A frame as JpegDecDecodeFrameHdr takes it. */
  predicate WholeFrame(f: FrameFacts) {
    f.hwX % 16 == 0 && f.hwY % 16 == 0 && if f.format == Yuv400 then f.nf == 1 else f.nf == 3
  }

  /** Size of component c, by the sampling factors: hwX * H_c / Hmax by hwY * V_c / Vmax. */
  function Share(f: FrameFacts, c: nat): (int, int) {
    if f.nf == 1 || c == 1 then (f.hwX, f.hwY)
    else (f.hwX / LumaFactors(f.format).0, f.hwY / LumaFactors(f.format).1)
  }

  function LeastMultipleOf16(n: int): int { (n + 15) / 16 * 16 }

  /** The size is that of the scanned component, rounded up to 16, and the fill flags say where rounding
      added a block. */
  predicate SizeOf(p: Params, f: FrameFacts, h: ScanHeader) {
    var (w, v) := if h.ns == 1 && h.cs != [] then Share(f, h.cs[0]) else (f.hwX, f.hwY);
    && p.x == LeastMultipleOf16(w) && p.y == LeastMultipleOf16(v)
    && (p.fillX <==> p.x == w + 8) && (p.fillX || p.x == w)
    && (p.fillY <==> p.y == v + 8) && (p.fillY || p.y == v)
  }

  /** What JpegDecDecodeFrameHdr and JpegDecMode store. */
  predicate FromHeader(p: Params, f: FrameFacts) {
    p.op in {Baseline, Progressive} && p.mode == ModeOf(f.format) && p.x == f.hwX && p.y == f.hwY
  }

  /** What all scans keep of that: the size where no scan of a chroma component alone changes it, and the mode
      that tells 4:4:4 frames from others. */
  predicate Steady(p: Params, f: FrameFacts) {
    && (p.op == Baseline || f.format == Yuv400 ==> p.mode == ModeOf(f.format))
    && (f.format == Yuv444 <==> p.mode == 4)
    && (f.format !in {Yuv420, Yuv440} ==> p.y == f.hwY) && (f.format !in {Yuv420, Yuv422} ==> p.x == f.hwX)
  }

  lemma StartsSteady(p: Params, f: FrameFacts)
    requires FromHeader(p, f)
    ensures Steady(p, f)
  {
  }

  // ---- One header, in terms of its own fields

  /** A component selector outside 1 to 3, or too many components: the source writes outside its arrays. */
  predicate Stray(h: ScanHeader)
    requires Readable(h)
  {
    if h.ns == 1 then h.cs[0] == 0 || h.cs[0] > 3 else h.ns > 3
  }

  /** A scan of one component is refused in 4:4:4 frames, and in 4:1:1 frames unless it is the luma. */
  predicate ComponentsTaken(f: FrameFacts, h: ScanHeader)
    requires Readable(h)
  {
    h.ns == 1 ==> f.format != Yuv444 && (f.format == Yuv411 ==> h.cs[0] == 1)
  }

  /** A baseline scan has all coefficients with all bits; a progressive one has DC coefficients alone or none,
      and at most 13 bits left out. */
  predicate CoefficientsTaken(f: FrameFacts, h: ScanHeader) {
    && (f.coding == SOF0 ==> h.ss == 0 && h.se == 63 && h.a == 0)
    && (f.coding == SOF2 ==> !(h.ss == 0 && h.se > 0) && h.a / 16 <= 13 && h.a % 16 <= 13)
  }

  predicate Takes(f: FrameFacts, h: ScanHeader)
    requires Readable(h)
  {
    !Stray(h) && ComponentsTaken(f, h) && CoefficientsTaken(f, h)
  }

  /** Which headers are taken does not depend on the scans before. */
  lemma HeaderTakenIff(p: Params, f: FrameFacts, h: ScanHeader, scanReady: bool)
    requires Readable(h) && WholeFrame(f) && Steady(p, f)
    ensures ScanStep(p, f, h, scanReady).0
         == if Stray(h) then WildJump else if Takes(f, h) then Ok else Unsupported
  {
    hide FillOf, LumaFactors;
    if h.ns == 1 && !Stray(h) && f.nf == 3 {
      SingleTakenIff(p.(fillX := false, fillY := false), f, h.cs[0], scanReady);
    }
  }

  lemma SingleTakenIff(p: Params, f: FrameFacts, c: nat, scanReady: bool)
    requires 1 <= c <= 3 && WholeFrame(f) && f.nf == 3 && Steady(p, f)
    ensures Single(p, f, c, scanReady).0
         == if f.format != Yuv444 && (f.format == Yuv411 ==> c == 1) then Ok else Unsupported
  {
    hide FillOf, LumaFactors;
  }

  /** What the components of a header that is taken do to the parameters, */
  predicate ComponentsSay(p: Params, q: Params, f: FrameFacts, h: ScanHeader)
    requires Readable(h)
  {
    var one, c := h.ns == 1, if h.ns == 1 then h.cs[0] as int else 1;
    && q.op == (if one && f.nf == 3 && p.op == Baseline then NonInterleaved else p.op)
    && q.mode == (if one then 0 else ModeOf(f.format)) && SizeOf(q, f, h)
    && (if one && f.nf == 3 then
          && (q.fillRight <==> (c == 1 || f.format == Yuv440) && LeastMultipleOf16(f.x) - f.x >= 8)
          && (q.fillBottom <==> (c == 1 || f.format == Yuv422) && LeastMultipleOf16(f.y) - f.y >= 8)
        else q.fillRight == p.fillRight && q.fillBottom == p.fillBottom)
    && (forall i: Index ::
         q.pfNeeded[i] == if one then p.pfNeeded[i] && !(f.nf == 3 && i == c - 1) else i < h.ns || p.pfNeeded[i])
    && q.cIndex == c - 1
    && q.yCbCr422 == (if one && f.nf == 1 then false else p.yCbCr422 || (one && c == 1 && p.mode == 3))
  }

  /** and what the coding process does. */
  predicate ProcessSays(p: Params, q: Params, f: FrameFacts, h: ScanHeader) {
    var one := h.ns == 1;
    && q.componentId == (if one then q.cIndex else if f.coding == SOF2 then 0 else p.componentId)
    && (f.coding == SOF0 ==> q.nonInterleaved == (q.op != Baseline) && q.qTables == if one then 1 else 3)
    && (f.coding == SOF2 ==> q.nonInterleaved == one && q.qTables == if one then 1 else 3)
  }

  predicate Says(p: Params, q: Params, f: FrameFacts, h: ScanHeader)
    requires Readable(h)
  {
    ComponentsSay(p, q, f, h) && ProcessSays(p, q, f, h)
  }

  /** The parameters that geometry and bookkeeping depend on. */
  predicate SameScan(p: Params, q: Params) {
    && p.op == q.op && p.mode == q.mode && p.x == q.x && p.y == q.y
    && p.fillX == q.fillX && p.fillY == q.fillY && p.fillRight == q.fillRight && p.fillBottom == q.fillBottom
    && p.pfNeeded == q.pfNeeded && p.cIndex == q.cIndex && p.yCbCr422 == q.yCbCr422
  }

  lemma SpectralKeeps(p: Params, f: FrameFacts, h: ScanHeader)
    ensures SameScan(Spectral(p, f, h.ns, h.ss, h.se, h.a).1, p)
  {
  }

  lemma HalfRounds(n: int)
    requires n % 16 == 0
    ensures Rounded(n) == n == LeastMultipleOf16(n)
    ensures Rounded(n / 2) == LeastMultipleOf16(n / 2)
    ensures n / 2 % 16 == 0 || (n / 2 % 16 == 8 && Rounded(n / 2) == n / 2 + 8)
  {
    hide Rounded, LeastMultipleOf16;
    var d, e := n / 32, n / 16 % 2;
    assert n == 32 * d + 16 * e;
    Halves(n, d, 8 * e);
  }

  lemma Halves(n: int, d: int, r: int)
    requires (r == 0 || r == 8) && n == 32 * d + 2 * r
    ensures Rounded(n) == n == LeastMultipleOf16(n) && n / 2 == 16 * d + r && n / 2 % 16 == r
    ensures Rounded(n / 2) == n / 2 + r == LeastMultipleOf16(n / 2)
  {
    var e := if r == 0 then 0 else 1;
    By16(n, 2 * d + e, 0);
    By16(n + 15, 2 * d + e, 15);
    By16(16 * d + r, d, r);
    By16(16 * d + r + 15, d + e, 15 - r);
  }

  lemma By16(n: int, q: int, r: int)
    requires n == 16 * q + r && 0 <= r < 16
    ensures n / 16 == q && n % 16 == r
  {
  }

  /** The test of NeedsFill is for padding of eight samples or more. */
  lemma FillIsHalf(n: nat)
    ensures NeedsFill(n) <==> LeastMultipleOf16(n) - n >= 8
  {
  }

  lemma SharesAreWhole(f: FrameFacts)
    requires WholeFrame(f)
    ensures Rounded(f.hwX) == f.hwX && Rounded(f.hwY) == f.hwY
  {
  }

  /** What a scan of one component in a frame of three leaves. */
  lemma ThreeSays(p: Params, f: FrameFacts, c: nat, scanReady: bool)
    requires 1 <= c <= 3 && WholeFrame(f) && f.nf == 3 && Steady(p, f) && p.op != Baseline && !p.fillX && !p.fillY
    requires f.format != Yuv444 && (f.format == Yuv411 ==> c == 1)
    ensures var q, (w, v) := SingleOfThree(p, f, c, scanReady).1, Share(f, c);
      && q.x == Rounded(w) && q.y == Rounded(v)
      && (q.fillX <==> w % 16 != 0) && (q.fillY <==> v % 16 != 0)
      && (q.fillRight <==> (c == 1 || f.format == Yuv440) && NeedsFill(f.x))
      && (q.fillBottom <==> (c == 1 || f.format == Yuv422) && NeedsFill(f.y))
      && q.yCbCr422 == (p.yCbCr422 || (c == 1 && p.mode == 3))
  {
    SharesAreWhole(f);
    hide Rounded, NeedsFill;
    if c == 1 {
      hide LumaFactors;
    }
  }

  lemma SingleSays(p: Params, f: FrameFacts, c: nat, scanReady: bool)
    requires 1 <= c <= 3 && WholeFrame(f) && f.nf == 3 && Steady(p, f) && !p.fillX && !p.fillY
    requires Single(p, f, c, scanReady).0 == Ok
    ensures var q, (w, v) := Single(p, f, c, scanReady).1, Share(f, c);
      && q.op == (if p.op == Baseline then NonInterleaved else p.op) && q.mode == 0
      && q.x == Rounded(w) && q.y == Rounded(v)
      && (q.fillX <==> w % 16 != 0) && (q.fillY <==> v % 16 != 0)
      && (q.fillRight <==> (c == 1 || f.format == Yuv440) && NeedsFill(f.x))
      && (q.fillBottom <==> (c == 1 || f.format == Yuv422) && NeedsFill(f.y))
      && q.pfNeeded == p.pfNeeded[c - 1 := false] && q.cIndex == q.componentId == c - 1
      && q.yCbCr422 == (p.yCbCr422 || (c == 1 && p.mode == 3))
  {
    SingleTakenIff(p, f, c, scanReady);
    ThreeSays(Opened(p, c), f, c, scanReady);
    ThreeNeeded(Opened(p, c), f, c, scanReady);
    ThreeKeeps(Opened(p, c), f, c, scanReady);
    hide SingleOfThree, Share, Rounded, NeedsFill;
  }

  lemma ThreeKeeps(p: Params, f: FrameFacts, c: nat, ready: bool)
    requires 1 <= c <= 3
    ensures var q := SingleOfThree(p, f, c, ready).1;
      q.componentId == p.componentId && q.cIndex == p.cIndex && q.op == p.op
  {
    hide ChromaOfThree;
    ChromaKeeps(p.(fillRight := false, fillBottom := false, pfNeeded := p.pfNeeded[c - 1 := false]), f, c, ready);
  }

  lemma ChromaKeeps(p: Params, f: FrameFacts, c: nat, ready: bool)
    ensures var q := ChromaOfThree(p, f, c, ready).1;
      q.componentId == p.componentId && q.cIndex == p.cIndex && q.op == p.op
  {
    hide Rounded, NeedsFill;
  }

  /** Shares are whole blocks, so that rounding adds half a macroblock or nothing. */
  lemma ShareRounds(f: FrameFacts, c: nat)
    requires WholeFrame(f) && (f.format == Yuv411 ==> c == 1)
    ensures var (w, v) := Share(f, c);
      && Rounded(w) == LeastMultipleOf16(w) && Rounded(v) == LeastMultipleOf16(v)
      && Rounded(w) == (if w % 16 != 0 then w + 8 else w) && Rounded(v) == if v % 16 != 0 then v + 8 else v
  {
    HalfRounds(f.hwX);
    HalfRounds(f.hwY);
    hide Rounded, LeastMultipleOf16;
  }

  lemma OneOfThreeSays(p: Params, f: FrameFacts, h: ScanHeader, scanReady: bool)
    requires Readable(h) && WholeFrame(f) && Steady(p, f) && !Stray(h) && ComponentsTaken(f, h) && h.ns == 1
    requires f.nf == 3 && !p.fillX && !p.fillY
    ensures var q := Single(p, f, h.cs[0], scanReady).1; ComponentsSay(p, q, f, h) && q.componentId == q.cIndex
  {
    ShareRounds(f, h.cs[0]);
    FillIsHalf(f.x);
    FillIsHalf(f.y);
    SingleTakenIff(p, f, h.cs[0], scanReady);
    SingleSays(p, f, h.cs[0], scanReady);
    hide Single, Share, Rounded, LeastMultipleOf16, NeedsFill;
  }

  lemma OnlySays(p: Params, f: FrameFacts, h: ScanHeader, scanReady: bool)
    requires Readable(h) && WholeFrame(f) && Steady(p, f) && !Stray(h) && h.ns == 1 && f.nf == 1
    requires !p.fillX && !p.fillY
    ensures var q := Single(p, f, h.cs[0], scanReady).1; ComponentsSay(p, q, f, h) && q.componentId == q.cIndex
  {
    ShareRounds(f, 1);
    hide SingleOfThree, Rounded, LeastMultipleOf16;
  }

  lemma SeveralSays(p: Params, f: FrameFacts, h: ScanHeader)
    requires Readable(h) && WholeFrame(f) && !Stray(h) && h.ns != 1 && !p.fillX && !p.fillY
    ensures var q := Several(p, f, h.ns).1; ComponentsSay(p, q, f, h) && q.componentId == p.componentId
  {
    ShareRounds(f, 1);
    hide Rounded, LeastMultipleOf16;
  }

  lemma SelectedSays(p: Params, f: FrameFacts, h: ScanHeader, scanReady: bool)
    requires Readable(h) && WholeFrame(f) && Steady(p, f) && !Stray(h) && ComponentsTaken(f, h)
    ensures var c := if h.ns == 1 then h.cs[0] else 0;
      var q := Selected(p, f, h.ns, c, scanReady).1;
      ComponentsSay(p, q, f, h) && q.componentId == if h.ns == 1 then q.cIndex else p.componentId
  {
    var q := p.(fillX := false, fillY := false);
    if h.ns != 1 {
      SeveralSays(q, f, h);
    } else if f.nf == 3 {
      OneOfThreeSays(q, f, h, scanReady);
    } else {
      OnlySays(q, f, h, scanReady);
    }
    hide Single, Several, SizeOf, LeastMultipleOf16;
  }

  lemma SpectralSays(p: Params, f: FrameFacts, h: ScanHeader)
    requires CoefficientsTaken(f, h)
    ensures var (ret, q) := Spectral(p, f, h.ns, h.ss, h.se, h.a);
      && ret == Ok && SameScan(p, q)
      && q.componentId == (if f.coding == SOF2 then if h.ns == 1 then p.cIndex else 0 else p.componentId)
      && (f.coding == SOF0 ==> q.nonInterleaved == (p.op != Baseline) && q.qTables == if h.ns == 1 then 1 else 3)
      && (f.coding == SOF2 ==> q.nonInterleaved == (h.ns == 1) && q.qTables == if h.ns == 1 then 1 else 3)
  {
  }

  lemma SameSays(p: Params, r: Params, q: Params, f: FrameFacts, h: ScanHeader)
    requires Readable(h) && ComponentsSay(p, r, f, h) && SameScan(r, q)
    ensures ComponentsSay(p, q, f, h)
  {
    hide LeastMultipleOf16, Share;
  }

  lemma HeaderSays(p: Params, f: FrameFacts, h: ScanHeader, scanReady: bool)
    requires Readable(h) && WholeFrame(f) && Steady(p, f) && Takes(f, h)
    ensures Says(p, ScanStep(p, f, h, scanReady).1, f, h)
  {
    HeaderTakenIff(p, f, h, scanReady);
    SelectedSays(p, f, h, scanReady);
    var r := Selected(p, f, h.ns, if h.ns == 1 then h.cs[0] else 0, scanReady).1;
    SpectralSays(r, f, h);
    SameSays(p, r, Spectral(r, f, h.ns, h.ss, h.se, h.a).1, f, h);
    hide Selected, Spectral, ComponentsSay;
  }

  lemma StaysSteady(p: Params, q: Params, f: FrameFacts, h: ScanHeader)
    requires Readable(h) && WholeFrame(f) && Steady(p, f) && Takes(f, h) && Says(p, q, f, h)
    ensures Steady(q, f)
  {
    HalfRounds(f.hwX);
    HalfRounds(f.hwY);
    hide LeastMultipleOf16;
  }

  // ---- All headers of an image

  lemma OneScan(p: Params, f: FrameFacts, h: ScanHeader, scanReady: bool)
    requires Readable(h) && WholeFrame(f) && Steady(p, f)
    ensures ScanStep(p, f, h, scanReady).0 == Ok <==> Takes(f, h)
    ensures var r := ScanStep(p, f, h, scanReady).1;
      Takes(f, h) ==> Steady(r, f) && Says(p, r, f, h) && SizeOf(r, f, h)
  {
    HeaderTakenIff(p, f, h, scanReady);
    hide ScanStep;
    if Takes(f, h) {
      HeaderSays(p, f, h, scanReady);
      StaysSteady(p, ScanStep(p, f, h, scanReady).1, f, h);
    }
  }

  predicate TakesAll(f: FrameFacts, scans: seq<ScanHeader>)
    requires AllReadable(scans)
  {
    forall i :: 0 <= i < |scans| ==> Takes(f, scans[i])
  }

  lemma NoneToTake(f: FrameFacts, scans: seq<ScanHeader>)
    requires scans == []
    ensures TakesAll(f, scans)
  {
  }

  lemma TakesAllStep(f: FrameFacts, scans: seq<ScanHeader>)
    requires AllReadable(scans) && scans != []
    ensures TakesAll(f, scans) <==> Takes(f, scans[0]) && TakesAll(f, scans[1..])
  {
    hide Takes;
    assert scans == [scans[0]] + scans[1..];
  }

  /** The headers of an image are all accepted exactly when each of them is of those that are taken. */
  lemma {:induction false} TakenIff(p: Params, f: FrameFacts, scans: seq<ScanHeader>, ready: seq<bool>)
    requires AllReadable(scans) && |ready| == |scans| && WholeFrame(f) && Steady(p, f)
    ensures ParamsAfter(p, f, scans, ready).Some? <==> TakesAll(f, scans)
    decreases |scans|
  {
    hide ScanStep, Takes, Steady, Says;
    if scans != [] {
      OneScan(p, f, scans[0], ready[0]);
      TakesAllStep(f, scans);
      if Takes(f, scans[0]) {
        TakenIff(ScanStep(p, f, scans[0], ready[0]).1, f, scans[1..], ready[1..]);
      }
    }
  }

  /** Over any accepted scans of any frame, the size depends on the last scan alone. */
  lemma {:induction false} SizeOfLastScan(p: Params, f: FrameFacts, scans: seq<ScanHeader>, ready: seq<bool>)
    requires AllReadable(scans) && |ready| == |scans| && Steady(p, f) && WholeFrame(f)
    requires ParamsAfter(p, f, scans, ready).Some?
    ensures Steady(ParamsAfter(p, f, scans, ready).value, f)
    ensures scans != [] ==> SizeOf(ParamsAfter(p, f, scans, ready).value, f, scans[|scans| - 1])
    decreases |scans|
  {
    hide ScanStep, SizeOf, Steady, Takes, Says;
    if scans != [] {
      OneScan(p, f, scans[0], ready[0]);
      SizeOfLastScan(ScanStep(p, f, scans[0], ready[0]).1, f, scans[1..], ready[1..]);
    }
  }

  /** And so does everything else the hardware is told of the scan; a baseline image is non-interleaved from its
      first scan of one component on. */
  lemma {:induction false} LastScanSays(p: Params, f: FrameFacts, scans: seq<ScanHeader>, ready: seq<bool>)
    requires AllReadable(scans) && |ready| == |scans| && Steady(p, f) && WholeFrame(f) && scans != []
    requires ParamsAfter(p, f, scans, ready).Some?
    ensures var q, last := ParamsAfter(p, f, scans, ready).value, scans[|scans| - 1];
      var lone := exists i :: 0 <= i < |scans| && scans[i].ns == 1;
      && q.op == (if lone && f.nf == 3 && p.op == Baseline then NonInterleaved else p.op)
      && q.mode == (if last.ns == 1 then 0 else ModeOf(f.format))
      && q.cIndex == (if last.ns == 1 then last.cs[0] as int - 1 else 0)
      && (f.coding == SOF0 ==> q.nonInterleaved == (q.op != Baseline))
      && (f.coding == SOF2 ==> q.nonInterleaved == (last.ns == 1) && q.componentId == q.cIndex)
      && (f.coding in {SOF0, SOF2} ==> q.qTables == if last.ns == 1 then 1 else 3)
      && (last.ns == 1 && f.nf == 3 ==>
           && (q.fillRight <==>
                (last.cs[0] == 1 || f.format == Yuv440) && LeastMultipleOf16(f.x) - f.x >= 8)
           && (q.fillBottom <==>
                (last.cs[0] == 1 || f.format == Yuv422) && LeastMultipleOf16(f.y) - f.y >= 8))
    decreases |scans|
  {
    hide ScanStep, SizeOf, Steady, Takes, LeastMultipleOf16, Share;
    OneScan(p, f, scans[0], ready[0]);
    var rest := scans[1..];
    assert scans == [scans[0]] + rest;
    if rest != [] {
      LastScanSays(ScanStep(p, f, scans[0], ready[0]).1, f, rest, ready[1..]);
      assert rest[|rest| - 1] == scans[|scans| - 1];
      assert forall i :: 0 <= i < |rest| ==> rest[i] == scans[i + 1];
    }
  }

  predicate Alone(h: ScanHeader, c: nat) { h.ns == 1 && h.cs == [c + 1] }

  predicate Together(h: ScanHeader, c: nat) { h.ns != 1 && c < h.ns }

  predicate NoneAlone(scans: seq<ScanHeader>, c: nat) { forall i :: 0 <= i < |scans| ==> !Alone(scans[i], c) }

  /** Scan i has component c with others and no later one is a scan of c alone. */
  predicate LeftOver(scans: seq<ScanHeader>, c: nat, i: nat)
    requires i < |scans|
  {
    Together(scans[i], c) && NoneAlone(scans[i + 1..], c)
  }

  /** Component c was in an interleaved scan after which no scan of it alone came, or it was marked when
      the image began, by an earlier one, and there was no scan of it alone at all. */
  predicate Owed(marked: bool, scans: seq<ScanHeader>, c: nat) {
    (exists i :: 0 <= i < |scans| && LeftOver(scans, c, i)) || (marked && NoneAlone(scans, c))
  }

  lemma OwedStep(marked: bool, scans: seq<ScanHeader>, c: nat)
    requires scans != []
    ensures Owed(marked, scans, c)
       <==> Owed(Together(scans[0], c) || (marked && !Alone(scans[0], c)), scans[1..], c)
  {
    var rest := scans[1..];
    assert scans == [scans[0]] + rest;
    assert LeftOver(scans, c, 0) <==> Together(scans[0], c) && NoneAlone(rest, c);
    assert NoneAlone(scans, c) <==> !Alone(scans[0], c) && NoneAlone(rest, c);
    forall i | 0 <= i < |rest| ensures LeftOver(scans, c, i + 1) <==> LeftOver(rest, c, i) {
      assert scans[i + 2..] == rest[i + 1..];
    }
    if i :| 0 <= i < |scans| && LeftOver(scans, c, i) {
      assert i > 0 ==> LeftOver(rest, c, i - 1);
    }
  }

  /** The flag of every component after any accepted scans. */
  lemma {:induction false} NeededIff(p: Params, f: FrameFacts, scans: seq<ScanHeader>, ready: seq<bool>, c: nat)
    requires AllReadable(scans) && |ready| == |scans| && f.nf == 3 && c < 3
    requires ParamsAfter(p, f, scans, ready).Some?
    ensures ParamsAfter(p, f, scans, ready).value.pfNeeded[c] <==> Owed(p.pfNeeded[c], scans, c)
    decreases |scans|
  {
    hide ScanStep;
    if scans != [] {
      var q := ScanStep(p, f, scans[0], ready[0]).1;
      NeededStep(p, f, scans[0], ready[0], c);
      NeededIff(q, f, scans[1..], ready[1..], c);
      OwedStep(p.pfNeeded[c], scans, c);
    }
  }

  lemma NeededStep(p: Params, f: FrameFacts, h: ScanHeader, scanReady: bool, c: nat)
    requires Readable(h) && f.nf == 3 && c < 3 && ScanStep(p, f, h, scanReady).0 == Ok
    ensures ScanStep(p, f, h, scanReady).1.pfNeeded[c] == (Together(h, c) || (p.pfNeeded[c] && !Alone(h, c)))
  {
    var q := p.(fillX := false, fillY := false);
    if h.ns == 1 {
      assert h.cs == [h.cs[0]];
      SingleNeeded(q, f, h.cs[0], scanReady);
      SpectralKeeps(Single(q, f, h.cs[0], scanReady).1, f, h);
    } else {
      SpectralKeeps(Several(q, f, h.ns).1, f, h);
    }
  }

  lemma SingleNeeded(p: Params, f: FrameFacts, c: nat, scanReady: bool)
    requires f.nf == 3 && Single(p, f, c, scanReady).0 == Ok
    ensures 1 <= c <= 3 && Single(p, f, c, scanReady).1.pfNeeded == p.pfNeeded[c - 1 := false]
  {
    if 1 <= c <= 3 {
      ThreeNeeded(Opened(p, c), f, c, scanReady);
    }
  }

  lemma ThreeNeeded(p: Params, f: FrameFacts, c: nat, scanReady: bool)
    requires 1 <= c <= 3
    ensures SingleOfThree(p, f, c, scanReady).1.pfNeeded == p.pfNeeded[c - 1 := false]
  {
  }
}
