/** Frame geometry as three places compute it: JpegDecGetImageInfo, JpegDecDecodeFrameHdr with
    JpegDecMode, and the wrapper pv_rkJpegdecoder_oneframe (sections A.1.1, A.2 and B.2.2 of
    ITU-T T.81). */
module FrameGeometry {
  import opened Common

  const MIN_SIZE: nat := 48               // JPEGDEC_MIN_WIDTH, JPEGDEC_MIN_HEIGHT
  const MAX_SIZE: nat := 8176             // JPEGDEC_MAX_WIDTH_8190, JPEGDEC_MAX_HEIGHT_8190
  const MAX_PIXELS_8190: nat := 66846976  // JPEGDEC_MAX_PIXEL_AMOUNT_8190
  const MAX_PIXELS: nat := 16370688       // JPEGDEC_MAX_PIXEL_AMOUNT
  const MAX_SLICE: nat := 8100            // JPEGDEC_MAX_SLICE_SIZE_8190

  datatype Format = Yuv400 | Yuv420 | Yuv422 | Yuv440 | Yuv411 | Yuv444

  datatype Component = Component(c: nat, h: nat, v: nat, tq: nat)

  /** A frame header as read from the stream. */
  datatype Sof = Sof(lf: nat, p: nat, y: nat, x: nat, comps: seq<Component>)

  ghost predicate WellTyped(f: Sof) {
    f.p < 256 && f.y < 0x1_0000 && f.x < 0x1_0000 && |f.comps| < 256
    && forall i :: 0 <= i < |f.comps| ==>
      f.comps[i].c < 256 && f.comps[i].h < 16 && f.comps[i].v < 16 && f.comps[i].tq < 256
  }

  /** `(x + 0xf) & ~0xf` on RK_U32. */
  function Align16(x: nat): (r: nat)
    requires x < TWO32
    ensures r % 16 == 0 && (x < TWO32 - 15 ==> x <= r < x + 16)
  {
    ((x + 15) % TWO32) / 16 * 16
  }

  predicate Supported(w: int, h: int) {
    MIN_SIZE <= w <= MAX_SIZE && MIN_SIZE <= h <= MAX_SIZE && w * h <= MAX_PIXELS_8190
  }

  /** H and V of the three component slots; GetImageInfo leaves absent components at zero. */
  function Factors(comps: seq<Component>): (r: seq<(nat, nat)>)
    ensures |r| == 3
  {
    seq(3, i requires 0 <= i < 3 => if i < |comps| then (comps[i].h, comps[i].v) else (0, 0))
  }

  function InfoFormat(k: seq<(nat, nat)>): Option<Format>
    requires |k| == 3
  {
    if k[1] == (1, 1) && k[2] == (1, 1) then
      if k[0] == (2, 2) then Some(Yuv420)
      else if k[0] == (2, 1) then Some(Yuv422)
      else if k[0] == (1, 2) then Some(Yuv440)
      else if k[0] == (4, 1) then Some(Yuv411)
      else if k[0] == (1, 1) then Some(Yuv444)
      else None
    else if k == [(1, 1), (0, 0), (0, 0)] then Some(Yuv400)
    else None
  }

  datatype Geometry = Geometry(format: Format, hwX: int, hwY: int, mcuInRow: int, mcuInFrame: int)

  /** Luma samples of an MCU in a row and in all. */
  function McuWidth(f: Format): nat {
    match f
    case Yuv400 | Yuv440 | Yuv444 => 8
    case Yuv420 | Yuv422 => 16
    case Yuv411 => 32
  }

  function McuArea(f: Format): nat {
    match f
    case Yuv400 | Yuv444 => 64
    case Yuv422 | Yuv440 => 128
    case Yuv420 | Yuv411 => 256
  }

  /** The width that 4:1:1 frames are padded to. */
  function PadWidth(fmt: Format, w: int): int {
    if fmt == Yuv411 && w % 32 != 0 then w + 16 else w
  }

  /** The geometry GetImageInfo derives from a format and a padded size. */
  function GeometryOf(fmt: Format, w: int, h: int): Geometry {
    Geometry(fmt, w, h, w / McuWidth(fmt), w * h / McuArea(fmt))
  }

  /** The frame header case of JpegDecGetImageInfo on precision, size, number of components and the
      factors in its three slots; None is JPEGDEC_UNSUPPORTED. */
  function InfoOf(p: nat, y: nat, x: nat, nf: nat, k: seq<(nat, nat)>): Option<Geometry>
    requires y < TWO32 && x < TWO32 && |k| == 3
  {
    var w, h := Align16(x), Align16(y);
    if p != 8 || y < 1 || x < 1 || !Supported(w, h) || (nf != 3 && nf != 1) then None
    else match InfoFormat(k)
      case None => None
      case Some(fmt) =>
        if fmt == Yuv411 && !Supported(PadWidth(fmt, w), h) then None
        else Some(GeometryOf(fmt, PadWidth(fmt, w), h))
  }

  function InfoFrame(f: Sof): Option<Geometry>
    requires WellTyped(f)
  {
    InfoOf(f.p, f.y, f.x, |f.comps|, Factors(f.comps))
  }

  /** What the decoder keeps of a frame; the sequences have one entry per component. */
  datatype Frame = Frame(geo: Geometry, hmax: nat, vmax: nat, factors: seq<(nat, nat)>,
                         pixelsPerRow: seq<int>, columns: seq<int>, numBlocks: seq<int>,
                         size: int, sizeLuma: int, sizeChroma: int,
                         fillRight: bool, fillBottom: bool)

  predicate ConsecutiveIds(comps: seq<Component>) {
    forall i :: 0 < i < |comps| ==> comps[i].c == comps[i - 1].c + 1
  }

  function MaxH(k: seq<(nat, nat)>): nat { if k == [] then 0 else Max(k[0].0, MaxH(k[1..])) }

  function MaxV(k: seq<(nat, nat)>): nat { if k == [] then 0 else Max(k[0].1, MaxV(k[1..])) }

  function Sum(s: seq<int>): int { if s == [] then 0 else s[0] + Sum(s[1..]) }

  function CeilDiv(a: int, b: int): int
    requires b > 0
  {
    (a + b - 1) / b
  }

  /** Blocks of a component along one dimension. */
  function Blocks(hw: int, factor: int, max: int): int
    requires max > 0
  {
    (hw * factor / max + 7) / 8
  }

  /** `((hw + max * 8 - 1) / (max * 8)) * max * 8`. */
  function WholeMcus(hw: int, max: int): int
    requires max > 0
  {
    CeilDiv(hw, max * 8) * (max * 8)
  }

  /** JpegDecMode's view of the factors: grey frames have been forced to (1, 1). */
  function DecFormat(k: seq<(nat, nat)>): Option<Format> {
    if |k| == 1 then Some(Yuv400)
    else if |k| == 3 && k[1] == (1, 1) && k[2] == (1, 1) then InfoFormat(k)
    else None
  }

  /** fillRight or fillBottom of a dimension. */
  predicate NeedsFill(n: nat) { n % 16 != 0 && n % 16 <= 8 }

  /** Chroma bytes of a slice with the given luma bytes. */
  function SliceChroma(fmt: Format, luma: int): int {
    match fmt
    case Yuv400 => 0
    case Yuv420 | Yuv411 => luma / 2
    case Yuv422 | Yuv440 => luma
    case Yuv444 => luma * 2
  }

  /** The sampling and the padded size of an accepted frame. */
  datatype Shape = Shape(format: Format, factors: seq<(nat, nat)>, w: int, h: int)

  /** What JpegDecDecodeFrameHdr and JpegDecMode accept after the length check. */
  function DecShape(f: Sof): Option<Shape>
    requires f.y < TWO32 && f.x < TWO32
  {
    var w, h := Align16(f.x), Align16(f.y);
    if f.p != 8 || f.y < 1 || f.x < 1 || !Supported(w, h) || (|f.comps| != 3 && |f.comps| != 1) then None
    else if !ConsecutiveIds(f.comps) then None
    else
      var k := if |f.comps| == 1 then [(1, 1)] else Factors(f.comps);
      var w' := if MaxH(k) == 4 && w % 32 != 0 then w + 16 else w;
      if MaxH(k) == 0 || MaxV(k) == 0 || (w' != w && !Supported(w', h)) then None
      else match DecFormat(k)
        case None => None
        case Some(fmt) => Some(Shape(fmt, k, w', h))
  }

  /** JpegDecDecodeFrameHdr after its length check, with JpegDecMode; None is JPEGDEC_UNSUPPORTED. */
  function DecFrame(f: Sof, slice: nat): Option<Frame>
    requires f.y < TWO32 && f.x < TWO32
  {
    match DecShape(f)
    case None => None
    case Some(sh) => Some(Layout(sh, slice, f.x, f.y))
  }

  function Layout(sh: Shape, slice: nat, x: nat, y: nat): Frame
    requires sh.factors != [] && MaxH(sh.factors) > 0 && MaxV(sh.factors) > 0
  {
    var k, w, h := sh.factors, sh.w, sh.h;
    var hmax, vmax := MaxH(k), MaxV(k);
    var width, height := WholeMcus(w, hmax), WholeMcus(h, vmax);
    var rows := seq(|k|, i requires 0 <= i < |k| => CeilDiv(width * k[i].0, hmax));
    var cols := seq(|k|, i requires 0 <= i < |k| => CeilDiv(height * k[i].1, vmax));
    var blocks := seq(|k|, i requires 0 <= i < |k| => Blocks(w, k[i].0, hmax) * Blocks(h, k[i].1, vmax));
    var size := Sum(seq(|k|, i requires 0 <= i < |k| => rows[i] * cols[i]));
    var luma := if slice > 0 then w * (slice * 16) else rows[0] * cols[0];
    var inRow := width / (8 * hmax);
    Frame(Geometry(sh.format, w, h, inRow, inRow * (height / (8 * vmax))), hmax, vmax, k, rows, cols, blocks,
          size, luma, if slice > 0 then SliceChroma(sh.format, luma) else size - luma,
          sh.format in {Yuv400, Yuv440, Yuv444} && NeedsFill(x),
          sh.format in {Yuv400, Yuv422, Yuv444, Yuv411} && NeedsFill(y))
  }
}
