/** The wrapper's arithmetic on an accepted frame: MCU counts, output buffer size and forced slices, against
    the checks that JpegDecDecode makes of them. */
module SliceSizing {
  import opened Common
  import opened FrameGeometry
  import opened FrameLaws
  import opened CallChecks

  /** amountOfMCUs and mcuInRow. */
  method CountMcus(fmt: Format, w: int, h: int) returns (amountOfMCUs: int, mcuInRow: int)
    requires w >= 0 && h >= 0
    ensures var g := GeometryOf(fmt, w, h); amountOfMCUs == g.mcuInFrame && mcuInRow == g.mcuInRow
  {
    if fmt == Yuv400 || fmt == Yuv444 {
      amountOfMCUs := (w * h) / 64;
      mcuInRow := w / 8;
    } else if fmt == Yuv420 {
      amountOfMCUs := (w * h) / 256;
      mcuInRow := w / 16;
    } else if fmt == Yuv422 {
      amountOfMCUs := (w * h) / 128;
      mcuInRow := w / 16;
    } else if fmt == Yuv440 {
      amountOfMCUs := (w * h) / 128;
      mcuInRow := w / 8;
    } else {
      amountOfMCUs := (w * h) / 256;
      mcuInRow := w / 32;
    }
  }

  /** The do-while loop that forces slices on images over 16M: the largest slice height whose rows fit. */
  method ForceSlices(w: int, h: int, mcuInRow: int, divider: nat) returns (s: nat)
    requires divider > 0 && 0 < mcuInRow / divider < MAX_SLICE
    ensures w * h <= MAX_PIXELS ==> s == 0
    ensures w * h > MAX_PIXELS ==> s * (mcuInRow / divider) < MAX_SLICE <= (s + 1) * (mcuInRow / divider)
  {
    s := 0;
    if w * h > MAX_PIXELS {
      var r := mcuInRow / divider;
      s := 1;
      while s * r + r < MAX_SLICE
        invariant s * r < MAX_SLICE
        decreases MAX_SLICE - s * r
      {
        NextRow(s, r);
        s := s + 1;
      }
      NextRow(s, r);
    }
  }

  lemma NextRow(s: nat, r: int)
    requires r > 0
    ensures (s + 1) * r == s * r + r > s * r
  {
  }

  lemma AcceptedGeometry(f: Sof)
    requires WellTyped(f) && InfoFrame(f).Some?
    ensures var g := InfoFrame(f).value;
      && Supported(g.hwX, g.hwY) && g == GeometryOf(g.format, g.hwX, g.hwY)
  {
  }

  lemma RowBounds(w: int, h: int, fmt: Format)
    requires Supported(w, h)
    ensures var r := GeometryOf(fmt, w, h).mcuInRow / McuSizeDivider(fmt);
      0 < r <= 511 && (w * h > MAX_PIXELS ==> MAX_SLICE < GeometryOf(fmt, w, h).mcuInFrame)
  {
    var area := McuArea(fmt);
    assert w * h > MAX_PIXELS ==> w * h / area >= MAX_PIXELS / area;
  }

  /** The slice height the wrapper passes on for an image of this geometry: 0, or the largest below the
      limit. */
  predicate Chosen(g: Geometry, s: nat) {
    var r := g.mcuInRow / McuSizeDivider(g.format);
    if g.hwX * g.hwY <= MAX_PIXELS then s == 0 else s > 0 && s * r < MAX_SLICE <= (s + 1) * r
  }

  /** What the wrapper does about slices for a frame GetImageInfo has accepted. */
  method ChooseSlice(f: Sof) returns (s: nat)
    requires WellTyped(f) && InfoFrame(f).Some?
    ensures Chosen(InfoFrame(f).value, s)
  {
    var g := InfoFrame(f).value;
    AcceptedGeometry(f);
    RowBounds(g.hwX, g.hwY, g.format);
    var amountOfMCUs, mcuInRow := CountMcus(g.format, g.hwX, g.hwY);
    s := ForceSlices(g.hwX, g.hwY, mcuInRow, McuSizeDivider(g.format));
  }

  /** With that choice the checks at the head of a call pass unless the image is progressive and the fuse
      burned, or over 16M and not baseline. */
  lemma ChosenPasses(f: Sof, k: Setup, op: OpType)
    requires WellTyped(f) && InfoFrame(f) == Some(k.geo) && Chosen(k.geo, k.slice)
    ensures DecodeChecks(k, op).None? <==>
      !(k.fuseBurned && op == Progressive) && (op == Baseline || k.geo.hwX * k.geo.hwY <= 16370688)
  {
    AcceptedGeometry(f);
    RowBounds(k.geo.hwX, k.geo.hwY, k.geo.format);
  }

  function Up16(n: int): int { (n + 15) / 16 * 16 }

  function PicBytes(fmt: Format, area: int): int {
    match fmt
    case Yuv400 => area
    case Yuv420 => area * 3 / 2
    case Yuv422 | Yuv440 | Yuv411 => area * 2
    case Yuv444 => area * 3
  }

  /** pic_size without colour conversion. */
  function PicSize(fmt: Format, w: int, h: int): int
    requires w >= 0 && h >= 0
  {
    PicBytes(fmt, Up16(w) * Up16(h))
  }

  /** The output buffer holds the decoded image; it is exact for every format but 4:1:1, which gets a third more. */
  lemma PictureFits(f: Sof)
    requires WellTyped(f) && InfoFrame(f).Some? && DecFrame(f, 0).Some?
    ensures var g, size := InfoFrame(f).value, DecFrame(f, 0).value.size;
      && PicSize(g.format, g.hwX, g.hwY) >= size
      && (if g.format == Yuv411 then 3 * PicSize(g.format, g.hwX, g.hwY) == 4 * size
          else PicSize(g.format, g.hwX, g.hwY) == size)
  {
    hide DecFrame, InfoFrame, PicSize;
    FramesAgree(f);
    DecodedSize(f);
    var g := DecFrame(f, 0).value.geo;
    SizeLaw(g.format, g.hwX, g.hwY, g.hwX * g.hwY);
  }

  lemma DecodedSize(f: Sof)
    requires WellTyped(f) && DecFrame(f, 0).Some?
    ensures var r := DecFrame(f, 0).value;
      && r.size == r.geo.hwX * r.geo.hwY + SliceChroma(r.geo.format, r.geo.hwX * r.geo.hwY)
      && r.geo.hwX % 16 == 0 && r.geo.hwX >= 0 && r.geo.hwY % 16 == 0 && r.geo.hwY >= 0
  {
    hide DecShape;
    var sh := DecShape(f).value;
    Accepted(f);
    PlanesAddUp(sh, f.x, f.y);
  }

  lemma Up16Is(n: int)
    requires n % 16 == 0
    ensures Up16(n) == n
  {
  }

  lemma EvenArea(w: int, h: int, k: int)
    requires w == 2 * k
    ensures w * h % 2 == 0
  {
    Twice(k, h);
    Bits.DivModUnique(w * h, 2, k * h, 0);
  }

  lemma Twice(k: int, h: int)
    ensures (2 * k) * h == 2 * (k * h)
  {
  }

  lemma SizeLaw(fmt: Format, w: int, h: int, p: int)
    requires w % 16 == 0 && w >= 0 && h % 16 == 0 && h >= 0 && p == w * h
    ensures PicSize(fmt, w, h) >= p + SliceChroma(fmt, p)
    ensures if fmt == Yuv411 then 3 * PicSize(fmt, w, h) == 4 * (p + SliceChroma(fmt, p))
            else PicSize(fmt, w, h) == p + SliceChroma(fmt, p)
  {
    Up16Is(w);
    Up16Is(h);
    EvenArea(w, h, w / 2);
    assert p >= 0;
    hide Up16;
    HalfAdds(p);
  }

  lemma HalfAdds(p: int)
    requires p >= 0 && p % 2 == 0
    ensures p * 3 / 2 == p + p / 2 && 4 * (p + p / 2) == 6 * p
  {
  }
}
