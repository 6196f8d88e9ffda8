/** The three computations of frame geometry agree, blocks are conserved, and the slice size that the
    wrapper forces on large images passes every check of the decoder. */
module FrameLaws {
  import opened Common
  import opened FrameGeometry
  import Bits

  /** The luma sampling factors of a format; its chroma factors are (1, 1). */
  function LumaFactors(fmt: Format): (nat, nat) {
    match fmt
    case Yuv400 | Yuv444 => (1, 1)
    case Yuv420 => (2, 2)
    case Yuv422 => (2, 1)
    case Yuv440 => (1, 2)
    case Yuv411 => (4, 1)
  }

  predicate FactorsOf(fmt: Format, k: seq<(nat, nat)>) {
    if fmt == Yuv400 then k == [(1, 1)]
    else |k| == 3 && k[0] == LumaFactors(fmt) && k[1] == (1, 1) && k[2] == (1, 1)
  }

  lemma FormatFactors(fmt: Format, k: seq<(nat, nat)>)
    requires DecFormat(k) == Some(fmt) && (|k| == 1 ==> k == [(1, 1)])
    ensures FactorsOf(fmt, k) && (MaxH(k), MaxV(k)) == LumaFactors(fmt)
  {
    Maxima(k);
  }

  /** Along one dimension: m factors of the luma, f of the component, a whole number of MCUs. */
  lemma Axis(hw: int, f: nat, m: nat)
    requires (m == 1 || m == 2 || m == 4) && (f == 1 || f == m)
    requires hw % 16 == 0 && (m == 4 ==> hw % 32 == 0)
    ensures hw == 8 * m * (hw / (8 * m)) && WholeMcus(hw, m) == hw
    ensures CeilDiv(hw * f, m) == 8 * (hw / (8 * m) * f)
    ensures Blocks(hw, f, m) == hw / (8 * m) * f
    ensures f == m ==> CeilDiv(hw * f, m) == hw
  {
    hide WholeMcus, CeilDiv, Blocks;
    WholeNumber(hw, m);
    var c := hw / (8 * m);
    WholeUnits(c, m);
    Units(c, f, m);
    assert 8 * m * c == 8 * (c * m);
  }

  lemma WholeNumber(hw: int, m: nat)
    requires (m == 1 || m == 2 || m == 4) && hw % 16 == 0 && (m == 4 ==> hw % 32 == 0)
    ensures hw == 8 * m * (hw / (8 * m))
  {
    if m == 4 {
      Bits.DivModUnique(hw, 32, hw / 32, 0);
    } else if m == 2 {
      Bits.DivModUnique(hw, 16, hw / 16, 0);
    } else {
      Bits.DivModUnique(hw, 8, hw / 16 * 2, 0);
    }
  }

  lemma WholeUnits(c: int, m: nat)
    requires m > 0
    ensures WholeMcus(8 * m * c, m) == 8 * m * c
  {
    assert 8 * m * c + (8 * m - 1) == c * (m * 8) + (8 * m - 1);
    Bits.DivModUnique(8 * m * c + m * 8 - 1, m * 8, c, 8 * m - 1);
  }

  lemma Units(c: int, f: nat, m: nat)
    requires m > 0
    ensures CeilDiv(8 * m * c * f, m) == 8 * (c * f) && Blocks(8 * m * c, f, m) == c * f
  {
    assert 8 * m * c * f == 8 * (c * f) * m;
    Bits.DivModUnique(8 * m * c * f + m - 1, m, 8 * (c * f), m - 1);
    Bits.DivModUnique(8 * m * c * f, m, 8 * (c * f), 0);
    Bits.DivModUnique(8 * (c * f) + 7, 8, c * f, 7);
  }

  lemma FactorsFit(fmt: Format, k: seq<(nat, nat)>)
    requires FactorsOf(fmt, k) && (MaxH(k), MaxV(k)) == LumaFactors(fmt)
    ensures MaxH(k) in {1, 2, 4} && MaxV(k) in {1, 2} && (MaxH(k) == 4 ==> fmt == Yuv411)
    ensures forall i :: 0 <= i < |k| ==> k[i].0 in {1, MaxH(k)} && k[i].1 in {1, MaxV(k)}
  {
    hide MaxH, MaxV;
  }

  /** MCUs along a row and a column, in units that make every plane a whole number of blocks. */
  lemma Dimension(fmt: Format, k: seq<(nat, nat)>, w: int, h: int)
    requires FactorsOf(fmt, k) && (MaxH(k), MaxV(k)) == LumaFactors(fmt)
    requires w % 16 == 0 && h % 16 == 0 && (fmt == Yuv411 ==> w % 32 == 0)
    ensures WholeMcus(w, MaxH(k)) == w && WholeMcus(h, MaxV(k)) == h
    ensures forall i :: 0 <= i < |k| ==>
      && CeilDiv(w * k[i].0, MaxH(k)) == 8 * (w / (8 * MaxH(k)) * k[i].0)
      && CeilDiv(h * k[i].1, MaxV(k)) == 8 * (h / (8 * MaxV(k)) * k[i].1)
      && Blocks(w, k[i].0, MaxH(k)) == w / (8 * MaxH(k)) * k[i].0
      && Blocks(h, k[i].1, MaxV(k)) == h / (8 * MaxV(k)) * k[i].1
  {
    var hmax, vmax := MaxH(k), MaxV(k);
    FactorsFit(fmt, k);
    hide FactorsOf, LumaFactors, MaxH, MaxV, CeilDiv, Blocks, WholeMcus;
    Axis(w, hmax, hmax);
    Axis(h, vmax, vmax);
    forall i | 0 <= i < |k|
      ensures CeilDiv(w * k[i].0, hmax) == 8 * (w / (8 * hmax) * k[i].0)
      ensures CeilDiv(h * k[i].1, vmax) == 8 * (h / (8 * vmax) * k[i].1)
      ensures Blocks(w, k[i].0, hmax) == w / (8 * hmax) * k[i].0
      ensures Blocks(h, k[i].1, vmax) == h / (8 * vmax) * k[i].1
    {
      Axis(w, k[i].0, hmax);
      Axis(h, k[i].1, vmax);
    }
  }

  lemma Maxima(k: seq<(nat, nat)>)
    requires |k| == 1 || |k| == 3
    ensures |k| == 1 ==> MaxH(k) == k[0].0 && MaxV(k) == k[0].1
    ensures |k| == 3 ==> MaxH(k) == Max(k[0].0, Max(k[1].0, k[2].0))
    ensures |k| == 3 ==> MaxV(k) == Max(k[0].1, Max(k[1].1, k[2].1))
  {
    if |k| == 3 { assert k[1..][1..] == k[2..]; }
  }

  predicate GoodShape(sh: Shape) {
    && FactorsOf(sh.format, sh.factors)
    && (MaxH(sh.factors), MaxV(sh.factors)) == LumaFactors(sh.format)
    && sh.w % 16 == 0 && sh.h % 16 == 0 && (sh.format == Yuv411 ==> sh.w % 32 == 0)
    && MIN_SIZE <= sh.w <= MAX_SIZE && MIN_SIZE <= sh.h <= MAX_SIZE
  }

  lemma AlignedSize(n: nat)
    requires n < 0x1_0000
    ensures Align16(n) % 16 == 0 && Align16(n) >= 0
  {
  }

  lemma SizeRange(w: int, h: int)
    ensures Supported(w, h) ==> MIN_SIZE <= w <= MAX_SIZE && MIN_SIZE <= h <= MAX_SIZE
  {
  }

  lemma PadMod(w: int)
    requires w % 16 == 0
    ensures (w + 16) % 16 == 0 && (w % 32 == 0 || (w + 16) % 32 == 0)
  {
  }

  lemma Accepted(f: Sof)
    requires WellTyped(f) && DecShape(f).Some?
    ensures GoodShape(DecShape(f).value)
  {
    assert LumaFactors(Yuv411) == (4, 1);
    hide FactorsOf, LumaFactors, Align16, Supported;
    AlignedSize(f.x);
    AlignedSize(f.y);
    SizeRange(Align16(f.x), Align16(f.y));
    SizeRange(Align16(f.x) + 16, Align16(f.y));
    PadMod(Align16(f.x));
    var k := if |f.comps| == 1 then [(1, 1)] else Factors(f.comps);
    FormatFactors(DecFormat(k).value, k);
  }

  /** Every component has numMcuInFrame * H * V blocks of 64 samples, the planes are made of exactly
      these blocks, and the image is made of exactly these planes. */
  lemma BlockConservation(f: Sof, slice: nat)
    requires WellTyped(f) && DecFrame(f, slice).Some?
    ensures var r := DecFrame(f, slice).value;
      && |r.numBlocks| == |r.factors| == |r.pixelsPerRow| == |r.columns|
      && (forall i :: 0 <= i < |r.factors| ==>
           && r.numBlocks[i] == r.geo.mcuInFrame * (r.factors[i].0 * r.factors[i].1)
           && r.pixelsPerRow[i] * r.columns[i] == 64 * r.numBlocks[i])
      && r.size == 64 * Sum(r.numBlocks)
  {
    Accepted(f);
    LayoutConserves(DecShape(f).value, slice, f.x, f.y);
  }

  lemma LayoutConserves(sh: Shape, slice: nat, x: nat, y: nat)
    requires GoodShape(sh)
    ensures var r := Layout(sh, slice, x, y);
      && |r.numBlocks| == |r.factors| == |r.pixelsPerRow| == |r.columns|
      && (forall i :: 0 <= i < |r.factors| ==>
           && r.numBlocks[i] == r.geo.mcuInFrame * (r.factors[i].0 * r.factors[i].1)
           && r.pixelsPerRow[i] * r.columns[i] == 64 * r.numBlocks[i])
      && r.size == 64 * Sum(r.numBlocks)
  {
    var r, k := Layout(sh, slice, x, y), sh.factors;
    Dimension(sh.format, k, sh.w, sh.h);
    var a, b := sh.w / (8 * r.hmax), sh.h / (8 * r.vmax);
    forall i | 0 <= i < |k|
      ensures r.numBlocks[i] == r.geo.mcuInFrame * (k[i].0 * k[i].1)
      ensures r.pixelsPerRow[i] * r.columns[i] == 64 * r.numBlocks[i]
    {
      Products(a, k[i].0, b, k[i].1);
    }
    var planes := seq(|k|, i requires 0 <= i < |k| => r.pixelsPerRow[i] * r.columns[i]);
    SumScaled(r.numBlocks, planes);
  }

  lemma Products(a: int, h: int, b: int, v: int)
    ensures (a * h) * (b * v) == (a * b) * (h * v)
    ensures (8 * (a * h)) * (8 * (b * v)) == 64 * ((a * h) * (b * v))
  {
  }

  lemma {:induction false} SumScaled(s: seq<int>, t: seq<int>)
    requires |s| == |t| && forall i :: 0 <= i < |s| ==> t[i] == 64 * s[i]
    ensures Sum(t) == 64 * Sum(s)
  {
    if s != [] {
      SumScaled(s[1..], t[1..]);
    }
  }

  /** Without slices the chroma planes have the share of the luma that the slice branches of
      JpegDecMode write down; slices change nothing but the two sizes. */
  lemma SliceRatio(f: Sof, slice: nat)
    requires WellTyped(f) && DecFrame(f, 0).Some? && slice > 0
    ensures DecFrame(f, slice).Some?
    ensures var whole, part := DecFrame(f, 0).value, DecFrame(f, slice).value;
      && whole.sizeLuma == whole.geo.hwX * whole.geo.hwY
      && whole.sizeChroma == SliceChroma(whole.geo.format, whole.sizeLuma)
      && whole.size == whole.sizeLuma + whole.sizeChroma
      && part.sizeLuma == part.geo.hwX * (slice * 16)
      && part.sizeChroma == SliceChroma(part.geo.format, part.sizeLuma)
      && part == whole.(sizeLuma := part.sizeLuma, sizeChroma := part.sizeChroma)
  {
    Accepted(f);
    var sh := DecShape(f).value;
    LayoutConserves(sh, 0, f.x, f.y);
    PlanesAddUp(sh, f.x, f.y);
  }

  lemma PlanesAddUp(sh: Shape, x: nat, y: nat)
    requires GoodShape(sh)
    ensures var r := Layout(sh, 0, x, y);
      r.sizeLuma == sh.w * sh.h && r.size == r.sizeLuma + SliceChroma(sh.format, r.sizeLuma)
  {
    var r, n := Layout(sh, 0, x, y), |sh.factors|;
    LayoutConserves(sh, 0, x, y);
    var (h, v) := LumaFactors(sh.format);
    Axis(sh.w, h, h);
    Axis(sh.h, v, v);
    assert r.pixelsPerRow[0] == sh.w && r.columns[0] == sh.h;
    var m := r.geo.mcuInFrame;
    assert r.numBlocks[0] == m * (h * v);
    assert r.sizeLuma == r.pixelsPerRow[0] * r.columns[0] == 64 * (m * (h * v));
    ChromaShare(sh.format, m, h * v);
    if n == 3 {
      assert r.numBlocks[1] == m * (1 * 1) && r.numBlocks[2] == m * (1 * 1);
      SumThree(r.numBlocks);
    } else {
      SumOne(r.numBlocks);
    }
  }

  lemma SumOne(s: seq<int>)
    requires |s| == 1
    ensures Sum(s) == s[0]
  {
  }

  lemma SumThree(s: seq<int>)
    requires |s| == 3
    ensures Sum(s) == s[0] + s[1] + s[2]
  {
    var t := s[1..];
    var u := t[1..];
    assert Sum(s) == s[0] + Sum(t) && Sum(t) == t[0] + Sum(u);
    SumOne(u);
  }

  /** Two chroma blocks per MCU, as a share of its luma blocks. */
  lemma ChromaShare(fmt: Format, m: int, n: int)
    requires n == LumaFactors(fmt).0 * LumaFactors(fmt).1
    ensures SliceChroma(fmt, 64 * (m * n)) == if fmt == Yuv400 then 0 else 128 * m
  {
    match fmt
    case Yuv400 =>
    case Yuv420 => assert m * n == 4 * m;
    case Yuv411 => assert m * n == 4 * m;
    case Yuv422 => assert m * n == 2 * m;
    case Yuv440 => assert m * n == 2 * m;
    case Yuv444 => assert m * n == m;
  }

  /** The two frame header readers accept the same headers and compute the same geometry, except that
      only GetImageInfo looks at the factors of a grey frame and takes three components with absent
      chroma for grey, and only DecodeFrameHdr wants consecutive component ids. */
  lemma FramesAgree(f: Sof)
    requires WellTyped(f)
    ensures InfoFrame(f).Some? && DecFrame(f, 0).Some? ==> InfoFrame(f).value == DecFrame(f, 0).value.geo
    ensures (InfoFrame(f).Some? && ConsecutiveIds(f.comps) && (InfoFrame(f).value.format == Yuv400 ==> |f.comps| == 1))
        <==> (DecFrame(f, 0).Some? && (|f.comps| == 1 ==> (f.comps[0].h, f.comps[0].v) == (1, 1)))
  {
    if InfoFrame(f).Some? && (InfoFrame(f).value.format == Yuv400 ==> |f.comps| == 1) {
      var k := if |f.comps| == 1 then [(1, 1)] else Factors(f.comps);
      assert |f.comps| == 1 ==> Factors(f.comps)[0] == (1, 1);
      FormatFactors(InfoFrame(f).value.format, k);
    }
    if DecShape(f).Some? {
      Accepted(f);
      GeometryAgrees(DecShape(f).value, f.x, f.y);
      if |f.comps| == 1 && (f.comps[0].h, f.comps[0].v) == (1, 1) {
        assert Factors(f.comps) == [(1, 1), (0, 0), (0, 0)];
      }
    }
  }

  lemma GeometryAgrees(sh: Shape, x: nat, y: nat)
    requires GoodShape(sh)
    ensures Layout(sh, 0, x, y).geo
         == GeometryOf(sh.format, sh.w, sh.h)
  {
    hide CeilDiv, Blocks, WholeMcus, Sum, SliceChroma, NeedsFill, MaxH, MaxV;
    Dimension(sh.format, sh.factors, sh.w, sh.h);
    var (m, n) := LumaFactors(sh.format);
    Axis(sh.w, m, m);
    Axis(sh.h, n, n);
    assert McuWidth(sh.format) == 8 * m && McuArea(sh.format) == (8 * m) * (8 * n);
    AreaQuotient(sh.w / (8 * m), 8 * m, sh.h / (8 * n), 8 * n);
  }

  lemma AreaQuotient(a: int, m: int, b: int, n: int)
    requires m > 0 && n > 0
    ensures (m * a) * (n * b) / (m * n) == a * b
  {
    Regroup(a, m, b, n);
    Bits.DivModUnique((m * a) * (n * b), m * n, a * b, 0);
  }

  lemma Regroup(a: int, m: int, b: int, n: int)
    requires m > 0 && n > 0
    ensures (m * a) * (n * b) == (a * b) * (m * n) && m * n > 0
  {
    assert (m * a) * (n * b) == m * (a * (n * b)) == m * ((a * b) * n);
  }

  /** The padded width is the least whole number of macroblocks (of MCUs for 4:1:1) that covers the
      image, and the padded height the least number of macroblock rows. */
  lemma LeastPadding(f: Sof, n: int)
    requires WellTyped(f) && InfoFrame(f).Some?
    ensures var g := InfoFrame(f).value;
      && IsLeast(g.format == Yuv411, f.x, g.hwX, n)
      && IsLeast(false, f.y, g.hwY, n)
  {
    InfoSize(f);
    LeastMultiple(f.x, n);
    LeastMultiple(f.y, n);
  }

  /** hw is a multiple of 16 (of 32) not below x, and n, if it is one too, is not below hw. */
  predicate IsLeast(wide: bool, x: int, hw: int, n: int) {
    && x <= hw && hw % 16 == 0 && (wide ==> hw % 32 == 0)
    && (x <= n && n % 16 == 0 && (wide ==> n % 32 == 0) ==> hw <= n)
  }

  lemma InfoSize(f: Sof)
    requires WellTyped(f) && InfoFrame(f).Some?
    ensures InfoFrame(f).value.hwX == PadWidth(InfoFrame(f).value.format, Align16(f.x))
    ensures InfoFrame(f).value.hwY == Align16(f.y)
  {
  }

  lemma LeastMultiple(x: nat, n: int)
    requires x < 0x1_0000
    ensures IsLeast(false, x, Align16(x), n)
    ensures IsLeast(true, x, PadWidth(Yuv411, Align16(x)), n)
  {
  }

  // ---- Which frames are taken

  /** The components of a 4:0:0 frame or of one with chroma, by their factors.  JpegDecGetImageInfo takes a
      grey frame with two absent components too. */
  predicate Declares(comps: seq<Component>, fmt: Format) {
    if fmt == Yuv400 then
      && (|comps| == 1 || |comps| == 3) && (comps[0].h, comps[0].v) == (1, 1)
      && (|comps| == 3 ==> forall i :: 1 <= i < 3 ==> comps[i].h == 0 && comps[i].v == 0)
    else
      && |comps| == 3 && (comps[0].h, comps[0].v) == LumaFactors(fmt)
      && forall i :: 1 <= i < 3 ==> comps[i].h == 1 && comps[i].v == 1
  }

  /** What both readers make of the size: 33 to 8176 samples either way, one block column less for 4:1:1. */
  predicate SizeTaken(x: nat, y: nat, wide: bool) {
    33 <= y <= 8176 && 33 <= x <= if wide then 8160 else 8176
  }

  lemma SizeIsTaken(x: nat, y: nat)
    requires 1 <= x < 0x1_0000 && 1 <= y < 0x1_0000
    ensures Supported(Align16(x), Align16(y)) <==> SizeTaken(x, y, false)
    ensures Supported(Align16(x), Align16(y)) && (Align16(x) % 32 == 0 || Supported(Align16(x) + 16, Align16(y)))
       <==> SizeTaken(x, y, true)
  {
    if SizeTaken(x, y, false) {
      Area(Align16(x), Align16(y));
      if SizeTaken(x, y, true) && Align16(x) % 32 != 0 {
        Area(Align16(x) + 16, Align16(y));
      }
    }
  }

  /** The limit on the number of samples follows from those on width and height. */
  lemma Area(w: nat, h: nat)
    requires w <= MAX_SIZE && h <= MAX_SIZE
    ensures w * h <= MAX_PIXELS_8190
  {
    assert w * h <= w * MAX_SIZE <= MAX_SIZE * MAX_SIZE;
  }

  lemma FormatIff(comps: seq<Component>, fmt: Format)
    requires |comps| == 1 || |comps| == 3
    ensures InfoFormat(Factors(comps)) == Some(fmt) <==> Declares(comps, fmt)
  {
    var k := Factors(comps);
    assert k == [(1, 1), (0, 0), (0, 0)] <==> k[0] == (1, 1) && k[1] == (0, 0) && k[2] == (0, 0);
  }

  /** JpegDecGetImageInfo takes a frame for one of a format exactly when it is of 8 bits, of a size both ways
      within the limits, and declares the format. */
  lemma InfoTakesIff(f: Sof, fmt: Format)
    requires WellTyped(f)
    ensures (InfoFrame(f).Some? && InfoFrame(f).value.format == fmt)
       <==> f.p == 8 && SizeTaken(f.x, f.y, fmt == Yuv411) && (|f.comps| == 1 || |f.comps| == 3)
            && Declares(f.comps, fmt)
  {
    if 1 <= f.x && 1 <= f.y {
      SizeIsTaken(f.x, f.y);
    }
    if |f.comps| == 1 || |f.comps| == 3 {
      FormatIff(f.comps, fmt);
    }
    hide Supported, Align16, InfoFormat, Declares;
  }

  /** JpegDecDecodeFrameHdr takes the same frames if the identifiers count up by one; of a single component it
      does not look at the factors, and it does not take absent ones. */
  lemma DecTakesIff(f: Sof, fmt: Format, slice: nat)
    requires WellTyped(f)
    ensures (DecFrame(f, slice).Some? && DecFrame(f, slice).value.geo.format == fmt)
       <==> f.p == 8 && SizeTaken(f.x, f.y, fmt == Yuv411) && ConsecutiveIds(f.comps)
            && (if fmt == Yuv400 then |f.comps| == 1 else Declares(f.comps, fmt))
  {
    if 1 <= f.x && 1 <= f.y {
      SizeIsTaken(f.x, f.y);
    }
    if |f.comps| == 1 {
      assert MaxH([(1, 1)]) == 1 && MaxV([(1, 1)]) == 1;
    } else if |f.comps| == 3 {
      FormatIff(f.comps, fmt);
      ShapeFormat(f);
    }
    hide Supported, Align16, InfoFormat, Declares, Layout, MaxH, MaxV;
  }

  lemma ShapeFormat(f: Sof)
    requires |f.comps| == 3
    ensures var k := Factors(f.comps);
      DecFormat(k).Some? ==>
        && DecFormat(k) == InfoFormat(k) && DecFormat(k) != Some(Yuv400)
        && MaxH(k) > 0 && MaxV(k) > 0 && (MaxH(k) == 4 <==> DecFormat(k) == Some(Yuv411))
    ensures var k := Factors(f.comps); InfoFormat(k).Some? && InfoFormat(k) != Some(Yuv400) ==> DecFormat(k).Some?
  {
    Maxima(Factors(f.comps));
  }

  /** A component's rows and columns are those of the padded image by its factors, and the last block of a row
      or column is filled in exactly where MCUs are one block wide or high and the image does not reach it. */
  lemma PlaneSizes(f: Sof, slice: nat)
    requires WellTyped(f) && DecFrame(f, slice).Some?
    ensures var r := DecFrame(f, slice).value;
      && (r.hmax, r.vmax) == LumaFactors(r.geo.format) && FactorsOf(r.geo.format, r.factors)
      && |r.pixelsPerRow| == |r.columns| == |r.factors|
      && (forall i :: 0 <= i < |r.factors| ==>
           && r.pixelsPerRow[i] * r.hmax == r.geo.hwX * r.factors[i].0
           && r.columns[i] * r.vmax == r.geo.hwY * r.factors[i].1)
      && (r.fillRight <==> r.hmax == 1 && r.geo.hwX - f.x >= 8)
      && (r.fillBottom <==> r.vmax == 1 && r.geo.hwY - f.y >= 8)
  {
    Accepted(f);
    PaddedSize(f);
    FillIs(f.x);
    FillIs(f.y);
    LayoutSizes(DecShape(f).value, slice, f.x, f.y);
  }

  lemma PaddedSize(f: Sof)
    requires WellTyped(f) && DecShape(f).Some?
    ensures var sh := DecShape(f).value;
      && (sh.format != Yuv411 ==> sh.w == Align16(f.x)) && sh.h == Align16(f.y)
  {
    var k := if |f.comps| == 1 then [(1, 1)] else Factors(f.comps);
    FormatFactors(DecFormat(k).value, k);
    hide Align16, Supported;
  }

  /** The fill flags are for padding of half a macroblock or more. */
  lemma FillIs(n: nat)
    requires n < 0x1_0000
    ensures NeedsFill(n) <==> Align16(n) - n >= 8
  {
  }

  lemma LayoutSizes(sh: Shape, slice: nat, x: nat, y: nat)
    requires GoodShape(sh)
    ensures var r := Layout(sh, slice, x, y);
      && (r.hmax, r.vmax) == LumaFactors(sh.format) && r.factors == sh.factors
      && |r.pixelsPerRow| == |r.columns| == |r.factors|
      && (forall i :: 0 <= i < |r.factors| ==>
           && r.pixelsPerRow[i] * r.hmax == sh.w * r.factors[i].0
           && r.columns[i] * r.vmax == sh.h * r.factors[i].1)
      && (r.fillRight <==> r.hmax == 1 && NeedsFill(x)) && (r.fillBottom <==> r.vmax == 1 && NeedsFill(y))
  {
    hide CeilDiv, Blocks, WholeMcus, Sum, SliceChroma, NeedsFill, MaxH, MaxV;
    var r, k := Layout(sh, slice, x, y), sh.factors;
    Dimension(sh.format, k, sh.w, sh.h);
    FactorsFit(sh.format, k);
    Axis(sh.w, MaxH(k), MaxH(k));
    Axis(sh.h, MaxV(k), MaxV(k));
    forall i | 0 <= i < |k|
      ensures r.pixelsPerRow[i] * r.hmax == sh.w * k[i].0
      ensures r.columns[i] * r.vmax == sh.h * k[i].1
    {
      Scale(sh.w / (8 * r.hmax), r.hmax, k[i].0);
      Scale(sh.h / (8 * r.vmax), r.vmax, k[i].1);
    }
  }

  lemma Scale(c: int, m: int, f: int)
    ensures 8 * (c * f) * m == 8 * m * c * f
  {
  }

  /** A grey frame declared with three components is taken by one reader and refused by the other. */
  lemma GreyWithThreeComponents()
    ensures var f := Sof(17, 8, 48, 48, [Component(1, 1, 1, 0), Component(2, 0, 0, 0), Component(3, 0, 0, 0)]);
      WellTyped(f) && InfoFrame(f).Some? && DecFrame(f, 0).None?
  {
    var f := Sof(17, 8, 48, 48, [Component(1, 1, 1, 0), Component(2, 0, 0, 0), Component(3, 0, 0, 0)]);
    assert Factors(f.comps) == [(1, 1), (0, 0), (0, 0)];
    Maxima(Factors(f.comps));
  }
}
