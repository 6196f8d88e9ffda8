/** JpegDecDecodeFrameHdr and JpegDecMode on the stream reader; FrameGeometry says what they amount to. */
module FrameReader {
  import opened Common
  import opened FrameGeometry
  import opened FrameLaws
  import opened StreamReader
  import opened Container
  import opened TableSegments
  import opened TableReaders

  // ---- Reading

  function ComponentAt(s: seq<byte>, len: nat, p: nat): Component
    requires len <= |s|
  {
    Component(ByteAt(s, len, p), ByteAt(s, len, p + 1) / 16, ByteAt(s, len, p + 1) % 16, ByteAt(s, len, p + 2))
  }

  function ComponentsAt(s: seq<byte>, len: nat, p: nat, n: nat): (r: seq<Component>)
    requires len <= |s|
    ensures |r| == n
  {
    seq(n, i requires 0 <= i < n => ComponentAt(s, len, p + 3 * i))
  }

  /** The frame header whose length field is at q, as GetByte and Get2Bytes return it, past the end of the
      stream too. */
  function SofRead(s: seq<byte>, len: nat, q: nat): (f: Sof)
    requires len <= |s|
    ensures f.y < TWO32 && f.x < TWO32
  {
    var nf := ByteAt(s, len, q + 7);
    Sof(WordAt(s, len, q), ByteAt(s, len, q + 2), WordAt(s, len, q + 3), WordAt(s, len, q + 5),
        ComponentsAt(s, len, q + 8, if nf == 1 || nf == 3 then nf else 0))
  }

  /** `(readBits / 8) + Lf > streamLength` after Lf was read. */
  predicate EnoughData(s: seq<byte>, len: nat, q: nat)
    requires len <= |s|
  {
    (AfterWord(len, q) + WordAt(s, len, q)) % TWO32 <= len
  }

  /** The check asks for two bytes more than the segment has; a length that could not be read passes it. */
  lemma EnoughIff(s: seq<byte>, len: nat, q: nat)
    requires q <= len <= |s| && len < 0x4000_0000
    ensures EnoughData(s, len, q) <==> if q + 2 <= len then q + Be16(s, q) + 2 <= len else q >= 1
  {
  }

  lemma SofFields(s: seq<byte>, len: nat, q: nat)
    requires len <= |s|
    ensures var f, nf := SofRead(s, len, q), ByteAt(s, len, q + 7);
      && f.p == ByteAt(s, len, q + 2) && f.y == WordAt(s, len, q + 3) && f.x == WordAt(s, len, q + 5)
      && |f.comps| == if nf == 1 || nf == 3 then nf else 0
  {
  }

  /** A size that could not be read is not supported. */
  lemma UnreadSize()
    ensures forall n: int :: !Supported(Align16(STRM_ERROR), n) && !Supported(n, Align16(STRM_ERROR))
  {
    assert Align16(STRM_ERROR) == 0;
  }

  /** The fixed part: precision, size and number of components. */
  method ReadSize(stream: StreamStorage, c: JpegDecContainer) returns (ret: Ret, y: nat, x: nat, nf: nat)
    requires Ready(stream)
    modifies stream, c`hwX, c`hwY
    ensures Ready(stream) && stream.appnFlag == old(stream.appnFlag)
    ensures var s, len, q := stream.s, stream.streamLength, old(stream.pCurrPos);
      var f := SofRead(s, len, q);
      if !EnoughData(s, len, q) then ret == StrmError
      else if f.p == 8 && f.y >= 1 && f.x >= 1 && Supported(Align16(f.x), Align16(f.y)) && f.comps != [] then
        && ret == Ok && stream.pCurrPos == q + 8 <= len
        && y == f.y && x == f.x && nf == |f.comps| && c.hwX == Align16(x) && c.hwY == Align16(y)
      else ret == Unsupported
  {
    UnreadSize();
    SofFields(stream.s, stream.streamLength, stream.pCurrPos);
    hide Align16, Supported, SofRead, Be16, ByteFrom, WordFrom;
    y, x, nf := 0, 0, 0;
    var lf := stream.Get2Bytes();
    if (stream.readBits / 8 + lf) % TWO32 > stream.streamLength {
      return StrmError, y, x, nf;
    }
    var precision := stream.GetByte();
    if precision != 8 {
      return Unsupported, y, x, nf;
    }
    y := stream.Get2Bytes();
    if y < 1 {
      return Unsupported, y, x, nf;
    }
    c.hwY := Align16(y);
    x := stream.Get2Bytes();
    if x < 1 {
      return Unsupported, y, x, nf;
    }
    c.hwX := Align16(x);
    if !Supported(c.hwX, c.hwY) {
      return Unsupported, y, x, nf;
    }
    nf := stream.GetByte();
    if nf != 3 && nf != 1 {
      return Unsupported, y, x, nf;
    }
    ret := Ok;
  }

  /** The first components of all, their maxima, and their identifiers in order. */
  predicate ReadSoFar(all: seq<Component>, comps: seq<Component>, hmax: nat, vmax: nat) {
    && |comps| <= |all| && comps == all[..|comps|] && ConsecutiveIds(comps)
    && hmax == Highest(comps) && vmax == Tallest(comps)
  }

  lemma NextRead(all: seq<Component>, comps: seq<Component>, hmax: nat, vmax: nat, k: Component)
    requires ReadSoFar(all, comps, hmax, vmax) && |comps| < |all| && k == all[|comps|]
    ensures comps == [] || k.c == comps[|comps| - 1].c + 1 ==>
      ReadSoFar(all, comps + [k], Max(hmax, k.h), Max(vmax, k.v))
    ensures comps != [] && k.c != comps[|comps| - 1].c + 1 ==> !ConsecutiveIds(all)
  {
    hide Highest, Tallest;
    MaximaGrow(comps, k);
    assert comps != [] ==> all[|comps| - 1] == comps[|comps| - 1];
  }

  /** The next component, where the cursor is by then. */
  lemma ReadFurther(s: seq<byte>, len: nat, p: nat, nf: nat, comps: seq<Component>, hmax: nat, vmax: nat)
    requires len <= |s| && |comps| < nf && ReadSoFar(ComponentsAt(s, len, p, nf), comps, hmax, vmax)
    ensures var all, i, q := ComponentsAt(s, len, p, nf), |comps|, After(len, p, 3 * |comps|);
      && After(len, q, 3) == After(len, p, 3 * (i + 1))
      && var k := ComponentAt(s, len, q);
         if i == 0 || (comps[i - 1].c + 1) % TWO32 == ByteAt(s, len, q)
         then ReadSoFar(all, comps + [k], Max(hmax, k.h), Max(vmax, k.v))
         else !ConsecutiveIds(all)
  {
    var all, i := ComponentsAt(s, len, p, nf), |comps|;
    assert all[i] == ComponentAt(s, len, p + 3 * i);
    assert i > 0 ==> comps[i - 1] == all[i - 1] == ComponentAt(s, len, p + 3 * (i - 1));
    AfterReads(s, len, p, 3 * i, 0);
    AfterReads(s, len, p, 3 * i, 1);
    AfterReads(s, len, p, 3 * i, 2);
    AfterAdds(len, p, 3 * i, 3);
    if i > 0 {
      IdsDoNotWrap(s, len, p + 3 * (i - 1), p + 3 * i);
    }
    hide After, ByteAt, ReadSoFar, ComponentsAt, ConsecutiveIds;
    NextRead(all, comps, hmax, vmax, all[i]);
  }

  /** The body of the component loop. */
  method ReadNext(stream: StreamStorage, comps0: seq<Component>, hmax0: nat, vmax0: nat, ghost p: nat, ghost nf: nat)
    returns (ok: bool, comps: seq<Component>, hmax: nat, vmax: nat)
    requires Ready(stream) && |comps0| < nf && stream.pCurrPos == After(stream.streamLength, p, 3 * |comps0|)
    requires ReadSoFar(ComponentsAt(stream.s, stream.streamLength, p, nf), comps0, hmax0, vmax0)
    modifies stream
    ensures Ready(stream) && stream.appnFlag == old(stream.appnFlag)
    ensures var all := ComponentsAt(stream.s, stream.streamLength, p, nf);
      if ok then
        && |comps| == |comps0| + 1 && ReadSoFar(all, comps, hmax, vmax)
        && stream.pCurrPos == After(stream.streamLength, p, 3 * |comps|)
      else !ConsecutiveIds(all)
  {
    ReadFurther(stream.s, stream.streamLength, p, nf, comps0, hmax0, vmax0);
    hide After, ByteAt, ReadSoFar, ComponentsAt, ComponentAt, ConsecutiveIds;
    comps, hmax, vmax := comps0, hmax0, vmax0;
    var component;
    ok, component := ReadComponent(stream, if |comps0| > 0 then Some(comps0[|comps0| - 1].c) else None);
    if ok {
      comps, hmax, vmax := comps0 + [component], Max(hmax0, component.h), Max(vmax0, component.v);
    }
  }

  /** The component loop, which also takes the maxima. */
  method ReadComponents(stream: StreamStorage, nf: nat)
    returns (ret: Ret, comps: seq<Component>, hmax: nat, vmax: nat)
    requires Ready(stream) && (nf == 1 || nf == 3)
    modifies stream
    ensures Ready(stream) && stream.appnFlag == old(stream.appnFlag)
    ensures var all := ComponentsAt(stream.s, stream.streamLength, old(stream.pCurrPos), nf);
      if ConsecutiveIds(all) then
        && ret == Ok && comps == all && stream.pCurrPos == After(stream.streamLength, old(stream.pCurrPos), 3 * nf)
        && hmax == Highest(comps) && vmax == Tallest(comps)
      else ret == Unsupported
  {
    ghost var s, len, p := stream.s, stream.streamLength, stream.pCurrPos;
    ghost var all := ComponentsAt(s, len, p, nf);
    AfterNothing(len, p);
    NothingRead(all);
    hide After, ComponentsAt, ReadSoFar, ConsecutiveIds;
    comps, hmax, vmax := [], 0, 0;
    var i := 0;
    while i < nf
      invariant i <= nf && |comps| == i && Ready(stream) && stream.appnFlag == old(stream.appnFlag)
      invariant stream.pCurrPos == After(len, p, 3 * i) && ReadSoFar(all, comps, hmax, vmax)
    {
      var ok;
      ok, comps, hmax, vmax := ReadNext(stream, comps, hmax, vmax, p, nf);
      if !ok {
        ret := Unsupported;
        return;
      }
      i := i + 1;
    }
    AllRead(all, comps, hmax, vmax);
    ret := Ok;
  }

  lemma NothingRead(all: seq<Component>)
    ensures ReadSoFar(all, [], 0, 0)
  {
  }

  lemma AllRead(all: seq<Component>, comps: seq<Component>, hmax: nat, vmax: nat)
    requires ReadSoFar(all, comps, hmax, vmax) && |comps| == |all|
    ensures comps == all && ConsecutiveIds(all) && hmax == Highest(comps) && vmax == Tallest(comps)
  {
  }

  lemma MaximaGrow(comps: seq<Component>, k: Component)
    ensures Highest(comps + [k]) == Max(Highest(comps), k.h) && Tallest(comps + [k]) == Max(Tallest(comps), k.v)
  {
    assert (comps + [k])[..|comps|] == comps;
  }

  /** One component; ok is false if its identifier does not follow the one before. */
  method ReadComponent(stream: StreamStorage, before: Option<nat>) returns (ok: bool, component: Component)
    requires Ready(stream)
    modifies stream
    ensures Ready(stream) && stream.appnFlag == old(stream.appnFlag)
    ensures var s, len, p := stream.s, stream.streamLength, old(stream.pCurrPos);
      && (ok <==> before.None? || (before.value + 1) % TWO32 == ByteAt(s, len, p))
      && (ok ==> component == ComponentAt(s, len, p) && stream.pCurrPos == After(len, p, 3))
  {
    component := Component(0, 0, 0, 0);
    var id := stream.GetByte();
    ok := before.None? || (before.value + 1) % TWO32 == id;
    if ok {
      component := ReadFactors(stream, id);
    }
  }

  /** A byte that could not be read has no successor. */
  lemma IdsDoNotWrap(s: seq<byte>, len: nat, p: nat, q: nat)
    requires len <= |s| && p < q
    ensures (ByteAt(s, len, p) + 1) % TWO32 == ByteAt(s, len, q) ==> ByteAt(s, len, p) + 1 == ByteAt(s, len, q)
  {
  }

  method ReadFactors(stream: StreamStorage, id: nat) returns (component: Component)
    requires Ready(stream)
    modifies stream
    ensures Ready(stream) && stream.appnFlag == old(stream.appnFlag)
    ensures stream.pCurrPos == After(stream.streamLength, old(stream.pCurrPos), 2)
    ensures var s, len, p := stream.s, stream.streamLength, old(stream.pCurrPos);
      component == Component(id, ByteAt(s, len, p) / 16, ByteAt(s, len, p) % 16, ByteAt(s, len, p + 1))
  {
    var factors := stream.GetByte();
    var tq := stream.GetByte();
    component := Component(id, factors / 16, factors % 16, tq);
  }

  function Highest(comps: seq<Component>): nat {
    if comps == [] then 0 else Max(Highest(comps[..|comps| - 1]), comps[|comps| - 1].h)
  }

  function Tallest(comps: seq<Component>): nat {
    if comps == [] then 0 else Max(Tallest(comps[..|comps| - 1]), comps[|comps| - 1].v)
  }

  lemma MaximaAre(comps: seq<Component>)
    requires |comps| == 3
    ensures MaxH(Factors(comps)) == Highest(comps) && MaxV(Factors(comps)) == Tallest(comps)
  {
    var k := Factors(comps);
    assert k == [(comps[0].h, comps[0].v), (comps[1].h, comps[1].v), (comps[2].h, comps[2].v)];
    Maxima(k);
    var two, one := comps[..2], comps[..1];
    assert two[..1] == one && one[..0] == [];
    assert Highest(one) == comps[0].h && Tallest(one) == comps[0].v;
    assert Highest(two) == Max(comps[0].h, comps[1].h) && Tallest(two) == Max(comps[0].v, comps[1].v);
    assert Highest(comps) == Max(Highest(two), comps[2].h) && Tallest(comps) == Max(Tallest(two), comps[2].v);
  }

  // ---- Sizes

  /** The loop over the components that fills pixelsPerRow, columns and numBlocks. */
  method ImageSizes(k: seq<(nat, nat)>, w: int, h: int, hmax: nat, vmax: nat, width: int, height: int)
    returns (rows: seq<int>, cols: seq<int>, blocks: seq<int>, size: int, luma: int)
    requires k != [] && hmax > 0 && vmax > 0
    ensures rows == seq(|k|, i requires 0 <= i < |k| => CeilDiv(width * k[i].0, hmax))
    ensures cols == seq(|k|, i requires 0 <= i < |k| => CeilDiv(height * k[i].1, vmax))
    ensures blocks == seq(|k|, i requires 0 <= i < |k| => Blocks(w, k[i].0, hmax) * Blocks(h, k[i].1, vmax))
    ensures size == Sum(seq(|k|, i requires 0 <= i < |k| => rows[i] * cols[i])) && luma == rows[0] * cols[0]
  {
    rows, cols, blocks, size, luma := [], [], [], 0, 0;
    ghost var planes := [];
    var i := 0;
    while i < |k|
      invariant i <= |k| && |rows| == |cols| == |blocks| == |planes| == i
      invariant forall j :: 0 <= j < i ==> rows[j] == CeilDiv(width * k[j].0, hmax)
      invariant forall j :: 0 <= j < i ==> cols[j] == CeilDiv(height * k[j].1, vmax)
      invariant forall j :: 0 <= j < i ==> blocks[j] == Blocks(w, k[j].0, hmax) * Blocks(h, k[j].1, vmax)
      invariant forall j :: 0 <= j < i ==> planes[j] == rows[j] * cols[j]
      invariant size == Sum(planes) && (i > 0 ==> luma == planes[0])
    {
      var row, col := CeilDiv(width * k[i].0, hmax), CeilDiv(height * k[i].1, vmax);
      var plane := row * col;
      SumSnoc(planes, plane);
      size := size + plane;
      rows, cols, planes := rows + [row], cols + [col], planes + [plane];
      blocks := blocks + [Blocks(w, k[i].0, hmax) * Blocks(h, k[i].1, vmax)];
      if i == 0 {
        luma := size;
        assert Sum([plane]) == plane + Sum([]);
      }
      i := i + 1;
    }
    assert planes == seq(|k|, j requires 0 <= j < |k| => rows[j] * cols[j]);
  }

  lemma {:induction false} SumSnoc(s: seq<int>, x: int)
    ensures Sum(s + [x]) == Sum(s) + x
  {
    if s == [] {
      assert s + [x] == [x] && [x][1..] == [];
    } else {
      assert (s + [x])[1..] == s[1..] + [x];
      SumSnoc(s[1..], x);
    }
  }

  /** JpegDecMode: the format from the factors, the fill flags, and the slice sizes. */
  method DecMode(k: seq<(nat, nat)>, x: nat, y: nat, w: int, slice: nat, luma0: int, chroma0: int,
                 right: bool, bottom: bool)
    returns (fmt: Option<Format>, luma: int, chroma: int, fillRight: bool, fillBottom: bool)
    requires (|k| == 1 && k[0] == (1, 1)) || |k| == 3
    requires w % 16 == 0
    ensures fmt == DecFormat(k) && forall g :: fmt == Some(g) <==> FactorsOf(g, k)
    ensures fmt.Some? ==>
      && luma == (if slice > 0 then w * (slice * 16) else luma0)
      && chroma == (if slice > 0 then SliceChroma(fmt.value, luma) else chroma0)
      && fillRight == (right || (fmt.value in {Yuv400, Yuv440, Yuv444} && NeedsFill(x)))
      && fillBottom == (bottom || (fmt.value in {Yuv400, Yuv422, Yuv444, Yuv411} && NeedsFill(y)))
  {
    fmt, luma, chroma, fillRight, fillBottom := None, luma0, chroma0, right, bottom;
    if |k| == 3 {
      if k[1] != (1, 1) || k[2] != (1, 1) {
        return;
      } else if k[0] == (2, 2) {
        fmt := Some(Yuv420);
        if slice != 0 {
          luma := w * (slice * 16);
          chroma := luma / 2;
        }
      } else if k[0] == (2, 1) {
        fmt := Some(Yuv422);
        if y % 16 != 0 && y % 16 <= 8 { fillBottom := true; }
        if slice != 0 {
          luma := w * (slice * 16);
          chroma := luma;
        }
      } else if k[0] == (1, 2) {
        fmt := Some(Yuv440);
        if x % 16 != 0 && x % 16 <= 8 { fillRight := true; }
        if slice != 0 {
          luma := w * (slice * 16);
          chroma := luma;
        }
      } else if k[0] == (1, 1) {
        fmt := Some(Yuv444);
        if x % 16 != 0 && x % 16 <= 8 { fillRight := true; }
        if y % 16 != 0 && y % 16 <= 8 { fillBottom := true; }
        if slice != 0 {
          luma := w * (slice * 16);
          chroma := luma * 2;
        }
      } else if k[0] == (4, 1) {
        fmt := Some(Yuv411);
        if y % 16 != 0 && y % 16 <= 8 { fillBottom := true; }
        if slice != 0 {
          luma := w * (slice * 16);
          chroma := luma / 2;
        }
      }
    } else {
      fmt := Some(Yuv400);
      if x % 16 != 0 && x % 16 <= 8 { fillRight := true; }
      if y % 16 != 0 && y % 16 <= 8 { fillBottom := true; }
      if slice != 0 {
        luma := ((w + 15) / 16 * 16) * (slice * 16);
        assert (w + 15) / 16 * 16 == w;
        chroma := 0;
      }
    }
  }

  lemma OneComponentMaxima()
    ensures var k := [(1, 1)]; MaxH(k) == 1 && MaxV(k) == 1
  {
  }

  /** The check that is made again after the width has grown. */
  predicate TooLarge(w: int, h: int) { w > MAX_SIZE || w * h > MAX_PIXELS_8190 }

  lemma Widened(w: nat, h: nat)
    requires Supported(w, h)
    ensures Supported(w + 16, h) <==> !TooLarge(w + 16, h)
  {
  }

  predicate Widens(w: int, hmax: nat) { hmax == 4 && w % 32 != 0 }

  /** The frame of the given size and factors. */
  function FrameOf(k: seq<(nat, nat)>, w: int, h: int, slice: nat, x: nat, y: nat): Option<Frame>
    requires k != [] && MaxH(k) > 0 && MaxV(k) > 0
  {
    match DecFormat(k)
    case None => None
    case Some(fmt) => Some(Layout(Shape(fmt, k, w, h), slice, x, y))
  }

  /** DecFrame behind the checks that have been made, in terms of the maxima. */
  lemma DecFrameIs(x: nat, y: nat, comps: seq<Component>, k: seq<(nat, nat)>, hmax: nat, vmax: nat, slice: nat)
    requires (|comps| == 1 || |comps| == 3) && ConsecutiveIds(comps) && 1 <= x < TWO32 && 1 <= y < TWO32
    requires Supported(Align16(x), Align16(y))
    requires k == (if |comps| == 1 then [(1, 1)] else Factors(comps)) && hmax == MaxH(k) && vmax == MaxV(k)
    ensures var w, h := Align16(x), Align16(y);
      DecFrame(Sof(0, 8, y, x, comps), slice)
      == if hmax == 0 || vmax == 0 then None
         else if !Widens(w, hmax) then FrameOf(k, w, h, slice, x, y)
         else if TooLarge(w + 16, h) then None
         else FrameOf(k, w + 16, h, slice, x, y)
  {
    Widened(Align16(x), Align16(y));
    hide Layout, DecFormat, Align16, MaxH, MaxV, ConsecutiveIds, Supported, TooLarge, Factors;
  }

  /** The part of JpegDecDecodeFrameHdr after the components were read. */
  method Measure(c: JpegDecContainer, x: nat, y: nat, comps: seq<Component>, hmax0: nat, vmax0: nat, slice: nat)
    returns (ret: Ret)
    requires (|comps| == 1 || |comps| == 3) && hmax0 == Highest(comps) && vmax0 == Tallest(comps)
    requires ConsecutiveIds(comps) && 1 <= x < TWO32 && 1 <= y < TWO32
    requires c.hwX == Align16(x) && c.hwY == Align16(y) && Supported(c.hwX, c.hwY)
    modifies c`hwX, c`numMcuInRow, c`numMcuInFrame, c`frame, c`fillRight, c`fillBottom
    ensures var f := Sof(0, 8, y, x, comps);
      match DecFrame(f, slice)
      case None => ret == Unsupported && c.frame == old(c.frame)
      case Some(fr) =>
        && ret == Ok && c.frame == Some(fr)
        && (c.hwX, c.hwY, c.numMcuInRow, c.numMcuInFrame)
          == (fr.geo.hwX, fr.geo.hwY, fr.geo.mcuInRow, fr.geo.mcuInFrame)
        && c.fillRight == (old(c.fillRight) || fr.fillRight) && c.fillBottom == (old(c.fillBottom) || fr.fillBottom)
  {
    OneComponentMaxima();
    hide *;
    var hmax, vmax, k := hmax0, vmax0, Factors(comps);
    if |comps| == 1 {
      hmax, vmax, k := 1, 1, [(1, 1)];
    } else {
      MaximaAre(comps);
    }
    DecFrameIs(x, y, comps, k, hmax, vmax, slice);
    if hmax == 0 || vmax == 0 {
      return Unsupported;
    }
    if Widens(c.hwX, hmax) {
      c.hwX := c.hwX + 16;
      if TooLarge(c.hwX, c.hwY) {
        return Unsupported;
      }
    }
    ret := Fill(c, x, y, k, hmax, vmax, slice);
  }

  /** Widths, heights, numbers of MCUs, sizes and mode. */
  method Fill(c: JpegDecContainer, x: nat, y: nat, k: seq<(nat, nat)>, hmax: nat, vmax: nat, slice: nat)
    returns (ret: Ret)
    requires (|k| == 1 && k[0] == (1, 1)) || |k| == 3
    requires hmax == MaxH(k) > 0 && vmax == MaxV(k) > 0 && c.hwX % 16 == 0
    modifies c`numMcuInRow, c`numMcuInFrame, c`frame, c`fillRight, c`fillBottom
    ensures match FrameOf(k, c.hwX, c.hwY, slice, x, y)
      case None => ret == Unsupported && c.frame == old(c.frame)
      case Some(fr) =>
        && ret == Ok && c.frame == Some(fr)
        && fr.geo.hwX == c.hwX && fr.geo.hwY == c.hwY
        && (c.numMcuInRow, c.numMcuInFrame) == (fr.geo.mcuInRow, fr.geo.mcuInFrame)
        && c.fillRight == (old(c.fillRight) || fr.fillRight) && c.fillBottom == (old(c.fillBottom) || fr.fillBottom)
  {
    hide MaxH, MaxV, DecFormat, Sum, SliceChroma, WholeMcus, Blocks, CeilDiv, NeedsFill, FactorsOf;
    var width, height := WholeMcus(c.hwX, hmax), WholeMcus(c.hwY, vmax);
    c.numMcuInRow := width / (8 * hmax);
    c.numMcuInFrame := c.numMcuInRow * (height / (8 * vmax));
    var rows, cols, blocks, size, luma := ImageSizes(k, c.hwX, c.hwY, hmax, vmax, width, height);
    var fmt, chroma, right, bottom;
    fmt, luma, chroma, right, bottom := DecMode(k, x, y, c.hwX, slice, luma, size - luma, false, false);
    if fmt.None? {
      return Unsupported;
    }
    c.frame := Some(Frame(Geometry(fmt.value, c.hwX, c.hwY, c.numMcuInRow, c.numMcuInFrame), hmax, vmax, k,
                          rows, cols, blocks, size, luma, chroma, right, bottom));
    c.fillRight, c.fillBottom := c.fillRight || right, c.fillBottom || bottom;
    ret := Ok;
  }

  method DecodeFrameHdr(stream: StreamStorage, c: JpegDecContainer, slice: nat) returns (ret: Ret)
    requires Ready(stream)
    modifies stream, c`hwX, c`hwY, c`numMcuInRow, c`numMcuInFrame, c`frame, c`fillRight, c`fillBottom
    ensures Ready(stream) && stream.appnFlag == old(stream.appnFlag)
    ensures var s, len, q := stream.s, stream.streamLength, old(stream.pCurrPos);
      if !EnoughData(s, len, q) then ret == StrmError && c.frame == old(c.frame)
      else match DecFrame(SofRead(s, len, q), slice)
        case None => ret == Unsupported && c.frame == old(c.frame)
        case Some(fr) =>
          && ret == Ok && c.frame == Some(fr) && stream.pCurrPos >= q
          && stream.pCurrPos == After(len, q + 8, 3 * |SofRead(s, len, q).comps|)
          && (c.hwX, c.hwY, c.numMcuInRow, c.numMcuInFrame)
            == (fr.geo.hwX, fr.geo.hwY, fr.geo.mcuInRow, fr.geo.mcuInFrame)
          && c.fillRight == (old(c.fillRight) || fr.fillRight) && c.fillBottom == (old(c.fillBottom) || fr.fillBottom)
  {
    hide DecFrame, Align16, Supported, EnoughData, ConsecutiveIds, WordAt, ByteAt;
    var y, x, nf, comps, hmax, vmax;
    ghost var f := SofRead(stream.s, stream.streamLength, stream.pCurrPos);
    DecRefuses(f, slice);
    ret, y, x, nf := ReadSize(stream, c);
    if ret != Ok {
      return;
    }
    ret, comps, hmax, vmax := ReadComponents(stream, nf);
    if ret != Ok {
      return;
    }
    ret := Measure(c, x, y, comps, hmax, vmax, slice);
    LengthIsNotUsed(f, Sof(0, 8, y, x, comps), slice);
  }

  lemma DecRefuses(f: Sof, slice: nat)
    requires f.y < TWO32 && f.x < TWO32 && (|f.comps| == 0 || |f.comps| == 1 || |f.comps| == 3)
    ensures !(f.p == 8 && f.y >= 1 && f.x >= 1 && Supported(Align16(f.x), Align16(f.y)) && f.comps != []
              && ConsecutiveIds(f.comps))
      ==> DecFrame(f, slice).None?
  {
  }

  lemma LengthIsNotUsed(f: Sof, g: Sof, slice: nat)
    requires f.y < TWO32 && f.x < TWO32 && g == f.(lf := 0)
    ensures DecFrame(f, slice) == DecFrame(g, slice)
  {
  }
}
