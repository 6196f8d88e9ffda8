/** The checks at the head of every call of JpegDecDecode, and what JpegDecInit lets them see. */
module CallChecks {
  import opened Common
  import opened FrameGeometry

  const ASIC_ID: nat := 0x9190_0000     // not asked of the hardware
  const JPEG_SUPPORT: nat := 1          // hwCfg.jpegSupport, likewise
  const JPEG_BASELINE: nat := 1         // decapicommon.h

  /** What JpegDecInit makes of the two. */
  function Is8190(asicId: nat): bool { asicId / 0x1_0000 != 0x6731 }

  function FuseOf(asicId: nat, jpegSupport: nat): bool { Is8190(asicId) && jpegSupport == JPEG_BASELINE }

  const FUSE_BURNED: bool := FuseOf(ASIC_ID, JPEG_SUPPORT)

  /** What the checks depend on besides the operation type: the fuse, pDecIn->sliceMbSet, and the geometry
      that the last frame header has left. */
  datatype Setup = Setup(fuseBurned: bool, slice: nat, geo: Geometry)

  function McuSizeDivider(fmt: Format): nat {
    if fmt in {Yuv400, Yuv440, Yuv444} then 2 else 1
  }

  /** The checks in their order, None if the call goes on. */
  function DecodeChecks(k: Setup, op: OpType): Option<Ret> {
    var rows := k.slice * (k.geo.mcuInRow / McuSizeDivider(k.geo.format));
    if k.fuseBurned && op == Progressive then Some(Unsupported)
    else if k.slice != 0 && op != Baseline then Some(SliceModeUnsupported)
    else if k.slice == 0 && k.geo.hwX * k.geo.hwY > MAX_PIXELS then Some(ParamError)
    else if rows > MAX_SLICE then Some(ParamError)
    else if k.slice != 0 && rows > k.geo.mcuInFrame then Some(ParamError)
    else None
  }

  /** The first of five faults decides what is returned; an MCU row counts half where MCUs are one block high and
      wide, or one block wide alone. */
  lemma Faults(k: Setup, op: OpType)
    ensures var row := if k.geo.format in {Yuv400, Yuv440, Yuv444} then k.geo.mcuInRow / 2 else k.geo.mcuInRow;
      var rows := k.slice * row;
      var refused := DecodeChecks(k, op);
      && (refused == Some(Unsupported) <==> k.fuseBurned && op == Progressive)
      && (refused == Some(SliceModeUnsupported) <==>
           k.slice > 0 && (op == NonInterleaved || (op == Progressive && !k.fuseBurned)))
      && (refused == Some(ParamError) <==>
           && !(k.fuseBurned && op == Progressive) && (k.slice > 0 ==> op == Baseline)
           && if k.slice == 0 then k.geo.hwX * k.geo.hwY > 16370688 else rows > 8100 || rows > k.geo.mcuInFrame)
      && (refused.None? || refused.value in {Unsupported, SliceModeUnsupported, ParamError})
  {
  }
}
