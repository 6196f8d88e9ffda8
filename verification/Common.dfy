/** Types and constants shared by the models of the JPEG front end and the firmware updater. */
module Common {

  type byte = x: int | 0 <= x < 256

  /** RK_U32 arithmetic is modulo TWO32; it is written out wherever the source can wrap. */
  const TWO32: nat := 0x1_0000_0000

  /** The end-of-data value of the stream readers (jpegdecutils.h). */
  const STRM_ERROR: nat := 0xFFFF_FFFF

  datatype Option<+T> = None | Some(value: T)

  /** The return codes of the decoder API that the modelled paths can produce.
      WildJump is not a code of the source: it marks the paths on which an unsigned subtraction
      wraps and the C program moves its stream pointer out of the buffer. */
  datatype Ret =
    | Ok | FrameReady | SliceReady | StrmProcessed | ScanProcessed
    | Error | Unsupported | ParamError | StrmError | IncreaseInputBuffer
    | SliceModeUnsupported | HwBusError | HwTimeout | SystemError
    | WildJump

  /** What JpegDecGetImageInfo can return from inside its loops. */
  type Failure = r: Ret | r != Ok && r != Error witness StrmError

  /** Operation types (jpegdecapi.h). */
  datatype OpType = Baseline | Progressive | NonInterleaved

  function Max(a: int, b: int): int { if a < b then b else a }

  /** Unsigned 16-bit big-endian field at index p. */
  function Be16(s: seq<byte>, p: nat): (r: nat)
    requires p + 1 < |s|
    ensures r < 0x1_0000
  {
    s[p] as int * 256 + s[p + 1] as int
  }
}
