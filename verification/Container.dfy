/** The fields of JpegDecContainer that the two walkers share, and the image information structure. */
module Container {
  import opened Common
  import opened FrameGeometry
  import opened TableSegments

  datatype Thumbnail = NoThumbnail | JpegThumbnail | UnsupportedThumbnail

  /** JpegDecImageInfo; an outputFormat of None is the zero that GetImageInfo starts with. */
  datatype ImageInfo = ImageInfo(
    displayWidth: nat, displayHeight: nat, outputWidth: int, outputHeight: int,
    outputFormat: Option<Format>, codingMode: OpType,
    version: nat, units: nat, xDensity: nat, yDensity: nat,
    thumbnailType: Thumbnail,
    displayWidthThumb: nat, displayHeightThumb: nat, outputFormatThumb: Option<Format>, codingModeThumb: OpType)

  /** The image size, format and coding mode are the same. */
  predicate SameGeometry(a: ImageInfo, b: ImageInfo) {
    && a.displayWidth == b.displayWidth && a.displayHeight == b.displayHeight
    && a.outputWidth == b.outputWidth && a.outputHeight == b.outputHeight
    && a.outputFormat == b.outputFormat && a.codingMode == b.codingMode
  }

  class JpegDecContainer {
    // info
    var init: bool
    var initThumb: bool
    var operationType: OpType
    var operationTypeThumb: OpType
    var getInfoYCbCrMode: Option<Format>
    // frame
    var hwX: int
    var hwY: int
    var numMcuInRow: int
    var numMcuInFrame: int
    var restart: nat                // Ri
    var codingType: nat
    var frame: Option<Frame>        // the rest of frame and image, once DecodeFrameHdr has set it
    var fillRight: bool
    var fillBottom: bool
    // quant and vlc
    var quant: QuantTables
    var vlc: VlcTables

    /** JpegDecInit clears the structure. */
    constructor ()
      ensures !init && !initThumb && codingType == 0 && frame == None && !fillRight && !fillBottom
    {
      init, initThumb, operationType, operationTypeThumb, getInfoYCbCrMode := false, false, Baseline, Baseline, None;
      fillRight, fillBottom := false, false;
      hwX, hwY, numMcuInRow, numMcuInFrame, restart, codingType, frame := 0, 0, 0, 0, 0, 0, None;
      quant := [[], [], [], []];
      vlc := seq(8, _ => VlcTable([], [], 0, 0));
    }
  }
}
