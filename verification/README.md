# JPEG front end and firmware updater: a verified model

This project models the software front end of the Rockchip hardware JPEG decoder (`package/rockchip/rkjpeg`)
and the write-and-verify pair of the firmware updater (`package/rockchip/update/update_recv`), and proves what
they do on every input. The decoder follows ITU-T T.81 (ISO/IEC 10918-1); section numbers below are those of
that recommendation.

| files | what they model |
|---|---|
| `Bits`, `Destuffing`, `Lookahead`, `StreamReader`, `StreamLaws` | the byte and bit reader over FF 00 stuffed data (sections B.1.1.5 and F.1.2.3) |
| `FrameGeometry`, `FrameLaws` | frame geometry as three places compute it (sections A.1.1, A.2, B.2.2) |
| `TableSegments`, `TableReaders` | DQT and DHT parsing, and the encoding of sections B.2.4.1 and B.2.4.2 |
| `HeaderSyntax` | the reference: headers read straight from the bytes, section B.2 |
| `Container`, `InfoSegments`, `App0`, `Thumbnails`, `InfoCases`, `InfoWalker`, `InfoLaws` | the first marker walker, `JpegDecGetImageInfo` |
| `MarkerWalk`, `FrameReader`, `DecodeWalker` | the second marker walker, the marker loop of `JpegDecDecode` with its parsers |
| `Agreement` | the two walkers on the same stream |
| `CallChecks` | what `JpegDecInit` sets up, and the checks at the head of every call of `JpegDecDecode` |
| `Scans`, `Finishing`, `EmptyScans`, `Images`, `ImageLaws` | scan headers, the hardware result loop, the calls that finish a multi-scan image, the codes of all calls for an image, and which images are got |
| `NextScan` | between two scans: the search for another one, and the marker loop that goes to it |
| `StreamLoading`, `SliceSizing` | the wrapper `pv_rkJpegdecoder_oneframe` |
| `Registers` | the register file |
| `Firmware` | `WriteFwData` and `CheckFwData` |

## How the model is built

Code that changes things step by step is a class or method with the source's fields, branches, order and
constants, proved against a function or a relation on the bytes; laws over whole runs are lemmas about these.

- A stream is an array with at least five readable bytes behind its end, because the reader looks ahead, and is
  shorter than 2^26 bytes, so that `RK_U32` bit counters do not wrap. Where the source can wrap or truncate, the
  arithmetic is written out.
- `WildJump` stands for every path on which the C program moves a pointer, or writes, outside its buffers: a
  segment length of 0 or 1, a component selector outside 1 to 3, a scan of more than three components, an
  overflowing allocation.
- The empty scans take their component sizes from `JpegDecInitHWEmptyScan` in `jpegdecinternal.c`, a third
  computation, which is proved to agree with that of the scan headers.
- The scans of an image, their order, what follows the last one and a failure of the hardware in any of them are
  arbitrary. That an application calls `JpegDecDecode` again as long as `SCAN_PROCESSED` comes back is the loop around
  it.
- `JpegDecInit` asks the hardware for nothing: it takes the ASIC to be 0x9190 and `jpegSupport` to be 1, which makes
  `is8190` and `fuseBurned` 1. The fuse is a parameter (`Setup`), so that the results on progressive images say what
  happens with it and without; `FUSE_BURNED` is its value in the shipped decoder. Every call begins with
  `DecodeChecks`.
- `JpegDecNextScanHdrs` in `jpegdecinternal.c` stands between the results of two scans. `NextScan` has its loop byte
  by byte; in `Images` it is the scan headers it reaches, and at the end ERROR at an EOI before the image is ready, or
  no return at the end of the stream, the last byte being no FF.
- The marker loop of `JpegDecDecode` has an outcome `Endless` for the rounds in which it no longer changes its state.

## Where the code does less than it says

- `JpegDecShowBits` announces the next 32 bits. At the end of the stream it gives them exactly when `Faithful`
  holds: a stuffed pair in the last bytes makes it leave them unshifted, or read one byte of padding. It fails on
  FF 00 12.
- `JpegDecDecodeQuantTables` and `JpegDecDecodeHuffmanTables` ask for two bytes more than the segment has; the
  round trip holds if and only if two more bytes follow. So do the frame and scan header parsers.
- Both walkers take the enum of `jpegdecmarkers.h` for the refused processes. SOF9 is C8 there, so that the arithmetic
  coded frames of FF C9 are passed over like markers without parameters.
- `JpegDecGetImageInfo` checks a restart interval as if it were a segment length, and skips a scan header from one
  byte too far. Which headers it accepts is `InfoAccepts`. A stream whose restart interval exceeds its length is
  refused by it, and its scan is reached by the marker loop of `JpegDecDecode` if `info.init` is already set; if
  not, `JpegDecDecode` calls `JpegDecGetImageInfo` first and returns its refusal.
- An APP0 segment can leave FF in `currentByte`, and then the walker takes the prefix of the next marker for a
  marker code. The model shows that it recovers; the counter drifts by one more step.
- A stream with a 4:0:0 frame of three components is accepted by `JpegDecGetImageInfo` and refused by the marker
  loop of `JpegDecDecode`.
- Once `info.init` is set, which only a new instance clears, `JpegDecGetImageInfo` can return `JPEGDEC_OK` without
  having found a scan: FF D8 eight times runs its loop to the end, and it returns OK. `JpegDecDecode` never returns
  on that stream (`InfoThenDecode`).
- The marker loop of `JpegDecDecode`, which it enters only with `info.init` set, goes round for ever exactly when the
  segments lead from marker to marker, all of them passed, and no byte FF is left behind the last (`EndlessIff`): on a
  stream without a byte FF, and on FF D8 with no further FF, for example.
- The fuse refuses every progressive image that `JpegDecGetImageInfo` has looked at: the first call of `JpegDecDecode`
  returns `JPEGDEC_UNSUPPORTED` (`ProgressiveIsRefused`). The progressive code behind that check is reached only by a
  caller that skips `JpegDecGetImageInfo` on a used decoder, and for one call.
- The wrapper takes `JPEGDEC_SCAN_PROCESSED` for an error. With the shipped decoder it gets an image if and only if
  the image is not progressive, is baseline or not over 16M, meets `Finishes`, and, if it is not interleaved, owes at
  most one component an empty scan (`WrapperDecodesIff`).
- Without the fuse, `JpegDecDecode` finishes a progressive image of several scans, all taken and with EOI behind them,
  if and only if the last but one was of a single component; otherwise it returns ERROR. An ordinary progressive
  image, DC scan together and AC scans apart, needs no empty scan and would be lost to the wrapper.
- A scan of one component is refused in 4:4:4 frames, and in 4:1:1 frames if it is of a chroma component, although the
  walkers accept both formats: a non-interleaved image of these with a scan for each component is never got.
- An empty scan of a 4:1:1 chroma component, without the fuse, is set up as wide as the image, four times too wide.
- Only `JpegDecInit` clears the components counted as decoded. Once a decoder has finished a non-interleaved image, it
  takes every later one for ready after its last scan, whatever components were scanned. `JpegDecInit` alone also
  clears the marks for empty scans.
- A non-interleaved image that ends in a bad scan header leaves `nonInterleavedScanReady` set, and the next call goes
  on in the old stream instead of starting at its own (`AbandonedImage`).
- Whether another scan follows is searched for byte by byte, and the scan is then looked for segment by segment. The
  two see the same where no segment hides a deciding pair and no fill byte precedes a marker (`SearchThenLoop`); FF DA
  in a comment, FF FF DA, and tables before the EOI are where they do not.
- `uiEntryOffset` of the updater is not reset between items of the same name: every item is read from beyond its
  offset by the sizes of those before it (`SecondItemMisread`).

## Model

| member | source | states |
|---|---|---|
| StreamReader.StreamStorage.GetByte | package/rockchip/rkjpeg/src/dec/jpeg/jpegdecutils.c:80-92 | the byte at the cursor, from inside the stream; end of data and nothing changed if the counter says so |
| StreamReader.ByteFromIsWindow | package/rockchip/rkjpeg/src/dec/jpeg/jpegdecutils.c:85-91 | shift and mask of two bytes are the eight bits at the bit position |
| StreamReader.StreamStorage.Get2Bytes | package/rockchip/rkjpeg/src/dec/jpeg/jpegdecutils.c:111-124 | the 16 bits at the cursor, at any bit position, as two windows of eight; end of data and nothing changed if the counter says so |
| StreamReader.StreamStorage.ShowBits | package/rockchip/rkjpeg/src/dec/jpeg/jpegdecutils.c:146-185 | the loop computes a closed form of the tokens ahead, on every stream and position |
| StreamReader.StreamStorage.FlushBits | package/rockchip/rkjpeg/src/dec/jpeg/jpegdecutils.c:206-259 | the loop moves the cursor by whole tokens and the counter by the bits and every stuffed zero; too long a flush parks it at the end |
| StreamLaws.FlushTwice | package/rockchip/rkjpeg/src/dec/jpeg/jpegdecutils.c:206-259 | two successful flushes are one flush of the sum |
| StreamLaws.FlushDropsBits | package/rockchip/rkjpeg/src/dec/jpeg/jpegdecutils.c:206-259 | a flush of n bits drops exactly n bits of the destuffed bit string ahead |
| StreamLaws.FlushKeepsInvariants | package/rockchip/rkjpeg/src/dec/jpeg/jpegdecutils.c:206-259 | a flush never lands on a stuffed zero and keeps counter and cursor in step |
| StreamLaws.ShowBitsIsFaithfulIff | package/rockchip/rkjpeg/src/dec/jpeg/jpegdecutils.c:126-185 | ShowBits gives the next 32 destuffed bits, zero-filled, if and only if Faithful holds |
| StreamLaws.ShowBitsFails | package/rockchip/rkjpeg/src/dec/jpeg/jpegdecutils.c:126-185 | a stream of three bytes on which ShowBits does not give them |
| StreamLaws.ShowAfterFlush | package/rockchip/rkjpeg/src/dec/jpeg/jpegdecutils.c:146-259 | the promised window after a flush of n is the window before shifted by n |
| TableSegments.QuantRoundTrip | package/rockchip/rkjpeg/src/dec/jpeg/jpegdechdrs.c:266-315 | an encoded DQT segment is consumed exactly and every table stored, if and only if two more bytes follow |
| TableSegments.SendKeepsLast | package/rockchip/rkjpeg/src/dec/jpeg/jpegdechdrs.c:294-310 | a destination holds the last table sent to it |
| TableSegments.SendSkips | package/rockchip/rkjpeg/src/dec/jpeg/jpegdechdrs.c:294-310 | a destination that no table names is unchanged |
| TableSegments.HuffRoundTrip | package/rockchip/rkjpeg/src/dec/jpeg/jpegdechdrs.c:332-447 | the same round trip for DHT segments |
| TableSegments.SendHuffKeepsLast | package/rockchip/rkjpeg/src/dec/jpeg/jpegdechdrs.c:366-425 | the destination (Tc, Th) holds the last lists sent to it, DC 0 to 3 and AC 0 to 3 each in their own place |
| TableSegments.SendHuffSkips | package/rockchip/rkjpeg/src/dec/jpeg/jpegdechdrs.c:366-425 | a destination (Tc, Th) that no table is sent to keeps its lists |
| TableSegments.HeaderByte | package/rockchip/rkjpeg/src/dec/jpeg/jpegdechdrs.c:347-366 | a table's header byte is taken exactly for classes 0 and 1 with identifiers 0 and 1, or 0 to 3 if not baseline, and then only its own destination is written |
| TableSegments.HuffStops | package/rockchip/rkjpeg/src/dec/jpeg/jpegdechdrs.c:332-447 | a header byte that is not taken ends the segment, with the tables before it stored |
| TableSegments.QuantStops | package/rockchip/rkjpeg/src/dec/jpeg/jpegdechdrs.c:281-315 | so does a DQT header byte that is not 0 to 3 |
| TableSegments.UsedLengths | package/rockchip/rkjpeg/src/dec/jpeg/jpegdechdrs.c:429-442 | start and last are the first and last used code length; an all-zero list leaves them as they were |
| TableReaders.DecodeQuantTables | package/rockchip/rkjpeg/src/dec/jpeg/jpegdechdrs.c:266-315 | the parser on any bytes, past the end of the stream too, is QuantSegment |
| TableReaders.DecodeHuffmanTables | package/rockchip/rkjpeg/src/dec/jpeg/jpegdechdrs.c:332-447 | the parser on any bytes is HuffSegment |
| FrameLaws.FramesAgree | package/rockchip/rkjpeg/src/dec/jpeg/jpegdechdrs.c:80-248 | GetImageInfo and DecodeFrameHdr accept the same frames, up to identifiers and 4:0:0, with equal geometry |
| FrameLaws.InfoTakesIff | package/rockchip/rkjpeg/src/dec/jpeg/jpegdecapi.c:549-736 | GetImageInfo takes a frame for one of a format exactly if it has 8 bits, 33 to 8176 samples either way (8160 wide for 4:1:1), one or three components, and the factors of that format |
| FrameLaws.DecTakesIff | package/rockchip/rkjpeg/src/dec/jpeg/jpegdechdrs.c:80-248 | DecodeFrameHdr does exactly if the identifiers count up too; it does not look at the factors of a single component |
| FrameLaws.PlaneSizes | package/rockchip/rkjpeg/src/dec/jpeg/jpegdechdrs.c:206-239 | rows and columns of each component are those of the padded image by its factors; the fill flags are set exactly where MCUs are one block wide or high and eight samples or more are padding |
| FrameLaws.GreyWithThreeComponents | package/rockchip/rkjpeg/src/dec/jpeg/jpegdecapi.c:692-698 | a frame the first accepts and the second refuses |
| FrameLaws.BlockConservation | package/rockchip/rkjpeg/src/dec/jpeg/jpegdechdrs.c:206-239 | every component has numMcuInFrame * H * V blocks, every plane its blocks, the image its planes |
| FrameLaws.SliceRatio | package/rockchip/rkjpeg/src/dec/jpeg/jpegdechdrs.c:608-770 | the chroma share of a slice is that of the whole image, and a slice changes nothing else |
| FrameLaws.LeastPadding | package/rockchip/rkjpeg/src/dec/jpeg/jpegdecapi.c:590-612 | padded sizes are the least multiples of 16, or 32 for 4:1:1, not below the image |
| InfoSegments.FrameHeader | package/rockchip/rkjpeg/src/dec/jpeg/jpegdecapi.c:549-736 | which frame headers are accepted, where the walk goes on and the geometry stored |
| App0.Identify | package/rockchip/rkjpeg/src/dec/jpeg/jpegdecapi.c:854-912 | the kind of an APP0 segment is that of its bytes; every kind without a thumbnail lands on its end |
| InfoCases.App0Segment | package/rockchip/rkjpeg/src/dec/jpeg/jpegdecapi.c:831-1336 | every branch that goes on lands exactly on the end of the segment, with thumbnails whenever their headers fit |
| Thumbnails.Walk | package/rockchip/rkjpeg/src/dec/jpeg/jpegdecapi.c:905-1292 | the thumbnail loop lands at segment start plus length plus the bytes appBits missed, none if the headers fit; the counter drifts by the steps |
| Thumbnails.MarksOf | package/rockchip/rkjpeg/src/dec/jpeg/jpegdecapi.c:913-1290 | the markers of a thumbnail's headers, one by one, end where ThumbHeaders says |
| InfoCases.RestartInterval | package/rockchip/rkjpeg/src/dec/jpeg/jpegdecapi.c:804-829 | both words must be there and pass the length check; only then the interval is stored |
| InfoCases.ScanHeader | package/rockchip/rkjpeg/src/dec/jpeg/jpegdecapi.c:738-771 | the scan is accepted exactly when a byte follows the header as counted, one byte too far |
| App0.KindsOfApp0 | package/rockchip/rkjpeg/src/dec/jpeg/jpegdecapi.c:854-912 | by identifier, terminator and extension code: which kind a segment is taken for, and what is left in currentByte |
| Thumbnails.ThumbSizes | package/rockchip/rkjpeg/src/dec/jpeg/jpegdecapi.c:986-999 | a thumbnail has 33 to 256 samples either way |
| Thumbnails.InnerEnds | package/rockchip/rkjpeg/src/dec/jpeg/jpegdecapi.c:913-1290 | by its code, where each segment of a thumbnail's headers ends |
| InfoWalker.OneTurn | package/rockchip/rkjpeg/src/dec/jpeg/jpegdecapi.c:541-1435 | one turn of the loop passes a marker exactly when MarkerPasses holds, in all three positions it can stand in |
| InfoWalker.ViewsOf | package/rockchip/rkjpeg/src/dec/jpeg/jpegdecapi.c:541-1435 | the markers of well-formed headers up to the first that does not pass; there is none if and only if InfoPasses holds |
| InfoLaws.PassesIff | package/rockchip/rkjpeg/src/dec/jpeg/jpegdecapi.c:541-1435 | the walker gets through headers exactly if their frames and restart intervals are taken and there is room at the last marker for the drift by then: one bit for each marker, two for an APP0 segment that leaves FF behind |
| InfoLaws.AcceptsIff | package/rockchip/rkjpeg/src/dec/jpeg/jpegdecapi.c:541-1435 | so it accepts headers that lead to a scan exactly if more than 16 bits are left behind the scan header, drift included |
| InfoWalker.GetImageInfo | package/rockchip/rkjpeg/src/dec/jpeg/jpegdecapi.c:541-1446 | ends on every stream; on well-formed headers finds the scan of ReadHeader if and only if InfoAccepts holds, with frame geometry, coding mode and restart interval; UNSUPPORTED where they lead to a process it refuses, and no OK from a new decoder there or at an EOI with no FF behind it; the counter drifts from the cursor by its own steps; on FF D8 eight times OK without a scan if the decoder was initialised, ERROR if not |
| FrameReader.DecodeFrameHdr | package/rockchip/rkjpeg/src/dec/jpeg/jpegdechdrs.c:80-248 | the parser on any bytes accepts exactly what DecFrame accepts and stores it |
| FrameReader.DecMode | package/rockchip/rkjpeg/src/dec/jpeg/jpegdechdrs.c:603-783 | a format exactly if the factors are those of it, fill flags and slice sizes |
| FrameReader.EnoughIff | package/rockchip/rkjpeg/src/dec/jpeg/jpegdechdrs.c:93-97 | a frame header's length is let pass exactly if two more bytes follow the segment, or if it could not be read |
| FrameReader.ImageSizes | package/rockchip/rkjpeg/src/dec/jpeg/jpegdechdrs.c:217-239 | the size loop adds up the planes |
| DecodeWalker.SegmentReads | package/rockchip/rkjpeg/src/dec/jpeg/jpegdecapi.c:1800-2058 | on a well-formed segment with two bytes behind it the parsers consume exactly the segment |
| HeaderSyntax.FinalCodes | package/rockchip/rkjpeg/src/dec/jpeg/jpegdecapi.c:1937-1951 | the markers that end the headers are SOS, EOI, TEM, DNL and the processes refused, by their codes |
| DecodeWalker.StopsOf | package/rockchip/rkjpeg/src/dec/jpeg/jpegdecapi.c:1790-2071 | the markers of well-formed headers and what was read before each, up to the first that ends them |
| DecodeWalker.WalkOnMarkers | package/rockchip/rkjpeg/src/dec/jpeg/jpegdecapi.c:1790-2071 | where well-formed headers lead to SOS the walk is at its scan; to EOI, ERROR, or FRAME_READY if the image is ready; to any other marker that ends them, UNSUPPORTED |
| DecodeWalker.BadSegment | package/rockchip/rkjpeg/src/dec/jpeg/jpegdecapi.c:1790-2071 | what it makes of segments that are too short or too long |
| DecodeWalker.BadTable | package/rockchip/rkjpeg/src/dec/jpeg/jpegdechdrs.c:266-447 | a table header byte that is not taken makes it return UNSUPPORTED |
| MarkerWalk.EndlessIff | package/rockchip/rkjpeg/src/dec/jpeg/jpegdecapi.c:1790-2071 | the loop goes round for ever if and only if the segments form a chain of markers that are all passed, with no byte FF behind the last |
| MarkerWalk.StartOfImageOnly | package/rockchip/rkjpeg/src/dec/jpeg/jpegdecapi.c:1790-2071 | it does on an SOI marker with no further FF |
| MarkerWalk.TablesDoNotMatter | package/rockchip/rkjpeg/src/dec/jpeg/jpegdechdrs.c:266-447 | where a DQT or DHT segment ends, and whether it is refused, does not depend on the tables read before |
| DecodeWalker.WalkOnHeaders | package/rockchip/rkjpeg/src/dec/jpeg/jpegdecapi.c:1790-2071 | on well-formed headers the walk ends at the scan of ReadHeader, or refuses an unsupported frame |
| DecodeWalker.FindScan | package/rockchip/rkjpeg/src/dec/jpeg/jpegdecapi.c:1790-2071 | on every stream ends as Walk says, or never; on well-formed headers, fill bytes included, reaches the scan of ReadHeader with tables, interval, operation type and frame stored, or refuses an unsupported frame; at a marker that ends the headers it returns what EndAt says |
| Agreement.WalkersAgree | package/rockchip/rkjpeg/src/dec/jpeg/jpegdecapi.c:541-2071 | on headers the first walker accepts, the second refuses exactly the frames that are not Decodable; otherwise the geometry is the same |
| Agreement.InfoThenDecode | package/rockchip/rkjpeg/src/dec/jpeg/jpegdecapi.c:1561-2071 | one after the other on one container, for any earlier images, with the buffer size the wrapper passes and any slice height: on accepted headers both find the same scan and geometry, or the second refuses a frame that is not Decodable; the first returns OK on accepted headers, and on a new decoder on no others; FF D8 eight times on a used one gives OK and then no return |
| Agreement.AcceptedFrame | package/rockchip/rkjpeg/src/dec/jpeg/jpegdecapi.c:541-736 | accepted headers have a supported frame |
| Agreement.RoomToSpare | package/rockchip/rkjpeg/src/dec/jpeg/jpegdecapi.c:541-548 | without restart interval, a supported frame and some slack are enough to be accepted |
| Agreement.LongIntervalRefused | package/rockchip/rkjpeg/src/dec/jpeg/jpegdecapi.c:821-829 | a restart interval longer than the stream is refused wherever it stands |
| Agreement.LongIntervalExample | package/rockchip/rkjpeg/src/dec/jpeg/jpegdecapi.c:821-829 | a stream of SOI, DRI, SOF0 and SOS that the first walker refuses and the second follows to its scan |
| Agreement.GreyExample | package/rockchip/rkjpeg/src/dec/jpeg/jpegdecapi.c:692-698 | a stream with a 4:0:0 frame of three components that the first walker accepts and the second refuses |
| Scans.DecInfo.DecodeScanHeader | package/rockchip/rkjpeg/src/dec/jpeg/jpegdecscan.c:173-347 | the parser on any bytes changes the parameters as ScanStep says, on errors too |
| Scans.HeaderTakenIff | package/rockchip/rkjpeg/src/dec/jpeg/jpegdecscan.c:173-347 | after any scans a header is taken exactly by its own fields: selectors and count; for one component not in 4:4:4 frames, and in 4:1:1 only the luma; 0, 63 and 0, 0 in baseline frames; DC alone and at most 13 bits in progressive ones |
| Scans.HeaderSays | package/rockchip/rkjpeg/src/dec/jpeg/jpegdecscan.c:173-347 | and then every parameter is what its fields say |
| Scans.TakenIff | package/rockchip/rkjpeg/src/dec/jpeg/jpegdecscan.c:173-347 | the headers of an image are all accepted exactly if each one is of those taken |
| Scans.LastScanSays | package/rockchip/rkjpeg/src/dec/jpeg/jpegdecscan.c:173-347 | over any accepted scans the parameters for the hardware are those of the last; a baseline image is non-interleaved from its first scan of one component on |
| Scans.SizeOfLastScan | package/rockchip/rkjpeg/src/dec/jpeg/jpegdecscan.c:188-287 | over any accepted scans of any frame the size is that of the last scan's component, rounded up to 16, with the fill flags exactly where it was |
| Scans.NeededIff | package/rockchip/rkjpeg/src/dec/jpeg/jpegdecscan.c:206-282 | a component is marked exactly when it was in an interleaved scan, or marked before the image, and in no scan of its own after that |
| EmptyScans.Finisher.FinishImage | package/rockchip/rkjpeg/src/dec/jpeg/jpegdecapi.c:1724-1778 | one empty scan for each marked component, ascending, SCAN_PROCESSED but for the last call; a check that fails at the head of the second call ends it after one |
| EmptyScans.Finisher.ImageReady | package/rockchip/rkjpeg/src/dec/jpeg/jpegdecapi.c:2574-2622 | the first of these calls, for every operation type |
| EmptyScans.NeededLists | package/rockchip/rkjpeg/src/dec/jpeg/jpegdecapi.c:2587-2612 | the list is exactly the marked components, in ascending order |
| EmptyScans.EmptyScansAreOwed | package/rockchip/rkjpeg/src/dec/jpeg/jpegdecapi.c:2585-2618 | over whole images the empty scans go to the components that are Owed one |
| Finishing.HwControl.AfterScan | package/rockchip/rkjpeg/src/dec/jpeg/jpegdecapi.c:2370-2544 | the branches after a hardware result are ScanDone |
| Finishing.RunTakenIff | package/rockchip/rkjpeg/src/dec/jpeg/jpegdecscan.c:173-347 | all scans of an image go through exactly if each header is one of those taken |
| NextScan.EndOfImage | package/rockchip/rkjpeg/src/dec/jpeg/jpegdecapi.c:2382-2403 | another scan is expected exactly when a DHT or SOS comes before any EOI |
| NextScan.NextOnMarkers | package/rockchip/rkjpeg/src/dec/jpeg/jpegdecapi.c:2546-2555 | the marker loop passes well-formed segments to the next SOS, to EOI (ERROR or FRAME_READY), or to a marker it refuses |
| NextScan.SearchThenLoop | package/rockchip/rkjpeg/src/dec/jpeg/jpegdecapi.c:2382-2403 | where no passed segment hides a decisive pair, another scan is expected exactly when the marker loop does not come to an EOI, and at an SOS the loop reaches the scan that was seen |
| NextScan.HiddenPair | package/rockchip/rkjpeg/src/dec/jpeg/jpegdecapi.c:2382-2403 | a comment with FF DA in it announces a scan that the marker loop does not find |
| NextScan.FilledMarker | package/rockchip/rkjpeg/src/dec/jpeg/jpegdecapi.c:2546-2555 | so does an SOS behind a fill byte |
| NextScan.TablesAtEnd | package/rockchip/rkjpeg/src/dec/jpeg/jpegdecapi.c:2382-2403 | so do tables before the EOI |
| Finishing.DecodedIff | package/rockchip/rkjpeg/src/dec/jpeg/jpegdecapi.c:2463-2506 | over any scans of a non-interleaved image, each with its result, a component counts as decoded exactly when it did before or a scan of it alone was decoded |
| Images.DecodeImage | package/rockchip/rkjpeg/src/dec/jpeg/jpegdecapi.c:1634-2622 | the loop over results inside the loop of calls, each beginning with its checks, returns the codes of ImageCalls and issues its empty scans, for any scans, ending and hardware failure |
| Images.CodesOfProgressive | package/rockchip/rkjpeg/src/dec/jpeg/jpegdecapi.c:2452-2622 | all codes of a progressive image where the checks let progressive calls pass: one SCAN_PROCESSED for every single-component scan before the last, then the finish, ERROR, or no return |
| Images.CodesOfSeparate | package/rockchip/rkjpeg/src/dec/jpeg/jpegdecapi.c:2463-2622 | all codes of a non-interleaved image whose first call has passed its checks |
| Images.ImageFinishesIff | package/rockchip/rkjpeg/src/dec/jpeg/jpegdecapi.c:1634-2622 | for every image and fuse, some call returns FRAME_READY if and only if the first passes its checks and the scans meet Finishes: baseline after the first scan, non-interleaved when every component has been decoded alone, progressive when the last scan but one was of one component |
| Images.DecodeLoop | package/rockchip/rkjpeg/src/test/pv_jpegdec_api.cpp:462-521 | the wrapper's loop over the codes |
| Images.GetsFrameIff | package/rockchip/rkjpeg/src/test/pv_jpegdec_api.cpp:462-521 | it gets the image exactly if FRAME_READY comes with nothing but SLICE_READY and STRM_PROCESSED before it |
| Images.HeaderFields | package/rockchip/rkjpeg/src/dec/jpeg/jpegdecscan.c:180-292 | the fields of a scan header are where section B.2.3 has them |
| Images.WrapperGetsIff | package/rockchip/rkjpeg/src/test/pv_jpegdec_api.cpp:462-521 | for every image, fuse and operation type, the wrapper gets it if and only if the first call passes, Finishes holds, it is of one scan if progressive, and owes at most one empty scan unless baseline |
| Images.EmptyScansIssued | package/rockchip/rkjpeg/src/dec/jpeg/jpegdecapi.c:2585-2618 | a finished image of three components has had empty scans for exactly the components Owed one, a baseline image none |
| Images.ProgressiveIsRefused | package/rockchip/rkjpeg/src/dec/jpeg/jpegdecapi.c:1634-1642 | with the fuse as JpegDecInit sets it, a progressive image comes to UNSUPPORTED alone |
| Images.WrapperDecodesIff | package/rockchip/rkjpeg/src/test/pv_jpegdec_api.cpp:400-521 | with that fuse and the slice height the wrapper chooses, it gets exactly the images that are not progressive, are baseline or not over 16M, meet Finishes, and, if not interleaved, owe at most one empty scan |
| ImageLaws.FinishesIff | package/rockchip/rkjpeg/src/dec/jpeg/jpegdecapi.c:1634-2622 | Finishes, with acceptance of the scan headers said of each of them |
| ImageLaws.WrapperGetsImages | package/rockchip/rkjpeg/src/test/pv_jpegdec_api.cpp:400-521 | the images the wrapper gets from the shipped decoder, by the fields of their scan headers |
| ImageLaws.OrdinaryBaseline | package/rockchip/rkjpeg/src/test/pv_jpegdec_api.cpp:400-521 | an ordinary baseline image is got, whatever its format and size |
| ImageLaws.OrdinarySeparate | package/rockchip/rkjpeg/src/test/pv_jpegdec_api.cpp:400-521 | a non-interleaved one with a scan for each component is got exactly if it is neither 4:4:4 nor 4:1:1 and has at most 16370688 samples |
| ImageLaws.OrdinaryBytes | package/rockchip/rkjpeg/src/dec/jpeg/jpegdecscan.c:173-347 | the twelve bytes of the scan header of such a baseline image are read as its fields |
| ImageLaws.HeadIsStored | package/rockchip/rkjpeg/src/dec/jpeg/jpegdecapi.c:738-771 | the operation type GetImageInfo stores is the one the first call finds |
| Images.PausesDoNotMatter | package/rockchip/rkjpeg/src/test/pv_jpegdec_api.cpp:513-514 | SLICE_READY and STRM_PROCESSED in between make no difference |
| Images.OrdinaryProgressive | package/rockchip/rkjpeg/src/test/pv_jpegdec_api.cpp:462-521 | an ordinary progressive image that without the fuse the third call would finish and the wrapper would not get |
| Images.EndNotNoticed | package/rockchip/rkjpeg/src/dec/jpeg/jpegdecapi.c:2452-2544 | two interleaved progressive scans would end in ERROR, once the first call has passed its checks |
| Images.SecondSeparateImage | package/rockchip/rkjpeg/src/dec/jpeg/jpegdecapi.c:2463-2506 | a second non-interleaved image on the same decoder is ready after any one scan |
| Images.AbandonedImage | package/rockchip/rkjpeg/src/dec/jpeg/jpegdecapi.c:1578-1598 | a non-interleaved image that ends in a refused scan header leaves nonInterleavedScanReady set, so that the next call does not start its stream anew |
| StreamLoading.FilterAvi1 | package/rockchip/rkjpeg/src/test/pv_jpegdec_api.cpp:211-231 | the copy keeps exactly the bytes not in a pair FF 00 before FF Dn, in order; copy_len is the size less two for each pair; the gap is zero |
| StreamLoading.FirstPairGoes | package/rockchip/rkjpeg/src/test/pv_jpegdec_api.cpp:211-231 | up to the first FF 00 FF Dn all is kept, and FF 00 goes |
| StreamLoading.NoPairNoChange | package/rockchip/rkjpeg/src/test/pv_jpegdec_api.cpp:211-231 | without one everything is kept |
| StreamLoading.KeepLength | package/rockchip/rkjpeg/src/test/pv_jpegdec_api.cpp:217-229 | the kept bytes are the input less two for every pair |
| StreamLoading.StripTail | package/rockchip/rkjpeg/src/test/pv_jpegdec_api.cpp:246-262 | on any buffer, the strip removes only FF and FF 00, leaves a prefix that ends in neither, and rewrites the end marker; it reads before the buffer exactly when nothing stops it |
| StreamLoading.StrippedIsMaximal | package/rockchip/rkjpeg/src/test/pv_jpegdec_api.cpp:249-259 | no longer run of FF and FF 00 ends there |
| StreamLoading.TokenRunIff | package/rockchip/rkjpeg/src/test/pv_jpegdec_api.cpp:249-259 | what is stripped is FF, and 00 directly behind FF |
| StreamLoading.StripAgain | package/rockchip/rkjpeg/src/test/pv_jpegdec_api.cpp:246-262 | a second strip of the buffer the first has left changes nothing |
| StreamLoading.LoadStream | package/rockchip/rkjpeg/src/test/pv_jpegdec_api.cpp:208-262 | the stream the decoder gets; after a filter that removed something the strip does not apply |
| SliceSizing.CountMcus | package/rockchip/rkjpeg/src/test/pv_jpegdec_api.cpp:411-436 | the wrapper's MCU counts are those of the walkers |
| SliceSizing.ForceSlices | package/rockchip/rkjpeg/src/test/pv_jpegdec_api.cpp:445-456 | the loop ends with the largest slice below the limit: s * r < 8100 <= (s + 1) * r |
| SliceSizing.ChooseSlice | package/rockchip/rkjpeg/src/test/pv_jpegdec_api.cpp:445-456 | the slice height is 0 up to 16M and otherwise the largest below the limit |
| SliceSizing.ChosenPasses | package/rockchip/rkjpeg/src/dec/jpeg/jpegdecapi.c:1633-1694 | with that choice the checks at the head of a call pass exactly for images that the fuse does not refuse and that are baseline or not over 16M |
| CallChecks.Faults | package/rockchip/rkjpeg/src/dec/jpeg/jpegdecapi.c:1633-1694 | which fault the checks at the head of a call find, for any setup |
| SliceSizing.PictureFits | package/rockchip/rkjpeg/src/test/pv_jpegdec_api.cpp:325-356 | the output buffer is that of the image, and a third more for 4:1:1 |
| Registers.SetBit | package/rockchip/rkjpeg/src/dec/vpu_inc/reg.cpp:56-64 | a write puts the low bits of the value into the field and changes no other bit |
| Registers.MaskIs | package/rockchip/rkjpeg/src/dec/vpu_inc/reg.cpp:26-35 | the mask table has the w lowest bits at index w |
| Registers.LastWriteWins | package/rockchip/rkjpeg/src/dec/vpu_inc/reg.cpp:56-89 | after any writes, every bit is that of the last write covering it |
| Registers.ReadsLastWrite | package/rockchip/rkjpeg/src/dec/vpu_inc/reg.cpp:56-89 | a field reads as last written, cut to its width, if only disjoint fields were written since |
| Registers.DisjointUntouched | package/rockchip/rkjpeg/src/dec/vpu_inc/reg.cpp:56-89 | writes to disjoint fields leave a field as it was |
| Registers.RegisterFile.SetRegisterFile | package/rockchip/rkjpeg/src/dec/vpu_inc/reg.cpp:56-64 | the read-modify-write of the array is one such write |
| Registers.RegisterFile.GetRegisterFile | package/rockchip/rkjpeg/src/dec/vpu_inc/reg.cpp:81-89 | the bits of the field, moved down |
| Registers.StatusAgrees | package/rockchip/rkjpeg/src/dec/inc/6731table.h:133-140 | the ten-bit status and the interrupt fields agree bit for bit for every register value |
| Registers.JpegFieldsAreDisjoint | package/rockchip/rkjpeg/src/dec/inc/6731table.h:219-264 | the JPEG fields of registers 121 and 122 do not overlap |
| Registers.CodecsOverlap | package/rockchip/rkjpeg/src/dec/inc/6731table.h:237-256 | a field of another codec is seen through a JPEG field |
| Firmware.WriteFwData | package/rockchip/update/update_recv/update_recv.c:187-302 | for any items and chunk size, 0 exactly when there are items and the payload is defined and fits; the device then starts with it and is unchanged behind it; for a name of one item it starts with the image from the firmware's offset plus the item's |
| Firmware.CheckFwData | package/rockchip/update/update_recv/update_recv.c:365-476 | true exactly when the payload is defined and the device starts with it; for a name of one item that is the same part of the image |
| Firmware.WriteThenCheck | package/rockchip/update/update_recv/update_recv.c:135-476 | a successful write is confirmed by CheckFwData |
| Firmware.PayloadLaw | package/rockchip/update/update_recv/update_recv.c:204-271 | for any items, the payload is defined exactly when each lies inside the image where it is read from, beyond its offset by the sizes before it, and holds them one behind the other |
| Firmware.UniqueName | package/rockchip/update/update_recv/update_recv.c:204-271 | a name that one item has stands for the image from the sum of the two offsets on, in 32 bits, as long as size and high word say, none from 2^63 bytes on |
| Firmware.BeyondFirmwareOffset | package/rockchip/update/update_recv/update_recv.c:248-248 | with a firmware offset of 4 an item at 0 is the fifth byte of the image |
| Firmware.SecondItemMisread | package/rockchip/update/update_recv/update_recv.c:204-271 | of two items of one name with offsets 0 and 1 the second is read from 2 |

## Left out

- The parameter and buffer-size checks at the head of `JpegDecGetImageInfo` and `JpegDecDecode`, before those of
  `DecodeChecks`: comparisons that return at once.
- Thumbnail decoding in `JpegDecDecode` (`decImageType` 1), input in several buffers and slice output to the user.
- The set-up of the hardware registers (`JpegDecInitHW` and its variants), and the timeout recovery that returns
  FRAME_READY.
- In `Images` the marker loop between scans is represented by the scan headers it reaches and by how it ends; the
  bytes between are those of `NextScan`. Tables and an EOI behind the last scan of a non-interleaved image, and a lone
  FF as the last byte, are not among the endings.
- An image that starts while `progressiveScanReady` or `nonInterleavedScanReady` is left set by an abandoned one: it is
  shown how that comes about, not what the decoder makes of the old stream.
- The sockets, memory allocation, post-processor, output addresses, dumps and tracing: foreign calls and copying.
- The values of the default Huffman tables, `JPEGDEC_ERROR_RESILIENCE` code and the branch for other hardware.
- The 'H' flag at `file[50]` in the updater, mount points, and reading the image header itself.
- Quantization and Huffman tables are values that a parser replaces as a whole, not arrays filled in place.
- StreamReader.StreamStorage.ShowBits: a cursor on a stuffed zero, and a counter ahead of the cursor or past the end, are excluded; no successful flush leaves them (StreamLaws.FlushKeepsInvariants).
- Thumbnails.Walk: where the headers do not fit the segment or contain a scan before the frame, only the landing formula is stated, not whether it lands.
- InfoWalker.GetImageInfo: on headers that are not well formed, or that lead to a DNL marker, it is proved to end and to keep the drift law, not what it returns; which of its error codes comes back at an EOI or from a marker it does not get through, and the state of a call that fails, are not described.
- DecodeWalker.FindScan: on headers that are not well formed the outcome is stated exactly, but not what has been stored by then.
- FrameReader.DecodeFrameHdr: the fields a refused frame header leaves behind are not described.
- Images.DecodeImage: a component selector outside 1 to 3 ends the image, because the source then writes outside its arrays.
- Firmware.WriteFwData: `fwrite` is buffered and the result of `fclose` is not checked, so that a device that is full may be noticed only there, and the source then returns 0 all the same.
