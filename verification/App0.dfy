/** The APP0 case of JpegDecGetImageInfo: JFIF and JFXX identification, the thumbnail's own marker loop,
    and the bit accounting (appBits) that decides where the walk goes on. */
module App0 {
  import opened Common
  import opened StreamReader
  import opened HeaderSyntax
  import opened Container
  import opened InfoSegments

  /** Flush the rest of the segment: `FlushBits((appLength * 8) - appBits)`.  When appBits is past the
      segment the subtraction wraps. */
  method FlushRest(stream: StreamStorage, appLength: nat, appBits: nat) returns (code: Code)
    requires stream.Valid() && stream.bitPosInByte == 0 && stream.appnFlag
    requires appLength < 0x1_0000 && appBits % 8 == 0
    modifies stream`pCurrPos, stream`bitPosInByte, stream`readBits
    ensures stream.Valid() && stream.bitPosInByte == 0
    ensures var n := 8 * appLength - appBits;
      if n < 0 then code == Wild
      else if old(stream.readBits) + n > 8 * stream.streamLength then code == Short
      else
        && code == Fine && stream.pCurrPos == old(stream.pCurrPos) + n / 8
        && stream.readBits == old(stream.readBits) + n
  {
    if appBits > 8 * appLength {
      return Wild;
    }
    var n := 8 * appLength - appBits;
    assert n % 8 == 0;
    var ok := stream.FlushBits(n);
    return if ok then Fine else Short;
  }

  /** Which way an APP0 segment of at least 16 bytes goes, from its bytes. */
  datatype Kind = Other | BadTerminator | Extension | JpegExtension | Jfif

  /** thumb is the thumbnail flag, which no later segment clears. */
  function KindOf(s: seq<byte>, q: nat, thumb: bool): Kind
    requires q + 16 <= |s|
  {
    if !HasJfifId(s, q) then Other
    else if s[q + 6] != 0 then BadTerminator
    else if thumb || s[q + 4] == 0x58 then if s[q + 7] == 0x10 then JpegExtension else Extension
    else Jfif
  }

  /** The value currentByte is left with; FF makes the marker loop take the next byte for a code. */
  function LeftByte(s: seq<byte>, q: nat, thumb: bool): nat
    requires q + 16 <= |s|
  {
    match KindOf(s, q, thumb)
    case Other | JpegExtension => APP0
    case BadTerminator => s[q + 6]
    case Extension => s[q + 7]
    case Jfif => s[q + 9]
  }

  function StillThumb(s: seq<byte>, q: nat, thumb: bool): bool
    requires q + 16 <= |s|
  {
    thumb || (HasJfifId(s, q) && s[q + 4] == 0x58)
  }

  /** By identifier, terminator and extension code: an ordinary JFIF segment is taken for one unless a JFXX segment
      came before it, and then its major version is taken for an extension code. */
  lemma KindsOfApp0(s: seq<byte>, q: nat, thumb: bool)
    requires q + 16 <= |s|
    ensures var id := s[q + 2..q + 6];
      var jfif, jfxx := id == [0x4A, 0x46, 0x49, 0x46], id == [0x4A, 0x46, 0x58, 0x58];
      && (!jfif && !jfxx ==> KindOf(s, q, thumb) == Other && LeftByte(s, q, thumb) == 0xE0)
      && ((jfif || jfxx) && s[q + 6] != 0 ==> KindOf(s, q, thumb) == BadTerminator && LeftByte(s, q, thumb) == s[q + 6])
      && (s[q + 6] == 0 && (jfxx || (jfif && thumb)) && s[q + 7] == 0x10 ==>
           KindOf(s, q, thumb) == JpegExtension && LeftByte(s, q, thumb) == 0xE0)
      && (s[q + 6] == 0 && (jfxx || (jfif && thumb)) && s[q + 7] != 0x10 ==>
           KindOf(s, q, thumb) == Extension && LeftByte(s, q, thumb) == s[q + 7])
      && (s[q + 6] == 0 && jfif && !thumb ==> KindOf(s, q, thumb) == Jfif && LeftByte(s, q, thumb) == s[q + 9])
      && (StillThumb(s, q, thumb) <==> thumb || jfxx)
  {
    var id := s[q + 2..q + 6];
    assert id[0] == s[q + 2] && id[1] == s[q + 3] && id[2] == s[q + 4] && id[3] == s[q + 5];
  }

  /** The identification: appBits counts the bytes read since the length field, and kind says what is
      to follow.  Every kind but JpegExtension is flushed to the end of the segment. */
  method Identify(stream: StreamStorage, info0: ImageInfo, thumb0: bool, appLength: nat)
    returns (code: Code, kind: Kind, info: ImageInfo, thumb: bool, currentByte: nat)
    requires stream.Valid() && stream.bitPosInByte == 0 && 2 <= stream.pCurrPos && 16 <= appLength < 0x1_0000
    requires stream.readBits + 8 * appLength - 16 <= 8 * stream.streamLength
    modifies stream
    ensures stream.Valid() && stream.bitPosInByte == 0
    ensures var s, q := stream.s, old(stream.pCurrPos) - 2;
      && q + appLength <= |s| && code == Fine && kind == KindOf(s, q, thumb0) && thumb == StillThumb(s, q, thumb0)
      && currentByte == LeftByte(s, q, thumb0)
      && stream.pCurrPos == (if kind == JpegExtension then q + 8 else q + appLength)
      && stream.readBits - 8 * stream.pCurrPos == old(stream.readBits - 8 * stream.pCurrPos)
      && (kind == JpegExtension ==> stream.appnFlag) && SameGeometry(info, info0)
      && info.thumbnailType == (match kind case JpegExtension => JpegThumbnail
                                           case Extension => UnsupportedThumbnail
                                           case _ => info0.thumbnailType)
      && (kind == Jfif ==> info.version == Be16(s, q + 7) && info.xDensity == Be16(s, q + 10)
                           && info.yDensity == Be16(s, q + 12)
                           && info.units == if s[q + 9] <= 2 then s[q + 9] else info0.units)
  {
    info, thumb, currentByte := info0, thumb0, APP0;
    var appBits := 16;
    IdentifierWords(stream.s, stream.pCurrPos);
    var currentBytes := stream.Get2Bytes();
    appBits := appBits + 16;
    if currentBytes != 0x4A46 {
      kind, stream.appnFlag := Other, true;
      code := FlushRest(stream, appLength, appBits);
      return;
    }
    currentBytes := stream.Get2Bytes();
    appBits := appBits + 16;
    if currentBytes != 0x4946 && currentBytes != 0x5858 {
      kind, stream.appnFlag := Other, true;
      code := FlushRest(stream, appLength, appBits);
      return;
    }
    if currentBytes == 0x5858 {
      thumb := true;
    }
    currentByte := stream.GetByte();
    appBits := appBits + 8;
    if currentByte != 0x00 {
      kind, stream.appnFlag := BadTerminator, true;
      code := FlushRest(stream, appLength, appBits);
      stream.appnFlag := false;
      return;
    }
    if thumb {
      code, kind, info, currentByte := ExtensionCode(stream, info, appLength, appBits);
    } else {
      kind := Jfif;
      code, info, currentByte := JfifFields(stream, info, appLength, appBits);
    }
  }

  lemma IdentifierWords(s: seq<byte>, p: nat)
    requires p + 14 <= |s| && p >= 2
    ensures HasJfifId(s, p - 2)
        <==> Be16(s, p) == 0x4A46 && (Be16(s, p + 2) == 0x4946 || Be16(s, p + 2) == 0x5858)
    ensures Be16(s, p) == 0x4A46 && Be16(s, p + 2) == 0x5858 ==> s[p + 2] == 0x58
    ensures Be16(s, p) == 0x4A46 && Be16(s, p + 2) == 0x4946 ==> s[p + 2] == 0x49
  {
  }

  /** A terminated identifier in thumbnail mode: the extension code. */
  method ExtensionCode(stream: StreamStorage, info0: ImageInfo, appLength: nat, appBits0: nat)
    returns (code: Code, kind: Kind, info: ImageInfo, currentByte: nat)
    requires stream.Valid() && stream.bitPosInByte == 0 && 16 <= appLength < 0x1_0000 && appBits0 == 56
    requires stream.readBits + 8 * appLength - 56 <= 8 * stream.streamLength
    modifies stream
    ensures stream.Valid() && stream.bitPosInByte == 0
    ensures var p := old(stream.pCurrPos);
      && p < |stream.s| && code == Fine && kind == (if stream.s[p] == 0x10 then JpegExtension else Extension)
      && currentByte == (if kind == JpegExtension then APP0 else stream.s[p])
      && stream.pCurrPos == (if kind == JpegExtension then p + 1 else p + appLength - 7)
      && stream.readBits - 8 * stream.pCurrPos == old(stream.readBits) - 8 * p
      && (kind == JpegExtension ==> stream.appnFlag) && SameGeometry(info, info0)
      && info.thumbnailType == if kind == JpegExtension then JpegThumbnail else UnsupportedThumbnail
  {
    info := info0;
    currentByte := stream.GetByte();
    stream.appnFlag := true;
    if currentByte == 0x10 {
      info := info.(thumbnailType := JpegThumbnail);
      return Fine, JpegExtension, info, APP0;
    }
    info := info.(thumbnailType := UnsupportedThumbnail);
    code := FlushRest(stream, appLength, appBits0 + 8);
    kind, stream.appnFlag := Extension, false;
  }

  /** A JFIF segment after its identifier. */
  method JfifFields(stream: StreamStorage, info0: ImageInfo, appLength: nat, appBits0: nat)
    returns (code: Code, info: ImageInfo, currentByte: nat)
    requires stream.Valid() && stream.bitPosInByte == 0 && 16 <= appLength < 0x1_0000 && appBits0 == 56
    requires stream.readBits + 8 * appLength - 56 <= 8 * stream.streamLength
    modifies stream
    ensures stream.Valid() && stream.bitPosInByte == 0
    ensures var s, p := stream.s, old(stream.pCurrPos);
      && p + 7 <= |s| && code == Fine && currentByte == s[p + 2] && stream.pCurrPos == p + appLength - 7
      && stream.readBits - 8 * stream.pCurrPos == old(stream.readBits) - 8 * p
      && SameGeometry(info, info0) && info.version == Be16(s, p) && info.xDensity == Be16(s, p + 3)
      && info.yDensity == Be16(s, p + 5) && info.units == (if s[p + 2] <= 2 then s[p + 2] else info0.units)
      && info.thumbnailType == info0.thumbnailType
  {
    var appBits := appBits0;
    var version := stream.Get2Bytes();
    appBits := appBits + 16;
    currentByte := stream.GetByte();
    info := info0.(version := version, units := if currentByte <= 2 then currentByte else info0.units);
    appBits := appBits + 8;
    var xDensity := stream.Get2Bytes();
    appBits := appBits + 16;
    var yDensity := stream.Get2Bytes();
    appBits := appBits + 16;
    info := info.(xDensity := xDensity, yDensity := yDensity);
    stream.appnFlag := true;
    code := FlushRest(stream, appLength, appBits);
    stream.appnFlag := false;
  }
}
