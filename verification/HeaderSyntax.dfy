/** The headers of a JPEG stream up to its first scan, read straight from the bytes with the segment
    lengths of sections B.1.1 and B.2 of ITU-T T.81: the reference both marker walkers are held to. */
module HeaderSyntax {
  import opened Common
  import opened FrameGeometry
  import opened TableSegments

  const DHT: nat := 0xC4
  const SOS: nat := 0xDA
  const DQT: nat := 0xDB
  const DNL: nat := 0xDC
  const DRI: nat := 0xDD
  const EOI: nat := 0xD9
  const APP0: nat := 0xE0
  const COM: nat := 0xFE
  const TEM: nat := 0x01

  /** Coding processes both walkers refuse (the enum of jpegdecmarkers.h, where SOF9 is C8). */
  predicate OtherProcess(c: nat) {
    c in {0xC1, 0xC3, 0xC5, 0xC6, 0xC7, 0xC8, 0xCA, 0xCB, 0xCD, 0xCE, 0xCF, 0xCC, 0xDE}
  }

  predicate IsSof(c: nat) { c == SOF0 || c == SOF2 }

  predicate IsApp(c: nat) { 0xE0 <= c <= 0xEF }

  predicate HasLength(c: nat) { IsSof(c) || c == DHT || c == DQT || c == DRI || IsApp(c) || c == COM }

  /** Markers both walkers pass without reading parameters. */
  predicate Standalone(c: nat) {
    !HasLength(c) && !OtherProcess(c) && c != SOS && c != DNL && c != EOI && c != TEM && c != 0xFF
  }

  /** The frame header at its length field. */
  function SofAt(s: seq<byte>, q: nat): (f: Sof)
    requires q + 8 <= |s| && q + 8 + 3 * s[q + 7] as int <= |s|
    ensures WellTyped(f) && |f.comps| == s[q + 7]
  {
    var comps := seq(s[q + 7], i requires 0 <= i < s[q + 7] as int =>
      Component(s[q + 8 + 3 * i], s[q + 9 + 3 * i] as int / 16, s[q + 9 + 3 * i] as int % 16, s[q + 10 + 3 * i]));
    Sof(Be16(s, q), s[q + 2], Be16(s, q + 3), Be16(s, q + 5), comps)
  }

  /** Table B.2: factors up to 4, quantization selectors 0 to 3, and the length to match.  Zero factors,
      which it rules out, are let pass, because the walkers differ on them; only an identifier FF must not
      seem to be followed by a stuffed zero. */
  predicate WellFormedSof(s: seq<byte>, len: nat, q: nat)
    requires len <= |s|
  {
    && q + 8 <= len && (s[q + 7] == 1 || s[q + 7] == 3)
    && Be16(s, q) == 8 + 3 * s[q + 7] as int && q + 8 + 3 * s[q + 7] as int <= len
    && forall i :: 0 <= i < s[q + 7] ==>
      && s[q + 9 + 3 * i] <= 0x44 && s[q + 9 + 3 * i] as int % 16 <= 4 && s[q + 10 + 3 * i] < 4
      && !(s[q + 8 + 3 * i] == 0xFF && s[q + 9 + 3 * i] == 0)
  }

  /** Whole 8-bit tables between a and b. */
  predicate WellFormedQuant(s: seq<byte>, a: nat, b: nat)
    requires b <= |s|
    decreases b - a
  {
    a == b || (a + 65 <= b && s[a] < 4 && WellFormedQuant(s, a + 65, b))
  }

  predicate WellFormedHuff(s: seq<byte>, a: nat, b: nat, coding: nat)
    requires b <= |s|
    decreases b - a
  {
    a == b
    || (a + 17 <= b && Allowed(coding, s[a] as int / 16, s[a] as int % 16)
        && var n := Total(s[a + 1..a + 17]);
           a + 17 + n <= b && WellFormedHuff(s, a + 17 + n, b, coding))
  }

  /** An APP0 segment with a JFIF or JFXX identifier. */
  predicate HasJfifId(s: seq<byte>, q: nat)
    requires q + 16 <= |s|
  {
    s[q + 2] == 0x4A && s[q + 3] == 0x46
    && ((s[q + 4] == 0x49 && s[q + 5] == 0x46) || (s[q + 4] == 0x58 && s[q + 5] == 0x58))
  }

  /** An APP0 segment that JpegDecGetImageInfo takes for a JPEG thumbnail: a JFXX one with extension code
      10, or, after any JFXX segment, a JFIF one whose major version is 10. */
  predicate TakenForThumbnail(s: seq<byte>, q: nat, jfxx: bool)
    requires q + 16 <= |s|
  {
    HasJfifId(s, q) && s[q + 6] == 0 && (jfxx || s[q + 4] == 0x58) && s[q + 7] == 0x10
  }

  /** What the headers read so far amount to; jfxx tells whether one of them was a JFXX segment. */
  datatype Header = Header(sos: nat, coding: nat, sof: Option<nat>, ri: Option<nat>, jfxx: bool,
                           quant: QuantTables, vlc: VlcTables)

  /** A marker segment of code c at its length field; None if it is not well formed.  A stream has one
      frame header. */
  function Segment(s: seq<byte>, len: nat, q: nat, c: nat, h: Header): Option<Header>
    requires len <= |s| && q + 2 <= len
  {
    var l := Be16(s, q);
    if l < 2 || q + l > len then None
    else if IsSof(c) then
      if h.sof.None? && WellFormedSof(s, len, q) then Some(h.(coding := c, sof := Some(q))) else None
    else if c == DQT then
      if WellFormedQuant(s, q + 2, q + l) then Some(h.(quant := QuantSegment(s, len, q, h.quant).tables)) else None
    else if c == DHT then
      if WellFormedHuff(s, q + 2, q + l, h.coding)
      then Some(h.(vlc := HuffSegment(s, len, q, h.coding, h.vlc).tables)) else None
    else if c == DRI then
      if l == 4 then Some(h.(ri := Some(Be16(s, q + 2)))) else None
    else if c == APP0 && l >= 16 then
      if TakenForThumbnail(s, q, h.jfxx) then None
      else Some(h.(jfxx := h.jfxx || (HasJfifId(s, q) && s[q + 4] == 0x58)))
    else Some(h)
  }

  /** Markers that end the headers, or at which a walker stops. */
  predicate Final(c: nat) { c != 0xFF && !HasLength(c) && !Standalone(c) }

  /** These are SOS, EOI, TEM, DNL, and the processes that are refused.  SOF9 of Table B.1, C9, is not one of
      them. */
  lemma FinalCodes(c: nat)
    ensures Final(c) <==>
      c in {0xDA, 0xD9, 0x01, 0xDC, 0xC1, 0xC3, 0xC5, 0xC6, 0xC7, 0xC8, 0xCA, 0xCB, 0xCC, 0xCD, 0xCE, 0xCF, 0xDE}
    ensures HasLength(c) <==> c in {0xC0, 0xC2, 0xC4, 0xDB, 0xDD, 0xFE} || 0xE0 <= c <= 0xEF
  {
  }

  /** Every code is of one kind. */
  lemma Kinds(c: nat)
    ensures HasLength(c) ==> c != 0xFF && c != SOS && !Standalone(c) && !Final(c)
    ensures Standalone(c) ==> c != 0xFF && c != SOS && !Final(c)
    ensures Final(c) <==> c != 0xFF && !HasLength(c) && !Standalone(c)
    ensures Final(SOS)
  {
  }

  /** A marker and the headers before it. */
  datatype Stop = Stop(v: nat, h: Header)

  /** The first of these that well-formed headers from p on lead to. */
  function LastMarker(s: seq<byte>, len: nat, p: nat, h: Header): (r: Option<Stop>)
    requires len <= |s|
    ensures r.Some? ==> p + 2 <= r.value.v + 2 <= len && s[r.value.v] == 0xFF && Final(s[r.value.v + 1])
    decreases len - p
  {
    if p + 2 > len || s[p] != 0xFF then None
    else
      var c, q := s[p + 1], p + 2;
      if c == 0xFF then LastMarker(s, len, p + 1, h)
      else if Standalone(c) then LastMarker(s, len, q, h)
      else if !HasLength(c) then Some(Stop(p, h))
      else if q + 2 > len then None
      else match Segment(s, len, q, c, h)
        case None => None
        case Some(g) => LastMarker(s, len, q + Be16(s, q), g)
  }

  /** The headers from p on; None unless they are well formed and lead to an SOS marker.  The field sos
      is the index of the length field of its header. */
  function ReadHeader(s: seq<byte>, len: nat, p: nat, h: Header): (r: Option<Header>)
    requires len <= |s|
    ensures r.Some? ==> p + 4 <= r.value.sos + 2 <= len
    decreases len - p
  {
    if p + 4 > len || s[p] != 0xFF then None
    else
      var c, q := s[p + 1], p + 2;
      if c == 0xFF then ReadHeader(s, len, p + 1, h)
      else if c == SOS then if Be16(s, q) >= 2 then Some(h.(sos := q)) else None
      else if Standalone(c) then ReadHeader(s, len, q, h)
      else if !HasLength(c) then None
      else match Segment(s, len, q, c, h)
        case None => None
        case Some(g) => ReadHeader(s, len, q + Be16(s, q), g)
  }

  /** An SOS marker is one of those, with a scan header of some length. */
  lemma {:induction false} ReadIsLast(s: seq<byte>, len: nat, p: nat, h: Header)
    requires len <= |s| && ReadHeader(s, len, p, h).Some?
    ensures var r, last := ReadHeader(s, len, p, h).value, LastMarker(s, len, p, h);
      last.Some? && r == last.value.h.(sos := last.value.v + 2) && s[last.value.v + 1] == SOS
    decreases len - p
  {
    var q, g := BothStep(s, len, p, h);
    if s[p + 1] != SOS {
      hide *;
      ReadIsLast(s, len, q, g);
    }
  }

  /** A step of both readers. */
  lemma BothStep(s: seq<byte>, len: nat, p: nat, h: Header) returns (q: nat, g: Header)
    requires len <= |s| && ReadHeader(s, len, p, h).Some?
    ensures p + 2 <= |s|
    ensures if s[p + 1] == SOS then
              && ReadHeader(s, len, p, h) == Some(h.(sos := p + 2))
              && LastMarker(s, len, p, h) == Some(Stop(p, h))
            else
              && p < q <= len && ReadHeader(s, len, q, g) == ReadHeader(s, len, p, h)
              && LastMarker(s, len, q, g) == LastMarker(s, len, p, h)
  {
    var c := s[p + 1];
    Kinds(c);
    q, g := p + 2, h;
    if c == 0xFF {
      q := p + 1;
    } else if HasLength(c) {
      SegmentLength(s, len, p + 2, c, h);
      q, g := p + 2 + Be16(s, p + 2), Segment(s, len, p + 2, c, h).value;
    }
    hide Segment, HasLength, Standalone, Final;
  }

  lemma SegmentLength(s: seq<byte>, len: nat, q: nat, c: nat, h: Header)
    requires len <= |s| && q + 2 <= len
    ensures Segment(s, len, q, c, h).Some? ==> 2 <= Be16(s, q) <= len - q
  {
  }
}
