/** Which headers JpegDecGetImageInfo gets through, without following it from marker to marker: the checks it
    makes of its counter on the way all follow from the last. */
module InfoLaws {
  import opened Common
  import opened FrameGeometry
  import opened HeaderSyntax
  import opened InfoSegments
  import opened InfoWalker

  /** The markers before the last one, counting twice an APP0 segment that leaves FF in currentByte: the bits by
      which the counter is ahead of the cursor at the last marker. */
  function Drift(s: seq<byte>, len: nat, v: nat, h: Header): nat
    requires len <= |s| && Leads(s, len, v, h)
    decreases len - v
  {
    LastStep(s, len, v, h);
    if Final(s[v + 1]) then 0
    else
      (if HasLength(s[v + 1]) && LeavesPrefix(s, v + 2, s[v + 1], h.jfxx) then 2 else 1)
      + Drift(s, len, MarkerAfter(s, len, v), HeaderAfter(s, len, v, h))
  }

  /** A frame header is one that is taken, and a restart interval, met with the counter k bits ahead of the cursor,
      would not run past the end of the stream if it were the length of a segment. */
  predicate Taken(s: seq<byte>, len: nat, v: nat, k: nat)
    requires len <= |s| && v + 2 <= len && (IsSof(s[v + 1]) ==> WellFormedSof(s, len, v + 2))
    requires s[v + 1] == DRI ==> v + 6 <= len
  {
    var c, q := s[v + 1], v + 2;
    && (IsSof(c) ==> InfoFrame(SofAt(s, q)).Some?)
    && (c == DRI ==> 8 * (q + 2 + Be16(s, q + 2)) + k <= 8 * len)
  }

  /** All of them from v on. */
  predicate Contents(s: seq<byte>, len: nat, v: nat, k: nat, h: Header)
    requires len <= |s| && Leads(s, len, v, h)
    decreases len - v
  {
    LastStep(s, len, v, h);
    Final(s[v + 1])
    || (&& Taken(s, len, v, k)
        && Contents(s, len, MarkerAfter(s, len, v), StepsAfter(s, len, v, k, h.jfxx), HeaderAfter(s, len, v, h)))
  }

  /** With the counter k bits ahead, the last marker can be read with its code; if it is a scan's, its header, as
      the walker measures it, is one byte longer, and at least one more byte follows. */
  predicate Room(s: seq<byte>, len: nat, v: nat, h: Header, k: nat)
    requires len <= |s| && Leads(s, len, v, h)
  {
    var q := LastMarker(s, len, v, h).value.v + 2;
    if s[q - 1] == SOS then 8 * (q + Be16(s, q)) + k + 16 < 8 * len else 8 * q + k <= 8 * len
  }

  lemma LastOnly(s: seq<byte>, len: nat, v: nat, k: nat, h: Header)
    requires len <= |s| && Leads(s, len, v, h) && Final(s[v + 1])
    ensures Drift(s, len, v, h) == 0 && (InfoPasses(s, len, v, k, h) <==> Room(s, len, v, h, k))
    ensures Contents(s, len, v, k, h)
  {
    LastStep(s, len, v, h);
    Kinds(s[v + 1]);
    hide HasLength, Standalone, Final, LastMarker;
  }

  /** Room at the last marker leaves room at every marker before it. */
  lemma RoomBefore(s: seq<byte>, len: nat, v: nat, k: nat, h: Header)
    requires len <= |s| && Leads(s, len, v, h) && Room(s, len, v, h, k)
    ensures 8 * (v + 2) + k <= 8 * len
  {
  }

  lemma MarkerPassesIff(s: seq<byte>, len: nat, v: nat, k: nat, jfxx: bool)
    requires len <= |s| && 64 * len < TWO32 && k <= v && GoodMarker(s, len, v, jfxx) && !Final(s[v + 1])
    ensures var c := s[v + 1];
      MarkerPasses(s, len, v, k, jfxx) <==>
        8 * MarkerAfter(s, len, v) + k + (if c == 0xFF then 8 else 0) <= 8 * len && Taken(s, len, v, k)
  {
    if s[v + 1] == DRI && 8 * (v + 2) + k <= 8 * len {
      TooLongIs(8 * (v + 2) + k + 32, Be16(s, v + 4), len);
    }
    hide OtherProcess, WellFormedSof, TooLong;
  }

  /** One marker: where the next is and the drift by then; whether there is room for it, and whether its contents
      are taken. */
  lemma OneMarker(s: seq<byte>, len: nat, v: nat, k: nat, h: Header)
      returns (u: nat, m: nat, g: Header, room: bool, taken: bool)
    requires len <= |s| && 64 * len < TWO32 && k <= v && Leads(s, len, v, h) && !Final(s[v + 1])
    ensures v < u <= len && k <= m <= u && Leads(s, len, u, g)
    ensures forall n: nat :: Room(s, len, u, g, n) == Room(s, len, v, h, n)
    ensures InfoPasses(s, len, v, k, h) <==> room && taken && InfoPasses(s, len, u, m, g)
    ensures Contents(s, len, v, k, h) <==> taken && Contents(s, len, u, m, g)
    ensures m + Drift(s, len, u, g) == k + Drift(s, len, v, h)
    ensures 8 * (u + 2) + m <= 8 * len ==> room
  {
    hide *;
    LastStep(s, len, v, h);
    ToBeTaken(s, len, v, h.jfxx);
    MarkerPassesIff(s, len, v, k, h.jfxx);
    StepIsSmall(s, len, v, k, h.jfxx);
    Unfold(s, len, v, k, h);
    u, m, g := MarkerAfter(s, len, v), StepsAfter(s, len, v, k, h.jfxx), HeaderAfter(s, len, v, h);
    SameRoom(s, len, v, h, u, g);
    var c := s[v + 1];
    room := 8 * u + k + (if c == 0xFF then 8 else 0) <= 8 * len;
    taken := Taken(s, len, v, k);
  }

  lemma ToBeTaken(s: seq<byte>, len: nat, v: nat, jfxx: bool)
    requires len <= |s| && GoodMarker(s, len, v, jfxx)
    ensures v + 2 <= len && (IsSof(s[v + 1]) ==> WellFormedSof(s, len, v + 2)) && (s[v + 1] == DRI ==> v + 6 <= len)
  {
    hide WellFormedSof, Stopping, OtherProcess;
  }

  lemma SameRoom(s: seq<byte>, len: nat, v: nat, h: Header, u: nat, g: Header)
    requires len <= |s| && Leads(s, len, v, h) && Leads(s, len, u, g)
    requires LastMarker(s, len, u, g) == LastMarker(s, len, v, h)
    ensures forall n: nat :: Room(s, len, u, g, n) == Room(s, len, v, h, n)
  {
    hide LastMarker;
  }

  lemma Inside(s: seq<byte>, len: nat, v: nat, h: Header)
    requires len <= |s| && Leads(s, len, v, h)
    ensures v + 2 <= len
  {
  }

  lemma StepIsSmall(s: seq<byte>, len: nat, v: nat, k: nat, jfxx: bool)
    requires len <= |s| && GoodMarker(s, len, v, jfxx) && !Final(s[v + 1]) && k <= v
    ensures v < MarkerAfter(s, len, v) && k <= StepsAfter(s, len, v, k, jfxx) <= MarkerAfter(s, len, v)
  {
  }

  lemma Unfold(s: seq<byte>, len: nat, v: nat, k: nat, h: Header)
    requires len <= |s| && Leads(s, len, v, h) && !Final(s[v + 1]) && GoodMarker(s, len, v, h.jfxx)
    requires HasLength(s[v + 1]) ==> v + 4 <= len && Segment(s, len, v + 2, s[v + 1], h).Some?
    requires Leads(s, len, MarkerAfter(s, len, v), HeaderAfter(s, len, v, h))
    ensures var u, m, g := MarkerAfter(s, len, v), StepsAfter(s, len, v, k, h.jfxx), HeaderAfter(s, len, v, h);
      && (InfoPasses(s, len, v, k, h) <==> MarkerPasses(s, len, v, k, h.jfxx) && InfoPasses(s, len, u, m, g))
      && (Contents(s, len, v, k, h) <==>
           Taken(s, len, v, k) && Contents(s, len, u, m, g))
      && m + Drift(s, len, u, g) == k + Drift(s, len, v, h)
  {
    hide MarkerPasses, GoodMarker, Segment, LastMarker, Leads, InfoFrame, SofAt;
  }

  lemma {:induction false} PassesIff(s: seq<byte>, len: nat, v: nat, k: nat, h: Header)
    requires len <= |s| && 64 * len < TWO32 && k <= v && Leads(s, len, v, h)
    ensures InfoPasses(s, len, v, k, h)
       <==> Contents(s, len, v, k, h) && Room(s, len, v, h, k + Drift(s, len, v, h))
    decreases len - v
  {
    Inside(s, len, v, h);
    hide *;
    if Final(s[v + 1]) {
      LastOnly(s, len, v, k, h);
    } else {
      var u, m, g, room, taken := OneMarker(s, len, v, k, h);
      PassesIff(s, len, u, m, g);
      var n := m + Drift(s, len, u, g);
      if Room(s, len, u, g, n) {
        RoomBefore(s, len, u, n, g);
      }
    }
  }

  /** JpegDecGetImageInfo accepts headers that lead to a scan exactly when their frame and their restart intervals
      are taken and, with the drift at the scan, sixteen bits are left behind its header. */
  lemma AcceptsIff(s: seq<byte>, len: nat, h0: Header)
    requires len <= |s| && 64 * len < TWO32 && ReadHeader(s, len, 0, h0).Some?
    ensures Leads(s, len, 0, h0)
    ensures var sos := ReadHeader(s, len, 0, h0).value.sos;
      && sos + 2 <= len
      && (InfoAccepts(s, len, 0, 0, h0) <==>
           Contents(s, len, 0, 0, h0) && 8 * (sos + Be16(s, sos)) + Drift(s, len, 0, h0) + 16 < 8 * len)
  {
    ReadIsLast(s, len, 0, h0);
    AcceptsIsPasses(s, len, 0, 0, h0);
    PassesIff(s, len, 0, 0, h0);
    hide Contents, InfoAccepts, InfoPasses, LastMarker, ReadHeader, Drift, Leads;
  }
}
