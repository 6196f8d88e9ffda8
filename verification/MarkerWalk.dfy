/** The marker loop of JpegDecDecode as a walk over the bytes, on every stream: where it goes, how it ends,
    and when it never does. */
module MarkerWalk {
  import opened Common
  import opened FrameGeometry
  import opened HeaderSyntax
  import opened TableSegments
  import opened FrameReader

  /** How the search for a scan ends.  Endless is not an end: the loop goes round without changing its
      state. */
  datatype Search = AtScan(sos: nat) | Back(ret: Ret) | NoScan | Endless

  /** The case of a marker: go on, at an SOS, or return. */
  datatype Case = Next | Scan | Leave(ret: Ret)

  const NO_QUANT: QuantTables := [[], [], [], []]
  const NO_LIST: VlcTable := VlcTable([], [], 0, 0)
  const NO_VLC: VlcTables := [NO_LIST, NO_LIST, NO_LIST, NO_LIST, NO_LIST, NO_LIST, NO_LIST, NO_LIST]

  function Judged(ret: Ret): Case { if ret == Ok then Next else Leave(ret) }

  /** APP0, skipped by `FlushBits((currentBytes - 2) * 8)` in RK_U32. */
  function App0Case(s: seq<byte>, len: nat, q: nat): Case
    requires len <= |s|
  {
    if q + 2 > len then Leave(if q >= 3 then WildJump else StrmError)
    else if Be16(s, q) < 2 then Leave(WildJump)
    else if q + Be16(s, q) > len then Leave(StrmError)
    else Next
  }

  /** APPn and COM, skipped without a bound check. */
  function SkipCase(s: seq<byte>, len: nat, q: nat): Case
    requires len <= |s|
  {
    if q + 2 > len then Leave(StrmError) else if Be16(s, q) == 1 then Leave(WildJump) else Next
  }

  /** The switch on a marker code with the cursor at q.  Which tables were there before makes no difference. */
  function CaseOf(s: seq<byte>, len: nat, slice: nat, ready: bool, q: nat, code: nat, coding: nat): Case
    requires len <= |s|
  {
    if IsSof(code) then
      if !EnoughData(s, len, q) then Leave(StrmError)
      else if DecFrame(SofRead(s, len, q), slice).None? then Leave(Unsupported) else Next
    else if code == SOS then Scan
    else if code == DHT then Judged(HuffSegment(s, len, q, coding, NO_VLC).ret)
    else if code == DQT then Judged(QuantSegment(s, len, q, NO_QUANT).ret)
    else if code == EOI then Leave(if ready then FrameReady else Error)
    else if code == DRI then if q + 2 > len then Leave(StrmError) else Next
    else if code == DNL || code == TEM || OtherProcess(code) then Leave(Unsupported)
    else if code == APP0 then App0Case(s, len, q)
    else if IsApp(code) || code == COM then SkipCase(s, len, q)
    else Next
  }

  /** Where the cursor is when the switch goes on. */
  function Landing(s: seq<byte>, len: nat, q: nat, code: nat, coding: nat): nat
    requires len <= |s|
  {
    if IsSof(code) then After(len, q + 8, 3 * |SofRead(s, len, q).comps|)
    else if code == DHT then HuffSegment(s, len, q, coding, NO_VLC).pos
    else if code == DQT then QuantSegment(s, len, q, NO_QUANT).pos
    else if code == DRI then AfterWord(len, q + 2)
    else if (IsApp(code) || code == COM) && q + 2 <= len then q + if Be16(s, q) == 0 then 2 else Be16(s, q)
    else q
  }

  /** Between two rounds: the cursor, currentByte and the coding process. */
  datatype Stance = Stance(pos: nat, code: nat, coding: nat)

  datatype Round = Onward(to: Stance) | End(end: Search)

  /** The switch, and the test at the end of the loop. */
  function Switched(s: seq<byte>, len: nat, slice: nat, ready: bool, q: nat, code: nat, coding: nat): Round
    requires len <= |s|
  {
    match CaseOf(s, len, slice, ready, q, code, coding)
    case Leave(ret) => End(Back(ret))
    case Scan => End(AtScan(q))
    case Next =>
      var pos := Landing(s, len, q, code, coding);
      if pos > len then End(NoScan) else Onward(Stance(pos, code, if IsSof(code) then code else coding))
  }

  /** A round of the loop.  After a marker code FF it stands behind a prefix byte. */
  function RoundOf(s: seq<byte>, len: nat, slice: nat, ready: bool, a: Stance): Round
    requires len <= |s|
  {
    if a.code == 0xFF || (a.pos < len && s[a.pos] == 0xFF) then
      var q := if a.code == 0xFF then a.pos else a.pos + 1;
      if q < len then Switched(s, len, slice, ready, q + 1, s[q], a.coding)
      else Switched(s, len, slice, ready, q, STRM_ERROR, a.coding)
    else if a.code == STRM_ERROR then End(NoScan)
    else if a.pos < len then Onward(a.(pos := a.pos + 1))
    else End(Endless)
  }

  lemma {:induction false} QuantRunMoves(s: seq<byte>, len: nat, p: nat, t: nat, lq: nat, tables: QuantTables)
    requires len <= |s| && p <= len
    ensures p <= QuantRun(s, len, p, t, lq, tables).pos <= len
    decreases lq - t
  {
    if t < lq && ByteAt(s, len, p) / 16 == 0 && ByteAt(s, len, p) % 16 <= 3 {
      var p1 := After(len, p, 1);
      QuantRunMoves(s, len, After(len, p1, 64), t + 65, lq, tables[ByteAt(s, len, p) % 16 := BytesAt(s, len, p1, 64)]);
    }
  }

  lemma {:induction false} HuffRunMoves(s: seq<byte>, len: nat, p: nat, t: nat, lh: nat, coding: nat, tables: VlcTables)
    requires len <= |s| && p <= len
    ensures p <= HuffRun(s, len, p, t, lh, coding, tables).pos <= len
    decreases lh - t
  {
    if t < lh {
      var r := ReadHuff(s, len, p, coding, tables);
      OneMoves(s, len, p, coding, tables);
      if r.Read? {
        HuffRunMoves(s, len, r.next, t + r.count, lh, coding, r.filled);
      }
    }
  }

  lemma OneMoves(s: seq<byte>, len: nat, p: nat, coding: nat, tables: VlcTables)
    requires len <= |s| && p <= len
    ensures var r := ReadHuff(s, len, p, coding, tables); p <= (if r.Read? then r.next else r.end) <= len
  {
  }

  lemma LandsAhead(s: seq<byte>, len: nat, slice: nat, ready: bool, q: nat, code: nat, coding: nat)
    requires len <= |s| && q <= len && CaseOf(s, len, slice, ready, q, code, coding) == Next
    ensures q <= Landing(s, len, q, code, coding)
  {
    hide QuantRun, HuffRun, DecFrame, EnoughData, SofRead, OtherProcess;
    if code == DHT {
      HuffRunMoves(s, len, AfterWord(len, q), 4, WordAt(s, len, q), coding, NO_VLC);
    } else if code == DQT {
      QuantRunMoves(s, len, AfterWord(len, q), 4, WordAt(s, len, q), NO_QUANT);
    }
  }

  /** Every round that goes on reads something. */
  lemma RoundMoves(s: seq<byte>, len: nat, slice: nat, ready: bool, a: Stance)
    requires len <= |s| && a.pos <= len && RoundOf(s, len, slice, ready, a).Onward?
    ensures var b := RoundOf(s, len, slice, ready, a).to;
      a.pos < b.pos <= len || (a.pos == b.pos && a.code == 0xFF && b.code == STRM_ERROR)
  {
    hide CaseOf, Landing;
    var q := if a.code == 0xFF then a.pos else a.pos + 1;
    if a.code == 0xFF || (a.pos < len && s[a.pos] == 0xFF) {
      if q < len {
        LandsAhead(s, len, slice, ready, q + 1, s[q], a.coding);
      } else {
        Unread(s, len, slice, ready, q, a.coding);
      }
    }
  }

  /** A code that could not be read is like that of no marker. */
  lemma Unread(s: seq<byte>, len: nat, slice: nat, ready: bool, q: nat, coding: nat)
    requires len <= |s|
    ensures CaseOf(s, len, slice, ready, q, STRM_ERROR, coding) == Next
    ensures Landing(s, len, q, STRM_ERROR, coding) == q
  {
  }

  /** The whole loop. */
  function Walk(s: seq<byte>, len: nat, slice: nat, ready: bool, a: Stance): Search
    requires len <= |s| && a.pos <= len
    decreases len - a.pos, if a.code == 0xFF then 1 else 0
  {
    var r := RoundOf(s, len, slice, ready, a);
    if r.End? then r.end
    else
      RoundMoves(s, len, slice, ready, a);
      Walk(s, len, slice, ready, r.to)
  }

  // ---- The chain of segments

  /** A marker: where its prefix byte is, and the coding process known by then. */
  datatype Hop = Hop(v: nat, coding: nat)

  /** v is the first byte FF from p on. */
  predicate FirstPrefix(s: seq<byte>, len: nat, p: nat, v: nat)
    requires len <= |s|
  {
    p <= v < len && s[v] == 0xFF && forall i :: p <= i < v ==> s[i] != 0xFF
  }

  predicate NoPrefix(s: seq<byte>, len: nat, p: nat)
    requires len <= |s|
  {
    forall i :: p <= i < len ==> s[i] != 0xFF
  }

  /** The marker has a code, the decoder passes it, and its segment ends inside the stream. */
  predicate Passed(s: seq<byte>, len: nat, slice: nat, ready: bool, a: Hop)
    requires len <= |s|
  {
    && a.v + 1 < len && CaseOf(s, len, slice, ready, a.v + 2, s[a.v + 1], a.coding) == Next
    && Past(s, len, a) <= len
  }

  /** Where the next marker is looked for: behind the segment, or at a fill byte. */
  function Past(s: seq<byte>, len: nat, a: Hop): nat
    requires len <= |s| && a.v + 1 < len
  {
    if s[a.v + 1] == 0xFF then a.v + 1 else Landing(s, len, a.v + 2, s[a.v + 1], a.coding)
  }

  function CodingPast(s: seq<byte>, a: Hop): nat
    requires a.v + 1 < |s|
  {
    if IsSof(s[a.v + 1]) then s[a.v + 1] else a.coding
  }

  /** The markers from p on, each the first behind the segment of the one before, and no byte FF behind the
      last segment. */
  predicate Chain(s: seq<byte>, len: nat, slice: nat, ready: bool, p: nat, coding: nat, hops: seq<Hop>)
    requires len <= |s|
    decreases |hops|
  {
    if hops == [] then NoPrefix(s, len, p)
    else
      && hops[0].coding == coding && FirstPrefix(s, len, p, hops[0].v) && Passed(s, len, slice, ready, hops[0])
      && Chain(s, len, slice, ready, Past(s, len, hops[0]), CodingPast(s, hops[0]), hops[1..])
  }

  /** Standing behind a prefix byte is standing before it. */
  lemma BehindPrefix(s: seq<byte>, len: nat, slice: nat, ready: bool, v: nat, code: nat, coding: nat)
    requires len <= |s| && v < len && s[v] == 0xFF && code != 0xFF
    ensures RoundOf(s, len, slice, ready, Stance(v + 1, 0xFF, coding))
         == RoundOf(s, len, slice, ready, Stance(v, code, coding))
  {
  }

  lemma SameWalk(s: seq<byte>, len: nat, slice: nat, ready: bool, a: Stance, b: Stance)
    requires len <= |s| && a.pos <= len && b.pos <= len
    requires RoundOf(s, len, slice, ready, a) == RoundOf(s, len, slice, ready, b)
    ensures Walk(s, len, slice, ready, a) == Walk(s, len, slice, ready, b)
  {
    hide RoundOf;
  }

  /** Up to the next prefix byte the rounds only move the cursor, whatever marker was passed last. */
  lemma {:induction false} ToPrefix(s: seq<byte>, len: nat, slice: nat, ready: bool, p: nat, v: nat, code: nat,
                                    coding: nat)
    requires len <= |s| && FirstPrefix(s, len, p, v) && code != 0xFF && code != STRM_ERROR
    ensures Walk(s, len, slice, ready, Stance(p, code, coding)) == Walk(s, len, slice, ready, Stance(v, 0, coding))
    decreases v - p
  {
    if p < v {
      ToPrefix(s, len, slice, ready, p + 1, v, code, coding);
      assert RoundOf(s, len, slice, ready, Stance(p, code, coding)) == Onward(Stance(p + 1, code, coding));
    } else {
      SameWalk(s, len, slice, ready, Stance(p, code, coding), Stance(v, 0, coding));
    }
  }

  /** A walk at a prefix byte: on to behind the segment if the marker is passed, and else to an end. */
  lemma AtPrefix(s: seq<byte>, len: nat, slice: nat, ready: bool, a: Hop)
    requires len <= |s| && a.v < len && s[a.v] == 0xFF
    ensures Passed(s, len, slice, ready, a) ==>
      && a.v < Past(s, len, a)
      && Walk(s, len, slice, ready, Stance(a.v, 0, a.coding))
         == Walk(s, len, slice, ready, Stance(Past(s, len, a), 0, CodingPast(s, a)))
    ensures !Passed(s, len, slice, ready, a) ==> Walk(s, len, slice, ready, Stance(a.v, 0, a.coding)) != Endless
  {
    hide CaseOf, Landing;
    var at := Stance(a.v, 0, a.coding);
    if a.v + 1 == len {
      Unread(s, len, slice, ready, len, a.coding);
      assert RoundOf(s, len, slice, ready, at) == Onward(Stance(len, STRM_ERROR, a.coding));
    } else {
      var code := s[a.v + 1];
      if CaseOf(s, len, slice, ready, a.v + 2, code, a.coding) == Next {
        LandsAhead(s, len, slice, ready, a.v + 2, code, a.coding);
        if code == 0xFF {
          FillByte(s, len, slice, ready, a.v + 2, a.coding);
          BehindPrefix(s, len, slice, ready, a.v + 1, 0, a.coding);
          SameWalk(s, len, slice, ready, Stance(a.v + 2, 0xFF, a.coding), Stance(a.v + 1, 0, a.coding));
        } else if Landing(s, len, a.v + 2, code, a.coding) <= len {
          LastCodeIsNothing(s, len, slice, ready, Past(s, len, a), code, CodingPast(s, a));
        }
      }
    }
  }

  lemma FillByte(s: seq<byte>, len: nat, slice: nat, ready: bool, q: nat, coding: nat)
    requires len <= |s|
    ensures CaseOf(s, len, slice, ready, q, 0xFF, coding) == Next && Landing(s, len, q, 0xFF, coding) == q
  {
  }

  lemma LastCodeIsNothing(s: seq<byte>, len: nat, slice: nat, ready: bool, p: nat, code: nat, coding: nat)
    requires len <= |s| && p <= len && code != 0xFF && code != STRM_ERROR
    ensures Walk(s, len, slice, ready, Stance(p, code, coding)) == Walk(s, len, slice, ready, Stance(p, 0, coding))
  {
    var v := NextPrefix(s, len, p);
    if FirstPrefix(s, len, p, v) {
      ToPrefix(s, len, slice, ready, p, v, code, coding);
      ToPrefix(s, len, slice, ready, p, v, 0, coding);
    } else {
      WithoutPrefix(s, len, slice, ready, Stance(p, code, coding));
      WithoutPrefix(s, len, slice, ready, Stance(p, 0, coding));
    }
  }

  lemma {:induction false} NextPrefix(s: seq<byte>, len: nat, p: nat) returns (v: nat)
    requires len <= |s| && p <= len
    ensures NoPrefix(s, len, p) || FirstPrefix(s, len, p, v)
    decreases len - p
  {
    v := p;
    if p < len && s[p] != 0xFF {
      v := NextPrefix(s, len, p + 1);
    }
  }

  lemma {:induction false} EndlessChain(s: seq<byte>, len: nat, slice: nat, ready: bool, p: nat, coding: nat)
      returns (hops: seq<Hop>)
    requires len <= |s| && p <= len && Walk(s, len, slice, ready, Stance(p, 0, coding)) == Endless
    ensures Chain(s, len, slice, ready, p, coding, hops)
    decreases len - p
  {
    hide Walk, Passed, Past;
    hops := [];
    var v := NextPrefix(s, len, p);
    if !NoPrefix(s, len, p) {
      ToPrefix(s, len, slice, ready, p, v, 0, coding);
      AtPrefix(s, len, slice, ready, Hop(v, coding));
      PassedInside(s, len, slice, ready, Hop(v, coding));
      var rest := EndlessChain(s, len, slice, ready, Past(s, len, Hop(v, coding)), CodingPast(s, Hop(v, coding)));
      hops := [Hop(v, coding)] + rest;
      assert hops[1..] == rest;
    }
  }

  lemma PassedInside(s: seq<byte>, len: nat, slice: nat, ready: bool, a: Hop)
    requires len <= |s| && Passed(s, len, slice, ready, a)
    ensures a.v + 1 < len && Past(s, len, a) <= len
  {
  }

  lemma {:induction false} ChainEndless(s: seq<byte>, len: nat, slice: nat, ready: bool, p: nat, coding: nat,
                                        hops: seq<Hop>)
    requires len <= |s| && p <= len && Chain(s, len, slice, ready, p, coding, hops)
    ensures Walk(s, len, slice, ready, Stance(p, 0, coding)) == Endless
    decreases |hops|
  {
    hide Walk, Past;
    if hops == [] {
      WithoutPrefix(s, len, slice, ready, Stance(p, 0, coding));
    } else {
      ToPrefix(s, len, slice, ready, p, hops[0].v, 0, coding);
      AtPrefix(s, len, slice, ready, hops[0]);
      ChainEndless(s, len, slice, ready, Past(s, len, hops[0]), CodingPast(s, hops[0]), hops[1..]);
    }
  }

  /** The loop goes round for ever if and only if the segments lead from marker to marker, all of them with a
      code and passed, and leave no byte FF behind the last. */
  lemma EndlessIff(s: seq<byte>, len: nat, slice: nat, ready: bool, coding: nat)
    requires len <= |s|
    ensures Walk(s, len, slice, ready, Stance(0, 0, coding)) == Endless
       <==> exists hops :: Chain(s, len, slice, ready, 0, coding, hops)
  {
    hide Walk, Chain;
    if Walk(s, len, slice, ready, Stance(0, 0, coding)) == Endless {
      var hops := EndlessChain(s, len, slice, ready, 0, coding);
    }
    if hops :| Chain(s, len, slice, ready, 0, coding, hops) {
      ChainEndless(s, len, slice, ready, 0, coding, hops);
    }
  }

  /** So it does on every stream without a byte FF, */
  lemma {:induction false} WithoutPrefix(s: seq<byte>, len: nat, slice: nat, ready: bool, a: Stance)
    requires len <= |s| && a.pos <= len && a.code != 0xFF && a.code != STRM_ERROR
    requires forall i :: a.pos <= i < len ==> s[i] != 0xFF
    ensures Walk(s, len, slice, ready, a) == Endless
    decreases len - a.pos
  {
    if a.pos < len {
      WithoutPrefix(s, len, slice, ready, a.(pos := a.pos + 1));
    }
  }

  /** and on one of an SOI marker and nothing else that is a marker. */
  lemma StartOfImageOnly(s: seq<byte>, len: nat, slice: nat, ready: bool, coding: nat)
    requires 2 <= len <= |s| && s[0] == 0xFF && s[1] == 0xD8 && forall i :: 2 <= i < len ==> s[i] != 0xFF
    ensures Walk(s, len, slice, ready, Stance(0, 0, coding)) == Endless
  {
    WithoutPrefix(s, len, slice, ready, Stance(2, 0xD8, coding));
    assert RoundOf(s, len, slice, ready, Stance(0, 0, coding)) == Onward(Stance(2, 0xD8, coding));
  }

  // ---- Tables make no difference

  lemma {:induction false} QuantRunSame(s: seq<byte>, len: nat, p: nat, t: nat, lq: nat, a: QuantTables, b: QuantTables)
    requires len <= |s|
    ensures var x, y := QuantRun(s, len, p, t, lq, a), QuantRun(s, len, p, t, lq, b); x.ret == y.ret && x.pos == y.pos
    decreases lq - t
  {
    var k := ByteAt(s, len, p);
    if t < lq && k / 16 == 0 && k % 16 <= 3 {
      var p1 := After(len, p, 1);
      var table := BytesAt(s, len, p1, 64);
      QuantRunSame(s, len, After(len, p1, 64), t + 65, lq, a[k % 16 := table], b[k % 16 := table]);
    }
  }

  lemma ReadHuffSame(s: seq<byte>, len: nat, p: nat, coding: nat, a: VlcTables, b: VlcTables)
    requires len <= |s|
    ensures match ReadHuff(s, len, p, coding, a)
      case Refused(ret, end) => ReadHuff(s, len, p, coding, b) == Refused(ret, end)
      case Read(next, count, _) =>
        var y := ReadHuff(s, len, p, coding, b); y.Read? && y.next == next && y.count == count
  {
  }

  lemma {:induction false} HuffRunSame(s: seq<byte>, len: nat, p: nat, t: nat, lh: nat, coding: nat,
                                       a: VlcTables, b: VlcTables)
    requires len <= |s|
    ensures var x, y := HuffRun(s, len, p, t, lh, coding, a), HuffRun(s, len, p, t, lh, coding, b);
      x.ret == y.ret && x.pos == y.pos
    decreases lh - t
  {
    hide ReadHuff;
    if t < lh {
      ReadHuffSame(s, len, p, coding, a, b);
      var x, y := ReadHuff(s, len, p, coding, a), ReadHuff(s, len, p, coding, b);
      if x.Read? && x.count > 0 {
        HuffRunSame(s, len, x.next, t + x.count, lh, coding, x.filled, y.filled);
      }
    }
  }

  lemma TablesDoNotMatter(s: seq<byte>, len: nat, q: nat, coding: nat, quant: QuantTables, vlc: VlcTables)
    requires len <= |s|
    ensures var a, b := QuantSegment(s, len, q, quant), QuantSegment(s, len, q, NO_QUANT);
      a.ret == b.ret && a.pos == b.pos
    ensures var a, b := HuffSegment(s, len, q, coding, vlc), HuffSegment(s, len, q, coding, NO_VLC);
      a.ret == b.ret && a.pos == b.pos
  {
    QuantRunSame(s, len, AfterWord(len, q), 4, WordAt(s, len, q), quant, NO_QUANT);
    HuffRunSame(s, len, AfterWord(len, q), 4, WordAt(s, len, q), coding, vlc, NO_VLC);
  }
}
