/** The DQT and DHT segments: what the parsers of jpegdechdrs.c do on any bytes, the encoding of
    sections B.2.4.1 and B.2.4.2 of ITU-T T.81, and the round trip between them. */
module TableSegments {
  import opened Common

  const SOF0: nat := 0xC0
  const SOF2: nat := 0xC2

  // ---- reading bytes from a stream of length len whose counter is in step with the cursor

  function ByteAt(s: seq<byte>, len: nat, p: nat): nat
    requires len <= |s|
  {
    if p < len then s[p] else STRM_ERROR
  }

  /** The values of n calls of GetByte. */
  function BytesAt(s: seq<byte>, len: nat, p: nat, n: nat): (r: seq<nat>)
    requires len <= |s|
    ensures |r| == n && forall i :: 0 <= i < n ==> r[i] == ByteAt(s, len, p + i)
  {
    seq<nat>(n, i requires 0 <= i < n => ByteAt(s, len, p + i))
  }

  /** Cursor after n calls of GetByte. */
  function After(len: nat, p: nat, n: nat): nat {
    if p + n <= len then p + n else Max(p, len)
  }

  lemma AfterNothing(len: nat, p: nat)
    ensures After(len, p, 0) == p
  {
  }

  lemma AfterAdds(len: nat, p: nat, k: nat, i: nat)
    ensures After(len, After(len, p, k), i) == After(len, p, k + i)
  {
  }

  lemma AfterReads(s: seq<byte>, len: nat, p: nat, k: nat, i: nat)
    requires len <= |s|
    ensures ByteAt(s, len, After(len, p, k) + i) == ByteAt(s, len, p + k + i)
  {
  }

  function WordAt(s: seq<byte>, len: nat, p: nat): nat
    requires len <= |s|
  {
    if p + 2 <= len then Be16(s, p) else STRM_ERROR
  }

  function AfterWord(len: nat, p: nat): nat {
    if p + 2 <= len then p + 2 else p
  }

  // ---- DQT

  type QuantTables = q: seq<seq<nat>> | |q| == 4 witness [[], [], [], []]

  datatype QuantEnd = QuantEnd(ret: Ret, pos: nat, tables: QuantTables)

  /** The table loop, with t bytes of the lq announced ones counted. */
  function QuantRun(s: seq<byte>, len: nat, p: nat, t: nat, lq: nat, tables: QuantTables): QuantEnd
    requires len <= |s|
    decreases lq - t
  {
    if t >= lq then QuantEnd(Ok, p, tables)
    else
      var b, p1 := ByteAt(s, len, p), After(len, p, 1);
      if b / 16 != 0 || b % 16 > 3 then QuantEnd(Unsupported, p1, tables)
      else QuantRun(s, len, After(len, p1, 64), t + 65, lq, tables[b % 16 := BytesAt(s, len, p1, 64)])
  }

  /** The segment: the length check asks for two bytes more than the segment has, and the counter
      starts at 4. */
  function QuantSegment(s: seq<byte>, len: nat, p: nat, tables: QuantTables): QuantEnd
    requires len <= |s|
  {
    var lq, p1 := WordAt(s, len, p), AfterWord(len, p);
    if (p1 + lq) % TWO32 > len then QuantEnd(StrmError, p1, tables)
    else QuantRun(s, len, p1, 4, lq, tables)
  }

  datatype QuantTable = QuantTable(tq: nat, q: seq<byte>)

  predicate ValidQuant(t: QuantTable) { t.tq < 4 && |t.q| == 64 }

  predicate AllQuant(ts: seq<QuantTable>) { forall i :: 0 <= i < |ts| ==> ValidQuant(ts[i]) }

  function EncodeQuant(ts: seq<QuantTable>): (r: seq<byte>)
    requires AllQuant(ts)
    ensures |r| == 65 * |ts|
  {
    if ts == [] then [] else [ts[0].tq] + ts[0].q + EncodeQuant(ts[1..])
  }

  function Word(n: nat): seq<byte>
    requires n < 0x1_0000
  {
    [n / 256, n % 256]
  }

  /** The tables of a list, sent one after the other. */
  function Send(ts: seq<QuantTable>, tables: QuantTables): QuantTables
    requires AllQuant(ts)
  {
    if ts == [] then tables else Send(ts[1..], tables[ts[0].tq := ts[0].q])
  }

  /** s has the bytes e at index p. */
  predicate Holds(s: seq<byte>, p: nat, e: seq<byte>) {
    p + |e| <= |s| && s[p..p + |e|] == e
  }

  lemma HoldsSplit(s: seq<byte>, p: nat, x: seq<byte>, y: seq<byte>)
    requires Holds(s, p, x + y)
    ensures Holds(s, p, x) && Holds(s, p + |x|, y)
  {
    assert x == (x + y)[..|x|] && y == (x + y)[|x|..];
  }

  /** Reading where the bytes e are held gives e. */
  lemma BytesHeld(s: seq<byte>, len: nat, p: nat, e: seq<byte>)
    requires len <= |s| && p + |e| <= len && Holds(s, p, e)
    ensures BytesAt(s, len, p, |e|) == e
    ensures e != [] ==> s[p] == e[0]
  {
    forall i | 0 <= i < |e| ensures BytesAt(s, len, p, |e|)[i] == e[i] {
      assert s[p..p + |e|][i] == e[i];
    }
  }

  lemma {:induction false} QuantRunReads(s: seq<byte>, len: nat, p: nat, t: nat, lq: nat,
                                         ts: seq<QuantTable>, tables: QuantTables)
    requires len <= |s| && AllQuant(ts) && Holds(s, p, EncodeQuant(ts)) && p + 65 * |ts| <= len
    requires t + 65 * |ts| == lq + 2
    ensures QuantRun(s, len, p, t, lq, tables) == QuantEnd(Ok, p + 65 * |ts|, Send(ts, tables))
    decreases |ts|
  {
    if ts != [] {
      var id, q, rest := [ts[0].tq], ts[0].q, EncodeQuant(ts[1..]);
      HoldsSplit(s, p, id + q, rest);
      HoldsSplit(s, p, id, q);
      BytesHeld(s, len, p, id);
      BytesHeld(s, len, p + 1, q);
      QuantRunReads(s, len, p + 65, t + 65, lq, ts[1..], tables[ts[0].tq := ts[0].q]);
    }
  }

  /** A DQT segment with these tables is read to its last byte and every table is stored, exactly when
      two more bytes of stream follow the segment. */
  lemma QuantRoundTrip(s: seq<byte>, len: nat, p: nat, ts: seq<QuantTable>, tables: QuantTables)
    requires len <= |s| < TWO32 - 0x1_0000 && AllQuant(ts) && 2 + 65 * |ts| < 0x1_0000
    requires Holds(s, p, Word(2 + 65 * |ts|) + EncodeQuant(ts)) && p + 2 + 65 * |ts| <= len
    ensures var r := QuantSegment(s, len, p, tables);
      if p + 4 + 65 * |ts| <= len then r == QuantEnd(Ok, p + 2 + 65 * |ts|, Send(ts, tables))
      else r.ret == StrmError && r.tables == tables
  {
    hide QuantRun, Send, EncodeQuant, Holds, AllQuant;
    var lq := 2 + 65 * |ts|;
    HoldsSplit(s, p, Word(lq), EncodeQuant(ts));
    WordHeld(s, len, p, lq);
    if p + 4 + 65 * |ts| <= len {
      QuantRunReads(s, len, p + 2, 4, lq, ts, tables);
    }
  }

  lemma WordHeld(s: seq<byte>, len: nat, p: nat, n: nat)
    requires n < 0x1_0000 && len <= |s| && p + 2 <= len && Holds(s, p, Word(n))
    ensures WordAt(s, len, p) == n
  {
    assert s[p..p + 2][0] == n / 256 && s[p..p + 2][1] == n % 256;
  }

  /** A destination no table names keeps its table. */
  lemma {:induction false} SendSkips(ts: seq<QuantTable>, tables: QuantTables, k: nat)
    requires AllQuant(ts) && k < 4 && forall i :: 0 <= i < |ts| ==> ts[i].tq != k
    ensures Send(ts, tables)[k] == tables[k]
    decreases |ts|
  {
    if ts != [] {
      SendSkips(ts[1..], tables[ts[0].tq := ts[0].q], k);
    }
  }

  /** A destination ends with the last table sent to it. */
  lemma {:induction false} SendKeepsLast(ts: seq<QuantTable>, tables: QuantTables, i: nat)
    requires AllQuant(ts) && i < |ts| && forall j :: i < j < |ts| ==> ts[j].tq != ts[i].tq
    ensures Send(ts, tables)[ts[i].tq] == ts[i].q
    decreases |ts|
  {
    var rest, next := ts[1..], tables[ts[0].tq := ts[0].q];
    if i > 0 {
      SendKeepsLast(rest, next, i - 1);
    } else {
      SendSkips(rest, next, ts[i].tq);
    }
  }

  /** A header byte that is not one of 0 to 3 (16-bit tables among them), behind any tables that are read,
      ends the segment; what came before it has been stored. */
  lemma {:induction false} QuantStops(s: seq<byte>, len: nat, p: nat, t: nat, lq: nat,
                                      ts: seq<QuantTable>, tables: QuantTables)
    requires len <= |s| && AllQuant(ts) && Holds(s, p, EncodeQuant(ts)) && t + 65 * |ts| < lq
    requires p + 65 * |ts| < len && s[p + 65 * |ts|] > 3
    ensures var r := QuantRun(s, len, p, t, lq, tables); r.ret == Unsupported && r.tables == Send(ts, tables)
    decreases |ts|
  {
    if ts != [] {
      var id, q, rest := [ts[0].tq], ts[0].q, EncodeQuant(ts[1..]);
      HoldsSplit(s, p, id + q, rest);
      HoldsSplit(s, p, id, q);
      BytesHeld(s, len, p, id);
      BytesHeld(s, len, p + 1, q);
      QuantStops(s, len, p + 65, t + 65, lq, ts[1..], tables[ts[0].tq := ts[0].q]);
    }
  }

  // ---- DHT

  /** bits has 16 entries; start and last are the first and last used code lengths. */
  datatype VlcTable = VlcTable(bits: seq<nat>, vals: seq<nat>, start: nat, last: nat)

  type VlcTables = q: seq<VlcTable> | |q| == 8 witness seq(8, _ => VlcTable([], [], 0, 0))

  datatype HuffEnd = HuffEnd(ret: Ret, pos: nat, tables: VlcTables)

  function Total(bits: seq<nat>): nat {
    if bits == [] then 0 else bits[0] + Total(bits[1..])
  }

  /** First used code length, or the old value when the list is all zero. */
  function FirstUsed(bits: seq<nat>, i: nat, old_: nat): nat
    requires i <= |bits|
    decreases |bits| - i
  {
    if i == |bits| then old_ else if bits[i] != 0 then i else FirstUsed(bits, i + 1, old_)
  }

  function LastUsed(bits: seq<nat>, n: nat, old_: nat): nat
    requires n <= |bits|
  {
    if n == 0 then old_ else if bits[n - 1] != 0 then n else LastUsed(bits, n - 1, old_)
  }

  function Filled(bits: seq<nat>, vals: seq<nat>, was: VlcTable): VlcTable {
    VlcTable(bits, vals, FirstUsed(bits, 0, was.start), LastUsed(bits, |bits|, was.last))
  }

  /** Destinations a table header byte may name: class 0 or 1, identifier 0 or 1 for baseline frames and
      0 to 3 otherwise. */
  predicate HuffHeader(coding: nat, b: nat) {
    b / 16 <= 1 && b % 16 <= if coding == SOF0 then 1 else 3
  }

  /** Slot of a destination: DC tables first. */
  function Slot(b: nat): nat { b / 16 * 4 + b % 16 }

  /** One table: refused, or read with the given number of bytes. */
  datatype HuffOne = Refused(ret: Ret, end: nat) | Read(next: nat, count: nat, filled: VlcTables)

  /** A table length of 2^30 words or more, which unreadable BITS entries can add up to, overflows the
      allocation. */
  function ReadHuff(s: seq<byte>, len: nat, p: nat, coding: nat, tables: VlcTables): (r: HuffOne)
    requires len <= |s|
    ensures r.Read? ==> r.count >= 17
  {
    var b, p1 := ByteAt(s, len, p), After(len, p, 1);
    if !HuffHeader(coding, b) then Refused(Unsupported, p1)
    else
      var bits, p2 := BytesAt(s, len, p1, 16), After(len, p1, 16);
      var n := Total(bits) % TWO32;
      if n >= 0x4000_0000 then Refused(WildJump, p2)
      else Read(After(len, p2, n), 17 + n,
                tables[Slot(b) := Filled(bits, BytesAt(s, len, p2, n), tables[Slot(b)])])
  }

  /** The table loop, with t bytes of the lh announced ones counted. */
  function HuffRun(s: seq<byte>, len: nat, p: nat, t: nat, lh: nat, coding: nat, tables: VlcTables): HuffEnd
    requires len <= |s|
    decreases lh - t
  {
    if t >= lh then HuffEnd(Ok, p, tables)
    else match ReadHuff(s, len, p, coding, tables)
      case Refused(ret, end) => HuffEnd(ret, end, tables)
      case Read(next, count, filled) => HuffRun(s, len, next, t + count, lh, coding, filled)
  }

  function HuffSegment(s: seq<byte>, len: nat, p: nat, coding: nat, tables: VlcTables): HuffEnd
    requires len <= |s|
  {
    var lh, p1 := WordAt(s, len, p), AfterWord(len, p);
    if (p1 + lh) % TWO32 > len then HuffEnd(StrmError, p1, tables)
    else HuffRun(s, len, p1, 4, lh, coding, tables)
  }

  datatype HuffTable = HuffTable(dest: nat, bits: seq<byte>, vals: seq<byte>)

  predicate ValidHuff(coding: nat, t: HuffTable) {
    Allowed(coding, t.dest / 16, t.dest % 16) && |t.bits| == 16 && |t.vals| == Total(t.bits)
  }

  predicate AllHuff(coding: nat, ts: seq<HuffTable>) {
    forall i :: 0 <= i < |ts| ==> ValidHuff(coding, ts[i])
  }

  function EncodeHuff(coding: nat, ts: seq<HuffTable>): seq<byte>
    requires AllHuff(coding, ts)
  {
    if ts == [] then [] else [ts[0].dest] + ts[0].bits + ts[0].vals + EncodeHuff(coding, ts[1..])
  }

  function SendHuff(coding: nat, ts: seq<HuffTable>, tables: VlcTables): VlcTables
    requires AllHuff(coding, ts)
  {
    if ts == [] then tables
    else
      var k := Slot(ts[0].dest);
      SendHuff(coding, ts[1..], tables[k := Filled(ts[0].bits, ts[0].vals, tables[k])])
  }

  lemma {:induction false} TotalBound(bits: seq<byte>)
    ensures Total(bits) <= 255 * |bits|
  {
    if bits != [] {
      TotalBound(bits[1..]);
    }
  }

  lemma ReadsEncoded(s: seq<byte>, len: nat, p: nat, coding: nat, h: HuffTable, tables: VlcTables)
    requires len <= |s| && ValidHuff(coding, h) && p + 17 + |h.vals| <= len
    requires Holds(s, p, [h.dest] + h.bits + h.vals)
    ensures ReadHuff(s, len, p, coding, tables)
         == Read(p + 17 + |h.vals|, 17 + |h.vals|,
                 tables[Slot(h.dest) := Filled(h.bits, h.vals, tables[Slot(h.dest)])])
  {
    var id, bits, vals := [h.dest], h.bits, h.vals;
    HoldsSplit(s, p, id + bits, vals);
    HoldsSplit(s, p, id, bits);
    BytesHeld(s, len, p, id);
    BytesHeld(s, len, p + 1, bits);
    BytesHeld(s, len, p + 17, vals);
    TotalBound(bits);
  }

  lemma HuffEmpty(coding: nat, ts: seq<HuffTable>, tables: VlcTables)
    requires AllHuff(coding, ts)
    ensures ts == [] ==> EncodeHuff(coding, ts) == [] && SendHuff(coding, ts, tables) == tables
    ensures ts != [] ==> AllHuff(coding, ts[1..])
  {
  }

  /** The first table of an encoded list, and what is left. */
  lemma HuffHead(s: seq<byte>, len: nat, p: nat, coding: nat, ts: seq<HuffTable>, tables: VlcTables)
    returns (q: nat, n: nat, filled: VlcTables)
    requires len <= |s| && AllHuff(coding, ts) && ts != []
    requires Holds(s, p, EncodeHuff(coding, ts)) && p + |EncodeHuff(coding, ts)| <= len
    ensures q == p + n && n >= 17 && ReadHuff(s, len, p, coding, tables) == Read(q, n, filled)
    ensures AllHuff(coding, ts[1..]) && Holds(s, q, EncodeHuff(coding, ts[1..]))
    ensures |EncodeHuff(coding, ts)| == n + |EncodeHuff(coding, ts[1..])|
    ensures SendHuff(coding, ts, tables) == SendHuff(coding, ts[1..], filled)
  {
    var h := ts[0];
    HoldsSplit(s, p, [h.dest] + h.bits + h.vals, EncodeHuff(coding, ts[1..]));
    ReadsEncoded(s, len, p, coding, h, tables);
    n := 17 + |h.vals|;
    q := p + n;
    filled := ReadHuff(s, len, p, coding, tables).filled;
  }

  lemma {:induction false} HuffRunReads(s: seq<byte>, len: nat, p: nat, t: nat, lh: nat, coding: nat,
                                        ts: seq<HuffTable>, tables: VlcTables)
    requires len <= |s| && AllHuff(coding, ts)
    requires Holds(s, p, EncodeHuff(coding, ts)) && p + |EncodeHuff(coding, ts)| <= len
    requires t + |EncodeHuff(coding, ts)| == lh + 2
    ensures HuffRun(s, len, p, t, lh, coding, tables)
         == HuffEnd(Ok, p + |EncodeHuff(coding, ts)|, SendHuff(coding, ts, tables))
    decreases |ts|
  {
    hide ReadHuff, Holds, AllHuff, SendHuff, EncodeHuff;
    HuffEmpty(coding, ts, tables);
    if ts != [] {
      var q, n, filled := HuffHead(s, len, p, coding, ts, tables);
      HuffRunReads(s, len, q, t + n, lh, coding, ts[1..], filled);
    }
  }

  /** The same round trip for DHT segments. */
  lemma HuffRoundTrip(s: seq<byte>, len: nat, p: nat, coding: nat, ts: seq<HuffTable>, tables: VlcTables)
    requires len <= |s| < TWO32 - 0x1_0000 && AllHuff(coding, ts)
    requires 2 + |EncodeHuff(coding, ts)| < 0x1_0000
    requires Holds(s, p, Word(2 + |EncodeHuff(coding, ts)|) + EncodeHuff(coding, ts))
    requires p + 2 + |EncodeHuff(coding, ts)| <= len
    ensures var r, n := HuffSegment(s, len, p, coding, tables), |EncodeHuff(coding, ts)|;
      if p + 4 + n <= len then r == HuffEnd(Ok, p + 2 + n, SendHuff(coding, ts, tables))
      else r.ret == StrmError && r.tables == tables
  {
    hide AllHuff, EncodeHuff, SendHuff, HuffRun;
    var e := EncodeHuff(coding, ts);
    var lh := 2 + |e|;
    HoldsSplit(s, p, Word(lh), e);
    WordHeld(s, len, p, lh);
    if p + 2 + lh <= len {
      HuffRunReads(s, len, p + 2, 4, lh, coding, ts, tables);
    }
  }

  /** The places of the tables: dcTable0 to dcTable3, then acTable0 to acTable3. */
  function DcTable(tables: VlcTables, th: nat): VlcTable
    requires th < 4
  {
    tables[th]
  }

  function AcTable(tables: VlcTables, th: nat): VlcTable
    requires th < 4
  {
    tables[4 + th]
  }

  /** Destination th of class tc, 0 for DC and 1 for AC. */
  function Destination(tables: VlcTables, tc: nat, th: nat): VlcTable
    requires tc < 2 && th < 4
  {
    if tc == 0 then DcTable(tables, th) else AcTable(tables, th)
  }

  /** The destinations of Table B.5: two of each class for baseline frames, else four. */
  predicate Allowed(coding: nat, tc: nat, th: nat) {
    tc in {0, 1} && th in if coding == SOF0 then {0, 1} else {0, 1, 2, 3}
  }

  /** A header byte is taken exactly if it names an allowed destination; then only that one is written. */
  lemma HeaderByte(s: seq<byte>, len: nat, p: nat, coding: nat, tables: VlcTables, tc: nat, th: nat)
    requires p < len <= |s| && s[p] == 16 * tc + th && th < 16
    ensures var r := ReadHuff(s, len, p, coding, tables);
      && (r.Refused? && r.ret == Unsupported <==> !Allowed(coding, tc, th))
      && (r.Read? ==> forall c: nat, k: nat :: c < 2 && k < 4 && (c, k) != (tc, th) ==>
           Destination(r.filled, c, k) == Destination(tables, c, k))
      && (r.Read? && p + 17 <= len ==> Destination(r.filled, tc, th).bits == s[p + 1..p + 17])
  {
    assert s[p] as int / 16 == tc && s[p] as int % 16 == th;
    assert p + 17 <= len ==> BytesAt(s, len, p + 1, 16) == s[p + 1..p + 17];
  }

  lemma SlotIs(coding: nat, b: nat, tables: VlcTables)
    requires HuffHeader(coding, b)
    ensures Slot(b) < 8 && b / 16 < 2 && b % 16 < 4 && tables[Slot(b)] == Destination(tables, b / 16, b % 16)
    ensures forall x: nat :: HuffHeader(coding, x) && Slot(x) == Slot(b) ==> x == b
  {
  }

  /** A destination no table is sent to keeps its lists. */
  lemma SendHuffSkips(coding: nat, ts: seq<HuffTable>, tables: VlcTables, tc: nat, th: nat)
    requires AllHuff(coding, ts) && tc < 2 && th < 4
    requires forall i :: 0 <= i < |ts| ==> ts[i].dest != 16 * tc + th
    ensures Destination(SendHuff(coding, ts, tables), tc, th) == Destination(tables, tc, th)
  {
    var k := if tc == 0 then th else 4 + th;
    forall i | 0 <= i < |ts| ensures Slot(ts[i].dest) != k {
      assert ValidHuff(coding, ts[i]);
    }
    SlotSkips(coding, ts, tables, k);
  }

  lemma {:induction false} SlotSkips(coding: nat, ts: seq<HuffTable>, tables: VlcTables, k: nat)
    requires AllHuff(coding, ts) && k < 8 && forall i :: 0 <= i < |ts| ==> Slot(ts[i].dest) != k
    ensures SendHuff(coding, ts, tables)[k] == tables[k]
    decreases |ts|
  {
    if ts != [] {
      var d := Slot(ts[0].dest);
      SlotSkips(coding, ts[1..], tables[d := Filled(ts[0].bits, ts[0].vals, tables[d])], k);
    }
  }

  /** A destination ends with the last BITS and HUFFVAL lists sent to it. */
  lemma {:induction false} SendHuffKeepsLast(coding: nat, ts: seq<HuffTable>, tables: VlcTables, i: nat)
    requires AllHuff(coding, ts) && i < |ts|
    requires forall j :: i < j < |ts| ==> ts[j].dest != ts[i].dest
    ensures ts[i].dest / 16 < 2 && ts[i].dest % 16 < 4
    ensures var r := Destination(SendHuff(coding, ts, tables), ts[i].dest / 16, ts[i].dest % 16);
      r.bits == ts[i].bits && r.vals == ts[i].vals
    decreases |ts|
  {
    assert ValidHuff(coding, ts[i]) && ValidHuff(coding, ts[0]);
    var rest, d := ts[1..], Slot(ts[0].dest);
    var next := tables[d := Filled(ts[0].bits, ts[0].vals, tables[d])];
    if i > 0 {
      SendHuffKeepsLast(coding, rest, next, i - 1);
    } else {
      SlotIs(coding, ts[0].dest, next);
      SendHuffSkips(coding, rest, next, ts[0].dest / 16, ts[0].dest % 16);
    }
  }

  /** A header byte that is not taken, behind any tables that are, ends the segment; what came before it has
      been stored. */
  lemma {:induction false} HuffStops(s: seq<byte>, len: nat, p: nat, t: nat, lh: nat, coding: nat,
                                     ts: seq<HuffTable>, tables: VlcTables)
    requires len <= |s| && AllHuff(coding, ts) && Holds(s, p, EncodeHuff(coding, ts))
    requires var e := |EncodeHuff(coding, ts)|;
      && t + e < lh && p + e < len && !Allowed(coding, s[p + e] as int / 16, s[p + e] as int % 16)
    ensures var r := HuffRun(s, len, p, t, lh, coding, tables);
      r.ret == Unsupported && r.tables == SendHuff(coding, ts, tables)
    decreases |ts|
  {
    hide ReadHuff, Holds, AllHuff, SendHuff, EncodeHuff;
    HuffEmpty(coding, ts, tables);
    if ts == [] {
      HeaderByte(s, len, p, coding, tables, s[p] as int / 16, s[p] as int % 16);
      RefusedKeeps(s, len, p, coding, tables);
    } else {
      var q, n, filled := HuffHead(s, len, p, coding, ts, tables);
      HuffStops(s, len, q, t + n, lh, coding, ts[1..], filled);
    }
  }

  lemma RefusedKeeps(s: seq<byte>, len: nat, p: nat, coding: nat, tables: VlcTables)
    requires len <= |s|
    ensures var r := ReadHuff(s, len, p, coding, tables); r.Refused? ==> r.ret in {Unsupported, WildJump}
  {
  }

  /** start and last frame the used code lengths, unless the list is all zero: then both are stale. */
  lemma {:induction false} UsedLengths(bits: seq<nat>, vals: seq<nat>, was: VlcTable)
    ensures var r := Filled(bits, vals, was);
      if forall i :: 0 <= i < |bits| ==> bits[i] == 0 then r.start == was.start && r.last == was.last
      else && 0 <= r.start < r.last <= |bits| && bits[r.start] != 0 && bits[r.last - 1] != 0
           && forall i :: 0 <= i < |bits| && bits[i] != 0 ==> r.start <= i < r.last
  {
    FirstIsFirst(bits, 0, was.start);
    LastIsLast(bits, |bits|, was.last);
  }

  lemma {:induction false} FirstIsFirst(bits: seq<nat>, i: nat, was: nat)
    requires i <= |bits|
    ensures var r := FirstUsed(bits, i, was);
      if forall j :: i <= j < |bits| ==> bits[j] == 0 then r == was
      else i <= r < |bits| && bits[r] != 0 && forall j :: i <= j < |bits| && bits[j] != 0 ==> r <= j
    decreases |bits| - i
  {
    if i < |bits| {
      FirstIsFirst(bits, i + 1, was);
    }
  }

  lemma {:induction false} LastIsLast(bits: seq<nat>, n: nat, was: nat)
    requires n <= |bits|
    ensures var r := LastUsed(bits, n, was);
      if forall j :: 0 <= j < n ==> bits[j] == 0 then r == was
      else 0 < r <= n && bits[r - 1] != 0 && forall j :: 0 <= j < n && bits[j] != 0 ==> j < r
  {
    if n > 0 {
      LastIsLast(bits, n - 1, was);
    }
  }
}
