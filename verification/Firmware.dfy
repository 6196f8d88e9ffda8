/** The firmware pair of update_recv.c: WriteFwData copies the items of an update image to the recovery node
    in chunks, CheckFwData reads both back and compares. */
module Firmware {
  import opened Common

  const TWO63: nat := 0x8000_0000_0000_0000

  /** An entry of the image header: name, size, the high word of the size if file[55] is 'H', and offset. */
  datatype Item = Item(name: string, size: nat, high: Option<nat>, offset: nat)

  predicate ValidItem(it: Item) {
    it.size < TWO32 && it.offset < TWO32 && (it.high.Some? ==> it.high.value < TWO32)
  }

  predicate ValidItems(items: seq<Item>) { forall i :: 0 <= i < |items| ==> ValidItem(items[i]) }

  /** fileBufferSize, a signed 64-bit number: a high word of 2^31 or more makes it negative, and nothing is
      copied. */
  function CopySize(it: Item): nat {
    var n := if it.high.Some? then it.high.value * TWO32 + it.size else it.size;
    if n >= TWO63 then 0 else n
  }

  /** `dwFWOffset + item.offset`, both unsigned 32-bit. */
  function Base(fwOffset: nat, it: Item): nat { (fwOffset + it.offset) % TWO32 }

  /** The bytes that the items of this name stand for, one after the other.  uiEntryOffset is not reset
      between items: e bytes were copied before these. */
  function Payload(image: seq<byte>, fwOffset: nat, items: seq<Item>, name: string, e: nat): Option<seq<byte>> {
    if items == [] then Some([])
    else
      var n, p := CopySize(items[0]), Base(fwOffset, items[0]) + e;
      if items[0].name != name || n == 0 then Payload(image, fwOffset, items[1..], name, e)
      else if p + n > |image| then None
      else Join(Part(image, p, n), Payload(image, fwOffset, items[1..], name, e + n))
  }

  function Join(x: seq<byte>, rest: Option<seq<byte>>): Option<seq<byte>> {
    match rest
    case None => None
    case Some(y) => Some(x + y)
  }

  lemma JoinTwice(x: seq<byte>, y: seq<byte>, rest: Option<seq<byte>>)
    ensures Join(x, Join(y, rest)) == Join(x + y, rest)
  {
    assert rest.Some? ==> x + (y + rest.value) == (x + y) + rest.value;
  }

  lemma JoinNothing(rest: Option<seq<byte>>)
    ensures Join([], rest) == rest
  {
    assert rest.Some? ==> [] + rest.value == rest.value;
  }

  /** Bytes off to off + size of the image, which has m_fileSize bytes. */
  method GetData(image: seq<byte>, off: nat, size: nat) returns (data: Option<seq<byte>>)
    ensures data == if size == 0 || off + size > |image| then None else Some(image[off..off + size])
  {
    if size == 0 {
      return None;
    }
    if off + size > |image| {
      return None;
    }
    data := Some(image[off..off + size]);
  }

  /** The recovery node: a device of fixed size, with a file position. */
  class Node {
    const flash: array<byte>
    var pos: nat

    constructor (device: array<byte>)
      ensures flash == device && pos == 0
    {
      flash, pos := device, 0;
    }

    method Write(data: seq<byte>) returns (written: nat)
      requires pos <= flash.Length
      modifies this`pos, flash
      ensures written == (if old(pos) + |data| <= flash.Length then |data| else flash.Length - old(pos))
      ensures pos == old(pos) + written <= flash.Length && written <= |data|
      ensures flash[..] == old(flash[..pos]) + data[..written] + old(flash[..])[pos..]
    {
      written := if |data| <= flash.Length - pos then |data| else flash.Length - pos;
      forall i | 0 <= i < written {
        flash[pos + i] := data[i];
      }
      pos := pos + written;
    }

    method Read(n: nat) returns (data: seq<byte>)
      requires pos <= flash.Length
      modifies this`pos
      ensures pos == old(pos) + |data| <= flash.Length && data == flash[old(pos)..pos]
      ensures |data| == n || (|data| < n && pos == flash.Length)
    {
      var k := if n <= flash.Length - pos then n else flash.Length - pos;
      data := flash[pos..pos + k];
      pos := pos + k;
    }
  }

  // ---- Writing

  /** The device after data was written at start. */
  predicate Wrote(was: seq<byte>, now: seq<byte>, start: nat, data: seq<byte>) {
    start + |data| <= |was| && now == was[..start] + data + was[start + |data|..]
  }

  /** Two writes, one behind the other. */
  lemma WroteMore(was: seq<byte>, mid: seq<byte>, now: seq<byte>, start: nat, done: seq<byte>, data: seq<byte>)
    requires Wrote(was, mid, start, done) && Wrote(mid, now, start + |done|, data)
    ensures Wrote(was, now, start, done + data)
  {
  }

  /** n bytes of the image from p on. */
  function Part(image: seq<byte>, p: nat, n: nat): (r: seq<byte>)
    requires p + n <= |image|
    ensures |r| == n
  {
    image[p..p + n]
  }

  lemma Concat(s: seq<byte>, a: nat, e: nat, n: nat)
    requires a + e + n <= |s|
    ensures Part(s, a, e + n) == Part(s, a, e) + Part(s, a + e, n)
  {
  }

  /** The device was `was`, and done has been written at start. */
  ghost predicate Holds(node: Node, was: seq<byte>, start: nat, done: seq<byte>)
    reads node, node.flash
  {
    node.pos == start + |done| <= node.flash.Length && Wrote(was, node.flash[..], start, done)
  }

  lemma WrittenBounds(node: Node, was: seq<byte>, start: nat, done: seq<byte>)
    requires Holds(node, was, start, done)
    ensures node.pos == start + |done| <= node.flash.Length && Wrote(was, node.flash[..], start, done)
  {
  }

  lemma NothingWritten(node: Node)
    requires node.pos <= node.flash.Length
    ensures Holds(node, node.flash[..], node.pos, [])
  {
  }

  /** The body of the chunk loop: size bytes of the image from p on, behind what was written before. */
  method WriteBehind(image: seq<byte>, node: Node, p: nat, size: nat, ghost was: seq<byte>, ghost start: nat,
                     ghost done: seq<byte>)
    returns (ok: bool)
    requires size > 0 && Holds(node, was, start, done)
    modifies node`pos, node.flash
    ensures ok <==> p + size <= |image| && start + |done| + size <= node.flash.Length
    ensures ok ==> Holds(node, was, start, done + Part(image, p, size))
  {
    hide Wrote, Part;
    ghost var mid := node.flash[..];
    ok := WriteChunk(image, node, p, size);
    if ok {
      WroteMore(was, mid, node.flash[..], start, done, Part(image, p, size));
    }
  }

  /** The chunk loop of one item: n bytes of the image from p on. */
  method WriteItem(image: seq<byte>, node: Node, p: nat, n: nat, chunk: nat, ghost was: seq<byte>, ghost start: nat,
                   ghost done0: seq<byte>)
    returns (ok: bool)
    requires Holds(node, was, start, done0) && chunk > 0 && n > 0
    modifies node`pos, node.flash
    ensures ok <==> p + n <= |image| && start + |done0| + n <= node.flash.Length
    ensures ok ==> Holds(node, was, start, done0 + Part(image, p, n))
  {
    var left, e := n, 0;
    ghost var done := done0;
    WrittenBounds(node, was, start, done);
    hide Holds, Part;
    while left > 0
      invariant left >= 0 && left + e == n && start + |done| <= node.flash.Length && Holds(node, was, start, done)
      invariant |done| == |done0| + e
      invariant if e == 0 then done == done0 else p + e <= |image| && done == done0 + Part(image, p, e)
    {
      var size := if left < chunk then left else chunk;
      ok := WriteBehind(image, node, p + e, size, was, start, done);
      if !ok {
        return;
      }
      WrittenBounds(node, was, start, done + Part(image, p + e, size));
      MorePart(image, p, e, size, done0);
      done := done + Part(image, p + e, size);
      left := left - size;
      e := e + size;
    }
    ok := true;
  }

  lemma MorePart(image: seq<byte>, p: nat, e: nat, size: nat, done: seq<byte>)
    requires p + e + size <= |image|
    ensures (if e == 0 then done else done + Part(image, p, e)) + Part(image, p + e, size)
         == done + Part(image, p, e + size)
  {
    Concat(image, p, e, size);
  }

  method WriteChunk(image: seq<byte>, node: Node, p: nat, size: nat) returns (ok: bool)
    requires node.pos <= node.flash.Length && size > 0
    modifies node`pos, node.flash
    ensures node.pos <= node.flash.Length
    ensures ok <==> p + size <= |image| && old(node.pos) + size <= node.flash.Length
    ensures ok ==>
      && node.pos == old(node.pos) + size
      && Wrote(old(node.flash[..]), node.flash[..], old(node.pos), Part(image, p, size))
  {
    var data := GetData(image, p, size);
    if data.None? {
      return false;
    }
    var written := node.Write(data.value);
    ok := written == size;
  }

  /** The payload of the items from i on. */
  function PayloadFrom(image: seq<byte>, fwOffset: nat, items: seq<Item>, i: nat, name: string,
                       e: nat): Option<seq<byte>>
    requires i <= |items|
  {
    Payload(image, fwOffset, items[i..], name, e)
  }

  lemma PayloadAt(image: seq<byte>, fwOffset: nat, items: seq<Item>, i: nat, name: string, e: nat)
    requires i < |items|
    ensures var n, p := CopySize(items[i]), Base(fwOffset, items[i]) + e;
      PayloadFrom(image, fwOffset, items, i, name, e)
        == if items[i].name != name || n == 0 then PayloadFrom(image, fwOffset, items, i + 1, name, e)
           else if p + n > |image| then None
           else Join(Part(image, p, n), PayloadFrom(image, fwOffset, items, i + 1, name, e + n))
  {
    assert items[i..][1..] == items[i + 1..];
  }

  lemma PayloadStart(image: seq<byte>, fwOffset: nat, items: seq<Item>, name: string)
    ensures PayloadFrom(image, fwOffset, items, 0, name, 0) == Payload(image, fwOffset, items, name, 0)
  {
    assert items[0..] == items;
  }

  lemma PayloadEnd(image: seq<byte>, fwOffset: nat, items: seq<Item>, name: string, e: nat, done: seq<byte>)
    ensures Join(done, PayloadFrom(image, fwOffset, items, |items|, name, e)) == Some(done)
  {
    assert done + [] == done;
  }

  /** How much of an item is copied for this name. */
  function CopiedSize(it: Item, name: string): nat { if it.name == name then CopySize(it) else 0 }

  /** What is written once this item is too; None if it is not all in the image. */
  function Grown(image: seq<byte>, fwOffset: nat, it: Item, name: string, done: seq<byte>): Option<seq<byte>> {
    var n, p := CopiedSize(it, name), Base(fwOffset, it) + |done|;
    if n == 0 then Some(done) else if p + n > |image| then None else Some(done + Part(image, p, n))
  }

  /** After done, the items from i on make up the rest of all. */
  predicate DoneUpTo(image: seq<byte>, fwOffset: nat, items: seq<Item>, name: string, all: Option<seq<byte>>, i: nat,
                     done: seq<byte>)
  {
    i <= |items| && all == Join(done, PayloadFrom(image, fwOffset, items, i, name, |done|))
  }

  lemma DoneNothing(image: seq<byte>, fwOffset: nat, items: seq<Item>, name: string)
    ensures DoneUpTo(image, fwOffset, items, name, Payload(image, fwOffset, items, name, 0), 0, [])
  {
    JoinNothing(Payload(image, fwOffset, items, name, 0));
    PayloadStart(image, fwOffset, items, name);
  }

  lemma DoneNext(image: seq<byte>, fwOffset: nat, items: seq<Item>, name: string, all: Option<seq<byte>>, i: nat,
                 done: seq<byte>)
    requires i < |items| && DoneUpTo(image, fwOffset, items, name, all, i, done)
    ensures match Grown(image, fwOffset, items[i], name, done)
      case None => all.None?
      case Some(more) =>
        && DoneUpTo(image, fwOffset, items, name, all, i + 1, more)
        && |more| == |done| + CopiedSize(items[i], name) && (all.Some? ==> |all.value| >= |more|)
  {
    hide PayloadFrom, Part, CopySize, Base;
    PayloadAt(image, fwOffset, items, i, name, |done|);
    var n, p := CopySize(items[i]), Base(fwOffset, items[i]) + |done|;
    if p + n <= |image| {
      JoinTwice(done, Part(image, p, n), PayloadFrom(image, fwOffset, items, i + 1, name, |done| + n));
    }
  }

  lemma DoneAll(image: seq<byte>, fwOffset: nat, items: seq<Item>, name: string, all: Option<seq<byte>>,
                done: seq<byte>)
    requires DoneUpTo(image, fwOffset, items, name, all, |items|, done)
    ensures all == Some(done)
  {
    PayloadEnd(image, fwOffset, items, name, |done|, done);
  }

  /** The body of the loop over the items. */
  method WriteNext(image: seq<byte>, fwOffset: nat, it: Item, name: string, node: Node, entryOffset0: nat, chunk: nat,
                   ghost was: seq<byte>, ghost done: seq<byte>)
    returns (ok: bool, entryOffset: nat)
    requires entryOffset0 == |done| && chunk > 0 && Holds(node, was, 0, done)
    modifies node`pos, node.flash
    ensures entryOffset == entryOffset0 + CopiedSize(it, name)
    ensures var more := Grown(image, fwOffset, it, name, done);
      && (ok <==> more.Some? && |more.value| <= node.flash.Length)
      && (ok ==> Holds(node, was, 0, more.value))
  {
    WrittenBounds(node, was, 0, done);
    hide CopySize, Base, Holds, Part;
    ok, entryOffset := true, entryOffset0;
    if it.name == name {
      var size := CopySize(it);
      if size > 0 {
        ok := WriteItem(image, node, Base(fwOffset, it) + entryOffset, size, chunk, was, 0, done);
        entryOffset := entryOffset + size;
      }
    }
  }

  /** The loop over the items. */
  method WriteItems(image: seq<byte>, fwOffset: nat, items: seq<Item>, name: string, node: Node, chunk: nat)
    returns (ok: bool)
    requires node.pos == 0 && chunk > 0
    modifies node`pos, node.flash
    ensures var payload := Payload(image, fwOffset, items, name, 0);
      && (ok <==> payload.Some? && |payload.value| <= node.flash.Length)
      && (ok ==> Holds(node, old(node.flash[..]), 0, payload.value))
  {
    var entryOffset, i := 0, 0;
    ghost var was, all, done := node.flash[..], Payload(image, fwOffset, items, name, 0), [];
    NothingWritten(node);
    WrittenBounds(node, was, 0, done);
    DoneNothing(image, fwOffset, items, name);
    hide Payload, DoneUpTo, Grown, CopiedSize, Holds;
    while i < |items|
      invariant i <= |items| && entryOffset == |done| <= node.flash.Length && Holds(node, was, 0, done)
      invariant DoneUpTo(image, fwOffset, items, name, all, i, done)
    {
      DoneNext(image, fwOffset, items, name, all, i, done);
      ok, entryOffset := WriteNext(image, fwOffset, items[i], name, node, entryOffset, chunk, was, done);
      if !ok {
        return;
      }
      done := Grown(image, fwOffset, items[i], name, done).value;
      i := i + 1;
    }
    DoneAll(image, fwOffset, items, name, all, done);
    ok := true;
  }

  /** WriteFwData on the parsed header.  It returns 0 exactly when there are items and the payload is
      defined and fits the device, and the device then starts with the payload and is unchanged behind it. */
  method WriteFwData(image: seq<byte>, fwOffset: nat, items: seq<Item>, name: string, node: Node, chunk: nat)
    returns (ret: int)
    requires ValidItems(items) && node.pos == 0 && chunk > 0
    modifies node`pos, node.flash
    ensures ret == 0 || ret == -1
    ensures var payload := Payload(image, fwOffset, items, name, 0);
      && (ret == 0 <==> items != [] && payload.Some? && |payload.value| <= node.flash.Length)
      && (ret == 0 ==> node.flash[..] == payload.value + old(node.flash[..])[|payload.value|..])
    ensures ret == 0 ==>
      forall k: nat :: OnlyItem(items, name, k) ==> InPlace(node.flash[..], image, fwOffset, items[k])
  {
    hide Payload, Wrote;
    if |items| <= 0 {
      return -1;
    }
    ghost var was := node.flash[..];
    var ok := WriteItems(image, fwOffset, items, name, node, chunk);
    if !ok {
      return -1;
    }
    FromStart(was, node.flash[..], Payload(image, fwOffset, items, name, 0).value);
    OneInPlace(node.flash[..], image, fwOffset, items, name);
    ret := 0;
  }

  /** The device starts with the bytes of this item, unless it is empty or too large to be copied. */
  predicate InPlace(flash: seq<byte>, image: seq<byte>, fwOffset: nat, it: Item) {
    var (p, n) := Extent(fwOffset, it);
    0 < n < 0x8000_0000_0000_0000 ==> p + n <= |image| && n <= |flash| && flash[..n] == image[p..p + n]
  }

  lemma OneInPlace(flash: seq<byte>, image: seq<byte>, fwOffset: nat, items: seq<Item>, name: string)
    requires var payload := Payload(image, fwOffset, items, name, 0); payload.Some? && payload.value <= flash
    ensures forall k: nat :: OnlyItem(items, name, k) ==> InPlace(flash, image, fwOffset, items[k])
  {
    hide Payload;
    forall k: nat | OnlyItem(items, name, k) ensures InPlace(flash, image, fwOffset, items[k]) {
      UniqueName(image, fwOffset, items, name, k);
    }
  }

  lemma FromStart(was: seq<byte>, now: seq<byte>, data: seq<byte>)
    requires Wrote(was, now, 0, data)
    ensures |data| <= |was| && now == data + was[|data|..]
  {
  }

  // ---- Checking

  /** The device has at a what the image has at p, for n bytes. */
  predicate Matches(flash: seq<byte>, a: nat, image: seq<byte>, p: nat, n: nat) {
    p + n <= |image| && a + n <= |flash| && flash[a..a + n] == image[p..p + n]
  }

  lemma MatchMore(flash: seq<byte>, a: nat, image: seq<byte>, p: nat, e: nat, n: nat)
    requires Matches(flash, a, image, p, e) && Matches(flash, a + e, image, p + e, n)
    ensures Matches(flash, a, image, p, e + n)
  {
    Concat(flash, a, e, n);
    Concat(image, p, e, n);
  }

  lemma MatchPart(flash: seq<byte>, a: nat, image: seq<byte>, p: nat, e: nat, k: nat, n: nat)
    requires Matches(flash, a, image, p, n) && e + k <= n
    ensures Matches(flash, a + e, image, p + e, k)
  {
    Slice(flash, a, n, e, k);
    Slice(image, p, n, e, k);
  }

  method CheckItem(image: seq<byte>, node: Node, p: nat, n: nat, chunk: nat) returns (ok: bool)
    requires node.pos <= node.flash.Length && chunk > 0 && n > 0
    modifies node`pos
    ensures node.pos <= node.flash.Length
    ensures ok <==> Matches(node.flash[..], old(node.pos), image, p, n)
    ensures ok ==> node.pos == old(node.pos) + n
  {
    hide Matches;
    var left, e := n, 0;
    ghost var start, flash := node.pos, node.flash[..];
    while left > 0
      invariant left >= 0 && left + e == n && node.pos == start + e <= node.flash.Length
      invariant e > 0 ==> Matches(flash, start, image, p, e)
    {
      var size := if left < chunk then left else chunk;
      ok := CheckChunk(image, node, p + e, size);
      if !ok {
        if Matches(flash, start, image, p, n) {
          MatchPart(flash, start, image, p, e, size, n);
        }
        return;
      }
      if e > 0 {
        MatchMore(flash, start, image, p, e, size);
      }
      left := left - size;
      e := e + size;
    }
    ok := true;
  }

  method CheckChunk(image: seq<byte>, node: Node, p: nat, size: nat) returns (ok: bool)
    requires node.pos <= node.flash.Length && size > 0
    modifies node`pos
    ensures node.pos <= node.flash.Length
    ensures ok <==> Matches(node.flash[..], old(node.pos), image, p, size)
    ensures ok ==> node.pos == old(node.pos) + size
  {
    var data := GetData(image, p, size);
    if data.None? {
      return false;
    }
    var read := node.Read(size);
    ok := |read| == size && data.value == read;
  }

  lemma Slice(s: seq<byte>, a: nat, n: nat, e: nat, k: nat)
    requires e + k <= n && a + n <= |s|
    ensures s[a..a + n][e..e + k] == s[a + e..a + e + k]
  {
    var x, y := s[a..a + n][e..e + k], s[a + e..a + e + k];
    forall i | 0 <= i < k ensures x[i] == y[i] {
      assert s[a..a + n][e + i] == s[a + e + i];
    }
  }

  /** CheckFwData on the parsed header: true exactly when the payload is defined and the device starts with
      it. */
  method CheckFwData(image: seq<byte>, fwOffset: nat, items: seq<Item>, name: string, node: Node, chunk: nat)
    returns (ok: bool)
    requires ValidItems(items) && node.pos == 0 && chunk > 0
    modifies node`pos
    ensures var payload := Payload(image, fwOffset, items, name, 0);
      ok <==> payload.Some? && payload.value <= node.flash[..]
    ensures ok ==> forall k: nat :: OnlyItem(items, name, k) ==> InPlace(node.flash[..], image, fwOffset, items[k])
  {
    hide Payload, PayloadFrom, Join, CopySize, Base, Matches, Part;
    var entryOffset, i := 0, 0;
    ghost var flash, all := node.flash[..], Payload(image, fwOffset, items, name, 0);
    JoinNothing(all);
    PayloadStart(image, fwOffset, items, name);
    assert flash[..0] == [];
    while i < |items|
      invariant i <= |items| && node.pos == entryOffset <= node.flash.Length
      invariant all == Join(flash[..entryOffset], PayloadFrom(image, fwOffset, items, i, name, entryOffset))
    {
      PayloadAt(image, fwOffset, items, i, name, entryOffset);
      if items[i].name == name {
        var size := CopySize(items[i]);
        if size > 0 {
          ghost var e, p := entryOffset, Base(fwOffset, items[i]) + entryOffset;
          ok := CheckItem(image, node, Base(fwOffset, items[i]) + entryOffset, size, chunk);
          if !ok {
            NotInFlash(flash, e, image, p, size, PayloadFrom(image, fwOffset, items, i + 1, name, e + size));
            return;
          }
          InFlash(flash, e, image, p, size);
          JoinTwice(flash[..e], Part(image, p, size), PayloadFrom(image, fwOffset, items, i + 1, name, e + size));
          entryOffset := entryOffset + size;
        }
      }
      i := i + 1;
    }
    PayloadEnd(image, fwOffset, items, name, entryOffset, flash[..entryOffset]);
    OneInPlace(flash, image, fwOffset, items, name);
    ok := true;
  }

  lemma NotPrefix(flash: seq<byte>, e: nat, x: seq<byte>, rest: seq<byte>)
    requires e <= |flash| && !(e + |x| <= |flash| && flash[e..e + |x|] == x)
    ensures !(flash[..e] + (x + rest) <= flash)
  {
    var y := flash[..e] + (x + rest);
    if y <= flash {
      PrefixHas(flash, y, e, x);
    }
  }

  lemma NotInFlash(flash: seq<byte>, e: nat, image: seq<byte>, p: nat, n: nat, rest: Option<seq<byte>>)
    requires e <= |flash| && !Matches(flash, e, image, p, n)
    ensures Join(flash[..e], None) == None
    ensures p + n <= |image| ==>
      var all := Join(flash[..e], Join(Part(image, p, n), rest)); all.None? || !(all.value <= flash)
  {
    if p + n <= |image| && rest.Some? {
      NotPrefix(flash, e, Part(image, p, n), rest.value);
    }
  }

  lemma InFlash(flash: seq<byte>, e: nat, image: seq<byte>, p: nat, n: nat)
    requires Matches(flash, e, image, p, n)
    ensures p + n <= |image| && e + n <= |flash| && flash[..e] + Part(image, p, n) == flash[..e + n]
  {
  }

  lemma PrefixHas(flash: seq<byte>, y: seq<byte>, e: nat, x: seq<byte>)
    requires y <= flash && e + |x| <= |y| && y[e..e + |x|] == x
    ensures flash[e..e + |x|] == x
  {
  }

  /** What was written is found by the check. */
  method WriteThenCheck(image: seq<byte>, fwOffset: nat, items: seq<Item>, name: string, device: array<byte>,
                        writeChunk: nat, checkChunk: nat)
    returns (ret: int, ok: bool)
    requires ValidItems(items) && writeChunk > 0 && checkChunk > 0
    modifies device
    ensures ret == 0 ==> ok
  {
    var node := new Node(device);
    ret := WriteFwData(image, fwOffset, items, name, node, writeChunk);
    var again := new Node(device);
    ok := CheckFwData(image, fwOffset, items, name, again, checkChunk);
  }

  // ---- What an item of the payload is

  /** The bytes copied for this name by the items before item k. */
  function SizesBefore(items: seq<Item>, name: string, k: nat): nat
    requires k <= |items|
  {
    if k == 0 then 0
    else CopiedSize(items[0], name) + SizesBefore(items[1..], name, k - 1)
  }

  /** Item k has the name and something to copy. */
  predicate Copied(items: seq<Item>, name: string, k: nat)
    requires k < |items|
  {
    items[k].name == name && CopySize(items[k]) > 0
  }

  /** Where the bytes of an item begin in the image, and how many it has: the offset counts from that of the
      firmware, in 32 bits, and the size may have a high word. */
  function Extent(fwOffset: nat, it: Item): (nat, nat) {
    ((fwOffset + it.offset) % 0x1_0000_0000,
     it.size + match it.high { case None => 0 case Some(high) => high * 0x1_0000_0000 })
  }

  /** Where item k is read from: beyond its offset by the e bytes copied before. */
  function From(fwOffset: nat, items: seq<Item>, name: string, k: nat, e: nat): nat
    requires k < |items|
  {
    Extent(fwOffset, items[k]).0 + e + SizesBefore(items, name, k)
  }

  /** The bytes of item k at their place in the payload, or beyond the image. */
  predicate InsideImage(image: seq<byte>, fwOffset: nat, items: seq<Item>, name: string, k: nat, e: nat)
    requires k < |items|
  {
    Copied(items, name, k) ==> From(fwOffset, items, name, k, e) + CopySize(items[k]) <= |image|
  }

  predicate Lands(image: seq<byte>, fwOffset: nat, items: seq<Item>, name: string, k: nat, e: nat, payload: seq<byte>)
    requires k < |items|
  {
    Copied(items, name, k) ==>
      var n, at := CopySize(items[k]), SizesBefore(items, name, k);
      Matches(payload, at, image, From(fwOffset, items, name, k, e), n)
  }

  lemma LaterItem(fwOffset: nat, items: seq<Item>, name: string, k: nat, e: nat)
    requires 0 < k < |items|
    ensures var n := CopiedSize(items[0], name);
      && SizesBefore(items, name, k) == n + SizesBefore(items[1..], name, k - 1)
      && From(fwOffset, items, name, k, e) == From(fwOffset, items[1..], name, k - 1, e + n)
      && (Copied(items, name, k) <==> Copied(items[1..], name, k - 1)) && items[k] == items[1..][k - 1]
  {
  }

  lemma MatchBehind(x: seq<byte>, y: seq<byte>, a: nat, image: seq<byte>, p: nat, n: nat)
    requires Matches(y, a, image, p, n)
    ensures Matches(x + y, |x| + a, image, p, n)
  {
    assert (x + y)[|x| + a..|x| + a + n] == y[a..a + n];
  }

  /** The first item's bytes, and the payload of the others. */
  lemma FirstItem(image: seq<byte>, fwOffset: nat, items: seq<Item>, name: string, e: nat) returns (x: seq<byte>)
    requires items != []
    ensures var n := CopiedSize(items[0], name);
      var payload, rest := Payload(image, fwOffset, items, name, e), Payload(image, fwOffset, items[1..], name, e + n);
      && (payload.Some? <==> InsideImage(image, fwOffset, items, name, 0, e) && rest.Some?)
      && (payload.Some? ==>
           && |x| == n && payload.value == x + rest.value
           && Lands(image, fwOffset, items, name, 0, e, payload.value))
  {
    x := [];
    var n := CopiedSize(items[0], name);
    var payload, rest := Payload(image, fwOffset, items, name, e), Payload(image, fwOffset, items[1..], name, e + n);
    if payload.Some? {
      if n > 0 {
        x := Part(image, Base(fwOffset, items[0]) + e, n);
        assert (x + rest.value)[0..n] == x;
      } else {
        assert x + rest.value == rest.value;
      }
    }
  }

  /** The payload of any items, repeated names and all: it is defined exactly when every item lies inside
      the image where it is read from, its length is the sum of the sizes, and each item stands in it
      behind those before. */
  lemma {:induction false} PayloadLaw(image: seq<byte>, fwOffset: nat, items: seq<Item>, name: string, e: nat)
    ensures var payload := Payload(image, fwOffset, items, name, e);
      && (payload.Some? <==> forall k :: 0 <= k < |items| ==> InsideImage(image, fwOffset, items, name, k, e))
      && (payload.Some? ==>
           && |payload.value| == SizesBefore(items, name, |items|)
           && forall k :: 0 <= k < |items| ==> Lands(image, fwOffset, items, name, k, e, payload.value))
    decreases |items|
  {
    hide Matches, CopySize, Base;
    if items != [] {
      var rest, payload := items[1..], Payload(image, fwOffset, items, name, e);
      var n := CopiedSize(items[0], name);
      var m := e + n;
      PayloadLaw(image, fwOffset, rest, name, m);
      var x := FirstItem(image, fwOffset, items, name, e);
      hide Payload, Copied, From;
      forall k | 0 < k < |items|
        ensures InsideImage(image, fwOffset, items, name, k, e) <==> InsideImage(image, fwOffset, rest, name, k - 1, m)
        ensures payload.Some? ==> Lands(image, fwOffset, items, name, k, e, payload.value)
      {
        LaterItem(fwOffset, items, name, k, e);
        if payload.Some? && Copied(items, name, k) {
          var y := Payload(image, fwOffset, rest, name, m).value;
          assert Lands(image, fwOffset, rest, name, k - 1, m, y);
          MatchBehind(x, y, SizesBefore(rest, name, k - 1), image, From(fwOffset, items, name, k, e),
                      CopySize(items[k]));
        }
      }
      assert forall k :: 0 <= k < |rest| ==>
        (InsideImage(image, fwOffset, rest, name, k, m) <==> InsideImage(image, fwOffset, items, name, k + 1, e));
    }
  }

  /** Item k is the only one of this name. */
  predicate OnlyItem(items: seq<Item>, name: string, k: nat) {
    k < |items| && items[k].name == name && forall j :: 0 <= j < |items| && j != k ==> items[j].name != name
  }

  /** A name that only item k has stands for that item's bytes; one of 2^63 bytes or more stands for none. */
  lemma UniqueName(image: seq<byte>, fwOffset: nat, items: seq<Item>, name: string, k: nat)
    requires OnlyItem(items, name, k)
    ensures var (p, n) := Extent(fwOffset, items[k]);
      Payload(image, fwOffset, items, name, 0)
        == if n == 0 || n >= 0x8000_0000_0000_0000 then Some([])
           else if p + n > |image| then None else Some(image[p..p + n])
  {
    OnlyPayload(image, fwOffset, items, name, k);
    hide Payload;
  }

  lemma OnlyPayload(image: seq<byte>, fwOffset: nat, items: seq<Item>, name: string, k: nat)
    requires OnlyItem(items, name, k)
    ensures var p, m := Extent(fwOffset, items[k]).0, CopySize(items[k]);
      Payload(image, fwOffset, items, name, 0)
        == if m == 0 then Some([]) else if p + m > |image| then None else Some(image[p..p + m])
  {
    hide Payload, CopySize, Base, Extent;
    PayloadLaw(image, fwOffset, items, name, 0);
    OthersAdd(items, name, k, k);
    OthersAdd(items, name, k, |items|);
    var p, m, payload := Extent(fwOffset, items[k]).0, CopySize(items[k]), Payload(image, fwOffset, items, name, 0);
    assert InsideImage(image, fwOffset, items, name, k, 0) <==> m == 0 || p + m <= |image|;
    assert forall j :: 0 <= j < |items| && j != k ==> InsideImage(image, fwOffset, items, name, j, 0);
    if payload.Some? {
      assert Lands(image, fwOffset, items, name, k, 0, payload.value);
      assert m > 0 ==> payload.value == payload.value[0..m];
    }
  }

  /** An item is looked for beyond the firmware's offset: one byte of the image, the fifth. */
  lemma BeyondFirmwareOffset(image: seq<byte>, name: string)
    requires |image| == 8
    ensures Payload(image, 4, [Item(name, 1, None, 0)], name, 0) == Some([image[4]])
  {
    var items := [Item(name, 1, None, 0)];
    UniqueName(image, 4, items, name, 0);
    assert image[4..5] == [image[4]];
  }

  lemma {:induction false} OthersAdd(items: seq<Item>, name: string, k: nat, m: nat)
    requires OnlyItem(items, name, k) && m <= |items|
    ensures SizesBefore(items, name, m) == if k < m then CopySize(items[k]) else 0
    decreases |items|
  {
    if m > 0 {
      if k > 0 {
        assert OnlyItem(items[1..], name, k - 1);
        OthersAdd(items[1..], name, k - 1, m - 1);
      } else {
        NoneAdds(items[1..], name, m - 1);
      }
    }
  }

  lemma {:induction false} NoneAdds(items: seq<Item>, name: string, m: nat)
    requires m <= |items| && forall j :: 0 <= j < |items| ==> items[j].name != name
    ensures SizesBefore(items, name, m) == 0
    decreases |items|
  {
    if m > 0 {
      NoneAdds(items[1..], name, m - 1);
    }
  }

  /** Of two items of one name the second is not read from where its offset says. */
  lemma SecondItemMisread(image: seq<byte>, name: string)
    requires |image| == 3
    ensures var items := [Item(name, 1, None, 0), Item(name, 1, None, 1)];
      Payload(image, 0, items, name, 0) == Some([image[0], image[2]])
  {
    var items := [Item(name, 1, None, 0), Item(name, 1, None, 1)];
    assert items[1..] == [items[1]] && items[1..][1..] == [];
    assert Part(image, 0, 1) == [image[0]] && Part(image, 2, 1) == [image[2]];
    var one := items[1..];
    assert one[1..] == [] && Payload(image, 0, one[1..], name, 2) == Some([]);
    assert [image[2]] + [] == [image[2]] && [image[0]] + [image[2]] == [image[0], image[2]];
    assert Base(0, one[0]) + 1 == 2 && CopySize(one[0]) == 1;
    assert Payload(image, 0, one, name, 1) == Join(Part(image, 2, 1), Payload(image, 0, one[1..], name, 2));
  }
}
