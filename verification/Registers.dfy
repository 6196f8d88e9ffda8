/** The register file of reg.cpp: fields of 32-bit registers, written and read through a table of
    (register, width, position). */
module Registers {

  const REGISTERS: nat := 159

  /** A row of hwDecRegSpec. */
  datatype Field = Field(reg: nat, width: bv8, pos: bv8)

  predicate ValidField(f: Field) { f.reg < REGISTERS && 1 <= f.width <= 32 && f.pos <= 32 - f.width }

  /** regMask, as the table has it. */
  function RegMask(w: bv8): bv32 {
    if w == 0 then 0x00000000 else if w == 1 then 0x00000001 else if w == 2 then 0x00000003
    else if w == 3 then 0x00000007 else if w == 4 then 0x0000000F else if w == 5 then 0x0000001F
    else if w == 6 then 0x0000003F else if w == 7 then 0x0000007F else if w == 8 then 0x000000FF
    else if w == 9 then 0x000001FF else if w == 10 then 0x000003FF else if w == 11 then 0x000007FF
    else if w == 12 then 0x00000FFF else if w == 13 then 0x00001FFF else if w == 14 then 0x00003FFF
    else if w == 15 then 0x00007FFF else if w == 16 then 0x0000FFFF else if w == 17 then 0x0001FFFF
    else if w == 18 then 0x0003FFFF else if w == 19 then 0x0007FFFF else if w == 20 then 0x000FFFFF
    else if w == 21 then 0x001FFFFF else if w == 22 then 0x003FFFFF else if w == 23 then 0x007FFFFF
    else if w == 24 then 0x00FFFFFF else if w == 25 then 0x01FFFFFF else if w == 26 then 0x03FFFFFF
    else if w == 27 then 0x07FFFFFF else if w == 28 then 0x0FFFFFFF else if w == 29 then 0x1FFFFFFF
    else if w == 30 then 0x3FFFFFFF else if w == 31 then 0x7FFFFFFF else 0xFFFFFFFF
  }

  /** The mask of width w has the w lowest bits. */
  lemma MaskIs(w: bv8)
    requires w <= 32
    ensures RegMask(w) == (if w == 32 then 0xFFFF_FFFF else ((1 as bv32) << w) - 1)
  {
  }

  function SetField(x: bv32, f: Field, value: bv32): bv32
    requires ValidField(f)
  {
    Or(And(x, Not(Shl(RegMask(f.width), f.pos))), Shl(And(value, RegMask(f.width)), f.pos))
  }

  function GetField(x: bv32, f: Field): bv32
    requires ValidField(f)
  {
    And(Shr(x, f.pos), RegMask(f.width))
  }

  predicate Bit(x: bv32, i: bv8)
    requires i < 32
  {
    (x >> i) & 1 == 1
  }

  predicate Covers(f: Field, i: bv8) { f.pos <= i < f.pos + f.width }

  /** The bit of the value that a write of field f puts at i. */
  predicate Written(f: Field, value: bv32, i: bv8)
    requires ValidField(f) && Covers(f, i)
  {
    i - f.pos < 32 && Bit(value, i - f.pos)
  }

  lemma MaskBit(w: bv8, i: bv8)
    requires 1 <= w <= 32 && i < 32
    ensures Bit(RegMask(w), i) <==> i < w
  {
    MaskIs(w);
  }

  // ---- The operators, and their bits

  function Or(a: bv32, b: bv32): bv32 { a | b }
  function And(a: bv32, b: bv32): bv32 { a & b }
  function Not(a: bv32): bv32 { !a }

  function Shl(a: bv32, p: bv8): bv32
    requires p < 32
  {
    a << p
  }

  function Shr(a: bv32, p: bv8): bv32
    requires p < 32
  {
    a >> p
  }

  lemma BitOr(a: bv32, b: bv32, i: bv8)
    requires i < 32
    ensures Bit(Or(a, b), i) <==> Bit(a, i) || Bit(b, i)
  {
  }

  lemma BitAnd(a: bv32, b: bv32, i: bv8)
    requires i < 32
    ensures Bit(And(a, b), i) <==> Bit(a, i) && Bit(b, i)
  {
  }

  lemma BitNot(a: bv32, i: bv8)
    requires i < 32
    ensures Bit(Not(a), i) <==> !Bit(a, i)
  {
  }

  lemma BitShl(a: bv32, p: bv8, i: bv8)
    requires i < 32 && p < 32
    ensures Bit(Shl(a, p), i) <==> p <= i && Bit(a, i - p)
  {
  }

  lemma BitShr(a: bv32, p: bv8, i: bv8)
    requires i < 32 && p < 32
    ensures Bit(Shr(a, p), i) <==> i < 32 - p && Bit(a, p + i)
  {
  }

  /** Bits 0 to 31 determine a word. */
  lemma SameBits(x: bv32, y: bv32)
    requires forall i: bv8 :: i < 32 ==> (Bit(x, i) <==> Bit(y, i))
    ensures x == y
  {
    hide Bit, ByteOf;
    LowBits(x, y, 0);
    LowBits(x, y, 8);
    LowBits(x, y, 16);
    LowBits(x, y, 24);
    FourBytes(x, y);
  }

  lemma LowBits(x: bv32, y: bv32, p: bv8)
    requires p == 0 || p == 8 || p == 16 || p == 24
    requires forall i: bv8 :: i < 32 ==> (Bit(x, i) <==> Bit(y, i))
    ensures ByteOf(x, p) == ByteOf(y, p)
  {
    assert EightBits(x, y, p) by { hide Bit; }
    ByteFromBits(x, y, p);
  }

  function ByteOf(x: bv32, p: bv8): bv32
    requires p <= 24
  {
    (x >> p) & 0xFF
  }

  predicate EightBits(x: bv32, y: bv32, p: bv8)
    requires p <= 24
  {
    && (Bit(x, p) <==> Bit(y, p)) && (Bit(x, p + 1) <==> Bit(y, p + 1))
    && (Bit(x, p + 2) <==> Bit(y, p + 2)) && (Bit(x, p + 3) <==> Bit(y, p + 3))
    && (Bit(x, p + 4) <==> Bit(y, p + 4)) && (Bit(x, p + 5) <==> Bit(y, p + 5))
    && (Bit(x, p + 6) <==> Bit(y, p + 6)) && (Bit(x, p + 7) <==> Bit(y, p + 7))
  }

  lemma ByteFromBits(x: bv32, y: bv32, p: bv8)
    requires p <= 24 && EightBits(x, y, p)
    ensures ByteOf(x, p) == ByteOf(y, p)
  {
  }

  lemma FourBytes(x: bv32, y: bv32)
    requires ByteOf(x, 0) == ByteOf(y, 0) && ByteOf(x, 8) == ByteOf(y, 8)
    requires ByteOf(x, 16) == ByteOf(y, 16) && ByteOf(x, 24) == ByteOf(y, 24)
    ensures x == y
  {
  }

  // ---- One write, one read

  /** A write puts the low bits of the value where the field is, and changes no other bit. */
  lemma SetBit(x: bv32, f: Field, value: bv32, i: bv8)
    requires ValidField(f) && i < 32
    ensures Bit(SetField(x, f, value), i) <==> if Covers(f, i) then Written(f, value, i) else Bit(x, i)
  {
    hide RegMask, Bit, Or, And, Not, Shl, Covers, Written;
    CoveredBy(f, i);
    var m, p := RegMask(f.width), f.pos;
    BitOr(And(x, Not(Shl(m, p))), Shl(And(value, m), p), i);
    BitAnd(x, Not(Shl(m, p)), i);
    BitNot(Shl(m, p), i);
    BitShl(m, p, i);
    BitShl(And(value, m), p, i);
    if p <= i {
      BitAnd(value, m, i - p);
      MaskBit(f.width, i - p);
    }
    if Covers(f, i) {
      WrittenIs(f, value, i);
    }
  }

  lemma WrittenIs(f: Field, value: bv32, i: bv8)
    requires ValidField(f) && Covers(f, i)
    ensures i - f.pos < 32 && (Written(f, value, i) <==> Bit(value, i - f.pos))
  {
  }

  lemma CoveredBy(f: Field, i: bv8)
    requires ValidField(f) && i < 32
    ensures Covers(f, i) <==> f.pos <= i && i - f.pos < f.width
  {
  }

  lemma GetBit(x: bv32, f: Field, i: bv8)
    requires ValidField(f) && i < 32
    ensures Bit(GetField(x, f), i) <==> i < f.width && Bit(x, f.pos + i)
  {
    hide RegMask, Bit, And, Shr;
    var m, p := RegMask(f.width), f.pos;
    BitAnd(Shr(x, p), m, i);
    BitShr(x, p, i);
    MaskBit(f.width, i);
    InWord(f, i);
  }

  lemma InWord(f: Field, i: bv8)
    requires ValidField(f) && i < 32
    ensures i < f.width ==> i < 32 - f.pos
  {
  }

  // ---- Sequences of writes

  datatype Write = Write(f: Field, value: bv32)

  predicate ValidWrites(ws: seq<Write>) { forall k :: 0 <= k < |ws| ==> ValidField(ws[k].f) }

  function Apply(regs: seq<bv32>, ws: seq<Write>): (r: seq<bv32>)
    requires |regs| == REGISTERS && ValidWrites(ws)
    ensures |r| == REGISTERS
  {
    if ws == [] then regs
    else
      var n := |ws| - 1;
      var before, w := Apply(regs, ws[..n]), ws[n];
      before[w.f.reg := SetField(before[w.f.reg], w.f, w.value)]
  }

  predicate Hits(w: Write, reg: nat, i: bv8) { w.f.reg == reg && Covers(w.f, i) }

  /** Write k is the last to cover bit i of the register. */
  predicate LastHit(ws: seq<Write>, reg: nat, i: bv8, k: nat)
    requires k < |ws|
  {
    Hits(ws[k], reg, i) && forall j :: k < j < |ws| ==> !Hits(ws[j], reg, i)
  }

  /** Every bit of the register file is that of the last write covering it, whichever field that used. */
  lemma {:induction false} LastWriteWins(regs: seq<bv32>, ws: seq<Write>, reg: nat, i: bv8, k: nat)
    requires |regs| == REGISTERS && ValidWrites(ws) && reg < REGISTERS && i < 32 && k < |ws| && LastHit(ws, reg, i, k)
    ensures Bit(Apply(regs, ws)[reg], i) <==> Written(ws[k].f, ws[k].value, i)
  {
    hide SetField, Bit, Covers, Written;
    var n := |ws| - 1;
    var before, w := ws[..n], ws[n];
    SetBit(Apply(regs, before)[w.f.reg], w.f, w.value, i);
    if k < n {
      assert LastHit(before, reg, i, k);
      assert !Hits(w, reg, i);
      LastWriteWins(regs, before, reg, i, k);
    }
  }

  lemma {:induction false} Untouched(regs: seq<bv32>, ws: seq<Write>, reg: nat, i: bv8)
    requires |regs| == REGISTERS && ValidWrites(ws) && reg < REGISTERS && i < 32
    requires forall k :: 0 <= k < |ws| ==> !Hits(ws[k], reg, i)
    ensures Bit(Apply(regs, ws)[reg], i) <==> Bit(regs[reg], i)
  {
    hide SetField, Bit, Covers, Written;
    if ws != [] {
      var n := |ws| - 1;
      var w := ws[n];
      SetBit(Apply(regs, ws[..n])[w.f.reg], w.f, w.value, i);
      assert !Hits(w, reg, i);
      Untouched(regs, ws[..n], reg, i);
    }
  }

  predicate Disjoint(f: Field, g: Field) { f.reg != g.reg || f.pos + f.width <= g.pos || g.pos + g.width <= f.pos }

  lemma CoversApart(f: Field, g: Field, i: bv8)
    requires ValidField(f) && ValidField(g) && f.reg == g.reg && Disjoint(f, g) && i < f.width
    ensures Covers(f, f.pos + i) && !Covers(g, f.pos + i) && f.pos + i < 32
  {
  }

  /** The register file refines a map from fields to values: a field reads as the value last written to it,
      cut to its width, as long as only disjoint fields were written since. */
  lemma ReadsLastWrite(regs: seq<bv32>, ws: seq<Write>, k: nat)
    requires |regs| == REGISTERS && ValidWrites(ws) && k < |ws|
    requires forall j :: k < j < |ws| ==> Disjoint(ws[k].f, ws[j].f)
    ensures GetField(Apply(regs, ws)[ws[k].f.reg], ws[k].f) == And(ws[k].value, RegMask(ws[k].f.width))
  {
    hide RegMask, Bit, GetField, And, Covers, Written;
    var f, v := ws[k].f, ws[k].value;
    var x := Apply(regs, ws)[f.reg];
    forall i: bv8 | i < 32 ensures Bit(GetField(x, f), i) <==> Bit(And(v, RegMask(f.width)), i) {
      GetBit(x, f, i);
      BitAnd(v, RegMask(f.width), i);
      MaskBit(f.width, i);
      if i < f.width {
        forall j | k < j < |ws| ensures !Hits(ws[j], f.reg, f.pos + i) {
          if ws[j].f.reg == f.reg {
            CoversApart(f, ws[j].f, i);
          }
        }
        OwnBit(f, i);
        LastWriteWins(regs, ws, f.reg, f.pos + i, k);
      }
    }
    SameBits(GetField(x, f), And(v, RegMask(f.width)));
  }

  lemma OwnBit(f: Field, i: bv8)
    requires ValidField(f) && i < f.width
    ensures Covers(f, f.pos + i) && f.pos + i < 32
    ensures forall value :: Written(f, value, f.pos + i) <==> Bit(value, i)
  {
    assert f.pos + i - f.pos == i;
  }

  /** A field that only disjoint fields were written beside keeps its value. */
  lemma DisjointUntouched(regs: seq<bv32>, ws: seq<Write>, f: Field)
    requires |regs| == REGISTERS && ValidWrites(ws) && ValidField(f)
    requires forall j :: 0 <= j < |ws| ==> Disjoint(f, ws[j].f)
    ensures GetField(Apply(regs, ws)[f.reg], f) == GetField(regs[f.reg], f)
  {
    hide RegMask, Bit, GetField, Covers;
    var x := Apply(regs, ws)[f.reg];
    forall i: bv8 | i < 32 ensures Bit(GetField(x, f), i) <==> Bit(GetField(regs[f.reg], f), i) {
      GetBit(x, f, i);
      GetBit(regs[f.reg], f, i);
      if i < f.width {
        OwnBit(f, i);
        forall j | 0 <= j < |ws| ensures !Hits(ws[j], f.reg, f.pos + i) {
          if ws[j].f.reg == f.reg {
            CoversApart(f, ws[j].f, i);
          }
        }
        Untouched(regs, ws, f.reg, f.pos + i);
      }
    }
    SameBits(GetField(x, f), GetField(regs[f.reg], f));
  }

  // ---- The register file

  class RegisterFile {
    const regBase: array<bv32>

    constructor (map_: array<bv32>)
      ensures regBase == map_
    {
      regBase := map_;
    }

    method SetRegisterFile(f: Field, value: bv32)
      requires regBase.Length == REGISTERS && ValidField(f)
      modifies regBase
      ensures regBase[..] == Apply(old(regBase[..]), [Write(f, value)])
    {
      hide RegMask, And, Or, Not, Shl;
      ghost var was, ws := regBase[..], [Write(f, value)];
      var tmp := regBase[f.reg];
      tmp := And(tmp, Not(Shl(RegMask(f.width), f.pos)));
      tmp := Or(tmp, Shl(And(value, RegMask(f.width)), f.pos));
      regBase[f.reg] := tmp;
      assert ws[..0] == [] && Apply(was, ws[..0]) == was;
    }

    method GetRegisterFile(f: Field) returns (r: bv32)
      requires regBase.Length == REGISTERS && ValidField(f)
      ensures r == GetField(regBase[f.reg], f)
      ensures forall i: bv8 :: i < 32 ==> (Bit(r, i) <==> i < f.width && Bit(regBase[f.reg], f.pos + i))
    {
      hide RegMask, And, Shr, Bit;
      var tmp := regBase[f.reg];
      tmp := Shr(tmp, f.pos);
      tmp := And(tmp, RegMask(f.width));
      forall i: bv8 | i < 32 ensures Bit(tmp, i) <==> i < f.width && Bit(regBase[f.reg], f.pos + i) {
        GetBit(regBase[f.reg], f, i);
      }
      return tmp;
    }
  }

  // ---- Rows of the table

  const DEC_IRQ_STAT := Field(55, 10, 4)
  const DEC_TIMEOUT := Field(55, 1, 13)
  const DEC_ERROR_INT := Field(55, 1, 12)
  const DEC_PIC_INF := Field(55, 1, 10)
  const DEC_SLICE_INT := Field(55, 1, 9)
  const DEC_ASO_INT := Field(55, 1, 8)
  const DEC_BUFFER_INT := Field(55, 1, 6)
  const DEC_BUS_INT := Field(55, 1, 5)
  const DEC_RDY_INT := Field(55, 1, 4)

  /** The masks that JpegDecDecode tests the status with (jpegregdrv.h). */
  const IRQ_DEC_RDY: bv32 := 0x1
  const IRQ_BUS_ERROR: bv32 := 0x2
  const IRQ_BUFFER_EMPTY: bv32 := 0x4
  const IRQ_ASO: bv32 := 0x10
  const IRQ_SLICE_READY: bv32 := 0x20
  const IRQ_STREAM_ERROR: bv32 := 0x100
  const IRQ_TIMEOUT: bv32 := 0x200

  /** The ten-bit status and the single fields inside it, HWIF_DEC_PIC_INF too, for which there is no mask,
      show the same bits of register 55. */
  lemma StatusAgrees(x: bv32)
    ensures var status := GetField(x, DEC_IRQ_STAT);
      && (status & IRQ_DEC_RDY != 0 <==> GetField(x, DEC_RDY_INT) == 1)
      && (status & IRQ_BUS_ERROR != 0 <==> GetField(x, DEC_BUS_INT) == 1)
      && (status & IRQ_BUFFER_EMPTY != 0 <==> GetField(x, DEC_BUFFER_INT) == 1)
      && (status & IRQ_ASO != 0 <==> GetField(x, DEC_ASO_INT) == 1)
      && (status & IRQ_SLICE_READY != 0 <==> GetField(x, DEC_SLICE_INT) == 1)
      && (status & 0x40 != 0 <==> GetField(x, DEC_PIC_INF) == 1)
      && (status & IRQ_STREAM_ERROR != 0 <==> GetField(x, DEC_ERROR_INT) == 1)
      && (status & IRQ_TIMEOUT != 0 <==> GetField(x, DEC_TIMEOUT) == 1)
  {
  }

  /** The fields of register 122 that a JPEG image is described with. */
  const JPEG_122: seq<Field> := [
    Field(122, 1, 0), Field(122, 1, 1), Field(122, 1, 2), Field(122, 1, 3), Field(122, 1, 4), Field(122, 1, 5),
    Field(122, 1, 6), Field(122, 1, 7), Field(122, 3, 8), Field(122, 2, 11), Field(122, 1, 25), Field(122, 6, 26)]

  /** The fields of register 121 for progressive images. */
  const JPEG_121: seq<Field> := [
    Field(121, 8, 0), Field(121, 8, 8), Field(121, 4, 16), Field(121, 4, 20), Field(121, 1, 24), Field(121, 1, 25),
    Field(121, 1, 26)]

  /** A field of another codec in register 122 (INTRADC_VLC_THR shares no JPEG bit, VOP_TIME_INCR does). */
  const VOP_TIME_INCR := Field(122, 16, 0)

  /** No two of them overlap, so that each reads as it was last written whatever the order of the writes. */
  lemma JpegFieldsAreDisjoint(i: nat, j: nat)
    ensures i < j < |JPEG_122| ==> ValidField(JPEG_122[i]) && Disjoint(JPEG_122[i], JPEG_122[j])
    ensures i < j < |JPEG_121| ==> ValidField(JPEG_121[i]) && Disjoint(JPEG_121[i], JPEG_121[j])
  {
  }

  /** Fields of different codecs do overlap: a write to one is seen through the other. */
  lemma CodecsOverlap(x: bv32, value: bv32)
    ensures var mode := JPEG_122[8];
      GetField(SetField(x, VOP_TIME_INCR, value), mode) == (value >> 8) & 7
  {
  }
}
