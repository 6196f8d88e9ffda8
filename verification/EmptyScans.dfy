/** The end of progressive and non-interleaved images: components whose last scan was interleaved get an
    empty scan each, one for every call of JpegDecDecode. */
module EmptyScans {
  import opened CallChecks
  import opened Common
  import opened FrameGeometry
  import opened Scans

  /** The marked components from i on, in ascending order. */
  function Needed(flags: Flags, i: nat): (r: seq<nat>)
    decreases 3 - i
  {
    if i >= 3 then [] else if flags[i] then [i] + Needed(flags, i + 1) else Needed(flags, i + 1)
  }

  /** The components that get an empty scan: those marked, except in a frame of one component. */
  function EmptyScansOf(f: FrameFacts, flags: Flags): seq<nat> {
    if f.nf == 1 then [] else Needed(flags, 0)
  }

  /** Calls of JpegDecDecode: the codes in order, whether the last call never returns, and the components
      for which an empty scan was issued. */
  datatype Calls = Calls(codes: seq<Ret>, hangs: bool, empty: seq<nat>)

  /** The calls that finish an image that is not baseline, up to the one that is refused at its head. */
  function FinishCalls(k: Setup, op: OpType, f: FrameFacts, flags: Flags): (r: Calls)
    ensures !r.hangs
  {
    var need := EmptyScansOf(f, flags);
    if |need| <= 1 then Calls([FrameReady], false, need)
    else match DecodeChecks(k, op)
      case Some(ret) => Calls([ScanProcessed, ret], false, [need[0]])
      case None => Calls(seq(|need| - 1, _ => ScanProcessed) + [FrameReady], false, need)
  }

  /** The geometry part of JpegDecInitHWEmptyScan, a third computation of component sizes.  Chroma components of
      4:1:1 frames are taken to be as wide as the image. */
  method InitHWEmptyScan(info: DecInfo, f: FrameFacts, componentId: nat)
    requires componentId < 3 && f.hwX >= 0 && f.hwY >= 0
    modifies info
    ensures info.componentId == componentId && info.nonInterleaved && info.pfNeeded == old(info.pfNeeded)
    ensures info.operationType == old(info.operationType)
    ensures WholeFrame(f) ==>
      if f.format == Yuv411 && componentId != 0 then info.x == f.hwX && info.y == f.hwY
      else SizeOf(info.Current(), f, ScanHeader(1, [componentId + 1], 0, 0, 0))
  {
    if WholeFrame(f) {
      ShareRounds(f, if f.format == Yuv411 then 1 else componentId + 1);
    }
    hide Rounded, LeastMultipleOf16;
    info.nonInterleaved := true;
    info.componentId := componentId;
    info.yCbCrMode := 0;
    info.x, info.y, info.fillX, info.fillY := f.hwX, f.hwY, false, false;
    if componentId != 0 {
      if f.format == Yuv420 || f.format == Yuv422 {
        info.x := info.x / 2;
        if info.x % 16 != 0 {
          info.x := info.x + 8;
          info.fillX := true;
        }
      }
      if f.format == Yuv420 || f.format == Yuv440 {
        info.y := info.y / 2;
        if info.y % 16 != 0 {
          info.y := info.y + 8;
          info.fillY := true;
        }
      }
    }
  }

  class Finisher {
    const info: DecInfo
    const f: FrameFacts
    var progressiveFinish: bool
    var pfCompId: nat
    ghost var log: seq<nat>     // the components for which an empty scan was issued

    ghost predicate Valid()
      reads this, info
    {
      f.hwX >= 0 && f.hwY >= 0 && (progressiveFinish ==> pfCompId < 3 && info.pfNeeded[pfCompId])
    }

    constructor (i: DecInfo, facts: FrameFacts)
      requires facts.hwX >= 0 && facts.hwY >= 0
      ensures Valid() && !progressiveFinish && info == i && f == facts && log == []
    {
      info, f, progressiveFinish, pfCompId, log := i, facts, false, 0, [];
    }

    /** `while (i < 3 && pfNeeded[i] == 0) i++` */
    method NextNeeded(i0: nat) returns (i: nat)
      requires i0 <= 3
      ensures i0 <= i <= 3 && Needed(info.pfNeeded, i0) == Needed(info.pfNeeded, i)
      ensures i < 3 ==> info.pfNeeded[i] && Needed(info.pfNeeded, i) == [i] + Needed(info.pfNeeded, i + 1)
    {
      i := i0;
      while i < 3 && !info.pfNeeded[i]
        invariant i0 <= i <= 3 && Needed(info.pfNeeded, i0) == Needed(info.pfNeeded, i)
      {
        i := i + 1;
      }
    }

    /** The call that finds the image ready. */
    method ImageReady(endOfImage: bool) returns (ret: Ret)
      requires Valid() && !progressiveFinish
      modifies this, info
      ensures Valid() && info.pfNeeded == old(info.pfNeeded) && info.operationType == old(info.operationType)
      ensures var need := Needed(old(info.pfNeeded), 0);
        if old(info.operationType) == Baseline then ret == FrameReady && log == old(log) && !progressiveFinish
        else if !endOfImage then ret == ScanProcessed && log == old(log) && !progressiveFinish
        else if f.nf == 1 || need == [] then ret == FrameReady && log == old(log) && !progressiveFinish
        else
          && log == old(log) + [need[0]] && progressiveFinish == (|need| > 1)
          && ret == (if progressiveFinish then ScanProcessed else FrameReady)
          && (progressiveFinish ==> need == [need[0]] + Needed(info.pfNeeded, pfCompId))
    {
      if info.operationType == Baseline {
        return FrameReady;
      }
      if !endOfImage {
        return ScanProcessed;
      }
      if f.nf == 1 {
        return FrameReady;
      }
      var i := NextNeeded(0);
      if i == 3 {
        return FrameReady;
      }
      log := log + [i];
      InitHWEmptyScan(info, f, i);
      i := NextNeeded(i + 1);
      if i == 3 {
        return FrameReady;
      }
      progressiveFinish := true;
      pfCompId := i;
      ret := ScanProcessed;
    }

    /** Every later call while progressiveFinish is set, behind the checks at its head. */
    method Continue() returns (ret: Ret)
      requires Valid() && progressiveFinish
      modifies this, info
      ensures Valid() && info.pfNeeded == old(info.pfNeeded) && info.operationType == old(info.operationType)
      ensures var need := Needed(info.pfNeeded, old(pfCompId));
        && need != [] && log == old(log) + [need[0]] && progressiveFinish == (|need| > 1)
        && ret == (if progressiveFinish then ScanProcessed else FrameReady)
        && (progressiveFinish ==> need == [need[0]] + Needed(info.pfNeeded, pfCompId))
    {
      InitHWEmptyScan(info, f, pfCompId);
      log := log + [pfCompId];
      var i := NextNeeded(pfCompId + 1);
      if i == 3 {
        progressiveFinish := false;
        return FrameReady;
      }
      pfCompId := i;
      ret := ScanProcessed;
    }

    /** An application that calls again as long as SCAN_PROCESSED comes back: one empty scan for each marked
        component, in ascending order, SCAN_PROCESSED from all calls but the last, unless the second call
        is refused. */
    method FinishImage(k: Setup) returns (rets: seq<Ret>)
      requires Valid() && !progressiveFinish && info.operationType != Baseline
      modifies this, info
      ensures Valid()
      ensures progressiveFinish
         <==> |EmptyScansOf(f, old(info.pfNeeded))| > 1 && DecodeChecks(k, old(info.operationType)).Some?
      ensures var calls := FinishCalls(k, old(info.operationType), f, old(info.pfNeeded));
        rets == calls.codes && log == old(log) + calls.empty
    {
      hide Needed, DecodeChecks;
      ghost var need := EmptyScansOf(f, info.pfNeeded);
      var ret := ImageReady(true);
      rets := [ret];
      ghost var done := if need == [] then 0 else 1;
      while ret == ScanProcessed
        invariant Valid() && info.pfNeeded == old(info.pfNeeded) && info.operationType == old(info.operationType)
        invariant done <= |need| && log == old(log) + need[..done]
        invariant progressiveFinish == (done < |need|) && ret == if progressiveFinish then ScanProcessed else FrameReady
        invariant progressiveFinish ==> need[done..] == Needed(info.pfNeeded, pfCompId)
        invariant need == [] ==> rets == [FrameReady]
        invariant need != [] ==> |rets| == done && rets[done - 1] == ret
        invariant done > 1 ==> DecodeChecks(k, info.operationType).None?
        invariant forall i :: 0 <= i < |rets| - 1 ==> rets[i] == ScanProcessed
        decreases |need| - done
      {
        var refused := DecodeChecks(k, info.operationType);
        if refused.Some? {
          return rets + [refused.value];
        }
        ret := Continue();
        rets := rets + [ret];
        done := done + 1;
      }
    }
  }

  /** Needed lists exactly the marked components, in ascending order. */
  lemma {:induction false} NeededLists(flags: Flags, i: nat)
    requires i <= 3
    ensures forall c: nat :: c in Needed(flags, i) <==> i <= c < 3 && flags[c]
    ensures forall j, k :: 0 <= j < k < |Needed(flags, i)| ==> Needed(flags, i)[j] < Needed(flags, i)[k]
    decreases 3 - i
  {
    if i < 3 {
      NeededLists(flags, i + 1);
      var rest := Needed(flags, i + 1);
      assert Needed(flags, i) == if flags[i] then [i] + rest else rest;
      forall k | 0 <= k < |rest| ensures rest[k] > i {
        assert rest[k] in Needed(flags, i + 1);
      }
    }
  }

  /** Over whole images: the empty scans of FinishImage go to the components that were in an interleaved
      scan, or were marked before the image, and in no scan of their own after it. */
  lemma EmptyScansAreOwed(p: Params, f: FrameFacts, scans: seq<ScanHeader>, ready: seq<bool>, c: nat)
    requires AllReadable(scans) && |ready| == |scans| && f.nf == 3 && c < 3
    requires ParamsAfter(p, f, scans, ready).Some?
    ensures c in Needed(ParamsAfter(p, f, scans, ready).value.pfNeeded, 0) <==> Owed(p.pfNeeded[c], scans, c)
  {
    hide Owed;
    NeededLists(ParamsAfter(p, f, scans, ready).value.pfNeeded, 0);
    NeededIff(p, f, scans, ready, c);
  }
}
