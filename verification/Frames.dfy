/**
 * Specification of the physical frame allocator: one flag per frame and a
 * cached count of free frames.  The Pmm module implements it on a byte bitmap.
 */
module Frames {
  /** `used[f]` tells whether frame f is taken; `free` caches the number of free frames. */
  datatype Frames = Frames(used: seq<bool>, free: nat)

  /** Number of free frames below n. */
  function CountFree(used: seq<bool>, n: nat): (c: nat)
    requires n <= |used|
    ensures c <= n
    ensures c == 0 <==> forall f :: 0 <= f < n ==> used[f]
  {
    if n == 0 then 0 else CountFree(used, n - 1) + (if used[n - 1] then 0 else 1)
  }

  ghost predicate Counted(fr: Frames) {
    fr.free == CountFree(fr.used, |fr.used|)
  }

  /** Lowest free frame at or above `from`, or |used| when there is none. */
  function FirstFree(used: seq<bool>, from: nat): (f: nat)
    requires from <= |used|
    ensures from <= f <= |used|
    ensures f < |used| ==> !used[f]
    ensures forall k :: from <= k < f ==> used[k]
    decreases |used| - from
  {
    if from == |used| || !used[from] then from else FirstFree(used, from + 1)
  }

  /** pmm_alloc_frame: the new state and the frame number handed out, 0 on failure. */
  function Alloc(fr: Frames): (Frames, nat) {
    var f := FirstFree(fr.used, 0);
    if fr.free == 0 || f == |fr.used| then (fr, 0)
    else (Frames(fr.used[f := true], fr.free - 1), f)
  }

  /** pmm_free_frame of frame number f. */
  function Free(fr: Frames, f: nat): Frames {
    if f >= |fr.used| || !fr.used[f] then fr
    else Frames(fr.used[f := false], fr.free + 1)
  }

  // ----- the cached count is exact -----

  /** Flipping one flag moves the count by one. */
  lemma {:induction false} CountFreeUpdate(used: seq<bool>, f: nat, b: bool, n: nat)
    requires n <= |used| && f < |used|
    ensures CountFree(used[f := b], n) ==
            CountFree(used, n) + (if f < n && used[f] && !b then 1 else if f < n && !used[f] && b then -1 else 0)
  {
    if n > 0 {
      CountFreeUpdate(used, f, b, n - 1);
    }
  }

  lemma AllocCounted(fr: Frames)
    requires Counted(fr)
    ensures Counted(Alloc(fr).0)
  {
    var f := FirstFree(fr.used, 0);
    if f < |fr.used| {
      CountFreeUpdate(fr.used, f, true, |fr.used|);
    }
  }

  lemma FreeCounted(fr: Frames, f: nat)
    requires Counted(fr)
    ensures Counted(Free(fr, f))
  {
    if f < |fr.used| {
      CountFreeUpdate(fr.used, f, false, |fr.used|);
    }
  }

  /**
   * What a caller of pmm_alloc_frame learns: with an exact count, allocation
   * fails exactly when every frame is taken (or when frame 0, whose address is
   * the failure value, is free); otherwise it takes the lowest free frame.
   */
  lemma AllocLowest(fr: Frames)
    requires Counted(fr)
    ensures var (fr', f) := Alloc(fr);
            && (f == 0 <==> (forall k :: 0 <= k < |fr.used| ==> fr.used[k]) || (|fr.used| > 0 && !fr.used[0]))
            && (f != 0 ==> f < |fr.used| && !fr.used[f] && (forall k :: 0 <= k < f ==> fr.used[k])
                           && fr'.used == fr.used[f := true] && fr'.free == fr.free - 1)
            && (f == 0 && |fr.used| > 0 && fr.used[0] ==> fr' == fr)
  {
    var f := FirstFree(fr.used, 0);
    if |fr.used| > 0 && !fr.used[0] {
      assert f == 0;
    }
  }

  // ----- runs of the allocator -----

  datatype Op = AllocOp | FreeOp(frame: nat)

  /** Allocator state together with the frames currently handed out. */
  datatype Run = Run(fr: Frames, live: set<nat>)

  /** A caller may free only what it holds. */
  ghost predicate Legal(r: Run, op: Op) {
    op.FreeOp? ==> op.frame in r.live
  }

  function Step(r: Run, op: Op): Run {
    match op
    case AllocOp =>
      var (fr', f) := Alloc(r.fr);
      Run(fr', if f == 0 then r.live else r.live + {f})
    case FreeOp(f) => Run(Free(r.fr, f), r.live - {f})
  }

  function Steps(r: Run, ops: seq<Op>): Run
    decreases |ops|
  {
    if ops == [] then r else Steps(Step(r, ops[0]), ops[1..])
  }

  ghost predicate LegalRun(r: Run, ops: seq<Op>)
    decreases |ops|
  {
    ops == [] || (Legal(r, ops[0]) && LegalRun(Step(r, ops[0]), ops[1..]))
  }

  /** The count is exact, frame 0 and the reserved frames are taken and never handed out. */
  ghost predicate RunInv(r: Run, reserved: set<nat>) {
    && Counted(r.fr)
    && 0 in reserved
    && reserved !! r.live
    && (forall f :: 0 <= f < |r.fr.used| ==> (r.fr.used[f] <==> f in reserved || f in r.live))
    && (forall f :: f in r.live ==> 0 < f < |r.fr.used|)
  }

  lemma StepKeeps(r: Run, op: Op, reserved: set<nat>)
    requires RunInv(r, reserved) && Legal(r, op)
    ensures RunInv(Step(r, op), reserved)
    ensures |Step(r, op).fr.used| == |r.fr.used|
  {
    match op
    case AllocOp => AllocCounted(r.fr);
    case FreeOp(f) => FreeCounted(r.fr, f);
  }

  /**
   * Safety of every run: a frame is taken exactly when it is reserved or live,
   * so an allocation never hands out a live or reserved frame, and the live
   * and the free frames always add up.
   */
  lemma {:induction false} RunSafe(r: Run, ops: seq<Op>, reserved: set<nat>)
    requires RunInv(r, reserved) && LegalRun(r, ops)
    ensures RunInv(Steps(r, ops), reserved)
    ensures var (_, f) := Alloc(Steps(r, ops).fr); f != 0 ==> f !in Steps(r, ops).live && f !in reserved
    decreases |ops|
  {
    if ops == [] {
      AllocLowest(r.fr);
    } else {
      StepKeeps(r, ops[0], reserved);
      RunSafe(Step(r, ops[0]), ops[1..], reserved);
    }
  }
}
