/**
 rotate_: the index-shift chain. For i from max_files down to 1, the segment at index
 i - 1 (if it exists) is renamed over index i, each rename retried once; a second
 failure truncates the active file and raises. A completed chain reopens the active
 file truncated.
 */
module Rotation {
  import opened Common
  import opened Paths
  import opened Os
  import opened Naming

  /** The files of segments 0..top. */
  function LadderFiles(base: string, top: nat): set<string> {
    set j | 0 <= j <= top :: SegmentFile(base, j)
  }

  /** The rename at index j failed on both attempts, its source present in `fs`. */
  predicate FailedAt(base: string, fs: FileSystem, os: nat -> Attempts, j: nat, e: SinkError) {
    && 1 <= j
    && e == RenameFailed(CalcFilename(base, j - 1), CalcFilename(base, j))
    && SegmentFile(base, j - 1) in fs
    && !os(j).first && !os(j).retry
  }

  /** The for loop of rotate_ from index `i` down to 1; os(i) answers the renames at index i. */
  function ShiftDown(base: string, fs: FileSystem, i: nat, os: nat -> Attempts): (r: Effect)
    ensures r.error.Some? ==> exists j: nat :: j <= i && FailedAt(base, fs, os, j, r.error.value)
    decreases i
  {
    if i == 0 then Effect(fs, None)
    else
      var src := CalcFilename(base, i - 1);
      var target := CalcFilename(base, i);
      if !Exists(fs, src) then
        ShiftDown(base, fs, i - 1, os)
      else
        var r := RenameWithRetry(fs, src, target, os(i));
        if r.ok then
          var rest := ShiftDown(base, r.fs, i - 1, os);
          FailureBelowStep(base, fs, r.fs, i, os, rest.error);
          rest
        else
          FailureAtStep(base, fs, i, os);
          Effect(r.fs, Some(RenameFailed(src, target)))
  }

  /** A failure further down the chain, after the step at index i, is a failure against the state before the step. */
  lemma FailureBelowStep(base: string, fs: FileSystem, fs1: FileSystem, i: nat, os: nat -> Attempts, err: Option<SinkError>)
    requires 1 <= i
    requires fs1 - {SegmentFile(base, i - 1), SegmentFile(base, i)} == fs - {SegmentFile(base, i - 1), SegmentFile(base, i)}
    requires err.Some? ==> exists j: nat :: j <= i - 1 && FailedAt(base, fs1, os, j, err.value)
    ensures err.Some? ==> exists j: nat :: j <= i && FailedAt(base, fs, os, j, err.value)
  {
    if err.Some? {
      var j: nat :| j <= i - 1 && FailedAt(base, fs1, os, j, err.value);
      SegmentFilesDistinct(base, j - 1, i - 1);
      SegmentFilesDistinct(base, j - 1, i);
      UnchangedOutside(fs, fs1, SegmentFile(base, i - 1), SegmentFile(base, i), SegmentFile(base, j - 1));
      assert FailedAt(base, fs, os, j, err.value);
    }
  }

  /** The step at index i failing on both attempts is a failure at i. */
  lemma FailureAtStep(base: string, fs: FileSystem, i: nat, os: nat -> Attempts)
    requires 1 <= i
    requires Exists(fs, CalcFilename(base, i - 1))
    requires !RenameWithRetry(fs, CalcFilename(base, i - 1), CalcFilename(base, i), os(i)).ok
    ensures FailedAt(base, fs, os, i, RenameFailed(CalcFilename(base, i - 1), CalcFilename(base, i)))
  {
    SegmentFilesDistinct(base, i - 1, i);
  }

  /** rotate_: the shift chain, then the active file reopened truncated, on success and on failure alike. */
  function Rotate(cfg: Config, fs: FileSystem, os: nat -> Attempts): (r: Effect)
    ensures Exists(r.fs, cfg.base) && r.fs[Resolve(cfg.base)] == []
    ensures r.error.Some? ==> exists j: nat :: j <= cfg.maxFiles && FailedAt(cfg.base, fs, os, j, r.error.value)
  {
    var shifted := ShiftDown(cfg.base, fs, cfg.maxFiles, os);
    Effect(Truncate(shifted.fs, cfg.base), shifted.error)
  }

  /**
   Where the file dst ends up after the chain, with src the file below it: src's contents
   moved up, or, with nothing below, dst vacated (`vacate`) or left alone.
   */
  ghost predicate SlotMoved(fs: FileSystem, fs': FileSystem, src: string, dst: string, vacate: bool) {
    if src in fs then dst in fs' && fs'[dst] == fs[src]
    else if vacate then dst !in fs'
    else (dst in fs' <==> dst in fs) && (dst in fs ==> fs'[dst] == fs[dst])
  }

  /** Where segment j ends up after the chain from `top` down: moved up, vacated, or (at the top) left alone. */
  ghost predicate SlotAfterShift(base: string, fs: FileSystem, top: nat, fs': FileSystem, j: nat)
    requires 1 <= j
  {
    SlotMoved(fs, fs', SegmentFile(base, j - 1), SegmentFile(base, j), j < top)
  }

  /** The effect of a completed chain from `top` down, stated file by file. */
  ghost predicate ShiftedDown(base: string, fs: FileSystem, top: nat, fs': FileSystem) {
    && fs' - LadderFiles(base, top) == fs - LadderFiles(base, top)
    && (forall j :: 1 <= j <= top ==> SlotAfterShift(base, fs, top, fs', j))
    && (1 <= top ==> SegmentFile(base, 0) !in fs')
    && (top == 0 ==> fs' == fs)
  }

  /** One step of the chain at index `top`: S = segment top - 1 moves over T = segment top, if S exists. */
  ghost predicate StepEffect(base: string, fs: FileSystem, top: nat, fs1: FileSystem)
    requires 1 <= top
  {
    var S := SegmentFile(base, top - 1);
    var T := SegmentFile(base, top);
    && (S in fs ==> T in fs1 && fs1[T] == fs[S] && S !in fs1 && fs1 - {S, T} == fs - {S, T})
    && (S !in fs ==> fs1 == fs)
  }

  /** The segment files below index top - 1 are neither S nor T. */
  lemma BelowStepUntouched(base: string, top: nat, j: nat)
    requires 1 <= top && j < top - 1
    ensures SegmentFile(base, j) != SegmentFile(base, top - 1)
    ensures SegmentFile(base, j) != SegmentFile(base, top)
  {
    SegmentFilesDistinct(base, j, top - 1);
    SegmentFilesDistinct(base, j, top);
  }

  /** Map bookkeeping for one step: what lies outside the lower ladder and outside {S, T} is unchanged. */
  lemma OutsideStep(fs: FileSystem, fs1: FileSystem, fs': FileSystem, lower: set<string>, S: string, T: string)
    requires fs' - lower == fs1 - lower
    requires fs1 - {S, T} == fs - {S, T}
    requires S in lower
    ensures fs' - (lower + {T}) == fs - (lower + {T})
  {
    assert fs' - (lower + {T}) == (fs' - lower) - {T};
    assert fs1 - (lower + {T}) == (fs1 - lower) - {T};
    assert fs1 - (lower + {T}) == (fs1 - {S, T}) - (lower + {T});
    assert fs - (lower + {T}) == (fs - {S, T}) - (lower + {T});
  }

  /** A slot below the step keeps what the shorter chain gave it. */
  lemma SlotBelowStep(base: string, fs: FileSystem, fs1: FileSystem, top: nat, fs': FileSystem, j: nat)
    requires 1 <= j < top
    requires StepEffect(base, fs, top, fs1)
    requires SlotAfterShift(base, fs1, top - 1, fs', j)
    ensures SlotAfterShift(base, fs, top, fs', j)
  {
    SourceBelowStep(base, top, j);
    SlotBelowStepFiles(fs, fs1, fs', SegmentFile(base, j - 1), SegmentFile(base, j),
                       SegmentFile(base, top - 1), SegmentFile(base, top), j < top - 1);
  }

  /** The source of a slot below the step is neither of the step's files. */
  lemma SourceBelowStep(base: string, top: nat, j: nat)
    requires 1 <= j < top
    ensures SegmentFile(base, j - 1) != SegmentFile(base, top - 1)
    ensures SegmentFile(base, j - 1) != SegmentFile(base, top)
  {
    SegmentFilesDistinct(base, j - 1, top);
    SegmentFilesDistinct(base, j - 1, top - 1);
  }

  /**
   The file-level argument of SlotBelowStep: the source src of a slot below the step is
   neither S nor T, so the step left it alone; the slot right below the step is S itself,
   which the step vacated.
   */
  lemma SlotBelowStepFiles(fs: FileSystem, fs1: FileSystem, fs': FileSystem, src: string, dst: string,
                           S: string, T: string, lower: bool)
    requires src != S && src != T
    requires S in fs ==> T in fs1 && fs1[T] == fs[S] && S !in fs1 && fs1 - {S, T} == fs - {S, T}
    requires S !in fs ==> fs1 == fs
    requires !lower ==> dst == S
    requires SlotMoved(fs1, fs', src, dst, lower)
    ensures SlotMoved(fs, fs', src, dst, true)
  {
    if S in fs {
      UnchangedOutside(fs, fs1, S, T, src);
    }
  }

  /** A step at `top` followed by a completed chain from top - 1 is a completed chain from `top`. */
  lemma ShiftStep(base: string, fs: FileSystem, fs1: FileSystem, top: nat, fs': FileSystem)
    requires 1 <= top
    requires StepEffect(base, fs, top, fs1)
    requires ShiftedDown(base, fs1, top - 1, fs')
    ensures ShiftedDown(base, fs, top, fs')
  {
    var S := SegmentFile(base, top - 1);
    var T := SegmentFile(base, top);
    var lower := LadderFiles(base, top - 1);
    SegmentFilesDistinct(base, top - 1, top);
    assert LadderFiles(base, top) == lower + {T};
    assert S in lower;
    assert T !in lower by {
      forall j | 0 <= j <= top - 1
        ensures SegmentFile(base, j) != T
      {
        SegmentFilesDistinct(base, j, top);
      }
    }
    assert fs1 - {S, T} == fs - {S, T};
    OutsideStep(fs, fs1, fs', lower, S, T);
    assert (T in fs' <==> T in fs1) && (T in fs1 ==> fs'[T] == fs1[T]) by {
      assert T in fs1 ==> T in fs1 - lower;
      assert T in fs' ==> T in fs' - lower;
    }
    assert SlotAfterShift(base, fs, top, fs', top);
    forall j | 1 <= j < top
      ensures SlotAfterShift(base, fs, top, fs', j)
    {
      SlotBelowStep(base, fs, fs1, top, fs', j);
    }
  }

  /** A completed chain does what ShiftedDown states, index by index. */
  lemma {:induction false} ShiftDownMeetsSpec(base: string, fs: FileSystem, top: nat, os: nat -> Attempts)
    requires ShiftDown(base, fs, top, os).error.None?
    ensures ShiftedDown(base, fs, top, ShiftDown(base, fs, top, os).fs)
    decreases top
  {
    if top > 0 {
      var S := SegmentFile(base, top - 1);
      SegmentFilesDistinct(base, top - 1, top);
      var fs1 := if S in fs then RenameWithRetry(fs, CalcFilename(base, top - 1), CalcFilename(base, top), os(top)).fs else fs;
      assert StepEffect(base, fs, top, fs1);
      ShiftDownMeetsSpec(base, fs1, top - 1, os);
      ShiftStep(base, fs, fs1, top, ShiftDown(base, fs, top, os).fs);
    }
  }

  /**
   The state a completed rotate_ leaves: the active file exists and is empty, every slot
   1..top is as SlotAfterShift describes, and every file outside the ladder is untouched.
   */
  ghost predicate Rotated(base: string, top: nat, fs: FileSystem, fs': FileSystem) {
    && SegmentFile(base, 0) in fs' && fs'[SegmentFile(base, 0)] == []
    && (forall j :: 1 <= j <= top ==> SlotAfterShift(base, fs, top, fs', j))
    && fs' - LadderFiles(base, top) == fs - LadderFiles(base, top)
  }

  /** Truncating the active file after the chain does not disturb slots 1..top. */
  lemma TruncateKeepsSlot(base: string, fs: FileSystem, top: nat, shifted: FileSystem, j: nat)
    requires 1 <= j <= top
    requires SlotAfterShift(base, fs, top, shifted, j)
    ensures SlotAfterShift(base, fs, top, shifted[SegmentFile(base, 0) := []], j)
  {
    SegmentFilesDistinct(base, j, 0);
  }

  /**
   A completed rotate_: every existing segment i - 1 now sits at index i; the old occupant
   of an index is displaced only when the segment below it existed; a vacated index is
   left empty; the active file is new and empty; every other file is untouched.
   */
  lemma RotateShiftsLadder(cfg: Config, fs: FileSystem, os: nat -> Attempts)
    requires Rotate(cfg, fs, os).error.None?
    ensures Rotated(cfg.base, cfg.maxFiles, fs, Rotate(cfg, fs, os).fs)
  {
    var base := cfg.base;
    var top := cfg.maxFiles;
    var shifted := ShiftDown(base, fs, top, os).fs;
    ShiftDownMeetsSpec(base, fs, top, os);
    var S0 := SegmentFile(base, 0);
    var fs' := shifted[S0 := []];
    assert Rotate(cfg, fs, os).fs == fs';
    forall j | 1 <= j <= top
      ensures SlotAfterShift(base, fs, top, fs', j)
    {
      TruncateKeepsSlot(base, fs, top, shifted, j);
    }
    assert S0 in LadderFiles(base, top);
    assert fs' - LadderFiles(base, top) == shifted - LadderFiles(base, top);
  }

  /** rotate_ raises only when some rename whose source existed failed on both attempts, and then leaves the active file empty. */
  lemma RotateFailsOnlyOnDoubleFailure(cfg: Config, fs: FileSystem, os: nat -> Attempts)
    ensures var r := Rotate(cfg, fs, os);
      r.error.Some? ==>
        && r.fs[Resolve(cfg.base)] == []
        && exists j :: 1 <= j <= cfg.maxFiles && SegmentFile(cfg.base, j - 1) in fs && !os(j).first && !os(j).retry
    ensures (forall j :: 1 <= j <= cfg.maxFiles ==> os(j).first || os(j).retry) ==> Rotate(cfg, fs, os).error.None?
  {
    var r := Rotate(cfg, fs, os);
    if r.error.Some? {
      var j: nat :| j <= cfg.maxFiles && FailedAt(cfg.base, fs, os, j, r.error.value);
      assert 1 <= j;
    }
  }
}
