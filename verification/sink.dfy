/**
 The sink itself: the constructor's opening of the active file (with the optional
 rotate_on_open cycle) and sink_it_, the size-counter state machine that triggers
 rotate_ and compress_ before a write.
 */
module Sink {
  import opened Common
  import opened Paths
  import opened Os
  import opened Naming
  import opened Rotation
  import opened Archive
  import opened Retention

  /** The sink's state: its configuration, the files, and current_size_. */
  datatype Sink = Sink(cfg: Config, fs: FileSystem, currentSize: nat)

  /** What the outside world answers during one call: renames, the directory listing, the compressor and the clock. */
  datatype Env = Env(
    rotateOs: nat -> Attempts,
    listing: Listing,
    archiveOs: nat -> Attempts,
    compressor: Bytes -> Option<Bytes>,
    time: string)

  /** The state after a call, whether it ran a rotation cycle, and the error it raised, if any. */
  datatype Outcome = Outcome(sink: Sink, rotated: bool, error: Option<SinkError>)

  /** The file with resolved name k is the same in both filesystems. */
  predicate SameAt(fs: FileSystem, fs': FileSystem, k: string) {
    (k in fs <==> k in fs') && (k in fs ==> fs[k] == fs'[k])
  }

  /** The active file: the base path, segment 0. */
  function Active(cfg: Config): string {
    Resolve(cfg.base)
  }

  /** current_size_ is the size of the active file. */
  predicate Tracks(s: Sink) {
    Active(s.cfg) in s.fs && |s.fs[Active(s.cfg)]| == s.currentSize
  }

  /**
   file_helper write: the handle was opened on the base path, so the record lands at the
   end of the active file while that file exists. Only compress_ removes it (with
   max_files 0, where the segment it compresses is the active file itself); the handle then
   points at an unlinked file and the bytes reach no path until the next reopen.
   */
  function WriteActive(cfg: Config, fs: FileSystem, record: Bytes): (r: FileSystem)
    ensures Active(cfg) in r <==> Active(cfg) in fs
    ensures Active(cfg) in fs ==> r[Active(cfg)] == fs[Active(cfg)] + record
    ensures r - {Active(cfg)} == fs - {Active(cfg)}
  {
    if Exists(fs, cfg.base) then Append(fs, cfg.base, record) else fs
  }

  /**
   sink_it_ for an already formatted record: the counter grows by the record's size;
   past max_size (strictly) rotate_ and compress_ run first and the counter restarts at
   the record's size. An error from either leaves before the write.
   */
  function SinkIt(s: Sink, env: Env, record: Bytes): (r: Outcome)
    ensures r.sink.cfg == s.cfg
    ensures r.rotated <==> s.currentSize + |record| > s.cfg.maxSize
    ensures !r.rotated ==> r.error.None? && r.sink.currentSize == s.currentSize + |record|
    ensures r.rotated && r.error.None? ==> r.sink.currentSize == |record|
    ensures r.error.None? ==> r.sink.currentSize <= s.cfg.maxSize || r.sink.currentSize == |record|
    ensures !r.rotated ==> r.sink.fs == WriteActive(s.cfg, s.fs, record)
    ensures r.error.None? && Active(s.cfg) in r.sink.fs ==>
      && |record| <= |r.sink.fs[Active(s.cfg)]|
      && r.sink.fs[Active(s.cfg)][|r.sink.fs[Active(s.cfg)]| - |record|..] == record
  {
    var cfg := s.cfg;
    var size := s.currentSize + |record|;
    if size <= cfg.maxSize then
      Outcome(Sink(cfg, WriteActive(cfg, s.fs, record), size), false, None)
    else
      var rot := Rotate(cfg, s.fs, env.rotateOs);
      if rot.error.Some? then
        Outcome(Sink(cfg, rot.fs, 0), true, rot.error)
      else
        var comp := Compress(cfg, rot.fs, env.listing, env.archiveOs, env.compressor, env.time);
        if comp.error.Some? then
          Outcome(Sink(cfg, comp.fs, size), true, comp.error)
        else
          Outcome(Sink(cfg, WriteActive(cfg, comp.fs, record), |record|), true, None)
  }

  /** Resolving strips at most two characters, so a spelling more than two characters longer, or longer and stripped alike, names another file. */
  lemma LongerNameDiffers(x: string, b: string)
    requires |b| + 2 < |x| || (|b| < |x| && StartsDotSlash(x) == StartsDotSlash(b))
    ensures Resolve(x) != Resolve(b)
  {
    assert |Resolve(x)| == |x| - (if StartsDotSlash(x) then 2 else 0);
    assert |Resolve(b)| == |b| - (if StartsDotSlash(b) then 2 else 0);
  }

  /** The names compress_ derives from a base path directly under the root. */
  lemma RootNames(cfg: Config)
    requires cfg.Derived()
    requires LastIndexOf(cfg.base, '/') == Some(0)
    ensures cfg.BaseLocal() == "//" + cfg.stem
    ensures |cfg.base| == 1 + |cfg.stem| + |cfg.ext|
  {
    assert FileName(cfg.base) == cfg.base[1..];
  }

  /**
   Every name basename_local "." y with y at least one character longer than file_ext_
   resolves to a file other than the active one: such a name is always longer.
   */
  lemma ArchiveNameAvoidsActive(cfg: Config, y: string)
    requires cfg.Derived()
    requires |cfg.ext| + 1 <= |y|
    ensures Resolve(cfg.BaseLocal() + "." + y) != Active(cfg)
  {
    var x := cfg.BaseLocal() + "." + y;
    var stem := cfg.stem;
    match LastIndexOf(cfg.base, '/')
    case None =>
      NoDirectoryNames(cfg);
      assert |cfg.base| == |stem| + |cfg.ext|;
      LongerNameDiffers(x, cfg.base);
    case Some(sep) =>
      if sep == 0 {
        RootNames(cfg);
        LongerNameDiffers(x, cfg.base);
      } else {
        DirectoryNames(cfg, sep);
        DirectoryNameAvoidsActive(cfg.base, cfg.base[..sep], cfg.base[sep + 1..], stem, cfg.ext, y);
      }
  }

  /** String form of the case "dir/name": basename_local "." y shares the directory with the base path and is longer. */
  lemma DirectoryNameAvoidsActive(base: string, dir: string, name: string, stem: string, ext: string, y: string)
    requires base == dir + "/" + name && 0 < |dir|
    requires |name| == |stem| + |ext| && |ext| + 1 <= |y|
    ensures Resolve(dir + "/" + stem + "." + y) != Resolve(base)
  {
    var x := dir + "/" + stem + "." + y;
    assert x[0] == base[0] && x[1] == base[1];
    SameStartSameResolve(x, base);
    LongerNameDiffers(x, base);
  }

  /** Two spellings that agree on their first two characters agree on whether they start with "./". */
  lemma SameStartSameResolve(p: string, q: string)
    requires 2 <= |p| && 2 <= |q| && p[0] == q[0] && p[1] == q[1]
    ensures StartsDotSlash(p) == StartsDotSlash(q)
  {
  }

  /** The oldest archive is not the active file. */
  lemma OldestAvoidsActive(cfg: Config, name: string)
    requires cfg.Derived()
    requires IsOldest(cfg, name)
    ensures Resolve(name) != Active(cfg)
  {
    var p := IndexPrefix(cfg);
    var D := Dec(cfg.OldestSlot());
    OldestTail(name, p, D, cfg.ext, cfg.compExt);
    ArchiveNameAvoidsActive(cfg, name[|p|..]);
  }

  /** String form: a name that starts with p + D and then fits the tail is p followed by at least |D| + |ext| characters. */
  lemma OldestTail(name: string, p: string, D: string, ext: string, comp: string)
    requires StartsWith(name, p + D) && Fits(name[|p + D|..], ext, comp)
    ensures name == p + name[|p|..]
    ensures |D| + |ext| <= |name[|p|..]|
  {
    assert name[..|p|] == (p + D)[..|p|];
  }

  /** basename_local "." followed by two pieces, regrouped. */
  lemma RegroupAfterPrefix(b: string, d: string, tail: string)
    ensures (b + ".") + d + tail == b + "." + (d + tail)
  {
  }

  /** What the archive pattern leaves after the digits is at least as long as file_ext_. */
  lemma MatchedTailLength(cfg: Config, name: string)
    requires IndexDigits(cfg, name).Some?
    ensures |IndexPrefix(cfg)| + |IndexDigits(cfg, name).value| + |cfg.ext| <= |name|
  {
    IndexDigitsUnfold(cfg, name);
  }

  /** A matched archive and its renumbered name are not the active file. */
  lemma MatchedAvoidsActive(cfg: Config, name: string)
    requires cfg.Derived()
    requires !IsOldest(cfg, name) && IndexDigits(cfg, name).Some?
    ensures Resolve(name) != Active(cfg)
    ensures Resolve(Classify(cfg, name).target) != Active(cfg)
  {
    var b := cfg.BaseLocal();
    var d := IndexDigits(cfg, name).value;
    RenumberKeepsTail(cfg, name);
    MatchedTailLength(cfg, name);
    var tail := name[|b + "."| + |d|..];
    var d' := Dec(Num(d) + 1);
    RegroupAfterPrefix(b, d, tail);
    RegroupAfterPrefix(b, d', tail);
    ArchiveNameAvoidsActive(cfg, d + tail);
    ArchiveNameAvoidsActive(cfg, d' + tail);
  }

  /** The files a listed entry's action touches (its own, and its rename target) are never the active file. */
  lemma EntryAvoidsActive(cfg: Config, name: string)
    requires cfg.Derived()
    ensures !Classify(cfg, name).Keep? ==> Resolve(name) != Active(cfg)
    ensures Classify(cfg, name).Move? ==> Resolve(Classify(cfg, name).target) != Active(cfg)
  {
    if IsOldest(cfg, name) {
      OldestAvoidsActive(cfg, name);
    } else if IndexDigits(cfg, name).Some? {
      MatchedAvoidsActive(cfg, name);
    }
  }

  /** A pass whose entries never touch file k leaves k alone, whatever the renames answer. */
  lemma {:induction false} ApplyPlanKeepsFile(fs: FileSystem, ps: seq<string>, acts: seq<Action>,
                                              os: nat -> Attempts, j: nat, k: string)
    requires |acts| == |ps|
    requires forall i :: j <= i < |ps| && !acts[i].Keep? ==> Resolve(ps[i]) != k
    requires forall i :: j <= i < |ps| && acts[i].Move? ==> Resolve(acts[i].target) != k
    ensures SameAt(fs, ApplyPlan(fs, ps, acts, os, j).fs, k)
    decreases |ps| - j
  {
    if j < |ps| {
      var e := Apply(fs, ps[j], acts[j], os(j));
      assert SameAt(fs, e.fs, k) by {
        if acts[j].Move? {
          var S := Resolve(ps[j]);
          var T := Resolve(acts[j].target);
          var m := RenameWithRetry(fs, ps[j], acts[j].target, os(j));
          if m.ok {
            UnchangedOutside(fs, m.fs, S, T, k);
          }
        }
      }
      if e.error.None? {
        ApplyPlanKeepsFile(e.fs, ps, acts, os, j + 1, k);
      }
    }
  }

  /** compress_ never touches the active file: neither the archive shift nor the final compression step. */
  lemma CompressKeepsActive(cfg: Config, fs: FileSystem, listing: Listing, os: nat -> Attempts,
                            compressor: Bytes -> Option<Bytes>, time: string)
    requires cfg.Derived()
    requires cfg.maxFiles >= 1
    ensures SameAt(fs, Compress(cfg, fs, listing, os, compressor, time).fs, Active(cfg))
  {
    var shifted := ShiftArchives(cfg, fs, listing, os);
    ShiftKeepsActive(cfg, fs, listing, os);
    if shifted.error.None? {
      RetiredKeepsActive(cfg, shifted.fs, compressor, time);
    }
  }

  /** The archive shift never touches the active file, whatever the renames answer. */
  lemma ShiftKeepsActive(cfg: Config, fs: FileSystem, listing: Listing, os: nat -> Attempts)
    requires cfg.Derived()
    ensures SameAt(fs, ShiftArchives(cfg, fs, listing, os).fs, Active(cfg))
  {
    if listing.Entries? {
      var k := Active(cfg);
      var ps := listing.paths;
      var acts := Plan(cfg, ps);
      forall i | 0 <= i < |ps|
        ensures !acts[i].Keep? ==> Resolve(ps[i]) != k
        ensures acts[i].Move? ==> Resolve(acts[i].target) != k
      {
        EntryAvoidsActive(cfg, ps[i]);
      }
      ApplyPlanKeepsFile(fs, ps, acts, os, 0, k);
    }
  }

  /** The final compression step never touches the active file. */
  lemma RetiredKeepsActive(cfg: Config, fs: FileSystem, compressor: Bytes -> Option<Bytes>, time: string)
    requires cfg.Derived()
    requires cfg.maxFiles >= 1
    ensures SameAt(fs, CompressRetired(cfg, fs, compressor, time), Active(cfg))
  {
    FinalStepAvoidsActive(cfg, time);
    CompressRetiredSpec(cfg, fs, compressor, time);
    var r := CompressRetired(cfg, fs, compressor, time);
    var src := Resolve(CalcFilename(cfg.base, cfg.maxFiles));
    var arch := Resolve(ArchivePath(cfg, time) + cfg.compExt);
    if src in fs && compressor(fs[src]).Some? {
      UnchangedOutside(fs, r, src, arch, Active(cfg));
    }
  }

  /** The plaintext segment at index max_files and the archive made from it are not the active file. */
  lemma FinalStepAvoidsActive(cfg: Config, time: string)
    requires cfg.maxFiles >= 1
    ensures Resolve(CalcFilename(cfg.base, cfg.maxFiles)) != Active(cfg)
    ensures Resolve(ArchivePath(cfg, time) + cfg.compExt) != Active(cfg)
  {
    var base := cfg.base;
    var f := CalcFilename(base, cfg.maxFiles);
    SegmentFilesDistinct(base, cfg.maxFiles, 0);
    var (stem, ext) := SplitByExtension(base);
    assert f == stem + "." + Dec(cfg.maxFiles) + ext;
    assert |f| >= |base| + 2;
    var x := "." + time + cfg.compExt;
    assert ArchivePath(cfg, time) + cfg.compExt == f + x;
    ResolveAppend(f, x);
    CalcFilenameStartsLikeBase(base, cfg.maxFiles);
    LongerNameDiffers(f + x, base);
  }
  /**
   rotate_ failing on both attempts of a rename: the error propagates out of sink_it_,
   the active file is left empty, current_size_ is 0, and the record is not written.
   */
  lemma RotationFailureDropsRecord(s: Sink, env: Env, record: Bytes)
    requires s.currentSize + |record| > s.cfg.maxSize
    requires Rotate(s.cfg, s.fs, env.rotateOs).error.Some?
    ensures var r := SinkIt(s, env, record);
      && r.error == Rotate(s.cfg, s.fs, env.rotateOs).error
      && r.sink.fs == Rotate(s.cfg, s.fs, env.rotateOs).fs
      && r.sink.currentSize == 0
      && Active(s.cfg) in r.sink.fs && r.sink.fs[Active(s.cfg)] == []
      && Tracks(r.sink)
      && exists j :: 1 <= j <= s.cfg.maxFiles && SegmentFile(s.cfg.base, j - 1) in s.fs
           && !env.rotateOs(j).first && !env.rotateOs(j).retry
  {
    RotateFailsOnlyOnDoubleFailure(s.cfg, s.fs, env.rotateOs);
  }

  /**
   compress_ raising after a completed rotate_: the error propagates, the record is not
   written, and current_size_ keeps the grown value although the active file is empty.
   */
  lemma CompressFailureKeepsCount(s: Sink, env: Env, record: Bytes)
    requires s.cfg.Derived() && s.cfg.maxFiles >= 1
    requires s.currentSize + |record| > s.cfg.maxSize
    requires var rot := Rotate(s.cfg, s.fs, env.rotateOs);
      && rot.error.None?
      && Compress(s.cfg, rot.fs, env.listing, env.archiveOs, env.compressor, env.time).error.Some?
    ensures var r := SinkIt(s, env, record);
      var rot := Rotate(s.cfg, s.fs, env.rotateOs);
      && r.error == Compress(s.cfg, rot.fs, env.listing, env.archiveOs, env.compressor, env.time).error
      && r.sink.currentSize == s.currentSize + |record|
      && Active(s.cfg) in r.sink.fs && r.sink.fs[Active(s.cfg)] == []
      && !Tracks(r.sink)
  {
    var rot := Rotate(s.cfg, s.fs, env.rotateOs);
    CompressKeepsActive(s.cfg, rot.fs, env.listing, env.archiveOs, env.compressor, env.time);
  }

  /**
   While current_size_ is the active file's size, sink_it_ rotates exactly when the file
   plus the record would exceed max_size; a completed call keeps the counter equal to the
   file's size, the file having either grown by the record or restarted with it.
   */
  lemma SinkItKeepsTracking(s: Sink, env: Env, record: Bytes)
    requires s.cfg.Derived() && Tracks(s) && s.cfg.maxFiles >= 1
    ensures var r := SinkIt(s, env, record);
      && (r.rotated <==> |s.fs[Active(s.cfg)]| + |record| > s.cfg.maxSize)
      && (r.error.None? ==> Tracks(r.sink))
      && (r.error.None? && !r.rotated ==> r.sink.fs[Active(s.cfg)] == s.fs[Active(s.cfg)] + record)
      && (r.error.None? && r.rotated ==> r.sink.fs[Active(s.cfg)] == record)
  {
    var r := SinkIt(s, env, record);
    if r.rotated && r.error.None? {
      var rot := Rotate(s.cfg, s.fs, env.rotateOs);
      CompressKeepsActive(s.cfg, rot.fs, env.listing, env.archiveOs, env.compressor, env.time);
      assert [] + record == record;
    }
  }

  /**
   With max_files 0, compress_ compresses the segment at index 0, the active file itself:
   once the compressor accepts the empty file rotate_ left, that file is removed, and a
   completed sink_it_ leaves no active file, the record written to the unlinked handle
   and the counter at the record's size.
   */
  lemma NoSegmentsLosesRecord(s: Sink, env: Env, record: Bytes)
    requires s.cfg.Derived() && s.cfg.maxFiles == 0
    requires s.currentSize + |record| > s.cfg.maxSize
    requires env.compressor([]).Some?
    ensures var r := SinkIt(s, env, record);
      var rot := Rotate(s.cfg, s.fs, env.rotateOs);
      && r.rotated
      && rot.error.None?
      && (r.error.None? ==>
            && r.sink.fs == Compress(s.cfg, rot.fs, env.listing, env.archiveOs, env.compressor, env.time).fs
            && Active(s.cfg) !in r.sink.fs
            && r.sink.currentSize == |record|
            && !Tracks(r.sink))
  {
    var rot := Rotate(s.cfg, s.fs, env.rotateOs);
    assert ShiftDown(s.cfg.base, s.fs, 0, env.rotateOs) == Effect(s.fs, None);
    ShiftKeepsActive(s.cfg, rot.fs, env.listing, env.archiveOs);
  }

  /** The outcome of several sink_it_ calls: the state, the first error, and how many rotation cycles ran. */
  datatype Run = Run(sink: Sink, error: Option<SinkError>, rotations: nat)

  /** sink_it_ for each record in turn, with its own environment, stopping at the first error. */
  function SinkAll(s: Sink, envs: seq<Env>, records: seq<Bytes>): (r: Run)
    requires |envs| == |records|
    ensures r.sink.cfg == s.cfg
    ensures r.rotations <= |records|
    decreases |records|
  {
    if records == [] then Run(s, None, 0)
    else
      var o := SinkIt(s, envs[0], records[0]);
      var rotated := if o.rotated then 1 else 0;
      if o.error.Some? then Run(o.sink, o.error, rotated)
      else
        var rest := SinkAll(o.sink, envs[1..], records[1..]);
        Run(rest.sink, rest.error, rest.rotations + rotated)
  }

  /**
   Over any run of writes without an error, current_size_ stays the active file's size,
   and that size is at most max_size unless it is exactly the last record.
   */
  lemma {:induction false} SinkAllKeepsTracking(s: Sink, envs: seq<Env>, records: seq<Bytes>)
    requires |envs| == |records|
    requires s.cfg.Derived() && Tracks(s) && s.cfg.maxFiles >= 1
    ensures var r := SinkAll(s, envs, records);
      r.error.None? ==>
        && Tracks(r.sink)
        && (records != [] ==> r.sink.currentSize <= s.cfg.maxSize || r.sink.currentSize == |records[|records| - 1]|)
    decreases |records|
  {
    if records != [] {
      var o := SinkIt(s, envs[0], records[0]);
      SinkItKeepsTracking(s, envs[0], records[0]);
      if o.error.None? {
        SinkAllKeepsTracking(o.sink, envs[1..], records[1..]);
        if |records| > 1 {
          assert records[1..][|records[1..]| - 1] == records[|records| - 1];
        }
      }
    }
  }

  /** file_helper open in append mode: the active file exists afterwards, with its old contents if it had any. */
  function OpenActive(cfg: Config, fs: FileSystem): (r: FileSystem)
    ensures Active(cfg) in r
    ensures Active(cfg) in fs ==> r == fs
    ensures r - {Active(cfg)} == fs - {Active(cfg)}
  {
    if Exists(fs, cfg.base) then fs else fs[Resolve(cfg.base) := []]
  }

  /**
   The constructor: open the active file, take its size as current_size_, derive the
   configuration's names, and with rotate_on_open over a non-empty file run rotate_ and
   compress_. `resetCounter` says whether current_size_ is set back to 0 after that cycle;
   the source does not.
   */
  function Construct(st: Settings, fs: FileSystem, rotateOnOpen: bool, env: Env, resetCounter: bool): (r: Outcome)
    ensures r.sink.cfg == MakeConfig(st)
    ensures r.rotated <==> rotateOnOpen && |OpenActive(r.sink.cfg, fs)[Active(r.sink.cfg)]| > 0
    ensures !r.rotated ==> r.error.None? && r.sink.fs == OpenActive(r.sink.cfg, fs) && Tracks(r.sink)
    ensures r.rotated && r.error.None? ==>
      r.sink.currentSize == (if resetCounter then 0 else |OpenActive(r.sink.cfg, fs)[Active(r.sink.cfg)]|)
  {
    var cfg := MakeConfig(st);
    var fs0 := OpenActive(cfg, fs);
    var size := |fs0[Active(cfg)]|;
    if rotateOnOpen && size > 0 then
      var rot := Rotate(cfg, fs0, env.rotateOs);
      if rot.error.Some? then
        Outcome(Sink(cfg, rot.fs, 0), true, rot.error)
      else
        var comp := Compress(cfg, rot.fs, env.listing, env.archiveOs, env.compressor, env.time);
        Outcome(Sink(cfg, comp.fs, if resetCounter then 0 else size), true, comp.error)
    else
      Outcome(Sink(cfg, fs0, size), false, None)
  }

  /** The constructor as written. */
  function OpenAsWritten(st: Settings, fs: FileSystem, rotateOnOpen: bool, env: Env): Outcome {
    Construct(st, fs, rotateOnOpen, env, false)
  }

  /** The constructor with current_size_ reset after the rotate_on_open cycle. */
  function Open(st: Settings, fs: FileSystem, rotateOnOpen: bool, env: Env): Outcome {
    Construct(st, fs, rotateOnOpen, env, true)
  }

  /** After a rotate_on_open cycle, the active file is empty. */
  lemma OpenCycleEmptiesActive(st: Settings, fs: FileSystem, env: Env, resetCounter: bool)
    requires st.maxFiles >= 1
    ensures var o := Construct(st, fs, true, env, resetCounter);
      o.rotated ==> Active(o.sink.cfg) in o.sink.fs && o.sink.fs[Active(o.sink.cfg)] == []
  {
    var cfg := MakeConfig(st);
    var fs0 := OpenActive(cfg, fs);
    var rot := Rotate(cfg, fs0, env.rotateOs);
    CompressKeepsActive(cfg, rot.fs, env.listing, env.archiveOs, env.compressor, env.time);
  }

  /**
   As written, a sink opened with rotate_on_open over a non-empty file starts with an
   empty active file but current_size_ equal to the old file's size. The first record
   that takes the old size past max_size then rotates the empty active file away,
   although the file plus the record is within max_size.
   */
  lemma StaleCounterRotatesEarly(st: Settings, fs: FileSystem, env: Env, next: Env, record: Bytes)
    requires st.maxFiles >= 1
    requires Resolve(st.base) in fs && 0 < |fs[Resolve(st.base)]|
    requires OpenAsWritten(st, fs, true, env).error.None?
    requires |record| <= st.maxSize < |fs[Resolve(st.base)]| + |record|
    ensures var o := OpenAsWritten(st, fs, true, env);
      var k := Active(o.sink.cfg);
      && o.sink.currentSize == |fs[k]|
      && k in o.sink.fs && o.sink.fs[k] == []
      && !Tracks(o.sink)
      && |o.sink.fs[k]| + |record| <= st.maxSize
      && SinkIt(o.sink, next, record).rotated
  {
    OpenCycleEmptiesActive(st, fs, env, false);
  }

  /**
   The stale counter on one instance: max_size 10, an existing 10-byte active file "log",
   rotate_on_open, every rename succeeding and no archive directory. The constructor
   succeeds with an empty active file and current_size_ 10, and a 1-byte record then rotates.
   */
  lemma StaleCounterExample()
    ensures var st := Settings("log", 10, 1, 1, ".gz");
      var fs: FileSystem := map["log" := seq(10, _ => 0 as byte)];
      var env := Env(_ => Attempts(true, true), NoDirectory, _ => Attempts(true, true), _ => None, "t");
      var o := OpenAsWritten(st, fs, true, env);
      && o.error.None?
      && o.sink.currentSize == 10
      && "log" in o.sink.fs && o.sink.fs["log"] == []
      && SinkIt(o.sink, env, [0]).rotated
  {
  }

  /**
   With the counter reset, a successful constructor leaves current_size_ equal to the
   active file's size, so every later write rotates exactly when the file plus the record
   would exceed max_size.
   */
  lemma OpenTracks(st: Settings, fs: FileSystem, rotateOnOpen: bool, env: Env, next: Env, record: Bytes)
    requires st.maxFiles >= 1
    requires Open(st, fs, rotateOnOpen, env).error.None?
    ensures var o := Open(st, fs, rotateOnOpen, env);
      && Tracks(o.sink)
      && (SinkIt(o.sink, next, record).rotated <==> |o.sink.fs[Active(o.sink.cfg)]| + |record| > st.maxSize)
  {
    var o := Open(st, fs, rotateOnOpen, env);
    if rotateOnOpen {
      OpenCycleEmptiesActive(st, fs, env, true);
    }
    SinkItKeepsTracking(o.sink, next, record);
  }
}
