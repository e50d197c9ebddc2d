/**
 The retention bound of compress_: archives live in slots max_files .. max_itr_value.
 A new archive enters at slot max_files, the shift deletes the archive in the oldest
 slot before any other moves up by one, so a directory whose archives all sit in the
 range still has them all in the range after a compression cycle.
 */
module Retention {
  import opened Common
  import opened Paths
  import opened Os
  import opened Naming
  import opened Archive

  /** Captured digits as Dec writes them, naming a slot between `lo` and max_itr_value. */
  predicate SlotFrom(cfg: Config, d: string, lo: nat) {
    Canonical(d) && lo <= Num(d) <= cfg.OldestSlot()
  }

  /** A listed name is not an archive of this sink, or it occupies a slot from `lo` up to max_itr_value. */
  predicate InRange(cfg: Config, name: string, lo: nat) {
    IndexDigits(cfg, name).None? || SlotFrom(cfg, IndexDigits(cfg, name).value, lo)
  }

  /** Replacing the captured digits by other digits keeps the rest of the match: the new digits are what the pattern captures. */
  lemma CaptureAfterRenumber(name: string, p: string, ext: string, comp: string, l: nat, d': string)
    requires IndexRun(name, p, ext, comp) == Some(l)
    requires 1 <= |d'| && IsDigits(d')
    ensures IndexRun(p + d' + name[|p| + l..], p, ext, comp) == Some(|d'|)
  {
    var rest := name[|p| + l..];
    var t := p + d' + rest;
    assert t[..|p|] == p;
    assert t[|p|..|p| + |d'|] == d';
    assert t[|p| + |d'|..] == rest;
    assert RunFits(t, p, |d'|, ext, comp);
    forall len: nat | |d'| < len
      ensures !RunFits(t, p, len, ext, comp)
    {
      NoLongerRunAfterRenumber(name, p, ext, comp, l, d', len);
    }
    IndexRunIs(t, p, ext, comp, |d'|);
  }

  /**
   After the renumbering no run longer than the new digits fits: its extra digits would
   extend the first capture too, which is already the longest.
   */
  lemma NoLongerRunAfterRenumber(name: string, p: string, ext: string, comp: string, l: nat, d': string, len: nat)
    requires IndexRun(name, p, ext, comp) == Some(l)
    requires 1 <= |d'| && IsDigits(d')
    requires |d'| < len
    ensures !RunFits(p + d' + name[|p| + l..], p, len, ext, comp)
  {
    var rest := name[|p| + l..];
    var t := p + d' + rest;
    var x := len - |d'|;
    if RunFits(t, p, len, ext, comp) {
      var run := t[|p|..|p| + len];
      assert t[|p|..] == d' + rest;
      assert run[|d'|..] == rest[..x];
      DigitsSlice(run, |d'|, len);
      DigitsJoin(name[|p|..|p| + l], rest[..x]);
      assert name[|p|..|p| + l + x] == name[|p|..|p| + l] + rest[..x];
      assert name[|p| + l + x..] == rest[x..] == t[|p| + len..];
      assert RunFits(name, p, l + x, ext, comp);
      IndexRunLongest(name, p, ext, comp, l + x);
    }
  }

  /** A slice of a digit string is a digit string. */
  lemma DigitsSlice(s: string, i: nat, j: nat)
    requires i <= j <= |s| && IsDigits(s)
    ensures IsDigits(s[i..j])
  {
    forall k | 0 <= k < j - i
      ensures IsDigit(s[i..j][k])
    {
      assert s[i..j][k] == s[i + k];
    }
  }

  /** Two digit strings joined are a digit string. */
  lemma DigitsJoin(a: string, b: string)
    requires IsDigits(a) && IsDigits(b)
    ensures IsDigits(a + b)
  {
    forall k | 0 <= k < |a + b|
      ensures IsDigit((a + b)[k])
    {
      if k >= |a| {
        assert (a + b)[k] == b[k - |a|];
      }
    }
  }

  /** With the captured digits canonical and at most K, the oldest pattern for K matches exactly when they read K. */
  lemma OldestMatchIffTop(name: string, p: string, ext: string, comp: string, l: nat, K: nat)
    requires IndexRun(name, p, ext, comp) == Some(l)
    requires Canonical(name[|p|..|p| + l]) && Num(name[|p|..|p| + l]) <= K
    ensures (StartsWith(name, p + Dec(K)) && Fits(name[|p + Dec(K)|..], ext, comp)) <==> Num(name[|p|..|p| + l]) == K
  {
    var d := name[|p|..|p| + l];
    var n := Num(d);
    var head := p + Dec(K);
    if StartsWith(name, head) && Fits(name[|head|..], ext, comp) {
      OldestIsRun(name, p, ext, comp, K);
      IndexRunLongest(name, p, ext, comp, |Dec(K)|);
      assert |Dec(K)| <= l;
      DecLengthMonotone(n, K);
      assert l == |Dec(n)|;
      assert d == Dec(K);
      NumDec(K);
    }
    if n == K {
      assert d == Dec(K);
      assert name[..|p|] == p;
      assert name[..|head|] == head;
      assert RunFits(name, p, l, ext, comp);
      assert name[|head|..] == name[|p| + l..];
    }
  }

  /**
   One listed archive in slot N of the range: it is deleted exactly when N is the oldest
   slot, and otherwise renamed to slot N + 1 with the rest of its name kept.
   */
  lemma ClassifyLadderStep(cfg: Config, name: string)
    requires IndexDigits(cfg, name).Some? && SlotFrom(cfg, IndexDigits(cfg, name).value, cfg.maxFiles)
    ensures var n := Slot(cfg, name).value;
      var p := IndexPrefix(cfg);
      && name == p + Dec(n) + name[|p| + |Dec(n)|..]
      && !Classify(cfg, name).Keep?
      && (Classify(cfg, name).Delete? <==> n == cfg.OldestSlot())
      && (Classify(cfg, name).Move? ==>
            && Classify(cfg, name).target == p + Dec(n + 1) + name[|p| + |Dec(n)|..]
            && IndexDigits(cfg, Classify(cfg, name).target) == Some(Dec(n + 1))
            && SlotFrom(cfg, Dec(n + 1), cfg.maxFiles + 1))
  {
    LadderStepOldest(cfg, name);
    if !IsOldest(cfg, name) {
      LadderStepTarget(cfg, name);
    }
  }

  /** An archive in the range matches the oldest pattern exactly when its slot is max_itr_value. */
  lemma LadderStepOldest(cfg: Config, name: string)
    requires IndexDigits(cfg, name).Some? && SlotFrom(cfg, IndexDigits(cfg, name).value, cfg.maxFiles)
    ensures IsOldest(cfg, name) <==> Slot(cfg, name).value == cfg.OldestSlot()
  {
    var p := IndexPrefix(cfg);
    var K := cfg.OldestSlot();
    var d := IndexDigits(cfg, name).value;
    IndexDigitsUnfold(cfg, name);
    var l := IndexRun(name, p, cfg.ext, cfg.compExt).value;
    assert d == name[|p|..|p| + l];
    assert Canonical(d) && Num(d) <= K;
    OldestMatchIffTop(name, p, cfg.ext, cfg.compExt, l, K);
    IsOldestUnfold(cfg, name);
    assert Slot(cfg, name) == Some(Num(d));
  }

  /** An archive in the range below the oldest slot is renamed one slot up, where the pattern reads it back. */
  lemma LadderStepTarget(cfg: Config, name: string)
    requires IndexDigits(cfg, name).Some? && SlotFrom(cfg, IndexDigits(cfg, name).value, cfg.maxFiles)
    requires !IsOldest(cfg, name)
    ensures var n := Slot(cfg, name).value;
      var p := IndexPrefix(cfg);
      && name == p + Dec(n) + name[|p| + |Dec(n)|..]
      && Classify(cfg, name) == Move(p + Dec(n + 1) + name[|p| + |Dec(n)|..])
      && IndexDigits(cfg, p + Dec(n + 1) + name[|p| + |Dec(n)|..]) == Some(Dec(n + 1))
      && SlotFrom(cfg, Dec(n + 1), cfg.maxFiles + 1)
  {
    var d := IndexDigits(cfg, name).value;
    var n := Num(d);
    assert d == Dec(n);
    assert Slot(cfg, name) == Some(n);
    LadderStepOldest(cfg, name);
    RenumberKeepsTail(cfg, name);
    RenumberedReadsBack(cfg, name, n);
    DecInjective(n + 1, n + 1);
    NumDec(n + 1);
  }

  /** The renamed archive's captured digits are the new slot's. */
  lemma RenumberedReadsBack(cfg: Config, name: string, n: nat)
    requires IndexDigits(cfg, name) == Some(Dec(n))
    ensures var p := IndexPrefix(cfg);
      IndexDigits(cfg, p + Dec(n + 1) + name[|p| + |Dec(n)|..]) == Some(Dec(n + 1))
  {
    var p := IndexPrefix(cfg);
    IndexDigitsUnfold(cfg, name);
    var t := p + Dec(n + 1) + name[|p| + |Dec(n)|..];
    RunAfterRenumber(name, p, cfg.ext, cfg.compExt, n);
    IndexDigitsFromRun(cfg, t, |Dec(n + 1)|);
  }

  /** CaptureAfterRenumber for a canonical index n renamed to n + 1. */
  lemma RunAfterRenumber(name: string, p: string, ext: string, comp: string, n: nat)
    requires IndexRun(name, p, ext, comp).Some?
    requires name[|p|..|p| + IndexRun(name, p, ext, comp).value] == Dec(n)
    ensures var t := p + Dec(n + 1) + name[|p| + |Dec(n)|..];
      && IndexRun(t, p, ext, comp) == Some(|Dec(n + 1)|)
      && t[|p|..|p| + |Dec(n + 1)|] == Dec(n + 1)
  {
    var l := IndexRun(name, p, ext, comp).value;
    CaptureAfterRenumber(name, p, ext, comp, l, Dec(n + 1));
    MiddlePiece(p, Dec(n + 1), name[|p| + l..]);
  }

  /** Sequence bookkeeping: the middle of a three-piece concatenation, by position. */
  lemma MiddlePiece(a: string, b: string, c: string)
    ensures (a + b + c)[|a|..|a| + |b|] == b
  {
  }

  /** The names a compression pass leaves behind, in listing order: kept entries and rename targets. */
  function Survivors(cfg: Config, ps: seq<string>): seq<string>
    decreases |ps|
  {
    if ps == [] then []
    else
      var rest := Survivors(cfg, ps[1..]);
      match Classify(cfg, ps[0])
      case Delete => rest
      case Keep => [ps[0]] + rest
      case Move(t) => [t] + rest
  }

  /** Every name in `names` is outside the archive pattern or in a slot from `lo` up to max_itr_value. */
  predicate AllInRange(cfg: Config, names: seq<string>, lo: nat) {
    forall i :: 0 <= i < |names| ==> InRange(cfg, names[i], lo)
  }

  /** An archive in the range that the pass keeps or renames is left at slot max_files + 1 or above. */
  lemma StepStaysInRange(cfg: Config, name: string)
    requires InRange(cfg, name, cfg.maxFiles)
    ensures Classify(cfg, name).Keep? ==> InRange(cfg, name, cfg.maxFiles + 1)
    ensures Classify(cfg, name).Move? ==> InRange(cfg, Classify(cfg, name).target, cfg.maxFiles + 1)
  {
    if IndexDigits(cfg, name).Some? {
      ClassifyLadderStep(cfg, name);
    }
  }

  /** Sequence bookkeeping: one name in the range put in front of names in the range. */
  lemma AllInRangeCons(cfg: Config, x: string, rest: seq<string>, lo: nat)
    requires InRange(cfg, x, lo) && AllInRange(cfg, rest, lo)
    ensures AllInRange(cfg, [x] + rest, lo)
  {
    forall i | 0 <= i < |[x] + rest|
      ensures InRange(cfg, ([x] + rest)[i], lo)
    {
      if i > 0 {
        assert ([x] + rest)[i] == rest[i - 1];
      }
    }
  }

  /** Every archive left behind by a pass over archives in the range sits at slot max_files + 1 or above, and still in the range. */
  lemma {:induction false} SurvivorsMoveUp(cfg: Config, ps: seq<string>)
    requires AllInRange(cfg, ps, cfg.maxFiles)
    ensures AllInRange(cfg, Survivors(cfg, ps), cfg.maxFiles + 1)
    decreases |ps|
  {
    if ps != [] {
      var rest := Survivors(cfg, ps[1..]);
      assert AllInRange(cfg, ps[1..], cfg.maxFiles) by {
        forall i | 0 <= i < |ps[1..]|
          ensures InRange(cfg, ps[1..][i], cfg.maxFiles)
        {
          assert ps[1..][i] == ps[i + 1];
        }
      }
      SurvivorsMoveUp(cfg, ps[1..]);
      assert InRange(cfg, ps[0], cfg.maxFiles);
      StepStaysInRange(cfg, ps[0]);
      match Classify(cfg, ps[0])
      case Delete =>
      case Keep => AllInRangeCons(cfg, ps[0], rest, cfg.maxFiles + 1);
      case Move(t) => AllInRangeCons(cfg, t, rest, cfg.maxFiles + 1);
    }
  }

  /** The files a sequence of names resolve to. */
  ghost function Files(names: seq<string>): set<string> {
    set i | 0 <= i < |names| :: Resolve(names[i])
  }

  /** What a directory enumeration yields: every listed name is an existing file, and no file is listed twice. */
  ghost predicate ListsFiles(fs: FileSystem, ps: seq<string>) {
    && (forall i :: 0 <= i < |ps| ==> Resolve(ps[i]) in fs)
    && (forall i, k :: 0 <= i < k < |ps| ==> Resolve(ps[i]) != Resolve(ps[k]))
  }

  /** The file a listed entry leaves behind under resolved name k: itself when kept, its target when renamed. */
  predicate LeavesFile(cfg: Config, name: string, k: string) {
    match Classify(cfg, name)
    case Delete => false
    case Keep => Resolve(name) == k
    case Move(t) => Resolve(t) == k
  }

  /** Sequence bookkeeping: the files of one name put in front of other names. */
  lemma FilesCons(x: string, rest: seq<string>, k: string)
    ensures k in Files([x] + rest) <==> k == Resolve(x) || k in Files(rest)
  {
    if k in Files(rest) {
      var i :| 0 <= i < |rest| && Resolve(rest[i]) == k;
      assert ([x] + rest)[i + 1] == rest[i];
    }
    if k in Files([x] + rest) && k != Resolve(x) {
      var i :| 0 <= i < |[x] + rest| && Resolve(([x] + rest)[i]) == k;
      assert ([x] + rest)[i] == rest[i - 1];
    }
    assert ([x] + rest)[0] == x;
  }

  /** Some listed entry leaves a file under resolved name k. */
  predicate SomeEntryLeaves(cfg: Config, ps: seq<string>, k: string) {
    exists i :: 0 <= i < |ps| && LeavesFile(cfg, ps[i], k)
  }

  /** Sequence bookkeeping: some entry leaves k exactly when the first does or one of the rest does. */
  lemma SomeEntryLeavesCons(cfg: Config, ps: seq<string>, k: string)
    requires ps != []
    ensures SomeEntryLeaves(cfg, ps, k) <==> LeavesFile(cfg, ps[0], k) || SomeEntryLeaves(cfg, ps[1..], k)
  {
    if SomeEntryLeaves(cfg, ps, k) {
      var i :| 0 <= i < |ps| && LeavesFile(cfg, ps[i], k);
      if i > 0 {
        assert ps[1..][i - 1] == ps[i];
      }
    }
    if SomeEntryLeaves(cfg, ps[1..], k) {
      var i :| 0 <= i < |ps[1..]| && LeavesFile(cfg, ps[1..][i], k);
      assert ps[1..][i] == ps[i + 1];
    }
  }

  /** The survivors' files are exactly what the listed entries leave behind. */
  lemma {:induction false} SurvivorFiles(cfg: Config, ps: seq<string>, k: string)
    ensures k in Files(Survivors(cfg, ps)) <==> SomeEntryLeaves(cfg, ps, k)
    decreases |ps|
  {
    if ps != [] {
      var rest := Survivors(cfg, ps[1..]);
      SurvivorFiles(cfg, ps[1..], k);
      SomeEntryLeavesCons(cfg, ps, k);
      match Classify(cfg, ps[0])
      case Delete =>
      case Keep => FilesCons(ps[0], rest, k);
      case Move(t) => FilesCons(t, rest, k);
    }
  }

  /** Maps that agree outside C agree on every name outside C. */
  lemma AgreeAt(fs: FileSystem, fs': FileSystem, C: set<string>, k: string)
    requires fs' - C == fs - C && k !in C
    ensures k in fs' <==> k in fs
  {
    assert k in fs' <==> k in fs' - C;
    assert k in fs <==> k in fs - C;
  }

  /**
   The files the archive shift leaves, for a collision-free listing whose renames the oracle
   lets through: among the listed files and the rename targets, exactly the survivors'
   files exist afterwards.
   */
  lemma PassLeavesSurvivors(cfg: Config, fs: FileSystem, ps: seq<string>, os: nat -> Attempts)
    requires ListsFiles(fs, ps)
    requires CollisionFree(fs, ps, Plan(cfg, ps), 0) && OracleAllows(ps, Plan(cfg, ps), os, 0)
    ensures var r := ShiftArchives(cfg, fs, Entries(ps, false), os);
      && r.error.None?
      && forall k :: k in Files(ps) + Targets(ps, Plan(cfg, ps), 0) ==> (k in r.fs <==> k in Files(Survivors(cfg, ps)))
  {
    var acts := Plan(cfg, ps);
    var r := ShiftArchives(cfg, fs, Entries(ps, false), os);
    ShiftArchivesMeetsSpec(cfg, fs, ps, false, os);
    forall k | k in Files(ps) + Targets(ps, acts, 0)
      ensures k in r.fs <==> k in Files(Survivors(cfg, ps))
    {
      SurvivorFiles(cfg, ps, k);
      LeftAfterPass(cfg, fs, r.fs, ps, k);
    }
  }

  /**
   One name among the listed files and rename targets after a collision-free pass that
   removed what it touched and created every target: it exists exactly when some entry
   leaves it behind.
   */
  lemma LeftAfterPass(cfg: Config, fs: FileSystem, fs': FileSystem, ps: seq<string>, k: string)
    requires ListsFiles(fs, ps) && CollisionFree(fs, ps, Plan(cfg, ps), 0)
    requires forall i :: 0 <= i < |ps| && Classify(cfg, ps[i]).Move? ==> Resolve(Classify(cfg, ps[i]).target) in fs'
    requires forall i :: 0 <= i < |ps| && !Classify(cfg, ps[i]).Keep? ==> Resolve(ps[i]) !in fs'
    requires fs' - (Touched(ps, Plan(cfg, ps), 0) + Targets(ps, Plan(cfg, ps), 0))
             == fs - (Touched(ps, Plan(cfg, ps), 0) + Targets(ps, Plan(cfg, ps), 0))
    requires k in Files(ps) + Targets(ps, Plan(cfg, ps), 0)
    ensures k in fs' <==> SomeEntryLeaves(cfg, ps, k)
  {
    var acts := Plan(cfg, ps);
    if k in Targets(ps, acts, 0) {
      var i :| 0 <= i < |ps| && acts[i].Move? && Resolve(acts[i].target) == k;
      assert LeavesFile(cfg, ps[i], k);
    } else {
      var i :| 0 <= i < |ps| && Resolve(ps[i]) == k;
      if acts[i].Keep? {
        KeptLeft(cfg, fs, fs', ps, i);
      } else {
        RemovedNotLeft(cfg, fs, ps, i, Targets(ps, acts, 0));
      }
    }
  }

  /** A kept entry's file is outside everything the pass touches, so it is still there. */
  lemma KeptLeft(cfg: Config, fs: FileSystem, fs': FileSystem, ps: seq<string>, i: nat)
    requires ListsFiles(fs, ps) && i < |ps| && Classify(cfg, ps[i]).Keep?
    requires Resolve(ps[i]) !in Targets(ps, Plan(cfg, ps), 0)
    requires fs' - (Touched(ps, Plan(cfg, ps), 0) + Targets(ps, Plan(cfg, ps), 0))
             == fs - (Touched(ps, Plan(cfg, ps), 0) + Targets(ps, Plan(cfg, ps), 0))
    ensures Resolve(ps[i]) in fs' && SomeEntryLeaves(cfg, ps, Resolve(ps[i]))
  {
    var acts := Plan(cfg, ps);
    var k := Resolve(ps[i]);
    forall j | 0 <= j < |ps| && !acts[j].Keep?
      ensures Resolve(ps[j]) != k
    {
      assert j != i;
    }
    assert k !in Touched(ps, acts, 0);
    AgreeAt(fs, fs', Touched(ps, acts, 0) + Targets(ps, acts, 0), k);
    assert LeavesFile(cfg, ps[i], k);
  }

  /** A deleted or renamed entry's file that is no rename's target is left by no entry. */
  lemma RemovedNotLeft(cfg: Config, fs: FileSystem, ps: seq<string>, i: nat, T: set<string>)
    requires ListsFiles(fs, ps) && i < |ps| && !Classify(cfg, ps[i]).Keep?
    requires forall j :: 0 <= j < |ps| && Classify(cfg, ps[j]).Move? ==> Resolve(Classify(cfg, ps[j]).target) in T
    requires Resolve(ps[i]) !in T
    ensures !SomeEntryLeaves(cfg, ps, Resolve(ps[i]))
  {
    var k := Resolve(ps[i]);
    forall j | 0 <= j < |ps|
      ensures !LeavesFile(cfg, ps[j], k)
    {
      if Classify(cfg, ps[j]).Keep? {
        assert j != i;
      }
    }
  }

  /**
   A whole compression cycle over such a listing: among the listed files and the rename
   targets, what exists afterwards is the survivors' files, less the plaintext segment at
   index max_files and plus the new archive when the compressor accepted that segment.
   Otherwise the final step changes nothing.
   */
  lemma CycleLeavesSurvivors(cfg: Config, fs: FileSystem, ps: seq<string>, os: nat -> Attempts,
                             compressor: Bytes -> Option<Bytes>, time: string)
    requires cfg.maxFiles >= 1
    requires ListsFiles(fs, ps)
    requires CollisionFree(fs, ps, Plan(cfg, ps), 0) && OracleAllows(ps, Plan(cfg, ps), os, 0)
    ensures var shifted := ShiftArchives(cfg, fs, Entries(ps, false), os);
      var r := Compress(cfg, fs, Entries(ps, false), os, compressor, time);
      var src := Resolve(CalcFilename(cfg.base, cfg.maxFiles));
      var arch := Resolve(ArchivePath(cfg, time) + cfg.compExt);
      var compressed := src in shifted.fs && compressor(shifted.fs[src]).Some?;
      var left := if compressed then Files(Survivors(cfg, ps)) - {src} + {arch} else Files(Survivors(cfg, ps));
      && r.error.None?
      && (forall k :: k in Files(ps) + Targets(ps, Plan(cfg, ps), 0) ==> (k in r.fs <==> k in left))
      && (compressed ==> arch in r.fs && r.fs[arch] == compressor(shifted.fs[src]).value)
      && (!compressed ==> r.fs == shifted.fs)
  {
    var shifted := ShiftArchives(cfg, fs, Entries(ps, false), os);
    PassLeavesSurvivors(cfg, fs, ps, os);
    CompressRetiredSpec(cfg, shifted.fs, compressor, time);
    var r := Compress(cfg, fs, Entries(ps, false), os, compressor, time);
    assert r.fs == CompressRetired(cfg, shifted.fs, compressor, time);
    var src := Resolve(CalcFilename(cfg.base, cfg.maxFiles));
    var arch := Resolve(ArchivePath(cfg, time) + cfg.compExt);
    if src in shifted.fs && compressor(shifted.fs[src]).Some? {
      forall k | k in Files(ps) + Targets(ps, Plan(cfg, ps), 0) && k != src && k != arch
        ensures k in r.fs <==> k in shifted.fs
      {
        UnchangedOutside(shifted.fs, r.fs, src, arch, k);
      }
    }
  }

  /** The spelling under which the directory enumeration lists a file: dir_local joined with its file name. */
  function Listed(cfg: Config, path: string): string {
    JoinPath(cfg.DirLocal(), FileName(path))
  }

  predicate NoSlash(s: string) {
    forall k :: 0 <= k < |s| ==> s[k] != '/'
  }

  /** A slash-free name's last '/' in "dir/name" is the one after dir. */
  lemma LastSlashBeforeName(dir: string, name: string)
    requires NoSlash(name)
    ensures LastIndexOf(dir + "/" + name, '/') == Some(|dir|)
  {
    SlashThenName(dir, name);
    LastIndexOfIs(dir + "/" + name, '/', |dir|);
  }

  /** In "dir/name" with a slash-free name, the '/' after dir is followed by no other. */
  lemma SlashThenName(dir: string, name: string)
    requires NoSlash(name)
    ensures var f := dir + "/" + name;
      && f[|dir|] == '/'
      && forall k :: |dir| < k < |f| ==> f[k] != '/'
  {
    var f := dir + "/" + name;
    forall k | |dir| < k < |f|
      ensures f[k] != '/'
    {
      assert f[k] == name[k - |dir| - 1];
    }
  }

  /** The pieces of a segment name below the directory carry no '/'. */
  lemma SplitNoSlash(name: string)
    requires NoSlash(name)
    ensures NoSlash(SplitByExtension(name).0) && NoSlash(SplitByExtension(name).1)
  {
    var (stem, ext) := SplitByExtension(name);
    assert name == stem + ext;
    forall k | 0 <= k < |ext|
      ensures ext[k] != '/'
    {
      assert ext[k] == name[|stem| + k];
    }
  }

  lemma NoSlashAppend(x: string, y: string)
    requires NoSlash(x) && NoSlash(y)
    ensures NoSlash(x + y)
  {
    forall k | 0 <= k < |x + y|
      ensures (x + y)[k] != '/'
    {
      if k >= |x| {
        assert (x + y)[k] == y[k - |x|];
      }
    }
  }

  /** A segment name's file-name part with the archive suffix: stem "." index ext "." time comp_ext, free of '/'. */
  lemma ArchiveTailNoSlash(stem: string, ext: string, index: nat, time: string, comp: string)
    requires NoSlash(stem) && NoSlash(ext) && NoSlash(time) && NoSlash(comp)
    ensures NoSlash(stem + "." + Dec(index) + ext + "." + time + comp)
  {
    NoSlashAppend(stem, ".");
    NoSlashAppend(stem + ".", Dec(index));
    NoSlashAppend(stem + "." + Dec(index), ext);
    NoSlashAppend(stem + "." + Dec(index) + ext, ".");
    NoSlashAppend(stem + "." + Dec(index) + ext + ".", time);
    NoSlashAppend(stem + "." + Dec(index) + ext + "." + time, comp);
  }

  /** A name without '/' is its own file name and resolves to itself. */
  lemma PlainName(a: string)
    requires NoSlash(a)
    ensures FileName(a) == a && Resolve(a) == a
  {
    assert LastIndexOf(a, '/') == None;
    if 2 <= |a| {
      assert a[1] != '/';
    }
  }

  /** The names compress_ derives from a base path without a directory. */
  lemma NoDirectoryNames(cfg: Config)
    requires cfg.Derived()
    requires LastIndexOf(cfg.base, '/').None?
    ensures NoSlash(cfg.base) && FileName(cfg.base) == cfg.base
    ensures cfg.DirLocal() == "./" && cfg.BaseLocal() == "./" + cfg.stem
    ensures (cfg.stem, cfg.ext) == SplitByExtension(cfg.base)
  {
  }

  /** The names compress_ derives from a base path "dir/name". */
  lemma DirectoryNames(cfg: Config, sep: nat)
    requires cfg.Derived()
    requires LastIndexOf(cfg.base, '/') == Some(sep) && sep != 0
    ensures var dir := cfg.base[..sep];
      var name := cfg.base[sep + 1..];
      && cfg.base == dir + "/" + name
      && NoSlash(name) && FileName(cfg.base) == name
      && cfg.dir == dir && cfg.DirLocal() == dir && cfg.BaseLocal() == dir + "/" + cfg.stem
      && (cfg.stem, cfg.ext) == SplitByExtension(name)
  {
    var name := cfg.base[sep + 1..];
    assert NoSlash(name) by {
      forall k | 0 <= k < |name|
        ensures name[k] != '/'
      {
        assert name[k] == cfg.base[sep + 1 + k];
      }
    }
  }

  /** A base path without a directory: the archive is listed as "./" followed by its own name. */
  lemma ListedWithoutDirectory(cfg: Config, time: string)
    requires cfg.Derived()
    requires cfg.maxFiles >= 1
    requires NoSlash(time) && NoSlash(cfg.compExt)
    requires LastIndexOf(cfg.base, '/').None?
    ensures var a := ArchivePath(cfg, time) + cfg.compExt;
      && Resolve(Listed(cfg, a)) == Resolve(a)
      && Listed(cfg, a) == IndexPrefix(cfg) + Dec(cfg.maxFiles) + (cfg.ext + "." + time + cfg.compExt)
  {
    NoDirectoryNames(cfg);
    PlainArchiveListed(cfg.base, cfg.maxFiles, time, cfg.compExt);
  }

  /** String form of the case without a directory: the archive name is slash-free and listed behind "./". */
  lemma PlainArchiveListed(base: string, index: nat, time: string, comp: string)
    requires NoSlash(base) && index >= 1
    requires NoSlash(time) && NoSlash(comp)
    ensures var (stem, ext) := SplitByExtension(base);
      var a := CalcFilename(base, index) + "." + time + comp;
      && Resolve(JoinPath("./", FileName(a))) == Resolve(a)
      && JoinPath("./", FileName(a)) == ("./" + stem + ".") + Dec(index) + (ext + "." + time + comp)
  {
    var (stem, ext) := SplitByExtension(base);
    var a := stem + "." + Dec(index) + ext + "." + time + comp;
    assert CalcFilename(base, index) + "." + time + comp == a;
    assert NoSlash(a) by {
      SplitNoSlash(base);
      ArchiveTailNoSlash(stem, ext, index, time, comp);
    }
    PlainName(a);
    assert Resolve("./" + a) == a by {
      assert ("./" + a)[2..] == a;
    }
    RegroupBehindDotSlash(stem, Dec(index), ext, time, comp);
  }

  /** The listed name of a slash-free archive, regrouped around its digits. */
  lemma RegroupBehindDotSlash(stem: string, D: string, ext: string, time: string, comp: string)
    ensures "./" + (stem + "." + D + ext + "." + time + comp) == ("./" + stem + ".") + D + (ext + "." + time + comp)
  {
  }

  /** calc_filename under a directory: the index goes into the file name's part. */
  lemma CalcUnderDirectory(dir: string, name: string, index: nat)
    requires NoSlash(name) && index >= 1
    ensures var (stem, ext) := SplitByExtension(name);
      CalcFilename(dir + "/" + name, index) == dir + "/" + stem + "." + Dec(index) + ext
  {
    SplitUnderDirectory(dir, name);
  }

  /** The archive name under a directory, regrouped as the directory and a file name. */
  lemma RegroupArchiveName(c: string, dir: string, stem: string, D: string, ext: string, time: string, comp: string)
    requires c == dir + "/" + stem + "." + D + ext
    ensures c + "." + time + comp == dir + "/" + (stem + "." + D + ext + "." + time + comp)
    ensures c + "." + time + comp == (dir + "/" + stem + ".") + D + (ext + "." + time + comp)
  {
    assert c + "." + time + comp == (dir + "/") + (stem + "." + D + ext) + ("." + time + comp);
  }

  /** Listing "dir/tail" from dir gives back "dir/tail". */
  lemma ListedFromDirectory(dir: string, tail: string)
    requires NoSlash(tail) && 0 < |dir| && dir[|dir| - 1] != '/'
    ensures JoinPath(dir, FileName(dir + "/" + tail)) == dir + "/" + tail
  {
    LastSlashBeforeName(dir, tail);
    assert (dir + "/" + tail)[|dir| + 1..] == tail;
  }

  /** A base path "dir/name", dir not ending in '/': the archive is listed under exactly the name compress_ wrote. */
  lemma ListedUnderDirectory(cfg: Config, time: string, sep: nat)
    requires cfg.Derived()
    requires cfg.maxFiles >= 1
    requires NoSlash(time) && NoSlash(cfg.compExt)
    requires LastIndexOf(cfg.base, '/') == Some(sep) && sep != 0 && cfg.base[sep - 1] != '/'
    ensures var a := ArchivePath(cfg, time) + cfg.compExt;
      && Listed(cfg, a) == a
      && Listed(cfg, a) == IndexPrefix(cfg) + Dec(cfg.maxFiles) + (cfg.ext + "." + time + cfg.compExt)
  {
    DirectoryNames(cfg, sep);
    var dir := cfg.base[..sep];
    assert dir[|dir| - 1] == cfg.base[sep - 1];
    ArchiveUnderDirectoryListed(dir, cfg.base[sep + 1..], cfg.maxFiles, time, cfg.compExt);
  }

  /** String form of the case "dir/name": the archive name is the directory and a slash-free name, listed as itself. */
  lemma ArchiveUnderDirectoryListed(dir: string, name: string, index: nat, time: string, comp: string)
    requires NoSlash(name) && index >= 1 && 0 < |dir| && dir[|dir| - 1] != '/'
    requires NoSlash(time) && NoSlash(comp)
    ensures var (stem, ext) := SplitByExtension(name);
      var a := CalcFilename(dir + "/" + name, index) + "." + time + comp;
      && JoinPath(dir, FileName(a)) == a
      && a == (dir + "/" + stem + ".") + Dec(index) + (ext + "." + time + comp)
  {
    var (stem, ext) := SplitByExtension(name);
    var D := Dec(index);
    SplitNoSlash(name);
    CalcUnderDirectory(dir, name, index);
    var tail := stem + "." + D + ext + "." + time + comp;
    ArchiveTailNoSlash(stem, ext, index, time, comp);
    RegroupArchiveName(CalcFilename(dir + "/" + name, index), dir, stem, D, ext, time, comp);
    ListedFromDirectory(dir, tail);
  }

  /**
   The archive compress_ writes is listed, on the next enumeration, as basename_local "."
   max_files followed by file_ext_ "." time comp_ext, and names the same file.
   */
  lemma ListedNewArchive(cfg: Config, time: string)
    requires cfg.Derived()
    requires cfg.maxFiles >= 1
    requires NoSlash(time) && NoSlash(cfg.compExt)
    requires cfg.dir == "" || cfg.dir[|cfg.dir| - 1] != '/'
    ensures var a := ArchivePath(cfg, time) + cfg.compExt;
      && Resolve(Listed(cfg, a)) == Resolve(a)
      && Listed(cfg, a) == IndexPrefix(cfg) + Dec(cfg.maxFiles) + (cfg.ext + "." + time + cfg.compExt)
  {
    match LastIndexOf(cfg.base, '/')
    case None =>
      ListedWithoutDirectory(cfg, time);
    case Some(sep) =>
      assert sep != 0;
      assert cfg.dir == cfg.base[..sep];
      ListedUnderDirectory(cfg, time, sep);
  }

  /** Digits followed by a tail that starts with '.' (or by file_ext_ "" and then ".") are captured whole. */
  lemma CaptureWholeIndex(p: string, D: string, ext: string, time: string, comp: string)
    requires 1 <= |D| && IsDigits(D)
    requires ext == "" || ext[0] == '.'
    ensures IndexRun(p + D + (ext + "." + time + comp), p, ext, comp) == Some(|D|)
  {
    var rest := ext + "." + time + comp;
    var listed := p + D + rest;
    assert listed[..|p|] == p;
    assert listed[|p|..|p| + |D|] == D;
    assert listed[|p| + |D|..] == rest;
    assert RunFits(listed, p, |D|, ext, comp);
    assert rest[0] == '.';
    forall len: nat | |D| < len
      ensures !RunFits(listed, p, len, ext, comp)
    {
      if |p| + len <= |listed| {
        assert listed[|p|..|p| + len][|D|] == listed[|p| + |D|] == rest[0];
      }
    }
    IndexRunIs(listed, p, ext, comp, |D|);
  }

  /** The digits a configuration's archive pattern captures, from the length of the run. */
  lemma IndexDigitsFromRun(cfg: Config, name: string, l: nat)
    requires IndexRun(name, IndexPrefix(cfg), cfg.ext, cfg.compExt) == Some(l)
    ensures IndexDigits(cfg, name) == Some(name[|IndexPrefix(cfg)|..|IndexPrefix(cfg)| + l])
  {
  }

  /** The new archive is listed in slot max_files, the bottom of the range. */
  lemma NewArchiveEntersAtMaxFiles(cfg: Config, time: string)
    requires cfg.Derived()
    requires cfg.HasLadder()
    requires NoSlash(time) && NoSlash(cfg.compExt)
    requires cfg.dir == "" || cfg.dir[|cfg.dir| - 1] != '/'
    ensures var listed := Listed(cfg, ArchivePath(cfg, time) + cfg.compExt);
      && IndexDigits(cfg, listed) == Some(Dec(cfg.maxFiles))
      && Slot(cfg, listed) == Some(cfg.maxFiles)
      && SlotFrom(cfg, Dec(cfg.maxFiles), cfg.maxFiles)
  {
    ListedNewArchive(cfg, time);
    var p := IndexPrefix(cfg);
    var ext := cfg.ext;
    var D := Dec(cfg.maxFiles);
    var listed := p + D + (ext + "." + time + cfg.compExt);
    ExtensionShape(FileName(cfg.base));
    CaptureWholeIndex(p, D, ext, time, cfg.compExt);
    IndexDigitsFromRun(cfg, listed, |D|);
    assert listed[|p|..|p| + |D|] == D;
    DecInjective(cfg.maxFiles, cfg.maxFiles);
    NumDec(cfg.maxFiles);
    OldestSlotNoWrap(cfg);
  }

  /**
   The retention bound across one compression cycle: if every archive listed sits in a
   slot from max_files to max_itr_value, then so does every archive left after the pass
   plus the new one, which alone occupies slot max_files. The range holds exactly
   max_compressed_files slots.
   */
  lemma RetentionInvariant(cfg: Config, ps: seq<string>, time: string)
    requires cfg.Derived()
    requires cfg.HasLadder()
    requires NoSlash(time) && NoSlash(cfg.compExt)
    requires cfg.dir == "" || cfg.dir[|cfg.dir| - 1] != '/'
    requires AllInRange(cfg, ps, cfg.maxFiles)
    ensures var after := Survivors(cfg, ps) + [Listed(cfg, ArchivePath(cfg, time) + cfg.compExt)];
      && AllInRange(cfg, after, cfg.maxFiles)
      && (forall i :: 0 <= i < |after| - 1 ==> Slot(cfg, after[i]) != Some(cfg.maxFiles))
      && Slot(cfg, after[|after| - 1]) == Some(cfg.maxFiles)
    ensures cfg.OldestSlot() - cfg.maxFiles + 1 == cfg.maxCompressed
  {
    SurvivorsMoveUp(cfg, ps);
    NewArchiveEntersAtMaxFiles(cfg, time);
    OldestSlotNoWrap(cfg);
    var listed := Listed(cfg, ArchivePath(cfg, time) + cfg.compExt);
    assert InRange(cfg, listed, cfg.maxFiles);
    AppendBottom(cfg, Survivors(cfg, ps), listed, cfg.maxFiles);
  }

  /** Names in the range from lo + 1, followed by one in the range from lo: all are in the range from lo, and only the last can sit in slot lo. */
  lemma AppendBottom(cfg: Config, s: seq<string>, x: string, lo: nat)
    requires AllInRange(cfg, s, lo + 1) && InRange(cfg, x, lo)
    ensures AllInRange(cfg, s + [x], lo)
    ensures forall i :: 0 <= i < |s + [x]| - 1 ==> Slot(cfg, (s + [x])[i]) != Some(lo)
  {
    forall i | 0 <= i < |s + [x]|
      ensures InRange(cfg, (s + [x])[i], lo)
      ensures i < |s + [x]| - 1 ==> Slot(cfg, (s + [x])[i]) != Some(lo)
    {
      if i < |s| {
        assert (s + [x])[i] == s[i];
        InRangeAbove(cfg, s[i], lo);
      }
    }
  }

  /** A name in the range from lo + 1 is in the range from lo, and not in slot lo. */
  lemma InRangeAbove(cfg: Config, name: string, lo: nat)
    requires InRange(cfg, name, lo + 1)
    ensures InRange(cfg, name, lo) && Slot(cfg, name) != Some(lo)
  {
  }
}
