/**
 compress_: the archive retention ladder. One pass over a snapshot of the segment's
 directory deletes the archive in the oldest slot and renames every other archive from
 slot N to slot N + 1 (each rename retried once); then the plaintext segment at index
 max_files is compressed into a new archive and, when the compressor reports success,
 removed.

 The two regular expressions are read as literal patterns:
   oldest:  basename_local "." max_itr_value file_ext_ <any text> comp_ext
   archive: basename_local "." <digits> file_ext_ <any text> comp_ext
 where the captured digits are the longest run after which the rest still matches, which
 is what backtracking from a greedy [0-9]+ finds.
 */
module Archive {
  import opened Common
  import opened Paths
  import opened Os
  import opened Naming

  /** The tail both patterns accept after the index: file_ext_, any text, then comp_ext. */
  predicate Fits(rest: string, ext: string, comp: string) {
    && |ext| + |comp| <= |rest|
    && rest[..|ext|] == ext
    && rest[|rest| - |comp|..] == comp
  }

  /** `name` reads as `prefix`, a run of `len` digits, and a tail the pattern accepts. */
  predicate RunFits(name: string, prefix: string, len: nat, ext: string, comp: string) {
    && 1 <= len
    && |prefix| + len <= |name|
    && name[..|prefix|] == prefix
    && IsDigits(name[|prefix|..|prefix| + len])
    && Fits(name[|prefix| + len..], ext, comp)
  }

  /** The longest run of at most `len` digits that fits, searching downwards as backtracking does. */
  function LongestRun(name: string, prefix: string, ext: string, comp: string, len: nat): (r: Option<nat>)
    ensures r.Some? ==> r.value <= len && RunFits(name, prefix, r.value, ext, comp)
    decreases len
  {
    if len == 0 then None
    else if RunFits(name, prefix, len, ext, comp) then Some(len)
    else LongestRun(name, prefix, ext, comp, len - 1)
  }

  /** Nothing longer than what LongestRun finds, up to its bound, fits. */
  lemma {:induction false} LongestRunIsLongest(name: string, prefix: string, ext: string, comp: string, len: nat, l: nat)
    requires var r := LongestRun(name, prefix, ext, comp, len);
      (if r.Some? then r.value else 0) < l <= len
    ensures !RunFits(name, prefix, l, ext, comp)
    decreases len
  {
    if !RunFits(name, prefix, len, ext, comp) && l < len {
      LongestRunIsLongest(name, prefix, ext, comp, len - 1, l);
    }
  }

  /** The length of the group ([0-9]+) when the archive pattern matches `name`. */
  function IndexRun(name: string, prefix: string, ext: string, comp: string): (r: Option<nat>)
    ensures r.Some? ==> RunFits(name, prefix, r.value, ext, comp)
  {
    LongestRun(name, prefix, ext, comp, |name|)
  }

  /** The pattern matches whenever some run fits, and the group is at least as long as any run that fits. */
  lemma IndexRunLongest(name: string, prefix: string, ext: string, comp: string, l: nat)
    requires RunFits(name, prefix, l, ext, comp)
    ensures IndexRun(name, prefix, ext, comp).Some?
    ensures l <= IndexRun(name, prefix, ext, comp).value
  {
    var r := IndexRun(name, prefix, ext, comp);
    if r.None? || r.value < l {
      LongestRunIsLongest(name, prefix, ext, comp, |name|, l);
    }
  }

  /** A run that fits, with no longer one fitting, is the group the pattern captures. */
  lemma IndexRunIs(name: string, prefix: string, ext: string, comp: string, m: nat)
    requires RunFits(name, prefix, m, ext, comp)
    requires forall l: nat :: m < l ==> !RunFits(name, prefix, l, ext, comp)
    ensures IndexRun(name, prefix, ext, comp) == Some(m)
  {
    IndexRunLongest(name, prefix, ext, comp, m);
  }

  /** basename_local + ".": the text every archive name of this sink starts with. */
  function IndexPrefix(cfg: Config): string {
    cfg.BaseLocal() + "."
  }

  /** The digits the archive pattern captures in `name`, when it matches. */
  function IndexDigits(cfg: Config, name: string): (r: Option<string>)
    ensures r.Some? ==> 1 <= |r.value| && IsDigits(r.value)
    ensures r.Some? ==> StartsWith(name, IndexPrefix(cfg) + r.value)
  {
    var p := IndexPrefix(cfg);
    match IndexRun(name, p, cfg.ext, cfg.compExt)
    case None => None
    case Some(l) =>
      assert name[..|p| + l] == p + name[|p|..|p| + l];
      Some(name[|p|..|p| + l])
  }

  /** The archive slot a listed name occupies: the captured digits as std::stoi reads them. */
  function Slot(cfg: Config, name: string): Option<nat> {
    match IndexDigits(cfg, name)
    case None => None
    case Some(d) => Some(Num(d))
  }

  /**
   The oldest-archive pattern: the prefix, max_itr_value in decimal, and an accepted tail.
   Every name it accepts, the archive pattern accepts too.
   */
  predicate IsOldest(cfg: Config, name: string): (b: bool)
    ensures b ==> IndexDigits(cfg, name).Some?
  {
    var p := IndexPrefix(cfg);
    var head := p + Dec(cfg.OldestSlot());
    var b := StartsWith(name, head) && Fits(name[|head|..], cfg.ext, cfg.compExt);
    if b then
      OldestIsRun(name, p, cfg.ext, cfg.compExt, cfg.OldestSlot());
      IndexRunLongest(name, p, cfg.ext, cfg.compExt, |Dec(cfg.OldestSlot())|);
      b
    else b
  }

  /** A name the oldest pattern for K matches has K's digits as a fitting run. */
  lemma OldestIsRun(name: string, p: string, ext: string, comp: string, K: nat)
    requires StartsWith(name, p + Dec(K)) && Fits(name[|p + Dec(K)|..], ext, comp)
    ensures RunFits(name, p, |Dec(K)|, ext, comp)
    ensures name[|p|..|p| + |Dec(K)|] == Dec(K)
  {
    var head := p + Dec(K);
    assert name[..|head|] == head;
    assert name[..|p|] == head[..|p|] == p;
    assert name[|p|..|p| + |Dec(K)|] == head[|p|..] == Dec(K);
    assert name[|p| + |Dec(K)|..] == name[|head|..];
  }


  /** The oldest pattern of a configuration, spelled out on its pieces. */
  lemma IsOldestUnfold(cfg: Config, name: string)
    ensures var p := IndexPrefix(cfg);
      var K := cfg.OldestSlot();
      IsOldest(cfg, name) <==> StartsWith(name, p + Dec(K)) && Fits(name[|p + Dec(K)|..], cfg.ext, cfg.compExt)
  {
  }

  /** The captured digits of a configuration's archive pattern, spelled out on its pieces. */
  lemma IndexDigitsUnfold(cfg: Config, name: string)
    requires IndexDigits(cfg, name).Some?
    ensures var p := IndexPrefix(cfg);
      var r := IndexRun(name, p, cfg.ext, cfg.compExt);
      && r.Some?
      && IndexDigits(cfg, name).value == name[|p|..|p| + r.value]
  {
  }

  /** `pat` occurs in `s` at position k. */
  predicate OccursAt(s: string, pat: string, k: nat) {
    k + |pat| <= |s| && s[k..k + |pat|] == pat
  }

  /** The first position at or after i where `pat` occurs. */
  function FindFrom(s: string, pat: string, i: nat): (r: Option<nat>)
    ensures r.Some? ==> i <= r.value && OccursAt(s, pat, r.value)
    ensures forall k: nat :: i <= k && (r.None? || k < r.value) ==> !OccursAt(s, pat, k)
    decreases |s| - i
  {
    if |s| < i + |pat| then None
    else if OccursAt(s, pat, i) then Some(i)
    else FindFrom(s, pat, i + 1)
  }

  /** The first position where `pat` occurs in `s`. */
  predicate FirstOccurrence(s: string, pat: string, k: nat) {
    OccursAt(s, pat, k) && forall j: nat :: j < k ==> !OccursAt(s, pat, j)
  }

  /**
   boost::algorithm::replace_first: the first occurrence of a non-empty `pat` is replaced
   by `rep`; with an empty `pat`, or no occurrence, `s` is returned unchanged.
   */
  function ReplaceFirst(s: string, pat: string, rep: string): (r: string)
    ensures pat == "" ==> r == s
    ensures forall k: nat :: pat != "" && FirstOccurrence(s, pat, k) ==> r == s[..k] + rep + s[k + |pat|..]
    ensures pat != "" && StartsWith(s, pat) ==> r == rep + s[|pat|..]
    ensures (forall k: nat :: !OccursAt(s, pat, k)) ==> r == s
  {
    if pat == "" then s
    else
      match FindFrom(s, pat, 0)
      case None => s
      case Some(k) =>
        assert pat != "" && StartsWith(s, pat) ==> OccursAt(s, pat, 0);
        s[..k] + rep + s[k + |pat|..]
  }

  /** What one loop iteration of compress_ does to a listed entry. */
  datatype Action = Delete | Move(target: string) | Keep

  /**
   The branch compress_ takes for a listed name: the oldest pattern is tested first; a
   name the archive pattern matches gets basename_local "." N replaced by
   basename_local "." (N + 1); anything else is left alone.
   */
  function Classify(cfg: Config, name: string): (a: Action)
    ensures a.Delete? <==> IsOldest(cfg, name)
    ensures a.Keep? <==> !IsOldest(cfg, name) && IndexDigits(cfg, name).None?
  {
    if IsOldest(cfg, name) then Delete
    else
      match IndexDigits(cfg, name)
      case None => Keep
      case Some(d) => Move(ReplaceFirst(name, IndexPrefix(cfg) + d, IndexPrefix(cfg) + Dec(Num(d) + 1)))
  }

  /** Replacing the leading `p + d` of `s` keeps the rest of `s`, the part after |p| + |d| characters. */
  lemma ReplaceLeadingPrefix(s: string, p: string, d: string, rep: string)
    requires d != "" && StartsWith(s, p + d)
    ensures s == p + d + s[|p| + |d|..]
    ensures ReplaceFirst(s, p + d, rep) == rep + s[|p| + |d|..]
  {
    assert s == s[..|p + d|] + s[|p + d|..];
  }

  /**
   A matched archive that is not the oldest is renamed by replacing its index N with
   N + 1 and keeping the rest of the name, whatever digits N was written with.
   */
  lemma RenumberKeepsTail(cfg: Config, name: string)
    requires !IsOldest(cfg, name) && IndexDigits(cfg, name).Some?
    ensures var p := IndexPrefix(cfg);
      var d := IndexDigits(cfg, name).value;
      && name == p + d + name[|p| + |d|..]
      && Classify(cfg, name) == Move(p + Dec(Num(d) + 1) + name[|p| + |d|..])
  {
    var p := IndexPrefix(cfg);
    var d := IndexDigits(cfg, name).value;
    ClassifyMatched(cfg, name);
    MatchedMoveKeepsTail(name, p, d, Classify(cfg, name));
  }

  /** String form: the rename replace_first computes for a name starting with p + d keeps the rest of the name. */
  lemma MatchedMoveKeepsTail(name: string, p: string, d: string, a: Action)
    requires d != "" && IsDigits(d) && StartsWith(name, p + d)
    requires a == Move(ReplaceFirst(name, p + d, p + Dec(Num(d) + 1)))
    ensures name == p + d + name[|p| + |d|..]
    ensures a == Move(p + Dec(Num(d) + 1) + name[|p| + |d|..])
  {
    ReplaceLeadingPrefix(name, p, d, p + Dec(Num(d) + 1));
  }

  /** The Move branch of Classify, with the pattern and replacement named. */
  lemma ClassifyMatched(cfg: Config, name: string)
    requires !IsOldest(cfg, name) && IndexDigits(cfg, name).Some?
    ensures var p := IndexPrefix(cfg);
      var d := IndexDigits(cfg, name).value;
      Classify(cfg, name) == Move(ReplaceFirst(name, p + d, p + Dec(Num(d) + 1)))
  {
  }

  /** Digits that differ, between the same prefix and tail, give names for different files. */
  lemma ReplacedDigitsDiffer(p: string, d: string, d': string, tail: string)
    requires 2 <= |p| && d != d'
    ensures Resolve(p + d' + tail) != Resolve(p + d + tail)
  {
    var x := p + d' + tail;
    var y := p + d + tail;
    assert x[0] == y[0] && x[1] == y[1];
    ResolveInjective(x, y);
    if |d| == |d'| {
      assert x[|p|..|p| + |d'|] == d';
      assert y[|p|..|p| + |d|] == d;
    }
  }

  /**
   Read literally, the archive pattern never renames an entry onto itself: the renumbered
   name carries N + 1 where the entry carries N, so rename_file never removes the entry it
   is about to rename.
   */
  lemma RenameTargetDiffers(cfg: Config, name: string)
    ensures Classify(cfg, name).Move? ==> Resolve(Classify(cfg, name).target) != Resolve(name)
  {
    if Classify(cfg, name).Move? {
      var p := IndexPrefix(cfg);
      var d := IndexDigits(cfg, name).value;
      RenumberKeepsTail(cfg, name);
      NumDec(Num(d) + 1);
      assert |p| >= 2;
      ReplacedDigitsDiffer(p, d, Dec(Num(d) + 1), name[|p| + |d|..]);
    }
  }

  /** `s` matches the regex text `lit`, in which '.' is the only metacharacter and matches any character. */
  predicate WildMatch(s: string, lit: string) {
    |s| == |lit| && forall i :: 0 <= i < |lit| ==> lit[i] == '.' || s[i] == lit[i]
  }

  /**
   The archive regex as the code builds it, unescaped, with `d` as the captured group:
   every '.' of basename_local, of the "." before the group, of file_ext_ and of comp_ext
   matches any character (for paths whose only metacharacter is '.').
   */
  predicate RegexAcceptsAsWritten(cfg: Config, name: string, d: string) {
    var p := IndexPrefix(cfg);
    var n := |p| + |d|;
    && 1 <= |d| && IsDigits(d)
    && n + |cfg.ext| + |cfg.compExt| <= |name|
    && WildMatch(name[..|p|], p)
    && name[|p|..n] == d
    && WildMatch(name[n..n + |cfg.ext|], cfg.ext)
    && WildMatch(name[|name| - |cfg.compExt|..], cfg.compExt)
  }

  /** A name that does not start with the prefix has no fitting run. */
  lemma {:induction false} NoPrefixNoRun(name: string, prefix: string, ext: string, comp: string, len: nat)
    requires !StartsWith(name, prefix)
    ensures LongestRun(name, prefix, ext, comp, len).None?
    decreases len
  {
    if len > 0 {
      NoPrefixNoRun(name, prefix, ext, comp, len - 1);
    }
  }

  /**
   As written, for base path "app.txt" and comp_ext ".gz", the archive regex accepts the
   unrelated entry "./app-3.txt.x.gz" with group "3" (the '.' after "app" matches '-'),
   which the literal pattern rejects. replace_first finds no "./app.3" in it, so the
   target is the entry itself, and rename_file removes the entry and then fails on both
   attempts: the file is lost and compress_ throws.
   */
  lemma WildcardMatchRenamesOntoItself()
    ensures var cfg := Config("app.txt", 10, 1, 1, ".gz", "", "app", ".txt");
      var name := "./app-3.txt.x.gz";
      var p := IndexPrefix(cfg);
      var target := ReplaceFirst(name, p + "3", p + Dec(Num("3") + 1));
      var fs: FileSystem := map["app-3.txt.x.gz" := [1]];
      && cfg.Derived()
      && RegexAcceptsAsWritten(cfg, name, "3")
      && IndexDigits(cfg, name).None?
      && target == name
      && RenameWithRetry(fs, name, target, Attempts(true, true)) == Retried(map[], false, 2)
  {
    AppTxtDerived();
    AppEntryAccepted();
    AppEntryNoLiteralMatch();
    AppReplaceKeepsName();
    AppRenameOntoItself();
  }

  /** replace_first leaves "./app-3.txt.x.gz" unchanged. */
  lemma AppReplaceKeepsName()
    ensures var p := IndexPrefix(Config("app.txt", 10, 1, 1, ".gz", "", "app", ".txt"));
      ReplaceFirst("./app-3.txt.x.gz", p + "3", p + Dec(Num("3") + 1)) == "./app-3.txt.x.gz"
  {
    assert IndexPrefix(Config("app.txt", 10, 1, 1, ".gz", "", "app", ".txt")) + "3" == "./app.3";
    AppEntryNoOccurrence();
  }

  /** rename_file of "./app-3.txt.x.gz" onto itself removes it and fails on both attempts. */
  lemma AppRenameOntoItself()
    ensures var fs: FileSystem := map["app-3.txt.x.gz" := [1]];
      RenameWithRetry(fs, "./app-3.txt.x.gz", "./app-3.txt.x.gz", Attempts(true, true)) == Retried(map[], false, 2)
  {
    var fs: FileSystem := map["app-3.txt.x.gz" := [1]];
    assert Resolve("./app-3.txt.x.gz") == "app-3.txt.x.gz";
    assert Remove(fs, "./app-3.txt.x.gz") == map[];
  }

  /** The configuration of base path "app.txt" is the derived one. */
  lemma AppTxtDerived()
    ensures Config("app.txt", 10, 1, 1, ".gz", "", "app", ".txt").Derived()
  {
    var f := "app.txt";
    var r := SplitByExtension(f);
    assert ExtensionDot(f, 3);
    assert r.1 != "";
    ExtensionDotUnique(f, |r.0|, 3);
    assert r.0 == f[..3] == "app";
    assert r.1 == f[3..] == ".txt";
    assert LastIndexOf(f, '/').None?;
  }

  /** The unescaped regex accepts "./app-3.txt.x.gz" with group "3". */
  lemma AppEntryAccepted()
    ensures RegexAcceptsAsWritten(Config("app.txt", 10, 1, 1, ".gz", "", "app", ".txt"), "./app-3.txt.x.gz", "3")
  {
    var name := "./app-3.txt.x.gz";
    assert name[..6] == "./app-";
    assert name[6..7] == "3";
    assert name[7..11] == ".txt";
    assert name[13..] == ".gz";
  }

  /** The literal pattern rejects "./app-3.txt.x.gz": it does not start with "./app.". */
  lemma AppEntryNoLiteralMatch()
    ensures IndexDigits(Config("app.txt", 10, 1, 1, ".gz", "", "app", ".txt"), "./app-3.txt.x.gz").None?
  {
    var name := "./app-3.txt.x.gz";
    var p := "./app.";
    assert name[..|p|] != p by {
      assert name[..|p|][5] == '-';
    }
    NoPrefixNoRun(name, p, ".txt", ".gz", |name|);
  }

  /** "./app.3" occurs nowhere in "./app-3.txt.x.gz". */
  lemma AppEntryNoOccurrence()
    ensures forall k: nat :: !OccursAt("./app-3.txt.x.gz", "./app.3", k)
  {
    var name := "./app-3.txt.x.gz";
    var pat := "./app.3";
    assert forall m :: 0 <= m < |name| && m != 1 ==> name[m] != '/';
    forall k: nat
      ensures !OccursAt(name, pat, k)
    {
      if k + |pat| <= |name| {
        if k == 0 {
          assert name[k..k + |pat|][5] == '-';
        } else {
          assert name[k..k + |pat|][1] == name[k + 1] != '/';
        }
      }
    }
  }

  /** The branch for every listed entry. Classifying depends only on the name, never on the files. */
  function Plan(cfg: Config, ps: seq<string>): (acts: seq<Action>)
    ensures |acts| == |ps|
    ensures forall i :: 0 <= i < |ps| ==> acts[i] == Classify(cfg, ps[i])
  {
    seq(|ps|, i requires 0 <= i < |ps| => Classify(cfg, ps[i]))
  }

  /** One loop iteration: delete (failure ignored), rename with one retry, or nothing. */
  function Apply(fs: FileSystem, path: string, act: Action, a: Attempts): (r: Effect)
    ensures r.error.Some? <==> act.Move? && !RenameWithRetry(fs, path, act.target, a).ok
    ensures r.error.Some? ==> r.error.value == RenameFailed(path, act.target)
    ensures act.Keep? ==> r.fs == fs
  {
    match act
    case Delete => Effect(Remove(fs, path), None)
    case Keep => Effect(fs, None)
    case Move(t) =>
      var m := RenameWithRetry(fs, path, t, a);
      Effect(m.fs, if m.ok then None else Some(RenameFailed(path, t)))
  }

  /** The for loop over the listed entries from position j on; os(i) answers the renames of entry i. */
  function ApplyPlan(fs: FileSystem, ps: seq<string>, acts: seq<Action>, os: nat -> Attempts, j: nat): (r: Effect)
    requires |acts| == |ps|
    ensures r.error.Some? ==> exists i :: j <= i < |ps| && acts[i].Move? && r.error.value == RenameFailed(ps[i], acts[i].target)
    decreases |ps| - j
  {
    if |ps| <= j then Effect(fs, None)
    else
      var e := Apply(fs, ps[j], acts[j], os(j));
      if e.error.Some? then e else ApplyPlan(e.fs, ps, acts, os, j + 1)
  }

  /** What the directory enumeration yields: no directory at all, or its entries, possibly followed by a filesystem_error. */
  datatype Listing = NoDirectory | Entries(paths: seq<string>, enumerationFails: bool)

  /** The try block of compress_: the archive shift over the listing, with an enumeration error wrapped as a sink error. */
  function ShiftArchives(cfg: Config, fs: FileSystem, listing: Listing, os: nat -> Attempts): (r: Effect)
    ensures listing.NoDirectory? ==> r == Effect(fs, None)
    ensures r.error == Some(EnumerationFailed) ==> listing.Entries? && listing.enumerationFails
    ensures r.error.Some? && r.error.value.RenameFailed? ==>
      exists i :: 0 <= i < |listing.paths| && Classify(cfg, listing.paths[i]).Move?
        && r.error.value == RenameFailed(listing.paths[i], Classify(cfg, listing.paths[i]).target)
  {
    match listing
    case NoDirectory => Effect(fs, None)
    case Entries(ps, fails) =>
      var r := ApplyPlan(fs, ps, Plan(cfg, ps), os, 0);
      if r.error.None? && fails then Effect(r.fs, Some(EnumerationFailed)) else r
  }

  /** new_compressed_file: the plaintext segment at index max_files, with "." and the time appended. */
  function ArchivePath(cfg: Config, time: string): string {
    CalcFilename(cfg.base, cfg.maxFiles) + "." + time
  }

  /**
   The last step of compress_: when the segment at index max_files exists and the
   compressor accepts its contents, the archive is written at the new archive name with
   comp_ext appended and the plaintext removed; a compressor failure changes nothing and
   raises nothing.
   */
  function CompressRetired(cfg: Config, fs: FileSystem, compressor: Bytes -> Option<Bytes>, time: string): (r: FileSystem)
    ensures var src := Resolve(CalcFilename(cfg.base, cfg.maxFiles));
      var arch := Resolve(ArchivePath(cfg, time) + cfg.compExt);
      && (src !in fs ==> r == fs)
      && r - {src, arch} == fs - {src, arch}
      && (r != fs ==> src in fs && compressor(fs[src]).Some? && src !in r)
      && (r != fs && src != arch ==> arch in r && r[arch] == compressor(fs[src]).value)
  {
    var src := CalcFilename(cfg.base, cfg.maxFiles);
    if !Exists(fs, src) then fs
    else
      match compressor(fs[Resolve(src)])
      case None => fs
      case Some(data) =>
        var arch := Resolve(ArchivePath(cfg, time) + cfg.compExt);
        var r := Remove(fs[arch := data], src);
        assert r - {Resolve(src), arch} == fs - {Resolve(src), arch};
        r
  }

  /** compress_: the archive shift, then, unless it raised, compression of the segment at index max_files. */
  function Compress(cfg: Config, fs: FileSystem, listing: Listing, os: nat -> Attempts,
                    compressor: Bytes -> Option<Bytes>, time: string): (r: Effect)
    ensures r.error.Some? ==> r.error == ShiftArchives(cfg, fs, listing, os).error
    ensures r.error.Some? ==> r.error.value.RenameFailed? || (listing.Entries? && listing.enumerationFails)
  {
    var shifted := ShiftArchives(cfg, fs, listing, os);
    if shifted.error.Some? then shifted
    else Effect(CompressRetired(cfg, shifted.fs, compressor, time), None)
  }

  /** A missing directory skips the shift: only the final compression step runs, and nothing is raised. */
  lemma MissingDirectoryOnlyCompresses(cfg: Config, fs: FileSystem, os: nat -> Attempts,
                                       compressor: Bytes -> Option<Bytes>, time: string)
    ensures Compress(cfg, fs, NoDirectory, os, compressor, time) == Effect(CompressRetired(cfg, fs, compressor, time), None)
  {
  }

  /** An enumeration error always raises, and then the plaintext segment is not compressed. */
  lemma EnumerationFailureRaises(cfg: Config, fs: FileSystem, ps: seq<string>, os: nat -> Attempts,
                                 compressor: Bytes -> Option<Bytes>, time: string)
    ensures var r := Compress(cfg, fs, Entries(ps, true), os, compressor, time);
      && r.error.Some?
      && r.fs == ApplyPlan(fs, ps, Plan(cfg, ps), os, 0).fs
      && (ApplyPlan(fs, ps, Plan(cfg, ps), os, 0).error.None? ==> r.error == Some(EnumerationFailed))
  {
  }

  /**
   The final step, file by file: with no plaintext segment at index max_files or a failed
   compression nothing changes; on success the archive holds the compressor's output,
   the plaintext is gone, and every other file is untouched.
   */
  lemma CompressRetiredSpec(cfg: Config, fs: FileSystem, compressor: Bytes -> Option<Bytes>, time: string)
    requires cfg.maxFiles >= 1
    ensures var src := Resolve(CalcFilename(cfg.base, cfg.maxFiles));
      var arch := Resolve(ArchivePath(cfg, time) + cfg.compExt);
      var r := CompressRetired(cfg, fs, compressor, time);
      && src != arch
      && (src !in fs ==> r == fs)
      && (src in fs && compressor(fs[src]).None? ==> r == fs)
      && (src in fs && compressor(fs[src]).Some? ==>
            && arch in r && r[arch] == compressor(fs[src]).value
            && src !in r
            && r - {src, arch} == fs - {src, arch})
  {
    var f := CalcFilename(cfg.base, cfg.maxFiles);
    var x := "." + time + cfg.compExt;
    assert |f| >= 2 by {
      var (stem, ext) := SplitByExtension(cfg.base);
      assert f == stem + "." + Dec(cfg.maxFiles) + ext;
    }
    assert ArchivePath(cfg, time) + cfg.compExt == f + x;
    ResolveAppend(f, x);
    var src := Resolve(f);
    var arch := Resolve(f + x);
    var r := CompressRetired(cfg, fs, compressor, time);
    if src in fs && compressor(fs[src]).Some? {
      var data := compressor(fs[src]).value;
      assert r == fs[arch := data] - {src};
      assert r - {src, arch} == fs - {src, arch};
    }
  }

  /** The files the entries from position j on delete or rename away. */
  ghost function Touched(ps: seq<string>, acts: seq<Action>, j: nat): set<string>
    requires |acts| == |ps|
  {
    set i | j <= i < |ps| && !acts[i].Keep? :: Resolve(ps[i])
  }

  /** The files the entries from position j on are renamed to. */
  ghost function Targets(ps: seq<string>, acts: seq<Action>, j: nat): set<string>
    requires |acts| == |ps|
  {
    set i | j <= i < |ps| && acts[i].Move? :: Resolve(acts[i].target)
  }

  /**
   The assumption under which one pass is well defined: no file is touched twice, every
   entry to be renamed exists, and no rename target is another entry's file or another
   rename's target.
   */
  ghost predicate CollisionFree(fs: FileSystem, ps: seq<string>, acts: seq<Action>, j: nat)
    requires |acts| == |ps|
  {
    && (forall i, k :: j <= i < k < |ps| && !acts[i].Keep? && !acts[k].Keep? ==> Resolve(ps[i]) != Resolve(ps[k]))
    && (forall i :: j <= i < |ps| && acts[i].Move? ==> Resolve(ps[i]) in fs)
    && (forall i :: j <= i < |ps| && acts[i].Move? ==> Resolve(acts[i].target) !in Touched(ps, acts, j))
    && (forall i, k :: j <= i < k < |ps| && acts[i].Move? && acts[k].Move? ==>
          Resolve(acts[i].target) != Resolve(acts[k].target))
  }

  /** Every rename of the pass succeeds on its first attempt or on its retry. */
  predicate OracleAllows(ps: seq<string>, acts: seq<Action>, os: nat -> Attempts, j: nat)
    requires |acts| == |ps|
  {
    forall i :: j <= i < |ps| && acts[i].Move? ==> os(i).first || os(i).retry
  }

  /** The effect of a completed pass from position j on, file by file. */
  ghost predicate PassDone(fs: FileSystem, ps: seq<string>, acts: seq<Action>, j: nat, fs': FileSystem)
    requires |acts| == |ps|
  {
    && (forall i :: j <= i < |ps| && !acts[i].Keep? ==> Resolve(ps[i]) !in fs')
    && (forall i :: j <= i < |ps| && acts[i].Move? ==>
          Resolve(ps[i]) in fs && Resolve(acts[i].target) in fs' && fs'[Resolve(acts[i].target)] == fs[Resolve(ps[i])])
    && fs' - (Touched(ps, acts, j) + Targets(ps, acts, j)) == fs - (Touched(ps, acts, j) + Targets(ps, acts, j))
  }

  /** The first step of a collision-free pass: what entry j does, and that the rest stays collision-free. */
  lemma PassFirstStep(fs: FileSystem, ps: seq<string>, acts: seq<Action>, os: nat -> Attempts, j: nat)
    requires |acts| == |ps| && j < |ps|
    requires CollisionFree(fs, ps, acts, j) && OracleAllows(ps, acts, os, j)
    ensures var e := Apply(fs, ps[j], acts[j], os(j));
      && e.error.None?
      && CollisionFree(e.fs, ps, acts, j + 1)
      && (!acts[j].Keep? ==> Resolve(ps[j]) !in e.fs)
      && (acts[j].Move? ==> Resolve(acts[j].target) in e.fs && e.fs[Resolve(acts[j].target)] == fs[Resolve(ps[j])])
      && (acts[j].Move? ==> e.fs - {Resolve(ps[j]), Resolve(acts[j].target)} == fs - {Resolve(ps[j]), Resolve(acts[j].target)})
      && (acts[j].Delete? ==> e.fs == fs - {Resolve(ps[j])})
      && (acts[j].Keep? ==> e.fs == fs)
  {
    var S := Resolve(ps[j]);
    var e := Apply(fs, ps[j], acts[j], os(j));
    assert S in Touched(ps, acts, j) || acts[j].Keep?;
    assert Touched(ps, acts, j + 1) <= Touched(ps, acts, j);
    if acts[j].Move? {
      var T := Resolve(acts[j].target);
      assert T != S;
      forall i | j + 1 <= i < |ps| && acts[i].Move?
        ensures Resolve(ps[i]) in e.fs
      {
        assert Resolve(ps[i]) in Touched(ps, acts, j);
        UnchangedOutside(fs, e.fs, S, T, Resolve(ps[i]));
      }
    } else if acts[j].Delete? {
      forall i | j + 1 <= i < |ps| && acts[i].Move?
        ensures Resolve(ps[i]) in e.fs
      {
        assert Resolve(ps[i]) != S;
      }
    }
  }

  /** Entry j's own files are not touched again by the rest of the pass. */
  lemma FirstEntryOutsideRest(fs: FileSystem, ps: seq<string>, acts: seq<Action>, j: nat)
    requires |acts| == |ps| && j < |ps|
    requires CollisionFree(fs, ps, acts, j)
    ensures !acts[j].Keep? ==> Resolve(ps[j]) !in Touched(ps, acts, j + 1) + Targets(ps, acts, j + 1)
    ensures acts[j].Move? ==> Resolve(acts[j].target) !in Touched(ps, acts, j + 1) + Targets(ps, acts, j + 1)
  {
    if !acts[j].Keep? {
      assert Resolve(ps[j]) in Touched(ps, acts, j);
    }
    assert Touched(ps, acts, j + 1) <= Touched(ps, acts, j);
  }

  /** A collision-free pass the oracle lets through raises nothing and does what PassDone states. */
  lemma {:induction false} ApplyPlanMeetsSpec(fs: FileSystem, ps: seq<string>, acts: seq<Action>, os: nat -> Attempts, j: nat)
    requires |acts| == |ps| && j <= |ps|
    requires CollisionFree(fs, ps, acts, j) && OracleAllows(ps, acts, os, j)
    ensures ApplyPlan(fs, ps, acts, os, j).error.None?
    ensures PassDone(fs, ps, acts, j, ApplyPlan(fs, ps, acts, os, j).fs)
    decreases |ps| - j
  {
    if j < |ps| {
      var e := Apply(fs, ps[j], acts[j], os(j));
      PassFirstStep(fs, ps, acts, os, j);
      ApplyPlanMeetsSpec(e.fs, ps, acts, os, j + 1);
      var fs1 := e.fs;
      var fs' := ApplyPlan(fs1, ps, acts, os, j + 1).fs;
      assert ApplyPlan(fs, ps, acts, os, j) == ApplyPlan(fs1, ps, acts, os, j + 1);
      FirstEntryOutsideRest(fs, ps, acts, j);
      PassStepSpec(fs, fs1, fs', ps, acts, j);
    } else {
      assert Touched(ps, acts, j) == {} && Targets(ps, acts, j) == {};
      assert fs - {} == fs;
    }
  }

  /** Entry j's step followed by a completed pass from j + 1 is a completed pass from j. */
  lemma PassStepSpec(fs: FileSystem, fs1: FileSystem, fs': FileSystem, ps: seq<string>, acts: seq<Action>, j: nat)
    requires |acts| == |ps| && j < |ps|
    requires CollisionFree(fs, ps, acts, j)
    requires !acts[j].Keep? ==> Resolve(ps[j]) !in fs1
    requires acts[j].Move? ==> Resolve(acts[j].target) in fs1 && fs1[Resolve(acts[j].target)] == fs[Resolve(ps[j])]
    requires acts[j].Move? ==> fs1 - {Resolve(ps[j]), Resolve(acts[j].target)} == fs - {Resolve(ps[j]), Resolve(acts[j].target)}
    requires acts[j].Delete? ==> fs1 == fs - {Resolve(ps[j])}
    requires acts[j].Keep? ==> fs1 == fs
    requires !acts[j].Keep? ==> Resolve(ps[j]) !in Touched(ps, acts, j + 1) + Targets(ps, acts, j + 1)
    requires acts[j].Move? ==> Resolve(acts[j].target) !in Touched(ps, acts, j + 1) + Targets(ps, acts, j + 1)
    requires PassDone(fs1, ps, acts, j + 1, fs')
    ensures PassDone(fs, ps, acts, j, fs')
  {
    var S := Resolve(ps[j]);
    var A := Touched(ps, acts, j + 1) + Targets(ps, acts, j + 1);
    var C := Touched(ps, acts, j) + Targets(ps, acts, j);
    var B: set<string> := if acts[j].Move? then {S, Resolve(acts[j].target)} else if acts[j].Delete? then {S} else {};
    assert A <= C;
    assert B <= C;
    assert fs1 - B == fs - B by {
      if acts[j].Delete? {
        assert fs1 - B == (fs - {S}) - {S};
      } else if acts[j].Keep? {
        assert fs1 - {} == fs1;
      }
    }
    AgreeOutsideWiden(fs, fs1, fs', A, B, C);
    if !acts[j].Keep? {
      assert S !in fs' by {
        assert S !in fs1 - A;
        assert S !in fs' - A;
      }
    }
    if acts[j].Move? {
      var T := Resolve(acts[j].target);
      assert T in fs' && fs'[T] == fs[S] by {
        assert T in fs1 - A;
        assert (fs' - A)[T] == (fs1 - A)[T];
      }
    }
    forall i | j + 1 <= i < |ps| && acts[i].Move?
      ensures Resolve(ps[i]) in fs && Resolve(acts[i].target) in fs' && fs'[Resolve(acts[i].target)] == fs[Resolve(ps[i])]
    {
      var Si := Resolve(ps[i]);
      assert Si in Touched(ps, acts, j);
      assert Si in fs;
      if acts[j].Move? {
        UnchangedOutside(fs, fs1, S, Resolve(acts[j].target), Si);
      } else if acts[j].Delete? {
        assert Si != S;
      }
    }
  }

  /**
   The archive shift of compress_ over a collision-free listing whose renames the oracle
   lets through: the oldest archives are gone, every other archive sits under its
   renumbered name with its contents, and every other file is untouched. Only an
   enumeration error raises.
   */
  lemma ShiftArchivesMeetsSpec(cfg: Config, fs: FileSystem, ps: seq<string>, fails: bool, os: nat -> Attempts)
    requires CollisionFree(fs, ps, Plan(cfg, ps), 0) && OracleAllows(ps, Plan(cfg, ps), os, 0)
    ensures var r := ShiftArchives(cfg, fs, Entries(ps, fails), os);
      && (r.error.Some? <==> fails)
      && (forall i :: 0 <= i < |ps| && IsOldest(cfg, ps[i]) ==> Resolve(ps[i]) !in r.fs)
      && (forall i :: 0 <= i < |ps| && Classify(cfg, ps[i]).Move? ==>
            && Resolve(ps[i]) !in r.fs
            && Resolve(Classify(cfg, ps[i]).target) in r.fs
            && r.fs[Resolve(Classify(cfg, ps[i]).target)] == fs[Resolve(ps[i])])
      && r.fs - (Touched(ps, Plan(cfg, ps), 0) + Targets(ps, Plan(cfg, ps), 0))
         == fs - (Touched(ps, Plan(cfg, ps), 0) + Targets(ps, Plan(cfg, ps), 0))
  {
    ApplyPlanMeetsSpec(fs, ps, Plan(cfg, ps), os, 0);
  }
}
