/**
 The operating-system facade the sink drives: a filesystem is a map from resolved path
 to file contents, and the outcome of each OS rename is an oracle input. The sink's
 rename_file (delete the target, then rename) and the rename-with-one-retry pattern that
 rotate_ and compress_ both wrap around it live here.
 */
module Os {
  import opened Common
  import opened Paths

  newtype byte = x: int | 0 <= x < 256

  type Bytes = seq<byte>

  /** Files by the path they resolve to. */
  type FileSystem = map<string, Bytes>

  /** The errors the sink raises (spdlog_ex): a rename that failed twice, or a failed directory enumeration. */
  datatype SinkError = RenameFailed(src: string, target: string) | EnumerationFailed

  /** A filesystem after an operation, with the error it raised, if any. */
  datatype Effect = Effect(fs: FileSystem, error: Option<SinkError>)

  /** What the OS answers to the first rename attempt and to the retry after the delay. */
  datatype Attempts = Attempts(first: bool, retry: bool)

  predicate Exists(fs: FileSystem, p: string) {
    Resolve(p) in fs
  }

  /** details::os::remove; removing a missing file is a no-op whose failure is ignored. */
  function Remove(fs: FileSystem, p: string): FileSystem {
    fs - {Resolve(p)}
  }

  /** file_helper reopen(truncate = true): the file exists and is empty. */
  function Truncate(fs: FileSystem, p: string): FileSystem {
    fs[Resolve(p) := []]
  }

  /** file_helper write: append to the file (an "ab" open creates a missing one). */
  function Append(fs: FileSystem, p: string, data: Bytes): FileSystem {
    fs[Resolve(p) := (if Exists(fs, p) then fs[Resolve(p)] else []) + data]
  }

  datatype Renamed = Renamed(fs: FileSystem, ok: bool)

  /**
   rename_file: remove the target, then ask the OS to rename. The OS call succeeds when
   the oracle says so and the source is still there (removing the target first means a
   source that resolves to the target is gone).
   */
  function RenameFile(fs: FileSystem, src: string, target: string, osOk: bool): (r: Renamed)
    ensures r.ok <==> osOk && Resolve(src) in fs && Resolve(src) != Resolve(target)
    ensures r.ok ==> Resolve(target) in r.fs && r.fs[Resolve(target)] == fs[Resolve(src)]
    ensures r.ok ==> Resolve(src) !in r.fs
    ensures r.fs - {Resolve(src), Resolve(target)} == fs - {Resolve(src), Resolve(target)}
    ensures !r.ok ==> Resolve(target) !in r.fs
    ensures !r.ok ==> r.fs == Remove(fs, target)
  {
    var cleared := Remove(fs, target);
    if osOk && Exists(cleared, src) then
      Renamed(cleared[Resolve(target) := cleared[Resolve(src)]] - {Resolve(src)}, true)
    else
      Renamed(cleared, false)
  }

  datatype Retried = Retried(fs: FileSystem, ok: bool, attempts: nat)

  /** A rename through rename_file, retried once (after a short sleep) when the first attempt fails. */
  function RenameWithRetry(fs: FileSystem, src: string, target: string, os: Attempts): (r: Retried)
    ensures r.attempts == (if RenameFile(fs, src, target, os.first).ok then 1 else 2)
    ensures r.ok <==> (os.first || os.retry) && Resolve(src) in fs && Resolve(src) != Resolve(target)
    ensures r.ok ==> r.fs == RenameFile(fs, src, target, true).fs
    ensures !r.ok ==> r.fs == Remove(fs, target)
  {
    var first := RenameFile(fs, src, target, os.first);
    if first.ok then
      Retried(first.fs, true, 1)
    else
      var second := RenameFile(first.fs, src, target, os.retry);
      Retried(second.fs, second.ok, 2)
  }

  /** A rename that succeeds only on the retry ends exactly where a first-try success ends. */
  lemma RetryMatchesFirstTry(fs: FileSystem, src: string, target: string, retry: bool)
    requires Resolve(src) in fs && Resolve(src) != Resolve(target)
    ensures RenameWithRetry(fs, src, target, Attempts(false, true)).fs
         == RenameWithRetry(fs, src, target, Attempts(true, retry)).fs
    ensures RenameWithRetry(fs, src, target, Attempts(false, true)).ok
    ensures RenameWithRetry(fs, src, target, Attempts(false, true)).attempts == 2
    ensures RenameWithRetry(fs, src, target, Attempts(true, retry)).attempts == 1
  {
    var cleared := fs - {Resolve(target)};
    assert cleared - {Resolve(target)} == cleared;
  }

  /** A file outside the two an operation touched is the same before and after it. */
  lemma UnchangedOutside(fs: FileSystem, fs1: FileSystem, S: string, T: string, k: string)
    requires fs1 - {S, T} == fs - {S, T}
    requires k != S && k != T
    ensures k in fs1 <==> k in fs
    ensures k in fs ==> fs1[k] == fs[k]
  {
    assert k in fs1 <==> k in fs1 - {S, T};
    assert k in fs <==> k in fs - {S, T};
    if k in fs {
      assert fs1[k] == (fs1 - {S, T})[k];
      assert fs[k] == (fs - {S, T})[k];
    }
  }

  /** Bookkeeping for composed operations: agreement outside a set widens to agreement outside any superset. */
  lemma AgreeOutsideWiden(fs: FileSystem, fs1: FileSystem, fs': FileSystem, A: set<string>, B: set<string>, C: set<string>)
    requires fs' - A == fs1 - A
    requires fs1 - B == fs - B
    requires A <= C && B <= C
    ensures fs' - C == fs - C
  {
    assert fs' - C == (fs' - A) - C;
    assert fs1 - C == (fs1 - A) - C;
    assert fs1 - C == (fs1 - B) - C;
    assert fs - C == (fs - B) - C;
  }
}
