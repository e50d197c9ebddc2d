/**
 The sink's configuration and its file naming: calc_filename, which places a segment
 index before the extension, and the names the constructor and compress_ derive from
 the base path (directory, basename_, file_ext_, basename_local, max_itr_value).
 */
module Naming {
  import opened Common
  import opened Paths

  /** std::size_t arithmetic wraps modulo 2^64. */
  const SizeModulus: nat := 0x1_0000_0000_0000_0000

  /**
   The sink's settings, and the three names the constructor derives from the base path
   once and keeps (see MakeConfig and Derived).
   */
  datatype Config = Config(
    base: string,          // base_filename_
    maxSize: nat,          // max_size_
    maxFiles: nat,         // max_files_
    maxCompressed: nat,    // max_compressed_files_
    compExt: string,       // Utility::compressedFileExt
    dir: string,           // dir_: the parent directory of the base path
    stem: string,          // basename_: the base path's file name without its extension
    ext: string)           // file_ext_: the base path's extension, with its dot, or ""
  {
    /** The constructor derived dir_, basename_ and file_ext_ from base_filename_. */
    predicate Derived() {
      dir == ParentPath(base) && (stem, ext) == SplitByExtension(FileName(base))
    }

    /** dir_local in compress_: "./" stands in for an empty directory. */
    function DirLocal(): string {
      if dir == "" then "./" else dir
    }

    /** basename_local in compress_: the directory and the basename, joined by "/". */
    function BaseLocal(): string {
      if dir == "" then "./" + stem else dir + "/" + stem
    }

    /** max_itr_value: the oldest archive slot, max_compressed_files + max_files - 1 in size_t. */
    function OldestSlot(): nat {
      (maxCompressed + maxFiles - 1) % SizeModulus
    }

    /**
     The configurations the retention ladder is meant for: at least one slot of each kind,
     and max_itr_value computed without wrapping around.
     */
    predicate HasLadder() {
      maxFiles >= 1 && maxCompressed >= 1 && maxCompressed + maxFiles - 1 < SizeModulus
    }
  }

  /** The constructor's arguments, with the compressed-file extension the sink appends. */
  datatype Settings = Settings(base: string, maxSize: nat, maxFiles: nat, maxCompressed: nat, compExt: string)

  /** The constructor's derivation of dir_, basename_ and file_ext_ from the base path. */
  function MakeConfig(st: Settings): (cfg: Config)
    ensures cfg.Derived()
    ensures cfg.base == st.base && cfg.maxSize == st.maxSize && cfg.maxFiles == st.maxFiles
    ensures cfg.maxCompressed == st.maxCompressed && cfg.compExt == st.compExt
  {
    var (stem, ext) := SplitByExtension(FileName(st.base));
    Config(st.base, st.maxSize, st.maxFiles, st.maxCompressed, st.compExt, ParentPath(st.base), stem, ext)
  }

  /** Without wrap-around, the oldest slot lies max_compressed_files - 1 slots above max_files. */
  lemma OldestSlotNoWrap(cfg: Config)
    requires cfg.HasLadder()
    ensures cfg.OldestSlot() == cfg.maxCompressed + cfg.maxFiles - 1
    ensures cfg.maxFiles <= cfg.OldestSlot()
  {
  }

  /** calc_filename: index 0 is the path itself; index i > 0 goes before the extension. */
  function CalcFilename(f: string, index: nat): (r: string)
    ensures index == 0 <==> r == f
  {
    if index == 0 then f
    else
      var (stem, ext) := SplitByExtension(f);
      stem + "." + Dec(index) + ext
  }

  /** The index a segment name carries, read back the way compress_'s pattern reads it. */
  function SegmentIndex(f: string, name: string): Option<nat> {
    if name == f then Some(0)
    else
      var (stem, ext) := SplitByExtension(f);
      var lo := |stem| + 1;
      if lo + |ext| < |name| && name[..lo] == stem + "." && name[|name| - |ext|..] == ext
         && Canonical(name[lo..|name| - |ext|]) && Num(name[lo..|name| - |ext|]) > 0
      then Some(Num(name[lo..|name| - |ext|]))
      else None
  }

  /** calc_filename is invertible: every generated name carries its index, and only generated names carry one. */
  lemma CalcFilenameRoundTrip(f: string, index: nat, name: string)
    ensures SegmentIndex(f, CalcFilename(f, index)) == Some(index)
    ensures SegmentIndex(f, name) == Some(index) ==> CalcFilename(f, index) == name
  {
    if index > 0 {
      GeneratedNameReadsBack(f, index);
    }
    if SegmentIndex(f, name) == Some(index) && name != f {
      OnlyGeneratedNamesRead(f, name);
    }
  }

  /** Sequence bookkeeping: the three pieces of a concatenation, recovered by slicing. */
  lemma ThreePieces(a: string, b: string, c: string)
    ensures var r := a + b + c;
      && r[..|a|] == a
      && r[|r| - |c|..] == c
      && r[|a|..|r| - |c|] == b
  {
  }

  /** A name calc_filename generates for an index above 0 reads back as that index. */
  lemma GeneratedNameReadsBack(f: string, index: nat)
    requires index > 0
    ensures SegmentIndex(f, CalcFilename(f, index)) == Some(index)
  {
    var (stem, ext) := SplitByExtension(f);
    var d := Dec(index);
    ThreePieces(stem + ".", d, ext);
    DecInjective(index, index);
    NumDec(index);
  }

  /** A name that reads as an index above 0 is the name calc_filename generates for it. */
  lemma OnlyGeneratedNamesRead(f: string, name: string)
    requires SegmentIndex(f, name).Some? && name != f
    ensures CalcFilename(f, SegmentIndex(f, name).value) == name
  {
    var (stem, ext) := SplitByExtension(f);
    var lo := |stem| + 1;
    var mid := name[lo..|name| - |ext|];
    assert name == name[..lo] + mid + name[|name| - |ext|..];
  }

  /** Distinct indices give distinct names. */
  lemma CalcFilenameInjective(f: string, i: nat, j: nat)
    ensures CalcFilename(f, i) == CalcFilename(f, j) <==> i == j
  {
    CalcFilenameRoundTrip(f, i, CalcFilename(f, j));
    CalcFilenameRoundTrip(f, j, CalcFilename(f, j));
  }

  /** Whether a segment name starts with "./" depends only on the base path. */
  lemma CalcFilenameStartsLikeBase(f: string, index: nat)
    ensures StartsDotSlash(CalcFilename(f, index)) == StartsDotSlash(f)
  {
    var (stem, ext) := SplitByExtension(f);
    ExtensionShape(f);
    if index > 0 {
      var r := CalcFilename(f, index);
      assert r == stem + "." + Dec(index) + ext;
      if 2 <= |stem| {
        assert r[..2] == stem[..2] == f[..2];
      } else if |stem| == 1 {
        assert r[1] == '.';
        assert |f| == 1 || f[1] == ext[0];
      } else {
        assert ext == "" && f == "";
        assert r[1] == Dec(index)[0];
      }
    }
  }

  /** The file that holds segment `index` of the ladder. */
  function SegmentFile(base: string, index: nat): string {
    Resolve(CalcFilename(base, index))
  }

  /** The files of the ladder: distinct indices name distinct files, whatever "./" the base path carries. */
  lemma SegmentFilesDistinct(f: string, i: nat, j: nat)
    ensures SegmentFile(f, i) == SegmentFile(f, j) <==> i == j
  {
    CalcFilenameInjective(f, i, j);
    CalcFilenameStartsLikeBase(f, i);
    CalcFilenameStartsLikeBase(f, j);
    ResolveInjective(CalcFilename(f, i), CalcFilename(f, j));
  }

  /** The examples calc_filename documents, and a base path without an extension. */
  lemma CalcFilenameExamples()
    ensures CalcFilename("logs/mylog.txt", 3) == "logs/mylog.3.txt"
    ensures CalcFilename("a/b", 2) == "a/b.2"
    ensures CalcFilename("a/b.log", 0) == "a/b.log"
  {
    MylogExample();
    NoExtensionExample();
  }

  lemma MylogExample()
    ensures CalcFilename("logs/mylog.txt", 3) == "logs/mylog.3.txt"
  {
    SplitMylog();
    assert Dec(3) == "3";
    assert "logs/mylog" + "." + "3" + ".txt" == "logs/mylog.3.txt";
  }

  lemma NoExtensionExample()
    ensures CalcFilename("a/b", 2) == "a/b.2"
  {
    SplitNoExtension();
    assert Dec(2) == "2";
  }

  lemma SplitMylog()
    ensures SplitByExtension("logs/mylog.txt") == ("logs/mylog", ".txt")
  {
    var f := "logs/mylog.txt";
    var r := SplitByExtension(f);
    assert ExtensionDot(f, 10);
    assert r.1 != "";
    ExtensionDotUnique(f, |r.0|, 10);
    assert r.0 == f[..10] == "logs/mylog";
    assert r.1 == f[10..] == ".txt";
  }

  lemma SplitNoExtension()
    ensures SplitByExtension("a/b") == ("a/b", "")
  {
    assert forall e :: !ExtensionDot("a/b", e);
  }
}
