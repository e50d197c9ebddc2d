/** Optional values, used wherever the sink's code returns "not found". */
module Common {

  datatype Option<T> = None | Some(value: T)
}

/**
 String helpers the sink relies on: decimal rendering of indices (fmt's "{}" and
 std::to_string), reading digits back (std::stoi), the last-character search behind
 spdlog's split_by_extension, boost's parent_path/filename/operator/ for plain
 "dir/file" spellings, and the operating system's resolution of a leading "./".
 */
module Paths {
  import opened Common

  predicate IsDigit(c: char) {
    '0' <= c <= '9'
  }

  predicate IsDigits(s: string) {
    forall i :: 0 <= i < |s| ==> IsDigit(s[i])
  }

  predicate StartsWith(s: string, prefix: string) {
    |prefix| <= |s| && s[..|prefix|] == prefix
  }

  function DigitChar(n: nat): (c: char)
    requires n < 10
    ensures IsDigit(c)
  {
    ('0' as int + n) as char
  }

  function DigitValue(c: char): (n: nat)
    requires IsDigit(c)
    ensures n < 10
  {
    c as int - '0' as int
  }

  /** Decimal rendering of an index, most significant digit first, no leading zeros. */
  function Dec(n: nat): (s: string)
    ensures 1 <= |s| && IsDigits(s)
    decreases n
  {
    if n < 10 then [DigitChar(n)] else Dec(n / 10) + [DigitChar(n % 10)]
  }

  /** Value of a digit string, as std::stoi reads it (without int's range limit). */
  function Num(s: string): nat
    requires IsDigits(s)
    decreases |s|
  {
    if |s| == 0 then 0 else Num(s[..|s| - 1]) * 10 + DigitValue(s[|s| - 1])
  }

  /** A digit string in the form Dec produces: reading it and printing it back changes nothing. */
  predicate Canonical(s: string) {
    IsDigits(s) && s == Dec(Num(s))
  }

  /** Reading back a rendered index gives the index. */
  lemma {:induction false} NumDec(n: nat)
    ensures Num(Dec(n)) == n
    decreases n
  {
    if n >= 10 {
      var d := Dec(n / 10);
      NumDec(n / 10);
      var s := d + [DigitChar(n % 10)];
      assert s[..|s| - 1] == d;
    }
  }

  /** Dec renders distinct indices as distinct strings, and its output is canonical. */
  lemma DecInjective(m: nat, n: nat)
    ensures Dec(m) == Dec(n) <==> m == n
    ensures Canonical(Dec(n))
  {
    NumDec(m);
    NumDec(n);
  }

  /** A smaller index never needs more digits. */
  lemma {:induction false} DecLengthMonotone(m: nat, n: nat)
    requires m <= n
    ensures |Dec(m)| <= |Dec(n)|
    decreases n
  {
    if m >= 10 {
      DecLengthMonotone(m / 10, n / 10);
    }
  }

  /** The position of the last occurrence of `c` in `s` (std::string::rfind). */
  function LastIndexOf(s: string, c: char): (r: Option<nat>)
    ensures r.Some? ==> r.value < |s| && s[r.value] == c
    ensures r.Some? ==> forall j :: r.value < j < |s| ==> s[j] != c
    ensures r.None? ==> forall j :: 0 <= j < |s| ==> s[j] != c
    decreases |s|
  {
    if |s| == 0 then None
    else if s[|s| - 1] == c then Some(|s| - 1)
    else LastIndexOf(s[..|s| - 1], c)
  }

  /** The last occurrence is the occurrence with no later one. */
  lemma LastIndexOfIs(s: string, c: char, i: nat)
    requires i < |s| && s[i] == c
    requires forall j :: i < j < |s| ==> s[j] != c
    ensures LastIndexOf(s, c) == Some(i)
  {
  }

  /**
   `e` is where spdlog's split_by_extension cuts `f`: the last dot, neither the first
   nor the last character, with no folder separator right before it or after it.
   */
  predicate ExtensionDot(f: string, e: int) {
    && 0 < e < |f| - 1
    && f[e] == '.'
    && f[e - 1] != '/'
    && forall j :: e < j < |f| ==> f[j] != '.' && f[j] != '/'
  }

  /** A name has at most one extension dot. */
  lemma ExtensionDotUnique(f: string, e1: int, e2: int)
    requires ExtensionDot(f, e1) && ExtensionDot(f, e2)
    ensures e1 == e2
  {
  }

  /** spdlog's file_helper::split_by_extension: (stem, extension). */
  function SplitByExtension(f: string): (r: (string, string))
    ensures r.0 + r.1 == f
    ensures r.1 != "" ==> ExtensionDot(f, |r.0|)
    ensures r.1 == "" <==> forall e :: !ExtensionDot(f, e)
  {
    match LastIndexOf(f, '.')
    case None => (f, "")
    case Some(e) =>
      if e == 0 || e == |f| - 1 then (f, "")
      else
        match LastIndexOf(f, '/')
        case Some(sep) =>
          if sep >= e - 1 then
            assert forall x :: ExtensionDot(f, x) ==> x == e;
            assert !ExtensionDot(f, e) by { assert f[sep] == '/'; }
            (f, "")
          else
            assert ExtensionDot(f, e);
            (f[..e], f[e..])
        case None =>
          assert ExtensionDot(f, e);
          (f[..e], f[e..])
  }

  /** The extension, when there is one, is a dot followed by at least one character, none of them dots or separators. */
  lemma ExtensionShape(f: string)
    ensures var (stem, ext) := SplitByExtension(f);
      ext != "" ==>
        && 2 <= |ext| && ext[0] == '.' && 1 <= |stem| && stem[|stem| - 1] != '/'
        && (forall j :: 0 < j < |ext| ==> ext[j] != '.' && ext[j] != '/')
  {
    var (stem, ext) := SplitByExtension(f);
    if ext != "" {
      assert ExtensionDot(f, |stem|);
      forall j | 0 < j < |ext|
        ensures ext[j] != '.' && ext[j] != '/'
      {
        assert ext[j] == f[|stem| + j];
      }
    }
  }

  /** An extension dot of "dir/name" lies inside the name and is the name's own extension dot. */
  lemma ExtensionDotFromPath(dir: string, name: string, e: int)
    requires forall j :: 0 <= j < |name| ==> name[j] != '/'
    requires ExtensionDot(dir + "/" + name, e)
    ensures |dir| + 1 < e && ExtensionDot(name, e - |dir| - 1)
  {
    var f := dir + "/" + name;
    var k := |dir| + 1;
    assert f[k - 1] == '/';
    assert f[e] == name[e - k];
    assert f[e - 1] == name[e - k - 1];
    forall j | e - k < j < |name|
      ensures name[j] != '.' && name[j] != '/'
    {
      assert name[j] == f[j + k];
    }
  }

  /** The name's extension dot is an extension dot of "dir/name". */
  lemma ExtensionDotToPath(dir: string, name: string, e: int)
    requires ExtensionDot(name, e)
    ensures ExtensionDot(dir + "/" + name, e + |dir| + 1)
  {
    var f := dir + "/" + name;
    var k := |dir| + 1;
    assert f[e + k] == name[e];
    assert f[e + k - 1] == name[e - 1];
    forall j | e + k < j < |f|
      ensures f[j] != '.' && f[j] != '/'
    {
      assert f[j] == name[j - k];
    }
  }

  /** Splitting "dir/name" splits only the name: the directory never holds the extension. */
  lemma SplitUnderDirectory(dir: string, name: string)
    requires forall j :: 0 <= j < |name| ==> name[j] != '/'
    ensures var (stem, ext) := SplitByExtension(name);
      SplitByExtension(dir + "/" + name) == (dir + "/" + stem, ext)
  {
    var f := dir + "/" + name;
    var k := |dir| + 1;
    var (stem, ext) := SplitByExtension(name);
    var (fstem, fext) := SplitByExtension(f);
    if ext == "" {
      forall e | ExtensionDot(f, e)
        ensures false
      {
        ExtensionDotFromPath(dir, name, e);
      }
      assert fstem == f;
    } else {
      ExtensionDotToPath(dir, name, |stem|);
      assert fext != "";
      ExtensionDotUnique(f, |fstem|, |stem| + k);
      assert name == stem + ext;
      assert f == (dir + "/" + stem) + ext;
    }
  }

  /** boost::filesystem::path::parent_path for plain "dir/file" spellings. */
  function ParentPath(p: string): string {
    match LastIndexOf(p, '/')
    case None => ""
    case Some(sep) => if sep == 0 then "/" else p[..sep]
  }

  /** boost::filesystem::path::filename for plain "dir/file" spellings. */
  function FileName(p: string): string {
    match LastIndexOf(p, '/')
    case None => p
    case Some(sep) => p[sep + 1..]
  }

  /** boost's operator/: one separator between directory and name. */
  function JoinPath(dir: string, name: string): string {
    if 0 < |dir| && dir[|dir| - 1] == '/' then dir + name else dir + "/" + name
  }

  predicate StartsDotSlash(p: string) {
    2 <= |p| && p[0] == '.' && p[1] == '/'
  }

  /** The file a path names: the operating system reads "./x" as "x". */
  function Resolve(p: string): string {
    if StartsDotSlash(p) then p[2..] else p
  }

  /** Two different spellings that agree on whether they start with "./" name different files. */
  lemma ResolveInjective(p: string, q: string)
    requires StartsDotSlash(p) == StartsDotSlash(q)
    ensures Resolve(p) == Resolve(q) <==> p == q
  {
    if StartsDotSlash(p) && Resolve(p) == Resolve(q) {
      assert p == p[..2] + p[2..];
      assert q == q[..2] + q[2..];
      assert p[..2] == q[..2];
    }
  }

  /** Appending to a path of two or more characters appends to the file name it resolves to. */
  lemma ResolveAppend(p: string, x: string)
    requires 2 <= |p|
    ensures Resolve(p + x) == Resolve(p) + x
    ensures StartsDotSlash(p + x) == StartsDotSlash(p)
  {
    if StartsDotSlash(p) {
      assert (p + x)[2..] == p[2..] + x;
    }
  }
}
