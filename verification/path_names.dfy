/**
 POSIX path-name handling used by the environment helpers: the parts of
 `os.path.split`, `os.path.splitext` and `os.path.join` (POSIX flavour, where
 the separator is '/' and the extension separator is '.') that the helpers
 rely on, and `get_modulename`, which strips directory and extension from a
 script path.
 */
module PathNames {

  /** The POSIX path separator. */
  const Sep: char := '/'

  /** The extension separator. */
  const ExtSep: char := '.'

  /** Result of splitting a path into directory part and last component. */
  datatype HeadTail = HeadTail(head: string, tail: string)

  /** Result of splitting a path into stem and extension. */
  datatype RootExt = RootExt(root: string, ext: string)

  /** True when every character of `s` is the separator (vacuously for ""). */
  predicate AllSeps(s: string)
  {
    forall j :: 0 <= j < |s| ==> s[j] == Sep
  }

  /** Index of the last occurrence of `c` in `s`, or -1 when there is none
      (Python's `str.rfind` on one character). */
  function RFind(s: string, c: char): (i: int)
    ensures -1 <= i < |s|
    ensures i >= 0 ==> s[i] == c
    ensures i == -1 <==> c !in s
    ensures forall j :: i < j < |s| ==> s[j] != c
  {
    if |s| == 0 then -1
    else if s[|s| - 1] == c then |s| - 1
    else RFind(s[..|s| - 1], c)
  }

  /** `s` with all trailing separators removed (`str.rstrip('/')`). */
  function RStripSeps(s: string): (r: string)
    ensures r <= s
    ensures AllSeps(s[|r|..])
    ensures r == [] || r[|r| - 1] != Sep
  {
    if |s| == 0 || s[|s| - 1] != Sep then s
    else RStripSeps(s[..|s| - 1])
  }

  /** `os.path.split` on POSIX: the tail is everything after the last '/',
      the head everything up to it, with trailing slashes removed unless the
      head consists of slashes only. */
  function Split(p: string): (r: HeadTail)
    ensures Sep !in r.tail
    ensures |r.tail| <= |p| && p[|p| - |r.tail|..] == r.tail
    ensures |r.tail| == |p| || p[|p| - |r.tail| - 1] == Sep
    ensures var raw := p[..|p| - |r.tail|];
            if AllSeps(raw) then r.head == raw
            else r.head <= raw && r.head != [] && r.head[|r.head| - 1] != Sep && AllSeps(raw[|r.head|..])
  {
    var i := RFind(p, Sep) + 1;
    var head := p[..i];
    if head != [] && !AllSeps(head) then HeadTail(RStripSeps(head), p[i..])
    else HeadTail(head, p[i..])
  }

  /** The last path component, as `os.path.split(p)[1]`. */
  function Basename(p: string): string
  {
    Split(p).tail
  }

  /** `os.path.splitext` on POSIX. The extension starts at the last '.' of
      the last path component, provided some character other than '.'
      precedes that dot within the component; otherwise the extension is
      empty, so leading dots belong to the stem (".bashrc" has no
      extension). */
  function SplitExt(p: string): (r: RootExt)
    ensures r.root + r.ext == p
    ensures r.ext == [] || (r.ext[0] == ExtSep && ExtSep !in r.ext[1..] && Sep !in r.ext)
  {
    var sepIndex := RFind(p, Sep);
    var dotIndex := RFind(p, ExtSep);
    if dotIndex > sepIndex && exists j :: sepIndex + 1 <= j < dotIndex && p[j] != ExtSep then
      RootExt(p[..dotIndex], p[dotIndex..])
    else
      RootExt(p, [])
  }

  /** Reference definition of "p has an extension starting at index k": k
      holds a '.', nothing after it is a '.' or a '/', and within the same
      path component some character before k is not a '.'. */
  ghost predicate ExtensionAt(p: string, k: int)
  {
    && 0 <= k < |p|
    && p[k] == ExtSep
    && (forall t :: k < t < |p| ==> p[t] != ExtSep && p[t] != Sep)
    && exists j :: 0 <= j < k && p[j] != ExtSep && forall t :: j <= t < k ==> p[t] != Sep
  }

  /** SplitExt finds an extension exactly when the reference definition says
      there is one, and then it is the suffix starting at that dot. */
  lemma SplitExtCharacterized(p: string)
    ensures SplitExt(p).ext != [] <==> exists k :: ExtensionAt(p, k)
    ensures forall k :: ExtensionAt(p, k) ==> SplitExt(p).ext == p[k..]
  {
    var sepIndex := RFind(p, Sep);
    var dotIndex := RFind(p, ExtSep);
    forall k | ExtensionAt(p, k)
      ensures SplitExt(p).ext == p[k..]
    {
      assert dotIndex == k;
      var j :| 0 <= j < k && p[j] != ExtSep && forall t :: j <= t < k ==> p[t] != Sep;
      assert sepIndex < j;
    }
    if SplitExt(p).ext != [] {
      var j :| sepIndex + 1 <= j < dotIndex && p[j] != ExtSep;
      assert ExtensionAt(p, dotIndex);
    }
  }

  /** `os.path.join(a, b)` on POSIX: an absolute `b` replaces `a`; otherwise
      `b` is appended, with a '/' in between unless `a` is empty or already
      ends with one. */
  function Join(a: string, b: string): (r: string)
    ensures b != [] && b[0] == Sep ==> r == b
    ensures (b == [] || b[0] != Sep) && (a == [] || a[|a| - 1] == Sep) ==> r == a + b
    ensures (b == [] || b[0] != Sep) && a != [] && a[|a| - 1] != Sep ==> r == a + [Sep] + b
  {
    if b != [] && b[0] == Sep then b
    else if a == [] || a[|a| - 1] == Sep then a + b
    else a + [Sep] + b
  }

  /** The directory part `os.path.split` reports for `a` followed by a
      separator: `a` itself when it is empty or all slashes, otherwise `a`
      without its trailing slashes. */
  function HeadOf(a: string): string
  {
    if AllSeps(a) then a else RStripSeps(a)
  }

  /** RFind stops at a `c` that only other characters follow. */
  lemma RFindAfterLast(x: string, y: string, c: char)
    requires x != [] && x[|x| - 1] == c && c !in y
    ensures RFind(x + y, c) == |x| - 1
  {
    var s := x + y;
    assert s[|x| - 1] == c;
    forall t | |x| <= t < |s| ensures s[t] != c {
      assert s[t] == y[t - |x|];
    }
  }

  /** Splitting a path whose last separator ends `pre` cuts it right there. */
  lemma SplitAfterLastSep(pre: string, b: string)
    requires pre != [] && pre[|pre| - 1] == Sep && Sep !in b
    ensures Split(pre + b) == HeadTail(HeadOf(pre), b)
  {
    RFindAfterLast(pre, b, Sep);
    assert (pre + b)[..|pre|] == pre;
    assert (pre + b)[|pre|..] == b;
  }

  /** Adding the separator Join inserts does not change the reported head. */
  lemma HeadOfAppendSep(a: string)
    requires a != [] && a[|a| - 1] != Sep
    ensures HeadOf(a + [Sep]) == HeadOf(a) == a
  {
    var pre := a + [Sep];
    assert pre[..|pre| - 1] == a;
    assert pre[|a| - 1] == a[|a| - 1];
    assert RStripSeps(pre) == RStripSeps(a);
  }

  /** Splitting a joined path gives back the component that was joined, and
      the directory with its trailing slashes normalised. */
  lemma SplitJoin(a: string, b: string)
    requires Sep !in b
    ensures Split(Join(a, b)) == HeadTail(HeadOf(a), b)
  {
    assert b == [] || b[0] != Sep;
    if a == [] {
      assert Join(a, b) == b;
    } else if a[|a| - 1] == Sep {
      assert Join(a, b) == a + b;
      SplitAfterLastSep(a, b);
    } else {
      assert Join(a, b) == (a + [Sep]) + b;
      SplitAfterLastSep(a + [Sep], b);
      HeadOfAppendSep(a);
    }
  }

  /** `get_modulename`: the last path component of the script name without
      its extension. */
  function ModuleName(scriptname: string): (m: string)
    ensures Sep !in m
    ensures m <= Basename(scriptname)
    ensures var rest := Basename(scriptname)[|m|..];
            rest == [] || (rest[0] == ExtSep && ExtSep !in rest[1..])
    ensures Basename(scriptname) == m + SplitExt(Basename(scriptname)).ext
  {
    var base := Split(scriptname).tail;
    var parts := SplitExt(base);
    assert base[..|parts.root|] == parts.root;
    SplitExt(base).root
  }

  /** The module name of a script joined onto a directory depends only on
      the script's file name. */
  lemma ModuleNameOfJoin(dir: string, file: string)
    requires Sep !in file
    ensures ModuleName(Join(dir, file)) == SplitExt(file).root
  {
    SplitJoin(dir, file);
  }

  /** A worked case of `os.path.splitext`: the extension is cut at the dot. */
  lemma SplitExtExample()
    ensures SplitExt("my_env.py") == RootExt("my_env", ".py")
  {
    var file := "my_env.py";
    assert RFind(file, Sep) == -1;
    assert RFind(file, ExtSep) == 6;
    assert file[0] != ExtSep;
    assert file[..6] == "my_env";
  }

  /** A worked case of `os.path.splitext`: a leading dot is part of the stem. */
  lemma SplitExtDotfileExample()
    ensures SplitExt(".bashrc") == RootExt(".bashrc", "")
  {
    var file := ".bashrc";
    assert RFind(file, Sep) == -1;
    assert RFind(file, ExtSep) == 0;
  }

  /** A worked case of `get_modulename`: directory and extension are removed. */
  lemma ModuleNameExample()
    ensures ModuleName("lib/my_env.py") == "my_env"
  {
    assert Join("lib", "my_env.py") == "lib/my_env.py";
    ModuleNameOfJoin("lib", "my_env.py");
    SplitExtExample();
  }

  /** A worked case of `get_modulename`: a hidden file keeps its name. */
  lemma ModuleNameDotfileExample()
    ensures ModuleName("home/.bashrc") == ".bashrc"
  {
    assert Join("home", ".bashrc") == "home/.bashrc";
    ModuleNameOfJoin("home", ".bashrc");
    SplitExtDotfileExample();
  }
}
