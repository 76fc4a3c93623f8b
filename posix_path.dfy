/**
 * The parts of Python's `posixpath` (and `str.rfind`) that the container
 * manager relies on: `basename`, `splitext` and two-argument `join`.
 */
module PosixPath {

  /** `s.rfind(c)`: the index of the last occurrence of `c` in `s`, or -1. */
  function RFind(s: string, c: char): (i: int)
    ensures -1 <= i < |s|
    ensures 0 <= i ==> s[i] == c
    ensures forall j :: i < j < |s| ==> s[j] != c
  {
    if |s| == 0 then -1
    else if s[|s| - 1] == c then |s| - 1
    else RFind(s[..|s| - 1], c)
  }

  /** `os.path.basename(p)`: everything after the last '/'. */
  function Basename(p: string): (b: string)
    ensures '/' !in b
    ensures |b| <= |p| && b == p[|p| - |b|..]
    ensures |b| < |p| ==> p[|p| - |b| - 1] == '/'
  {
    p[RFind(p, '/') + 1..]
  }

  /** A path made of a directory part (empty or ending in '/') and a name without '/' has that name as basename. */
  lemma BasenameOfDirAndName(dir: string, name: string)
    requires '/' !in name
    requires dir == [] || dir[|dir| - 1] == '/'
    ensures Basename(dir + name) == name
  {
    var p := dir + name;
    var i := RFind(p, '/');
    forall j | |dir| <= j < |p| ensures p[j] != '/' {
      assert p[j] == name[j - |dir|];
    }
    if dir != [] {
      assert p[|dir| - 1] == '/';
    }
    assert i == |dir| - 1;
    assert p[i + 1..] == name;
  }

  lemma BasenameIdempotent(p: string)
    ensures Basename(Basename(p)) == Basename(p)
  {
    BasenameOfDirAndName([], Basename(p));
  }

  /** True when every character of `s` is a dot. */
  predicate AllDots(s: string)
  {
    forall i :: 0 <= i < |s| ==> s[i] == '.'
  }

  /**
   * Where `os.path.splitext(p)` puts the extension: at the last '.' of the
   * final path component, unless only dots precede that '.' in the
   * component; otherwise at the end (an empty extension).
   */
  function ExtensionStart(p: string): (k: nat)
    ensures k <= |p|
  {
    var sepIndex := RFind(p, '/');
    var dotIndex := RFind(p, '.');
    if dotIndex > sepIndex && !AllDots(p[sepIndex + 1..dotIndex]) then dotIndex else |p|
  }

  /** `os.path.splitext(p)`: a root and an extension that concatenate back to the path. */
  function SplitExt(p: string): (parts: (string, string))
    ensures parts.0 + parts.1 == p
  {
    var k := ExtensionStart(p);
    (p[..k], p[k..])
  }

  /** A non-empty extension is one '.' followed by text with neither '.' nor '/'. */
  lemma ExtensionShape(p: string)
    ensures var ext := SplitExt(p).1;
      ext == [] || (ext[0] == '.' && '/' !in ext && '.' !in ext[1..])
  {
    var sepIndex := RFind(p, '/');
    var dotIndex := RFind(p, '.');
    var ext := SplitExt(p).1;
    if ext != [] {
      assert ext == p[dotIndex..];
      forall k | 0 <= k < |ext| ensures ext[k] != '/' && (k > 0 ==> ext[k] != '.') {
        assert ext[k] == p[dotIndex + k];
      }
      assert forall k :: 0 <= k < |ext[1..]| ==> ext[1..][k] == ext[k + 1];
    }
  }

  /** `os.path.splitext(p)[1] != ''`. */
  predicate HasExtension(p: string)
  {
    SplitExt(p).1 != []
  }

  /** A '.' in `b` with a character other than '.' somewhere before it. */
  ghost predicate DotAfterNonDot(b: string)
  {
    exists i, j :: 0 <= j < i < |b| && b[j] != '.' && b[i] == '.'
  }

  lemma HasExtensionOnlyIf(p: string)
    requires HasExtension(p)
    ensures DotAfterNonDot(Basename(p))
  {
    var s := RFind(p, '/');
    var d := RFind(p, '.');
    var b := Basename(p);
    assert b == p[s + 1..];
    assert d > s && !AllDots(p[s + 1..d]);
    var k :| 0 <= k < |p[s + 1..d]| && p[s + 1..d][k] != '.';
    assert b[k] == p[s + 1 + k];
    assert b[d - s - 1] == p[d];
  }

  /** A dot at `i` in the basename, after a non-dot at `j`, gives a non-empty extension. */
  lemma HasExtensionAt(p: string, i: int, j: int)
    requires 0 <= j < i < |Basename(p)| && Basename(p)[j] != '.' && Basename(p)[i] == '.'
    ensures HasExtension(p)
  {
    var s := RFind(p, '/');
    var d := RFind(p, '.');
    var b := Basename(p);
    assert b == p[s + 1..];
    assert p[s + 1 + i] == b[i];
    assert s + 1 + i <= d;
    assert p[s + 1..d][j] == p[s + 1 + j];
  }

  lemma HasExtensionIf(p: string)
    requires DotAfterNonDot(Basename(p))
    ensures HasExtension(p)
  {
    var b := Basename(p);
    var i, j :| 0 <= j < i < |b| && b[j] != '.' && b[i] == '.';
    HasExtensionAt(p, i, j);
  }

  /** A path has an extension exactly when its basename has a dot preceded by a non-dot. */
  lemma HasExtensionIff(p: string)
    ensures HasExtension(p) <==> DotAfterNonDot(Basename(p))
  {
    if HasExtension(p) {
      HasExtensionOnlyIf(p);
    }
    if DotAfterNonDot(Basename(p)) {
      HasExtensionIf(p);
    }
  }

  /** The extension test reads only the final path component. */
  lemma HasExtensionOfBasename(p: string)
    ensures HasExtension(Basename(p)) == HasExtension(p)
  {
    HasExtensionIff(p);
    HasExtensionIff(Basename(p));
    BasenameIdempotent(p);
  }

  /** A name ending in '.' after a non-dot ("a.") has an extension: `splitext("a.")` is `("a", ".")`. */
  lemma TrailingDotIsExtension(name: string)
    requires name != [] && name[0] != '.' && '/' !in name
    ensures HasExtension(name + ".")
  {
    var p := name + ".";
    assert Basename(p) == p by {
      assert forall k :: 0 <= k < |name| ==> p[k] == name[k];
      BasenameOfDirAndName([], p);
      assert [] + p == p;
    }
    HasExtensionAt(p, |name|, 0);
  }

  /** A name whose only dots are leading ones has no dot preceded by a non-dot. */
  lemma LeadingDotsOnly(b: string, n: nat)
    requires n <= |b| && AllDots(b[..n])
    requires '.' !in b[n..]
    ensures !DotAfterNonDot(b)
  {
  }

  /** A basename whose only dots are leading ones (".json", "..a", "noext") gives no extension. */
  lemma LeadingDotsAreNotExtension(p: string, n: nat)
    requires n <= |Basename(p)| && AllDots(Basename(p)[..n])
    requires '.' !in Basename(p)[n..]
    ensures !HasExtension(p)
  {
    LeadingDotsOnly(Basename(p), n);
    HasExtensionIff(p);
  }

  /** A hidden file such as ".json" (one leading dot, then a name without dots) has no extension. */
  lemma DotfileHasNoExtension(name: string)
    requires '.' !in name && '/' !in name
    ensures !HasExtension("." + name)
  {
    var p := "." + name;
    assert Basename(p) == p by {
      assert forall k :: 1 <= k < |p| ==> p[k] == name[k - 1];
      BasenameOfDirAndName([], p);
      assert [] + p == p;
    }
    assert AllDots(Basename(p)[..1]) && '.' !in Basename(p)[1..] by {
      assert p[1..] == name;
    }
    LeadingDotsAreNotExtension(p, 1);
  }

  /** A dot in a directory name ("dir.d/file") does not give the file an extension. */
  lemma DirectoryDotIsIgnored(dir: string, name: string)
    requires dir == [] || dir[|dir| - 1] == '/'
    requires '.' !in name && '/' !in name
    ensures !HasExtension(dir + name)
  {
    BasenameOfDirAndName(dir, name);
    assert name[0..] == name;
    LeadingDotsAreNotExtension(dir + name, 0);
  }

  /** `os.path.join(a, b)` for two components. */
  function Join(a: string, b: string): string
  {
    if |b| > 0 && b[0] == '/' then b
    else if |a| == 0 || a[|a| - 1] == '/' then a + b
    else a + "/" + b
  }

  /** Joining a directory and a name without '/' keeps the directory as a prefix and the name as basename. */
  lemma JoinKeepsDirAndName(dir: string, name: string)
    requires '/' !in name
    ensures var path := Join(dir, name);
      |dir| <= |path| && path[..|dir|] == dir && Basename(path) == name
  {
    if |dir| == 0 || dir[|dir| - 1] == '/' {
      BasenameOfDirAndName(dir, name);
    } else {
      assert dir + "/" + name == (dir + "/") + name;
      BasenameOfDirAndName(dir + "/", name);
    }
  }
}
