/**
 * The parts of Node's POSIX `path` module the filters and the MIME lookup
 * rely on: `basename`, `extname`, and ASCII lower-casing.
 */
module Paths {

  /** `p` without its trailing `/` characters. */
  function TrimTrailingSlashes(p: string): (q: string)
    ensures |q| <= |p| && q == p[..|q|]
    ensures forall j | |q| <= j < |p| :: p[j] == '/'
    ensures q == [] || q[|q| - 1] != '/'
    decreases |p|
  {
    if p != [] && p[|p| - 1] == '/' then TrimTrailingSlashes(p[..|p| - 1]) else p
  }

  /** The last position of `c` in `s`, or -1. */
  function LastIndexOf(s: string, c: char): (k: int)
    ensures -1 <= k < |s|
    ensures k >= 0 ==> s[k] == c
    ensures forall j | k < j < |s| :: s[j] != c
    decreases |s|
  {
    if s == [] then -1
    else if s[|s| - 1] == c then |s| - 1
    else LastIndexOf(s[..|s| - 1], c)
  }

  /** The position `LastIndexOf` gives is pinned down by its contract. */
  lemma LastIndexOfIs(s: string, c: char, k: int)
    requires -1 <= k < |s| && (k >= 0 ==> s[k] == c)
    requires forall j | k < j < |s| :: s[j] != c
    ensures LastIndexOf(s, c) == k
  {
  }

  /** `path.basename(p)`: the last `/`-separated part, ignoring trailing slashes. */
  function Basename(p: string): (r: string)
    ensures forall j | 0 <= j < |r| :: r[j] != '/'
    ensures |r| <= |TrimTrailingSlashes(p)|
    ensures var q := TrimTrailingSlashes(p);
            && q[|q| - |r|..] == r
            && (|r| < |q| ==> q[|q| - |r| - 1] == '/')
  {
    var q := TrimTrailingSlashes(p);
    var k := LastIndexOf(q, '/');
    assert q[|q| - |q[k + 1..]|..] == q[k + 1..];
    q[k + 1..]
  }

  /** A path with no `/` in it. */
  predicate NoSlash(u: string)
  {
    forall j | 0 <= j < |u| :: u[j] != '/'
  }

  /** Joining two paths without `/` gives one without `/`. */
  lemma NoSlashConcat(a: string, b: string)
    requires NoSlash(a) && NoSlash(b)
    ensures NoSlash(a + b)
  {
    forall j | 0 <= j < |a + b|
      ensures (a + b)[j] != '/'
    {
      if j >= |a| { assert (a + b)[j] == b[j - |a|]; }
    }
  }

  /** A path without `/` is its own basename. */
  lemma BasenameOfPlain(u: string)
    requires NoSlash(u)
    ensures Basename(u) == u
  {
    LastIndexOfIs(u, '/', -1);
    assert u[0..] == u;
  }

  /** `k` is the position of the last `.` of `b`. */
  predicate LastDotAt(b: string, k: int)
  {
    0 <= k < |b| && b[k] == '.' && forall j | k < j < |b| :: b[j] != '.'
  }

  /** The last `.` is the one `LastIndexOf` finds. */
  lemma LastDotIsLastIndex(b: string)
    ensures forall k | LastDotAt(b, k) :: k == LastIndexOf(b, '.')
  {
    forall k | LastDotAt(b, k)
      ensures k == LastIndexOf(b, '.')
    {
      LastIndexOfIs(b, '.', k);
    }
  }

  /**
   * `path.extname(p)`: the basename from its last `.`, or empty when it has
   * none, when that `.` starts the basename, and for `..`.
   */
  function Extname(p: string): (r: string)
    ensures r == [] || (r[0] == '.' && forall j | 1 <= j < |r| :: r[j] != '.' && r[j] != '/')
    ensures r != [] ==> |r| < |Basename(p)| && Basename(p)[|Basename(p)| - |r|..] == r
    ensures forall k | LastDotAt(Basename(p), k) ::
              r == (if k == 0 || Basename(p) == ".." then "" else Basename(p)[k..])
    ensures (forall k | 0 <= k < |Basename(p)| :: Basename(p)[k] != '.') ==> r == ""
  {
    var b := Basename(p);
    var k := LastIndexOf(b, '.');
    LastDotIsLastIndex(b);
    if k <= 0 || b == ".." then ""
    else
      assert b[|b| - |b[k..]|..] == b[k..];
      b[k..]
  }

  /** `toLowerCase` on one character, for the ASCII letters. */
  function LowerChar(c: char): char
  {
    if 'A' <= c <= 'Z' then (c as int + 32) as char else c
  }

  /** `s.toLowerCase()`, for the ASCII letters. */
  function Lower(s: string): (r: string)
    ensures |r| == |s|
    ensures forall j | 0 <= j < |s| :: r[j] == LowerChar(s[j])
  {
    seq(|s|, j requires 0 <= j < |s| => LowerChar(s[j]))
  }

  /** A string without upper-case ASCII letters is its own lower-casing. */
  lemma LowerOfLower(s: string)
    requires forall j | 0 <= j < |s| :: !('A' <= s[j] <= 'Z')
    ensures Lower(s) == s
  {
  }

  /** `basename` of a file path, of a directory path with a trailing slash, and of the root. */
  lemma BasenameExamples()
    ensures Basename("/dir/file.png") == "file.png"
    ensures Basename("/dir/sub/") == "sub"
    ensures Basename("/") == ""
  {
    LastIndexOfIs("/dir/file.png", '/', 4);
    assert "/dir/file.png"[5..] == "file.png";
    assert TrimTrailingSlashes("/dir/sub/") == "/dir/sub";
    LastIndexOfIs("/dir/sub", '/', 4);
    assert "/dir/sub"[5..] == "sub";
    assert TrimTrailingSlashes("/") == "";
  }

  /** `extname` keeps the last dot onward. */
  lemma ExtnameLastDot()
    ensures Extname("notes.tar.gz") == ".gz"
  {
    LastIndexOfIs("notes.tar.gz", '/', -1);
    assert "notes.tar.gz"[0..] == "notes.tar.gz";
    LastIndexOfIs("notes.tar.gz", '.', 9);
    assert "notes.tar.gz"[9..] == ".gz";
  }

  /** A leading dot does not start an extension. */
  lemma ExtnameDotFile()
    ensures Extname(".bashrc") == ""
  {
    LastIndexOfIs(".bashrc", '/', -1);
    assert ".bashrc"[0..] == ".bashrc";
    LastIndexOfIs(".bashrc", '.', 0);
  }

  /** `..` has no extension, and a trailing dot is an extension of its own. */
  lemma ExtnameDots()
    ensures Extname("..") == ""
    ensures Extname("file.") == "."
  {
    LastIndexOfIs("..", '/', -1);
    assert ".."[0..] == "..";
    LastIndexOfIs("file.", '/', -1);
    assert "file."[0..] == "file.";
    LastIndexOfIs("file.", '.', 4);
    assert "file."[4..] == ".";
  }
}
