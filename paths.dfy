/** The POSIX `os.path` helpers the pages use on file and archive entry names. */
module Paths {
  import opened Text

  /** `os.path.basename(p)`: the text after the last `/`. */
  function Basename(p: string): (r: string)
    ensures '/' !in r && EndsWith(p, r)
    ensures |r| < |p| ==> p[|p| - |r| - 1] == '/'
  {
    if p == [] || p[|p| - 1] == '/' then []
    else
      var q := Basename(p[..|p| - 1]);
      SuffixSnoc(p, |q|);
      q + [p[|p| - 1]]
  }

  /** The last `n + 1` characters of `p`: the last `n` before its final character, then that character. */
  lemma SuffixSnoc(p: string, n: nat)
    requires n < |p|
    ensures p[|p| - n - 1..] == p[..|p| - 1][|p| - 1 - n..] + [p[|p| - 1]]
  {
  }

  /** `p.rfind(c)`: the index of the last `c`, or -1 when there is none. */
  function RFind(p: string, c: char): (k: int)
    ensures -1 <= k < |p|
    ensures k >= 0 ==> p[k] == c
    ensures forall j :: k < j < |p| ==> p[j] != c
  {
    if p == [] then -1
    else if p[|p| - 1] == c then |p| - 1
    else RFind(p[..|p| - 1], c)
  }

  /**
   * The last path component of `p` holds a `.` with some character other
   * than a dot before it in that component.
   */
  predicate HasExtension(p: string) {
    exists i, k :: RFind(p, '/') < k < i < |p| && p[k] != '.' && p[i] == '.'
  }

  /**
   * `os.path.splitext(p)`: the extension starts at the last `.` of the last
   * path component, unless every character before it in that component is a
   * dot (so `.bashrc` has no extension).
   */
  function SplitExt(p: string): (parts: (string, string))
    ensures parts.0 + parts.1 == p
    ensures parts.1 == [] || (parts.1[0] == '.' && '.' !in parts.1[1..] && '/' !in parts.1)
    ensures parts.1 != [] ==> exists k :: RFind(p, '/') < k < |parts.0| && p[k] != '.'
    ensures parts.1 != [] <==> HasExtension(p)
  {
    var sep := RFind(p, '/');
    var dot := RFind(p, '.');
    if dot > sep && exists k :: sep < k < dot && p[k] != '.' then
      assert forall j :: 0 <= j < |p[dot..]| ==> p[dot..][j] == p[dot + j];
      var k :| sep < k < dot && p[k] != '.';
      assert HasExtension(p) by {
        assert sep < k < dot < |p| && p[k] != '.' && p[dot] == '.';
      }
      (p[..dot], p[dot..])
    else
      HasExtensionAtLastDot(p);
      (p, [])
  }

  /** Any suffix extension reaches the last dot, so the last dot has a non-dot before it in the component. */
  lemma HasExtensionAtLastDot(p: string)
    ensures HasExtension(p) ==>
      RFind(p, '.') > RFind(p, '/') && exists k :: RFind(p, '/') < k < RFind(p, '.') && p[k] != '.'
  {
    if HasExtension(p) {
      var i, k :| RFind(p, '/') < k < i < |p| && p[k] != '.' && p[i] == '.';
      assert i <= RFind(p, '.');
    }
  }

  /** `RFind` finds a `c` with no `c` after it. */
  lemma RFindAt(p: string, c: char, k: nat)
    requires k < |p| && p[k] == c
    requires forall j :: k < j < |p| ==> p[j] != c
    ensures RFind(p, c) == k
  {
  }

  /** The file name without its extension: `os.path.splitext(p)[0]`. */
  function Stem(p: string): (r: string)
    ensures StartsWith(p, r)
    ensures r + Extension(p) == p
    ensures r == p <==> !HasExtension(p)
  {
    assert p[..|SplitExt(p).0|] == SplitExt(p).0;
    SplitExt(p).0
  }

  /**
   * The extension with its dot, or empty: `os.path.splitext(p)[1]`. It is
   * non-empty exactly when the last component has a suffix extension, and
   * then it runs from the last dot to the end.
   */
  function Extension(p: string): (r: string)
    ensures EndsWith(p, r)
    ensures r != [] <==> HasExtension(p)
    ensures r != [] ==> r[0] == '.' && '.' !in r[1..] && '/' !in r
  {
    assert p[|p| - |SplitExt(p).1|..] == SplitExt(p).1;
    SplitExt(p).1
  }

  /** A name whose last component is `stem.ext` splits at that dot. */
  lemma SplitExtExample()
    ensures SplitExt("docs/report.docx") == ("docs/report", ".docx")
  {
    var p := "docs/report.docx";
    RFindAt(p, '/', 4);
    RFindAt(p, '.', 11);
    assert p[5] != '.';
    assert p[..11] == "docs/report" && p[11..] == ".docx";
  }

  /** A last component that is only dots before its last dot has no extension. */
  lemma NoExtensionExample()
    ensures SplitExt("a/..b") == ("a/..b", "")
  {
    var q := "a/..b";
    RFindAt(q, '/', 1);
    RFindAt(q, '.', 3);
  }
}
