/**
 * The POSIX path-string rules the marshal-directory convention relies on:
 * `basename`, `dirname`, `join` and `splitext` as Python's posixpath module
 * defines them on `/`-separated strings. Nothing here touches a filesystem.
 */
module PosixPath {

  const Sep: char := '/'
  const ExtSep: char := '.'

  /** Index of the last occurrence of `c` in `s`, or -1 when there is none (`str.rfind`). */
  function RFind(s: string, c: char): (i: int)
    ensures -1 <= i < |s|
    ensures i >= 0 ==> s[i] == c
    ensures forall j :: i < j < |s| ==> s[j] != c
  {
    if |s| == 0 then -1
    else if s[|s| - 1] == c then |s| - 1
    else RFind(s[..|s| - 1], c)
  }

  /** The characterisation in RFind's contract pins its result down. */
  lemma RFindUnique(s: string, c: char, i: int)
    requires -1 <= i < |s|
    requires i >= 0 ==> s[i] == c
    requires forall j :: i < j < |s| ==> s[j] != c
    ensures RFind(s, c) == i
  {
  }

  predicate NoSlash(s: string) {
    forall k :: 0 <= k < |s| ==> s[k] != Sep
  }

  predicate AllSlashes(s: string) {
    forall k :: 0 <= k < |s| ==> s[k] == Sep
  }

  /** The shapes `dirname` can return: empty, only slashes, or not ending in a slash. */
  predicate IsDirPart(d: string) {
    d == "" || AllSlashes(d) || d[|d| - 1] != Sep
  }

  /** `posixpath.basename`: the longest slash-free suffix of `p`. */
  function BaseName(p: string): (b: string)
    ensures NoSlash(b)
    ensures |b| <= |p| && b == p[|p| - |b|..]
    ensures |b| < |p| ==> p[|p| - |b| - 1] == Sep
  {
    p[RFind(p, Sep) + 1..]
  }

  /** `str.rstrip('/')`: drops every trailing slash and nothing else. */
  function RStripSlashes(s: string): (r: string)
    ensures |r| <= |s| && r == s[..|r|]
    ensures r == "" || r[|r| - 1] != Sep
    ensures AllSlashes(s[|r|..])
  {
    if s != "" && s[|s| - 1] == Sep then
      var r := RStripSlashes(s[..|s| - 1]);
      assert s[|r|..] == s[..|s| - 1][|r|..] + [Sep];
      r
    else
      s
  }

  /**
   * `posixpath.dirname`: the text before the last slash's run of slashes, kept
   * as it is when it consists of slashes only (the root).
   */
  function DirName(p: string): (d: string)
    ensures |d| + |BaseName(p)| <= |p| && d == p[..|d|]
    ensures d == "" <==> NoSlash(p)
    ensures IsDirPart(d)
    ensures AllSlashes(p[|d|..|p| - |BaseName(p)|])
  {
    var i := RFind(p, Sep);
    var head := p[..i + 1];
    assert BaseName(p) == p[i + 1..];
    if head != "" && !AllSlashes(head) then
      var r := RStripSlashes(head);
      StripKeepsNonSlash(head);
      assert p[|r|..i + 1] == head[|r|..];
      r
    else
      assert i >= 0 ==> !NoSlash(p);
      head
  }

  /** Stripping trailing slashes from text that holds a non-slash leaves something. */
  lemma StripKeepsNonSlash(s: string)
    requires !AllSlashes(s)
    ensures RStripSlashes(s) != ""
  {
    var r := RStripSlashes(s);
    var k :| 0 <= k < |s| && s[k] != Sep;
    forall m | |r| <= m < |s|
      ensures s[m] == Sep
    {
      assert s[|r|..][m - |r|] == s[m];
    }
  }

  /** `posixpath.join(a, b)`: an absolute `b` replaces `a`; otherwise one slash separates them. */
  function Join(a: string, b: string): (r: string)
    ensures |b| <= |r| && r[|r| - |b|..] == b
    ensures (|b| == 0 || b[0] != Sep) ==> |a| <= |r| && r[..|a|] == a
    ensures (|b| == 0 || b[0] != Sep) ==>
      && |r| - |a| - |b| == (if a == "" || a[|a| - 1] == Sep then 0 else 1)
      && AllSlashes(r[|a|..|r| - |b|])
    ensures |b| > 0 && b[0] == Sep ==> r == b
  {
    if |b| > 0 && b[0] == Sep then b
    else if a == "" || a[|a| - 1] == Sep then a + b
    else a + [Sep] + b
  }

  /** Splitting a joined path gives back the directory part and the name it was built from. */
  lemma {:induction false} SplitJoin(d: string, n: string)
    requires IsDirPart(d) && NoSlash(n)
    ensures BaseName(Join(d, n)) == n
    ensures DirName(Join(d, n)) == d
  {
    var j := Join(d, n);
    if d == "" {
      assert j == n;
      RFindUnique(j, Sep, -1);
    } else if d[|d| - 1] == Sep {
      assert j == d + n;
      RFindUnique(j, Sep, |d| - 1);
      assert j[..|d|] == d;
    } else {
      assert j == d + [Sep] + n;
      RFindUnique(j, Sep, |d|);
      assert j[..|d| + 1] == d + [Sep];
      assert !AllSlashes(d + [Sep]) by {
        assert (d + [Sep])[|d| - 1] != Sep;
      }
      assert (d + [Sep])[..|d|] == d;
    }
  }

  /** The final path component contains a dot that follows some character other than a dot. */
  predicate HasExtension(p: string) {
    DotAfterNonDot(BaseName(p))
  }

  /** Some dot in `b` comes after a character that is not a dot. */
  predicate DotAfterNonDot(b: string) {
    exists i, j :: 0 <= j < i < |b| && b[j] != ExtSep && b[i] == ExtSep
  }

  /**
   * `posixpath.splitext`: the extension is the last dot of the final component
   * and everything after it, unless only dots precede that dot in the component
   * (so `.foo` and `..x` have no extension); `root + ext` is always the input.
   */
  function SplitExt(p: string): (r: (string, string))
    ensures r.0 + r.1 == p
    ensures r.1 != "" ==> r.1[0] == ExtSep
    ensures forall k :: 0 < k < |r.1| ==> r.1[k] != ExtSep && r.1[k] != Sep
  {
    var sepIndex := RFind(p, Sep);
    var dotIndex := RFind(p, ExtSep);
    if ExtensionAt(p, sepIndex, dotIndex) then
      ExtensionTail(p, sepIndex, dotIndex);
      (p[..dotIndex], p[dotIndex..])
    else
      (p, "")
  }

  /** `splitext`'s test: the last dot follows the last slash, with a non-dot between them. */
  predicate ExtensionAt(p: string, sepIndex: int, dotIndex: int)
    requires -1 <= sepIndex < |p| && -1 <= dotIndex < |p|
  {
    dotIndex > sepIndex && exists k :: sepIndex < k < dotIndex && p[k] != ExtSep
  }

  /** The text from the last dot on starts with that dot and holds no further dot and no slash. */
  lemma ExtensionTail(p: string, sepIndex: int, dotIndex: int)
    requires -1 <= sepIndex < dotIndex < |p| && p[dotIndex] == ExtSep
    requires forall j :: dotIndex < j < |p| ==> p[j] != ExtSep
    requires forall j :: sepIndex < j < |p| ==> p[j] != Sep
    ensures p[..dotIndex] + p[dotIndex..] == p
    ensures forall k :: 0 < k < |p[dotIndex..]| ==> p[dotIndex..][k] != ExtSep && p[dotIndex..][k] != Sep
  {
    var ext := p[dotIndex..];
    forall k | 0 < k < |ext|
      ensures ext[k] != ExtSep && ext[k] != Sep
    {
      assert ext[k] == p[dotIndex + k];
    }
  }

  /** The test `splitext` performs on the last slash and the last dot is exactly HasExtension. */
  lemma ExtensionCondition(p: string, sepIndex: int, dotIndex: int)
    requires sepIndex == RFind(p, Sep) && dotIndex == RFind(p, ExtSep)
    ensures HasExtension(p) <==> ExtensionAt(p, sepIndex, dotIndex)
  {
    assert BaseName(p) == p[sepIndex + 1..];
    if ExtensionAt(p, sepIndex, dotIndex) {
      ScanImpliesExtension(p, sepIndex, dotIndex);
    }
    if HasExtension(p) {
      ExtensionImpliesScan(p, sepIndex, dotIndex);
    }
  }

  /** A non-dot between the last slash and a later dot gives the final component an extension. */
  lemma ScanImpliesExtension(p: string, sepIndex: int, dotIndex: int)
    requires -1 <= sepIndex < dotIndex < |p| && p[dotIndex] == ExtSep
    requires exists k :: sepIndex < k < dotIndex && p[k] != ExtSep
    ensures DotAfterNonDot(p[sepIndex + 1..])
  {
    var b := p[sepIndex + 1..];
    var k :| sepIndex < k < dotIndex && p[k] != ExtSep;
    assert b[k - sepIndex - 1] == p[k];
    assert b[dotIndex - sepIndex - 1] == p[dotIndex];
  }

  /** A final component with an extension passes the scan from the last dot back to the last slash. */
  lemma ExtensionImpliesScan(p: string, sepIndex: int, dotIndex: int)
    requires -1 <= sepIndex < |p| && -1 <= dotIndex < |p|
    requires forall j :: dotIndex < j < |p| ==> p[j] != ExtSep
    requires DotAfterNonDot(p[sepIndex + 1..])
    ensures ExtensionAt(p, sepIndex, dotIndex)
  {
    var b := p[sepIndex + 1..];
    var i, j :| 0 <= j < i < |b| && b[j] != ExtSep && b[i] == ExtSep;
    assert p[sepIndex + 1 + i] == b[i];
    assert p[sepIndex + 1 + j] == b[j];
  }

  /** `splitext` finds an extension exactly when the final component has one. */
  lemma SplitExtFindsExtension(p: string)
    ensures SplitExt(p).1 != "" <==> HasExtension(p)
  {
    ExtensionCondition(p, RFind(p, Sep), RFind(p, ExtSep));
  }

  /** The variable name a marshalled file stands for: its name without the extension. */
  function Stem(name: string): (s: string)
    ensures |s| <= |name| && s == name[..|s|]
  {
    SplitExt(name).0
  }

  /** A name is its own stem exactly when it has no extension. */
  lemma StemKeepsNameWithoutExtension(name: string)
    ensures Stem(name) == name <==> !HasExtension(name)
  {
    SplitExtFindsExtension(name);
  }

  /**
   * Only the last extension is stripped: a name made of a root holding some
   * non-dot, a dot, and a dot-free tail loses exactly the dot and the tail.
   */
  lemma StemStripsLastExtension(root: string, tail: string)
    requires NoSlash(root) && NoSlash(tail)
    requires forall k :: 0 <= k < |tail| ==> tail[k] != ExtSep
    requires exists k :: 0 <= k < |root| && root[k] != ExtSep
    ensures Stem(root + [ExtSep] + tail) == root
  {
    var p := root + [ExtSep] + tail;
    var dotIndex := |root|;
    RFindUnique(p, Sep, -1);
    RFindUnique(p, ExtSep, dotIndex);
    var k :| 0 <= k < |root| && root[k] != ExtSep;
    assert p[k] == root[k];
    assert ExtensionAt(p, -1, dotIndex);
    assert p[..dotIndex] == root;
  }

  /** A slash-free name whose only dot is its first character has no extension. */
  lemma StemKeepsLeadingDot(name: string)
    requires NoSlash(name) && |name| > 0 && name[0] == ExtSep
    requires forall k :: 0 < k < |name| ==> name[k] != ExtSep
    ensures Stem(name) == name
  {
    RFindUnique(name, Sep, -1);
    assert BaseName(name) == name;
    StemKeepsNameWithoutExtension(name);
  }
}
