/**
 * The POSIX path helpers the batch driver uses: `os.path.basename`,
 * `os.path.splitext` and two-argument `os.path.join`.
 */
module Paths {

  const SEP: char := '/'
  const EXTSEP: char := '.'

  /** `s.rfind(c)`: the last index holding `c`, or -1. */
  function RFind(s: string, c: char): (r: int)
    ensures -1 <= r < |s|
    ensures r >= 0 ==> s[r] == c
    ensures forall j :: r < j < |s| ==> s[j] != c
  {
    if s == [] then -1
    else if s[|s| - 1] == c then |s| - 1
    else RFind(s[..|s| - 1], c)
  }

  /** `os.path.basename(p)`: everything after the last separator. */
  function Basename(p: string): (r: string)
    ensures SEP !in r
    ensures |r| <= |p| && r == p[|p| - |r|..]
    ensures |r| < |p| ==> p[|p| - |r| - 1] == SEP
  {
    p[RFind(p, SEP) + 1..]
  }

  /** The final component has a non-dot character before index `dot`. */
  predicate HasStemBefore(p: string, start: nat, dot: nat)
    requires start <= dot <= |p|
  {
    exists k :: start <= k < dot && p[k] != EXTSEP
  }

  /**
   * `os.path.splitext(p)`: the extension is the part from the last dot on,
   * when that dot is in the final component and is not one of its leading
   * dots; otherwise the extension is empty.
   */
  function SplitExt(p: string): (r: (string, string))
    ensures r.0 + r.1 == p
    ensures r.1 == "" || (r.1[0] == EXTSEP && SEP !in r.1 && EXTSEP !in r.1[1..])
  {
    var sepIndex := RFind(p, SEP);
    var dotIndex := RFind(p, EXTSEP);
    if dotIndex > sepIndex && HasStemBefore(p, sepIndex + 1, dotIndex) then
      assert p[..dotIndex] + p[dotIndex..] == p;
      (p[..dotIndex], p[dotIndex..])
    else
      (p, "")
  }

  /**
   * The extension is non-empty exactly when the last dot lies in the final
   * component after a non-dot character of it, and then it starts at that dot.
   */
  lemma SplitExtAtLastDot(p: string)
    ensures var (root, ext) := SplitExt(p);
            (ext != "" <==> RFind(p, EXTSEP) > RFind(p, SEP)
                            && HasStemBefore(p, RFind(p, SEP) + 1, RFind(p, EXTSEP)))
            && (ext != "" ==> |root| == RFind(p, EXTSEP))
  {
  }

  /**
   * A directory part `dir` (empty or ending in a separator), a name `stem`
   * with no separator and some non-dot character, and an extension `ext`
   * (a dot followed by neither dot nor separator) split back into
   * `dir + stem` and `ext`.
   */
  lemma SplitExtOfParts(dir: string, stem: string, ext: string)
    requires dir == [] || dir[|dir| - 1] == SEP
    requires SEP !in stem && exists k :: 0 <= k < |stem| && stem[k] != EXTSEP
    requires |ext| >= 1 && ext[0] == EXTSEP && SEP !in ext[1..] && EXTSEP !in ext[1..]
    ensures SplitExt(dir + stem + ext) == (dir + stem, ext)
  {
    var p := dir + stem + ext;
    var d, e := |dir|, |dir| + |stem|;
    assert p[e] == EXTSEP;
    forall j | d <= j < |p|
      ensures p[j] != SEP
    {
      if j < e {
        assert p[j] == stem[j - d];
      } else if j > e {
        assert p[j] == ext[1..][j - e - 1];
      }
    }
    forall j | e < j < |p|
      ensures p[j] != EXTSEP
    {
      assert p[j] == ext[1..][j - e - 1];
    }
    var sepIndex := RFind(p, SEP);
    if d > 0 {
      assert p[d - 1] == SEP;
    }
    assert sepIndex == d - 1;
    assert RFind(p, EXTSEP) == e;
    var k :| 0 <= k < |stem| && stem[k] != EXTSEP;
    assert p[d + k] == stem[k];
    assert HasStemBefore(p, d, e);
    assert p[..e] == dir + stem;
    assert p[e..] == ext;
  }

  /** The extension of a path, `os.path.splitext(p)[1]`. */
  function Ext(p: string): (r: string)
  {
    SplitExt(p).1
  }

  /** The extension is a suffix of the path: empty, or one dot followed by neither dot nor separator. */
  lemma ExtIsSuffix(p: string)
    ensures var e := Ext(p);
            |e| <= |p| && p[|p| - |e|..] == e
            && (e == "" || (e[0] == EXTSEP && SEP !in e && EXTSEP !in e[1..]))
  {
    var (root, ext) := SplitExt(p);
    assert p[|p| - |ext|..] == (root + ext)[|root|..] == ext;
  }

  /** The base name without its extension, `splitext(basename(p))[0]`. */
  function Stem(p: string): (r: string)
    ensures SEP !in r
  {
    SplitExt(Basename(p)).0
  }

  /** Two-argument `os.path.join(a, b)`. */
  function Join(a: string, b: string): (r: string)
  {
    if |b| > 0 && b[0] == SEP then b
    else if a == "" || a[|a| - 1] == SEP then a + b
    else a + [SEP] + b
  }

  /**
   * The joined path ends with `b`; an absolute `b` replaces `a`; otherwise
   * `a` comes first, then `b` directly when `a` is empty or already ends in a
   * separator, and one separator between them when it does not.
   */
  lemma JoinShape(a: string, b: string)
    ensures var r := Join(a, b);
            |r| >= |b| && r[|r| - |b|..] == b
            && (|b| > 0 && b[0] == SEP ==> r == b)
            && (!(|b| > 0 && b[0] == SEP) ==> a <= r && |a| + |b| <= |r| <= |a| + 1 + |b|)
            && (!(|b| > 0 && b[0] == SEP) && a != "" ==> r[|r| - |b| - 1] == SEP)
            && (!(|b| > 0 && b[0] == SEP) && (a == "" || a[|a| - 1] == SEP) ==> r == a + b)
  {
  }

  /** A name without separators joined to a directory is that path's base name. */
  lemma BasenameOfJoin(dir: string, name: string)
    requires SEP !in name
    ensures Basename(Join(dir, name)) == name
  {
    var j := Join(dir, name);
    var k := RFind(j, SEP);
    assert j == (if dir == "" || dir[|dir| - 1] == SEP then dir else dir + [SEP]) + name;
    var d := |j| - |name|;
    assert j[d..] == name;
    if d > 0 {
      assert j[d - 1] == SEP;
      assert forall i :: d <= i < |j| ==> j[i] == name[i - d];
      assert k == d - 1;
    } else {
      assert k == -1;
    }
  }

  /** Joining onto a directory keeps the directory as a prefix. */
  lemma JoinExtends(dir: string, name: string)
    requires |name| == 0 || name[0] != SEP
    ensures dir <= Join(dir, name)
  {
  }

  /** For a fixed directory, joining is one-to-one on names without separators. */
  lemma JoinInjective(dir: string, n1: string, n2: string)
    requires SEP !in n1 && SEP !in n2
    requires Join(dir, n1) == Join(dir, n2)
    ensures n1 == n2
  {
    BasenameOfJoin(dir, n1);
    BasenameOfJoin(dir, n2);
  }
}
