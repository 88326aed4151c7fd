/**
 * The POSIX `os.path` operations the extension relies on: `str.rfind`,
 * `basename`, `splitext` and `join`, with `/` as the only separator
 * (the source turns `\` into `/` before it splits a model name).
 */
module Paths {

  /** `s.rfind(c)`: the last index holding `c`, or -1. */
  function RFind(s: string, c: char): (r: int)
    ensures -1 <= r < |s|
    ensures r >= 0 ==> s[r] == c
    ensures forall k :: r < k < |s| ==> s[k] != c
  {
    if s == [] then -1
    else if s[|s| - 1] == c then |s| - 1
    else RFind(s[..|s| - 1], c)
  }

  /** `os.path.basename(p)`: the part after the last `/`. */
  function Basename(p: string): (r: string)
    ensures '/' !in r
    ensures |r| <= |p| && r == p[|p| - |r|..]
    ensures '/' !in p ==> r == p
  {
    p[RFind(p, '/') + 1..]
  }

  /**
   * The base name is exactly what follows the last `/`: a suffix without
   * `/` that is the whole path or is preceded by a `/`.
   */
  lemma BasenameSpec(p: string)
    ensures var r := Basename(p);
      && '/' !in r && |r| <= |p| && r == p[|p| - |r|..]
      && (|r| < |p| ==> p[|p| - |r| - 1] == '/')
  {
  }

  /** Everything up to and including the last `/` (what `dirname` keeps, with its separator). */
  function DirPart(p: string): (r: string)
    ensures r + Basename(p) == p
  {
    var i := RFind(p, '/') + 1;
    assert p[..i] + p[i..] == p;
    p[..i]
  }

  /** Some character of `s[lo..hi]` is not a dot. */
  predicate NonDotIn(s: string, lo: int, hi: int)
    requires 0 <= lo <= hi <= |s|
  {
    exists k :: lo <= k < hi && s[k] != '.'
  }

  /**
   * `os.path.splitext` of a file name without `/`: the extension starts at
   * the last dot, provided some character before that dot is not a dot
   * (so `.pt` and `..pt` have no extension).
   */
  function SplitName(b: string): (r: (string, string))
    ensures r.0 + r.1 == b
    ensures r.1 == [] || (r.1[0] == '.' && '.' !in r.1[1..] && NonDotIn(r.0, 0, |r.0|))
  {
    var dot := RFind(b, '.');
    if dot >= 0 && NonDotIn(b, 0, dot) then
      NotInSuffix(b, dot + 1, '.');
      assert b[dot..][1..] == b[dot + 1..];
      (b[..dot], b[dot..])
    else
      (b, [])
  }

  /**
   * `os.path.splitext(p)`: the extension is that of the last path
   * component, and the root is everything before it.
   */
  function SplitExt(p: string): (r: (string, string))
    ensures r.0 + r.1 == p
    ensures r.1 == [] || (r.1[0] == '.' && '/' !in r.1 && '.' !in r.1[1..])
  {
    var b := Basename(p);
    var parts := SplitName(b);
    assert '/' !in parts.1 by {
      assert parts.1 == b[|parts.0|..];
      NotInSuffix(b, |parts.0|, '/');
    }
    assert (DirPart(p) + parts.0) + parts.1 == DirPart(p) + b;
    (DirPart(p) + parts.0, parts.1)
  }

  /** Some dot of `s[lo..]` has a character other than a dot between `lo` and itself. */
  predicate DotAfterNonDot(s: string, lo: int)
    requires 0 <= lo <= |s|
  {
    exists k :: lo <= k < |s| && s[k] == '.' && NonDotIn(s, lo, k)
  }

  /**
   * A file name has an extension exactly when some dot in it has a
   * character other than a dot before it: `x.` has the extension `.`,
   * while `.pt` and `..pt` have none.
   */
  lemma SplitNameSpec(b: string)
    ensures SplitName(b).1 != [] <==> DotAfterNonDot(b, 0)
  {
    var dot := RFind(b, '.');
    if DotAfterNonDot(b, 0) {
      var k :| 0 <= k < |b| && b[k] == '.' && NonDotIn(b, 0, k);
      var j :| 0 <= j < k && b[j] != '.';
      assert NonDotIn(b, 0, dot);
    }
  }

  /**
   * `splitext` finds an extension exactly when the last component has a
   * dot with a character other than a dot before it.
   */
  lemma SplitExtSpec(p: string)
    ensures var (root, ext) := SplitExt(p);
      && root + ext == p
      && (ext == [] || (ext[0] == '.' && '/' !in ext && '.' !in ext[1..]))
      && (ext != [] <==> DotAfterNonDot(p, |DirPart(p)|))
  {
    SplitNameSpec(Basename(p));
    DotAfterNonDotShift(p, |DirPart(p)|);
  }

  /** Looking for such a dot in `s[d..]` is looking for it in `s` from `d` on. */
  lemma DotAfterNonDotShift(s: string, d: nat)
    requires d <= |s|
    ensures DotAfterNonDot(s[d..], 0) <==> DotAfterNonDot(s, d)
  {
    var b := s[d..];
    if DotAfterNonDot(b, 0) {
      var k :| 0 <= k < |b| && b[k] == '.' && NonDotIn(b, 0, k);
      var j :| 0 <= j < k && b[j] != '.';
      assert s[d + j] == b[j] && s[d + k] == b[k];
      assert NonDotIn(s, d, d + k);
    }
    if DotAfterNonDot(s, d) {
      var k :| d <= k < |s| && s[k] == '.' && NonDotIn(s, d, k);
      var j :| d <= j < k && s[j] != '.';
      assert b[j - d] == s[j] && b[k - d] == s[k];
      assert NonDotIn(b, 0, k - d);
    }
  }

  lemma NotInSuffix(s: string, i: nat, c: char)
    requires i <= |s|
    requires forall k :: i <= k < |s| ==> s[k] != c
    ensures c !in s[i..]
  {
    var t := s[i..];
    forall k | 0 <= k < |t| ensures t[k] != c {
      assert t[k] == s[i + k];
    }
  }

  /** `os.path.join(a, b)` for two components. */
  function Join(a: string, b: string): (r: string)
    ensures |b| <= |r| && r[|r| - |b|..] == b
  {
    if b != [] && b[0] == '/' then b
    else if a == [] || a[|a| - 1] == '/' then a + b
    else a + "/" + b
  }

  /**
   * An absolute right part replaces the left one; otherwise the result is
   * the left part, then one `/` exactly when the left part is non-empty and
   * does not end with `/`, then the right part.
   */
  lemma JoinSpec(a: string, b: string)
    ensures var r := Join(a, b);
      && (b != [] && b[0] == '/' ==> r == b)
      && ((b == [] || b[0] != '/') ==> r == a + r[|a|..|r| - |b|] + b && |r| <= |a| + 1 + |b|)
      && ((b == [] || b[0] != '/') && a != [] && a[|a| - 1] != '/' ==> r[|a|..|r| - |b|] == "/")
      && ((b == [] || b[0] != '/') && (a == [] || a[|a| - 1] == '/') ==> r == a + b)
  {
  }

  lemma {:induction false} RFindAppend(a: string, b: string, c: char)
    ensures c in b ==> RFind(a + b, c) == |a| + RFind(b, c)
    ensures c !in b ==> RFind(a + b, c) == RFind(a, c)
    decreases |b|
  {
    if b == [] {
      assert a + b == a;
    } else {
      var ab := a + b;
      assert ab[|ab| - 1] == b[|b| - 1];
      if b[|b| - 1] != c {
        assert ab[..|ab| - 1] == a + b[..|b| - 1];
        RFindAppend(a, b[..|b| - 1], c);
        assert c in b <==> c in b[..|b| - 1] by {
          if c in b {
            var k :| 0 <= k < |b| && b[k] == c;
            assert b[..|b| - 1][k] == c;
          }
        }
      }
    }
  }

  /** The last component of a joined path is the last component of its right-hand part. */
  lemma BasenameJoin(a: string, b: string)
    ensures Basename(Join(a, b)) == Basename(b)
  {
    if b != [] && b[0] == '/' {
    } else if a == [] || a[|a| - 1] == '/' {
      BasenameAfterSeparator(a, b);
    } else {
      assert a + "/" + b == (a + "/") + b;
      BasenameAfterSeparator(a + "/", b);
    }
  }

  lemma BasenameAfterSeparator(a: string, b: string)
    requires a == [] || a[|a| - 1] == '/'
    ensures Basename(a + b) == Basename(b)
  {
    var ab := a + b;
    RFindAppend(a, b, '/');
    if '/' !in b {
      assert RFind(a, '/') == |a| - 1;
      assert Basename(ab) == ab[|a|..];
      assert ab[|a|..] == b;
    } else {
      var i := RFind(b, '/');
      assert Basename(ab) == ab[|a| + i + 1..];
      assert ab[|a| + i + 1..] == b[i + 1..];
    }
  }

  /** The extension of a path is the extension of its last component. */
  lemma SplitExtOfBasename(p: string)
    ensures SplitExt(p).1 == SplitName(Basename(p)).1
    ensures SplitExt(Basename(p)) == SplitName(Basename(p))
  {
  }

  lemma BasenameAppend(root: string, ext: string)
    requires '/' !in ext
    ensures Basename(root + ext) == Basename(root) + ext
    ensures DirPart(root + ext) == DirPart(root)
  {
    RFindAppend(root, ext, '/');
    var sep := RFind(root, '/');
    assert (root + ext)[sep + 1..] == root[sep + 1..] + ext;
    assert (root + ext)[..sep + 1] == root[..sep + 1];
  }

  lemma SplitNameAppend(b: string, ext: string)
    requires |ext| >= 2 && ext[0] == '.' && '.' !in ext[1..]
    requires NonDotIn(b, 0, |b|)
    ensures SplitName(b + ext) == (b, ext)
  {
    var bp := b + ext;
    RFindAppend(b, ext, '.');
    forall k | 0 < k < |ext| ensures ext[k] != '.' {
      assert ext[1..][k - 1] == ext[k];
    }
    assert RFind(ext, '.') == 0;
    var w :| 0 <= w < |b| && b[w] != '.';
    assert bp[w] != '.';
    assert bp[..|b|] == b && bp[|b|..] == ext;
  }

  /**
   * Round trip: appending an extension to a root whose last component has
   * a character other than a dot, and splitting again, gives back both parts.
   */
  lemma {:induction false} SplitExtAppend(root: string, ext: string)
    requires |ext| >= 2 && ext[0] == '.' && '.' !in ext[1..] && '/' !in ext
    requires NonDotIn(Basename(root), 0, |Basename(root)|)
    ensures SplitExt(root + ext) == (root, ext)
  {
    BasenameAppend(root, ext);
    SplitNameAppend(Basename(root), ext);
  }

  /** What `DirPart` keeps is empty or ends with the separator. */
  lemma DirPartEnds(p: string)
    ensures DirPart(p) == [] || DirPart(p)[|DirPart(p)| - 1] == '/'
  {
  }

  /** A name without `/` appended to a directory part is that path's last component. */
  lemma SplitAtDir(d: string, x: string)
    requires d == [] || d[|d| - 1] == '/'
    requires '/' !in x
    ensures Basename(d + x) == x && DirPart(d + x) == d
  {
    BasenameAfterSeparator(d, x);
  }

  /** The root `splitext` returns is the directory part followed by the stem of the last component. */
  lemma RootOfSplit(p: string)
    ensures SplitExt(p).0 == DirPart(p) + SplitName(Basename(p)).0
    ensures Basename(SplitExt(p).0) == SplitName(Basename(p)).0
    ensures DirPart(SplitExt(p).0) == DirPart(p)
  {
    var b := Basename(p);
    var stem := SplitName(b).0;
    assert stem == b[..|stem|];
    assert '/' !in stem;
    DirPartEnds(p);
    SplitAtDir(DirPart(p), stem);
  }

  /** The extension `splitext` returns is a suffix of the path. */
  lemma SplitExtSuffix(p: string)
    ensures |SplitExt(p).1| <= |p| && p[|p| - |SplitExt(p).1|..] == SplitExt(p).1
  {
    var (root, ext) := SplitExt(p);
    assert p == root + ext;
    assert p[|root|..] == ext;
  }
}
