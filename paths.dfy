/** Path strings: the trailing separator `main` adds, the hidden-file test,
    and the three paths `copyFile` derives from a directory entry. */
module Paths {

  /** `os.PathSeparator`, fixed to the POSIX separator. */
  const Separator: char := '/'

  /** `strings.HasSuffix(p, string(os.PathSeparator))` */
  predicate EndsWithSeparator(p: string)
  {
    |p| > 0 && p[|p| - 1] == Separator
  }

  /** A name as a directory listing yields it: no separator inside. */
  predicate PlainName(name: string)
  {
    Separator !in name
  }

  /** The normalisation `main` applies to both directories: append the
      separator unless the path already ends with it. */
  function WithSeparator(p: string): (r: string)
    ensures EndsWithSeparator(r)
    ensures p <= r && |r| <= |p| + 1
    ensures r == p <==> EndsWithSeparator(p)
  {
    if EndsWithSeparator(p) then p else p + [Separator]
  }

  lemma WithSeparatorIdempotent(p: string)
    ensures WithSeparator(WithSeparator(p)) == WithSeparator(p)
  {
  }

  /** `isHidden`: the name starts with ".". */
  function IsHidden(name: string): (hidden: bool)
    ensures hidden <==> |name| > 0 && name[0] == '.'
  {
    "." <= name
  }

  /** The file `copyFile` opens: `SrcDir + name`. */
  function SourcePath(srcDir: string, name: string): string
  {
    srcDir + name
  }

  /** The file `copyFile` renames onto: `DestDir + name`. */
  function FinalPath(destDir: string, name: string): string
  {
    destDir + name
  }

  /** The staging file `copyFile` writes: `DestDir + "." + name`. It is never
      the final path (it is one character longer). */
  function TempPath(destDir: string, name: string): (r: string)
    ensures r != FinalPath(destDir, name)
    ensures |r| == |FinalPath(destDir, name)| + 1
  {
    destDir + "." + name
  }

  /** A directory path that ends with the separator, followed by a name
      without one, can be split back uniquely. */
  lemma SplitUnique(a: string, x: string, b: string, y: string)
    requires EndsWithSeparator(a) && EndsWithSeparator(b)
    requires PlainName(x) && PlainName(y)
    ensures a + x == b + y ==> a == b && x == y
  {
    if a + x == b + y {
      LastSeparatorWithin(a, x, b, y);
      LastSeparatorWithin(b, y, a, x);
      assert a == (a + x)[..|a|];
      assert b == (b + y)[..|b|];
      assert x == (a + x)[|a|..];
      assert y == (b + y)[|b|..];
    }
  }

  /** In `a + x` with `x` free of separators, every separator lies within `a`;
      so a separator-terminated prefix `b` of it is no longer than `a`. */
  lemma LastSeparatorWithin(a: string, x: string, b: string, y: string)
    requires EndsWithSeparator(b) && PlainName(x)
    requires a + x == b + y
    ensures |b| <= |a|
  {
    var s := a + x;
    assert s[|b| - 1] == Separator by {
      assert s == b + y;
    }
    forall i | |a| <= i < |s|
      ensures s[i] != Separator
    {
      assert s[i] == x[i - |a|];
    }
  }

  /** The paths of two copies with different visible names never meet, and
      the source a copy reads is never a path another copy writes unless both
      directories are the same string and the names are the same. */
  lemma PathsApart(srcDir: string, destDir: string, n1: string, n2: string)
    requires EndsWithSeparator(srcDir) && EndsWithSeparator(destDir)
    requires PlainName(n1) && PlainName(n2) && !IsHidden(n1) && !IsHidden(n2)
    ensures FinalPath(destDir, n1) == FinalPath(destDir, n2) ==> n1 == n2
    ensures TempPath(destDir, n1) == TempPath(destDir, n2) ==> n1 == n2
    ensures TempPath(destDir, n1) != FinalPath(destDir, n2)
    ensures SourcePath(srcDir, n1) != TempPath(destDir, n2)
    ensures SourcePath(srcDir, n1) == FinalPath(destDir, n2) ==> srcDir == destDir && n1 == n2
  {
    var d := destDir;
    var h1, h2 := "." + n1, "." + n2;
    assert PlainName(h1) && PlainName(h2) by {
      assert Separator !in ".";
    }
    assert TempPath(d, n1) == d + h1 && TempPath(d, n2) == d + h2;
    assert h1[1..] == n1 && h2[1..] == n2;
    SplitUnique(d, n1, d, n2);
    SplitUnique(d, h1, d, h2);
    SplitUnique(d, h1, d, n2);
    SplitUnique(srcDir, n1, d, h2);
    SplitUnique(srcDir, n1, d, n2);
  }
}
