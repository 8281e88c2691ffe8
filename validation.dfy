/** The checks `main` runs on `-src` and `-dest` before any work starts, in
    the order it runs them, and the separator normalisation that follows. */
module Validation {
  import opened Paths

  /** What `os.Stat` reports for a path. */
  datatype Stat = StatFailed | StatOk(isDir: bool)

  /** Either the process exits with `code`, or both directories are accepted
      and normalised. */
  datatype Validated = Exit(code: int) | Accepted(srcDir: string, destDir: string)

  predicate IsDirectory(st: Stat)
  {
    st.StatOk? && st.isDir
  }

  /** The decision chain of `main`. `stat` stands for `os.Stat` on the raw
      argument strings. The equality test compares the raw strings; only
      afterwards are the separators appended. */
  function Validate(src: string, dest: string, stat: string -> Stat): (r: Validated)
    ensures r == Exit(1) <==> src == "" || dest == ""
    ensures r == Exit(64) <==>
      src != "" && dest != "" &&
      (src == dest || stat(src).StatFailed? || (IsDirectory(stat(src)) && stat(dest).StatFailed?))
    ensures r == Exit(2) <==>
      src != "" && dest != "" && src != dest &&
      (stat(src) == StatOk(false) || (IsDirectory(stat(src)) && stat(dest) == StatOk(false)))
    ensures r.Accepted? <==>
      src != "" && dest != "" && src != dest && IsDirectory(stat(src)) && IsDirectory(stat(dest))
    ensures r.Accepted? ==> r.srcDir == WithSeparator(src) && r.destDir == WithSeparator(dest)
    ensures r.Accepted? ==>
      EndsWithSeparator(r.srcDir) && EndsWithSeparator(r.destDir) &&
      src <= r.srcDir && |r.srcDir| <= |src| + 1 &&
      dest <= r.destDir && |r.destDir| <= |dest| + 1
  {
    if src == "" then Exit(1)
    else if dest == "" then Exit(1)
    else if src == dest then Exit(64)
    else if stat(src).StatFailed? then Exit(64)
    else if !stat(src).isDir then Exit(2)
    else if stat(dest).StatFailed? then Exit(64)
    else if !stat(dest).isDir then Exit(2)
    else Accepted(WithSeparator(src), WithSeparator(dest))
  }

  /** Normalising accepted paths again changes nothing. */
  lemma AcceptedPathsAreNormal(src: string, dest: string, stat: string -> Stat)
    requires Validate(src, dest, stat).Accepted?
    ensures var r := Validate(src, dest, stat);
      WithSeparator(r.srcDir) == r.srcDir && WithSeparator(r.destDir) == r.destDir
  {
    WithSeparatorIdempotent(src);
    WithSeparatorIdempotent(dest);
  }

  /** Because the equality test runs before normalisation, a directory named
      once with and once without its trailing separator passes it, and both
      normalised paths are then the same string. */
  lemma RawComparisonLetsSameDirectoryThrough(dir: string, stat: string -> Stat)
    requires dir != "" && !EndsWithSeparator(dir)
    requires IsDirectory(stat(dir)) && IsDirectory(stat(dir + [Separator]))
    ensures var r := Validate(dir, dir + [Separator], stat);
      r.Accepted? && r.srcDir == r.destDir
  {
    assert dir != dir + [Separator] by {
      assert |dir + [Separator]| == |dir| + 1;
    }
    assert WithSeparator(dir + [Separator]) == dir + [Separator];
  }
}
