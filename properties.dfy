/** Properties of a whole run, stated over the functions that specify it. */
module RunProperties {
  import opened Files
  import opened Paths
  import opened Validation
  import opened Dispatch
  import opened CopySpec
  import opened WorkerSpec

  /** A directory listing as `ReadDir` returns it: names without separators,
      each name once. */
  predicate WellFormedListing(listing: seq<Entry>)
  {
    DistinctNames(listing) && forall j :: 0 <= j < |listing| ==> PlainName(listing[j].name)
  }

  /** The dispatched entries of a listing satisfy what the drain lemmas ask
      of a queue. */
  lemma EligibleIsCopyable(listing: seq<Entry>)
    requires WellFormedListing(listing)
    ensures CopyableQueue(Eligible(listing))
  {
    var q := Eligible(listing);
    EligibleDistinct(listing);
    forall i | 0 <= i < |q|
      ensures PlainName(q[i].name) && !IsHidden(q[i].name)
    {
      assert q[i] in listing;
    }
  }

  /** Every dispatched file whose own copy meets no fault ends up at its final
      path with the source's bytes and the listed mode, and leaves no
      temporary file behind, whatever happens to the other copies. */
  lemma RunCopiesEligibleFile(files: FileMap, src: string, dest: string, stat: string -> Stat,
                              listing: seq<Entry>, envs: nat -> Env, i: nat)
    requires Validate(src, dest, stat).Accepted? && WellFormedListing(listing)
    requires i < |Eligible(listing)| && Faultless(envs(i))
    requires SourcePath(Validate(src, dest, stat).srcDir, Eligible(listing)[i].name) in files
    ensures var v := Validate(src, dest, stat);
      var e := Eligible(listing)[i];
      var r := Drain(files, v.srcDir, v.destDir, Eligible(listing), envs, 0);
      FinalPath(v.destDir, e.name) in r &&
      r[FinalPath(v.destDir, e.name)] == File(files[SourcePath(v.srcDir, e.name)].data, e.mode) &&
      TempPath(v.destDir, e.name) !in r
  {
    var v := Validate(src, dest, stat);
    EligibleIsCopyable(listing);
    DrainCopiesFaultlessEntries(files, v.srcDir, v.destDir, Eligible(listing), envs, 0, i);
  }

  /** A listed subdirectory (with a visible name) gets nothing at its name in
      the destination: whatever was there stays as it was. */
  lemma RunSkipsDirectories(files: FileMap, src: string, dest: string, stat: string -> Stat,
                            listing: seq<Entry>, envs: nat -> Env, x: Entry)
    requires Validate(src, dest, stat).Accepted? && WellFormedListing(listing)
    requires x in listing && x.isDir && !IsHidden(x.name)
    ensures var v := Validate(src, dest, stat);
      AgreeOn(files, Drain(files, v.srcDir, v.destDir, Eligible(listing), envs, 0), {FinalPath(v.destDir, x.name)})
  {
    var v := Validate(src, dest, stat);
    var q := Eligible(listing);
    var p := FinalPath(v.destDir, x.name);
    var b :| 0 <= b < |listing| && listing[b] == x;
    forall j | 0 <= j < |q|
      ensures p != TempPath(v.destDir, q[j].name) && p != FinalPath(v.destDir, q[j].name)
    {
      assert q[j] in listing;
      var a :| 0 <= a < |listing| && listing[a] == q[j];
      assert a != b;
      assert q[j].name != x.name;
      PathsApart(v.srcDir, v.destDir, q[j].name, x.name);
    }
    InTargets(v.destDir, q, p);
    DrainTouchesOnlyTargets(files, v.srcDir, v.destDir, q, envs, 0);
  }

  /** A hidden name absent from the destination is still absent after any
      run in which every cleanup `os.Remove` succeeds, whatever else fails:
      the only file a run may put there is the temporary file of the
      dispatched entry named like it without the leading ".", and that file
      is renamed or removed by the copy that created it. */
  lemma RunSkipsHiddenFiles(files: FileMap, src: string, dest: string, stat: string -> Stat,
                            listing: seq<Entry>, envs: nat -> Env, x: Entry)
    requires Validate(src, dest, stat).Accepted? && WellFormedListing(listing)
    requires forall k :: envs(k).removeOk
    requires x in listing && IsHidden(x.name)
    requires FinalPath(Validate(src, dest, stat).destDir, x.name) !in files
    ensures var v := Validate(src, dest, stat);
      FinalPath(v.destDir, x.name) !in Drain(files, v.srcDir, v.destDir, Eligible(listing), envs, 0)
  {
    var v := Validate(src, dest, stat);
    var q := Eligible(listing);
    var p := FinalPath(v.destDir, x.name);
    EligibleIsCopyable(listing);
    var b :| 0 <= b < |listing| && listing[b] == x;
    assert PlainName(x.name);
    forall j | 0 <= j < |q|
      ensures p != FinalPath(v.destDir, q[j].name)
    {
      SplitUnique(v.destDir, q[j].name, v.destDir, x.name);
    }
    DrainKeepsAbsent(files, v.srcDir, v.destDir, q, envs, 0, p);
  }

  /** Running the archiver a second time over the same listing, with every
      copy fault-free both times and every dispatched source present, leaves
      the destination as the first run left it. */
  lemma RunTwiceIsRunOnce(files: FileMap, src: string, dest: string, stat: string -> Stat,
                          listing: seq<Entry>, envs1: nat -> Env, envs2: nat -> Env)
    requires Validate(src, dest, stat).Accepted? && WellFormedListing(listing)
    requires forall j :: 0 <= j < |Eligible(listing)| ==> Faultless(envs1(j)) && Faultless(envs2(j))
    requires forall j :: 0 <= j < |Eligible(listing)| ==>
      SourcePath(Validate(src, dest, stat).srcDir, Eligible(listing)[j].name) in files
    ensures var v := Validate(src, dest, stat);
      var once := Drain(files, v.srcDir, v.destDir, Eligible(listing), envs1, 0);
      Drain(once, v.srcDir, v.destDir, Eligible(listing), envs2, 0) == once
  {
    var v := Validate(src, dest, stat);
    EligibleIsCopyable(listing);
    DrainTwiceIsDrainOnce(files, v.srcDir, v.destDir, Eligible(listing), envs1, envs2);
  }
}
