/** What one worker (`archiveFiles`) does to the filesystem when it drains the
    channel: one `copyFile` per received entry, in order, whatever each copy
    returns. */
module WorkerSpec {
  import opened Files
  import opened Paths
  import opened Dispatch
  import opened CopySpec

  /** The temporary and final paths of every entry of a queue: the only paths
      draining it may change. */
  function Targets(destDir: string, queue: seq<Entry>): set<string>
    decreases |queue|
  {
    if queue == [] then {}
    else {TempPath(destDir, queue[0].name), FinalPath(destDir, queue[0].name)} + Targets(destDir, queue[1..])
  }

  /** A path is a target of a queue exactly when it is the temporary or the
      final path of one of its entries. */
  lemma {:induction false} InTargets(destDir: string, queue: seq<Entry>, p: string)
    ensures p in Targets(destDir, queue) <==>
      exists j :: 0 <= j < |queue| && (p == TempPath(destDir, queue[j].name) || p == FinalPath(destDir, queue[j].name))
    decreases |queue|
  {
    if queue != [] {
      InTargets(destDir, queue[1..], p);
      if p in Targets(destDir, queue[1..]) {
        var j :| 0 <= j < |queue[1..]| &&
          (p == TempPath(destDir, queue[1..][j].name) || p == FinalPath(destDir, queue[1..][j].name));
        assert queue[1..][j] == queue[j + 1];
      }
      forall j | 1 <= j < |queue| && (p == TempPath(destDir, queue[j].name) || p == FinalPath(destDir, queue[j].name))
        ensures p in Targets(destDir, queue[1..])
      {
        assert queue[1..][j - 1] == queue[j];
      }
    }
  }

  /** The filesystem after a worker has copied every entry of `queue`; the
      k-th copy it makes runs under `envs(k)`. A failed copy does not stop
      the drain. */
  function Drain(files: FileMap, srcDir: string, destDir: string, queue: seq<Entry>,
                 envs: nat -> Env, k: nat): FileMap
    decreases |queue|
  {
    if queue == [] then files
    else Drain(Copy(files, srcDir, destDir, queue[0], envs(k)).files, srcDir, destDir, queue[1..], envs, k + 1)
  }

  /** Draining a queue changes no path outside its targets. */
  lemma {:induction false} DrainTouchesOnlyTargets(
    files: FileMap, srcDir: string, destDir: string, queue: seq<Entry>, envs: nat -> Env, k: nat)
    ensures ChangedOnlyAt(files, Drain(files, srcDir, destDir, queue, envs, k), Targets(destDir, queue))
    decreases |queue|
  {
    if queue != [] {
      var c := Copy(files, srcDir, destDir, queue[0], envs(k));
      CopyTouchesOnlyItsPaths(files, srcDir, destDir, queue[0], envs(k));
      DrainTouchesOnlyTargets(c.files, srcDir, destDir, queue[1..], envs, k + 1);
    }
  }

  /** A queue the dispatcher can produce from a listing: visible names without
      separators, each name once. */
  predicate CopyableQueue(queue: seq<Entry>)
  {
    DistinctNames(queue) &&
    forall i :: 0 <= i < |queue| ==> PlainName(queue[i].name) && !IsHidden(queue[i].name)
  }

  /** One file's failure does not affect the others: after the drain, every
      entry whose own copy met no fault has a byte-exact copy of its source,
      with its mode, at its final path, and no temporary file, whatever
      happened to the copies before and after it. */
  lemma {:induction false} DrainCopiesFaultlessEntries(
    files: FileMap, srcDir: string, destDir: string, queue: seq<Entry>, envs: nat -> Env, k: nat, i: nat)
    requires EndsWithSeparator(srcDir) && EndsWithSeparator(destDir)
    requires CopyableQueue(queue)
    requires i < |queue| && Faultless(envs(k + i))
    requires SourcePath(srcDir, queue[i].name) in files
    ensures var r := Drain(files, srcDir, destDir, queue, envs, k);
      var e := queue[i];
      FinalPath(destDir, e.name) in r &&
      r[FinalPath(destDir, e.name)] == File(files[SourcePath(srcDir, e.name)].data, e.mode) &&
      TempPath(destDir, e.name) !in r
    decreases |queue|
  {
    var e0 := queue[0];
    var c := Copy(files, srcDir, destDir, e0, envs(k));
    var rest := queue[1..];
    assert CopyableQueue(rest) by {
      forall a, b | 0 <= a < b < |rest|
        ensures rest[a].name != rest[b].name
      {
        assert rest[a] == queue[a + 1] && rest[b] == queue[b + 1];
      }
      forall a | 0 <= a < |rest|
        ensures PlainName(rest[a].name) && !IsHidden(rest[a].name)
      {
        assert rest[a] == queue[a + 1];
      }
    }
    if i == 0 {
      CopyFaultless(files, srcDir, destDir, e0, envs(k));
      var tmp0, dst0 := TempPath(destDir, e0.name), FinalPath(destDir, e0.name);
      forall j | 0 <= j < |rest|
        ensures TempPath(destDir, rest[j].name) != tmp0 && FinalPath(destDir, rest[j].name) != tmp0
        ensures TempPath(destDir, rest[j].name) != dst0 && FinalPath(destDir, rest[j].name) != dst0
      {
        assert rest[j] == queue[j + 1];
        assert rest[j].name != e0.name;
        PathsApart(srcDir, destDir, e0.name, rest[j].name);
        PathsApart(srcDir, destDir, rest[j].name, e0.name);
      }
      InTargets(destDir, rest, tmp0);
      InTargets(destDir, rest, dst0);
      DrainTouchesOnlyTargets(c.files, srcDir, destDir, rest, envs, k + 1);
    } else {
      var e := queue[i];
      assert e.name != e0.name;
      CopyTouchesOnlyItsPaths(files, srcDir, destDir, e0, envs(k));
      PathsApart(srcDir, destDir, e.name, e0.name);
      assert rest[i - 1] == e;
      DrainCopiesFaultlessEntries(c.files, srcDir, destDir, rest, envs, k + 1, i - 1);
    }
  }

  /** When no `os.Create` succeeds (an unwritable destination) the drain
      leaves the filesystem exactly as it was. */
  lemma {:induction false} DrainWithoutCreateChangesNothing(
    files: FileMap, srcDir: string, destDir: string, queue: seq<Entry>, envs: nat -> Env, k: nat)
    requires forall j :: !envs(j).createOk
    ensures Drain(files, srcDir, destDir, queue, envs, k) == files
    decreases |queue|
  {
    if queue != [] {
      CopyFailsBeforeStart(files, srcDir, destDir, queue[0], envs(k));
      DrainWithoutCreateChangesNothing(files, srcDir, destDir, queue[1..], envs, k + 1);
    }
  }

  /** Copies of two different visible names commute: each returns the same
      result and the filesystem ends the same in either order. */
  lemma CopiesCommute(files: FileMap, srcDir: string, destDir: string, e1: Entry, e2: Entry, env1: Env, env2: Env)
    requires EndsWithSeparator(srcDir) && EndsWithSeparator(destDir)
    requires PlainName(e1.name) && PlainName(e2.name) && !IsHidden(e1.name) && !IsHidden(e2.name)
    requires e1.name != e2.name
    ensures var a1 := Copy(files, srcDir, destDir, e1, env1);
      var a2 := Copy(a1.files, srcDir, destDir, e2, env2);
      var b2 := Copy(files, srcDir, destDir, e2, env2);
      var b1 := Copy(b2.files, srcDir, destDir, e1, env1);
      a1.ok == b1.ok && a2.ok == b2.ok && a2.files == b1.files
  {
    var a1 := Copy(files, srcDir, destDir, e1, env1);
    var a2 := Copy(a1.files, srcDir, destDir, e2, env2);
    var b2 := Copy(files, srcDir, destDir, e2, env2);
    var b1 := Copy(b2.files, srcDir, destDir, e1, env1);
    var k1 := {TempPath(destDir, e1.name), FinalPath(destDir, e1.name)};
    var k2 := {TempPath(destDir, e2.name), FinalPath(destDir, e2.name)};
    PathsApart(srcDir, destDir, e1.name, e2.name);
    PathsApart(srcDir, destDir, e2.name, e1.name);
    CopyTouchesOnlyItsPaths(files, srcDir, destDir, e1, env1);
    CopyTouchesOnlyItsPaths(a1.files, srcDir, destDir, e2, env2);
    CopyTouchesOnlyItsPaths(files, srcDir, destDir, e2, env2);
    CopyTouchesOnlyItsPaths(b2.files, srcDir, destDir, e1, env1);
    CopyIsLocal(files, a1.files, srcDir, destDir, e2, env2);
    CopyIsLocal(files, b2.files, srcDir, destDir, e1, env1);
    DisjointChangesMeet(files, a1.files, a2.files, b2.files, b1.files, k1, k2);
  }

  /** Two changes confined to disjoint path sets, applied in either order,
      meet when each one's effect does not depend on the other. */
  lemma DisjointChangesMeet(files: FileMap, a1: FileMap, a2: FileMap, b2: FileMap, b1: FileMap,
                            k1: set<string>, k2: set<string>)
    requires k1 !! k2
    requires ChangedOnlyAt(files, a1, k1) && ChangedOnlyAt(a1, a2, k2)
    requires ChangedOnlyAt(files, b2, k2) && ChangedOnlyAt(b2, b1, k1)
    requires AgreeOn(a1, b1, k1) && AgreeOn(b2, a2, k2)
    ensures a2 == b1
  {
    forall p
      ensures (p in a2 <==> p in b1) && (p in a2 ==> a2[p] == b1[p])
    {
      if p in k1 {
        assert p !in k2;
      } else if p in k2 {
      } else {
      }
    }
  }

  /** With every `os.Remove` succeeding, a path that is no entry's final path
      and is absent before the drain is absent after it: a temporary file
      landing there is renamed or removed by the copy that created it. */
  lemma {:induction false} DrainKeepsAbsent(
    files: FileMap, srcDir: string, destDir: string, queue: seq<Entry>, envs: nat -> Env, k: nat, p: string)
    requires forall j :: envs(j).removeOk
    requires p !in files
    requires forall j :: 0 <= j < |queue| ==> p != FinalPath(destDir, queue[j].name)
    ensures p !in Drain(files, srcDir, destDir, queue, envs, k)
    decreases |queue|
  {
    if queue != [] {
      var e := queue[0];
      var c := Copy(files, srcDir, destDir, e, envs(k));
      CopyTouchesOnlyItsPaths(files, srcDir, destDir, e, envs(k));
      if p == TempPath(destDir, e.name) {
        if Started(files, srcDir, e, envs(k)) {
          CopyCleansUp(files, srcDir, destDir, e, envs(k));
        } else {
          CopyFailsBeforeStart(files, srcDir, destDir, e, envs(k));
        }
      }
      forall j | 0 <= j < |queue[1..]|
        ensures p != FinalPath(destDir, queue[1..][j].name)
      {
        assert queue[1..][j] == queue[j + 1];
      }
      DrainKeepsAbsent(c.files, srcDir, destDir, queue[1..], envs, k + 1, p);
    }
  }

  /** Draining `q1 + q2` is draining `q1`, then `q2` with the outcomes that
      come next. */
  lemma {:induction false} DrainAppend(
    files: FileMap, srcDir: string, destDir: string, q1: seq<Entry>, q2: seq<Entry>, envs: nat -> Env, k: nat)
    ensures Drain(files, srcDir, destDir, q1 + q2, envs, k)
         == Drain(Drain(files, srcDir, destDir, q1, envs, k), srcDir, destDir, q2, envs, k + |q1|)
    decreases |q1|
  {
    if q1 == [] {
      assert q1 + q2 == q2;
    } else {
      var c := Copy(files, srcDir, destDir, q1[0], envs(k));
      assert (q1 + q2)[0] == q1[0];
      assert (q1 + q2)[1..] == q1[1..] + q2;
      DrainAppend(c.files, srcDir, destDir, q1[1..], q2, envs, k + 1);
    }
  }

  /** A drain depends only on the outcomes of the copies it makes. */
  lemma {:induction false} DrainSameOutcomes(
    files: FileMap, srcDir: string, destDir: string, queue: seq<Entry>, envs1: nat -> Env, envs2: nat -> Env, k: nat)
    requires forall j :: k <= j < k + |queue| ==> envs1(j) == envs2(j)
    ensures Drain(files, srcDir, destDir, queue, envs1, k) == Drain(files, srcDir, destDir, queue, envs2, k)
    decreases |queue|
  {
    if queue != [] {
      var c := Copy(files, srcDir, destDir, queue[0], envs1(k));
      DrainSameOutcomes(c.files, srcDir, destDir, queue[1..], envs1, envs2, k + 1);
    }
  }

  /** The outcomes `envs` with those of the i-th and (i+1)-th copies exchanged. */
  function Swapped(envs: nat -> Env, i: nat): nat -> Env
  {
    (j: nat) => if j == i then envs(i + 1) else if j == i + 1 then envs(i) else envs(j)
  }

  /** Two adjacent copies of different visible names can trade places, each
      keeping its own outcomes, and the drain leaves the same filesystem. */
  lemma DrainSwapAdjacent(files: FileMap, srcDir: string, destDir: string,
                          q1: seq<Entry>, e1: Entry, e2: Entry, q2: seq<Entry>, envs: nat -> Env, k: nat)
    requires EndsWithSeparator(srcDir) && EndsWithSeparator(destDir)
    requires PlainName(e1.name) && PlainName(e2.name) && !IsHidden(e1.name) && !IsHidden(e2.name)
    requires e1.name != e2.name
    ensures Drain(files, srcDir, destDir, q1 + [e2, e1] + q2, Swapped(envs, k + |q1|), k)
         == Drain(files, srcDir, destDir, q1 + [e1, e2] + q2, envs, k)
  {
    var i := k + |q1|;
    var sw := Swapped(envs, i);
    DrainAppend(files, srcDir, destDir, q1 + [e2, e1], q2, sw, k);
    DrainAppend(files, srcDir, destDir, q1, [e2, e1], sw, k);
    DrainAppend(files, srcDir, destDir, q1 + [e1, e2], q2, envs, k);
    DrainAppend(files, srcDir, destDir, q1, [e1, e2], envs, k);
    DrainSameOutcomes(files, srcDir, destDir, q1, sw, envs, k);
    var m := Drain(files, srcDir, destDir, q1, envs, k);
    assert sw(i) == envs(i + 1) && sw(i + 1) == envs(i);
    assert [e2, e1][1..] == [e1] && [e1, e2][1..] == [e2];
    assert [e1][1..] == [] && [e2][1..] == [];
    CopiesCommute(m, srcDir, destDir, e1, e2, envs(i), envs(i + 1));
    var a1 := Copy(m, srcDir, destDir, e1, envs(i));
    var a2 := Copy(a1.files, srcDir, destDir, e2, envs(i + 1));
    var b2 := Copy(m, srcDir, destDir, e2, envs(i + 1));
    var b1 := Copy(b2.files, srcDir, destDir, e1, envs(i));
    assert Drain(m, srcDir, destDir, [e1, e2], envs, i) == Drain(a1.files, srcDir, destDir, [e2], envs, i + 1);
    assert Drain(a1.files, srcDir, destDir, [e2], envs, i + 1) == a2.files;
    assert Drain(m, srcDir, destDir, [e2, e1], sw, i) == Drain(b2.files, srcDir, destDir, [e1], sw, i + 1);
    assert Drain(b2.files, srcDir, destDir, [e1], sw, i + 1) == b1.files;
    var mid := Drain(m, srcDir, destDir, [e1, e2], envs, i);
    DrainSameOutcomes(mid, srcDir, destDir, q2, sw, envs, i + 2);
  }

  /** A fault-free drain leaves the bytes of every queued source where they
      were: a source path is never a temporary path, and it is a final path
      only of its own entry (when both directories are the same), whose copy
      puts the same bytes back. */
  lemma DrainKeepsSourceData(files: FileMap, srcDir: string, destDir: string, queue: seq<Entry>,
                             envs: nat -> Env, j: nat)
    requires EndsWithSeparator(srcDir) && EndsWithSeparator(destDir)
    requires CopyableQueue(queue)
    requires j < |queue| && Faultless(envs(j))
    requires SourcePath(srcDir, queue[j].name) in files
    ensures var once := Drain(files, srcDir, destDir, queue, envs, 0);
      var src := SourcePath(srcDir, queue[j].name);
      src in once && once[src].data == files[src].data
  {
    var once := Drain(files, srcDir, destDir, queue, envs, 0);
    var src := SourcePath(srcDir, queue[j].name);
    DrainTouchesOnlyTargets(files, srcDir, destDir, queue, envs, 0);
    DrainCopiesFaultlessEntries(files, srcDir, destDir, queue, envs, 0, j);
    InTargets(destDir, queue, src);
    if src in Targets(destDir, queue) {
      var i :| 0 <= i < |queue| &&
        (src == TempPath(destDir, queue[i].name) || src == FinalPath(destDir, queue[i].name));
      PathsApart(srcDir, destDir, queue[j].name, queue[i].name);
      assert i == j;
    }
  }

  /** After two fault-free drains of the same queue, each entry's final path
      holds what the first drain put there, and neither leaves its temporary
      file. */
  lemma DrainAgainAt(files: FileMap, srcDir: string, destDir: string, queue: seq<Entry>,
                     envs1: nat -> Env, envs2: nat -> Env, j: nat)
    requires EndsWithSeparator(srcDir) && EndsWithSeparator(destDir)
    requires CopyableQueue(queue)
    requires j < |queue| && Faultless(envs1(j)) && Faultless(envs2(j))
    requires SourcePath(srcDir, queue[j].name) in files
    ensures var once := Drain(files, srcDir, destDir, queue, envs1, 0);
      var twice := Drain(once, srcDir, destDir, queue, envs2, 0);
      var dst := FinalPath(destDir, queue[j].name);
      var tmp := TempPath(destDir, queue[j].name);
      dst in once && dst in twice && twice[dst] == once[dst] && tmp !in once && tmp !in twice
  {
    var once := Drain(files, srcDir, destDir, queue, envs1, 0);
    DrainKeepsSourceData(files, srcDir, destDir, queue, envs1, j);
    DrainCopiesFaultlessEntries(files, srcDir, destDir, queue, envs1, 0, j);
    DrainCopiesFaultlessEntries(once, srcDir, destDir, queue, envs2, 0, j);
  }

  /** Draining the same queue a second time, with every copy fault-free both
      times, leaves the filesystem as the first drain left it. */
  lemma DrainTwiceIsDrainOnce(files: FileMap, srcDir: string, destDir: string, queue: seq<Entry>,
                              envs1: nat -> Env, envs2: nat -> Env)
    requires EndsWithSeparator(srcDir) && EndsWithSeparator(destDir)
    requires CopyableQueue(queue)
    requires forall j :: 0 <= j < |queue| ==> Faultless(envs1(j)) && Faultless(envs2(j))
    requires forall j :: 0 <= j < |queue| ==> SourcePath(srcDir, queue[j].name) in files
    ensures var once := Drain(files, srcDir, destDir, queue, envs1, 0);
      Drain(once, srcDir, destDir, queue, envs2, 0) == once
  {
    var once := Drain(files, srcDir, destDir, queue, envs1, 0);
    var twice := Drain(once, srcDir, destDir, queue, envs2, 0);
    DrainTouchesOnlyTargets(once, srcDir, destDir, queue, envs2, 0);
    forall p
      ensures (p in twice <==> p in once) && (p in twice ==> twice[p] == once[p])
    {
      InTargets(destDir, queue, p);
      if p in Targets(destDir, queue) {
        var j :| 0 <= j < |queue| &&
          (p == TempPath(destDir, queue[j].name) || p == FinalPath(destDir, queue[j].name));
        DrainAgainAt(files, srcDir, destDir, queue, envs1, envs2, j);
      }
    }
  }
}
