/** What one `copyFile` call does to the filesystem, as a function of the
    filesystem before and of the outcomes of the primitive calls (the
    environment). */
module CopySpec {
  import opened Files
  import opened Paths

  type Positive = n: nat | 0 < n witness 1

  /** The outcome of the k-th `ifile.Read(data)` of one copy and of the
      `dfile.Write` that follows it. `Transfer(want, lands)`: the read yields
      the next `want` bytes (fewer at the end of the file; `io.EOF` once
      nothing is left), and the write stores the first `lands` bytes of that
      chunk. A write that stores fewer than the whole chunk returned an error,
      which `copyFile` ignores. */
  datatype IoStep =
    | ReadFails
    | Transfer(want: Positive, lands: nat)

  /** The outcomes of the primitives one `copyFile` call makes. `removeOk`
      covers the one `os.Remove` a failure path makes, whose error is also
      ignored. */
  datatype Env = Env(
    openOk: bool,
    createOk: bool,
    io: nat -> IoStep,
    renameOk: bool,
    chmodOk: bool,
    removeOk: bool)

  function Min(a: nat, b: nat): nat
  {
    if a < b then a else b
  }

  /** How the read loop ended (`eof` is false after a read error), the bytes
      it read, and the bytes that reached the temporary file. */
  datatype Streamed = Streamed(eof: bool, read: seq<byte>, written: seq<byte>)

  /** The read/write loop of `copyFile` over the source bytes `content`,
      from offset `pos` on, starting at the k-th read. */
  function Stream(content: seq<byte>, pos: nat, io: nat -> IoStep, k: nat): Streamed
    requires pos <= |content|
    decreases |content| - pos
  {
    match io(k)
    case ReadFails => Streamed(false, [], [])
    case Transfer(want, lands) =>
      if pos == |content| then Streamed(true, [], [])
      else
        var n := Min(want, |content| - pos);
        var chunk := content[pos..pos + n];
        var s := Stream(content, pos + n, io, k + 1);
        Streamed(s.eof, chunk + s.read, chunk[..Min(lands, n)] + s.written)
  }

  /** The chunks the loop reads are consecutive pieces of the source, so
      together they are the source bytes from `pos` on up to where the loop
      stopped, all of them when it stopped at `io.EOF`; the temporary file
      never receives more than was read. */
  lemma {:induction false} StreamReadsSource(content: seq<byte>, pos: nat, io: nat -> IoStep, k: nat)
    requires pos <= |content|
    ensures var s := Stream(content, pos, io, k);
      pos + |s.read| <= |content| && s.read == content[pos..pos + |s.read|] &&
      (s.eof ==> s.read == content[pos..]) &&
      |s.written| <= |s.read|
    decreases |content| - pos
  {
    if io(k).Transfer? && pos < |content| {
      var n := Min(io(k).want, |content| - pos);
      StreamReadsSource(content, pos + n, io, k + 1);
      var s := Stream(content, pos + n, io, k + 1);
      assert content[pos..pos + n] + s.read == content[pos..pos + n + |s.read|];
    }
  }

  /** No read fails. */
  ghost predicate ReadsSucceed(io: nat -> IoStep)
  {
    forall k :: io(k).Transfer?
  }

  /** Every write stores its whole chunk. */
  ghost predicate WritesComplete(io: nat -> IoStep)
  {
    forall k :: io(k).Transfer? ==> io(k).want <= io(k).lands
  }

  /** Without read errors the loop always reaches the end of the file. */
  lemma {:induction false} StreamReachesEof(content: seq<byte>, pos: nat, io: nat -> IoStep, k: nat)
    requires pos <= |content| && ReadsSucceed(io)
    ensures Stream(content, pos, io, k).eof
    decreases |content| - pos
  {
    assert io(k).Transfer?;
    if pos < |content| {
      StreamReachesEof(content, pos + Min(io(k).want, |content| - pos), io, k + 1);
    }
  }

  /** When every write stores its whole chunk, the temporary file receives
      exactly the concatenation of the chunks read. */
  lemma {:induction false} StreamWritesWhatItReads(content: seq<byte>, pos: nat, io: nat -> IoStep, k: nat)
    requires pos <= |content| && WritesComplete(io)
    ensures Stream(content, pos, io, k).written == Stream(content, pos, io, k).read
    decreases |content| - pos
  {
    if io(k).Transfer? && pos < |content| {
      var n := Min(io(k).want, |content| - pos);
      var chunk := content[pos..pos + n];
      assert chunk[..Min(io(k).lands, n)] == chunk;
      StreamWritesWhatItReads(content, pos + n, io, k + 1);
    }
  }

  /** The result of `copyFile`: the boolean it returns and the filesystem
      afterwards. */
  datatype Copied = Copied(ok: bool, files: FileMap)

  /** `os.Remove(p)`, whose error `copyFile` ignores. */
  function RemoveIf(files: FileMap, p: string, removeOk: bool): FileMap
  {
    if removeOk then files - {p} else files
  }

  /** Whether the copy gets past `os.Open` and `os.Create`. */
  predicate Started(files: FileMap, srcDir: string, e: Entry, env: Env)
  {
    env.openOk && SourcePath(srcDir, e.name) in files && env.createOk
  }

  /** The filesystem right after `os.Create` truncated or created the
      temporary file (an existing file keeps its mode). */
  function Created(files: FileMap, tmp: string): FileMap
  {
    files[tmp := File([], if tmp in files then files[tmp].mode else CreateMode)]
  }

  /** The read loop of a started copy. */
  function Streaming(files: FileMap, srcDir: string, e: Entry, env: Env): Streamed
    requires Started(files, srcDir, e, env)
  {
    Stream(files[SourcePath(srcDir, e.name)].data, 0, env.io, 0)
  }

  /** `copyFile`: open the source, create `DestDir + "." + name`, stream the
      bytes into it, rename it to `DestDir + name`, give that the entry's
      mode. Each failure returns false after its own cleanup. */
  function Copy(files: FileMap, srcDir: string, destDir: string, e: Entry, env: Env): Copied
  {
    var tmp := TempPath(destDir, e.name);
    var dst := FinalPath(destDir, e.name);
    if !env.openOk || SourcePath(srcDir, e.name) !in files then Copied(false, files)
    else if !env.createOk then Copied(false, files)
    else
      var s := Streaming(files, srcDir, e, env);
      var created := Created(files, tmp);
      var filled := created[tmp := File(s.written, created[tmp].mode)];
      if !s.eof then Copied(false, RemoveIf(filled, tmp, env.removeOk))
      else if !env.renameOk then Copied(false, RemoveIf(filled, tmp, env.removeOk))
      else
        var renamed := (filled - {tmp})[dst := filled[tmp]];
        if !env.chmodOk then Copied(false, RemoveIf(renamed, dst, env.removeOk))
        else Copied(true, renamed[dst := File(s.written, e.mode)])
  }

  /** Success: the copy returns true exactly when every step got through, and
      then the final path holds the bytes the loop wrote, which are all the
      bytes of the source, with the entry's mode; the temporary file is gone
      and nothing else changed. */
  lemma CopySucceeds(files: FileMap, srcDir: string, destDir: string, e: Entry, env: Env)
    ensures var c := Copy(files, srcDir, destDir, e, env);
      c.ok <==> Started(files, srcDir, e, env) && Streaming(files, srcDir, e, env).eof
                && env.renameOk && env.chmodOk
    ensures var c := Copy(files, srcDir, destDir, e, env);
      c.ok ==>
        var s := Streaming(files, srcDir, e, env);
        s.read == files[SourcePath(srcDir, e.name)].data &&
        c.files == (files - {TempPath(destDir, e.name)})[FinalPath(destDir, e.name) := File(s.written, e.mode)]
  {
    if Started(files, srcDir, e, env) {
      var data := files[SourcePath(srcDir, e.name)].data;
      StreamReadsSource(data, 0, env.io, 0);
      assert data[0..] == data;
    }
  }

  /** A failed `os.Open` or `os.Create` returns false and changes nothing. */
  lemma CopyFailsBeforeStart(files: FileMap, srcDir: string, destDir: string, e: Entry, env: Env)
    requires !Started(files, srcDir, e, env)
    ensures Copy(files, srcDir, destDir, e, env) == Copied(false, files)
  {
  }

  /** A read error returns false, leaves the final path as it was and removes
      the temporary file (when `os.Remove` succeeds). */
  lemma CopyReadFails(files: FileMap, srcDir: string, destDir: string, e: Entry, env: Env)
    requires Started(files, srcDir, e, env) && !Streaming(files, srcDir, e, env).eof
    ensures var c := Copy(files, srcDir, destDir, e, env);
      !c.ok &&
      AgreeOn(files, c.files, {FinalPath(destDir, e.name)}) &&
      (env.removeOk ==> TempPath(destDir, e.name) !in c.files)
  {
  }

  /** A failed rename returns false, leaves the final path as it was and
      removes the temporary file (when `os.Remove` succeeds). */
  lemma CopyRenameFails(files: FileMap, srcDir: string, destDir: string, e: Entry, env: Env)
    requires Started(files, srcDir, e, env) && Streaming(files, srcDir, e, env).eof
    requires !env.renameOk
    ensures var c := Copy(files, srcDir, destDir, e, env);
      !c.ok &&
      AgreeOn(files, c.files, {FinalPath(destDir, e.name)}) &&
      (env.removeOk ==> TempPath(destDir, e.name) !in c.files)
  {
  }

  /** A failed chmod returns false after the rename: the temporary file is
      gone and the final path is removed (when `os.Remove` succeeds), or else
      holds the copied bytes with the temporary file's mode. */
  lemma CopyChmodFails(files: FileMap, srcDir: string, destDir: string, e: Entry, env: Env)
    requires Started(files, srcDir, e, env) && Streaming(files, srcDir, e, env).eof
    requires env.renameOk && !env.chmodOk
    ensures var c := Copy(files, srcDir, destDir, e, env);
      var tmp := TempPath(destDir, e.name);
      var dst := FinalPath(destDir, e.name);
      !c.ok && tmp !in c.files &&
      (env.removeOk ==> dst !in c.files) &&
      (!env.removeOk ==> c.files[dst] == File(Streaming(files, srcDir, e, env).written, Created(files, tmp)[tmp].mode))
  {
  }

  /** The final path changes only through the rename (and the removal after a
      failed chmod, which follows it): when the copy stops earlier the final
      path is untouched. Every other path than the two the copy names keeps
      its file. */
  lemma CopyTouchesOnlyItsPaths(files: FileMap, srcDir: string, destDir: string, e: Entry, env: Env)
    ensures var c := Copy(files, srcDir, destDir, e, env);
      ChangedOnlyAt(files, c.files, {TempPath(destDir, e.name), FinalPath(destDir, e.name)})
    ensures var c := Copy(files, srcDir, destDir, e, env);
      !AgreeOn(files, c.files, {FinalPath(destDir, e.name)}) ==>
        Started(files, srcDir, e, env) && Streaming(files, srcDir, e, env).eof && env.renameOk
  {
  }

  /** When `os.Remove` succeeds, a copy that got past `os.Create` leaves no
      temporary file, whichever step it stopped at. */
  lemma CopyCleansUp(files: FileMap, srcDir: string, destDir: string, e: Entry, env: Env)
    requires env.removeOk && Started(files, srcDir, e, env)
    ensures TempPath(destDir, e.name) !in Copy(files, srcDir, destDir, e, env).files
  {
  }

  /** Because the error of the cleanup `os.Remove` is ignored, a copy whose
      first read fails and whose removal fails returns false with the hidden
      temporary file still in the destination. */
  lemma FailedRemoveLeavesTempFile(io: nat -> IoStep)
    requires io(0) == ReadFails
    ensures var files := map["src/a" := File([7], Mode(0x1A4))];
      var c := Copy(files, "src/", "dst/", Entry("a", false, Mode(0x1A4)), Env(true, true, io, true, true, false));
      !c.ok && "dst/.a" in c.files && c.files["dst/.a"].data == []
  {
    assert Stream([7], 0, io, 0) == Streamed(false, [], []);
    assert SourcePath("src/", "a") == "src/a";
    assert TempPath("dst/", "a") == "dst/.a";
  }

  /** Because `dfile.Write`'s error is ignored, a copy whose writes store
      nothing still reports success, and the final file is then empty while
      the source is not. */
  lemma IgnoredWriteErrorStillSucceeds(io: nat -> IoStep)
    requires forall k :: io(k) == Transfer(1, 0)
    ensures var files := map["src/a" := File([7], Mode(0x1A4))];
      var c := Copy(files, "src/", "dst/", Entry("a", false, Mode(0x1A4)), Env(true, true, io, true, true, true));
      c.ok && "dst/a" in c.files && c.files["dst/a"].data == [] != files["src/a"].data
  {
    assert Stream([7], 1, io, 1) == Streamed(true, [], []);
    assert [7][0..1] == [7];
    assert Stream([7], 0, io, 0) == Streamed(true, [7], []);
    assert SourcePath("src/", "a") == "src/a";
    assert FinalPath("dst/", "a") == "dst/a";
  }

  /** No primitive fails and no write falls short. */
  ghost predicate Faultless(env: Env)
  {
    env.openOk && env.createOk && ReadsSucceed(env.io) && WritesComplete(env.io)
    && env.renameOk && env.chmodOk
  }

  /** A fault-free copy of an existing source puts a byte-exact copy with the
      entry's mode at the final path and leaves no temporary file. */
  lemma CopyFaultless(files: FileMap, srcDir: string, destDir: string, e: Entry, env: Env)
    requires Faultless(env) && SourcePath(srcDir, e.name) in files
    ensures Copy(files, srcDir, destDir, e, env) ==
      Copied(true, (files - {TempPath(destDir, e.name)})
                   [FinalPath(destDir, e.name) := File(files[SourcePath(srcDir, e.name)].data, e.mode)])
  {
    var data := files[SourcePath(srcDir, e.name)].data;
    StreamReachesEof(data, 0, env.io, 0);
    StreamWritesWhatItReads(data, 0, env.io, 0);
    StreamReadsSource(data, 0, env.io, 0);
    assert data[0..] == data;
  }

  /** What a copy does depends only on the three paths it names. */
  lemma CopyIsLocal(f: FileMap, g: FileMap, srcDir: string, destDir: string, e: Entry, env: Env)
    requires AgreeOn(f, g, {SourcePath(srcDir, e.name), TempPath(destDir, e.name), FinalPath(destDir, e.name)})
    ensures Copy(f, srcDir, destDir, e, env).ok == Copy(g, srcDir, destDir, e, env).ok
    ensures AgreeOn(Copy(f, srcDir, destDir, e, env).files, Copy(g, srcDir, destDir, e, env).files,
                    {TempPath(destDir, e.name), FinalPath(destDir, e.name)})
  {
    var src := SourcePath(srcDir, e.name);
    var tmp := TempPath(destDir, e.name);
    assert src in f <==> src in g;
    assert tmp in f <==> tmp in g;
    if src in f {
      assert f[src] == g[src];
    }
    if tmp in f {
      assert f[tmp] == g[tmp];
    }
  }
}
