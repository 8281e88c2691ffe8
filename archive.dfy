/** The program itself, run sequentially over the abstract filesystem:
    `copyFile`, a worker's `archiveFiles` loop, and `main`. */
module Archive {
  import opened Files
  import opened Paths
  import opened Validation
  import opened Dispatch
  import opened CopySpec
  import opened WorkerSpec

  /** How the process ends: an exit code, or the Go runtime's abort when the
      dispatcher's send can never be received. */
  datatype Outcome = Exited(code: int) | Deadlocked

  class FileSystem {
    var files: FileMap

    constructor (initial: FileMap)
      ensures files == initial
    {
      files := initial;
    }

    /** A successful `os.Create`: an empty file, keeping the mode of a file
        that was already there. */
    method Create(path: string)
      modifies this
      ensures files == Created(old(files), path)
    {
      files := Created(files, path);
    }

    /** A `Write` on the file `os.Create` opened: the bytes go at its end. */
    method Append(path: string, bytes: seq<byte>)
      requires path in files
      modifies this
      ensures files == old(files)[path := File(old(files)[path].data + bytes, old(files)[path].mode)]
    {
      files := files[path := File(files[path].data + bytes, files[path].mode)];
    }

    /** A successful `os.Rename`: the file moves, replacing whatever was at
        `to`. */
    method Rename(from: string, to: string)
      requires from in files
      modifies this
      ensures files == (old(files) - {from})[to := old(files)[from]]
    {
      files := (files - {from})[to := files[from]];
    }

    /** A successful `os.Chmod`. */
    method Chmod(path: string, mode: Mode)
      requires path in files
      modifies this
      ensures files == old(files)[path := File(old(files)[path].data, mode)]
    {
      files := files[path := File(files[path].data, mode)];
    }

    /** `os.Remove`, whose error every caller ignores; `ok` says whether it
        succeeded. */
    method Remove(path: string, ok: bool)
      modifies this
      ensures files == RemoveIf(old(files), path, ok)
    {
      if ok {
        files := files - {path};
      }
    }

    /** The `for` loop of `copyFile`: read the next chunk of the source
        (`content`, which `ifile` delivers), write it to the temporary file,
        until `io.EOF` (`eof` is true) or a read error (`eof` is false). The
        result of each write is ignored. */
    method CopyChunks(tempDestPath: string, content: seq<byte>, io: nat -> IoStep) returns (eof: bool)
      requires tempDestPath in files
      modifies this
      ensures var s := Stream(content, 0, io, 0);
        eof == s.eof &&
        files == old(files)[tempDestPath := File(old(files)[tempDestPath].data + s.written, old(files)[tempDestPath].mode)]
    {
      ghost var start := files[tempDestPath];
      ghost var s := Stream(content, 0, io, 0);
      var pos, k := 0, 0;
      ghost var written: seq<byte> := [];
      assert start.data + written == start.data;
      while true
        invariant pos <= |content|
        invariant files == old(files)[tempDestPath := File(start.data + written, start.mode)]
        invariant s.eof == Stream(content, pos, io, k).eof
        invariant s.written == written + Stream(content, pos, io, k).written
        decreases |content| - pos
      {
        match io(k)
        case ReadFails =>
          assert written + [] == written;
          return false;
        case Transfer(want, lands) =>
          if pos == |content| {
            assert written + [] == written;
            return true;
          }
          var n := Min(want, |content| - pos);
          var data := content[pos..pos + n];
          var landed := data[..Min(lands, n)];
          Append(tempDestPath, landed);
          ghost var rest := Stream(content, pos + n, io, k + 1).written;
          assert written + (landed + rest) == (written + landed) + rest;
          assert start.data + written + landed == start.data + (written + landed);
          written := written + landed;
          pos, k := pos + n, k + 1;
      }
    }

    /** `copyFile`: the outcome of each primitive comes from `env`. */
    method CopyFile(srcDir: string, destDir: string, file: Entry, env: Env) returns (ok: bool)
      modifies this
      ensures Copied(ok, files) == Copy(old(files), srcDir, destDir, file, env)
    {
      var fullpath := SourcePath(srcDir, file.name);
      var tempDestPath := TempPath(destDir, file.name);
      var destPath := FinalPath(destDir, file.name);
      if !env.openOk || fullpath !in files {
        return false;
      }
      var content := files[fullpath].data;
      if !env.createOk {
        return false;
      }
      Create(tempDestPath);
      ghost var created := files;
      var eof := CopyChunks(tempDestPath, content, env.io);
      ghost var s := Streaming(old(files), srcDir, file, env);
      assert [] + s.written == s.written;
      assert files == created[tempDestPath := File(s.written, created[tempDestPath].mode)];
      if !eof {
        Remove(tempDestPath, env.removeOk);
        return false;
      }
      if !env.renameOk {
        Remove(tempDestPath, env.removeOk);
        return false;
      }
      Rename(tempDestPath, destPath);
      if !env.chmodOk {
        Remove(destPath, env.removeOk);
        return false;
      }
      Chmod(destPath, file.mode);
      ok := true;
    }

    /** A worker (`archiveFiles`): receive entries until the channel is
        closed and drained, calling `copyFile` once for each and discarding
        its result. The k-th copy runs under `envs(k)`; `copied` records the
        entries handed to `copyFile`, in order. */
    method ArchiveFiles(ch: Channel, srcDir: string, destDir: string, envs: nat -> Env)
      returns (ghost copied: seq<Entry>)
      requires ch.closed
      modifies this, ch
      ensures copied == old(ch.pending)
      ensures files == Drain(old(files), srcDir, destDir, old(ch.pending), envs, 0)
      ensures ch.pending == [] && ch.closed
    {
      var k := 0;
      copied := [];
      while true
        invariant ch.closed
        invariant old(ch.pending) == copied + ch.pending && k == |copied|
        invariant Drain(old(files), srcDir, destDir, old(ch.pending), envs, 0)
               == Drain(files, srcDir, destDir, ch.pending, envs, k)
        decreases |ch.pending|
      {
        var file, more := ch.Receive();
        if !more {
          return;
        }
        var _ := CopyFile(srcDir, destDir, file, envs(k));
        copied := copied + [file];
        k := k + 1;
      }
    }

    /** `main` after flag parsing: validate and normalise the directories,
        list the source directory (`listing`, `None` when `ReadDir` fails),
        dispatch the eligible entries and let the workers drain them. With
        fewer than one worker, the first send is never received. */
    method Run(src: string, dest: string, concurrency: int, stat: string -> Stat,
               listing: Option<seq<Entry>>, envs: nat -> Env) returns (outcome: Outcome)
      modifies this
      ensures var v := Validate(src, dest, stat);
        if v.Exit? then outcome == Exited(v.code) && files == old(files)
        else if listing.None? then outcome == Exited(64) && files == old(files)
        else if concurrency < 1 && Eligible(listing.value) != [] then outcome == Deadlocked && files == old(files)
        else outcome == Exited(0) &&
             files == Drain(old(files), v.srcDir, v.destDir, Eligible(listing.value), envs, 0)
    {
      var v := Validate(src, dest, stat);
      if v.Exit? {
        return Exited(v.code);
      }
      var srcDir, destDir := v.srcDir, v.destDir;
      var filechannel := new Channel();
      if listing.None? {
        return Exited(64);
      }
      var fileinfos := listing.value;
      DispatchEntries(fileinfos, filechannel);
      assert filechannel.pending == Eligible(fileinfos) by {
        assert [] + Eligible(fileinfos) == Eligible(fileinfos);
      }
      if concurrency < 1 && filechannel.pending != [] {
        return Deadlocked;
      }
      var _ := ArchiveFiles(filechannel, srcDir, destDir, envs);
      return Exited(0);
    }
  }
}
