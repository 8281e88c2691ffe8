# Glogging archiver, modelled in Dafny

Glogging copies every non-directory, non-hidden entry of a source directory
into a destination directory. A dispatcher feeds the directory listing to a pool of
workers over a channel. Each worker copies one file at a time through a
temporary file `DestDir + "." + name`, which it renames to `DestDir + name`
and then gives the source entry's permission bits.

The model runs over an abstract filesystem: a map from full path to a file
(bytes and an opaque mode). Every primitive the program calls can succeed or
fail. That outcome is an input, an `Env` value per `copyFile` call. The
directory listing and the `os.Stat` results are inputs too.

- `Paths`: the trailing-separator normalisation, `isHidden`, and the three
  paths a copy derives. Also why these paths never collide for different
  visible names.
- `Validation`: the ordered checks of `main` and their exit codes (1, 64, 2).
- `Dispatch`: the filter the dispatch loop applies, the channel (as a class
  holding the pending entries and a closed flag), and the dispatch loop
  itself.
- `CopySpec`: `copyFile` as a function of the filesystem and the outcomes
  (`Copy`), its read/write loop (`Stream`), and lemmas for each branch of the
  protocol.
- `WorkerSpec`: a worker's drain of the channel (`Drain`), what it may touch,
  that two adjacent copies of different names can trade places without
  changing the result, and that a second fault-free drain changes nothing.
- `Archive`: the class `FileSystem`. It holds the map; `CopyFile`,
  `ArchiveFiles` and `Run` are imperative methods proved equal to the
  functions above.
- `RunProperties`: what a whole run guarantees about dispatched files,
  subdirectories and hidden files.

The model keeps these behaviours of the code, which an atomic copier would
not be expected to have:

- `dfile.Write`'s error is ignored (glogging.go:166). A copy whose writes fall
  short still renames and reports success, with a final file that differs
  from the source (`IgnoredWriteErrorStillSucceeds`). The byte-exact result
  holds only when every write stores its whole chunk (`CopyFaultless`).
- The "source and destination cannot match" test compares the raw argument
  strings before the separators are appended (glogging.go:55 against 78-83).
  So `d` and `d/` pass it and normalise to the same directory
  (`RawComparisonLetsSameDirectoryThrough`).
- The concurrency level is not checked. With fewer than one worker, the
  dispatcher's first send on the unbuffered channel is never received. The
  model reports this as the `Deadlocked` outcome (the Go runtime aborts the
  process).
- Every `os.Remove` error is ignored (glogging.go:162, 171, 176), so a
  failure path does not always clean up. A failed removal after a read or
  rename error leaves the hidden temporary file in the destination
  (`FailedRemoveLeavesTempFile`). After a failed chmod it leaves the final
  file with the temporary file's mode (`CopyChmodFails`). Cleanup is
  complete only when the removal succeeds (`CopyCleansUp`).
- A failed chmod loses a file that was already at `DestDir + name`: the
  rename (glogging.go:169) replaced it, and when the cleanup removal
  (glogging.go:176) succeeds the final path is left empty, so the
  destination does not keep its prior state (`CopyChmodFails`).
  When validation let `d` and `d/` through, the final path is the source
  file itself, so a failed chmod followed by a successful removal deletes
  the source (`CopyChmodFails`).
- Once `os.Create` succeeds, a pre-existing `DestDir + "." + name` is
  truncated and never restored. The rename moves it to the final path.
  After a read or rename error it is removed, or left holding the bytes
  written so far when that removal fails. `os.Create` keeps that file's mode
  (it opens with truncation); a new file is requested with mode 0666, before
  the umask.

## Model

| member | source | states |
|---|---|---|
| Paths.WithSeparator | glogging.go:78-83 | the result ends with the separator, extends the path by at most that one character, and equals the path exactly when the path already ended with it |
| Paths.WithSeparatorIdempotent | glogging.go:78-83 | normalising twice gives the same path as normalising once |
| Paths.IsHidden | glogging.go:117-123 | a name is hidden exactly when it is non-empty and starts with "." |
| Paths.SourcePath | glogging.go:138 | the file a copy opens, `SrcDir + name`; `PathsApart` states how it relates to the other two paths |
| Paths.FinalPath | glogging.go:140 | the file a copy renames onto, `DestDir + name`; `PathsApart` states that it determines the name |
| Paths.TempPath | glogging.go:138-140 | the temporary path is one character longer than the final path, so it never equals it |
| Paths.PathsApart | glogging.go:138-140 | for separator-terminated directories and two visible names without separators: final and temporary paths determine the name; no temporary path is another entry's final path; no source path is a temporary path; a source path equals a final path only for the same name in the same directory string |
| Validation.Validate | glogging.go:39-83 | exit 1 exactly when src or dest is empty; exit 64 exactly when they are equal raw strings, the src stat fails, or the src is a directory and the dest stat fails; exit 2 exactly when src is not a directory, or it is one and dest is not; otherwise both paths are accepted as `WithSeparator(src)` and `WithSeparator(dest)`, each ending with the separator |
| Validation.AcceptedPathsAreNormal | glogging.go:78-83 | accepted paths are left unchanged by a second normalisation |
| Validation.RawComparisonLetsSameDirectoryThrough | glogging.go:55-83 | `d` and `d/` (both directories) pass validation and normalise to the same path |
| Dispatch.Dispatched | glogging.go:101-106 | the per-entry test of the dispatch loop; `Eligible` states what it selects |
| Dispatch.Eligible | glogging.go:100-110 | an entry is dispatched exactly when it is listed, is not a directory and is not hidden |
| Dispatch.EligibleAppend | glogging.go:100-110 | filtering a concatenated listing is the concatenation of the filtered parts, so listing order is kept |
| Dispatch.EligibleDistinct | glogging.go:95-110 | dispatched entries have distinct names when the listing does |
| Dispatch.Channel.constructor | glogging.go:88 | a new channel is open and empty |
| Dispatch.Channel.Send | glogging.go:107 | sending on an open channel appends the entry to the pending ones |
| Dispatch.Channel.Close | glogging.go:112 | closing keeps the pending entries and marks the channel closed |
| Dispatch.Channel.Receive | glogging.go:129-132 | a receive yields the oldest pending entry, or reports no more once the channel is closed and drained |
| Dispatch.DispatchEntries | glogging.go:100-112 | the channel receives exactly the eligible entries in listing order and is then closed |
| CopySpec.Stream | glogging.go:152-167 | the read/write loop as a function of the source bytes and the outcome of each read and write; its meaning is stated by the three lemmas below |
| CopySpec.StreamReadsSource | glogging.go:152-167 | the chunks read are consecutive bytes of the source; at EOF they are the whole rest of it; the temporary file never receives more than was read |
| CopySpec.StreamReachesEof | glogging.go:153-159 | without read errors the read loop always ends at EOF |
| CopySpec.StreamWritesWhatItReads | glogging.go:165-166 | when every write stores its whole chunk, the temporary file receives exactly the bytes read |
| CopySpec.Created | glogging.go:147 | the filesystem after `os.Create`: an empty temporary file, keeping an existing file's mode, else 0666 |
| CopySpec.Copy | glogging.go:137-180 | `copyFile` as a function of the filesystem and the outcomes of its calls; its meaning is stated by the lemmas below |
| CopySpec.CopySucceeds | glogging.go:137-180 | a copy returns true exactly when open, create, every read, rename and chmod succeed; the final path then holds what the loop wrote, with the entry's mode; all source bytes were read; the temporary path is gone and no other path changed |
| CopySpec.CopyFailsBeforeStart | glogging.go:141-150 | a failed open (or a missing source) or a failed create returns false with the filesystem unchanged |
| CopySpec.CopyReadFails | glogging.go:155-164 | a read error returns false, leaves the final path as it was, and removes the temporary file when the removal succeeds |
| CopySpec.CopyRenameFails | glogging.go:169-173 | a failed rename returns false, leaves the final path as it was, and removes the temporary file when the removal succeeds |
| CopySpec.CopyChmodFails | glogging.go:174-178 | a failed chmod returns false with the temporary file gone; the final path is removed when the removal succeeds, else it holds the copied bytes with the temporary file's mode |
| CopySpec.CopyTouchesOnlyItsPaths | glogging.go:137-180 | a copy changes only its temporary and final paths; the final path changes only when the copy reached the rename |
| CopySpec.CopyCleansUp | glogging.go:155-178 | when `os.Remove` succeeds, a copy that got past `os.Create` leaves no temporary file, whichever step it stopped at |
| CopySpec.FailedRemoveLeavesTempFile | glogging.go:160-163 | because the removal's error is ignored, a read error followed by a failed removal returns false with the empty hidden file `DestDir + "." + name` left behind |
| CopySpec.IgnoredWriteErrorStillSucceeds | glogging.go:165-166 | a copy whose writes store nothing still returns true, leaving an empty final file for a non-empty source |
| CopySpec.CopyFaultless | glogging.go:137-180 | with no fault and an existing source, the copy returns true; the final path holds the source's bytes with the entry's mode, and no temporary file remains |
| CopySpec.CopyIsLocal | glogging.go:137-180 | a copy's result and its effect on its two paths depend only on its source, temporary and final paths |
| WorkerSpec.Drain | glogging.go:126-135 | one worker's loop as a function: `copyFile` on each received entry in order, its result discarded; its meaning is stated by the lemmas below |
| WorkerSpec.InTargets | glogging.go:138-140 | a path is among a queue's targets exactly when it is the temporary or final path of one of its entries |
| WorkerSpec.DrainTouchesOnlyTargets | glogging.go:126-135 | draining changes no path other than the temporary and final paths of the drained entries |
| WorkerSpec.DrainCopiesFaultlessEntries | glogging.go:126-135 | after the drain, every entry whose own copy met no fault has a byte-exact copy with its mode and no temporary file, whatever the other copies did |
| WorkerSpec.DrainWithoutCreateChangesNothing | glogging.go:147-150 | when every create fails, the drain leaves the filesystem unchanged |
| WorkerSpec.CopiesCommute | glogging.go:88-93 | copies of two different visible names return the same results and leave the same filesystem in either order |
| WorkerSpec.DrainKeepsAbsent | glogging.go:126-135 | when every removal succeeds, a path that is no queued entry's final path and is absent before the drain is absent after it |
| WorkerSpec.DrainAppend | glogging.go:128-134 | draining two queues one after the other is draining their concatenation |
| WorkerSpec.DrainSameOutcomes | glogging.go:126-135 | a drain depends only on the outcomes of the copies it makes |
| WorkerSpec.DrainSwapAdjacent | glogging.go:90-93 | two adjacent copies of different visible names, each with its own outcomes, can trade places and the drain leaves the same filesystem |
| WorkerSpec.DrainKeepsSourceData | glogging.go:138-141 | a fault-free drain keeps the bytes of every queued source, also when both directories are the same |
| WorkerSpec.DrainAgainAt | glogging.go:126-135 | after two fault-free drains of one queue, each entry's final path holds what the first put there and no temporary file remains |
| WorkerSpec.DrainTwiceIsDrainOnce | glogging.go:126-135 | a second fault-free drain of the same queue leaves the filesystem exactly as the first left it |
| Archive.FileSystem.Create | glogging.go:147 | a successful create leaves an empty file at the path, keeping an existing file's mode |
| Archive.FileSystem.Append | glogging.go:166 | a write appends the bytes to the file |
| Archive.FileSystem.Rename | glogging.go:169 | a successful rename moves the file, replacing the target |
| Archive.FileSystem.Chmod | glogging.go:174 | a successful chmod sets the mode and keeps the bytes |
| Archive.FileSystem.Remove | glogging.go:162 | a successful removal deletes the path; a failed one changes nothing |
| Archive.FileSystem.CopyChunks | glogging.go:152-167 | the loop ends at EOF or at a read error as `Stream` says, having appended exactly the written bytes to the temporary file |
| Archive.FileSystem.CopyFile | glogging.go:137-180 | the returned flag and the new filesystem are those `Copy` gives for the old filesystem |
| Archive.FileSystem.ArchiveFiles | glogging.go:126-135 | the worker hands every pending entry to `copyFile` once, in order; it stops only when the channel is closed and drained; the filesystem is then `Drain` of the old one |
| Archive.FileSystem.Run | glogging.go:39-115 | a validation exit code, or 64 when the listing fails, or a deadlock with no worker and work to do, leaves the filesystem unchanged; otherwise the run exits 0 after draining the eligible entries |
| RunProperties.EligibleIsCopyable | glogging.go:100-110 | the dispatched entries of a listing have distinct, visible, separator-free names |
| RunProperties.RunCopiesEligibleFile | glogging.go:95-135 | every dispatched file whose copy meets no fault ends up byte-exact with the listed mode at its final path, with no temporary file |
| RunProperties.RunSkipsDirectories | glogging.go:100-103 | a listed subdirectory with a visible name: that name in the destination is left as it was, whatever the copies do |
| RunProperties.RunSkipsHiddenFiles | glogging.go:104-106 | a hidden name absent from the destination stays absent after any run in which every cleanup removal succeeds, whatever else fails |
| RunProperties.RunTwiceIsRunOnce | glogging.go:95-135 | a second run over the same listing, fault-free like the first, leaves the destination as the first run left it |

## Left out

- Goroutines, the unbuffered channel's blocking, and `sync.WaitGroup` (glogging.go:88-93, 112-113, 127). One worker drains the channel after dispatch. `DrainSwapAdjacent` shows that two adjacent whole copies of different names can be reordered. Interleavings inside one copy are not modelled, and no single lemma states that an arbitrary reordering of the queue gives the same result (it follows from repeated adjacent swaps, but is not stated).
- Dispatch.Channel.Receive: requires a closed or non-empty channel, because a receive that blocks forever has no sequential meaning.
- The number of workers: beyond the zero-worker deadlock, the concurrency level does not change the result, so the model does not split the queue between workers.
- Flag registration and parsing, `flag.Usage`'s exit 64 on a malformed command line, the global `config`, and `init` (glogging.go:20-37). The model takes the src and dest strings and the concurrency level as inputs.
- The real system calls. `os.Stat` is a function from path to `Stat`. `ioutil.ReadDir` is a given listing (its sorting is not modelled). The model does not relate these to the file map, which holds regular files only.
- The 4096000-byte buffer (glogging.go:152). A read yields any non-empty prefix of what is left, and each read's size is part of `Env`.
- Printing, the deferred and explicit `Close` calls and their errors, and `os.Exit` as process termination. The exit code is returned as a value.
- The Go runtime's exit status on deadlock. It is reported as `Deadlocked`, not as a number.
- Path canonicalisation. The map is keyed by path strings, so `d//a` and `d/a`, `./d/` and `d/`, or a directory reached through a symlink are different keys, and each such pair passes the raw comparison of glogging.go:55. Only the `d` against `d/` form is modelled (`RawComparisonLetsSameDirectoryThrough`); "the same directory" elsewhere in the model means the same string.
- The path separator. The model fixes `os.PathSeparator` to `/`, the POSIX separator; on Windows it is `\`.
- Non-regular files. The dispatch test is only "not a directory and not hidden", so FIFOs, devices and sockets are dispatched too, and opening or reading them can block or never reach EOF. The model holds regular files only; any path outside the map is a failed open.
- The umask applied to the 0666 of `os.Create`: `CreateMode` is the requested mode.
- Symlinks, subdirectory recursion, cross-device renames and permission semantics. Each is just an outcome in `Env`, and a mode is an opaque number.
