/** Temp file, fsync, rename (crates/snapshot/src/atomic.rs). */
module Atomic {
  import opened Outcomes
  import opened Disk

  const TEMP_SUFFIX: string := ".tmp"

  function TempPath(dest: Path): (p: Path)
    ensures p != dest
  {
    assert |dest + TEMP_SUFFIX| > |dest|;
    dest + TEMP_SUFFIX
  }

  lemma TempPathsDiffer(a: Path, b: Path)
    requires a != b
    ensures TempPath(a) != TempPath(b)
  {
    assert TempPath(a)[..|TempPath(a)| - 4] == a;
    assert TempPath(b)[..|TempPath(b)| - 4] == b;
  }

  /** Unlinks its path when dropped, unless disarmed first. */
  class UnlinkOnDrop {
    var path: Option<Path>

    constructor (path: Path)
      ensures this.path == Some(path)
    {
      this.path := Some(path);
    }

    method Disarm()
      modifies this
      ensures path == None
    {
      path := None;
    }

    method Drop(fs: FileSystem)
      requires fs.Valid()
      modifies this, fs
      ensures fs.Valid() && path == None
      ensures old(path).None? ==> fs.files == old(fs.files) && fs.history == old(fs.history)
                                  && fs.unlinkFailed == old(fs.unlinkFailed)
      ensures old(path).Some? ==> Dropped(old(fs.files), fs.files, old(path).value)
                                  && fs.history == old(fs.history) + [fs.files]
      ensures !fs.unlinkFailed ==> !old(fs.unlinkFailed)
      ensures old(path).Some? && !fs.unlinkFailed ==> old(path).value !in fs.files
    {
      if path.Some? {
        fs.Unlink(path.value);
      }
      path := None;
    }
  }

  /** The path has been removed, or (the unlink failed) nothing changed. */
  ghost predicate Dropped(before: Files, after: Files, path: Path) {
    after == before || after == before - {path}
  }

  /** What a successful commit makes of the disk. */
  function Committed(files: Files, temp: Path, dest: Path): Files
    requires temp in files
  {
    (files - {temp})[dest := files[temp]]
  }

  class AtomicWriter {
    const fs: FileSystem
    const file: File
    const tempPath: Path
    const destPath: Path
    const guard: UnlinkOnDrop

    /** Opened and not yet committed or dropped. */
    ghost predicate Armed()
      reads this, fs, file, guard
    {
      && file.fs == fs && file.path == tempPath && tempPath == TempPath(destPath)
      && guard.path == Some(tempPath)
      && file.Open()
    }

    constructor Over(fs: FileSystem, file: File, dest: Path, guard: UnlinkOnDrop)
      ensures this.fs == fs && this.file == file && this.guard == guard
      ensures tempPath == TempPath(dest) && destPath == dest
    {
      this.fs, this.file, this.guard := fs, file, guard;
      tempPath, destPath := TempPath(dest), dest;
    }

    static method Open(fs: FileSystem, dest: Path) returns (r: Result<AtomicWriter>)
      requires fs.Valid()
      modifies fs
      ensures fs.Valid() && fs.unlinkFailed == old(fs.unlinkFailed)
      ensures old(fs.history) <= fs.history
      ensures OnlyTouched(fs.history, |old(fs.history)|, old(fs.files), {TempPath(dest)})
      ensures r.Err? ==> fs.files == old(fs.files) && r.error in {Io, AtomicCommitCrossFs}
      ensures r.Ok? ==> fs.files == old(fs.files)[TempPath(dest) := []]
      ensures r.Ok? ==> fresh(r.value) && fresh(r.value.file) && fresh(r.value.guard)
      ensures r.Ok? ==> r.value.fs == fs && r.value.destPath == dest && r.value.Armed() && r.value.file.pos == 0
    {
      var temp := TempPath(dest);
      var same := fs.CheckSameFilesystem(dest, temp);
      if same.Err? {
        return Err(same.error);
      }
      var ok := fs.Create(temp);
      if !ok {
        return Err(Io);
      }
      var file := new File(fs, temp);
      var guard := new UnlinkOnDrop(temp);
      var w := new AtomicWriter.Over(fs, file, dest, guard);
      return Ok(w);
    }

    /** Leaving scope without a commit: the guard removes the temp file. */
    method Drop()
      requires Armed()
      modifies fs, guard
      ensures fs.Valid() && Dropped(old(fs.files), fs.files, tempPath)
      ensures fs.history == old(fs.history) + [fs.files]
      ensures !fs.unlinkFailed ==> !old(fs.unlinkFailed) && tempPath !in fs.files
    {
      guard.Drop(fs);
    }

    /**
     Fsync and rename.  The destination changes in one recorded step, from what it was to the
     whole staged content; on any error it is untouched and the temp file is unlinked.
     */
    method Commit() returns (r: Result<()>)
      requires Armed()
      modifies fs, guard
      ensures fs.Valid()
      ensures old(fs.history) <= fs.history
      ensures forall i :: |old(fs.history)| <= i < |fs.history| ==>
                SameExcept(fs.history[i], old(fs.files), {tempPath}) ||
                fs.history[i] == Committed(old(fs.files), tempPath, destPath)
      ensures r.Ok? ==> fs.files == Committed(old(fs.files), tempPath, destPath)
                        && fs.unlinkFailed == old(fs.unlinkFailed)
      ensures r.Ok? ==> fs.history == old(fs.history) + [old(fs.files), fs.files]
      ensures r.Err? ==> Dropped(old(fs.files), fs.files, tempPath) && r.error in {Io, AtomicCommitFailed}
      ensures r.Err? ==> OnlyTouched(fs.history, |old(fs.history)|, old(fs.files), {tempPath})
      ensures r.Err? && !fs.unlinkFailed ==> !old(fs.unlinkFailed) && tempPath !in fs.files
    {
      var ok := fs.Sync(tempPath);
      if !ok {
        guard.Drop(fs);
        return Err(Io);
      }
      ok := fs.Rename(tempPath, destPath);
      if ok {
        guard.Disarm();
        guard.Drop(fs);
        return Ok(());
      } else {
        guard.Drop(fs);
        return Err(AtomicCommitFailed);
      }
    }
  }
}
