/**
 Saving a snapshot pair (crates/snapshot/src/save.rs): stage both files, then commit the state
 file and after it the memory file.
 */
module Save {
  import opened Words
  import opened Outcomes
  import opened Disk
  import opened Bitmap
  import opened Atomic
  import opened Envelope
  import opened Memory

  datatype Kind = Full | Diff

  /** The parts of the saved VM state that saving inspects; `rest` is everything else. */
  datatype VmState<D> = VmState(trackDirtyPages: bool, smt: bool, vcpus: nat, gicBytes: nat, gicLen: nat, rest: D) {
    predicate Compatible() {
      1 <= vcpus <= 32 && !smt && gicBytes > 0 && gicLen == gicBytes
    }
  }

  datatype Report = Report(kind: Kind, pagesWritten: nat)

  /** The two destinations and their temp files are four different names. */
  ghost predicate DistinctPaths(statePath: Path, memoryPath: Path) {
    && statePath != memoryPath
    && statePath != TempPath(memoryPath)
    && memoryPath != TempPath(statePath)
  }

  /** The bytes the new memory file must hold. */
  ghost function MemoryImage(kind: Kind, ram: seq<Byte>, ramSize: nat, dirty: DirtyBitmap?): seq<Byte>
    requires dirty != null ==> dirty.pageSize > 0
    reads if dirty != null then {dirty} else {}
  {
    if kind.Full? || dirty == null then Slice(ram, 0, ramSize)
    else Overlay(Zeros(ramSize), ram, dirty.pageSize, dirty.dirty)
  }

  /** The bytes the new state file must hold, if the state can be encoded at all. */
  ghost function StateImage<D>(codec: Codec<VmState<D>>, poly: nat, state: VmState<D>): Option<seq<Byte>> {
    match codec.encode(Stamp(state))
    case None => None
    case Some(body) => Some(StateFile(poly, body))
  }

  /** The two destinations of a save and the bytes that are to reach them. */
  datatype Target = Target(statePath: Path, memoryPath: Path, newState: Option<seq<Byte>>, newMemory: seq<Byte>) {
    ghost predicate Valid() {
      DistinctPaths(statePath, memoryPath)
    }

    function Temps(): set<Path> {
      {TempPath(statePath), TempPath(memoryPath)}
    }

    /** Both destinations are as they were. */
    ghost predicate OldPair(now: Files, before: Files) {
      SameExcept(now, before, Temps())
    }

    /** The new state file beside the old memory file. */
    ghost predicate MixedPair(now: Files, before: Files) {
      && newState.Some? && Lookup(now, statePath) == newState
      && SameExcept(now, before, Temps() + {statePath})
    }

    /** Both destinations are new. */
    ghost predicate NewPair(now: Files, before: Files) {
      && newState.Some? && Lookup(now, statePath) == newState && Lookup(now, memoryPath) == Some(newMemory)
      && SameExcept(now, before, Temps() + {statePath, memoryPath})
    }
  }

  ghost function Destination<D>(codec: Codec<VmState<D>>, poly: nat, statePath: Path, memoryPath: Path, kind: Kind,
                                state: VmState<D>, ram: seq<Byte>, ramSize: nat, dirty: DirtyBitmap?): Target
    requires dirty != null ==> dirty.pageSize > 0
    reads if dirty != null then {dirty} else {}
  {
    Target(statePath, memoryPath, StateImage(codec, poly, state), MemoryImage(kind, ram, ramSize, dirty))
  }

  /** State `i` of the record was made by renaming the temp file of `dest` over it. */
  ghost predicate RenamedAt(history: seq<Files>, i: nat, dest: Path) {
    && 0 < i < |history| && TempPath(dest) in history[i - 1]
    && history[i] == Committed(history[i - 1], TempPath(dest), dest)
  }

  /**
   The record from `from` on is (old, old) before `a`, (new, old) from `a` to `b` and (new, new)
   from `b` on; `a` and `b` are the two renames, or past the end if they did not happen.
   */
  ghost predicate Phases(history: seq<Files>, from: nat, a: nat, b: nat, before: Files, t: Target) {
    && from <= a <= b <= |history|
    && (forall i :: from <= i < a ==> t.OldPair(history[i], before))
    && (forall i :: a <= i < b ==> t.MixedPair(history[i], before))
    && (forall i :: b <= i < |history| ==> t.NewPair(history[i], before))
    && (a < |history| ==> RenamedAt(history, a, t.statePath))
    && (b < |history| ==> RenamedAt(history, b, t.memoryPath))
  }

  /**
   A crash at instant `i` leaves the previous pair exactly before the state rename, provided the
   state file really changes; it leaves the mixed pair exactly between the renames, provided the
   memory file really changes.
   */
  lemma PreviousPairIff(history: seq<Files>, from: nat, a: nat, b: nat, before: Files, t: Target, i: nat)
    requires t.Valid() && Phases(history, from, a, b, before, t) && from <= i < |history|
    ensures t.newState != Lookup(before, t.statePath) ==>
              (t.OldPair(history[i], before) <==> i < a)
    ensures t.newState != Lookup(before, t.statePath) && Some(t.newMemory) != Lookup(before, t.memoryPath) ==>
              (t.MixedPair(history[i], before) <==> a <= i < b)
  {
    if i < a {
      assert t.OldPair(history[i], before);
    } else if i < b {
      assert t.MixedPair(history[i], before);
    } else {
      assert t.NewPair(history[i], before);
    }
  }

  /** The temp file is gone, or was never opened and is as it was. */
  ghost predicate TempClean(now: Files, before: Files, dest: Path) {
    TempPath(dest) !in now || Lookup(now, TempPath(dest)) == Lookup(before, TempPath(dest))
  }

  // ---- the three stages ----------------------------------------------------------------------

  /** Stage 1: the state file, complete in its temp file, or nothing left behind. */
  method StageState<D>(fs: FileSystem, codec: Codec<VmState<D>>, poly: nat, statePath: Path, state: VmState<D>)
    returns (r: Result<AtomicWriter>)
    requires fs.Valid()
    modifies fs
    ensures fs.Valid() && old(fs.history) <= fs.history
    ensures OnlyTouched(fs.history, |old(fs.history)|, old(fs.files), {TempPath(statePath)})
    ensures SameExcept(fs.files, old(fs.files), {TempPath(statePath)})
    ensures !fs.unlinkFailed ==> !old(fs.unlinkFailed)
    ensures r.Err? && !fs.unlinkFailed ==> TempClean(fs.files, old(fs.files), statePath)
    ensures r.Ok? ==> fresh(r.value) && fresh(r.value.file) && fresh(r.value.guard)
    ensures r.Ok? ==> r.value.fs == fs && r.value.destPath == statePath && r.value.Armed()
    ensures r.Ok? ==> StateImage(codec, poly, state) == Some(fs.files[TempPath(statePath)])
  {
    var tempFile := AtomicWriter.Open(fs, statePath);
    if tempFile.Err? {
      return Err(tempFile.error);
    }
    var writer := tempFile.value;
    var saved := SaveEnvelope(codec, poly, Stamp(state), writer.file);
    if saved.Err? {
      writer.Drop();
      return Err(saved.error);
    }
    WriteIntoEmpty(StateFile(poly, codec.encode(Stamp(state)).value));
    return Ok(writer);
  }

  lemma WriteIntoEmpty(bytes: seq<Byte>)
    ensures Splice([], 0, bytes) == bytes
  {
  }

  /** Stage 2: the memory file, complete in its temp file, or nothing left behind. */
  method StageMemory(fs: FileSystem, memoryPath: Path, kind: Kind, ram: seq<Byte>, ramSize: nat,
                     memoryPageSize: nat, dirty: DirtyBitmap?)
    returns (r: Result<AtomicWriter>, pages: nat)
    requires fs.Valid() && (dirty != null ==> dirty.Valid()) && (kind.Full? ==> memoryPageSize > 0)
    modifies fs
    ensures fs.Valid() && old(fs.history) <= fs.history
    ensures OnlyTouched(fs.history, |old(fs.history)|, old(fs.files), {TempPath(memoryPath)})
    ensures SameExcept(fs.files, old(fs.files), {TempPath(memoryPath)})
    ensures !fs.unlinkFailed ==> !old(fs.unlinkFailed)
    ensures r.Err? && !fs.unlinkFailed ==> TempClean(fs.files, old(fs.files), memoryPath)
    ensures r.Ok? ==> fresh(r.value) && fresh(r.value.file) && fresh(r.value.guard)
    ensures r.Ok? ==> r.value.fs == fs && r.value.destPath == memoryPath && r.value.Armed()
    ensures r.Ok? ==> MemoryImage(kind, ram, ramSize, dirty) == fs.files[TempPath(memoryPath)]
    ensures r.Ok? ==> PagesReported(kind, ram, ramSize, memoryPageSize, dirty, pages)
  {
    pages := 0;
    var tempFile := AtomicWriter.Open(fs, memoryPath);
    if tempFile.Err? {
      return Err(tempFile.error), 0;
    }
    var writer := new MemoryWriter(tempFile.value, ramSize, memoryPageSize);
    var staged := WriteImage(writer, kind, ram, dirty);
    if staged.Err? {
      writer.inner.Drop();
      return Err(staged.error), 0;
    }
    return Ok(tempFile.value), staged.value;
  }

  /** The memory image of the requested kind, written into a fresh temp file. */
  method WriteImage(writer: MemoryWriter, kind: Kind, ram: seq<Byte>, dirty: DirtyBitmap?) returns (r: Result<nat>)
    requires writer.inner.Armed() && writer.inner.file.pos == 0
    requires writer.inner.fs.files[writer.inner.tempPath] == []
    requires (dirty != null ==> dirty.Valid()) && (kind.Full? ==> writer.pageSize > 0)
    modifies writer.inner.file, writer.inner.fs
    ensures writer.inner.Armed() && writer.inner.fs.unlinkFailed == old(writer.inner.fs.unlinkFailed)
    ensures old(writer.inner.fs.history) <= writer.inner.fs.history
    ensures OnlyTouched(writer.inner.fs.history, |old(writer.inner.fs.history)|, old(writer.inner.fs.files),
                        {writer.inner.tempPath})
    ensures SameExcept(writer.inner.fs.files, old(writer.inner.fs.files), {writer.inner.tempPath})
    ensures r.Ok? ==> MemoryImage(kind, ram, writer.ramSize, dirty) == writer.inner.fs.files[writer.inner.tempPath]
    ensures r.Ok? ==> PagesReported(kind, ram, writer.ramSize, writer.pageSize, dirty, r.value)
  {
    if kind.Full? {
      var full := writer.WriteFull(ram);
      WriteIntoEmpty(Slice(ram, 0, writer.ramSize));
      return if full.Ok? then Ok(0) else Err(full.error);
    }
    if dirty == null {
      return Err(InvalidPath);
    }
    ResizeEmpty(writer.ramSize);
    r := writer.WriteDiff(ram, dirty);
  }

  lemma ResizeEmpty(n: nat)
    ensures Resized([], n) == Zeros(n)
  {
  }

  /** A full dump reports zero pages, a diff the memory pages under its dirty blocks. */
  ghost predicate PagesReported(kind: Kind, ram: seq<Byte>, ramSize: nat, memoryPageSize: nat,
                                dirty: DirtyBitmap?, pages: nat)
    reads if dirty != null then {dirty} else {}
  {
    match kind
    case Full => ramSize <= |ram| && pages == 0
    case Diff =>
      dirty != null && dirty.ramSize == ramSize && Rechunks(dirty.pageSize, memoryPageSize)
      && dirty.pageSize / memoryPageSize > 0
      && pages == PagesUnder(dirty.dirty, dirty.pageSize / memoryPageSize, CeilDiv(ramSize, memoryPageSize))
  }

  /**
   Stage 3: state first, memory second.  `a` and `b` are where the two renames stand in the
   record, or its end if they did not happen.
   */
  method CommitPair(fs: FileSystem, stateWriter: AtomicWriter, memWriter: AtomicWriter)
    returns (r: Result<()>, ghost a: nat, ghost b: nat)
    requires stateWriter.fs == fs && memWriter.fs == fs && stateWriter.Armed() && memWriter.Armed()
    requires stateWriter.guard != memWriter.guard && stateWriter.file != memWriter.file
    requires DistinctPaths(stateWriter.destPath, memWriter.destPath)
    modifies fs, stateWriter.guard, memWriter.guard
    ensures fs.Valid() && old(fs.history) < fs.history
    ensures !fs.unlinkFailed ==> !old(fs.unlinkFailed)
    ensures Phases(fs.history, |old(fs.history)|, a, b, old(fs.files),
                   Target(stateWriter.destPath, memWriter.destPath,
                          Some(old(fs.files)[stateWriter.tempPath]), old(fs.files)[memWriter.tempPath]))
    ensures r.Ok? ==> a < b < |fs.history|
    ensures r.Err? ==> b == |fs.history| && r.error in {Io, AtomicCommitFailed}
    ensures r.Ok? ==> stateWriter.tempPath !in fs.files && memWriter.tempPath !in fs.files
    ensures r.Err? && !fs.unlinkFailed ==> stateWriter.tempPath !in fs.files && memWriter.tempPath !in fs.files
  {
    TempPathsDiffer(stateWriter.destPath, memWriter.destPath);
    ghost var f0, h0 := fs.files, fs.history;
    ghost var t := Target(stateWriter.destPath, memWriter.destPath,
                          Some(f0[stateWriter.tempPath]), f0[memWriter.tempPath]);
    r := stateWriter.Commit();
    ghost var f1, h1 := fs.files, fs.history;
    if r.Err? {
      memWriter.Drop();
      a, b := |fs.history|, |fs.history|;
      NeverRenamed(h0, h1, fs.history, f0, fs.files, t);
      return;
    }
    a := |h0| + 1;
    r := memWriter.Commit();
    if r.Err? {
      b := |fs.history|;
      RenamedOnce(h0, fs.history, f0, f1, t);
    } else {
      b := |h0| + 3;
      RenamedTwice(h0, fs.history, f0, f1, fs.files, t);
    }
  }

  lemma NeverRenamed(h0: seq<Files>, h1: seq<Files>, h2: seq<Files>, f0: Files, f2: Files, t: Target)
    requires h0 <= h1 && OnlyTouched(h1, |h0|, f0, {TempPath(t.statePath)})
    requires h2 == h1 + [f2] && SameExcept(f2, f0, t.Temps())
    ensures Phases(h2, |h0|, |h2|, |h2|, f0, t)
  {
    forall i | |h0| <= i < |h2| ensures t.OldPair(h2[i], f0) {
      if i < |h1| { assert h2[i] == h1[i] && SameExcept(h1[i], f0, {TempPath(t.statePath)}); }
    }
  }

  /** The state file has been renamed, the memory file not. */
  lemma RenamedOnce(h0: seq<Files>, h2: seq<Files>, f0: Files, f1: Files, t: Target)
    requires t.Valid() && TempPath(t.statePath) in f0 && t.newState == Some(f0[TempPath(t.statePath)])
    requires f1 == Committed(f0, TempPath(t.statePath), t.statePath)
    requires h0 + [f0, f1] <= h2 && OnlyTouched(h2, |h0| + 2, f1, {TempPath(t.memoryPath)})
    ensures Phases(h2, |h0|, |h0| + 1, |h2|, f0, t)
  {
    TempPathsDiffer(t.statePath, t.memoryPath);
    var n := |h0|;
    assert h2[n] == f0 && h2[n + 1] == f1;
    forall i | n + 1 <= i < |h2| ensures t.MixedPair(h2[i], f0) {
      assert SameExcept(h2[i], f1, {TempPath(t.memoryPath)});
    }
    assert RenamedAt(h2, n + 1, t.statePath);
  }

  lemma RenamedTwice(h0: seq<Files>, h2: seq<Files>, f0: Files, f1: Files, f2: Files, t: Target)
    requires t.Valid() && TempPath(t.statePath) in f0 && t.newState == Some(f0[TempPath(t.statePath)])
    requires TempPath(t.memoryPath) in f0 && t.newMemory == f0[TempPath(t.memoryPath)]
    requires f1 == Committed(f0, TempPath(t.statePath), t.statePath)
    requires TempPath(t.memoryPath) in f1 && f2 == Committed(f1, TempPath(t.memoryPath), t.memoryPath)
    requires h2 == h0 + [f0, f1] + [f1, f2]
    ensures Phases(h2, |h0|, |h0| + 1, |h0| + 3, f0, t)
  {
    TempPathsDiffer(t.statePath, t.memoryPath);
    var n := |h0|;
    assert h2[n] == f0 && h2[n + 1] == f1 && h2[n + 2] == f1 && h2[n + 3] == f2;
    assert RenamedAt(h2, n + 1, t.statePath) && RenamedAt(h2, n + 3, t.memoryPath);
    assert t.OldPair(f0, f0) && t.MixedPair(f1, f0) && t.NewPair(f2, f0);
  }

  // ---- putting the stages together -----------------------------------------------------------

  /** Every state recorded from index `from` on has both destinations as they were. */
  ghost predicate AllOld(history: seq<Files>, from: nat, before: Files, t: Target) {
    forall i :: from <= i < |history| ==> t.OldPair(history[i], before)
  }

  /** While only temp files change, both destinations are old. */
  lemma StagingKeepsOld(earlier: seq<Files>, history: seq<Files>, first: nat, start: Files, before: Files,
                        t: Target, touched: set<Path>)
    requires touched <= t.Temps() && t.OldPair(start, before)
    requires earlier <= history && AllOld(earlier, first, before, t)
    requires OnlyTouched(history, |earlier|, start, touched)
    ensures AllOld(history, first, before, t)
  {
    forall i | first <= i < |history| ensures t.OldPair(history[i], before) {
      if i < |earlier| {
        assert history[i] == earlier[i];
      } else {
        assert SameExcept(history[i], start, touched);
      }
    }
  }

  /** The phases of the commit, with the staging before them. */
  lemma PhasesAfterStaging(earlier: seq<Files>, history: seq<Files>, first: nat, a: nat, b: nat,
                           staged: Files, before: Files, t: Target)
    requires earlier <= history && first <= |earlier| && AllOld(earlier, first, before, t)
    requires t.OldPair(staged, before) && Phases(history, |earlier|, a, b, staged, t)
    ensures Phases(history, first, a, b, before, t)
  {
    forall i | first <= i < a ensures t.OldPair(history[i], before) {
      if i < |earlier| { assert history[i] == earlier[i]; } else { assert t.OldPair(history[i], staged); }
    }
    forall i | a <= i < b ensures t.MixedPair(history[i], before) { assert t.MixedPair(history[i], staged); }
    forall i | b <= i < |history| ensures t.NewPair(history[i], before) { assert t.NewPair(history[i], staged); }
  }

  /** Stages 1 and 2 in order; a failure of the second undoes the first. */
  method StagePair<D>(fs: FileSystem, codec: Codec<VmState<D>>, poly: nat,
                      statePath: Path, memoryPath: Path, kind: Kind, state: VmState<D>,
                      ram: seq<Byte>, ramSize: nat, memoryPageSize: nat, dirty: DirtyBitmap?)
    returns (r: Result<(AtomicWriter, AtomicWriter)>, pages: nat)
    requires fs.Valid() && DistinctPaths(statePath, memoryPath)
    requires (dirty != null ==> dirty.Valid()) && (kind.Full? ==> memoryPageSize > 0)
    modifies fs
    ensures fs.Valid() && old(fs.history) <= fs.history
    ensures AllOld(fs.history, |old(fs.history)|, old(fs.files),
                   Destination(codec, poly, statePath, memoryPath, kind, state, ram, ramSize, dirty))
    ensures SameExcept(fs.files, old(fs.files), {TempPath(statePath), TempPath(memoryPath)})
    ensures r.Err? && !fs.unlinkFailed ==>
              TempClean(fs.files, old(fs.files), statePath) && TempClean(fs.files, old(fs.files), memoryPath)
    ensures r.Ok? ==> BothStaged(fs, r.value.0, r.value.1, statePath, memoryPath)
    ensures r.Ok? ==> fresh(r.value.0) && fresh(r.value.1) && fresh(r.value.0.guard) && fresh(r.value.1.guard)
    ensures r.Ok? ==> StateImage(codec, poly, state) == Some(fs.files[TempPath(statePath)])
                      && MemoryImage(kind, ram, ramSize, dirty) == fs.files[TempPath(memoryPath)]
    ensures r.Ok? ==> PagesReported(kind, ram, ramSize, memoryPageSize, dirty, pages)
  {
    pages := 0;
    TempPathsDiffer(statePath, memoryPath);
    ghost var before, h0 := fs.files, fs.history;
    ghost var t := Destination(codec, poly, statePath, memoryPath, kind, state, ram, ramSize, dirty);
    var stateStaged := StageState(fs, codec, poly, statePath, state);
    ghost var mid, h1 := fs.files, fs.history;
    StagingKeepsOld(h0, h1, |h0|, before, before, t, {TempPath(statePath)});
    if stateStaged.Err? {
      return Err(stateStaged.error), 0;
    }
    var memStaged, pagesWritten := StageMemory(fs, memoryPath, kind, ram, ramSize, memoryPageSize, dirty);
    ghost var staged, h2 := fs.files, fs.history;
    assert Lookup(staged, TempPath(statePath)) == Lookup(mid, TempPath(statePath));
    StagingKeepsOld(h1, h2, |h0|, mid, before, t, {TempPath(memoryPath)});
    if memStaged.Err? {
      stateStaged.value.Drop();
      StagingKeepsOld(h2, fs.history, |h0|, staged, before, t, {TempPath(statePath)});
      return Err(memStaged.error), 0;
    }
    return Ok((stateStaged.value, memStaged.value)), pagesWritten;
  }

  /** Two armed writers over the same disk, one per destination. */
  ghost predicate BothStaged(fs: FileSystem, stateWriter: AtomicWriter, memWriter: AtomicWriter,
                             statePath: Path, memoryPath: Path)
    reads fs, stateWriter, stateWriter.fs, stateWriter.file, stateWriter.guard,
          memWriter, memWriter.fs, memWriter.file, memWriter.guard
  {
    && stateWriter.fs == fs && memWriter.fs == fs
    && stateWriter.destPath == statePath && memWriter.destPath == memoryPath
    && stateWriter.Armed() && memWriter.Armed()
    && stateWriter.guard != memWriter.guard && stateWriter.file != memWriter.file
  }

  /** What the phases say of the state the disk ends in. */
  lemma LastInstant(history: seq<Files>, from: nat, a: nat, b: nat, before: Files, t: Target)
    requires t.Valid() && Phases(history, from, a, b, before, t) && from < |history|
    ensures var now := history[|history| - 1];
            && (b < |history| ==>
                  Lookup(now, t.statePath) == t.newState && Lookup(now, t.memoryPath) == Some(t.newMemory))
            && (b == |history| ==> Lookup(now, t.memoryPath) == Lookup(before, t.memoryPath))
            && (b == |history| ==>
                  Lookup(now, t.statePath) == if a < |history| then t.newState else Lookup(before, t.statePath))
  {
    var last := |history| - 1;
    if last < a {
      assert t.OldPair(history[last], before);
    } else if last < b {
      assert t.MixedPair(history[last], before);
    } else {
      assert t.NewPair(history[last], before);
    }
  }

  /** Stage 3 seen from the start of the save, where the disk was `before` and the record `h0`. */
  method CommitStaged(fs: FileSystem, stateWriter: AtomicWriter, memWriter: AtomicWriter,
                      ghost h0: seq<Files>, ghost before: Files, ghost t: Target)
    returns (r: Result<()>, ghost a: nat, ghost b: nat)
    requires t.Valid() && BothStaged(fs, stateWriter, memWriter, t.statePath, t.memoryPath)
    requires h0 <= fs.history && AllOld(fs.history, |h0|, before, t) && t.OldPair(fs.files, before)
    requires t.newState == Some(fs.files[stateWriter.tempPath]) && t.newMemory == fs.files[memWriter.tempPath]
    modifies fs, stateWriter.guard, memWriter.guard
    ensures fs.Valid() && h0 <= fs.history && Phases(fs.history, |h0|, a, b, before, t)
    ensures r.Ok? ==> a < b < |fs.history|
    ensures r.Err? ==> b == |fs.history| && r.error in {Io, AtomicCommitFailed}
    ensures r.Ok? ==> Lookup(fs.files, t.statePath) == t.newState && Lookup(fs.files, t.memoryPath) == Some(t.newMemory)
    ensures r.Err? ==> Lookup(fs.files, t.memoryPath) == Lookup(before, t.memoryPath)
    ensures r.Err? ==> Lookup(fs.files, t.statePath) ==
                       if a < |fs.history| then t.newState else Lookup(before, t.statePath)
    ensures r.Ok? || !fs.unlinkFailed ==> TempPath(t.statePath) !in fs.files && TempPath(t.memoryPath) !in fs.files
  {
    ghost var staged, h1 := fs.files, fs.history;
    r, a, b := CommitPair(fs, stateWriter, memWriter);
    assert t == Target(t.statePath, t.memoryPath, Some(staged[stateWriter.tempPath]), staged[memWriter.tempPath]);
    PhasesAfterStaging(h1, fs.history, |h0|, a, b, staged, before, t);
    LastInstant(fs.history, |h0|, a, b, before, t);
  }

  /**
   The whole save.  The record of the disk falls into three phases, (old, old), (new, old) and
   (new, new), parted by the renames `a` and `b`.  Success goes through all three; failure never
   reaches the third, and whether it ends with the new state file is whether the state rename
   happened.  Unless an unlink failed, no temp file is left.
   */
  method SaveSnapshot<D>(fs: FileSystem, codec: Codec<VmState<D>>, poly: nat,
                         statePath: Path, memoryPath: Path, kind: Kind, state: VmState<D>,
                         ram: seq<Byte>, ramSize: nat, memoryPageSize: nat, dirty: DirtyBitmap?)
    returns (r: Result<Report>, ghost a: nat, ghost b: nat)
    requires fs.Valid() && DistinctPaths(statePath, memoryPath)
    requires dirty != null ==> dirty.Valid()
    requires kind.Full? ==> memoryPageSize > 0
    modifies fs
    ensures fs.Valid() && old(fs.history) <= fs.history
    ensures Phases(fs.history, |old(fs.history)|, a, b, old(fs.files),
                   Destination(codec, poly, statePath, memoryPath, kind, state, ram, ramSize, dirty))
    ensures r.Ok? ==> a < b < |fs.history|
    ensures r.Err? ==> b == |fs.history|
    ensures r.Ok? ==> StateImage(codec, poly, state).Some?
                      && Lookup(fs.files, statePath) == StateImage(codec, poly, state)
                      && Lookup(fs.files, memoryPath) == Some(MemoryImage(kind, ram, ramSize, dirty))
                      && TempPath(statePath) !in fs.files && TempPath(memoryPath) !in fs.files
    ensures r.Err? ==> Lookup(fs.files, memoryPath) == Lookup(old(fs.files), memoryPath)
    ensures r.Err? ==> Lookup(fs.files, statePath) ==
                       if a < |fs.history| then StateImage(codec, poly, state) else Lookup(old(fs.files), statePath)
    ensures r.Err? && a < |fs.history| ==> r.error in {Io, AtomicCommitFailed}
    ensures r.Err? && !fs.unlinkFailed ==>
              TempClean(fs.files, old(fs.files), statePath) && TempClean(fs.files, old(fs.files), memoryPath)
    ensures r.Ok? ==> state.Compatible() && r.value.kind == kind
    ensures r.Ok? ==> PagesReported(kind, ram, ramSize, memoryPageSize, dirty, r.value.pagesWritten)
    ensures !state.Compatible() || (kind.Diff? && (dirty == null || !state.trackDirtyPages)) ==> r.Err?
  {
    a, b := |fs.history|, |fs.history|;
    if kind.Diff? && !state.trackDirtyPages {
      return Err(InvalidPath), a, b;
    }
    if !state.Compatible() {
      return Err(Incompatible), a, b;
    }
    ghost var before, h0 := fs.files, fs.history;
    ghost var t := Destination(codec, poly, statePath, memoryPath, kind, state, ram, ramSize, dirty);
    var pair, pagesWritten := StagePair(fs, codec, poly, statePath, memoryPath, kind, state,
                                        ram, ramSize, memoryPageSize, dirty);
    if pair.Err? {
      return Err(pair.error), |fs.history|, |fs.history|;
    }
    var committed;
    committed, a, b := CommitStaged(fs, pair.value.0, pair.value.1, h0, before, t);
    r := if committed.Err? then Err(committed.error) else Ok(Report(kind, pagesWritten));
  }
}
