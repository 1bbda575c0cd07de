/** The memory file: a full dump or the dirty pages only (crates/snapshot/src/memory.rs). */
module Memory {
  import opened Words
  import opened Outcomes
  import opened Disk
  import opened Bitmap
  import opened Atomic

  /** `base` with the bytes below `upTo` that lie on dirty pages taken from `ram`. */
  function Patched(base: seq<Byte>, ram: seq<Byte>, page: nat, dirty: set<nat>, upTo: nat): (r: seq<Byte>)
    requires page > 0
    ensures |r| == |base|
  {
    seq(|base|, i requires 0 <= i < |base| =>
      if i < upTo && i < |ram| && BlockOf(i, page) in dirty then ram[i] else base[i])
  }

  /** `base` overlaid with the dirty pages of `ram`. */
  function Overlay(base: seq<Byte>, ram: seq<Byte>, page: nat, dirty: set<nat>): (r: seq<Byte>)
    requires page > 0
    ensures |r| == |base|
  {
    Patched(base, ram, page, dirty, |base|)
  }

  /** How many of the first `n` memory pages lie in a dirty block of `perBlock` pages. */
  function PagesUnder(dirty: set<nat>, perBlock: nat, n: nat): nat
    requires perBlock > 0
  {
    if n == 0 then 0
    else PagesUnder(dirty, perBlock, n - 1) + (if BlockOf(n - 1, perBlock) in dirty then 1 else 0)
  }

  lemma {:induction false} PagesUnderCounts(dirty: set<nat>, perBlock: nat, n: nat)
    requires perBlock > 0
    ensures PagesUnder(dirty, perBlock, n) == |Expand(n, perBlock, dirty)|
  {
    if n == 0 {
      assert Expand(n, perBlock, dirty) == {};
    } else {
      PagesUnderCounts(dirty, perBlock, n - 1);
      var smaller := Expand(n - 1, perBlock, dirty);
      if BlockOf(n - 1, perBlock) in dirty {
        assert Expand(n, perBlock, dirty) == smaller + {n - 1};
      } else {
        assert Expand(n, perBlock, dirty) == smaller;
      }
    }
  }

  lemma {:induction false} PagesUnderClean(dirty: set<nat>, perBlock: nat, block: nat, k: nat)
    requires perBlock > 0 && k <= perBlock && block !in dirty
    ensures PagesUnder(dirty, perBlock, block * perBlock + k) == PagesUnder(dirty, perBlock, block * perBlock)
    decreases k
  {
    if k == 0 {
    } else {
      PagesUnderClean(dirty, perBlock, block, k - 1);
      InUnit(block * perBlock + k - 1, perBlock, block);
    }
  }

  lemma {:induction false} PagesUnderDirty(dirty: set<nat>, perBlock: nat, block: nat, k: nat)
    requires perBlock > 0 && k <= perBlock && block in dirty
    ensures PagesUnder(dirty, perBlock, block * perBlock + k) == PagesUnder(dirty, perBlock, block * perBlock) + k
    decreases k
  {
    if k == 0 {
    } else {
      PagesUnderDirty(dirty, perBlock, block, k - 1);
      InUnit(block * perBlock + k - 1, perBlock, block);
    }
  }

  lemma PatchDirtyBlock(base: seq<Byte>, ram: seq<Byte>, page: nat, dirty: set<nat>, block: nat)
    requires page > 0 && block in dirty && block * page < |base|
    requires block * page + Min(page, |base| - block * page) <= |ram|
    ensures var start := block * page;
            Filled(Patched(base, ram, page, dirty, start), ram, start, start + Min(page, |base| - start)) ==
            Patched(base, ram, page, dirty, start + page)
  {
    forall i: nat | block * page <= i < block * page + page
      ensures BlockOf(i, page) == block
    {
      InUnit(i, page, block);
    }
  }

  lemma PatchCleanBlock(base: seq<Byte>, ram: seq<Byte>, page: nat, dirty: set<nat>, block: nat)
    requires page > 0 && block !in dirty
    ensures Patched(base, ram, page, dirty, block * page) == Patched(base, ram, page, dirty, block * page + page)
  {
    forall i: nat | block * page <= i < block * page + page
      ensures BlockOf(i, page) == block
    {
      InUnit(i, page, block);
    }
  }

  /** The in-memory page source: reads succeed exactly within the bytes. */
  function VecReadAt(bytes: seq<Byte>, offset: nat, len: nat): (r: Option<seq<Byte>>)
    ensures r.Some? <==> offset + len <= |bytes|
    ensures r.Some? ==> |r.value| == len && bytes == bytes[..offset] + r.value + bytes[offset + len..]
  {
    if offset + len > |bytes| then None else Some(bytes[offset..offset + len])
  }

  /** Any page source over `bytes`: it may also fail for reasons of its own. */
  method ReadAt(bytes: seq<Byte>, offset: nat, len: nat) returns (r: Option<seq<Byte>>)
    ensures r.Some? ==> offset + len <= |bytes| && r.value == bytes[offset..offset + len]
  {
    var failing: bool := *;
    if failing {
      return None;
    }
    return VecReadAt(bytes, offset, len);
  }

  class MemoryWriter {
    const inner: AtomicWriter
    const ramSize: nat
    const pageSize: nat

    constructor (inner: AtomicWriter, ramSize: nat, pageSize: nat)
      ensures this.inner == inner && this.ramSize == ramSize && this.pageSize == pageSize
    {
      this.inner, this.ramSize, this.pageSize := inner, ramSize, pageSize;
    }

    /** A dense dump: on success the file has gained exactly the first `ramSize` bytes of `ram`. */
    method WriteFull(ram: seq<Byte>) returns (r: Result<()>)
      requires inner.Armed() && pageSize > 0
      modifies inner.file, inner.fs
      ensures inner.Armed() && inner.fs.unlinkFailed == old(inner.fs.unlinkFailed)
      ensures old(inner.fs.history) <= inner.fs.history
      ensures OnlyTouched(inner.fs.history, |old(inner.fs.history)|, old(inner.fs.files), {inner.tempPath})
      ensures SameExcept(inner.fs.files, old(inner.fs.files), {inner.tempPath})
      ensures r.Err? ==> r.error == MemoryIo
      ensures r.Ok? ==> ramSize <= |ram| &&
                        inner.fs.files == old(inner.fs.files)[inner.tempPath :=
                          Splice(old(inner.fs.files)[inner.tempPath], old(inner.file.pos), ram[..ramSize])]
    {
      ghost var before, h0, start := inner.fs.files, inner.fs.history, inner.file.pos;
      var offset := 0;
      NothingDumped(before, inner.tempPath, start, ram);
      while offset < ramSize
        invariant offset <= ramSize && inner.fs.unlinkFailed == old(inner.fs.unlinkFailed)
        invariant inner.tempPath in before && DumpedTo(h0, before, start, ram, offset)
      {
        var chunk := Min(ramSize - offset, pageSize);
        var ok := DumpChunk(ram, offset, chunk, h0, before, start);
        if !ok {
          return Err(MemoryIo);
        }
        offset := offset + chunk;
      }
      return Ok(());
    }

    /** The disk is `before` with the first `offset` bytes of RAM written at `start`, and the cursor behind them. */
    ghost predicate DumpedTo(h0: seq<Files>, before: Files, start: nat, ram: seq<Byte>, offset: nat)
      requires inner.tempPath in before
      reads inner, inner.fs, inner.file, inner.guard
    {
      && inner.Armed() && offset <= |ram| && inner.file.pos == start + offset
      && inner.fs.files == before[inner.tempPath := Splice(before[inner.tempPath], start, ram[..offset])]
      && h0 <= inner.fs.history && OnlyTouched(inner.fs.history, |h0|, before, {inner.tempPath})
    }

    /** One page of the dense dump: read and append at the cursor. */
    method DumpChunk(ram: seq<Byte>, offset: nat, chunk: nat, ghost h0: seq<Files>, ghost before: Files,
                     ghost start: nat)
      returns (ok: bool)
      requires inner.tempPath in before && DumpedTo(h0, before, start, ram, offset)
      modifies inner.file, inner.fs
      ensures inner.Armed() && inner.fs.unlinkFailed == old(inner.fs.unlinkFailed)
      ensures ok ==> DumpedTo(h0, before, start, ram, offset + chunk)
      ensures h0 <= inner.fs.history && OnlyTouched(inner.fs.history, |h0|, before, {inner.tempPath})
      ensures SameExcept(inner.fs.files, before, {inner.tempPath})
    {
      var buf := ReadAt(ram, offset, chunk);
      if buf.None? {
        return false;
      }
      ghost var mid, h := inner.fs.files, inner.fs.history;
      var written, accepted := inner.file.WriteAll(buf.value);
      TouchedThen(h0, h, inner.fs.history, before, mid, {inner.tempPath});
      if written {
        assert buf.value[..accepted] == ram[offset..][..chunk];
        DumpMore(before, inner.tempPath, start, ram, offset, chunk);
      }
      return written;
    }

    /** The disk is `before` with the block from `start` filled up to `at`, and nothing else was touched. */
    ghost predicate FilledTo(h0: seq<Files>, before: Files, ram: seq<Byte>, start: nat, at: nat)
      requires inner.tempPath in before && start <= at
      reads inner, inner.fs, inner.file, inner.guard
    {
      && inner.Armed()
      && inner.fs.files == before[inner.tempPath := Filled(before[inner.tempPath], ram, start, at)]
      && SameExcept(inner.fs.files, before, {inner.tempPath})
      && h0 <= inner.fs.history && OnlyTouched(inner.fs.history, |h0|, before, {inner.tempPath})
    }

    /** Where the page that starts at `offset` ends, at the latest with RAM. */
    function PageEnd(offset: nat): nat {
      Min(offset + pageSize, ramSize)
    }

    /** One memory page of a dirty block, cut at the end of RAM. */
    method WritePage(ram: seq<Byte>, offset: nat, ghost h0: seq<Files>, ghost before: Files, ghost start: nat)
      returns (ok: bool)
      requires start <= offset < ramSize && inner.tempPath in before && FilledTo(h0, before, ram, start, offset)
      modifies inner.file, inner.fs
      ensures inner.Armed() && inner.fs.unlinkFailed == old(inner.fs.unlinkFailed)
      ensures ok ==> PageEnd(offset) <= |ram| && FilledTo(h0, before, ram, start, PageEnd(offset))
      ensures h0 <= inner.fs.history && OnlyTouched(inner.fs.history, |h0|, before, {inner.tempPath})
      ensures SameExcept(inner.fs.files, before, {inner.tempPath})
    {
      var chunk := Min(ramSize - offset, pageSize);
      assert offset + chunk == PageEnd(offset);
      ok := WriteChunk(ram, offset, chunk, h0, before, start);
    }

    /** Read, seek and write. */
    method WriteChunk(ram: seq<Byte>, offset: nat, chunk: nat, ghost h0: seq<Files>, ghost before: Files,
                      ghost start: nat)
      returns (ok: bool)
      requires start <= offset && inner.tempPath in before && FilledTo(h0, before, ram, start, offset)
      modifies inner.file, inner.fs
      ensures inner.Armed() && inner.fs.unlinkFailed == old(inner.fs.unlinkFailed)
      ensures ok ==> offset + chunk <= |ram| && FilledTo(h0, before, ram, start, offset + chunk)
      ensures h0 <= inner.fs.history && OnlyTouched(inner.fs.history, |h0|, before, {inner.tempPath})
      ensures SameExcept(inner.fs.files, before, {inner.tempPath})
    {
      var buf := ReadAt(ram, offset, chunk);
      if buf.None? {
        return false;
      }
      ghost var mid, h := inner.fs.files, inner.fs.history;
      inner.file.pos := offset;
      var written, accepted := inner.file.WriteAll(buf.value);
      TouchedThen(h0, h, inner.fs.history, before, mid, {inner.tempPath});
      if written {
        assert buf.value[..accepted] == Slice(ram, offset, chunk);
        FillMore(before, inner.tempPath, before[inner.tempPath], ram, start, offset, chunk);
      }
      return written;
    }

    /**
     The memory pages of one block starting at byte `start`, up to the end of RAM: together they
     are one write of the whole block.  `None` if a read or write failed.
     */
    method WriteBlock(ram: seq<Byte>, start: nat, pagesPerBlock: nat) returns (written: Option<nat>)
      requires inner.Armed() && |inner.fs.files[inner.tempPath]| == ramSize
      requires 0 < pageSize && 0 < pagesPerBlock && start < ramSize
      modifies inner.file, inner.fs
      ensures inner.Armed() && inner.fs.unlinkFailed == old(inner.fs.unlinkFailed)
      ensures old(inner.fs.history) <= inner.fs.history
      ensures OnlyTouched(inner.fs.history, |old(inner.fs.history)|, old(inner.fs.files), {inner.tempPath})
      ensures SameExcept(inner.fs.files, old(inner.fs.files), {inner.tempPath})
      ensures written.Some? ==>
                var next := PageStart(start, pageSize, written.value);
                && Min(next, ramSize) <= |ram|
                && FilledTo(old(inner.fs.history), old(inner.fs.files), ram, start, Min(next, ramSize))
                && 0 < written.value <= pagesPerBlock && next - pageSize < ramSize
                && (written.value < pagesPerBlock ==> next >= ramSize)
    {
      ghost var before, h0 := inner.fs.files, inner.fs.history;
      var sub, targetOffset := 0, start;
      ghost var at := start;
      NothingFilled(before, inner.tempPath, ram, start);
      while sub < pagesPerBlock && targetOffset < ramSize
        invariant sub <= pagesPerBlock && inner.fs.unlinkFailed == old(inner.fs.unlinkFailed)
        invariant targetOffset == PageStart(start, pageSize, sub) && at == Min(targetOffset, ramSize)
        invariant FilledTo(h0, before, ram, start, at)
        invariant sub == 0 || (at <= |ram| && targetOffset - pageSize < ramSize)
      {
        at := PageEnd(targetOffset);
        var ok := WritePage(ram, targetOffset, h0, before, start);
        if !ok {
          return None;
        }
        sub, targetOffset := sub + 1, targetOffset + pageSize;
      }
      return Some(sub);
    }

    /**
     The dirty pages only.  On success the file is the old content resized to RAM and overlaid
     with the dirty blocks of `ram`, and the result is the number of memory pages under them.
     The bitmap is only read, so a failed save loses no marks.
     */
    method WriteDiff(ram: seq<Byte>, dirty: DirtyBitmap) returns (r: Result<nat>)
      requires inner.Armed() && dirty.Valid()
      modifies inner.file, inner.fs
      ensures inner.Armed() && inner.fs.unlinkFailed == old(inner.fs.unlinkFailed)
      ensures old(inner.fs.history) <= inner.fs.history
      ensures OnlyTouched(inner.fs.history, |old(inner.fs.history)|, old(inner.fs.files), {inner.tempPath})
      ensures SameExcept(inner.fs.files, old(inner.fs.files), {inner.tempPath})
      ensures r.Err? ==> r.error in {InvalidPath, MemoryIo}
      ensures dirty.ramSize != ramSize || !Rechunks(dirty.pageSize, pageSize) ==> r == Err(InvalidPath)
      ensures r.Ok? ==> dirty.ramSize == ramSize && Rechunks(dirty.pageSize, pageSize)
      ensures r.Ok? ==> inner.fs.files[inner.tempPath] ==
                        Overlay(Resized(old(inner.fs.files)[inner.tempPath], ramSize), ram, dirty.pageSize, dirty.dirty)
      ensures r.Ok? ==> dirty.pageSize / pageSize > 0 && r.value ==
                        PagesUnder(dirty.dirty, dirty.pageSize / pageSize, CeilDiv(ramSize, pageSize))
    {
      if dirty.ramSize != ramSize {
        return Err(InvalidPath);
      }
      var bitmapPage, targetPage := dirty.pageSize, pageSize;
      if !Rechunks(bitmapPage, targetPage) {
        return Err(InvalidPath);
      }
      DivMonotone(targetPage, bitmapPage, targetPage);
      var ok := inner.fs.SetLen(inner.tempPath, ramSize);
      if !ok {
        return Err(MemoryIo);
      }
      var pagesWritten := WriteDirtyBlocks(ram, dirty, bitmapPage / targetPage);
      if pagesWritten.None? {
        return Err(MemoryIo);
      }
      return Ok(pagesWritten.value);
    }

    /** The disk is `before` with the dirty pages below `idx` patched in, and nothing else was touched. */
    ghost predicate PatchedTo(h0: seq<Files>, before: Files, ram: seq<Byte>, dirty: DirtyBitmap, idx: nat)
      requires inner.tempPath in before && dirty.pageSize > 0
      reads inner, inner.fs, inner.file, inner.guard, dirty
    {
      && inner.Armed()
      && inner.fs.files[inner.tempPath] ==
         Patched(before[inner.tempPath], ram, dirty.pageSize, dirty.dirty, idx * dirty.pageSize)
      && SameExcept(inner.fs.files, before, {inner.tempPath})
      && h0 <= inner.fs.history && OnlyTouched(inner.fs.history, |h0|, before, {inner.tempPath})
    }

    /** Dirty page `idx`: its block of memory pages. */
    method WriteDirtyPage(ram: seq<Byte>, dirty: DirtyBitmap, pagesPerBlock: nat, idx: nat,
                          ghost h0: seq<Files>, ghost before: Files)
      returns (written: Option<nat>)
      requires dirty.Valid() && dirty.ramSize == ramSize && idx in dirty.dirty
      requires pageSize > 0 && pagesPerBlock > 0 && dirty.pageSize == pageSize * pagesPerBlock
      requires inner.tempPath in before && |before[inner.tempPath]| == ramSize
      requires PatchedTo(h0, before, ram, dirty, idx)
      modifies inner.file, inner.fs
      ensures inner.Armed() && inner.fs.unlinkFailed == old(inner.fs.unlinkFailed)
      ensures h0 <= inner.fs.history && OnlyTouched(inner.fs.history, |h0|, before, {inner.tempPath})
      ensures SameExcept(inner.fs.files, before, {inner.tempPath})
      ensures written.Some? ==> PatchedTo(h0, before, ram, dirty, idx + 1)
      ensures written.Some? ==>
                PagesUnder(dirty.dirty, pagesPerBlock, PagesBelow(ramSize, pageSize, pagesPerBlock, idx + 1)) ==
                PagesUnder(dirty.dirty, pagesPerBlock, PagesBelow(ramSize, pageSize, pagesPerBlock, idx))
                + written.value
    {
      ghost var mid, h := inner.fs.files, inner.fs.history;
      BlockInRam(dirty.ramSize, dirty.pageSize, idx);
      var start := idx * dirty.pageSize;
      written := WriteBlock(ram, start, pagesPerBlock);
      TouchedThen(h0, h, inner.fs.history, before, mid, {inner.tempPath});
      if written.Some? {
        BlockWritten(before[inner.tempPath], ram, dirty.dirty, ramSize, pageSize, pagesPerBlock, dirty.pageSize,
                     idx, start, written.value);
      }
    }

    /** The loop over the bitmap's pages. */
    method WriteDirtyBlocks(ram: seq<Byte>, dirty: DirtyBitmap, pagesPerBlock: nat) returns (r: Option<nat>)
      requires inner.Armed() && dirty.Valid() && dirty.ramSize == ramSize
      requires |inner.fs.files[inner.tempPath]| == ramSize
      requires pageSize > 0 && pagesPerBlock > 0 && dirty.pageSize == pageSize * pagesPerBlock
      modifies inner.file, inner.fs
      ensures inner.Armed() && inner.fs.unlinkFailed == old(inner.fs.unlinkFailed)
      ensures old(inner.fs.history) <= inner.fs.history
      ensures OnlyTouched(inner.fs.history, |old(inner.fs.history)|, old(inner.fs.files), {inner.tempPath})
      ensures SameExcept(inner.fs.files, old(inner.fs.files), {inner.tempPath})
      ensures r.Some? ==> inner.fs.files[inner.tempPath] ==
                          Overlay(old(inner.fs.files)[inner.tempPath], ram, dirty.pageSize, dirty.dirty)
      ensures r.Some? ==> r.value == PagesUnder(dirty.dirty, pagesPerBlock, CeilDiv(ramSize, pageSize))
    {
      ghost var before, h0 := inner.fs.files, inner.fs.history;
      var pagesWritten := 0;
      PatchNothing(before[inner.tempPath], ram, dirty.pageSize, dirty.dirty);
      for idx := 0 to dirty.pageCount
        invariant inner.fs.unlinkFailed == old(inner.fs.unlinkFailed)
        invariant PatchedTo(h0, before, ram, dirty, idx)
        invariant pagesWritten ==
                  PagesUnder(dirty.dirty, pagesPerBlock, PagesBelow(ramSize, pageSize, pagesPerBlock, idx))
      {
        if dirty.IsDirtyByIndex(idx) {
          var written := WriteDirtyPage(ram, dirty, pagesPerBlock, idx, h0, before);
          if written.None? {
            return None;
          }
          pagesWritten := pagesWritten + written.value;
        } else {
          PatchCleanBlock(before[inner.tempPath], ram, dirty.pageSize, dirty.dirty, idx);
          CleanBlockPages(dirty.dirty, ramSize, pageSize, pagesPerBlock, idx);
          AddTimes(idx, 1, dirty.pageSize);
        }
      }
      AllBlocksDone(before[inner.tempPath], ram, dirty, pageSize, pagesPerBlock);
      return Some(pagesWritten);
    }
  }

  /** The bitmap's pages can be cut into memory-file pages. */
  predicate Rechunks(bitmapPage: nat, targetPage: nat) {
    0 < targetPage <= bitmapPage && bitmapPage % targetPage == 0
  }

  lemma PatchNothing(base: seq<Byte>, ram: seq<Byte>, page: nat, dirty: set<nat>)
    requires page > 0
    ensures Patched(base, ram, page, dirty, 0) == base
  {
  }

  /** Past the last page nothing is left to patch or count. */
  lemma AllBlocksDone(base: seq<Byte>, ram: seq<Byte>, dirty: DirtyBitmap, page: nat, perBlock: nat)
    requires dirty.Valid() && |base| == dirty.ramSize
    requires page > 0 && perBlock > 0 && dirty.pageSize == page * perBlock
    ensures Patched(base, ram, dirty.pageSize, dirty.dirty, dirty.pageCount * dirty.pageSize) ==
            Overlay(base, ram, dirty.pageSize, dirty.dirty)
    ensures PagesBelow(dirty.ramSize, page, perBlock, dirty.pageCount) == CeilDiv(dirty.ramSize, page)
  {
    CeilDivBound(dirty.ramSize, dirty.pageSize, dirty.pageCount);
    PagePosition(dirty.ramSize, page, perBlock, dirty.pageCount, 0);
  }

  /** `ram[start..start + len]`, or nothing if that runs past the end. */
  function Slice(ram: seq<Byte>, start: nat, len: nat): seq<Byte> {
    if start + len <= |ram| then ram[start..start + len] else []
  }

  /** `content` with the bytes from `start` up to `at` taken from `ram`. */
  function Filled(content: seq<Byte>, ram: seq<Byte>, start: nat, at: nat): seq<Byte>
    requires start <= at
  {
    Splice(content, start, Slice(ram, start, at - start))
  }

  lemma NothingDumped(files: Files, path: Path, start: nat, ram: seq<Byte>)
    requires path in files
    ensures files[path := Splice(files[path], start, ram[..0])] == files
  {
    assert ram[..0] == [];
  }

  lemma DumpMore(files: Files, path: Path, start: nat, ram: seq<Byte>, offset: nat, chunk: nat)
    requires path in files && offset + chunk <= |ram|
    ensures var image := Splice(files[path], start, ram[..offset]);
            files[path := image][path := Splice(image, start + offset, ram[offset..][..chunk])] ==
            files[path := Splice(files[path], start, ram[..offset + chunk])]
  {
    NextWrite(files[path], start, ram, offset, chunk);
  }

  lemma NothingFilled(files: Files, path: Path, ram: seq<Byte>, start: nat)
    requires path in files
    ensures files[path := Filled(files[path], ram, start, start)] == files
  {
    EmptyWrite(files, path, start);
  }

  /** Where page `sub` of a block starts. */
  function PageStart(start: nat, page: nat, sub: nat): (at: nat)
    ensures start <= at
    decreases sub
  {
    if sub == 0 then start else PageStart(start, page, sub - 1) + page
  }

  lemma {:induction false} PageStartIs(start: nat, page: nat, sub: nat)
    ensures PageStart(start, page, sub) == start + sub * page
    decreases sub
  {
    if sub == 0 {
    } else {
      PageStartIs(start, page, sub - 1);
      AddTimes(sub - 1, 1, page);
    }
  }

  /** The block is done after all its pages, or when the next one would start past RAM. */
  lemma BlockDone(start: nat, page: nat, ramSize: nat, sub: nat, perBlock: nat)
    requires start < ramSize && 0 < sub <= perBlock
    requires sub == perBlock || PageStart(start, page, sub) >= ramSize
    requires PageStart(start, page, sub) - page < ramSize
    ensures Min(PageStart(start, page, sub), ramSize) == start + Min(perBlock * page, ramSize - start)
    ensures start + (sub - 1) * page < ramSize
    ensures sub < perBlock ==> start + sub * page >= ramSize
  {
    PageStartIs(start, page, sub);
    PageStartIs(start, page, sub - 1);
    TimesOrdered(sub, perBlock, page);
  }

  lemma FillMore(files: Files, path: Path, content: seq<Byte>, ram: seq<Byte>, start: nat, at: nat, chunk: nat)
    requires start <= at && at + chunk <= |ram|
    ensures var image := Filled(content, ram, start, at);
            files[path := image][path := Splice(image, at, Slice(ram, at, chunk))] ==
            files[path := Filled(content, ram, start, at + chunk)]
  {
    var a, b := ram[start..at], ram[at..at + chunk];
    SpliceTwice(content, start, a, b);
    assert a + b == ram[start..at + chunk];
  }

  lemma TimesOrdered(a: nat, b: nat, c: nat)
    requires a <= b
    ensures a * c <= b * c
  {
    MulOrdered(c, a, b);
  }

  /** Memory page `block * perBlock + sub` exists exactly when the byte the loop computes is in RAM. */
  lemma PagePosition(ramSize: nat, page: nat, perBlock: nat, block: nat, sub: nat)
    requires page > 0
    ensures block * perBlock + sub < CeilDiv(ramSize, page) <==> block * (page * perBlock) + sub * page < ramSize
  {
    CeilDivBound(ramSize, page, block * perBlock + sub);
    AddTimes(block * perBlock, sub, page);
    TimesReorder(block, perBlock, page);
  }

  /** The memory pages counted so far, after `block` whole blocks. */
  function PagesBelow(ramSize: nat, page: nat, perBlock: nat, block: nat): nat
    requires page > 0
  {
    Min(block * perBlock, CeilDiv(ramSize, page))
  }

  lemma CleanBlockPages(dirty: set<nat>, ramSize: nat, page: nat, perBlock: nat, block: nat)
    requires page > 0 && perBlock > 0 && block !in dirty
    ensures PagesUnder(dirty, perBlock, PagesBelow(ramSize, page, perBlock, block + 1)) ==
            PagesUnder(dirty, perBlock, PagesBelow(ramSize, page, perBlock, block))
  {
    AddTimes(block, 1, perBlock);
    var lo, hi := PagesBelow(ramSize, page, perBlock, block), PagesBelow(ramSize, page, perBlock, block + 1);
    if lo == block * perBlock { PagesUnderClean(dirty, perBlock, block, hi - lo); }
  }

  lemma DirtyBlockPages(dirty: set<nat>, ramSize: nat, page: nat, perBlock: nat, block: nat, written: nat)
    requires page > 0 && perBlock > 0 && block in dirty && 0 < written <= perBlock
    requires block * (page * perBlock) + (written - 1) * page < ramSize
    requires written < perBlock ==> block * (page * perBlock) + written * page >= ramSize
    ensures PagesUnder(dirty, perBlock, PagesBelow(ramSize, page, perBlock, block + 1)) ==
            PagesUnder(dirty, perBlock, PagesBelow(ramSize, page, perBlock, block)) + written
  {
    AddTimes(block, 1, perBlock);
    PagePosition(ramSize, page, perBlock, block, written - 1);
    PagePosition(ramSize, page, perBlock, block, written);
    PagesUnderDirty(dirty, perBlock, block, written);
  }

  lemma BlockInRam(ramSize: nat, page: nat, idx: nat)
    requires page > 0 && idx < CeilDiv(ramSize, page)
    ensures 0 <= idx * page < ramSize
  {
    CeilDivBound(ramSize, page, idx);
    TimesOrdered(0, idx, page);
  }

  /** What writing one dirty block does to the image and to the page count. */
  lemma BlockWritten(base: seq<Byte>, ram: seq<Byte>, dirty: set<nat>, ramSize: nat, page: nat, perBlock: nat,
                     blockSize: nat, idx: nat, start: nat, written: nat)
    requires page > 0 && perBlock > 0 && blockSize == page * perBlock && blockSize > 0 && idx in dirty
    requires |base| == ramSize && start == idx * blockSize < ramSize && 0 < written <= perBlock
    requires PageStart(start, page, written) - page < ramSize && Min(PageStart(start, page, written), ramSize) <= |ram|
    requires written < perBlock ==> PageStart(start, page, written) >= ramSize
    ensures Filled(Patched(base, ram, blockSize, dirty, start), ram, start,
                   Min(PageStart(start, page, written), ramSize)) ==
            Patched(base, ram, blockSize, dirty, (idx + 1) * blockSize)
    ensures PagesUnder(dirty, perBlock, PagesBelow(ramSize, page, perBlock, idx + 1)) ==
            PagesUnder(dirty, perBlock, PagesBelow(ramSize, page, perBlock, idx)) + written
  {
    AddTimes(idx, 1, blockSize);
    BlockDone(start, page, ramSize, written, perBlock);
    TimesCommute(perBlock, page);
    PatchDirtyBlock(base, ram, blockSize, dirty, idx);
    DirtyBlockPages(dirty, ramSize, page, perBlock, idx, written);
  }

  lemma AddTimes(a: int, b: int, c: int)
    ensures (a + b) * c == a * c + b * c
  {
  }

  lemma TimesReorder(a: int, b: int, c: int)
    ensures (a * b) * c == a * (c * b)
  {
  }

  lemma TimesCommute(a: int, b: int)
    ensures a * b == b * a
  {
  }
}
