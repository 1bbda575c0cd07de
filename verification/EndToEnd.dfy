/**
 Guest RAM, dirty tracking and the diff snapshot together.

 After a clean checkpoint the guest's RAM is write-protected: a write to a page that is not
 dirty yet faults, and the handler marks the page and grants it; later writes to a dirty page
 need not fault.  Ticks may rebuild the bitmap at any point.
 */
module EndToEnd {
  import opened Words
  import opened Outcomes
  import opened Envelope
  import opened Disk
  import opened Bitmap
  import opened Region
  import opened Memory
  import opened Save
  import Pager
  import RegionRuns

  datatype Event =
    | FaultedWrite(addr: nat, byte: Byte)
    | GrantedWrite(addr: nat, byte: Byte)
    | AdaptiveTick(now: nat)

  datatype Machine = Machine(region: Tracked, ram: seq<Byte>)

  ghost predicate Valid(m: Machine) {
    m.region.Valid() && |m.ram| == m.region.tracking.ramSize
  }

  function Store(m: Machine, addr: nat, byte: Byte): seq<Byte>
    requires |m.ram| == m.region.tracking.ramSize
  {
    if m.region.tracking.Covers(addr) then m.ram[addr - m.region.tracking.ramStart := byte] else m.ram
  }

  /** A write goes through without a fault only where the page has been granted, i.e. is dirty. */
  ghost predicate Enabled(m: Machine, e: Event)
    requires Valid(m)
  {
    e.GrantedWrite? ==> m.region.tracking.IsDirty(e.addr)
  }

  ghost function Step(m: Machine, e: Event): (m': Machine)
    requires Valid(m)
    ensures Valid(m')
    ensures m'.region.tracking.ramStart == m.region.tracking.ramStart && |m'.ram| == |m.ram|
  {
    match e
    case FaultedWrite(addr, byte) =>
      RegionRuns.StepValid(m.region, RegionRuns.Fault(addr));
      Machine(m.region.MarkDirty(addr), Store(m, addr, byte))
    case GrantedWrite(addr, byte) => Machine(m.region, Store(m, addr, byte))
    case AdaptiveTick(now) =>
      RegionRuns.StepValid(m.region, RegionRuns.Tick(now));
      Machine(m.region.TickAdaptive(now), m.ram)
  }

  ghost predicate IsRun(m: Machine, events: seq<Event>)
    requires Valid(m)
    decreases |events|
  {
    events == [] || (Enabled(m, events[0]) && IsRun(Step(m, events[0]), events[1..]))
  }

  ghost function Run(m: Machine, events: seq<Event>): (m': Machine)
    requires Valid(m) && IsRun(m, events)
    ensures Valid(m')
    ensures m'.region.tracking.ramStart == m.region.tracking.ramStart && |m'.ram| == |m.ram|
    decreases |events|
  {
    if events == [] then m else Run(Step(m, events[0]), events[1..])
  }

  /** Every byte that differs from the checkpoint is on a dirty page. */
  ghost predicate Tracks(m: Machine, checkpoint: seq<Byte>)
    requires Valid(m)
  {
    && |checkpoint| == |m.ram|
    && forall off :: 0 <= off < |m.ram| && m.ram[off] != checkpoint[off] ==>
         m.region.tracking.IsDirty(m.region.tracking.ramStart + off)
  }

  lemma StepTracks(m: Machine, e: Event, checkpoint: seq<Byte>)
    requires Valid(m) && Enabled(m, e) && Tracks(m, checkpoint)
    ensures Tracks(Step(m, e), checkpoint)
  {
    var m' := Step(m, e);
    var start := m.region.tracking.ramStart;
    forall off | 0 <= off < |m'.ram| && m'.ram[off] != checkpoint[off]
      ensures m'.region.tracking.IsDirty(start + off)
    {
      match e
      case FaultedWrite(addr, byte) => RegionRuns.FaultKeepsAddresses(m.region, addr, start + off);
      case GrantedWrite(addr, byte) =>
      case AdaptiveTick(now) => RegionRuns.TickKeepsAddresses(m.region, now, start + off);
    }
  }

  lemma {:induction false} RunTracks(m: Machine, events: seq<Event>, checkpoint: seq<Byte>)
    requires Valid(m) && Tracks(m, checkpoint) && IsRun(m, events)
    ensures Tracks(Run(m, events), checkpoint)
    decreases |events|
  {
    if events == [] {
    } else {
      StepTracks(m, events[0], checkpoint);
      RunTracks(Step(m, events[0]), events[1..], checkpoint);
    }
  }

  /** A diff image laid over the checkpoint. */
  lemma OverlayRestores(m: Machine, checkpoint: seq<Byte>)
    requires Valid(m) && Tracks(m, checkpoint)
    ensures var t := m.region.tracking;
            Overlay(checkpoint, Overlay(Zeros(t.ramSize), m.ram, t.pageSize, t.dirty), t.pageSize, t.dirty) == m.ram
  {
    var t := m.region.tracking;
    var diff := Overlay(Zeros(t.ramSize), m.ram, t.pageSize, t.dirty);
    forall off: nat | off < |m.ram|
      ensures Overlay(checkpoint, diff, t.pageSize, t.dirty)[off] == m.ram[off]
    {
      assert BlockOf(off, t.pageSize) in t.dirty <==> t.IsDirty(t.ramStart + off);
    }
  }

  /**
   For every run from a clean bitmap, whatever mix of faulting writes, granted writes and
   step-downs it holds: the diff file laid over the RAM image of the clean point is current RAM.
   */
  lemma DiffDescribesRam(m: Machine, events: seq<Event>)
    requires Valid(m) && m.region.tracking.dirty == {} && IsRun(m, events)
    ensures var m' := Run(m, events);
            var t := m'.region.tracking;
            Overlay(m.ram, Overlay(Zeros(t.ramSize), m'.ram, t.pageSize, t.dirty), t.pageSize, t.dirty) == m'.ram
  {
    RunTracks(m, events, m.ram);
    OverlayRestores(Run(m, events), m.ram);
  }

  /**
   Saving the region's bitmap after any run from a clean point: on success the memory file on
   disk, laid over the RAM image of that point, is current RAM.
   */
  method SaveDiff<D>(region: TrackedRegion, ram: seq<Byte>, fs: FileSystem, codec: Codec<VmState<D>>, poly: nat,
                     statePath: Path, memoryPath: Path, state: VmState<D>, memoryPageSize: nat,
                     ghost m: Machine, ghost events: seq<Event>)
    returns (r: Result<Report>)
    requires Valid(m) && m.region.tracking.dirty == {} && IsRun(m, events)
    requires region.Valid() && Run(m, events) == Machine(region.Meaning(), ram)
    requires fs.Valid() && DistinctPaths(statePath, memoryPath)
    modifies fs
    ensures fs.Valid()
    ensures r.Ok? ==> memoryPath in fs.files &&
                      Overlay(m.ram, fs.files[memoryPath], region.bitmap.pageSize, region.bitmap.dirty) == ram
    ensures r.Err? ==> Lookup(fs.files, memoryPath) == Lookup(old(fs.files), memoryPath)
  {
    ghost var a, b;
    r, a, b := SaveSnapshot(fs, codec, poly, statePath, memoryPath, Diff, state,
                            ram, region.bitmap.ramSize, memoryPageSize, region.bitmap);
    DiffDescribesRam(m, events);
  }

  /**
   A full save followed by a lazy restore from the file it left: the file is RAM, every fault in
   the region is served right exactly when the region starts and ends on page boundaries, and
   then so is the fault at hand.
   */
  method SaveFullAndServe<D>(ram: seq<Byte>, ramStart: nat, fs: FileSystem, codec: Codec<VmState<D>>, poly: nat,
                             statePath: Path, memoryPath: Path, state: VmState<D>, page: nat, ipa: nat)
    returns (saved: Result<Report>, served: Pager.Served)
    requires ram != [] && ramStart + |ram| < U64_LIMIT && ramStart <= ipa < ramStart + |ram|
    requires IsPowerOfTwo(page) && 0 < page < U64_LIMIT
    requires fs.Valid() && DistinctPaths(statePath, memoryPath)
    modifies fs
    ensures fs.Valid()
    ensures saved.Ok? ==> Lookup(fs.files, memoryPath) == Some(ram)
    ensures saved.Ok? ==> served == Pager.Serve(map[ramStart := |ram|], ram, ramStart, ipa, page)
    ensures saved.Ok? ==>
              ((forall at: nat :: ramStart <= at < ramStart + |ram| ==>
                  Pager.ServedRight(map[ramStart := |ram|], ram, ramStart, at, page)) <==>
               ramStart % page == 0 && |ram| % page == 0)
    ensures saved.Ok? && ramStart % page == 0 && |ram| % page == 0 ==>
              served.Page? && served.bytes[ipa % page] == ram[ipa - ramStart]
  {
    ghost var a, b;
    saved, a, b := SaveSnapshot(fs, codec, poly, statePath, memoryPath, Full, state, ram, |ram|, page, null);
    if saved.Err? {
      return saved, Pager.Failed(Pager.Source(Pager.Open));
    }
    assert ram[0..|ram|] == ram;
    var pager := new Pager.Pager(fs.files[memoryPath], ramStart);
    pager.RegisterRegion(ramStart, |ram|);
    served := pager.ServeFault(ipa, page);
    assert pager.regions == map[ramStart := |ram|];
    Pager.FullDumpServesIff(pager.regions, ram, ramStart, page);
    if ramStart % page == 0 && |ram| % page == 0 {
      Pager.AlignedIsServed(pager.regions, ram, ramStart, ipa, page);
    }
  }

  // ---- the converse: nothing far from a write is in the diff -----------------------------------

  /** Some write of the run hit the default-size block of `addr`. */
  ghost predicate BlockWritten(m: Machine, events: seq<Event>, addr: nat)
    requires m.region.geometry.trackingPageDefault > 0
  {
    exists i :: 0 <= i < |events| && SameBlock(m, events[i], addr)
  }

  ghost predicate SameBlock(m: Machine, e: Event, addr: nat)
    requires m.region.geometry.trackingPageDefault > 0
  {
    && e.FaultedWrite?
    && m.region.tracking.Covers(e.addr) && m.region.tracking.Covers(addr)
    && BlockOf(e.addr - m.region.tracking.ramStart, m.region.geometry.trackingPageDefault) ==
       BlockOf(addr - m.region.tracking.ramStart, m.region.geometry.trackingPageDefault)
  }

  /** The active page size divides the default one: it is a power of two no larger. */
  ghost predicate WithinDefault(m: Machine) {
    && m.region.Valid()
    && IsPowerOfTwo(m.region.geometry.trackingPageDefault)
    && m.region.tracking.pageSize <= m.region.geometry.trackingPageDefault
  }

  lemma SamePageSameBlock(x: nat, y: nat, page: nat, block: nat)
    requires IsPowerOfTwo(page) && IsPowerOfTwo(block) && 0 < page <= block
    requires x / page == y / page
    ensures BlockOf(x, block) == BlockOf(y, block)
  {
    BlockOfFinePage(x, page, block);
    BlockOfFinePage(y, page, block);
  }

  lemma StepPrecise(m: Machine, e: Event, addr: nat)
    requires Valid(m) && WithinDefault(m) && Enabled(m, e)
    requires Step(m, e).region.tracking.IsDirty(addr)
    ensures m.region.tracking.IsDirty(addr) || SameBlock(m, e, addr)
  {
    match e
    case FaultedWrite(at, byte) =>
      var t := m.region.tracking;
      if !t.IsDirty(addr) {
        SamePageSameBlock(at - t.ramStart, addr - t.ramStart, t.pageSize, m.region.geometry.trackingPageDefault);
      }
    case GrantedWrite(_, _) =>
    case AdaptiveTick(now) => RegionRuns.TickKeepsAddresses(m.region, now, addr);
  }

  lemma StepWithinDefault(m: Machine, e: Event)
    requires Valid(m) && WithinDefault(m)
    ensures WithinDefault(Step(m, e)) && Step(m, e).region.geometry == m.region.geometry
    ensures Step(m, e).region.tracking.ramSize == m.region.tracking.ramSize
  {
  }

  /** Every dirty address shares a default-size block with some faulting write of the run. */
  lemma {:induction false} DiffIsPrecise(m: Machine, events: seq<Event>, addr: nat)
    requires Valid(m) && WithinDefault(m) && IsRun(m, events)
    requires Run(m, events).region.tracking.IsDirty(addr)
    ensures m.region.tracking.IsDirty(addr) || BlockWritten(m, events, addr)
    decreases |events|
  {
    if events == [] {
    } else {
      var m', rest := Step(m, events[0]), events[1..];
      StepWithinDefault(m, events[0]);
      DiffIsPrecise(m', rest, addr);
      if m'.region.tracking.IsDirty(addr) {
        StepPrecise(m, events[0], addr);
        assert m.region.tracking.IsDirty(addr) || SameBlock(m, events[0], addr);
      } else {
        var i :| 0 <= i < |rest| && SameBlock(m', rest[i], addr);
        assert rest[i] == events[i + 1] && SameBlock(m, events[i + 1], addr);
      }
    }
  }
}
