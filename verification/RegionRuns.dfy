/**
 Whole histories of a tracked region: when it steps down, and what a step-down keeps.
 */
module RegionRuns {
  import opened Words
  import opened Bitmap
  import opened Region

  datatype Event = Fault(addr: nat) | Tick(now: nat)

  function Step(r: Tracked, e: Event): Tracked
    requires r.tracking.pageSize > 0 && r.geometry.trackingPageDefault > 0
  {
    match e
    case Fault(addr) => r.MarkDirty(addr)
    case Tick(now) => r.TickAdaptive(now)
  }

  lemma StepValid(r: Tracked, e: Event)
    requires r.Valid()
    ensures Step(r, e).Valid() && Step(r, e).geometry == r.geometry
    ensures Step(r, e).tracking.ramStart == r.tracking.ramStart
    ensures Step(r, e).tracking.ramSize == r.tracking.ramSize
  {
    match e
    case Fault(addr) => MarkValid(r.tracking, addr);
    case Tick(now) =>
      var target := r.geometry.PageSize(r.controller.Tick(now).granule);
      if IsPowerOfTwo(target) && target < r.tracking.pageSize { RefineValid(r.tracking, target); }
  }

  /** The region after a history, oldest event first. */
  ghost function Run(r: Tracked, history: seq<Event>): (r': Tracked)
    requires r.Valid()
    ensures r'.Valid() && r'.geometry == r.geometry
    ensures r'.tracking.ramStart == r.tracking.ramStart && r'.tracking.ramSize == r.tracking.ramSize
  {
    if history == [] then r
    else
      var before := Run(r, history[..|history| - 1]);
      StepValid(before, history[|history| - 1]);
      Step(before, history[|history| - 1])
  }

  // ---- when the granule steps down ---------------------------------------------------------

  /** When the current window opened, read off the history alone. */
  function WindowStart(t0: nat, history: seq<Event>): nat
    decreases |history|, 0
  {
    if history == [] then t0
    else
      var n := |history| - 1;
      if ClosesWindow(t0, history, n) then history[n].now else WindowStart(t0, history[..n])
  }

  /** Event `n` is a tick that ends the window in which it falls. */
  predicate ClosesWindow(t0: nat, history: seq<Event>, n: nat)
    requires n < |history|
    decreases n, 1
  {
    history[n].Tick? && Elapsed(WindowStart(t0, history[..n]), history[n].now) >= ADAPTIVE_WINDOW
  }

  /** Faults charged to `block` since the current window opened. */
  function WindowFaults(r: Tracked, t0: nat, history: seq<Event>, block: nat): nat
    requires r.geometry.trackingPageDefault > 0
  {
    if history == [] then 0
    else
      var n := |history| - 1;
      var before := WindowFaults(r, t0, history[..n], block);
      match history[n]
      case Fault(addr) => if Charges(r, addr, block) then before + 1 else before
      case Tick(_) => if ClosesWindow(t0, history, n) then 0 else before
  }

  predicate Charges(r: Tracked, addr: nat, block: nat)
    requires r.geometry.trackingPageDefault > 0
  {
    r.tracking.ramStart <= addr && (addr - r.tracking.ramStart) / r.geometry.trackingPageDefault == block
  }

  /** The window closed by event `n` had one block above the threshold (counters are 32-bit). */
  ghost predicate HotWindow(r: Tracked, t0: nat, history: seq<Event>, n: nat)
    requires n < |history| && r.geometry.trackingPageDefault > 0
  {
    && ClosesWindow(t0, history, n)
    && exists block :: 0 <= block < |r.controller.faults| &&
                       WindowFaults(r, t0, history[..n], block) % U32_LIMIT > r.controller.threshold
  }

  ghost predicate Started(r: Tracked, t0: nat) {
    && r.Valid()
    && r.controller.lastReset == t0
    && r.controller.granule.Coarse?
    && r.tracking.pageSize == r.geometry.trackingPageDefault
    && forall b :: 0 <= b < |r.controller.faults| ==> r.controller.faults[b] == 0
  }

  lemma {:induction false} CountersMatchHistory(r: Tracked, t0: nat, history: seq<Event>)
    requires Started(r, t0)
    ensures CountersAgree(r, t0, history)
  {
    if history == [] {
    } else {
      var n := |history| - 1;
      CountersMatchHistory(r, t0, history[..n]);
      CountersStep(r, t0, history);
    }
  }

  ghost predicate CountersAgree(r: Tracked, t0: nat, history: seq<Event>)
    requires Started(r, t0)
  {
    var c := Run(r, history).controller;
    && c.threshold == r.controller.threshold
    && c.lastReset == WindowStart(t0, history)
    && |c.faults| == |r.controller.faults|
    && forall b :: 0 <= b < |r.controller.faults| ==>
         c.faults[b] == WindowFaults(r, t0, history, b) % U32_LIMIT
  }

  lemma CountersStep(r: Tracked, t0: nat, history: seq<Event>)
    requires Started(r, t0) && history != [] && CountersAgree(r, t0, history[..|history| - 1])
    ensures CountersAgree(r, t0, history)
  {
    var n := |history| - 1;
    var before, after := Run(r, history[..n]), Run(r, history);
    match history[n]
    case Tick(now) =>
    case Fault(addr) =>
      FaultCharges(before, addr);
      forall b | 0 <= b < |r.controller.faults|
        ensures after.controller.faults[b] == WindowFaults(r, t0, history, b) % U32_LIMIT
      {
        assert Charges(r, addr, b) == Charges(before, addr, b);
        SuccessorModulo(WindowFaults(r, t0, history[..n], b));
      }
  }

  /** A fault adds one to the block it is charged to and to no other. */
  lemma FaultCharges(r: Tracked, addr: nat)
    requires r.Valid()
    ensures var c := Step(r, Fault(addr)).controller;
            && c.threshold == r.controller.threshold && c.lastReset == r.controller.lastReset
            && |c.faults| == |r.controller.faults|
            && forall b :: 0 <= b < |c.faults| ==>
                 c.faults[b] == if Charges(r, addr, b) then (r.controller.faults[b] + 1) % U32_LIMIT
                                else r.controller.faults[b]
  {
  }

  lemma SuccessorModulo(k: nat)
    ensures (k % U32_LIMIT + 1) % U32_LIMIT == (k + 1) % U32_LIMIT
  {
  }

  /**
   Over every history: the granule is Fine exactly when some closed window had one block with
   more faults than the threshold.
   */
  lemma {:induction false} FineIffHotWindow(r: Tracked, t0: nat, history: seq<Event>)
    requires Started(r, t0)
    ensures Run(r, history).controller.granule.Fine? <==>
            exists n :: 0 <= n < |history| && HotWindow(r, t0, history, n)
  {
    if history == [] {
    } else {
      var last := |history| - 1;
      var front := history[..last];
      FineIffHotWindow(r, t0, front);
      forall n | 0 <= n < last
        ensures HotWindow(r, t0, front, n) <==> HotWindow(r, t0, history, n)
      {
        assert front[..n] == history[..n];
      }
      CountersMatchHistory(r, t0, front);
      LastEventHot(r, t0, history);
    }
  }

  lemma LastEventHot(r: Tracked, t0: nat, history: seq<Event>)
    requires Started(r, t0) && history != []
    requires CountersAgree(r, t0, history[..|history| - 1])
    ensures Run(r, history).controller.granule.Fine? <==>
            Run(r, history[..|history| - 1]).controller.granule.Fine? || HotWindow(r, t0, history, |history| - 1)
  {
    var last := |history| - 1;
    var c := Run(r, history[..last]).controller;
    if ClosesWindow(t0, history, last) {
      if Max(c.faults) > c.threshold {
        var b :| 0 <= b < |c.faults| && c.faults[b] == Max(c.faults);
        assert WindowFaults(r, t0, history[..last], b) % U32_LIMIT > r.controller.threshold;
      } else {
        forall b | 0 <= b < |r.controller.faults|
          ensures WindowFaults(r, t0, history[..last], b) % U32_LIMIT <= r.controller.threshold
        {
          assert c.faults[b] <= Max(c.faults);
        }
      }
    }
  }

  /** Once Fine, always Fine. */
  lemma {:induction false} GranuleNeverReturns(r: Tracked, history: seq<Event>, n: nat)
    requires r.Valid() && n <= |history|
    ensures Run(r, history[..n]).controller.granule.Fine? ==> Run(r, history).controller.granule.Fine?
    decreases |history| - n
  {
    if n < |history| {
      assert history[..n + 1][..n] == history[..n];
      GranuleNeverReturns(r, history, n + 1);
    } else {
      assert history[..n] == history;
    }
  }

  /**
   The bitmap's page size is the granule's page size in every reachable state that is still
   Coarse, and in a Fine state exactly when the geometry can step down.
   */
  lemma {:induction false} PageSizeMatchesGranule(r: Tracked, t0: nat, history: seq<Event>)
    requires Started(r, t0)
    ensures var s := Run(r, history);
            s.tracking.pageSize == s.geometry.PageSize(s.controller.granule) <==>
            s.controller.granule.Coarse? || s.geometry.StepsDown()
    ensures var s := Run(r, history);
            s.tracking.pageSize == s.geometry.trackingPageDefault ||
            (s.controller.granule.Fine? && s.geometry.StepsDown() && s.tracking.pageSize == s.geometry.trackingPageHot)
  {
    if history == [] {
    } else {
      PageSizeMatchesGranule(r, t0, history[..|history| - 1]);
    }
  }

  lemma OneBlock(page: nat)
    requires page > 0
    ensures CeilDiv(page, page) == 1
  {
  }

  /** Every geometry that cannot step down is reached in the Fine state with its bitmap kept. */
  lemma FineWithBitmapKept(geometry: Geometry)
    requires IsPowerOfTwo(geometry.trackingPageDefault) && 0 < geometry.trackingPageDefault < U64_LIMIT
    requires !geometry.StepsDown()
    ensures var r := Fresh(0, geometry.trackingPageDefault, geometry, 0, 0);
            var history := [Fault(0), Tick(ADAPTIVE_WINDOW)];
            && Started(r, 0) && Run(r, history).controller.granule.Fine?
            && Run(r, history).tracking.pageSize == geometry.trackingPageDefault
            && Run(r, history).tracking.pageSize != geometry.PageSize(Fine)
  {
    var r := Fresh(0, geometry.trackingPageDefault, geometry, 0, 0);
    OneBlock(geometry.trackingPageDefault);
    TwoEvents(r, Fault(0), Tick(ADAPTIVE_WINDOW));
    FirstFaultCounts(r);
    PageSizeMatchesGranule(r, 0, [Fault(0), Tick(ADAPTIVE_WINDOW)]);
  }

  lemma TwoEvents(r: Tracked, a: Event, b: Event)
    requires r.Valid()
    ensures Step(r, a).Valid() && Run(r, [a, b]) == Step(Step(r, a), b)
  {
    StepValid(r, a);
    assert [a][..0] == [] && [a, b][..1] == [a] && Run(r, []) == r;
    assert Run(r, [a]) == Step(r, a);
  }

  lemma FirstFaultCounts(r: Tracked)
    requires r.Valid() && r.tracking.ramStart == 0 && |r.controller.faults| == 1 && r.controller.faults[0] == 0
    ensures Max(Step(r, Fault(0)).controller.faults) >= 1
  {
    var faults := Step(r, Fault(0)).controller.faults;
    assert 0 / r.geometry.trackingPageDefault == 0;
    assert faults[0] == 1;
    assert faults[0] <= Max(faults);
  }

  // ---- the step-down keeps every address's answer -------------------------------------------

  lemma TickKeepsAddresses(r: Tracked, now: nat, addr: nat)
    requires r.Valid()
    ensures Step(r, Tick(now)).Valid()
    ensures Step(r, Tick(now)).tracking.IsDirty(addr) == r.tracking.IsDirty(addr)
  {
    StepValid(r, Tick(now));
    var target := r.geometry.PageSize(r.controller.Tick(now).granule);
    if IsPowerOfTwo(target) && target < r.tracking.pageSize {
      RefineKeepsAddresses(r.tracking, target, addr);
    }
  }

  lemma FaultKeepsAddresses(r: Tracked, at: nat, addr: nat)
    requires r.Valid()
    ensures r.tracking.IsDirty(addr) ==> Step(r, Fault(at)).tracking.IsDirty(addr)
    ensures r.tracking.Covers(at) ==> Step(r, Fault(at)).tracking.IsDirty(at)
  {
  }

  /** A dirty address stays dirty over any continuation of the history. */
  lemma {:induction false} DirtyIsStable(r: Tracked, history: seq<Event>, addr: nat)
    requires r.Valid() && r.tracking.IsDirty(addr)
    ensures Run(r, history).tracking.IsDirty(addr)
  {
    if history == [] {
    } else {
      var n := |history| - 1;
      var before := Run(r, history[..n]);
      DirtyIsStable(r, history[..n], addr);
      match history[n]
      case Fault(at) => FaultKeepsAddresses(before, at, addr);
      case Tick(now) => TickKeepsAddresses(before, now, addr);
    }
  }
}
