/**
 Adaptive dirty tracking of one RAM region (crates/snapshot/src/dirty.rs): a bitmap, and a
 controller that counts faults per coarse block and asks for smaller pages when one runs hot.

 Time is a parameter of the operations that read the clock, in nanoseconds.
 */
module Region {
  import opened Words
  import opened Outcomes
  import opened Bitmap

  const DEFAULT_STEP_DOWN_THRESHOLD: nat := 32
  const ADAPTIVE_WINDOW: nat := 100_000_000

  datatype Granule = Coarse | Fine

  datatype Geometry = Geometry(trackingPageDefault: nat, trackingPageHot: nat) {
    function PageSize(g: Granule): nat {
      if g.Coarse? then trackingPageDefault else trackingPageHot
    }

    /** The hot page can actually replace the default one. */
    predicate StepsDown() {
      IsPowerOfTwo(trackingPageHot) && trackingPageHot <= trackingPageDefault
    }
  }

  const APPLE_SILICON: Geometry := Geometry(2 * 1024 * 1024, 16 * 1024)

  function Max(s: seq<nat>): (m: nat)
    ensures forall i :: 0 <= i < |s| ==> s[i] <= m
    ensures m == 0 || exists i :: 0 <= i < |s| && s[i] == m
  {
    if s == [] then 0
    else
      var m := Max(s[..|s| - 1]);
      if s[|s| - 1] > m then s[|s| - 1] else m
  }

  /** `Instant::duration_since` saturates at zero. */
  function Elapsed(since: nat, now: nat): nat {
    if now < since then 0 else now - since
  }

  datatype Controller = Controller(threshold: nat, faults: seq<nat>, lastReset: nat, granule: Granule) {

    function RecordFault(block: nat): Controller {
      if block < |faults| then this.(faults := faults[block := (faults[block] + 1) % U32_LIMIT]) else this
    }

    function Tick(now: nat): Controller {
      if Elapsed(lastReset, now) < ADAPTIVE_WINDOW then this
      else
        Controller(threshold, seq(|faults|, _ => 0), now,
                   if Max(faults) > threshold then Fine else granule)
    }
  }

  class AdaptiveController {
    const threshold: nat
    const blockFaults: array<nat>
    var lastReset: nat
    var granule: Granule

    ghost function Meaning(): Controller
      reads this, blockFaults
    {
      Controller(threshold, blockFaults[..], lastReset, granule)
    }

    constructor WithThreshold(blockCount: nat, threshold: nat, now: nat)
      ensures fresh(blockFaults)
      ensures Meaning() == Controller(threshold, seq(blockCount, _ => 0), now, Coarse)
    {
      this.threshold := threshold;
      blockFaults := new nat[blockCount](_ => 0);
      lastReset, granule := now, Coarse;
    }

    method RecordFault(blockIdx: nat)
      modifies this, blockFaults
      ensures Meaning() == old(Meaning()).RecordFault(blockIdx)
    {
      if blockIdx < blockFaults.Length {
        blockFaults[blockIdx] := (blockFaults[blockIdx] + 1) % U32_LIMIT;
      }
    }

    method Tick(now: nat) returns (g: Granule)
      modifies this, blockFaults
      ensures Meaning() == old(Meaning()).Tick(now) && g == granule
    {
      if Elapsed(lastReset, now) < ADAPTIVE_WINDOW {
        return granule;
      }
      ghost var counts := blockFaults[..];
      var maxInWindow := 0;
      for i := 0 to blockFaults.Length
        invariant forall j :: 0 <= j < i ==> blockFaults[j] == 0
        invariant forall j :: i <= j < blockFaults.Length ==> blockFaults[j] == counts[j]
        invariant maxInWindow == Max(counts[..i])
        invariant unchanged(this)
      {
        var count := blockFaults[i];
        blockFaults[i] := 0;
        assert counts[..i + 1][..i] == counts[..i];
        if count > maxInWindow {
          maxInWindow := count;
        }
      }
      assert counts[..blockFaults.Length] == counts;
      assert blockFaults[..] == seq(|counts|, _ => 0);
      lastReset := now;
      if maxInWindow > threshold && granule == Coarse {
        granule := Fine;
      }
      return granule;
    }
  }

  /** What a tracked region means. */
  datatype Tracked = Tracked(tracking: Tracking, controller: Controller, geometry: Geometry) {

    ghost predicate Valid() {
      tracking.Valid() && geometry.trackingPageDefault > 0
    }

    /** `mark_dirty`: one fault in the coarse block of `addr`, and the page of `addr` is dirty. */
    function MarkDirty(addr: nat): Tracked
      requires tracking.pageSize > 0 && geometry.trackingPageDefault > 0
    {
      var c := if addr < tracking.ramStart then controller
               else controller.RecordFault((addr - tracking.ramStart) / geometry.trackingPageDefault);
      Tracked(tracking.Mark(addr), c, geometry)
    }

    /** `tick_adaptive`: close the window if due, then rebuild the bitmap at the wanted page size. */
    function TickAdaptive(now: nat): Tracked
      requires tracking.pageSize > 0
    {
      var c := controller.Tick(now);
      Tracked(Rebuild(tracking, geometry.PageSize(c.granule)), c, geometry)
    }
  }

  /** The bitmap is replaced only when the wanted page size is a smaller power of two. */
  function Rebuild(t: Tracking, target: nat): Tracking
    requires t.pageSize > 0
  {
    if IsPowerOfTwo(target) && target < t.pageSize
    then
      DivMonotone(target, t.pageSize, target);
      t.Refine(target)
    else t
  }

  class TrackedRegion {
    var bitmap: DirtyBitmap
    const controller: AdaptiveController
    const geometry: Geometry

    ghost predicate Valid()
      reads this, bitmap, bitmap.words
    {
      && bitmap.Valid() && geometry.trackingPageDefault > 0
      && bitmap.words != controller.blockFaults
    }

    ghost function Meaning(): Tracked
      reads this, bitmap, bitmap.words, controller, controller.blockFaults
    {
      Tracked(bitmap.Meaning(), controller.Meaning(), geometry)
    }

    constructor Over(bitmap: DirtyBitmap, controller: AdaptiveController, geometry: Geometry)
      requires bitmap.Valid() && bitmap.words != controller.blockFaults && geometry.trackingPageDefault > 0
      ensures Valid() && this.bitmap == bitmap && this.controller == controller && this.geometry == geometry
    {
      this.bitmap, this.controller, this.geometry := bitmap, controller, geometry;
    }

    static method WithThreshold(ramStart: nat, ramSize: nat, geometry: Geometry, threshold: nat, now: nat)
      returns (r: Result<TrackedRegion>)
      ensures r.Ok? <==> IsPowerOfTwo(geometry.trackingPageDefault) && 0 < ramSize && ramStart + ramSize < U64_LIMIT
      ensures r.Ok? ==> fresh(r.value) && r.value.Valid()
      ensures r.Ok? ==> geometry.trackingPageDefault > 0 &&
                        r.value.Meaning() == Fresh(ramStart, ramSize, geometry, threshold, now)
    {
      var b := DirtyBitmap.New(ramStart, ramSize, geometry.trackingPageDefault);
      if b.Err? {
        return Err(b.error);
      }
      var c := new AdaptiveController.WithThreshold(b.value.pageCount, threshold, now);
      var region := new TrackedRegion.Over(b.value, c, geometry);
      return Ok(region);
    }

    method MarkDirty(addr: nat) returns (transitioned: bool)
      requires Valid()
      modifies bitmap, bitmap.words, controller, controller.blockFaults
      ensures Valid() && Meaning() == old(Meaning()).MarkDirty(addr)
      ensures transitioned <==> Meaning().tracking.Covers(addr) && !old(Meaning()).tracking.IsDirty(addr)
    {
      if addr >= bitmap.ramStart {
        controller.RecordFault((addr - bitmap.ramStart) / geometry.trackingPageDefault);
      }
      transitioned := bitmap.SetDirty(addr);
    }

    method TickAdaptive(now: nat) returns (g: Granule)
      requires Valid()
      modifies this, controller, controller.blockFaults
      ensures Valid() && Meaning() == old(Meaning()).TickAdaptive(now)
      ensures g == Meaning().controller.granule
      ensures bitmap == old(bitmap) || fresh(bitmap)
    {
      var newGranule := controller.Tick(now);
      var activeSize := bitmap.pageSize;
      var targetSize := geometry.PageSize(newGranule);
      if targetSize != activeSize {
        var fine := DirtyBitmap.New(bitmap.ramStart, bitmap.ramSize, targetSize);
        if fine.Err? {
          return controller.granule;
        }
        var folded := bitmap.FoldIntoFiner(fine.value);
        if folded.Ok? {
          bitmap := fine.value;
        }
      }
      return newGranule;
    }
  }

  /** A region as constructed: everything clean, coarse, window opened at `now`. */
  function Fresh(ramStart: nat, ramSize: nat, geometry: Geometry, threshold: nat, now: nat): Tracked
    requires geometry.trackingPageDefault > 0
  {
    var t := Tracking(ramStart, ramSize, geometry.trackingPageDefault, {});
    Tracked(t, Controller(threshold, seq(t.PageCount(), _ => 0), now, Coarse), geometry)
  }
}
