/** The MMIO bus (crates/bus/src/lib.rs, crates/bus/src/range.rs). */
module Bus {
  import opened Words
  import opened Outcomes

  /** A half-open address range; ranges compare by base alone. */
  datatype Range = Range(base: nat, len: nat) {
    function End(): nat {
      base + len
    }

    predicate Contains(addr: nat) {
      base <= addr < End()
    }

    predicate Overlaps(other: Range) {
      base < other.End() && other.base < End()
    }

    /** Constructible: not empty, and the end fits in 64 bits. */
    predicate Valid() {
      len > 0 && End() < U64_LIMIT
    }
  }

  /** `overlaps` is what it says: some address lies in both. */
  lemma OverlapsIff(a: Range, b: Range)
    requires a.Valid() && b.Valid()
    ensures a.Overlaps(b) <==> exists addr: nat :: a.Contains(addr) && b.Contains(addr)
  {
    if a.Overlaps(b) {
      var addr := if a.base < b.base then b.base else a.base;
      assert a.Contains(addr) && b.Contains(addr);
    }
  }

  datatype BusError = ZeroLengthRange | RangeOverflow | Overlap(existing: Range)
  datatype Inserted = Accepted | Rejected(error: BusError)
  datatype Entry<D> = Entry(range: Range, device: D)

  /** The ordered map: entries by ascending base, no two sharing an address. */
  ghost predicate WellFormed<D>(devices: seq<Entry<D>>) {
    && (forall i :: 0 <= i < |devices| ==> devices[i].range.Valid())
    && forall i, j :: 0 <= i < j < |devices| ==> devices[i].range.End() <= devices[j].range.base
  }

  function MakeRange(base: nat, len: nat): (r: Inserted)
    ensures r.Accepted? <==> Range(base, len).Valid()
    ensures r == Rejected(ZeroLengthRange) <==> len == 0
    ensures r == Rejected(RangeOverflow) <==> len > 0 && base + len >= U64_LIMIT
  {
    if len == 0 then Rejected(ZeroLengthRange)
    else if base + len >= U64_LIMIT then Rejected(RangeOverflow)
    else Accepted
  }

  /** The lowest registered range that overlaps `r`. */
  function FirstOverlap<D>(devices: seq<Entry<D>>, r: Range): (o: Option<Range>)
    ensures o.None? <==> forall i :: 0 <= i < |devices| ==> !devices[i].range.Overlaps(r)
    ensures o.Some? ==> exists i :: 0 <= i < |devices| && devices[i].range == o.value && o.value.Overlaps(r)
  {
    if devices == [] then None
    else if devices[0].range.Overlaps(r) then Some(devices[0].range)
    else FirstOverlap(devices[1..], r)
  }

  /** Ordered-map insertion; an equal key keeps its range and changes its device. */
  function Place<D>(devices: seq<Entry<D>>, e: Entry<D>): seq<Entry<D>> {
    if devices == [] then [e]
    else if e.range.base < devices[0].range.base then [e] + devices
    else if e.range.base == devices[0].range.base then [devices[0].(device := e.device)] + devices[1..]
    else [devices[0]] + Place(devices[1..], e)
  }

  ghost predicate Free<D>(devices: seq<Entry<D>>, r: Range) {
    forall i :: 0 <= i < |devices| ==> !devices[i].range.Overlaps(r)
  }

  lemma {:induction false} PlaceContents<D>(devices: seq<Entry<D>>, e: Entry<D>)
    requires WellFormed(devices) && e.range.Valid() && Free(devices, e.range)
    ensures multiset(Place(devices, e)) == multiset(devices) + multiset{e}
  {
    if devices == [] {
    } else {
      assert !devices[0].range.Overlaps(e.range);
      assert devices == [devices[0]] + devices[1..];
      if e.range.base > devices[0].range.base { PlaceContents(devices[1..], e); }
    }
  }

  /** A bound below every base stays one after placing an entry above it. */
  lemma {:induction false} PlaceAbove<D>(devices: seq<Entry<D>>, e: Entry<D>, lo: nat)
    requires forall i :: 0 <= i < |devices| ==> lo <= devices[i].range.base
    requires lo <= e.range.base
    ensures forall i :: 0 <= i < |Place(devices, e)| ==> lo <= Place(devices, e)[i].range.base
  {
    if devices != [] && e.range.base > devices[0].range.base { PlaceAbove(devices[1..], e, lo); }
  }

  lemma {:induction false} PlaceOrdered<D>(devices: seq<Entry<D>>, e: Entry<D>)
    requires WellFormed(devices) && e.range.Valid() && Free(devices, e.range)
    ensures WellFormed(Place(devices, e))
  {
    if devices == [] {
    } else {
      assert !devices[0].range.Overlaps(e.range);
      if e.range.base > devices[0].range.base {
        PlaceOrdered(devices[1..], e);
        PlaceAbove(devices[1..], e, devices[0].range.End());
      }
    }
  }

  /** The map after one insert, accepted or rejected. */
  function Insert<D>(devices: seq<Entry<D>>, device: D, base: nat, len: nat): (Inserted, seq<Entry<D>>) {
    var r := Range(base, len);
    if MakeRange(base, len).Rejected? then (MakeRange(base, len), devices)
    else
      match FirstOverlap(devices, r)
      case Some(existing) => (Rejected(Overlap(existing)), devices)
      case None => (Accepted, Place(devices, Entry(r, device)))
  }

  class BusBuilder<D> {
    var devices: seq<Entry<D>>

    constructor ()
      ensures devices == []
    {
      devices := [];
    }

    method InsertDevice(device: D, base: nat, len: nat) returns (r: Inserted)
      modifies this
      ensures (r, devices) == Insert(old(devices), device, base, len)
    {
      r := MakeRange(base, len);
      if r.Rejected? {
        return;
      }
      var newRange := Range(base, len);
      var i := 0;
      while i < |devices|
        invariant 0 <= i <= |devices| && devices == old(devices)
        invariant FirstOverlap(devices, newRange) == FirstOverlap(devices[i..], newRange)
      {
        if devices[i].range.Overlaps(newRange) {
          return Rejected(Overlap(devices[i].range));
        }
        i := i + 1;
      }
      devices := Place(devices, Entry(newRange, device));
      return Accepted;
    }
  }

  datatype Attempt<D> = Attempt(device: D, base: nat, len: nat)

  /** The map built by a sequence of attempts, oldest first. */
  function Build<D>(attempts: seq<Attempt<D>>): seq<Entry<D>> {
    if attempts == [] then []
    else
      var n := |attempts| - 1;
      var a := attempts[n];
      Insert(Build(attempts[..n]), a.device, a.base, a.len).1
  }

  /** The entries of the attempts that were accepted. */
  ghost function AcceptedEntries<D>(attempts: seq<Attempt<D>>): multiset<Entry<D>> {
    if attempts == [] then multiset{}
    else
      var n := |attempts| - 1;
      var a := attempts[n];
      AcceptedEntries(attempts[..n]) +
      (if Insert(Build(attempts[..n]), a.device, a.base, a.len).0.Accepted?
       then multiset{Entry(Range(a.base, a.len), a.device)} else multiset{})
  }

  /**
   After any sequence of accepted and rejected inserts the ranges are disjoint and ordered, and
   the map holds exactly the accepted devices: none was overwritten.
   */
  lemma {:induction false} BuildKeepsAll<D>(attempts: seq<Attempt<D>>)
    ensures WellFormed(Build(attempts))
    ensures multiset(Build(attempts)) == AcceptedEntries(attempts)
  {
    if attempts == [] {
    } else {
      var n := |attempts| - 1;
      var a := attempts[n];
      BuildKeepsAll(attempts[..n]);
      if Insert(Build(attempts[..n]), a.device, a.base, a.len).0.Accepted? {
        PlaceOrdered(Build(attempts[..n]), Entry(Range(a.base, a.len), a.device));
        PlaceContents(Build(attempts[..n]), Entry(Range(a.base, a.len), a.device));
      }
    }
  }

  // ---- dispatch ------------------------------------------------------------------------------

  /** `range(..=probe).next_back()`: the entry with the largest base not above `addr`. */
  function Predecessor<D>(devices: seq<Entry<D>>, addr: nat): Option<Entry<D>> {
    if devices == [] then None
    else if devices[|devices| - 1].range.base <= addr then Some(devices[|devices| - 1])
    else Predecessor(devices[..|devices| - 1], addr)
  }

  /** `Bus::resolve`: offset and device, from one predecessor lookup. */
  function Resolve<D>(devices: seq<Entry<D>>, addr: nat): Option<(nat, D)> {
    match Predecessor(devices, addr)
    case None => None
    case Some(e) => if e.range.Contains(addr) then Some((addr - e.range.base, e.device)) else None
  }

  /** The reference: look at every entry. */
  function Scan<D>(devices: seq<Entry<D>>, addr: nat): Option<(nat, D)> {
    if devices == [] then None
    else if devices[0].range.Contains(addr) then Some((addr - devices[0].range.base, devices[0].device))
    else Scan(devices[1..], addr)
  }

  lemma AtMostOneOwner<D>(devices: seq<Entry<D>>, addr: nat, i: nat, j: nat)
    requires WellFormed(devices) && i < |devices| && j < |devices|
    requires devices[i].range.Contains(addr) && devices[j].range.Contains(addr)
    ensures i == j
  {
  }

  lemma {:induction false} ScanFinds<D>(devices: seq<Entry<D>>, addr: nat, i: nat)
    requires WellFormed(devices) && i < |devices| && devices[i].range.Contains(addr)
    ensures Scan(devices, addr) == Some((addr - devices[i].range.base, devices[i].device))
    decreases |devices|
  {
    if devices[0].range.Contains(addr) {
      AtMostOneOwner(devices, addr, 0, i);
    } else {
      ScanFinds(devices[1..], addr, i - 1);
    }
  }

  lemma {:induction false} ScanMisses<D>(devices: seq<Entry<D>>, addr: nat)
    requires forall i :: 0 <= i < |devices| ==> !devices[i].range.Contains(addr)
    ensures Scan(devices, addr) == None
    decreases |devices|
  {
    if devices == [] {
    } else {
      ScanMisses(devices[1..], addr);
    }
  }

  /** The predecessor is the last entry that does not start above the address. */
  lemma {:induction false} PredecessorSpec<D>(devices: seq<Entry<D>>, addr: nat) returns (i: int)
    ensures -1 <= i < |devices|
    ensures Predecessor(devices, addr) == if i < 0 then None else Some(devices[i])
    ensures 0 <= i ==> devices[i].range.base <= addr
    ensures forall j :: i < j < |devices| ==> addr < devices[j].range.base
    decreases |devices|
  {
    i := |devices| - 1;
    if devices != [] && addr < devices[i].range.base {
      i := PredecessorSpec(devices[..i], addr);
    }
  }

  /** The predecessor lookup answers every address exactly as a full scan does. */
  lemma ResolveIsScan<D>(devices: seq<Entry<D>>, addr: nat)
    requires WellFormed(devices)
    ensures Resolve(devices, addr) == Scan(devices, addr)
  {
    var i := PredecessorSpec(devices, addr);
    if 0 <= i && devices[i].range.Contains(addr) {
      ScanFinds(devices, addr, i);
    } else {
      forall j | 0 <= j < |devices| ensures !devices[j].range.Contains(addr) {
        if j < i { assert devices[j].range.End() <= devices[i].range.base; }
      }
      ScanMisses(devices, addr);
    }
  }
}
