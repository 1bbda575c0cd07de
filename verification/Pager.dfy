/**
 Lazy restore: serving page faults from a saved memory file (crates/host/src/pager.rs).

 `pread` on a regular file is taken to return everything up to the end of the file.
 */
module Pager {
  import opened Words

  datatype PageSourceError = Open | Short
  datatype PagerError = OutOfRegion | Source(error: PageSourceError)
  datatype Served = Page(bytes: seq<Byte>) | Failed(error: PagerError)

  /** `FilePageSource::fetch`: the page of `ipa`, counted from byte 0 of the file. */
  function Fetch(file: seq<Byte>, ramStart: nat, ipa: nat, pageSize: nat): (r: Served)
    requires ipa < U64_LIMIT && 0 < pageSize < U64_LIMIT
    ensures r.Page? ==> |r.bytes| == pageSize
  {
    if ipa < ramStart then Failed(Source(Open))
    else
      var aligned := And(ipa - ramStart, Not64(pageSize - 1));
      if aligned + pageSize > |file| then Failed(Source(Short))
      else Page(file[aligned..aligned + pageSize])
  }

  function SaturatingAdd(a: nat, b: nat): nat {
    if a + b >= U64_LIMIT then U64_LIMIT - 1 else a + b
  }

  predicate Contains(base: nat, size: nat, ipa: nat) {
    base <= ipa < SaturatingAdd(base, size)
  }

  /** The outcome of one fault, given the registered regions. */
  function Serve(regions: map<nat, nat>, file: seq<Byte>, ramStart: nat, ipa: nat, pageSize: nat): (r: Served)
    requires ipa < U64_LIMIT && 0 < pageSize < U64_LIMIT
    ensures r.Page? ==> |r.bytes| == pageSize
  {
    if !exists base <- regions :: Contains(base, regions[base], ipa) then Failed(OutOfRegion)
    else
      AndAtMost(ipa, Not64(pageSize - 1));
      Fetch(file, ramStart, And(ipa, Not64(pageSize - 1)), pageSize)
  }

  class Pager {
    const file: seq<Byte>
    const ramStart: nat
    var regions: map<nat, nat>
    var faults: nat

    constructor (file: seq<Byte>, ramStart: nat)
      ensures this.file == file && this.ramStart == ramStart && regions == map[] && faults == 0
    {
      this.file, this.ramStart := file, ramStart;
      regions, faults := map[], 0;
    }

    method RegisterRegion(base: nat, size: nat)
      modifies this`regions
      ensures regions == old(regions)[base := size]
    {
      regions := regions[base := size];
    }

    method ServeFault(ipa: nat, pageSize: nat) returns (r: Served)
      requires ipa < U64_LIMIT && 0 < pageSize < U64_LIMIT
      modifies this`faults
      ensures r == Serve(regions, file, ramStart, ipa, pageSize)
      ensures faults == old(faults) + (if r.Page? then 1 else 0)
    {
      if !exists base <- regions :: Contains(base, regions[base], ipa) {
        return Failed(OutOfRegion);
      }
      AndAtMost(ipa, Not64(pageSize - 1));
      r := Fetch(file, ramStart, And(ipa, Not64(pageSize - 1)), pageSize);
      if r.Page? {
        faults := faults + 1;
      }
    }
  }

  // ---- arithmetic ------------------------------------------------------------------------

  lemma RemainderOfSum(a: nat, b: nat, p: nat)
    requires p > 0 && a % p == 0
    ensures (a + b) % p == b % p
  {
    var q, s := a / p, b / p;
    assert a == p * q && b == p * s + b % p;
    assert a + b == p * (q + s) + b % p;
    QuotientUnique(a + b, p, q + s, b % p);
  }

  lemma AlignedDownFits(off: nat, size: nat, p: nat)
    requires p > 0 && size % p == 0 && off < size
    ensures off - off % p + p <= size
  {
    var q, s := off / p, size / p;
    assert off == p * q + off % p && size == p * s;
    assert p * (s - q) == p * s - p * q;
    if s <= q { MulOrdered(p, s, q); } else { MulAtLeast(p, s - q); }
  }

  /** Both roundings of a fault remove the same in-page offset `r`. */
  lemma TwoRoundings(ramStart: nat, ipa: nat, p: nat) returns (r: nat)
    requires IsPowerOfTwo(p) && 0 < p < U64_LIMIT && ramStart <= ipa < U64_LIMIT
    requires ramStart % p == 0
    ensures r < p && r == ipa % p && r == (ipa - ramStart) % p && r <= ipa - ramStart
    ensures And(ipa, Not64(p - 1)) == ipa - r
    ensures And(ipa - ramStart - r, Not64(p - 1)) == ipa - ramStart - r
  {
    var off := ipa - ramStart;
    RemainderOfSum(ramStart, off, p);
    r := off % p;
    FloorIsMultiple(off, p);
    AlignDown(ipa, p);
    AlignDown(off - r, p);
  }

  lemma FloorIsMultiple(off: nat, p: nat)
    requires p > 0
    ensures off % p <= off && (off - off % p) % p == 0
  {
    assert off == p * (off / p) + off % p;
    MulOrdered(p, 0, off / p);
    ExactQuotient(off - off % p, p, off / p);
  }

  /** A fault in an aligned region reads the file at the page boundary below the address. */
  lemma ServedPage(regions: map<nat, nat>, file: seq<Byte>, ramStart: nat, ipa: nat, p: nat) returns (r: nat)
    requires IsPowerOfTwo(p) && 0 < p < U64_LIMIT && ramStart <= ipa < U64_LIMIT
    requires ramStart % p == 0
    requires exists base <- regions :: Contains(base, regions[base], ipa)
    ensures r < p && r == ipa % p && r == (ipa - ramStart) % p && r <= ipa - ramStart
    ensures var start := ipa - ramStart - r;
            Serve(regions, file, ramStart, ipa, p) ==
            if start + p > |file| then Failed(Source(Short)) else Page(file[start..start + p])
  {
    r := TwoRoundings(ramStart, ipa, p);
  }

  /** The fault is served and the page holds, at the address's in-page offset, the saved byte. */
  ghost predicate ServedRight(regions: map<nat, nat>, ram: seq<Byte>, ramStart: nat, ipa: nat, p: nat)
    requires 0 < p < U64_LIMIT && ramStart <= ipa < ramStart + |ram| && ipa < U64_LIMIT
  {
    var r := Serve(regions, ram, ramStart, ipa, p);
    r.Page? && r.bytes[ipa % p] == ram[ipa - ramStart]
  }

  lemma AlignedIsServed(regions: map<nat, nat>, ram: seq<Byte>, ramStart: nat, ipa: nat, p: nat)
    requires IsPowerOfTwo(p) && 0 < p < U64_LIMIT
    requires ramStart + |ram| < U64_LIMIT && ramStart <= ipa < ramStart + |ram|
    requires ramStart in regions && regions[ramStart] == |ram|
    requires ramStart % p == 0 && |ram| % p == 0
    ensures ServedRight(regions, ram, ramStart, ipa, p)
  {
    assert Contains(ramStart, regions[ramStart], ipa);
    var r := ServedPage(regions, ram, ramStart, ipa, p);
    AlignedDownFits(ipa - ramStart, |ram|, p);
  }

  lemma MisalignedStartFails(regions: map<nat, nat>, ram: seq<Byte>, ramStart: nat, p: nat)
    requires IsPowerOfTwo(p) && 0 < p < U64_LIMIT && ramStart % p != 0
    requires 0 < |ram| && ramStart + |ram| < U64_LIMIT
    ensures !ServedRight(regions, ram, ramStart, ramStart, p)
  {
    AlignDown(ramStart, p);
  }

  lemma PartialEndFails(regions: map<nat, nat>, ram: seq<Byte>, ramStart: nat, p: nat)
    requires IsPowerOfTwo(p) && 0 < p < U64_LIMIT && ramStart % p == 0 && |ram| % p != 0
    requires 0 < |ram| && ramStart + |ram| < U64_LIMIT
    requires ramStart in regions && regions[ramStart] == |ram|
    ensures !ServedRight(regions, ram, ramStart, ramStart + |ram| - 1, p)
  {
    var last := ramStart + |ram| - 1;
    assert Contains(ramStart, regions[ramStart], last);
    var r := ServedPage(regions, ram, ramStart, last, p);
    PartialLastPage(|ram|, p);
  }

  /**
   After a full dump, every fault in the RAM region is served with the byte RAM held at save
   time, exactly when the region starts and ends on page boundaries.
   */
  lemma FullDumpServesIff(regions: map<nat, nat>, ram: seq<Byte>, ramStart: nat, p: nat)
    requires IsPowerOfTwo(p) && 0 < p < U64_LIMIT
    requires 0 < |ram| && ramStart + |ram| < U64_LIMIT
    requires ramStart in regions && regions[ramStart] == |ram|
    ensures (forall ipa: nat :: ramStart <= ipa < ramStart + |ram| ==> ServedRight(regions, ram, ramStart, ipa, p)) <==>
            ramStart % p == 0 && |ram| % p == 0
  {
    if ramStart % p != 0 {
      MisalignedStartFails(regions, ram, ramStart, p);
    } else if |ram| % p != 0 {
      PartialEndFails(regions, ram, ramStart, p);
    } else {
      forall ipa: nat | ramStart <= ipa < ramStart + |ram|
        ensures ServedRight(regions, ram, ramStart, ipa, p)
      {
        AlignedIsServed(regions, ram, ramStart, ipa, p);
      }
    }
  }

  lemma PartialLastPage(size: nat, p: nat)
    requires p > 0 && size > 0 && size % p != 0
    ensures (size - 1) - (size - 1) % p + p > size
  {
    assert size == p * (size / p) + size % p;
    QuotientUnique(size - 1, p, size / p, size % p - 1);
  }
}
