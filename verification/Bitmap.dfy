/**
 The dirty-page bitmap of one RAM region (crates/snapshot/src/dirty.rs): an array of
 64-bit words, one bit per tracking page.
 */
module Bitmap {
  import opened Words
  import opened Outcomes

  /** What a bitmap means: its range, its page size and the set of dirty page indices. */
  datatype Tracking = Tracking(ramStart: nat, ramSize: nat, pageSize: nat, dirty: set<nat>) {

    ghost predicate Valid() {
      && IsPowerOfTwo(pageSize) && pageSize > 0
      && 0 < ramSize && ramStart + ramSize < U64_LIMIT
      && forall p <- dirty :: p < PageCount()
    }

    function PageCount(): nat
      requires pageSize > 0
    {
      CeilDiv(ramSize, pageSize)
    }

    predicate Covers(addr: nat) {
      ramStart <= addr < ramStart + ramSize
    }

    /** The byte address `addr` lies on a dirty page. */
    predicate IsDirty(addr: nat)
      requires pageSize > 0
    {
      Covers(addr) && (addr - ramStart) / pageSize in dirty
    }

    /** The tracking state after the page of `addr` has been marked. */
    function Mark(addr: nat): Tracking
      requires pageSize > 0
    {
      if Covers(addr) then this.(dirty := dirty + {(addr - ramStart) / pageSize}) else this
    }

    /** The same dirty bytes described with pages `ratio` times smaller. */
    function Refine(finePage: nat): Tracking
      requires 0 < finePage && 0 < pageSize / finePage
    {
      Tracking(ramStart, ramSize, finePage,
               Expand(CeilDiv(ramSize, finePage), pageSize / finePage, dirty))
    }
  }

  predicate PageDirty(words: seq<nat>, p: nat) {
    p / 64 < |words| && Bit(words[p / 64], p % 64)
  }

  /** Every element is a 64-bit word and no digit is set at or beyond `count`. */
  ghost predicate WellFormed(words: seq<nat>, count: nat) {
    && (forall k :: 0 <= k < |words| ==> words[k] < U64_LIMIT)
    && forall p: nat :: PageDirty(words, p) ==> p < count
  }

  ghost function DirtySet(words: seq<nat>, count: nat): set<nat> {
    set p: nat | 0 <= p < count && PageDirty(words, p)
  }

  /** One `fetch_or`: digit `p % 64` of word `p / 64` becomes set. */
  function SetBit(words: seq<nat>, p: nat): seq<nat>
    requires p / 64 < |words|
  {
    words[p / 64 := Or(words[p / 64], Pow2(p % 64))]
  }

  lemma SetBitSpec(words: seq<nat>, p: nat, q: nat)
    requires p / 64 < |words|
    ensures PageDirty(SetBit(words, p), q) <==> PageDirty(words, q) || q == p
  {
    if q / 64 == p / 64 {
      BitOr(words[p / 64], Pow2(p % 64), q % 64);
      BitPow2(p % 64, q % 64);
    }
  }

  lemma SetBitWellFormed(words: seq<nat>, count: nat, p: nat)
    requires WellFormed(words, count) && p < count && p / 64 < |words|
    ensures WellFormed(SetBit(words, p), count)
    ensures DirtySet(SetBit(words, p), count) == DirtySet(words, count) + {p}
  {
    forall q: nat ensures PageDirty(SetBit(words, p), q) <==> PageDirty(words, q) || q == p {
      SetBitSpec(words, p, q);
    }
    SetBitIsWord(words[p / 64], p % 64);
  }

  lemma SetBitIsWord(w: nat, i: nat)
    requires w < U64_LIMIT && i < 64
    ensures Or(w, Pow2(i)) < U64_LIMIT
  {
    WordLimit();
    Pow2Monotone(i, 64);
    OrBound(w, Pow2(i), 64);
  }

  lemma AllZeroIsClean(words: seq<nat>, count: nat)
    requires forall k :: 0 <= k < |words| ==> words[k] == 0
    ensures WellFormed(words, count) && DirtySet(words, count) == {}
  {
    forall p: nat ensures !PageDirty(words, p) { BitOfZero(p % 64); }
  }

  /** All the indices that draining `words` front to back emits, in order. */
  function DrainOf(words: seq<nat>): seq<nat> {
    if words == [] then []
    else
      var k := |words| - 1;
      DrainOf(words[..k]) + BitIndices(words[k], 64 * k)
  }

  /** Word `k` of a drain emits its set digits as pages `64k .. 64k + 64`. */
  lemma WordIndices(w: nat, k: nat)
    requires w < U64_LIMIT
    ensures StrictlyAscending(BitIndices(w, 64 * k))
    ensures forall x <- BitIndices(w, 64 * k) :: 64 * k <= x < 64 * k + 64
    ensures forall p: nat {:trigger p in BitIndices(w, 64 * k)} ::
              p in BitIndices(w, 64 * k) <==> p / 64 == k && Bit(w, p % 64)
  {
    WordLimit();
    BitIndicesSpec(w, 64 * k);
    forall x <- BitIndices(w, 64 * k)
      ensures 64 * k <= x < 64 * k + 64
    {
      var i := x - 64 * k;
      assert 64 * k + i == x && Bit(w, i);
      if 64 <= i { NoBitsAbove(w, 64, i); }
    }
    forall p: nat
      ensures p in BitIndices(w, 64 * k) <==> p / 64 == k && Bit(w, p % 64)
    {
      if p / 64 == k { assert 64 * k + p % 64 == p && Bit(w, p % 64) == Bit(w, p % 64); }
    }
  }

  /** A whole drain emits exactly the set indices, each once, in ascending order. */
  lemma {:induction false} DrainOfSpec(words: seq<nat>)
    requires forall k :: 0 <= k < |words| ==> words[k] < U64_LIMIT
    ensures StrictlyAscending(DrainOf(words))
    ensures forall p: nat {:trigger p in DrainOf(words)} :: p in DrainOf(words) <==> PageDirty(words, p)
  {
    if words == [] {
    } else {
      var k := |words| - 1;
      var front := words[..k];
      DrainOfSpec(front);
      WordIndices(words[k], k);
      var a, b := DrainOf(front), BitIndices(words[k], 64 * k);
      forall i, j | 0 <= i < |a| && 0 <= j < |b|
        ensures a[i] < b[j]
      {
        assert a[i] in a && PageDirty(front, a[i]);
        assert b[j] in b;
      }
      forall p: nat
        ensures p in DrainOf(words) <==> PageDirty(words, p)
      {
        assert p in a <==> PageDirty(front, p);
        assert p in b <==> p / 64 == k && Bit(words[k], p % 64);
      }
    }
  }

  /** The block of `ratio` consecutive pages that page `f` belongs to. */
  function BlockOf(f: nat, ratio: nat): nat
    requires ratio > 0
  {
    f / ratio
  }

  /** The fine pages (of `n`) lying in one of the coarse pages `coarse`. */
  function Expand(n: nat, ratio: nat, coarse: set<nat>): set<nat>
    requires ratio > 0
  {
    set f: nat | 0 <= f < n && BlockOf(f, ratio) in coarse
  }

  /** The pages `lo .. hi`. */
  function Range(lo: nat, hi: nat): (r: set<nat>)
    ensures forall f: nat :: f in r <==> lo <= f < hi
    decreases hi
  {
    if lo < hi then Range(lo, hi - 1) + {hi - 1} else {}
  }

  lemma ExpandOne(n: nat, ratio: nat, c: nat)
    requires ratio > 0
    ensures Expand(n, ratio, {c}) == Range(c * ratio, Min(c * ratio + ratio, n))
  {
    var added := Range(c * ratio, Min(c * ratio + ratio, n));
    forall f: nat
      ensures f in added <==> f < n && BlockOf(f, ratio) == c
    {
      InUnit(f, ratio, c);
    }
  }

  function Min(a: nat, b: nat): nat {
    if a < b then a else b
  }

  /** The elements below `n`, in order. */
  function Below(s: seq<nat>, n: nat): seq<nat> {
    if s == [] then []
    else if s[0] < n then [s[0]] + Below(s[1..], n)
    else Below(s[1..], n)
  }

  lemma {:induction false} BelowAll(s: seq<nat>, n: nat)
    requires forall i :: 0 <= i < |s| ==> s[i] < n
    ensures Below(s, n) == s
  {
    if s == [] {
    } else {
      BelowAll(s[1..], n);
    }
  }

  lemma EmitLowest(bits: nat, base: nat, count: nat)
    requires bits > 0
    ensures var page, rest := base + TrailingZeros(bits), Below(BitIndices(And(bits, bits - 1), base), count);
            Below(BitIndices(bits, base), count) == (if page < count then [page] else []) + rest
  {
    AndAtMost(bits, bits - 1);
    assert BitIndices(bits, base)[1..] == BitIndices(And(bits, bits - 1), base);
  }

  /** The bit-clearing loop over one swapped-out word, dropping indices past `count`. */
  method EmitWord(word: nat, base: nat, count: nat) returns (out: seq<nat>)
    ensures out == Below(BitIndices(word, base), count)
  {
    out := [];
    var bits := word;
    while bits != 0
      invariant out + Below(BitIndices(bits, base), count) == Below(BitIndices(word, base), count)
      decreases bits
    {
      var bit := TrailingZeros(bits);
      AndAtMost(bits, bits - 1);
      EmitLowest(bits, base, count);
      var page := base + bit;
      Regroup(out, if page < count then [page] else [], Below(BitIndices(And(bits, bits - 1), base), count));
      bits := And(bits, bits - 1);
      if page < count {
        out := out + [page];
      }
    }
  }

  lemma Regroup(a: seq<nat>, b: seq<nat>, c: seq<nat>)
    ensures a + (b + c) == (a + b) + c && a + [] == a
  {
  }

  class DirtyBitmap {
    const ramStart: nat
    const ramSize: nat
    const pageSize: nat
    const pageCount: nat
    const words: array<nat>
    /** The page indices whose bit is set. */
    ghost var dirty: set<nat>

    ghost predicate Valid()
      reads this, words
    {
      && IsPowerOfTwo(pageSize) && pageSize > 0
      && 0 < ramSize && ramStart + ramSize < U64_LIMIT
      && pageCount == CeilDiv(ramSize, pageSize)
      && words.Length == CeilDiv(pageCount, 64)
      && WellFormed(words[..], pageCount)
      && dirty == DirtySet(words[..], pageCount)
    }

    ghost function Meaning(): Tracking
      reads this
    {
      Tracking(ramStart, ramSize, pageSize, dirty)
    }

    constructor Clean(ramStart: nat, ramSize: nat, pageSize: nat)
      requires IsPowerOfTwo(pageSize) && 0 < pageSize && 0 < ramSize && ramStart + ramSize < U64_LIMIT
      ensures Valid() && fresh(words)
      ensures Meaning() == Tracking(ramStart, ramSize, pageSize, {})
    {
      this.ramStart, this.ramSize, this.pageSize := ramStart, ramSize, pageSize;
      pageCount := CeilDiv(ramSize, pageSize);
      words := new nat[CeilDiv(CeilDiv(ramSize, pageSize), 64)](_ => 0);
      dirty := {};
      new;
      AllZeroIsClean(words[..], pageCount);
    }

    static method New(ramStart: nat, ramSize: nat, pageSize: nat) returns (r: Result<DirtyBitmap>)
      ensures r.Ok? <==> IsPowerOfTwo(pageSize) && 0 < ramSize && ramStart + ramSize < U64_LIMIT
      ensures r.Ok? ==> fresh(r.value) && fresh(r.value.words) && r.value.Valid()
      ensures r.Ok? ==> r.value.Meaning() == Tracking(ramStart, ramSize, pageSize, {})
    {
      if !IsPowerOfTwo(pageSize) {
        return Err(InvalidPath);
      }
      if ramSize == 0 {
        return Err(InvalidPath);
      }
      if ramStart + ramSize >= U64_LIMIT {
        return Err(InvalidPath);
      }
      PowerOfTwoShift(pageSize);
      var b := new DirtyBitmap.Clean(ramStart, ramSize, pageSize);
      return Ok(b);
    }

    /** The shift by `trailing_zeros(page_size)` is the page number of the offset. */
    function PageIndexOf(addr: nat): (r: Option<nat>)
      requires Valid()
      reads this, words
      ensures r == if Meaning().Covers(addr) then Some((addr - ramStart) / pageSize) else None
      ensures r.Some? ==> r.value < pageCount
    {
      if addr < ramStart then None
      else
        var offset := addr - ramStart;
        if offset >= ramSize then None
        else
          ShiftIsPageNumber(offset);
          Some(offset / Pow2(TrailingZeros(pageSize)))
    }

    lemma ShiftIsPageNumber(offset: nat)
      requires Valid() && offset < ramSize
      ensures offset / Pow2(TrailingZeros(pageSize)) == offset / pageSize < pageCount
    {
      PowerOfTwoShift(pageSize);
      UnitOfOffset(ramSize, pageSize, offset);
    }

    lemma WordOfPage(p: nat)
      requires Valid() && p < pageCount
      ensures p / 64 < words.Length
    {
      UnitOfOffset(pageCount, 64, p);
    }

    /**
     Marks in `fine` every page inside one of this bitmap's dirty pages, and no other.
     */
    method FoldIntoFiner(fine: DirtyBitmap) returns (r: Result<()>)
      requires Valid() && fine.Valid()
      requires fine != this ==> fine.words != words
      modifies fine, fine.words
      ensures fine.Valid()
      ensures r.Ok? <==> fine.ramStart == ramStart && fine.ramSize == ramSize && fine.pageSize < pageSize
      ensures r.Ok? ==> pageSize / fine.pageSize > 0
      ensures r.Ok? ==> fine.dirty ==
                        old(fine.dirty) + Expand(fine.pageCount, pageSize / fine.pageSize, dirty)
      ensures r.Err? ==> fine.words[..] == old(fine.words[..])
    {
      if fine.ramStart != ramStart || fine.ramSize != ramSize {
        return Err(InvalidPath);
      }
      if fine.pageSize >= pageSize {
        return Err(InvalidPath);
      }
      RatioOfPowers(fine.pageSize, pageSize);
      if pageSize % fine.pageSize != 0 {
        return Err(InvalidPath);
      }
      FoldWords(pageSize / fine.pageSize, fine);
      return Ok(());
    }

    /** The loop of the fold over the coarse words. */
    method FoldWords(ratio: nat, fine: DirtyBitmap)
      requires Valid() && fine.Valid() && ratio > 0 && fine != this && fine.words != words
      modifies fine, fine.words
      ensures fine.Valid()
      ensures fine.dirty == old(fine.dirty) + Expand(fine.pageCount, ratio, dirty)
    {
      ghost var start := fine.dirty;
      ghost var ws := words[..];
      for k := 0 to words.Length
        invariant fine.Valid() && words[..] == ws
        invariant fine.dirty == start + Expand(fine.pageCount, ratio, PagesBefore(ws, pageCount, k))
      {
        WordPagesInRange(ws, pageCount, k);
        NextWord(ws, pageCount, k);
        FoldWord(words[k], k * 64, pageCount, ratio, fine);
      }
      assert PagesBefore(ws, pageCount, words.Length) == dirty;
    }

    /** The inner loop of the fold: expands each set digit of one coarse word. */
    static method FoldWord(word: nat, base: nat, pageCount: nat, ratio: nat, fine: DirtyBitmap)
      requires ratio > 0 && fine.Valid()
      requires forall x: nat :: x in BitIndices(word, base) ==> x < pageCount
      modifies fine, fine.words
      ensures fine.Valid()
      ensures fine.dirty == old(fine.dirty) + Expand(fine.pageCount, ratio, Elements(BitIndices(word, base)))
    {
      var bits := word;
      ghost var all := Elements(BitIndices(word, base));
      ghost var done: set<nat> := {};
      while bits != 0
        invariant fine.Valid()
        invariant fine.dirty == old(fine.dirty) + Expand(fine.pageCount, ratio, done)
        invariant done + Elements(BitIndices(bits, base)) == all
        decreases bits
      {
        var bit := TrailingZeros(bits);
        AndAtMost(bits, bits - 1);
        ghost var rest := BitIndices(bits, base);
        bits := And(bits, bits - 1);
        var coarsePage := base + bit;
        assert rest == [coarsePage] + BitIndices(bits, base);
        assert Elements(rest) == {coarsePage} + Elements(BitIndices(bits, base));
        if coarsePage >= pageCount {
          break;
        }
        FoldPage(coarsePage, ratio, fine);
        done := done + {coarsePage};
      }
    }

    /** One coarse page: every fine page inside it, up to a partial last block. */
    static method FoldPage(coarsePage: nat, ratio: nat, fine: DirtyBitmap)
      requires ratio > 0 && fine.Valid()
      modifies fine, fine.words
      ensures fine.Valid()
      ensures fine.dirty == old(fine.dirty) + Expand(fine.pageCount, ratio, {coarsePage})
    {
      var fineStart := coarsePage * ratio;
      FillBlock(fine, fineStart, Min(fineStart + ratio, fine.pageCount));
      ExpandOne(fine.pageCount, ratio, coarsePage);
    }

    static method FillBlock(fine: DirtyBitmap, lo: nat, hi: nat)
      requires fine.Valid() && hi <= fine.pageCount
      modifies fine, fine.words
      ensures fine.Valid() && fine.dirty == old(fine.dirty) + Range(lo, hi)
    {
      var finePage := lo;
      while finePage < hi
        invariant fine.Valid() && lo <= finePage && (finePage <= hi || finePage == lo)
        invariant fine.dirty == old(fine.dirty) + Range(lo, finePage)
      {
        var _ := fine.SetDirtyByIndex(finePage);
        finePage := finePage + 1;
      }
    }

    method SetDirtyByIndex(page: nat) returns (transitioned: bool)
      requires Valid()
      modifies this, words
      ensures Valid()
      ensures dirty == old(dirty) + (if page < pageCount then {page} else {})
      ensures transitioned <==> page < pageCount && page !in old(dirty)
    {
      if page >= pageCount {
        return false;
      }
      WordOfPage(page);
      var wordIdx, bit := page / 64, page % 64;
      var mask := Pow2(bit);
      var prev := words[wordIdx];
      ghost var before := words[..];
      words[wordIdx] := Or(prev, mask);
      dirty := dirty + {page};
      assert words[..] == SetBit(before, page);
      SetBitWellFormed(before, pageCount, page);
      TestMask(prev, bit);
      return And(prev, mask) == 0;
    }

    method SetDirty(addr: nat) returns (transitioned: bool)
      requires Valid()
      modifies this, words
      ensures Valid()
      ensures Meaning() == old(Meaning()).Mark(addr)
      ensures transitioned <==> Meaning().Covers(addr) && !old(Meaning()).IsDirty(addr)
    {
      var page := PageIndexOf(addr);
      if page.None? {
        return false;
      }
      transitioned := SetDirtyByIndex(page.value);
    }

    function IsDirtyByIndex(page: nat): (r: bool)
      requires Valid()
      reads this, words
      ensures r <==> page in dirty
    {
      if page >= pageCount then false
      else
        WordOfPage(page);
        TestMask(words[page / 64], page % 64);
        And(words[page / 64], Pow2(page % 64)) != 0
    }

    function IsDirty(addr: nat): (r: bool)
      requires Valid()
      reads this, words
      ensures r <==> Meaning().IsDirty(addr)
    {
      match PageIndexOf(addr)
      case None => false
      case Some(page) => IsDirtyByIndex(page)
    }

    /** Empties the bitmap and returns what it held, ascending, each page once. */
    method Drain() returns (out: seq<nat>)
      requires Valid()
      modifies this, words
      ensures Valid() && dirty == {}
      ensures StrictlyAscending(out)
      ensures forall p: nat :: p in out <==> p in old(dirty)
    {
      out := [];
      ghost var before := words[..];
      DrainOfSpec(before);
      for k := 0 to words.Length
        invariant forall j :: 0 <= j < k ==> words[j] == 0
        invariant forall j :: k <= j < words.Length ==> words[j] == before[j]
        invariant out == DrainOf(before[..k])
      {
        var bits := words[k];
        words[k] := 0;
        WordPagesInRange(before, pageCount, k);
        BelowAll(BitIndices(bits, 64 * k), pageCount);
        var emitted := EmitWord(bits, k * 64, pageCount);
        out := out + emitted;
        assert before[..k + 1][..k] == before[..k];
      }
      assert before[..words.Length] == before;
      dirty := {};
      AllZeroIsClean(words[..], pageCount);
    }
  }

  ghost function Elements(s: seq<nat>): set<nat> {
    set x | x in s
  }

  /** The dirty pages held by the first `k` words. */
  ghost function PagesBefore(words: seq<nat>, count: nat, k: nat): set<nat> {
    set p: nat | 0 <= p < count && PageDirty(words, p) && p / 64 < k
  }

  lemma NextWord(words: seq<nat>, count: nat, k: nat)
    requires k < |words| && WellFormed(words, count)
    ensures PagesBefore(words, count, k) + Elements(BitIndices(words[k], 64 * k)) ==
            PagesBefore(words, count, k + 1)
  {
    WordPagesInRange(words, count, k);
    WordIndices(words[k], k);
    var b := BitIndices(words[k], 64 * k);
    forall p: nat
      ensures p in b <==> p in PagesBefore(words, count, k + 1) && p !in PagesBefore(words, count, k)
    {
      assert p in b <==> p / 64 == k && Bit(words[k], p % 64);
    }
  }

  lemma WordPagesInRange(words: seq<nat>, count: nat, k: nat)
    requires k < |words| && WellFormed(words, count)
    ensures forall x: nat :: x in BitIndices(words[k], 64 * k) ==> x < count && PageDirty(words, x)
    ensures forall i :: 0 <= i < |BitIndices(words[k], 64 * k)| ==> BitIndices(words[k], 64 * k)[i] < count
  {
    WordIndices(words[k], k);
    forall x: nat | x in BitIndices(words[k], 64 * k)
      ensures x < count && PageDirty(words, x)
    {
      assert x / 64 == k && Bit(words[k], x % 64);
      assert PageDirty(words, x);
    }
    var b := BitIndices(words[k], 64 * k);
    forall i | 0 <= i < |b| ensures b[i] < count { assert b[i] in b; }
  }

  /** Describing the dirty bytes with smaller pages changes no byte's answer. */
  lemma RefineKeepsAddresses(t: Tracking, finePage: nat, addr: nat)
    requires t.Valid() && IsPowerOfTwo(finePage) && finePage < t.pageSize
    ensures 0 < finePage && 0 < t.pageSize / finePage
    ensures t.Refine(finePage).IsDirty(addr) == t.IsDirty(addr)
  {
    if t.Covers(addr) {
      FinePageCounted(addr - t.ramStart, t.ramSize, finePage);
      BlockOfFinePage(addr - t.ramStart, finePage, t.pageSize);
    } else {
      BlockOfFinePage(0, finePage, t.pageSize);
    }
  }

  lemma FinePageCounted(off: nat, size: nat, finePage: nat)
    requires 0 < finePage && off < size
    ensures off / finePage < CeilDiv(size, finePage)
  {
    UnitOfOffset(size, finePage, off);
  }

  lemma BlockOfFinePage(off: nat, finePage: nat, pageSize: nat)
    requires IsPowerOfTwo(finePage) && IsPowerOfTwo(pageSize) && 0 < finePage <= pageSize
    ensures 0 < BlockOf(pageSize, finePage)
    ensures BlockOf(BlockOf(off, finePage), BlockOf(pageSize, finePage)) == BlockOf(off, pageSize)
  {
    PowersDivide(finePage, pageSize);
    DivideTwice(off, finePage, pageSize / finePage);
  }

  lemma RefineValid(t: Tracking, finePage: nat)
    requires t.Valid() && IsPowerOfTwo(finePage) && finePage < t.pageSize
    ensures 0 < finePage && 0 < t.pageSize / finePage && t.Refine(finePage).Valid()
  {
    RatioOfPowers(finePage, t.pageSize);
  }

  lemma MarkValid(t: Tracking, addr: nat)
    requires t.Valid()
    ensures t.Mark(addr).Valid()
  {
    if t.Covers(addr) { UnitOfOffset(t.ramSize, t.pageSize, addr - t.ramStart); }
  }
}
