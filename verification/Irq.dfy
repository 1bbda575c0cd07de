/** The per-vCPU IRQ shadow: a 1024-bit set of pending interrupt ids (crates/hv/src/irq.rs). */
module Irq {
  import opened Words
  import opened Bitmap

  const MAX_TRACKED_INTID: nat := 1024
  const WORDS: nat := 16

  class IrqShadow {
    const words: array<nat>
    ghost var pending: set<nat>

    ghost predicate Valid()
      reads this, words
    {
      && words.Length == WORDS
      && WellFormed(words[..], MAX_TRACKED_INTID)
      && pending == DirtySet(words[..], MAX_TRACKED_INTID)
    }

    constructor ()
      ensures Valid() && fresh(words) && pending == {}
    {
      words := new nat[WORDS](_ => 0);
      pending := {};
      new;
      AllZeroIsClean(words[..], MAX_TRACKED_INTID);
    }

    method Inject(intid: nat) returns (newly: bool)
      requires Valid()
      modifies this, words
      ensures Valid()
      ensures pending == old(pending) + (if intid < MAX_TRACKED_INTID then {intid} else {})
      ensures newly <==> intid < MAX_TRACKED_INTID && intid !in old(pending)
    {
      if intid >= MAX_TRACKED_INTID {
        return false;
      }
      var word, mask := intid / 64, Pow2(intid % 64);
      var prev := words[word];
      ghost var before := words[..];
      words[word] := Or(prev, mask);
      pending := pending + {intid};
      assert words[..] == SetBit(before, intid);
      SetBitWellFormed(before, MAX_TRACKED_INTID, intid);
      TestMask(prev, intid % 64);
      return And(prev, mask) == 0;
    }

    /** Reads and clears every word; `emitted` is what the callback saw. */
    method Drain() returns (emitted: seq<nat>)
      requires Valid()
      modifies this, words
      ensures Valid() && pending == {}
      ensures StrictlyAscending(emitted)
      ensures forall i: nat :: i in emitted <==> i in old(pending)
    {
      emitted := [];
      ghost var before := words[..];
      DrainOfSpec(before);
      for k := 0 to words.Length
        invariant forall j :: 0 <= j < k ==> words[j] == 0
        invariant forall j :: k <= j < words.Length ==> words[j] == before[j]
        invariant emitted == DrainOf(before[..k])
      {
        var bits := words[k];
        words[k] := 0;
        var ids := EmitMasked(bits, k * 64);
        emitted := emitted + ids;
        assert before[..k + 1][..k] == before[..k];
      }
      assert before[..words.Length] == before;
      pending := {};
      AllZeroIsClean(words[..], MAX_TRACKED_INTID);
    }

    method IsEmpty() returns (r: bool)
      requires Valid()
      ensures r <==> pending == {}
    {
      r := true;
      for k := 0 to words.Length
        invariant r <==> forall j :: 0 <= j < k ==> words[j] == 0
      {
        if words[k] != 0 {
          r := false;
        }
      }
      if r {
        AllZeroIsClean(words[..], MAX_TRACKED_INTID);
      } else {
        ghost var k :| 0 <= k < words.Length && words[k] != 0;
        NonZeroWord(words[..], k);
      }
    }
  }

  /** The drain loop that clears with `bits &= !(1 << bit)`; same output as `bits & (bits - 1)`. */
  method EmitMasked(word: nat, base: nat) returns (out: seq<nat>)
    requires word < U64_LIMIT
    ensures out == BitIndices(word, base)
  {
    out := [];
    var bits: nat := word;
    while bits != 0
      invariant bits < U64_LIMIT
      invariant out + BitIndices(bits, base) == BitIndices(word, base)
      decreases bits
    {
      var index, rest := TakeLowest(bits, base);
      Regroup(out, [index], BitIndices(rest, base));
      out := out + [index];
      bits := rest;
    }
  }

  /** One turn: the index of the lowest set digit, and the word with that digit masked out. */
  method TakeLowest(bits: nat, base: nat) returns (index: nat, rest: nat)
    requires 0 < bits < U64_LIMIT
    ensures rest < bits && BitIndices(bits, base) == [index] + BitIndices(rest, base)
  {
    var bit := TrailingZeros(bits);
    ClearedFirst(bits, base);
    index, rest := base + bit, And(bits, Not64(Pow2(bit)));
  }

  /** Clearing the lowest set digit by mask leaves a smaller word that emits the rest. */
  lemma ClearedFirst(bits: nat, base: nat)
    requires 0 < bits < U64_LIMIT
    ensures Pow2(TrailingZeros(bits)) < U64_LIMIT
    ensures var next := And(bits, Not64(Pow2(TrailingZeros(bits))));
            next < bits && BitIndices(bits, base) == [base + TrailingZeros(bits)] + BitIndices(next, base)
  {
    ClearByMask(bits);
    AndAtMost(bits, bits - 1);
  }

  lemma WordAndDigit(k: nat, d: nat)
    requires d < 64
    ensures (64 * k + d) / 64 == k && (64 * k + d) % 64 == d
  {
  }

  lemma NonZeroWord(words: seq<nat>, k: nat)
    requires k < |words| && words[k] != 0 && WellFormed(words, MAX_TRACKED_INTID)
    ensures DirtySet(words, MAX_TRACKED_INTID) != {}
  {
    WordLimit();
    LowestBit(words[k]);
    LowestBitInRange(words[k], 64);
    var p := 64 * k + TrailingZeros(words[k]);
    WordAndDigit(k, TrailingZeros(words[k]));
    assert PageDirty(words, p);
    assert p in DirtySet(words, MAX_TRACKED_INTID);
  }
}
