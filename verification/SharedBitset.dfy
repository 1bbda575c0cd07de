/**
 Lock-free use of a word array by any number of threads: setters do one `fetch_or`, drainers
 swap a word to zero and then emit its digits one at a time from a local copy.  Used for the
 dirty bitmap (crates/snapshot/src/dirty.rs) and the IRQ shadow (crates/hv/src/irq.rs).
 */
module SharedBitset {
  import opened Words
  import opened Bitmap

  /** A drainer's local copy of a swapped-out word. */
  datatype Local = Local(word: nat, bits: nat)

  datatype Event =
    | Set(index: nat)
    | Swap(thread: nat, word: nat)
    | Emit(thread: nat)

  /**
   `sets` logs the indices for which a setter was told "newly set"; `emitted` logs what the
   drainers handed to their callbacks.
   */
  datatype State = State(count: nat, words: seq<nat>, locals: seq<Local>, sets: seq<nat>, emitted: seq<nat>)

  ghost predicate Valid(s: State) {
    && s.count <= 64 * |s.words|
    && (forall k :: 0 <= k < |s.words| ==> s.words[k] < U64_LIMIT)
    && (forall t :: 0 <= t < |s.locals| ==> s.locals[t].bits < U64_LIMIT)
  }

  /** Enabled steps: a drainer takes its next word only after emitting the previous one. */
  predicate Enabled(s: State, e: Event) {
    match e
    case Set(_) => true
    case Swap(t, k) => t < |s.locals| && k < |s.words| && s.locals[t].bits == 0
    case Emit(t) => t < |s.locals| && s.locals[t].bits != 0
  }

  function Step(s: State, e: Event): State
    requires s.count <= 64 * |s.words| && Enabled(s, e)
  {
    match e
    case Set(i) =>
      if i >= s.count then s
      else
        var newly := And(s.words[i / 64], Pow2(i % 64)) == 0;
        s.(words := SetBit(s.words, i), sets := if newly then s.sets + [i] else s.sets)
    case Swap(t, k) =>
      s.(words := s.words[k := 0], locals := s.locals[t := Local(k, s.words[k])])
    case Emit(t) =>
      var l := s.locals[t];
      s.(locals := s.locals[t := Local(l.word, And(l.bits, l.bits - 1))],
         emitted := s.emitted + [64 * l.word + TrailingZeros(l.bits)])
  }

  ghost predicate IsRun(s: State, events: seq<Event>)
    decreases events
  {
    s.count <= 64 * |s.words| &&
    (events == [] || (Enabled(s, events[0]) && IsRun(Step(s, events[0]), events[1..])))
  }

  ghost function Run(s: State, events: seq<Event>): State
    requires IsRun(s, events)
    decreases events
  {
    if events == [] then s else Run(Step(s, events[0]), events[1..])
  }

  function Occurrences(s: seq<nat>, x: nat): nat {
    multiset(s)[x]
  }

  function Pending(words: seq<nat>, i: nat): nat {
    if PageDirty(words, i) then 1 else 0
  }

  function InHand(l: Local, i: nat): nat {
    if i / 64 == l.word && Bit(l.bits, i % 64) then 1 else 0
  }

  /** How many drainers hold index `i` between their swap and their callback. */
  function InFlight(locals: seq<Local>, i: nat): nat {
    if locals == [] then 0 else InHand(locals[0], i) + InFlight(locals[1..], i)
  }

  /** Nothing is lost and nothing is duplicated. */
  ghost predicate Conserved(s: State) {
    forall i: nat :: Occurrences(s.sets, i) ==
                     Occurrences(s.emitted, i) + Pending(s.words, i) + InFlight(s.locals, i)
  }

  lemma {:induction false} InFlightUpdate(locals: seq<Local>, t: nat, l: Local, i: nat)
    requires t < |locals|
    ensures InFlight(locals[t := l], i) + InHand(locals[t], i) == InFlight(locals, i) + InHand(l, i)
  {
    if t == 0 {
      assert locals[t := l][1..] == locals[1..];
    } else {
      assert locals[t := l][1..] == locals[1..][t - 1 := l];
      InFlightUpdate(locals[1..], t - 1, l, i);
    }
  }

  lemma SetStep(s: State, i: nat, x: nat)
    requires Valid(s) && i < s.count
    ensures var s' := Step(s, Set(i));
            Occurrences(s'.sets, x) + Pending(s.words, x) == Occurrences(s.sets, x) + Pending(s'.words, x)
  {
    SetBitSpec(s.words, i, x);
    TestMask(s.words[i / 64], i % 64);
  }

  lemma SwapStep(s: State, t: nat, k: nat, x: nat)
    requires Valid(s) && Enabled(s, Swap(t, k))
    ensures var s' := Step(s, Swap(t, k));
            Pending(s'.words, x) + InFlight(s'.locals, x) == Pending(s.words, x) + InFlight(s.locals, x)
  {
    InFlightUpdate(s.locals, t, Local(k, s.words[k]), x);
    BitOfZero(x % 64);
  }

  lemma EmitStep(s: State, t: nat, x: nat)
    requires Valid(s) && Enabled(s, Emit(t))
    ensures var s' := Step(s, Emit(t));
            Occurrences(s'.emitted, x) + InFlight(s'.locals, x) ==
            Occurrences(s.emitted, x) + InFlight(s.locals, x)
  {
    var l := s.locals[t];
    var bit := TrailingZeros(l.bits);
    InFlightUpdate(s.locals, t, Local(l.word, And(l.bits, l.bits - 1)), x);
    ClearLowest(l.bits, x % 64);
    LowestBit(l.bits);
    WordLimit();
    LowestBitInRange(l.bits, 64);
    assert 64 * l.word + bit == x <==> x / 64 == l.word && x % 64 == bit;
  }

  lemma StepValid(s: State, e: Event)
    requires Valid(s) && Enabled(s, e)
    ensures Valid(Step(s, e))
  {
    match e
    case Set(i) =>
      if i < s.count {
        WordLimit();
        Pow2Monotone(i % 64, 64);
        OrBound(s.words[i / 64], Pow2(i % 64), 64);
      }
    case Swap(t, k) =>
    case Emit(t) =>
      AndAtMost(s.locals[t].bits, s.locals[t].bits - 1);
  }

  lemma StepConserves(s: State, e: Event)
    requires Valid(s) && Enabled(s, e) && Conserved(s)
    ensures Valid(Step(s, e)) && Conserved(Step(s, e))
  {
    StepValid(s, e);
    var s' := Step(s, e);
    forall x: nat
      ensures Occurrences(s'.sets, x) ==
              Occurrences(s'.emitted, x) + Pending(s'.words, x) + InFlight(s'.locals, x)
    {
      match e
      case Set(i) => if i < s.count { SetStep(s, i, x); }
      case Swap(t, k) => SwapStep(s, t, k, x);
      case Emit(t) => EmitStep(s, t, x);
    }
  }

  /**
   Over every interleaving: each index was reported newly set exactly as often as it was
   emitted, plus once if its bit is still set, plus once per drainer still holding it.
   */
  lemma {:induction false} RunConserves(s: State, events: seq<Event>)
    requires Valid(s) && Conserved(s) && IsRun(s, events)
    ensures Valid(Run(s, events)) && Conserved(Run(s, events))
    decreases events
  {
    if events == [] {
    } else {
      StepConserves(s, events[0]);
      RunConserves(Step(s, events[0]), events[1..]);
    }
  }

  ghost function Initial(count: nat, wordCount: nat, threads: nat): State {
    State(count, seq(wordCount, _ => 0), seq(threads, _ => Local(0, 0)), [], [])
  }

  lemma {:induction false} IdleHoldsNothing(locals: seq<Local>, i: nat)
    requires forall t :: 0 <= t < |locals| ==> locals[t].bits == 0
    ensures InFlight(locals, i) == 0
  {
    if locals == [] {
    } else {
      BitOfZero(i % 64);
      IdleHoldsNothing(locals[1..], i);
    }
  }

  lemma InitialConserved(count: nat, wordCount: nat, threads: nat)
    requires count <= 64 * wordCount
    ensures Valid(Initial(count, wordCount, threads)) && Conserved(Initial(count, wordCount, threads))
  {
    var s := Initial(count, wordCount, threads);
    forall x: nat ensures Pending(s.words, x) == 0 && InFlight(s.locals, x) == 0 {
      BitOfZero(x % 64);
      IdleHoldsNothing(s.locals, x);
    }
  }

  ghost predicate Idle(s: State) {
    forall t :: 0 <= t < |s.locals| ==> s.locals[t].bits == 0
  }

  lemma IdleBalance(s: State, i: nat)
    requires Conserved(s) && Idle(s)
    ensures Occurrences(s.sets, i) == Occurrences(s.emitted, i) + Pending(s.words, i)
  {
    IdleHoldsNothing(s.locals, i);
  }

  /** From a fresh bitset, once every drainer is idle: set = emitted + still pending. */
  lemma QuiescentBalance(count: nat, wordCount: nat, threads: nat, events: seq<Event>, i: nat)
    requires count <= 64 * wordCount && IsRun(Initial(count, wordCount, threads), events)
    requires Idle(Run(Initial(count, wordCount, threads), events))
    ensures var s := Run(Initial(count, wordCount, threads), events);
            Occurrences(s.sets, i) == Occurrences(s.emitted, i) + Pending(s.words, i)
  {
    var s0 := Initial(count, wordCount, threads);
    InitialConserved(count, wordCount, threads);
    RunConserves(s0, events);
    IdleBalance(Run(s0, events), i);
  }
}
