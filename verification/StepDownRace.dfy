/**
 Marking while a region steps down (crates/snapshot/src/dirty.rs), one atomic step at a time.

 A marker clones the handle of the active bitmap under the read lock and sets its bit after
 releasing it.  A step-down holds the write lock while it reads the coarse words one by one into
 a finer bitmap and publishes that.  A marker that cloned before the step-down can therefore set
 its bit in the coarse bitmap after its word has been read.
 */
module StepDownRace {
  import opened Words
  import opened Bitmap

  /** The bitmap a marker has cloned: the one before the step-down or the one after. */
  datatype Handle = Before | After

  /** No step-down yet; under way, with the coarse words below `next` read; or published. */
  datatype Phase = Coarse | Folding(next: nat) | Fine

  /** A completed mark; `late` when it went into the coarse bitmap after its word had been read. */
  datatype Mark = Mark(addr: nat, handle: Handle, late: bool)

  datatype Event =
    | Clone(thread: nat)
    | Store(thread: nat, addr: nat)
    | Begin
    | FoldWord
    | Publish

  /** `marks` logs the completed marks; `held` the handles cloned by marks under way. */
  datatype State = State(coarse: Tracking, fine: Tracking, phase: Phase, held: map<nat, Handle>, marks: seq<Mark>)

  ghost predicate Valid(s: State) {
    && s.coarse.Valid() && s.fine.Valid()
    && s.fine.ramStart == s.coarse.ramStart && s.fine.ramSize == s.coarse.ramSize
    && s.fine.pageSize < s.coarse.pageSize
  }

  function Initial(ramStart: nat, ramSize: nat, coarsePage: nat, finePage: nat): State {
    State(Tracking(ramStart, ramSize, coarsePage, {}), Tracking(ramStart, ramSize, finePage, {}), Coarse, map[], [])
  }

  /** The bitmap a new clone sees, and a snapshot reads. */
  function Active(s: State): Tracking {
    if s.phase.Fine? then s.fine else s.coarse
  }

  function WordOf(s: State, addr: nat): nat
    requires s.coarse.pageSize > 0 && s.coarse.Covers(addr)
  {
    BlockOf(addr - s.coarse.ramStart, s.coarse.pageSize) / 64
  }

  function WordCount(s: State): nat
    requires s.coarse.pageSize > 0
  {
    CeilDiv(s.coarse.PageCount(), 64)
  }

  /** The coarse word of `addr` has been read by the step-down. */
  predicate HasBeenRead(s: State, addr: nat)
    requires s.coarse.pageSize > 0 && s.coarse.Covers(addr)
  {
    s.phase.Fine? || (s.phase.Folding? && WordOf(s, addr) < s.phase.next)
  }

  function InWord(dirty: set<nat>, k: nat): set<nat> {
    set p | p in dirty && p / 64 == k
  }

  /** The coarse bitmap with only word `k` kept. */
  function OneWord(t: Tracking, k: nat): Tracking {
    t.(dirty := InWord(t.dirty, k))
  }

  /** Cloning waits for the lock; the folding steps are those of the one holder of the write lock. */
  ghost predicate Enabled(s: State, e: Event)
    requires Valid(s)
  {
    match e
    case Clone(_) => !s.phase.Folding?
    case Store(t, _) => t in s.held
    case Begin => s.phase.Coarse?
    case FoldWord => s.phase.Folding? && s.phase.next < WordCount(s)
    case Publish => s.phase.Folding? && s.phase.next == WordCount(s)
  }

  function MarkMade(s: State, t: nat, addr: nat): Mark
    requires s.coarse.pageSize > 0 && t in s.held
  {
    Mark(addr, s.held[t], s.held[t].Before? && s.coarse.Covers(addr) && HasBeenRead(s, addr))
  }

  ghost function Step(s: State, e: Event): (s': State)
    requires Valid(s) && Enabled(s, e)
    ensures Valid(s')
    ensures s'.coarse == s.coarse.(dirty := s'.coarse.dirty) && s'.fine == s.fine.(dirty := s'.fine.dirty)
  {
    match e
    case Clone(t) => s.(held := s.held[t := if s.phase.Fine? then After else Before])
    case Store(t, addr) =>
      MarkValid(s.coarse, addr);
      MarkValid(s.fine, addr);
      var s1 := s.(held := s.held - {t}, marks := s.marks + [MarkMade(s, t, addr)]);
      if s.held[t].Before? then s1.(coarse := s.coarse.Mark(addr)) else s1.(fine := s.fine.Mark(addr))
    case Begin => s.(phase := Folding(0))
    case FoldWord =>
      RefineValid(OneWord(s.coarse, s.phase.next), s.fine.pageSize);
      var read := OneWord(s.coarse, s.phase.next).Refine(s.fine.pageSize).dirty;
      s.(fine := s.fine.(dirty := s.fine.dirty + read), phase := Folding(s.phase.next + 1))
    case Publish => s.(phase := Fine)
  }

  ghost predicate IsRun(s: State, events: seq<Event>)
    requires Valid(s)
    decreases |events|
  {
    events == [] || (Enabled(s, events[0]) && IsRun(Step(s, events[0]), events[1..]))
  }

  ghost function Run(s: State, events: seq<Event>): (s': State)
    requires Valid(s) && IsRun(s, events)
    ensures Valid(s')
    decreases |events|
  {
    if events == [] then s else Run(Step(s, events[0]), events[1..])
  }

  // ---- what a mark reaches ---------------------------------------------------------------------

  /** Both addresses are covered and on one page of the bitmap `t`. */
  predicate SamePage(t: Tracking, a: nat, b: nat)
    requires t.pageSize > 0
  {
    && t.Covers(a) && t.Covers(b)
    && BlockOf(a - t.ramStart, t.pageSize) == BlockOf(b - t.ramStart, t.pageSize)
  }

  /** `addr` is on the page that the mark `m` set in the bitmap it had cloned. */
  predicate Reaches(s: State, m: Mark, addr: nat)
    requires s.coarse.pageSize > 0 && s.fine.pageSize > 0
  {
    SamePage(if m.handle.Before? then s.coarse else s.fine, m.addr, addr)
  }

  /** Some mark made in the coarse bitmap reaches `addr`. */
  ghost predicate MarkedCoarse(s: State, addr: nat)
    requires Valid(s)
  {
    exists i :: 0 <= i < |s.marks| && s.marks[i].handle.Before? && Reaches(s, s.marks[i], addr)
  }

  /** Some mark made in time, or in the finer bitmap, reaches `addr`. */
  ghost predicate MarkedInTime(s: State, addr: nat)
    requires Valid(s)
  {
    exists i :: 0 <= i < |s.marks| && !s.marks[i].late && Reaches(s, s.marks[i], addr)
  }

  ghost predicate Inv(s: State)
    requires Valid(s)
  {
    && (!s.phase.Fine? ==> forall t <- s.held :: s.held[t].Before?)
    && (forall i :: 0 <= i < |s.marks| ==> MarkInv(s, s.marks[i]))
    && (forall addr: nat :: s.coarse.IsDirty(addr) <==> MarkedCoarse(s, addr))
    && (forall addr: nat {:trigger s.fine.IsDirty(addr)} ::
          s.fine.IsDirty(addr) <==> s.coarse.Covers(addr) && HasBeenRead(s, addr) && MarkedInTime(s, addr))
  }

  ghost predicate MarkInv(s: State, m: Mark)
    requires Valid(s)
  {
    && (m.handle.After? ==> s.phase.Fine? && !m.late)
    && (m.late ==> s.coarse.Covers(m.addr) && HasBeenRead(s, m.addr))
  }

  // ---- each step keeps the invariant -----------------------------------------------------------

  ghost predicate SamePages(s: State, s': State)
    requires Valid(s) && Valid(s')
  {
    s'.coarse == s.coarse.(dirty := s'.coarse.dirty) && s'.fine == s.fine.(dirty := s'.fine.dirty)
  }

  lemma SameMarks(s: State, s': State, addr: nat)
    requires Valid(s) && Valid(s') && SamePages(s, s') && s'.marks == s.marks
    ensures MarkedCoarse(s', addr) <==> MarkedCoarse(s, addr)
    ensures MarkedInTime(s', addr) <==> MarkedInTime(s, addr)
  {
    if MarkedCoarse(s, addr) {
      var i :| 0 <= i < |s.marks| && s.marks[i].handle.Before? && Reaches(s, s.marks[i], addr);
      assert Reaches(s', s'.marks[i], addr);
    }
    if MarkedInTime(s, addr) {
      var i :| 0 <= i < |s.marks| && !s.marks[i].late && Reaches(s, s.marks[i], addr);
      assert Reaches(s', s'.marks[i], addr);
    }
  }

  lemma OneMoreCoarse(s: State, s': State, m: Mark, addr: nat)
    requires Valid(s) && Valid(s') && SamePages(s, s') && s'.marks == s.marks + [m]
    ensures MarkedCoarse(s', addr) <==> MarkedCoarse(s, addr) || (m.handle.Before? && Reaches(s, m, addr))
  {
    var n := |s.marks|;
    assert s'.marks[n] == m && forall i :: 0 <= i < n ==> s'.marks[i] == s.marks[i];
    if MarkedCoarse(s, addr) {
      var i :| 0 <= i < n && s.marks[i].handle.Before? && Reaches(s, s.marks[i], addr);
      assert Reaches(s', s'.marks[i], addr);
    } else if m.handle.Before? && Reaches(s, m, addr) {
      assert Reaches(s', s'.marks[n], addr);
    }
  }

  lemma OneMoreInTime(s: State, s': State, m: Mark, addr: nat)
    requires Valid(s) && Valid(s') && SamePages(s, s') && s'.marks == s.marks + [m]
    ensures MarkedInTime(s', addr) <==> MarkedInTime(s, addr) || (!m.late && Reaches(s, m, addr))
  {
    var n := |s.marks|;
    assert s'.marks[n] == m && forall i :: 0 <= i < n ==> s'.marks[i] == s.marks[i];
    if MarkedInTime(s, addr) {
      var i :| 0 <= i < n && !s.marks[i].late && Reaches(s, s.marks[i], addr);
      assert Reaches(s', s'.marks[i], addr);
    } else if !m.late && Reaches(s, m, addr) {
      assert Reaches(s', s'.marks[n], addr);
    }
  }

  /** One page holds one word. */
  lemma SameWord(s: State, a: nat, b: nat)
    requires s.coarse.pageSize > 0 && SamePage(s.coarse, a, b)
    ensures HasBeenRead(s, a) == HasBeenRead(s, b)
  {
  }

  lemma StoredOnePage(s: State, t: nat, at: nat, addr: nat)
    requires Valid(s) && Enabled(s, Store(t, at))
    ensures var s', m := Step(s, Store(t, at)), MarkMade(s, t, at);
            && (s'.coarse.IsDirty(addr) <==> s.coarse.IsDirty(addr) || (m.handle.Before? && Reaches(s, m, addr)))
            && (s'.fine.IsDirty(addr) <==> s.fine.IsDirty(addr) || (m.handle.After? && Reaches(s, m, addr)))
  {
  }

  lemma StoreCoarse(s: State, t: nat, at: nat, addr: nat)
    requires Valid(s) && Inv(s) && Enabled(s, Store(t, at))
    ensures var s' := Step(s, Store(t, at));
            s'.coarse.IsDirty(addr) <==> MarkedCoarse(s', addr)
  {
    StoredOnePage(s, t, at, addr);
    OneMoreCoarse(s, Step(s, Store(t, at)), MarkMade(s, t, at), addr);
    assert s.coarse.IsDirty(addr) <==> MarkedCoarse(s, addr);
  }

  lemma StoreFine(s: State, t: nat, at: nat, addr: nat)
    requires Valid(s) && Inv(s) && Enabled(s, Store(t, at))
    ensures var s' := Step(s, Store(t, at));
            s'.fine.IsDirty(addr) <==> s'.coarse.Covers(addr) && HasBeenRead(s', addr) && MarkedInTime(s', addr)
  {
    var m := MarkMade(s, t, at);
    StoredOnePage(s, t, at, addr);
    OneMoreInTime(s, Step(s, Store(t, at)), m, addr);
    if Reaches(s, m, addr) && m.handle.Before? { SameWord(s, m.addr, addr); }
    assert s.fine.IsDirty(addr) <==> s.coarse.Covers(addr) && HasBeenRead(s, addr) && MarkedInTime(s, addr);
  }

  lemma StoreInv(s: State, t: nat, at: nat)
    requires Valid(s) && Inv(s) && Enabled(s, Store(t, at))
    ensures Inv(Step(s, Store(t, at)))
  {
    var s' := Step(s, Store(t, at));
    forall addr: nat ensures s'.coarse.IsDirty(addr) <==> MarkedCoarse(s', addr) {
      StoreCoarse(s, t, at, addr);
    }
    forall addr: nat
      ensures s'.fine.IsDirty(addr) <==> s'.coarse.Covers(addr) && HasBeenRead(s', addr) && MarkedInTime(s', addr)
    {
      StoreFine(s, t, at, addr);
    }
    forall i | 0 <= i < |s'.marks| ensures MarkInv(s', s'.marks[i]) {
      if i < |s.marks| { assert MarkInv(s, s.marks[i]); }
    }
  }

  /** Every mark in an unread word was made in time. */
  lemma UnreadIsInTime(s: State, addr: nat)
    requires Valid(s) && Inv(s) && !s.phase.Fine? && s.coarse.Covers(addr) && !HasBeenRead(s, addr)
    ensures MarkedInTime(s, addr) <==> MarkedCoarse(s, addr)
  {
    if MarkedCoarse(s, addr) {
      var i :| 0 <= i < |s.marks| && s.marks[i].handle.Before? && Reaches(s, s.marks[i], addr);
      SameWord(s, s.marks[i].addr, addr);
      assert MarkInv(s, s.marks[i]);
    }
    if MarkedInTime(s, addr) {
      var i :| 0 <= i < |s.marks| && !s.marks[i].late && Reaches(s, s.marks[i], addr);
      assert MarkInv(s, s.marks[i]);
    }
  }

  lemma ReadOneWord(s: State, addr: nat)
    requires Valid(s) && Enabled(s, FoldWord)
    ensures Step(s, FoldWord).fine.IsDirty(addr) <==>
            s.fine.IsDirty(addr) || (s.coarse.IsDirty(addr) && WordOf(s, addr) == s.phase.next)
  {
    RefineKeepsAddresses(OneWord(s.coarse, s.phase.next), s.fine.pageSize, addr);
  }

  lemma FoldWordInv(s: State)
    requires Valid(s) && Inv(s) && Enabled(s, FoldWord)
    ensures Inv(Step(s, FoldWord))
  {
    var s' := Step(s, FoldWord);
    forall addr: nat ensures s'.coarse.IsDirty(addr) <==> MarkedCoarse(s', addr) {
      SameMarks(s, s', addr);
      assert s.coarse.IsDirty(addr) <==> MarkedCoarse(s, addr);
    }
    forall addr: nat
      ensures s'.fine.IsDirty(addr) <==> s'.coarse.Covers(addr) && HasBeenRead(s', addr) && MarkedInTime(s', addr)
    {
      SameMarks(s, s', addr);
      ReadOneWord(s, addr);
      if s.coarse.Covers(addr) && !HasBeenRead(s, addr) { UnreadIsInTime(s, addr); }
    }
    forall i | 0 <= i < |s'.marks| ensures MarkInv(s', s'.marks[i]) { assert MarkInv(s, s.marks[i]); }
  }

  /** When the last word has been read, every covered address has been. */
  lemma AllRead(s: State, addr: nat)
    requires Valid(s) && Enabled(s, Publish) && s.coarse.Covers(addr)
    ensures HasBeenRead(s, addr)
  {
    var off := addr - s.coarse.ramStart;
    FinePageCounted(off, s.coarse.ramSize, s.coarse.pageSize);
    FinePageCounted(BlockOf(off, s.coarse.pageSize), s.coarse.PageCount(), 64);
  }

  /** The steps that change no bitmap. */
  lemma OtherInv(s: State, e: Event)
    requires Valid(s) && Inv(s) && Enabled(s, e) && (e.Clone? || e.Begin? || e.Publish?)
    ensures Inv(Step(s, e))
  {
    var s' := Step(s, e);
    forall addr: nat ensures s'.coarse.IsDirty(addr) <==> MarkedCoarse(s', addr) {
      SameMarks(s, s', addr);
      assert s.coarse.IsDirty(addr) <==> MarkedCoarse(s, addr);
    }
    forall addr: nat
      ensures s'.fine.IsDirty(addr) <==> s'.coarse.Covers(addr) && HasBeenRead(s', addr) && MarkedInTime(s', addr)
    {
      SameMarks(s, s', addr);
      if e.Publish? && s.coarse.Covers(addr) { AllRead(s, addr); }
    }
    forall i | 0 <= i < |s'.marks| ensures MarkInv(s', s'.marks[i]) { assert MarkInv(s, s.marks[i]); }
  }

  lemma {:induction false} RunInv(s: State, events: seq<Event>)
    requires Valid(s) && Inv(s) && IsRun(s, events)
    ensures Inv(Run(s, events))
    decreases |events|
  {
    if events == [] {
    } else {
      match events[0] {
        case Store(t, at) => StoreInv(s, t, at);
        case FoldWord => FoldWordInv(s);
        case _ => OtherInv(s, events[0]);
      }
      RunInv(Step(s, events[0]), events[1..]);
    }
  }

  // ---- which marks survive ---------------------------------------------------------------------

  /**
   After every interleaving: an address is dirty in the active bitmap exactly when a mark
   reaches it that did not come too late for the bitmap now in use.
   */
  lemma DirtyIffMarkedInTime(s0: State, events: seq<Event>, addr: nat)
    requires Valid(s0) && s0 == Initial(s0.coarse.ramStart, s0.coarse.ramSize, s0.coarse.pageSize, s0.fine.pageSize)
    requires IsRun(s0, events)
    ensures var s := Run(s0, events);
            Active(s).IsDirty(addr) <==> if s.phase.Fine? then MarkedInTime(s, addr) else MarkedCoarse(s, addr)
  {
    RunInv(s0, events);
    var s := Run(s0, events);
    if MarkedInTime(s, addr) {
      var i :| 0 <= i < |s.marks| && !s.marks[i].late && Reaches(s, s.marks[i], addr);
    }
    assert s.coarse.IsDirty(addr) <==> MarkedCoarse(s, addr);
    assert s.fine.IsDirty(addr) <==> s.coarse.Covers(addr) && HasBeenRead(s, addr) && MarkedInTime(s, addr);
  }

  /** Every completed mark of a covered address is dirty in the active bitmap. */
  ghost predicate NothingLost(s: State)
    requires Valid(s)
  {
    forall i :: 0 <= i < |s.marks| && s.coarse.Covers(s.marks[i].addr) ==> Active(s).IsDirty(s.marks[i].addr)
  }

  /** Every late mark is on a page that some mark in time also reached. */
  ghost predicate LateMarksRepeated(s: State)
    requires Valid(s)
  {
    forall i :: 0 <= i < |s.marks| && s.marks[i].late ==> MarkedInTime(s, s.marks[i].addr)
  }

  lemma ReachesItself(s: State, i: nat)
    requires Valid(s) && i < |s.marks| && s.coarse.Covers(s.marks[i].addr)
    ensures Reaches(s, s.marks[i], s.marks[i].addr)
    ensures !s.marks[i].late ==> MarkedInTime(s, s.marks[i].addr)
  {
  }

  /** Marks are lost exactly when a step-down was published and a late mark was not repeated. */
  lemma NothingLostIff(s0: State, events: seq<Event>)
    requires Valid(s0) && s0 == Initial(s0.coarse.ramStart, s0.coarse.ramSize, s0.coarse.pageSize, s0.fine.pageSize)
    requires IsRun(s0, events)
    ensures var s := Run(s0, events);
            NothingLost(s) <==> !s.phase.Fine? || LateMarksRepeated(s)
  {
    var s := Run(s0, events);
    RunInv(s0, events);
    forall i | 0 <= i < |s.marks| && s.coarse.Covers(s.marks[i].addr)
      ensures Active(s).IsDirty(s.marks[i].addr) <==> !s.phase.Fine? || MarkedInTime(s, s.marks[i].addr)
      ensures !s.marks[i].late ==> MarkedInTime(s, s.marks[i].addr)
    {
      ReachesItself(s, i);
      DirtyIffMarkedInTime(s0, events, s.marks[i].addr);
      assert MarkInv(s, s.marks[i]);
    }
    forall i | 0 <= i < |s.marks| && s.marks[i].late ensures s.coarse.Covers(s.marks[i].addr) {
      assert MarkInv(s, s.marks[i]);
    }
  }

  // ---- the window ------------------------------------------------------------------------------

  /** Each step-down starts while no mark is under way. */
  ghost predicate QuietStart(s: State, events: seq<Event>)
    requires Valid(s) && IsRun(s, events)
    decreases |events|
  {
    events == [] || ((events[0].Begin? ==> s.held == map[]) && QuietStart(Step(s, events[0]), events[1..]))
  }

  ghost predicate NoneLate(s: State) {
    && (forall i :: 0 <= i < |s.marks| ==> !s.marks[i].late)
    && (!s.phase.Coarse? ==> forall t <- s.held :: s.held[t].After?)
  }

  lemma {:induction false} QuietMarksInTime(s: State, events: seq<Event>)
    requires Valid(s) && IsRun(s, events) && QuietStart(s, events) && NoneLate(s)
    ensures NoneLate(Run(s, events))
    decreases |events|
  {
    if events == [] {
    } else {
      QuietMarksInTime(Step(s, events[0]), events[1..]);
    }
  }

  /** A step-down that starts while no mark is under way loses no mark, then or later. */
  lemma QuietStepDownLosesNothing(s0: State, events: seq<Event>)
    requires Valid(s0) && s0 == Initial(s0.coarse.ramStart, s0.coarse.ramSize, s0.coarse.pageSize, s0.fine.pageSize)
    requires IsRun(s0, events) && QuietStart(s0, events)
    ensures NothingLost(Run(s0, events))
  {
    QuietMarksInTime(s0, events);
    NothingLostIff(s0, events);
  }

  lemma {:induction false} RunThen(s: State, a: seq<Event>, b: seq<Event>)
    requires Valid(s) && IsRun(s, a) && IsRun(Run(s, a), b)
    ensures IsRun(s, a + b) && Run(s, a + b) == Run(Run(s, a), b)
    decreases |a|
  {
    if a == [] {
      assert a + b == b;
    } else {
      assert (a + b)[0] == a[0] && (a + b)[1..] == a[1..] + b;
      RunThen(Step(s, a[0]), a[1..], b);
    }
  }

  lemma OneStep(s: State, e: Event)
    requires Valid(s) && Enabled(s, e)
    ensures IsRun(s, [e]) && Run(s, [e]) == Step(s, e)
  {
    assert [e][1..] == [];
  }

  function Folds(n: nat): seq<Event> {
    if n == 0 then [] else [FoldWord] + Folds(n - 1)
  }

  /** Reading all remaining words changes neither the coarse bitmap nor the marks. */
  lemma {:induction false} FoldsRun(s: State, n: nat)
    requires Valid(s) && Inv(s) && s.phase.Folding? && s.phase.next + n == WordCount(s)
    ensures IsRun(s, Folds(n)) && Inv(Run(s, Folds(n)))
    ensures var s' := Run(s, Folds(n));
            && s'.phase == Folding(WordCount(s)) && SamePages(s, s') && WordCount(s') == WordCount(s)
            && s'.held == s.held && s'.marks == s.marks
    decreases n
  {
    if n == 0 {
    } else {
      assert Folds(n)[0] == FoldWord && Folds(n)[1..] == Folds(n - 1);
      FoldWordInv(s);
      FoldsRun(Step(s, FoldWord), n - 1);
    }
  }

  /** Before any step-down, an address that is clean has no mark in time. */
  lemma CleanHasNoMark(s: State, addr: nat)
    requires Valid(s) && Inv(s) && s.phase.Coarse? && !s.coarse.IsDirty(addr)
    ensures !MarkedInTime(s, addr)
  {
    if MarkedInTime(s, addr) {
      var i :| 0 <= i < |s.marks| && !s.marks[i].late && Reaches(s, s.marks[i], addr);
      assert MarkInv(s, s.marks[i]);
      assert MarkedCoarse(s, addr);
    }
  }

  /** The whole step-down, and then the store that was under way when it began. */
  function Straddled(words: nat, t: nat, addr: nat): seq<Event> {
    [Begin] + (Folds(words) + ([Publish] + [Store(t, addr)]))
  }

  /**
   The discipline is tight: from any state in which a mark is under way, a step-down that
   starts now can lose it, at every address that is clean.
   */
  lemma HeldMarkCanBeLost(s: State, t: nat, addr: nat)
    requires Valid(s) && Inv(s) && s.phase.Coarse? && t in s.held
    requires s.coarse.Covers(addr) && !s.coarse.IsDirty(addr)
    ensures var events := Straddled(WordCount(s), t, addr);
            && IsRun(s, events) && !Active(Run(s, events)).IsDirty(addr) && !NothingLost(Run(s, events))
  {
    var words := WordCount(s);
    OtherInv(s, Begin);
    OneStep(s, Begin);
    var s1 := Step(s, Begin);
    FoldsRun(s1, words);
    var s2 := Run(s1, Folds(words));
    OtherInv(s2, Publish);
    OneStep(s2, Publish);
    var s3 := Step(s2, Publish);
    CleanHasNoMark(s, addr);
    SameMarks(s, s3, addr);
    assert !s3.fine.IsDirty(addr);
    OneStep(s3, Store(t, addr));
    RunThen(s2, [Publish], [Store(t, addr)]);
    RunThen(s1, Folds(words), [Publish] + [Store(t, addr)]);
    RunThen(s, [Begin], Folds(words) + ([Publish] + [Store(t, addr)]));
    var s4 := Step(s3, Store(t, addr));
    assert s4.marks[|s3.marks|].addr == addr;
  }

  /** In every region, a marker that clones before a step-down and stores after it leaves no trace. */
  lemma LateMarkIsLost(s0: State, t: nat, addr: nat)
    requires Valid(s0) && s0 == Initial(s0.coarse.ramStart, s0.coarse.ramSize, s0.coarse.pageSize, s0.fine.pageSize)
    requires s0.coarse.Covers(addr)
    ensures var events := [Clone(t)] + Straddled(WordCount(s0), t, addr);
            && IsRun(s0, events) && !Active(Run(s0, events)).IsDirty(addr) && !NothingLost(Run(s0, events))
  {
    OneStep(s0, Clone(t));
    RunInv(s0, [Clone(t)]);
    HeldMarkCanBeLost(Step(s0, Clone(t)), t, addr);
    RunThen(s0, [Clone(t)], Straddled(WordCount(s0), t, addr));
  }
}
