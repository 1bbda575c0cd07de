/**
 Whole runs of the MMDS TCP server: what one connection incarnation (from one SYN to the next SYN
 or reset of the same client) does over any sequence of segments, and how incarnations sharing
 the server keep apart.
 */
module TcpRuns {
  import opened Words
  import opened Outcomes
  import opened Http
  import opened Tcp

  /** A connection incarnation so far: its state and everything it accepted, sent and called. */
  datatype Trace = Trace(conn: Option<Conn>, received: seq<Byte>, sent: seq<Segment>, calls: seq<Request>,
                         peerFins: nat)

  function Opened(irs: nat, iss: nat): Trace {
    var c := NewConn(irs, iss);
    Trace(Some(c), [], [SynAck(iss, c)], [], 0)
  }

  function Advance(t: Trace, seg: Segment, app: App): Trace {
    Extend(t, OnSegment(t.conn, seg, app))
  }

  function Extend(t: Trace, e: Effect): Trace {
    Trace(e.conn, if e.conn.Some? then e.conn.value.rcvBuf else t.received,
          t.sent + e.sent, t.calls + e.calls, t.peerFins + e.peerFins)
  }

  function Run(t: Trace, segs: seq<Segment>, app: App): Trace
    decreases |segs|
  {
    if segs == [] then t else Run(Advance(t, segs[0], app), segs[1..], app)
  }

  /**
   A segment some client sending `stream` may have emitted: any flags but reset and fresh SYN,
   and either no payload or a piece of the stream under its own sequence number.  Loss,
   duplication, reordering and any cutting are all sequences of such segments.
   */
  ghost predicate Honest(seg: Segment, irs: nat, stream: seq<Byte>) {
    && !seg.rst && !IsOpen(seg)
    && (seg.payload != [] ==> exists off: nat :: PieceAt(seg, irs, stream, off))
  }

  predicate PieceAt(seg: Segment, irs: nat, stream: seq<Byte>, off: nat) {
    && off + |seg.payload| <= |stream|
    && seg.seqNo == Plus(irs, 1 + off)
    && seg.payload == stream[off..off + |seg.payload|]
  }

  ghost predicate AllHonest(segs: seq<Segment>, irs: nat, stream: seq<Byte>) {
    forall i :: 0 <= i < |segs| ==> Honest(segs[i], irs, stream)
  }

  // ---- what a trace shows --------------------------------------------------------------------

  function SeqLen(s: Segment): nat {
    |s.payload| + (if s.syn then 1 else 0) + (if s.fin then 1 else 0)
  }

  /** How far past the client's SYN an acknowledgement number points. */
  function AckPos(ackNo: nat, irs: nat): nat {
    (ackNo - irs - 1) % U32_LIMIT
  }

  /** Where the send space ends and how far the client has been acknowledged. */
  datatype Ledger = Broken | Books(next: nat, acked: nat)

  /**
   Section 3.3 of RFC 793 read off the replies: each starts where the one before ended and
   acknowledges at least as much.  Resets sent for a connection that is gone take no part.
   */
  function LedgerOf(sent: seq<Segment>, iss: nat, irs: nat): Ledger {
    if sent == [] then Books(iss, 0)
    else
      var last := sent[|sent| - 1];
      var before := LedgerOf(sent[..|sent| - 1], iss, irs);
      if before.Broken? || last.rst then before
      else if last.seqNo == before.next && AckPos(last.ackNo, irs) >= before.acked
      then Books(Plus(before.next, SeqLen(last)), AckPos(last.ackNo, irs))
      else Broken
  }

  /** The non-empty payloads sent, in order. */
  function Payloads(sent: seq<Segment>): seq<seq<Byte>> {
    if sent == [] then []
    else
      var last := sent[|sent| - 1];
      Payloads(sent[..|sent| - 1]) + (if last.payload != [] then [last.payload] else [])
  }

  function Fins(sent: seq<Segment>): nat {
    if sent == [] then 0
    else Fins(sent[..|sent| - 1]) + (if sent[|sent| - 1].fin then 1 else 0)
  }

  function AnswersFor(v: Outcome, app: App): seq<seq<Byte>> {
    match Answer(v, app.handler)
    case None => []
    case Some(response) => [ToWire(response)]
  }

  function CallsFor(v: Outcome): seq<Request> {
    if v.Complete? then [v.request] else []
  }

  predicate Waiting(t: Trace) {
    t.conn.Some? && !t.conn.value.state.LastAck?
  }

  /** What a verdict asks for: the handler calls, the answers, and whether more may come. */
  datatype Owed = Owed(calls: seq<Request>, answers: seq<seq<Byte>>, open: bool)

  const NOTHING_YET := Owed([], [], true)

  function OwedFor(v: Outcome, app: App): Owed {
    Owed(CallsFor(v), AnswersFor(v, app), v.Incomplete?)
  }

  /** Everything that holds of an incarnation at every point of its life. */
  ghost predicate Inv(t: Trace, irs: nat, iss: nat, stream: seq<Byte>, app: App) {
    InvFor(t, OwedFor(app.parse(t.received), app), irs, iss, stream)
  }

  /** The invariant, given what is owed for the bytes received. */
  ghost predicate InvFor(t: Trace, owed: Owed, irs: nat, iss: nat, stream: seq<Byte>) {
    && irs < U32_LIMIT && iss < U32_LIMIT && |stream| + 2 < U32_LIMIT
    // the buffer is a prefix of the client's stream
    && t.received <= stream && t.peerFins <= 1
    // exactly what is owed has been sent, and the handler called for it
    && t.calls == owed.calls
    && Payloads(t.sent) == owed.answers
    && Fins(t.sent) == |owed.answers| + t.peerFins
    // sequence and acknowledgement numbers
    && LedgerOf(t.sent, iss, irs).Books?
    && (t.conn.Some? ==> LiveInv(t, irs, iss))
    && (Waiting(t) ==> t.peerFins == 0 && owed.open)
  }

  ghost predicate LiveInv(t: Trace, irs: nat, iss: nat)
    requires t.conn.Some?
  {
    var c := t.conn.value;
    && c.rcvBuf == t.received
    && c.rcvNxt == Plus(irs, 1 + |t.received| + t.peerFins)
    && c.sndNxt < U32_LIMIT
    && LedgerOf(t.sent, iss, irs) == Books(c.sndNxt, |t.received| + t.peerFins)
    && (c.state.SynReceived? ==> t.received == [])
  }

  // ---- arithmetic modulo 2^32 -------------------------------------------------------------

  lemma PlusPlus(a: nat, b: nat, c: nat)
    ensures Plus(Plus(a, b), c) == Plus(a, b + c)
  {
  }

  lemma AckPosOf(irs: nat, a: nat)
    requires irs < U32_LIMIT && a < U32_LIMIT
    ensures AckPos(Plus(irs, 1 + a), irs) == a
  {
  }

  lemma SamePosition(irs: nat, a: nat, b: nat)
    requires irs < U32_LIMIT && a < U32_LIMIT && b < U32_LIMIT && Plus(irs, 1 + a) == Plus(irs, 1 + b)
    ensures a == b
  {
    AckPosOf(irs, a);
    AckPosOf(irs, b);
  }

  // ---- one more reply ------------------------------------------------------------------------

  lemma Reply(sent: seq<Segment>, s: Segment, iss: nat, irs: nat)
    ensures Payloads(sent + [s]) == Payloads(sent) + (if s.payload != [] then [s.payload] else [])
    ensures Fins(sent + [s]) == Fins(sent) + (if s.fin then 1 else 0)
    ensures LedgerOf(sent + [s], iss, irs) ==
            var before := LedgerOf(sent, iss, irs);
            if before.Broken? || s.rst then before
            else if s.seqNo == before.next && AckPos(s.ackNo, irs) >= before.acked
            then Books(Plus(before.next, SeqLen(s)), AckPos(s.ackNo, irs))
            else Broken
  {
    assert (sent + [s])[..|sent|] == sent;
  }

  lemma TwoReplies(sent: seq<Segment>, a: Segment, b: Segment)
    ensures sent + [a, b] == (sent + [a]) + [b]
  {
  }

  // ---- each kind of step keeps the invariant -----------------------------------------------

  lemma OpenedInv(irs: nat, iss: nat, stream: seq<Byte>, app: App)
    requires irs < U32_LIMIT && iss < U32_LIMIT && |stream| + 2 < U32_LIMIT
    requires app.parse([]).Incomplete?
    ensures Inv(Opened(irs, iss), irs, iss, stream, app)
  {
    var c := NewConn(irs, iss);
    var sent := [SynAck(iss, c)];
    assert sent == [] + sent;
    Reply([], SynAck(iss, c), iss, irs);
    AckPosOf(irs, 0);
  }

  /** Accepting a payload and acknowledging it. */
  lemma AckStep(t: Trace, c: Conn, payload: seq<Byte>, irs: nat, iss: nat, stream: seq<Byte>)
    requires InvFor(t, NOTHING_YET, irs, iss, stream) && Waiting(t)
    requires c == t.conn.value.(state := Established)
    requires t.received + payload <= stream
    ensures var c1 := Accept(c, payload);
            InvFor(Extend(t, Effect(Some(c1), [BareAck(c1)], [], 0)), NOTHING_YET, irs, iss, stream)
  {
    var c1 := Accept(c, payload);
    var n := |t.received| + |payload|;
    PlusPlus(irs, 1 + |t.received|, |payload|);
    assert c1.rcvNxt == Plus(irs, 1 + n);
    AckPosOf(irs, n);
    Reply(t.sent, BareAck(c1), iss, irs);
    assert LedgerOf(t.sent + [BareAck(c1)], iss, irs) == Books(c1.sndNxt, n) by {
      assert Plus(c1.sndNxt, 0) == c1.sndNxt;
    }
  }

  /** Sending the answer to a final verdict. */
  lemma AnswerStep(t: Trace, calls: seq<Request>, wire: seq<Byte>, irs: nat, iss: nat, stream: seq<Byte>)
    requires InvFor(t, NOTHING_YET, irs, iss, stream) && Waiting(t) && wire != []
    ensures var c := t.conn.value;
            InvFor(Extend(t, Effect(Some(AfterResponse(c, wire)), [ResponseSegment(c, wire)], calls, 0)),
                   Owed(calls, [wire], false), irs, iss, stream)
  {
    var c := t.conn.value;
    Reply(t.sent, ResponseSegment(c, wire), iss, irs);
    PlusPlus(c.sndNxt, |wire|, 1);
    AckPosOf(irs, |t.received|);
    assert t.calls + calls == calls && Payloads(t.sent) + [wire] == [wire];
  }

  /** Accepting a payload and acting on the new verdict. */
  lemma DataStep(t: Trace, c: Conn, payload: seq<Byte>, v: Outcome,
                 irs: nat, iss: nat, stream: seq<Byte>, app: App)
    requires InvFor(t, NOTHING_YET, irs, iss, stream) && Waiting(t)
    requires c == t.conn.value.(state := Established)
    requires t.received + payload <= stream
    ensures InvFor(Extend(t, OnVerdict(Accept(c, payload), v, app)), OwedFor(v, app), irs, iss, stream)
  {
    var c1 := Accept(c, payload);
    var acked := Extend(t, Effect(Some(c1), [BareAck(c1)], [], 0));
    AckStep(t, c, payload, irs, iss, stream);
    match Answer(v, app.handler)
    case None =>
    case Some(response) =>
      var wire := ToWire(response);
      AnswerStep(acked, CallsFor(v), wire, irs, iss, stream);
      TwoReplies(t.sent, BareAck(c1), ResponseSegment(c1, wire));
      assert Extend(t, OnVerdict(c1, v, app)) ==
             Extend(acked, Effect(Some(AfterResponse(c1, wire)), [ResponseSegment(c1, wire)], CallsFor(v), 0));
  }

  /** Accepting the peer's FIN, before or right after an answer. */
  lemma FinStep(t: Trace, owed: Owed, irs: nat, iss: nat, stream: seq<Byte>)
    requires InvFor(t, owed, irs, iss, stream)
    requires t.conn.Some? && t.peerFins == 0 && !t.conn.value.state.SynReceived?
    ensures InvFor(Extend(t, OnFin(t.conn.value)), owed, irs, iss, stream)
  {
    var c := t.conn.value;
    var c1 := c.(rcvNxt := Plus(c.rcvNxt, 1));
    PlusPlus(irs, 1 + |t.received|, 1);
    AckPosOf(irs, |t.received| + 1);
    Reply(t.sent, FinAck(c1), iss, irs);
  }

  /** An in-order piece of the stream continues the buffer: sequence numbers cannot alias. */
  lemma PieceContinues(t: Trace, seg: Segment, irs: nat, iss: nat, stream: seq<Byte>)
    requires irs < U32_LIMIT && |stream| + 2 < U32_LIMIT && t.received <= stream
    requires t.conn.Some? && t.peerFins == 0 && LiveInv(t, irs, iss)
    requires Honest(seg, irs, stream) && seg.payload != [] && seg.seqNo == t.conn.value.rcvNxt
    ensures t.received + seg.payload <= stream
  {
    var off: nat :| PieceAt(seg, irs, stream, off);
    SamePosition(irs, off, |t.received|);
    assert t.received + seg.payload == stream[..|t.received| + |seg.payload|];
  }

  /** A step without replies, which at most completes the handshake or ends the connection. */
  lemma QuietStep(t: Trace, owed: Owed, conn: Option<Conn>, irs: nat, iss: nat, stream: seq<Byte>)
    requires InvFor(t, owed, irs, iss, stream) && t.conn.Some?
    requires conn == None || conn == t.conn ||
             (Waiting(t) && conn == Some(t.conn.value.(state := Established)))
    ensures InvFor(Extend(t, Quiet(conn)), owed, irs, iss, stream)
    ensures Extend(t, Quiet(conn)).received == t.received
  {
    assert t.sent + [] == t.sent && t.calls + [] == t.calls;
  }

  lemma SynReceivedStep(t: Trace, seg: Segment, irs: nat, iss: nat, stream: seq<Byte>, app: App)
    requires Inv(t, irs, iss, stream, app) && Honest(seg, irs, stream)
    requires t.conn.Some? && t.conn.value.state.SynReceived?
    requires seg.seqNo == t.conn.value.rcvNxt || seg.payload == []
    ensures Inv(Extend(t, InSynReceived(t.conn.value, seg, app)), irs, iss, stream, app)
  {
    var c := t.conn.value;
    var owed := OwedFor(app.parse(t.received), app);
    if !(seg.ack && seg.ackNo == c.sndNxt) {
      QuietStep(t, owed, t.conn, irs, iss, stream);
    } else if seg.payload == [] {
      QuietStep(t, owed, Some(c.(state := Established)), irs, iss, stream);
    } else {
      PieceContinues(t, seg, irs, iss, stream);
      DataStep(t, c.(state := Established), seg.payload, app.parse(t.received + seg.payload), irs, iss, stream, app);
    }
  }

  lemma EstablishedStep(t: Trace, seg: Segment, irs: nat, iss: nat, stream: seq<Byte>, app: App)
    requires Inv(t, irs, iss, stream, app) && Honest(seg, irs, stream)
    requires t.conn.Some? && t.conn.value.state.Established?
    requires seg.seqNo == t.conn.value.rcvNxt || seg.payload == []
    ensures Inv(Extend(t, InEstablished(t.conn.value, seg, app)), irs, iss, stream, app)
  {
    var c := t.conn.value;
    var e := if seg.payload != [] then OnData(c, seg.payload, app) else Quiet(Some(c));
    var t1 := Extend(t, e);
    if seg.payload != [] {
      PieceContinues(t, seg, irs, iss, stream);
      DataStep(t, c, seg.payload, app.parse(t.received + seg.payload), irs, iss, stream, app);
    } else {
      QuietStep(t, OwedFor(app.parse(t.received), app), t.conn, irs, iss, stream);
    }
    assert Inv(t1, irs, iss, stream, app);
    if seg.fin {
      FinStep(t1, OwedFor(app.parse(t1.received), app), irs, iss, stream);
      FinAfter(t, e);
    }
  }

  lemma FinAfter(t: Trace, e: Effect)
    requires e.conn.Some? && e.peerFins == 0
    ensures var f := OnFin(e.conn.value);
            Extend(Extend(t, e), f) == Extend(t, Effect(f.conn, e.sent + f.sent, e.calls, 1))
  {
    var f := OnFin(e.conn.value);
    assert t.sent + e.sent + f.sent == t.sent + (e.sent + f.sent);
    assert t.calls + e.calls + [] == t.calls + e.calls;
  }

  lemma AdvanceInv(t: Trace, seg: Segment, irs: nat, iss: nat, stream: seq<Byte>, app: App)
    requires Inv(t, irs, iss, stream, app) && Honest(seg, irs, stream)
    ensures Inv(Advance(t, seg, app), irs, iss, stream, app)
  {
    match t.conn
    case None => Reply(t.sent, Reset(seg), iss, irs);
    case Some(c) =>
      if seg.seqNo == c.rcvNxt || seg.payload == [] {
        match c.state
        case SynReceived => SynReceivedStep(t, seg, irs, iss, stream, app);
        case Established => EstablishedStep(t, seg, irs, iss, stream, app);
        case LastAck => QuietStep(t, OwedFor(app.parse(t.received), app), InLastAck(c, seg).conn, irs, iss, stream);
      } else {
        QuietStep(t, OwedFor(app.parse(t.received), app), t.conn, irs, iss, stream);
      }
  }

  /** The invariant over every run of honest segments. */
  lemma {:induction false} RunInv(t: Trace, segs: seq<Segment>, irs: nat, iss: nat, stream: seq<Byte>,
                                  app: App)
    requires Inv(t, irs, iss, stream, app) && AllHonest(segs, irs, stream)
    ensures Inv(Run(t, segs, app), irs, iss, stream, app)
    decreases |segs|
  {
    if segs == [] {
    } else {
      AdvanceInv(t, segs[0], irs, iss, stream, app);
      RunInv(Advance(t, segs[0], app), segs[1..], irs, iss, stream, app);
    }
  }

  // ---- consequences ----------------------------------------------------------------------------

  /** Any verdict the parser reaches on a prefix of `stream` is its verdict on all of it. */
  ghost predicate StableOn(app: App, stream: seq<Byte>) {
    forall r: seq<Byte> :: r <= stream ==> app.parse(r).Incomplete? || app.parse(r) == app.parse(stream)
  }

  /** Counters, buffer and replies of a live connection agree. */
  ghost predicate BooksKept(t: Trace, irs: nat, iss: nat, stream: seq<Byte>)
    requires t.conn.Some?
  {
    var c := t.conn.value;
    && c.rcvBuf == t.received && c.rcvBuf <= stream
    && c.rcvNxt == Plus(irs, 1 + |c.rcvBuf| + t.peerFins) && t.peerFins <= 1
    && LedgerOf(t.sent, iss, irs) == Books(c.sndNxt, |c.rcvBuf| + t.peerFins)
    && (!c.state.LastAck? ==> t.peerFins == 0 && Fins(t.sent) == 0 && t.calls == [])
  }

  lemma InvGivesBooks(t: Trace, irs: nat, iss: nat, stream: seq<Byte>, app: App)
    requires Inv(t, irs, iss, stream, app) && t.conn.Some?
    ensures BooksKept(t, irs, iss, stream) && (Waiting(t) ==> app.parse(t.received).Incomplete?)
  {
  }

  lemma BooksAlwaysKept(irs: nat, iss: nat, stream: seq<Byte>, segs: seq<Segment>, app: App)
    requires irs < U32_LIMIT && iss < U32_LIMIT && |stream| + 2 < U32_LIMIT
    requires app.parse([]).Incomplete? && AllHonest(segs, irs, stream)
    requires Run(Opened(irs, iss), segs, app).conn.Some?
    ensures BooksKept(Run(Opened(irs, iss), segs, app), irs, iss, stream)
    ensures Waiting(Run(Opened(irs, iss), segs, app)) ==>
              app.parse(Run(Opened(irs, iss), segs, app).received).Incomplete?
  {
    OpenedInv(irs, iss, stream, app);
    var t0 := Opened(irs, iss);
    RunInv(t0, segs, irs, iss, stream, app);
    InvGivesBooks(Run(t0, segs, app), irs, iss, stream, app);
  }

  // ---- what is accepted, read off the segments -------------------------------------------------

  datatype Stage = Handshaking | Streaming | Done

  /** How far a client has come: the bytes accepted, and whether a FIN of its own counted. */
  datatype Progress = Progress(stage: Stage, offset: nat, fin: bool)

  const AT_SYN := Progress(Handshaking, 0, false)

  predicate AcksSyn(seg: Segment, iss: nat) {
    seg.ack && seg.ackNo == Plus(iss, 1)
  }

  /** A piece at the current offset moves it; the stream is over once its prefix has a verdict. */
  function Take(p: Progress, seg: Segment, stream: seq<Byte>, app: App): Progress {
    if seg.payload == [] then p.(stage := Streaming)
    else
      var next := p.offset + |seg.payload|;
      var open := next <= |stream| && app.parse(stream[..next]).Incomplete?;
      Progress(if open then Streaming else Done, next, p.fin)
  }

  /**
   One segment, without looking at the server: pieces elsewhere are ignored, the handshake needs
   the right acknowledgement, and the first FIN after it ends the stream wherever it stands.
   */
  function Follow(p: Progress, seg: Segment, irs: nat, iss: nat, stream: seq<Byte>, app: App): Progress {
    if p.stage.Done? || (seg.payload != [] && seg.seqNo != Plus(irs, 1 + p.offset)) then p
    else if p.stage.Handshaking? then
      if AcksSyn(seg, iss) then Take(p, seg, stream, app) else p
    else
      var q := Take(p, seg, stream, app);
      if seg.fin then q.(stage := Done, fin := true) else q
  }

  function FollowAll(p: Progress, segs: seq<Segment>, irs: nat, iss: nat, stream: seq<Byte>, app: App): Progress
    decreases |segs|
  {
    if segs == [] then p else FollowAll(Follow(p, segs[0], irs, iss, stream, app), segs[1..], irs, iss, stream, app)
  }

  /** The connection stands where the progress says. */
  ghost predicate Matches(t: Trace, p: Progress, iss: nat, stream: seq<Byte>) {
    && p.offset <= |stream| && t.received == stream[..p.offset]
    && t.peerFins == (if p.fin then 1 else 0)
    && match p.stage
       case Handshaking =>
         t.conn.Some? && t.conn.value.state.SynReceived? && t.conn.value.sndNxt == Plus(iss, 1) && p.offset == 0
       case Streaming => t.conn.Some? && t.conn.value.state.Established?
       case Done => !Waiting(t)
  }

  lemma AcceptedPiece(t: Trace, p: Progress, seg: Segment, irs: nat, iss: nat, stream: seq<Byte>)
    requires irs < U32_LIMIT && |stream| + 2 < U32_LIMIT && t.received <= stream
    requires t.conn.Some? && t.peerFins == 0 && LiveInv(t, irs, iss)
    requires Honest(seg, irs, stream) && seg.payload != [] && seg.seqNo == t.conn.value.rcvNxt
    requires p.offset <= |stream| && t.received == stream[..p.offset]
    ensures p.offset + |seg.payload| <= |stream|
    ensures t.received + seg.payload == stream[..p.offset + |seg.payload|]
  {
    PieceContinues(t, seg, irs, iss, stream);
  }

  /** After an answer nothing more is accepted or answered. */
  lemma AnsweredStays(t: Trace, seg: Segment, irs: nat, iss: nat, stream: seq<Byte>, app: App)
    requires Inv(t, irs, iss, stream, app) && !Waiting(t)
    ensures var t1 := Advance(t, seg, app);
            !Waiting(t1) && t1.peerFins == t.peerFins && t1.received == t.received
  {
  }

  /** All that matters of an effect here: the buffer grew, and the connection is open or answered. */
  ghost predicate Shaped(e: Effect, buf: seq<Byte>, open: bool) {
    && e.conn.Some? && e.conn.value.rcvBuf == buf && e.peerFins == 0
    && e.conn.value.state == (if open then Established else LastAck)
  }

  lemma DataIsShaped(c: Conn, payload: seq<Byte>, app: App)
    requires c.state.Established?
    ensures Shaped(OnData(c, payload, app), c.rcvBuf + payload, app.parse(c.rcvBuf + payload).Incomplete?)
  {
  }

  lemma FollowShaped(t: Trace, p: Progress, seg: Segment, e: Effect, irs: nat, iss: nat, stream: seq<Byte>, app: App)
    requires Matches(t, p, iss, stream) && p.stage.Streaming? && t.peerFins == 0
    requires seg.payload != [] && seg.seqNo == Plus(irs, 1 + p.offset) && p.offset + |seg.payload| <= |stream|
    requires var prefix := stream[..p.offset + |seg.payload|]; Shaped(e, prefix, app.parse(prefix).Incomplete?)
    ensures Matches(Extend(t, ThenFin(e, seg.fin)), Follow(p, seg, irs, iss, stream, app), iss, stream)
  {
  }

  lemma FollowPiece(t: Trace, p: Progress, seg: Segment, irs: nat, iss: nat, stream: seq<Byte>, app: App)
    requires Inv(t, irs, iss, stream, app) && Matches(t, p, iss, stream) && Honest(seg, irs, stream)
    requires p.stage.Streaming? && seg.payload != [] && seg.seqNo == t.conn.value.rcvNxt
    ensures Matches(Advance(t, seg, app), Follow(p, seg, irs, iss, stream, app), iss, stream)
  {
    AcceptedPiece(t, p, seg, irs, iss, stream);
    DataIsShaped(t.conn.value, seg.payload, app);
    FollowShaped(t, p, seg, OnData(t.conn.value, seg.payload, app), irs, iss, stream, app);
  }

  lemma FollowHandshaking(t: Trace, p: Progress, seg: Segment, irs: nat, iss: nat, stream: seq<Byte>, app: App)
    requires Inv(t, irs, iss, stream, app) && Matches(t, p, iss, stream) && Honest(seg, irs, stream)
    requires p.stage.Handshaking? && (seg.payload == [] || seg.seqNo != t.conn.value.rcvNxt || !AcksSyn(seg, iss))
    ensures Matches(Advance(t, seg, app), Follow(p, seg, irs, iss, stream, app), iss, stream)
  {
  }

  lemma FollowFirstShaped(t: Trace, p: Progress, seg: Segment, e: Effect, irs: nat, iss: nat, stream: seq<Byte>,
                          app: App)
    requires Matches(t, p, iss, stream) && p.stage.Handshaking? && t.peerFins == 0 && AcksSyn(seg, iss)
    requires seg.payload != [] && seg.seqNo == Plus(irs, 1 + p.offset) && p.offset + |seg.payload| <= |stream|
    requires var prefix := stream[..p.offset + |seg.payload|]; Shaped(e, prefix, app.parse(prefix).Incomplete?)
    ensures Matches(Extend(t, e), Follow(p, seg, irs, iss, stream, app), iss, stream)
  {
  }

  lemma FollowFirstPiece(t: Trace, p: Progress, seg: Segment, irs: nat, iss: nat, stream: seq<Byte>, app: App)
    requires Inv(t, irs, iss, stream, app) && Matches(t, p, iss, stream) && Honest(seg, irs, stream)
    requires p.stage.Handshaking? && seg.payload != [] && seg.seqNo == t.conn.value.rcvNxt && AcksSyn(seg, iss)
    ensures Matches(Advance(t, seg, app), Follow(p, seg, irs, iss, stream, app), iss, stream)
  {
    var c := t.conn.value.(state := Established);
    AcceptedPiece(t, p, seg, irs, iss, stream);
    DataIsShaped(c, seg.payload, app);
    FollowFirstShaped(t, p, seg, OnData(c, seg.payload, app), irs, iss, stream, app);
  }

  lemma FollowNoPiece(t: Trace, p: Progress, seg: Segment, irs: nat, iss: nat, stream: seq<Byte>, app: App)
    requires Inv(t, irs, iss, stream, app) && Matches(t, p, iss, stream) && Honest(seg, irs, stream)
    requires p.stage.Streaming? && (seg.payload == [] || seg.seqNo != t.conn.value.rcvNxt)
    ensures Matches(Advance(t, seg, app), Follow(p, seg, irs, iss, stream, app), iss, stream)
  {
  }

  /** The server does with one honest segment what the progress says. */
  lemma FollowStep(t: Trace, p: Progress, seg: Segment, irs: nat, iss: nat, stream: seq<Byte>, app: App)
    requires Inv(t, irs, iss, stream, app) && Matches(t, p, iss, stream) && Honest(seg, irs, stream)
    ensures Matches(Advance(t, seg, app), Follow(p, seg, irs, iss, stream, app), iss, stream)
  {
    match p.stage
    case Handshaking =>
      if seg.payload != [] && seg.seqNo == t.conn.value.rcvNxt && AcksSyn(seg, iss) {
        FollowFirstPiece(t, p, seg, irs, iss, stream, app);
      } else {
        FollowHandshaking(t, p, seg, irs, iss, stream, app);
      }
    case Streaming =>
      if seg.payload != [] && seg.seqNo == t.conn.value.rcvNxt {
        FollowPiece(t, p, seg, irs, iss, stream, app);
      } else {
        FollowNoPiece(t, p, seg, irs, iss, stream, app);
      }
    case Done => AnsweredStays(t, seg, irs, iss, stream, app);
  }

  lemma {:induction false} FollowRun(t: Trace, p: Progress, segs: seq<Segment>, irs: nat, iss: nat,
                                     stream: seq<Byte>, app: App)
    requires Inv(t, irs, iss, stream, app) && Matches(t, p, iss, stream) && AllHonest(segs, irs, stream)
    ensures Inv(Run(t, segs, app), irs, iss, stream, app)
    ensures Matches(Run(t, segs, app), FollowAll(p, segs, irs, iss, stream, app), iss, stream)
    decreases |segs|
  {
    if segs == [] {
    } else {
      AdvanceInv(t, segs[0], irs, iss, stream, app);
      FollowStep(t, p, segs[0], irs, iss, stream, app);
      FollowRun(Advance(t, segs[0], app), Follow(p, segs[0], irs, iss, stream, app), segs[1..], irs, iss, stream, app);
    }
  }

  /** What the bytes up to `offset` owe has been sent, and nothing else. */
  ghost predicate AnsweredUpTo(t: Trace, p: Progress, stream: seq<Byte>, app: App) {
    && p.offset <= |stream| && t.received == stream[..p.offset]
    && var v := app.parse(stream[..p.offset]);
       && t.calls == CallsFor(v) && Payloads(t.sent) == AnswersFor(v, app)
       && (Payloads(t.sent) != [] <==> !v.Incomplete?)
       && Fins(t.sent) == |Payloads(t.sent)| + (if p.fin then 1 else 0)
  }

  lemma MatchedIsAnswered(t: Trace, p: Progress, irs: nat, iss: nat, stream: seq<Byte>, app: App)
    requires Inv(t, irs, iss, stream, app) && Matches(t, p, iss, stream)
    ensures AnsweredUpTo(t, p, stream, app)
  {
  }

  /**
   For every run of honest segments: the accepted bytes are the prefix the segments alone say,
   and calls, answers and FINs are exactly those for that prefix.
   */
  lemma AcceptedPrefix(irs: nat, iss: nat, stream: seq<Byte>, segs: seq<Segment>, app: App)
    requires irs < U32_LIMIT && iss < U32_LIMIT && |stream| + 2 < U32_LIMIT
    requires app.parse([]).Incomplete? && AllHonest(segs, irs, stream)
    ensures AnsweredUpTo(Run(Opened(irs, iss), segs, app), FollowAll(AT_SYN, segs, irs, iss, stream, app), stream, app)
  {
    OpenedInv(irs, iss, stream, app);
    FollowRun(Opened(irs, iss), AT_SYN, segs, irs, iss, stream, app);
    MatchedIsAnswered(Run(Opened(irs, iss), segs, app), FollowAll(AT_SYN, segs, irs, iss, stream, app),
                      irs, iss, stream, app);
  }

  /**
   Where verdicts are not revised: at most one call and one answer, those for the whole stream,
   and they are out exactly when the accepted prefix has a verdict.
   */
  lemma AnswersAreFinal(irs: nat, iss: nat, stream: seq<Byte>, segs: seq<Segment>, app: App)
    requires irs < U32_LIMIT && iss < U32_LIMIT && |stream| + 2 < U32_LIMIT
    requires app.parse([]).Incomplete? && StableOn(app, stream) && AllHonest(segs, irs, stream)
    ensures var t, p := Run(Opened(irs, iss), segs, app), FollowAll(AT_SYN, segs, irs, iss, stream, app);
            && p.offset <= |stream|
            && var decided := !app.parse(stream[..p.offset]).Incomplete?;
               && t.calls == (if decided then CallsFor(app.parse(stream)) else [])
               && Payloads(t.sent) == (if decided then AnswersFor(app.parse(stream), app) else [])
               && Fins(t.sent) == |Payloads(t.sent)| + (if p.fin then 1 else 0)
  {
    AcceptedPrefix(irs, iss, stream, segs, app);
  }

  lemma {:induction false} DoneStays(p: Progress, segs: seq<Segment>, irs: nat, iss: nat, stream: seq<Byte>, app: App)
    requires p.stage.Done?
    ensures FollowAll(p, segs, irs, iss, stream, app) == p
    decreases |segs|
  {
    if segs == [] {
    } else {
      DoneStays(p, segs[1..], irs, iss, stream, app);
    }
  }

  lemma {:induction false} FollowConcat(p: Progress, a: seq<Segment>, b: seq<Segment>, irs: nat, iss: nat,
                                        stream: seq<Byte>, app: App)
    ensures FollowAll(p, a + b, irs, iss, stream, app) ==
            FollowAll(FollowAll(p, a, irs, iss, stream, app), b, irs, iss, stream, app)
    decreases |a|
  {
    if a == [] {
      assert a + b == b;
    } else {
      assert (a + b)[1..] == a[1..] + b;
      FollowConcat(Follow(p, a[0], irs, iss, stream, app), a[1..], b, irs, iss, stream, app);
    }
  }

  /**
   An empty FIN is taken whatever its sequence number: while the request is still open it ends
   the connection for good, and no later byte is accepted or answered.
   */
  lemma EarlyFinEndsStream(irs: nat, iss: nat, stream: seq<Byte>, earlier: seq<Segment>, fin: Segment,
                           later: seq<Segment>, app: App)
    requires irs < U32_LIMIT && iss < U32_LIMIT && |stream| + 2 < U32_LIMIT && app.parse([]).Incomplete?
    requires AllHonest(earlier, irs, stream) && AllHonest(later, irs, stream) && Honest(fin, irs, stream)
    requires FollowAll(AT_SYN, earlier, irs, iss, stream, app).stage.Streaming? && fin.fin && fin.payload == []
    ensures var t := Run(Opened(irs, iss), earlier + ([fin] + later), app);
            var n := FollowAll(AT_SYN, earlier, irs, iss, stream, app).offset;
            n <= |stream| && t.received == stream[..n] && t.calls == [] && Payloads(t.sent) == []
  {
    var p := FollowAll(AT_SYN, earlier, irs, iss, stream, app);
    StreamingIsOpen(irs, iss, stream, earlier, app);
    FollowConcat(AT_SYN, earlier, [fin] + later, irs, iss, stream, app);
    assert ([fin] + later)[1..] == later;
    DoneStays(p.(stage := Done, fin := true), later, irs, iss, stream, app);
    AcceptedPrefix(irs, iss, stream, earlier + ([fin] + later), app);
  }

  lemma StreamingIsOpen(irs: nat, iss: nat, stream: seq<Byte>, segs: seq<Segment>, app: App)
    requires irs < U32_LIMIT && iss < U32_LIMIT && |stream| + 2 < U32_LIMIT && app.parse([]).Incomplete?
    requires AllHonest(segs, irs, stream) && FollowAll(AT_SYN, segs, irs, iss, stream, app).stage.Streaming?
    ensures var p := FollowAll(AT_SYN, segs, irs, iss, stream, app);
            p.offset <= |stream| && app.parse(stream[..p.offset]).Incomplete?
  {
    OpenedInv(irs, iss, stream, app);
    FollowRun(Opened(irs, iss), AT_SYN, segs, irs, iss, stream, app);
  }

  // ---- in-order delivery -----------------------------------------------------------------------

  /** Non-empty data segments without FIN that carry `stream` from `off` to its end, in order. */
  predicate InOrder(segs: seq<Segment>, irs: nat, stream: seq<Byte>, off: nat)
    decreases |segs|
  {
    if segs == [] then off == |stream|
    else
      && segs[0].payload != [] && !segs[0].fin && !segs[0].rst && !IsOpen(segs[0])
      && PieceAt(segs[0], irs, stream, off)
      && InOrder(segs[1..], irs, stream, off + |segs[0].payload|)
  }

  lemma {:induction false} InOrderIsHonest(segs: seq<Segment>, irs: nat, stream: seq<Byte>, off: nat)
    requires InOrder(segs, irs, stream, off)
    ensures AllHonest(segs, irs, stream)
    decreases |segs|
  {
    if segs == [] {
    } else {
      InOrderIsHonest(segs[1..], irs, stream, off + |segs[0].payload|);
      forall i | 0 <= i < |segs| ensures Honest(segs[i], irs, stream) {
        if i > 0 { assert segs[i] == segs[1..][i - 1]; }
      }
    }
  }

  /** The first end of a piece at which the bytes so far have a verdict, or the end of the stream. */
  function DecidedAt(segs: seq<Segment>, stream: seq<Byte>, off: nat, app: App): nat
    decreases |segs|
  {
    if segs == [] then off
    else
      var next := off + |segs[0].payload|;
      if next <= |stream| && app.parse(stream[..next]).Incomplete? then DecidedAt(segs[1..], stream, next, app)
      else next
  }

  lemma {:induction false} InOrderFollows(segs: seq<Segment>, irs: nat, iss: nat, stream: seq<Byte>, off: nat, app: App)
    requires InOrder(segs, irs, stream, off) && off <= |stream| && app.parse(stream[..off]).Incomplete?
    ensures var p := FollowAll(Progress(Streaming, off, false), segs, irs, iss, stream, app);
            && p.offset == DecidedAt(segs, stream, off, app) <= |stream| && !p.fin
            && (p.offset == |stream| || !app.parse(stream[..p.offset]).Incomplete?)
    decreases |segs|
  {
    if segs == [] {
    } else {
      var next := off + |segs[0].payload|;
      assert PieceAt(segs[0], irs, stream, off);
      if app.parse(stream[..next]).Incomplete? {
        InOrderFollows(segs[1..], irs, iss, stream, next, app);
      } else {
        DoneStays(Progress(Done, next, false), segs[1..], irs, iss, stream, app);
      }
    }
  }

  /** After the handshake, data in order is answered for the first cut that has a verdict. */
  lemma InOrderAnswers(irs: nat, iss: nat, handshake: Segment, segs: seq<Segment>, stream: seq<Byte>, app: App)
    requires irs < U32_LIMIT && iss < U32_LIMIT && |stream| + 2 < U32_LIMIT && app.parse([]).Incomplete?
    requires CompletesHandshake(handshake, iss) && InOrder(segs, irs, stream, 0)
    ensures var t, n := Run(Opened(irs, iss), [handshake] + segs, app), DecidedAt(segs, stream, 0, app);
            && n <= |stream| && (n == |stream| || !app.parse(stream[..n]).Incomplete?)
            && t.calls == CallsFor(app.parse(stream[..n]))
            && Payloads(t.sent) == AnswersFor(app.parse(stream[..n]), app)
  {
    assert stream[..0] == [];
    InOrderIsHonest(segs, irs, stream, 0);
    InOrderFollows(segs, irs, iss, stream, 0, app);
    assert ([handshake] + segs)[1..] == segs;
    AcceptedPrefix(irs, iss, stream, [handshake] + segs, app);
  }

  /** The client's last step of the handshake, without data. */
  predicate CompletesHandshake(seg: Segment, iss: nat) {
    AcksSyn(seg, iss) && !seg.syn && !seg.rst && seg.payload == []
  }
}
