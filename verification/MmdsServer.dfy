/**
 The MMDS endpoint end to end: what a client streaming one HTTP request gets, however its
 bytes are cut, lost, repeated or reordered, and whatever other clients do meanwhile.
 */
module MmdsServer {
  import opened Words
  import opened Http
  import opened Tcp
  import opened TcpRuns
  import HttpRoundTrip

  /** A verdict on a prefix is the verdict on the whole, unless it is still open. */
  lemma PrefixVerdict(received: seq<Byte>, stream: seq<Byte>)
    requires received <= stream && |stream| <= MAX_REQUEST_BYTES
    ensures Parse(received).Incomplete? || Parse(received) == Parse(stream)
  {
    if !Parse(received).Incomplete? {
      var more := stream[|received|..];
      assert received + more == stream;
      VerdictIsStable(received, more);
    }
  }

  /** Within the limit, or without a request in the part within the limit. */
  predicate Settled(stream: seq<Byte>) {
    |stream| <= MAX_REQUEST_BYTES || Parse(stream[..MAX_REQUEST_BYTES]).Incomplete? ||
    Parse(stream[..MAX_REQUEST_BYTES]).TooLarge?
  }

  lemma SettledPrefix(received: seq<Byte>, stream: seq<Byte>)
    requires received <= stream && Settled(stream)
    ensures Parse(received).Incomplete? || Parse(received) == Parse(stream)
  {
    if |stream| <= MAX_REQUEST_BYTES {
      PrefixVerdict(received, stream);
    } else if |received| <= MAX_REQUEST_BYTES {
      PrefixVerdict(received, stream[..MAX_REQUEST_BYTES]);
    }
  }

  /** No prefix verdict is ever revised, exactly for settled streams. */
  lemma StableIff(stream: seq<Byte>, handler: Request -> Response)
    ensures StableOn(Mmds(handler), stream) <==> Settled(stream)
  {
    var app := Mmds(handler);
    if Settled(stream) {
      forall received: seq<Byte> | received <= stream
        ensures app.parse(received).Incomplete? || app.parse(received) == app.parse(stream)
      {
        SettledPrefix(received, stream);
      }
    } else {
      var r := stream[..MAX_REQUEST_BYTES];
      assert r <= stream && !app.parse(r).Incomplete? && app.parse(r) != app.parse(stream);
    }
  }

  lemma NothingYet(handler: Request -> Response)
    ensures Mmds(handler).parse([]).Incomplete?
  {
    assert Parse([]).Incomplete?;
  }

  lemma IncompleteIsShort(buf: seq<Byte>)
    requires Parse(buf).Incomplete?
    ensures |buf| <= MAX_REQUEST_BYTES
  {
  }

  /**
   For every settled stream and every delivery of it: the handler runs at most once, and what is
   answered is the answer to the whole stream.  It is out exactly when the accepted prefix, read
   off the segments, has a verdict; the server sends one FIN for it and one for the client's.
   */
  lemma AnswersTheWholeStream(irs: nat, iss: nat, stream: seq<Byte>, segs: seq<Segment>, handler: Request -> Response)
    requires irs < U32_LIMIT && iss < U32_LIMIT && |stream| + 2 < U32_LIMIT && Settled(stream)
    requires AllHonest(segs, irs, stream)
    ensures var app := Mmds(handler);
            var t, p := Run(Opened(irs, iss), segs, app), FollowAll(AT_SYN, segs, irs, iss, stream, app);
            && p.offset <= |stream|
            && var decided := !Parse(stream[..p.offset]).Incomplete?;
               && t.calls == (if decided then CallsFor(Parse(stream)) else [])
               && Payloads(t.sent) == (if decided then AnswersFor(Parse(stream), app) else [])
               && Fins(t.sent) == |Payloads(t.sent)| + (if p.fin then 1 else 0)
  {
    NothingYet(handler);
    StableIff(stream, handler);
    AnswersAreFinal(irs, iss, stream, segs, Mmds(handler));
  }

  /**
   The book-keeping of a live connection, for streams of any length below the sequence space:
   the receive counter counts the accepted bytes and FINs, the buffer is a prefix of the stream,
   the replies tile the send space up to `snd_nxt` and acknowledge everything accepted, and an
   open connection holds an incomplete request of at most 16 KiB.
   */
  lemma LiveConnectionBooks(irs: nat, iss: nat, stream: seq<Byte>, segs: seq<Segment>, handler: Request -> Response)
    requires irs < U32_LIMIT && iss < U32_LIMIT && |stream| + 2 < U32_LIMIT
    requires AllHonest(segs, irs, stream)
    requires Run(Opened(irs, iss), segs, Mmds(handler)).conn.Some?
    ensures BooksKept(Run(Opened(irs, iss), segs, Mmds(handler)), irs, iss, stream)
    ensures var c := Run(Opened(irs, iss), segs, Mmds(handler)).conn.value;
            !c.state.LastAck? ==> Parse(c.rcvBuf).Incomplete? && |c.rcvBuf| <= MAX_REQUEST_BYTES
  {
    NothingYet(handler);
    BooksAlwaysKept(irs, iss, stream, segs, Mmds(handler));
    var c := Run(Opened(irs, iss), segs, Mmds(handler)).conn.value;
    if !c.state.LastAck? { IncompleteIsShort(c.rcvBuf); }
  }

  /** The handler calls and the answers of an in-order delivery. */
  function Delivered(irs: nat, iss: nat, handshake: Segment, segs: seq<Segment>, handler: Request -> Response)
    : (seq<Request>, seq<seq<Byte>>)
  {
    var t := Run(Opened(irs, iss), [handshake] + segs, Mmds(handler));
    (t.calls, Payloads(t.sent))
  }

  function OutcomeOf(v: Outcome, handler: Request -> Response): (seq<Request>, seq<seq<Byte>>) {
    (CallsFor(v), AnswersFor(v, Mmds(handler)))
  }

  /** For every stream and every cutting of it, the first cut with a verdict decides. */
  lemma FirstVerdictDecides(irs: nat, iss: nat, handshake: Segment, segs: seq<Segment>, stream: seq<Byte>,
                            handler: Request -> Response)
    requires irs < U32_LIMIT && iss < U32_LIMIT && |stream| + 2 < U32_LIMIT
    requires CompletesHandshake(handshake, iss) && InOrder(segs, irs, stream, 0)
    ensures var n := DecidedAt(segs, stream, 0, Mmds(handler));
            && n <= |stream| && (n == |stream| || !Parse(stream[..n]).Incomplete?)
            && Delivered(irs, iss, handshake, segs, handler) == OutcomeOf(Parse(stream[..n]), handler)
  {
    NothingYet(handler);
    InOrderAnswers(irs, iss, handshake, segs, stream, Mmds(handler));
  }

  /** For settled streams the cutting does not matter: the outcome is that of the whole stream. */
  lemma CuttingDoesNotMatter(irs: nat, iss: nat, handshake: Segment, segs: seq<Segment>, stream: seq<Byte>,
                             handler: Request -> Response)
    requires irs < U32_LIMIT && iss < U32_LIMIT && |stream| + 2 < U32_LIMIT && Settled(stream)
    requires CompletesHandshake(handshake, iss) && InOrder(segs, irs, stream, 0)
    ensures Delivered(irs, iss, handshake, segs, handler) == OutcomeOf(Parse(stream), handler)
  {
    FirstVerdictDecides(irs, iss, handshake, segs, stream, handler);
    var n := DecidedAt(segs, stream, 0, Mmds(handler));
    assert stream[..|stream|] == stream;
    SettledPrefix(stream[..n], stream);
  }

  /** The bytes `from .. to` of the stream in one data segment. */
  function Piece(irs: nat, stream: seq<Byte>, from: nat, to: nat): Segment
    requires from <= to <= |stream|
  {
    Segment(Plus(irs, 1 + from), 0, false, true, false, false, true, WINDOW, stream[from..to])
  }

  /** The stream in two pieces, or in one if the cut is at its end. */
  function CutAt(irs: nat, stream: seq<Byte>, k: nat): seq<Segment>
    requires 0 < k <= |stream|
  {
    [Piece(irs, stream, 0, k)] + (if k == |stream| then [] else [Piece(irs, stream, k, |stream|)])
  }

  lemma CutIsInOrder(irs: nat, stream: seq<Byte>, k: nat, app: App)
    requires 0 < k <= |stream| && !app.parse(stream[..k]).Incomplete?
    ensures InOrder(CutAt(irs, stream, k), irs, stream, 0)
    ensures DecidedAt(CutAt(irs, stream, k), stream, 0, app) == k
  {
    var segs := CutAt(irs, stream, k);
    if k == |stream| {
      assert segs[1..] == [];
    } else {
      assert segs[1..] == [Piece(irs, stream, k, |stream|)] && segs[1..][1..] == [];
    }
  }

  /** Being too large is never answered like a malformed or a complete request. */
  lemma TooLargeIsDifferent(v: Outcome, handler: Request -> Response)
    requires v.Malformed? || v.Complete?
    ensures OutcomeOf(v, handler) != OutcomeOf(TooLarge, handler)
  {
    if v.Malformed? {
      var a, b := Answer(v, handler).value, Answer(TooLarge, handler).value;
      HttpRoundTrip.ResponseReadsBack(a);
      HttpRoundTrip.ResponseReadsBack(b);
    }
  }

  /** A stream that is not settled has two in-order deliveries with different outcomes. */
  lemma UnsettledDependsOnCut(irs: nat, iss: nat, handshake: Segment, stream: seq<Byte>, handler: Request -> Response)
    requires irs < U32_LIMIT && iss < U32_LIMIT && |stream| + 2 < U32_LIMIT && !Settled(stream)
    requires CompletesHandshake(handshake, iss)
    ensures var a, b := CutAt(irs, stream, MAX_REQUEST_BYTES), CutAt(irs, stream, MAX_REQUEST_BYTES + 1);
            && InOrder(a, irs, stream, 0) && InOrder(b, irs, stream, 0)
            && Delivered(irs, iss, handshake, a, handler) != Delivered(irs, iss, handshake, b, handler)
  {
    var n, app := MAX_REQUEST_BYTES, Mmds(handler);
    CutIsInOrder(irs, stream, n, app);
    CutIsInOrder(irs, stream, n + 1, app);
    FirstVerdictDecides(irs, iss, handshake, CutAt(irs, stream, n), stream, handler);
    FirstVerdictDecides(irs, iss, handshake, CutAt(irs, stream, n + 1), stream, handler);
    TooLargeIsDifferent(Parse(stream[..n]), handler);
  }

  /** The outcome of a stream delivered in order is independent of the cutting exactly if it is settled. */
  lemma CuttingMattersIff(irs: nat, iss: nat, handshake: Segment, stream: seq<Byte>, handler: Request -> Response)
    requires irs < U32_LIMIT && iss < U32_LIMIT && |stream| + 2 < U32_LIMIT && CompletesHandshake(handshake, iss)
    ensures Settled(stream) <==>
            forall a, b :: InOrder(a, irs, stream, 0) && InOrder(b, irs, stream, 0) ==>
              Delivered(irs, iss, handshake, a, handler) == Delivered(irs, iss, handshake, b, handler)
  {
    if Settled(stream) {
      forall segs | InOrder(segs, irs, stream, 0)
        ensures Delivered(irs, iss, handshake, segs, handler) == OutcomeOf(Parse(stream), handler)
      {
        CuttingDoesNotMatter(irs, iss, handshake, segs, stream, handler);
      }
    } else {
      UnsettledDependsOnCut(irs, iss, handshake, stream, handler);
    }
  }

  /** A client that writes down a request gets the handler's response to that very request. */
  lemma RequestIsAnswered(irs: nat, iss: nat, handshake: Segment, segs: seq<Segment>, r: Request,
                          handler: Request -> Response)
    requires irs < U32_LIMIT && iss < U32_LIMIT
    requires HttpRoundTrip.Renderable(r) && |HttpRoundTrip.Render(r)| <= MAX_REQUEST_BYTES
    requires CompletesHandshake(handshake, iss) && InOrder(segs, irs, HttpRoundTrip.Render(r), 0)
    ensures Delivered(irs, iss, handshake, segs, handler) == ([r], [ToWire(handler(r))])
  {
    HttpRoundTrip.ParseUndoesRender(r);
    CuttingDoesNotMatter(irs, iss, handshake, segs, HttpRoundTrip.Render(r), handler);
  }

  /** The FIN that closes the stream, at the sequence number after its last byte. */
  function ClosingFin(irs: nat, stream: seq<Byte>): Segment {
    Segment(Plus(irs, 1 + |stream|), 0, false, true, true, false, false, WINDOW, [])
  }

  /** A request that arrives whole is never answered if its closing FIN overtakes it. */
  lemma OvertakenRequestIsNotAnswered(irs: nat, iss: nat, handshake: Segment, r: Request, handler: Request -> Response)
    requires irs < U32_LIMIT && iss < U32_LIMIT && CompletesHandshake(handshake, iss)
    requires HttpRoundTrip.Renderable(r) && |HttpRoundTrip.Render(r)| <= MAX_REQUEST_BYTES
    ensures var stream := HttpRoundTrip.Render(r);
            var data, fin := Piece(irs, stream, 0, |stream|), ClosingFin(irs, stream);
            && Delivered(irs, iss, handshake, [data], handler) == ([r], [ToWire(handler(r))])
            && Delivered(irs, iss, handshake, [fin] + [data], handler) == ([], [])
  {
    var stream, app := HttpRoundTrip.Render(r), Mmds(handler);
    var data, fin := Piece(irs, stream, 0, |stream|), ClosingFin(irs, stream);
    assert [data][1..] == [] && PieceAt(data, irs, stream, 0);
    RequestIsAnswered(irs, iss, handshake, [data], r, handler);
    NothingYet(handler);
    AfterHandshake(irs, iss, handshake, stream, app);
    EarlyFinEndsStream(irs, iss, stream, [handshake], fin, [data], app);
  }

  /** At an input: `GET /` with its closing FIN in front. */
  lemma OvertakenGetIsNotAnswered(irs: nat, iss: nat, handshake: Segment, handler: Request -> Response)
    requires irs < U32_LIMIT && iss < U32_LIMIT && CompletesHandshake(handshake, iss)
    ensures HttpRoundTrip.Renderable(HttpRoundTrip.GET_ROOT)
    ensures var stream := HttpRoundTrip.Render(HttpRoundTrip.GET_ROOT);
            var data, fin := Piece(irs, stream, 0, |stream|), ClosingFin(irs, stream);
            Delivered(irs, iss, handshake, [fin] + [data], handler) == ([], [])
  {
    HttpRoundTrip.GetRootRenders();
    OvertakenRequestIsNotAnswered(irs, iss, handshake, HttpRoundTrip.GET_ROOT, handler);
  }

  lemma AfterHandshake(irs: nat, iss: nat, handshake: Segment, stream: seq<Byte>, app: App)
    requires CompletesHandshake(handshake, iss)
    ensures FollowAll(AT_SYN, [handshake], irs, iss, stream, app) == Progress(Streaming, 0, false)
  {
    assert [handshake][1..] == [];
  }

  // ---- many clients --------------------------------------------------------------------------

  type Arrival = (ConnKey, Segment)

  ghost function Serve(s: Server, arrivals: seq<Arrival>, app: App): Server
    decreases |arrivals|
  {
    if arrivals == [] then s
    else Serve(Dispatch(s, arrivals[0].0, arrivals[0].1, app), arrivals[1..], app)
  }

  /** The items tagged with `key`, in order. */
  ghost function For<T>(items: seq<(ConnKey, T)>, key: ConnKey): seq<T> {
    if items == [] then []
    else (if items[0].0 == key then [items[0].1] else []) + For(items[1..], key)
  }

  lemma {:induction false} ForConcat<T>(a: seq<(ConnKey, T)>, b: seq<(ConnKey, T)>, key: ConnKey)
    ensures For(a + b, key) == For(a, key) + For(b, key)
  {
    if a == [] {
      assert a + b == b;
    } else {
      assert (a + b)[1..] == a[1..] + b;
      ForConcat(a[1..], b, key);
    }
  }

  lemma {:induction false} ForTagged<T>(owner: ConnKey, items: seq<T>, key: ConnKey)
    ensures For(Tagged(owner, items), key) == if owner == key then items else []
  {
    if items == [] {
    } else {
      assert Tagged(owner, items)[1..] == Tagged(owner, items[1..]);
      ForTagged(owner, items[1..], key);
    }
  }

  /** No reset and no fresh SYN from `key`: one incarnation. */
  ghost predicate OneIncarnation(arrivals: seq<Arrival>, key: ConnKey) {
    forall i :: 0 <= i < |arrivals| && arrivals[i].0 == key ==> !arrivals[i].1.rst && !IsOpen(arrivals[i].1)
  }

  /** The server's view of `key` is `t`, with `pre` what was sent and called before. */
  ghost predicate Shows(s: Server, key: ConnKey, t: Trace, preSent: seq<Segment>, preCalls: seq<Request>) {
    && Get(s.conns, key) == t.conn
    && For(s.sent, key) == preSent + t.sent
    && For(s.calls, key) == preCalls + t.calls
  }

  lemma OtherClient(s: Server, arrival: Arrival, key: ConnKey, t: Trace,
                    preSent: seq<Segment>, preCalls: seq<Request>, app: App)
    requires Shows(s, key, t, preSent, preCalls) && arrival.0 != key
    ensures Shows(Dispatch(s, arrival.0, arrival.1, app), key, t, preSent, preCalls)
  {
    var (owner, seg) := arrival;
    if !seg.rst {
      if IsOpen(seg) {
        var reply := SynAck(s.nextIss, NewConn(seg.seqNo, s.nextIss));
        ForConcat(s.sent, [(owner, reply)], key);
      } else {
        var e := OnSegment(Get(s.conns, owner), seg, app);
        ForConcat(s.sent, Tagged(owner, e.sent), key);
        ForConcat(s.calls, Tagged(owner, e.calls), key);
        ForTagged(owner, e.sent, key);
        ForTagged(owner, e.calls, key);
      }
    }
  }

  lemma OwnEffect(s: Server, e: Effect, key: ConnKey, t: Trace, preSent: seq<Segment>, preCalls: seq<Request>)
    requires Shows(s, key, t, preSent, preCalls)
    ensures Shows(Server(Put(s.conns, key, e.conn), s.nextIss,
                         s.sent + Tagged(key, e.sent), s.calls + Tagged(key, e.calls)),
                  key, Extend(t, e), preSent, preCalls)
  {
    ForOwn(s.sent, preSent, t.sent, e.sent, key);
    ForOwn(s.calls, preCalls, t.calls, e.calls, key);
  }

  lemma ForOwn<T>(items: seq<(ConnKey, T)>, pre: seq<T>, mine: seq<T>, more: seq<T>, key: ConnKey)
    requires For(items, key) == pre + mine
    ensures For(items + Tagged(key, more), key) == pre + (mine + more)
  {
    ForConcat(items, Tagged(key, more), key);
    ForTagged(key, more, key);
    assert pre + mine + more == pre + (mine + more);
  }

  lemma OwnSegment(s: Server, seg: Segment, key: ConnKey, t: Trace,
                   preSent: seq<Segment>, preCalls: seq<Request>, app: App)
    requires Shows(s, key, t, preSent, preCalls) && !seg.rst && !IsOpen(seg)
    ensures Shows(Dispatch(s, key, seg, app), key, Advance(t, seg, app), preSent, preCalls)
  {
    OwnEffect(s, OnSegment(t.conn, seg, app), key, t, preSent, preCalls);
  }

  /** What the server does for one client is a run of that client's own segments alone. */
  lemma {:induction false} ClientsAreIndependent(s: Server, arrivals: seq<Arrival>, key: ConnKey, t: Trace,
                                                 preSent: seq<Segment>, preCalls: seq<Request>, app: App)
    requires Shows(s, key, t, preSent, preCalls) && OneIncarnation(arrivals, key)
    ensures Shows(Serve(s, arrivals, app), key, Run(t, For(arrivals, key), app), preSent, preCalls)
    decreases |arrivals|
  {
    if arrivals == [] {
    } else {
      var owner, seg := arrivals[0].0, arrivals[0].1;
      var s1 := Dispatch(s, owner, seg, app);
      if owner == key {
        OwnSegment(s, seg, key, t, preSent, preCalls, app);
        ClientsAreIndependent(s1, arrivals[1..], key, Advance(t, seg, app), preSent, preCalls, app);
        assert For(arrivals, key) == [seg] + For(arrivals[1..], key);
        assert ([seg] + For(arrivals[1..], key))[1..] == For(arrivals[1..], key);
      } else {
        OtherClient(s, arrivals[0], key, t, preSent, preCalls, app);
        ClientsAreIndependent(s1, arrivals[1..], key, t, preSent, preCalls, app);
        assert For(arrivals, key) == For(arrivals[1..], key);
      }
    }
  }

  /**
   From any server state: a SYN and then anything from all clients, where this client's segments
   are honest.  What this incarnation adds to calls and replies is exactly what the whole stream
   owes if the accepted prefix has a verdict, and nothing otherwise.
   */
  lemma IncarnationServedOnce(s: Server, key: ConnKey, syn: Segment, arrivals: seq<Arrival>, stream: seq<Byte>,
                              handler: Request -> Response)
    returns (sent: seq<Segment>, calls: seq<Request>)
    requires s.nextIss < U32_LIMIT && syn.seqNo < U32_LIMIT && IsOpen(syn) && !syn.rst
    requires |stream| + 2 < U32_LIMIT && Settled(stream)
    requires OneIncarnation(arrivals, key) && AllHonest(For(arrivals, key), syn.seqNo, stream)
    ensures var app := Mmds(handler);
            var s' := Serve(Dispatch(s, key, syn, app), arrivals, app);
            var p := FollowAll(AT_SYN, For(arrivals, key), syn.seqNo, s.nextIss, stream, app);
            && For(s'.sent, key) == For(s.sent, key) + sent
            && For(s'.calls, key) == For(s.calls, key) + calls
            && p.offset <= |stream|
            && var decided := !Parse(stream[..p.offset]).Incomplete?;
               && calls == (if decided then CallsFor(Parse(stream)) else [])
               && Payloads(sent) == (if decided then AnswersFor(Parse(stream), app) else [])
  {
    var app := Mmds(handler);
    var t := Opened(syn.seqNo, s.nextIss);
    var s1 := Dispatch(s, key, syn, app);
    ForConcat(s.sent, [(key, t.sent[0])], key);
    assert For(s.calls, key) == For(s.calls, key) + [];
    assert Shows(s1, key, t, For(s.sent, key), For(s.calls, key));
    ClientsAreIndependent(s1, arrivals, key, t, For(s.sent, key), For(s.calls, key), app);
    AnswersTheWholeStream(syn.seqNo, s.nextIss, stream, For(arrivals, key), handler);
    var t' := Run(t, For(arrivals, key), app);
    sent, calls := t'.sent, t'.calls;
  }

  /** Initial sequence numbers stay multiples of 2^16, so adding the SYN never overflows. */
  lemma {:induction false} IssNeverOverflows(s: Server, arrivals: seq<Arrival>, app: App)
    requires s.nextIss % ISS_STEP == 0 && s.nextIss < U32_LIMIT
    ensures Serve(s, arrivals, app).nextIss % ISS_STEP == 0
    ensures Serve(s, arrivals, app).nextIss + 1 < U32_LIMIT
    decreases |arrivals|
  {
    if arrivals == [] {
    } else {
      IssNeverOverflows(Dispatch(s, arrivals[0].0, arrivals[0].1, app), arrivals[1..], app);
    }
  }
}
