/**
 The MMDS endpoint's TCP server (crates/mmds/src/tcp.rs): one small state machine per client,
 over sequence numbers modulo 2^32.
 */
module Tcp {
  import opened Words
  import opened Outcomes
  import opened Http

  const ISS_START: nat := 0x4000_0000
  const ISS_STEP: nat := 0x1_0000
  const WINDOW: nat := 0xFFFF

  datatype Segment = Segment(seqNo: nat, ackNo: nat, syn: bool, ack: bool, fin: bool, rst: bool, psh: bool,
                             window: nat, payload: seq<Byte>)

  /** What the server runs on top of TCP: the request parser and the request handler. */
  datatype App = App(parse: seq<Byte> -> Outcome, handler: Request -> Response)

  /** The MMDS endpoint: the HTTP parser and the configured handler. */
  function Mmds(handler: Request -> Response): App {
    App(Parse, handler)
  }

  datatype State = SynReceived | Established | LastAck
  datatype Conn = Conn(state: State, sndNxt: nat, rcvNxt: nat, rcvBuf: seq<Byte>)
  datatype ConnKey = ConnKey(srcIp: seq<Byte>, srcPort: nat)

  function Plus(a: nat, b: nat): nat {
    (a + b) % U32_LIMIT
  }

  // ---- one connection ----------------------------------------------------------------------

  /** What handling one segment did to a connection: its new state, the replies, the handler calls. */
  datatype Effect = Effect(conn: Option<Conn>, sent: seq<Segment>, calls: seq<Request>, peerFins: nat)

  function NewConn(clientSeq: nat, serverIss: nat): Conn {
    Conn(SynReceived, Plus(serverIss, 1), Plus(clientSeq, 1), [])
  }

  function SynAck(serverIss: nat, c: Conn): Segment {
    Segment(serverIss, c.rcvNxt, true, true, false, false, false, WINDOW, [])
  }

  function BareAck(c: Conn): Segment {
    Segment(c.sndNxt, c.rcvNxt, false, true, false, false, false, WINDOW, [])
  }

  function ResponseSegment(c: Conn, wire: seq<Byte>): Segment {
    Segment(c.sndNxt, c.rcvNxt, false, true, true, false, true, WINDOW, wire)
  }

  function FinAck(c: Conn): Segment {
    Segment(c.sndNxt, c.rcvNxt, false, true, true, false, false, WINDOW, [])
  }

  function Reset(seg: Segment): Segment {
    Segment(seg.ackNo, Plus(seg.seqNo, |seg.payload|), false, true, false, true, false, 0, [])
  }

  /** `send_response`: payload and FIN in one segment. */
  function AfterResponse(c: Conn, wire: seq<Byte>): Conn {
    c.(sndNxt := Plus(Plus(c.sndNxt, |wire|), 1), state := LastAck)
  }

  /** The reply to a parser verdict, once the new bytes are in the buffer. */
  function OnVerdict(c: Conn, verdict: Outcome, app: App): Effect {
    match Answer(verdict, app.handler)
    case None => Effect(Some(c), [BareAck(c)], [], 0)
    case Some(response) =>
      Effect(Some(AfterResponse(c, ToWire(response))), [BareAck(c), ResponseSegment(c, ToWire(response))],
             if verdict.Complete? then [verdict.request] else [], 0)
  }

  function Accept(c: Conn, payload: seq<Byte>): Conn {
    c.(rcvNxt := Plus(c.rcvNxt, |payload|), rcvBuf := c.rcvBuf + payload)
  }

  /** `on_data`: accept, acknowledge, and answer once the request is complete or hopeless. */
  function OnData(c: Conn, payload: seq<Byte>, app: App): Effect {
    OnVerdict(Accept(c, payload), app.parse(c.rcvBuf + payload), app)
  }

  /** `on_fin`: accept the peer's FIN and send ours. */
  function OnFin(c: Conn): Effect {
    var c1 := c.(rcvNxt := Plus(c.rcvNxt, 1));
    Effect(Some(c1.(sndNxt := Plus(c1.sndNxt, 1), state := LastAck)), [FinAck(c1)], [], 1)
  }

  function Quiet(conn: Option<Conn>): Effect {
    Effect(conn, [], [], 0)
  }

  function InSynReceived(c: Conn, seg: Segment, app: App): Effect {
    if seg.ack && seg.ackNo == c.sndNxt then
      if seg.payload != [] then OnData(c.(state := Established), seg.payload, app)
      else Quiet(Some(c.(state := Established)))
    else Quiet(Some(c))
  }

  /** The peer's FIN, taken after whatever else the segment did. */
  function ThenFin(e: Effect, fin: bool): Effect
    requires e.conn.Some?
  {
    if fin then
      var f := OnFin(e.conn.value);
      Effect(f.conn, e.sent + f.sent, e.calls, 1)
    else e
  }

  function InEstablished(c: Conn, seg: Segment, app: App): Effect {
    ThenFin(if seg.payload != [] then OnData(c, seg.payload, app) else Quiet(Some(c)), seg.fin)
  }

  function InLastAck(c: Conn, seg: Segment): Effect {
    if seg.ack && seg.ackNo == c.sndNxt then Quiet(None) else Quiet(Some(c))
  }

  /** `dispatch` for a segment that is neither a reset nor a fresh SYN. */
  function OnSegment(conn: Option<Conn>, seg: Segment, app: App): Effect {
    match conn
    case None => Effect(None, [Reset(seg)], [], 0)
    case Some(c) =>
      if seg.seqNo != c.rcvNxt && seg.payload != [] then Quiet(conn)
      else
        match c.state
        case SynReceived => InSynReceived(c, seg, app)
        case Established => InEstablished(c, seg, app)
        case LastAck => InLastAck(c, seg)
  }

  // ---- the server --------------------------------------------------------------------------

  /** The server's meaning: live connections, the next initial sequence number, and what it did. */
  datatype Server = Server(conns: map<ConnKey, Conn>, nextIss: nat,
                           sent: seq<(ConnKey, Segment)>, calls: seq<(ConnKey, Request)>)

  function Get(conns: map<ConnKey, Conn>, key: ConnKey): Option<Conn> {
    if key in conns then Some(conns[key]) else None
  }

  function Put(conns: map<ConnKey, Conn>, key: ConnKey, c: Option<Conn>): map<ConnKey, Conn> {
    match c
    case None => conns - {key}
    case Some(conn) => conns[key := conn]
  }

  lemma PutTwice(conns: map<ConnKey, Conn>, key: ConnKey, first: Conn, c: Option<Conn>)
    ensures Put(conns[key := first], key, c) == Put(conns, key, c)
  {
  }

  function Tagged<T>(key: ConnKey, items: seq<T>): (r: seq<(ConnKey, T)>)
    ensures |r| == |items|
  {
    seq(|items|, i requires 0 <= i < |items| => (key, items[i]))
  }

  lemma TaggedOne<T>(key: ConnKey, a: T)
    ensures Tagged(key, [a]) == [(key, a)]
  {
  }

  lemma TaggedTwo<T>(key: ConnKey, a: T, b: T)
    ensures Tagged(key, [a, b]) == [(key, a)] + [(key, b)]
  {
  }

  predicate IsOpen(seg: Segment) {
    seg.syn && !seg.ack
  }

  function Dispatch(s: Server, key: ConnKey, seg: Segment, app: App): Server {
    if seg.rst then s.(conns := s.conns - {key})
    else if IsOpen(seg) then
      var c := NewConn(seg.seqNo, s.nextIss);
      Server(s.conns[key := c], Plus(s.nextIss, ISS_STEP), s.sent + [(key, SynAck(s.nextIss, c))], s.calls)
    else
      var e := OnSegment(Get(s.conns, key), seg, app);
      Server(Put(s.conns, key, e.conn), s.nextIss, s.sent + Tagged(key, e.sent), s.calls + Tagged(key, e.calls))
  }

  /** The server as written: a connection table edited in place and a queue of outgoing segments. */
  class TcpServer {
    const handler: Request -> Response
    var conns: map<ConnKey, Conn>
    var nextIss: nat
    var outQueue: seq<(ConnKey, Segment)>
    /** Segments already taken from the queue. */
    ghost var delivered: seq<(ConnKey, Segment)>
    /** Handler invocations so far. */
    ghost var calls: seq<(ConnKey, Request)>

    ghost function Meaning(): Server
      reads this
    {
      Server(conns, nextIss, delivered + outQueue, calls)
    }

    constructor (handler: Request -> Response)
      ensures this.handler == handler && Meaning() == Server(map[], ISS_START, [], [])
    {
      this.handler := handler;
      conns, nextIss, outQueue, delivered, calls := map[], ISS_START, [], [], [];
    }

    method Handle(key: ConnKey, seg: Segment)
      modifies this
      ensures Meaning() == Dispatch(old(Meaning()), key, seg, Mmds(handler))
    {
      if seg.rst {
        conns := conns - {key};
        return;
      }
      if IsOpen(seg) {
        HandleSyn(key, seg);
        return;
      }
      HandleSegment(key, seg);
    }

    /** `effect` has been applied to the connection `key`. */
    twostate predicate Applied(key: ConnKey, effect: Effect)
      reads this
    {
      && conns == Put(old(conns), key, effect.conn)
      && outQueue == old(outQueue) + Tagged(key, effect.sent)
      && calls == old(calls) + Tagged(key, effect.calls)
      && delivered == old(delivered) && nextIss == old(nextIss)
    }

    method HandleSegment(key: ConnKey, seg: Segment)
      modifies this
      ensures Applied(key, OnSegment(Get(old(conns), key), seg, Mmds(handler)))
    {
      if key !in conns {
        Push(key, Reset(seg));
        assert conns - {key} == conns;
        return;
      }
      var c := conns[key];
      if seg.seqNo != c.rcvNxt && seg.payload != [] {
        assert conns[key := c] == conns;
        return;
      }
      match c.state
      case SynReceived => HandleSynReceived(key, seg);
      case Established => HandleEstablished(key, seg);
      case LastAck =>
        if seg.ack && seg.ackNo == c.sndNxt {
          conns := conns - {key};
        } else {
          assert conns[key := c] == conns;
        }
    }

    method HandleSynReceived(key: ConnKey, seg: Segment)
      requires key in conns
      modifies this
      ensures Applied(key, InSynReceived(old(conns)[key], seg, Mmds(handler)))
    {
      var c := conns[key];
      if seg.ack && seg.ackNo == c.sndNxt {
        conns := conns[key := c.(state := Established)];
        if seg.payload != [] {
          ReceiveData(key, seg.payload);
        }
      } else {
        assert conns[key := c] == conns;
      }
    }

    method HandleEstablished(key: ConnKey, seg: Segment)
      requires key in conns
      modifies this
      ensures Applied(key, InEstablished(old(conns)[key], seg, Mmds(handler)))
    {
      assert conns[key := conns[key]] == conns;
      if seg.payload != [] {
        ReceiveData(key, seg.payload);
      }
      if seg.fin {
        ReceiveFin(key);
      }
    }

    method Push(key: ConnKey, seg: Segment)
      modifies this`outQueue
      ensures outQueue == old(outQueue) + [(key, seg)]
    {
      outQueue := outQueue + [(key, seg)];
    }

    method HandleSyn(key: ConnKey, seg: Segment)
      modifies this
      ensures delivered == old(delivered) && calls == old(calls)
      ensures nextIss == Plus(old(nextIss), ISS_STEP)
      ensures conns == old(conns)[key := NewConn(seg.seqNo, old(nextIss))]
      ensures outQueue == old(outQueue) + [(key, SynAck(old(nextIss), NewConn(seg.seqNo, old(nextIss))))]
    {
      var serverIss := nextIss;
      nextIss := Plus(nextIss, ISS_STEP);
      var conn := NewConn(seg.seqNo, serverIss);
      Push(key, SynAck(serverIss, conn));
      conns := conns[key := conn];
    }

    method ReceiveData(key: ConnKey, payload: seq<Byte>)
      requires key in conns
      modifies this
      ensures Applied(key, OnData(old(conns)[key], payload, Mmds(handler)))
    {
      ghost var before, verdictOf := conns, Parse(conns[key].rcvBuf + payload);
      conns := conns[key := Accept(conns[key], payload)];
      PutTwice(before, key, conns[key], OnVerdict(conns[key], verdictOf, Mmds(handler)).conn);
      var verdict := TryParse(conns[key].rcvBuf);
      Respond(key, verdict);
    }

    method Respond(key: ConnKey, verdict: Outcome)
      requires key in conns
      modifies this
      ensures Applied(key, OnVerdict(old(conns)[key], verdict, Mmds(handler)))
    {
      ghost var c := conns[key];
      Push(key, BareAck(conns[key]));
      match Answer(verdict, handler)
      case None =>
        assert conns[key := c] == conns;
        TaggedOne(key, BareAck(c));
      case Some(response) =>
        TaggedTwo(key, BareAck(c), ResponseSegment(c, ToWire(response)));
        if verdict.Complete? {
          calls := calls + [(key, verdict.request)];
          TaggedOne(key, verdict.request);
        }
        SendResponse(key, response);
    }

    method SendResponse(key: ConnKey, response: Response)
      requires key in conns
      modifies this`conns, this`outQueue
      ensures conns == old(conns)[key := AfterResponse(old(conns)[key], ToWire(response))]
      ensures outQueue == old(outQueue) + [(key, ResponseSegment(old(conns)[key], ToWire(response)))]
    {
      var wire := ToWire(response);
      var c := conns[key];
      conns := conns[key := AfterResponse(c, wire)];
      Push(key, ResponseSegment(c, wire));
    }

    method ReceiveFin(key: ConnKey)
      requires key in conns
      modifies this`conns, this`outQueue
      ensures Applied(key, OnFin(old(conns)[key]))
    {
      var c := conns[key];
      var c1 := c.(rcvNxt := Plus(c.rcvNxt, 1));
      conns := conns[key := c1.(sndNxt := Plus(c1.sndNxt, 1), state := LastAck)];
      Push(key, FinAck(c1));
    }

    /** `drain_outbound`. */
    method DrainOutbound() returns (frames: seq<(ConnKey, Segment)>)
      modifies this`outQueue, this`delivered
      ensures frames == old(outQueue) && outQueue == []
      ensures Meaning() == old(Meaning())
    {
      frames := outQueue;
      delivered := delivered + outQueue;
      outQueue := [];
    }
  }
}
