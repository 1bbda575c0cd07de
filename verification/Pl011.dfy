/** The PL011 UART (crates/legacy/src/pl011.rs), with interrupt-controller calls succeeding. */
module Pl011 {
  import opened Words
  import opened Outcomes

  const FR_TX_EMPTY: nat := 0x80
  const FR_RX_EMPTY: nat := 0x10

  /** Digit 4 of the mask and status registers is the receive interrupt. */
  const RX: nat := 4
  const INT_RX: nat := 0x10

  datatype Uart = Uart(rx: seq<Byte>, imsc: nat, ris: nat, line: bool, tx: seq<Byte>,
                       ilpr: nat, ibrd: nat, fbrd: nat, lcrh: nat, cr: nat, ifls: nat, dmacr: nat)

  const RESET: Uart := Uart([], 0, 0, false, [], 0, 0, 0, 0, 0, 0, 0)

  function Not32(w: nat): nat
    requires w < U32_LIMIT
  {
    U32_LIMIT - 1 - w
  }

  /** Level of the line after the mask or the status changed. */
  function Level(imsc: nat, ris: nat): bool {
    And(And(imsc, ris), INT_RX) != 0
  }

  function Push(u: Uart, b: Byte): Uart {
    u.(rx := u.rx + [b], ris := Or(u.ris, INT_RX), line := if And(u.imsc, INT_RX) != 0 then true else u.line)
  }

  function FlagRegister(u: Uart): nat {
    if u.rx == [] then Or(FR_TX_EMPTY, FR_RX_EMPTY) else FR_TX_EMPTY
  }

  /** Reading the data register pops a byte; emptying the queue clears the status and the line. */
  function ReadData(u: Uart): (Uart, nat) {
    if u.rx == [] then (u, 0)
    else if |u.rx| == 1 then (u.(rx := [], ris := And(u.ris, Not32(INT_RX)), line := false), u.rx[0])
    else (u.(rx := u.rx[1..]), u.rx[0])
  }

  /** PrimeCell identification registers. */
  function Identification(offset: nat): Option<nat> {
    match offset
    case 0xFE0 => Some(0x11)
    case 0xFE4 => Some(0x10)
    case 0xFE8 => Some(0x14)
    case 0xFEC => Some(0x00)
    case 0xFF0 => Some(0x0D)
    case 0xFF4 => Some(0xF0)
    case 0xFF8 => Some(0x05)
    case 0xFFC => Some(0xB1)
    case _ => None
  }

  function Read(u: Uart, offset: nat): (Uart, nat) {
    match Identification(offset)
    case Some(value) => (u, value)
    case None =>
      match offset
      case 0x000 => ReadData(u)
      case 0x018 => (u, FlagRegister(u))
      case 0x020 => (u, u.ilpr)
      case 0x024 => (u, u.ibrd)
      case 0x028 => (u, u.fbrd)
      case 0x02C => (u, u.lcrh)
      case 0x030 => (u, u.cr)
      case 0x034 => (u, u.ifls)
      case 0x038 => (u, u.imsc)
      case 0x03C => (u, u.ris)
      case 0x040 => (u, And(u.ris, u.imsc))
      case 0x048 => (u, u.dmacr)
      case _ => (u, 0)
  }

  function Write(u: Uart, offset: nat, value: nat): Uart
    requires value < U32_LIMIT
  {
    match offset
    case 0x000 => u.(tx := u.tx + [value % 256])
    case 0x020 => u.(ilpr := value)
    case 0x024 => u.(ibrd := value)
    case 0x028 => u.(fbrd := value)
    case 0x02C => u.(lcrh := value)
    case 0x030 => u.(cr := value)
    case 0x034 => u.(ifls := value)
    case 0x038 => u.(imsc := value, line := Level(value, u.ris))
    case 0x044 =>
      var ris := And(u.ris, Not32(value));
      u.(ris := ris, line := Level(u.imsc, ris))
    case 0x048 => u.(dmacr := value)
    case _ => u
  }

  /** The device as written: fields updated register by register. */
  class Pl011 {
    var rxQueue: seq<Byte>
    var imsc: nat
    var ris: nat
    /** The interrupt line as last driven through the interrupt controller. */
    var line: bool
    var sink: seq<Byte>
    var ilpr: nat
    var ibrd: nat
    var fbrd: nat
    var lcrh: nat
    var cr: nat
    var ifls: nat
    var dmacr: nat

    ghost function Meaning(): Uart
      reads this
    {
      Uart(rxQueue, imsc, ris, line, sink, ilpr, ibrd, fbrd, lcrh, cr, ifls, dmacr)
    }

    constructor ()
      ensures Meaning() == RESET
    {
      rxQueue, imsc, ris, line, sink := [], 0, 0, false, [];
      ilpr, ibrd, fbrd, lcrh, cr, ifls, dmacr := 0, 0, 0, 0, 0, 0, 0;
    }

    method SetSpiLevel(level: bool)
      modifies this`line
      ensures line == level
    {
      line := level;
    }

    method PushRx(b: Byte) returns (len: nat)
      modifies this
      ensures Meaning() == Push(old(Meaning()), b) && len == |rxQueue|
    {
      rxQueue := rxQueue + [b];
      ris := Or(ris, INT_RX);
      if And(imsc, INT_RX) != 0 {
        SetSpiLevel(true);
      }
      return |rxQueue|;
    }

    method ReadDr() returns (value: nat)
      modifies this
      ensures (Meaning(), value) == ReadData(old(Meaning()))
    {
      if rxQueue == [] {
        return 0;
      }
      var b := rxQueue[0];
      rxQueue := rxQueue[1..];
      if rxQueue == [] {
        ris := And(ris, Not32(INT_RX));
        SetSpiLevel(false);
      }
      return b;
    }

    method ReadRegister(offset: nat) returns (value: nat)
      modifies this
      ensures (Meaning(), value) == Read(old(Meaning()), offset)
    {
      var id := Identification(offset);
      if id.Some? {
        return id.value;
      }
      if offset == 0x000 {
        value := ReadDr();
      } else {
        value := match offset
          case 0x018 => if rxQueue == [] then Or(FR_TX_EMPTY, FR_RX_EMPTY) else FR_TX_EMPTY
          case 0x020 => ilpr
          case 0x024 => ibrd
          case 0x028 => fbrd
          case 0x02C => lcrh
          case 0x030 => cr
          case 0x034 => ifls
          case 0x038 => imsc
          case 0x03C => ris
          case 0x040 => And(ris, imsc)
          case 0x048 => dmacr
          case _ => 0;
      }
    }

    method WriteRegister(offset: nat, value: nat)
      requires value < U32_LIMIT
      modifies this
      ensures Meaning() == Write(old(Meaning()), offset, value)
    {
      match offset
      case 0x000 => sink := sink + [value % 256];
      case 0x020 => ilpr := value;
      case 0x024 => ibrd := value;
      case 0x028 => fbrd := value;
      case 0x02C => lcrh := value;
      case 0x030 => cr := value;
      case 0x034 => ifls := value;
      case 0x038 =>
        imsc := value;
        SetSpiLevel(Level(imsc, ris));
      case 0x044 =>
        ris := And(ris, Not32(value));
        SetSpiLevel(Level(imsc, ris));
      case 0x048 => dmacr := value;
      case _ =>
    }
  }

  // ---- runs ----------------------------------------------------------------------------------

  datatype Op = PushByte(b: Byte) | ReadReg(offset: nat) | WriteReg(offset: nat, value: nat)

  predicate Legal(op: Op) {
    op.WriteReg? ==> op.value < U32_LIMIT
  }

  function Step(u: Uart, op: Op): Uart
    requires Legal(op)
  {
    match op
    case PushByte(b) => Push(u, b)
    case ReadReg(offset) => Read(u, offset).0
    case WriteReg(offset, value) => Write(u, offset, value)
  }

  ghost predicate AllLegal(ops: seq<Op>) {
    forall i :: 0 <= i < |ops| ==> Legal(ops[i])
  }

  ghost function Run(ops: seq<Op>): Uart
    requires AllLegal(ops)
  {
    if ops == [] then RESET else Step(Run(ops[..|ops| - 1]), ops[|ops| - 1])
  }

  /** The bytes pushed by the host, in order. */
  function Pushed(ops: seq<Op>): seq<Byte> {
    if ops == [] then []
    else
      var op := ops[|ops| - 1];
      Pushed(ops[..|ops| - 1]) + (if op.PushByte? then [op.b] else [])
  }

  /** The receive queue as a plain FIFO: pushes append, reads of the data register take the head. */
  function Queue(ops: seq<Op>): seq<Byte> {
    if ops == [] then []
    else QueueStep(Queue(ops[..|ops| - 1]), ops[|ops| - 1])
  }

  function QueueStep(q: seq<Byte>, op: Op): seq<Byte> {
    if op.PushByte? then q + [op.b]
    else if op == ReadReg(0) && q != [] then q[1..]
    else q
  }

  /** What the device returned for the data reads that found a byte, in order. */
  ghost function Popped(ops: seq<Op>): seq<nat>
    requires AllLegal(ops)
  {
    if ops == [] then []
    else
      var before := Run(ops[..|ops| - 1]);
      Popped(ops[..|ops| - 1])
      + (if ops[|ops| - 1] == ReadReg(0) && before.rx != [] then [Read(before, 0).1] else [])
  }

  /** The bytes the guest wrote to the data register, in order. */
  function Transmitted(ops: seq<Op>): seq<Byte> {
    if ops == [] then []
    else
      var op := ops[|ops| - 1];
      Transmitted(ops[..|ops| - 1]) + (if op.WriteReg? && op.offset == 0 then [op.value % 256] else [])
  }

  /** The guest cleared the receive interrupt through ICR after the last byte arrived. */
  predicate ClearedSincePush(ops: seq<Op>) {
    if ops == [] then false
    else
      var op := ops[|ops| - 1];
      if op.PushByte? then false
      else if op.WriteReg? && op.offset == 0x044 && Bit(op.value, RX) then true
      else ClearedSincePush(ops[..|ops| - 1])
  }

  lemma RxMask()
    ensures INT_RX == Pow2(RX)
  {
    assert Pow2(4) == 16;
  }

  lemma LevelIsBothBits(imsc: nat, ris: nat)
    ensures Level(imsc, ris) <==> Bit(imsc, RX) && Bit(ris, RX)
  {
    RxMask();
    TestMask(And(imsc, ris), RX);
    BitAnd(imsc, ris, RX);
  }

  lemma RaiseRx(ris: nat)
    ensures Bit(Or(ris, INT_RX), RX)
  {
    RxMask();
    BitOr(ris, INT_RX, RX);
    BitPow2(RX, RX);
  }

  lemma ClearBits(ris: nat, value: nat)
    requires value < U32_LIMIT
    ensures Bit(And(ris, Not32(value)), RX) <==> Bit(ris, RX) && !Bit(value, RX)
  {
    WordLimit();
    BitAnd(ris, Not32(value), RX);
    BitComplement(32, value, RX);
  }

  lemma ClearRx(ris: nat)
    ensures !Bit(And(ris, Not32(INT_RX)), RX)
  {
    RxMask();
    ClearBits(ris, INT_RX);
    BitPow2(RX, RX);
  }

  /** The line follows the masked status; the raw status is up exactly while unread bytes are unacknowledged. */
  ghost predicate Inv(u: Uart, cleared: bool) {
    && u.line == (Bit(u.imsc, RX) && Bit(u.ris, RX))
    && (Bit(u.ris, RX) <==> u.rx != [] && !cleared)
  }

  lemma PushInv(u: Uart, cleared: bool, b: Byte)
    requires Inv(u, cleared)
    ensures Inv(Push(u, b), false)
  {
    RaiseRx(u.ris);
    RxMask();
    TestMask(u.imsc, RX);
  }

  lemma ReadInv(u: Uart, cleared: bool, offset: nat)
    requires Inv(u, cleared)
    ensures Inv(Read(u, offset).0, cleared)
  {
    if offset == 0 { ClearRx(u.ris); }
  }

  lemma WriteMaskInv(u: Uart, cleared: bool, value: nat)
    requires Inv(u, cleared) && value < U32_LIMIT
    ensures Inv(Write(u, 0x038, value), cleared)
  {
    LevelIsBothBits(value, u.ris);
  }

  lemma WriteClearInv(u: Uart, cleared: bool, value: nat)
    requires Inv(u, cleared) && value < U32_LIMIT
    ensures Inv(Write(u, 0x044, value), cleared || Bit(value, RX))
  {
    ClearBits(u.ris, value);
    NewStatusInv(u, cleared, And(u.ris, Not32(value)), cleared || Bit(value, RX));
  }

  /** A new raw status and the line driven from it. */
  lemma NewStatusInv(u: Uart, cleared: bool, ris: nat, nowCleared: bool)
    requires Inv(u, cleared) && (cleared ==> nowCleared)
    requires Bit(ris, RX) <==> Bit(u.ris, RX) && !(nowCleared && !cleared)
    ensures Inv(u.(ris := ris, line := Level(u.imsc, ris)), nowCleared)
  {
    LevelIsBothBits(u.imsc, ris);
  }

  lemma WriteOtherInv(u: Uart, cleared: bool, offset: nat, value: nat)
    requires Inv(u, cleared) && value < U32_LIMIT && offset != 0x038 && offset != 0x044
    ensures Inv(Write(u, offset, value), cleared)
  {
  }

  lemma WriteInv(u: Uart, cleared: bool, offset: nat, value: nat)
    requires Inv(u, cleared) && value < U32_LIMIT
    ensures Inv(Write(u, offset, value), cleared || (offset == 0x044 && Bit(value, RX)))
  {
    if offset == 0x038 {
      WriteMaskInv(u, cleared, value);
    } else if offset == 0x044 {
      WriteClearInv(u, cleared, value);
    } else {
      WriteOtherInv(u, cleared, offset, value);
    }
  }

  /**
   Over every run: the interrupt line is the masked receive status, and the raw status is up
   exactly when bytes are queued and the guest has not cleared it since the last one arrived.
   */
  lemma {:induction false} LineFollowsStatus(ops: seq<Op>)
    requires AllLegal(ops)
    ensures Inv(Run(ops), ClearedSincePush(ops))
  {
    if ops == [] {
      BitOfZero(RX);
    } else {
      var n := |ops| - 1;
      LineFollowsStatus(ops[..n]);
      var before, cleared := Run(ops[..n]), ClearedSincePush(ops[..n]);
      match ops[n]
      case PushByte(b) => PushInv(before, cleared, b);
      case ReadReg(offset) => ReadInv(before, cleared, offset);
      case WriteReg(offset, value) => WriteInv(before, cleared, offset, value);
    }
  }

  /**
   The level-triggered promise, that the unmasked line stays up while bytes are queued, holds
   after a run exactly when the guest has not cleared the interrupt since the last byte arrived,
   unless the interrupt is masked or nothing is queued.
   */
  lemma LevelPromiseIff(ops: seq<Op>)
    requires AllLegal(ops)
    ensures var u := Run(ops);
            u.line == (Bit(u.imsc, RX) && u.rx != []) <==>
            !ClearedSincePush(ops) || !Bit(u.imsc, RX) || u.rx == []
  {
    LineFollowsStatus(ops);
  }

  /** One byte queued and one ICR write: data is waiting and the unmasked line is down. */
  lemma ClearedWhileQueued(b: Byte)
    ensures var ops := [WriteReg(0x038, INT_RX), PushByte(b), WriteReg(0x044, INT_RX)];
            AllLegal(ops) && !Run(ops).line && Run(ops).rx == [b] && Bit(Run(ops).imsc, RX)
  {
    var first := [WriteReg(0x038, INT_RX)];
    var second := first + [PushByte(b)];
    var ops := second + [WriteReg(0x044, INT_RX)];
    assert first[..0] == [] && second[..1] == first && ops[..2] == second;
    assert Run(first).imsc == INT_RX && Run(first).rx == [];
    assert Run(second).imsc == INT_RX && Run(second).rx == [b];
    assert Run(ops).imsc == INT_RX && Run(ops).rx == [b];
    RxMask();
    BitPow2(RX, RX);
    assert ClearedSincePush(ops);
    LineFollowsStatus(ops);
    assert ops == [WriteReg(0x038, INT_RX), PushByte(b), WriteReg(0x044, INT_RX)];
  }

  lemma StepBytes(u: Uart, op: Op)
    requires Legal(op)
    ensures Step(u, op).rx == QueueStep(u.rx, op)
    ensures op == ReadReg(0) && u.rx != [] ==> Read(u, 0).1 == u.rx[0]
    ensures Step(u, op).tx == if op.WriteReg? && op.offset == 0 then u.tx + [op.value % 256] else u.tx
  {
  }

  /**
   Over every run: the device's queue is the FIFO, so the guest reads what the FIFO pops, and the
   sink has received exactly the bytes written.
   */
  lemma {:induction false} QueueIsFifo(ops: seq<Op>)
    requires AllLegal(ops)
    ensures Run(ops).rx == Queue(ops) && Run(ops).tx == Transmitted(ops)
    ensures Queue(ops) != [] ==> Read(Run(ops), 0).1 == Queue(ops)[0]
  {
    if ops == [] {
    } else {
      QueueIsFifo(ops[..|ops| - 1]);
      StepBytes(Run(ops[..|ops| - 1]), ops[|ops| - 1]);
    }
    if Queue(ops) != [] { StepBytes(Run(ops), ReadReg(0)); }
  }

  /** Over every run no received byte is lost, repeated or reordered. */
  lemma {:induction false} BytesConserved(ops: seq<Op>)
    requires AllLegal(ops)
    ensures Pushed(ops) == Popped(ops) + Run(ops).rx
  {
    if ops == [] {
    } else {
      var n := |ops| - 1;
      BytesConserved(ops[..n]);
      StepBytes(Run(ops[..n]), ops[n]);
      StepConserves(Popped(ops[..n]), Run(ops[..n]).rx, ops[n]);
    }
  }

  lemma StepConserves(popped: seq<nat>, q: seq<Byte>, op: Op)
    ensures (popped + q) + (if op.PushByte? then [op.b] else []) ==
            (popped + (if op == ReadReg(0) && q != [] then [q[0]] else [])) + QueueStep(q, op)
  {
    if op == ReadReg(0) && q != [] { assert q == [q[0]] + q[1..]; }
  }
}
