/** A UART with bounded histories and a level interrupt
    (crates/minemu-core/src/uart.rs). */
module Serial {
  import opened Platform
  import opened Registers
  import Interrupts

  /** Appends to a bounded queue, dropping the oldest byte when it is full. */
  function Push(queue: seq<u8>, byte: u8, capacity: nat): seq<u8> {
    if capacity == 0 then queue
    else if |queue| == capacity then queue[1..] + [byte]
    else queue + [byte]
  }

  function PushAll(queue: seq<u8>, bytes: seq<u8>, capacity: nat): seq<u8>
    decreases |bytes|
  {
    if bytes == [] then queue else PushAll(Push(queue, bytes[0], capacity), bytes[1..], capacity)
  }

  /** The last `capacity` bytes of a sequence. */
  function Newest(bytes: seq<u8>, capacity: nat): seq<u8> {
    if |bytes| <= capacity then bytes else bytes[|bytes| - capacity..]
  }

  /** Dropping the oldest byte of a full queue loses nothing the newest bytes need. */
  lemma NewestAfterPush(queue: seq<u8>, byte: u8, rest: seq<u8>, capacity: nat)
    requires |queue| <= capacity
    ensures Newest(Push(queue, byte, capacity) + rest, capacity) == Newest(queue + ([byte] + rest), capacity)
  {
    var all := queue + ([byte] + rest);
    var next := Push(queue, byte, capacity) + rest;
    if 0 < capacity && |queue| < capacity {
      assert next == all;
    } else {
      assert next == all[1..];
    }
  }

  /** A bounded queue always holds the newest bytes pushed, in order. */
  lemma {:induction false} PushAllKeepsNewest(queue: seq<u8>, bytes: seq<u8>, capacity: nat)
    requires |queue| <= capacity
    ensures PushAll(queue, bytes, capacity) == Newest(queue + bytes, capacity)
    decreases |bytes|
  {
    if bytes == [] {
      assert queue + bytes == queue;
    } else {
      PushAllKeepsNewest(Push(queue, bytes[0], capacity), bytes[1..], capacity);
      NewestAfterPush(queue, bytes[0], bytes[1..], capacity);
      assert bytes == [bytes[0]] + bytes[1..];
    }
  }

  datatype State = State(rx: seq<u8>, tx: seq<u8>, irqEnabled: bool) {
    predicate IrqPending() { irqEnabled && rx != [] }
  }

  datatype Update = Receive(byte: u8) | Transmit(byte: u8) | Control(control: u32) | ReadData

  function Step(s: State, u: Update, rxCapacity: nat, txCapacity: nat): State {
    match u
    case Receive(byte) => s.(rx := Push(s.rx, byte, rxCapacity))
    case Transmit(byte) => s.(tx := Push(s.tx, byte, txCapacity))
    case Control(control) => s.(irqEnabled := control % 2 == 1)
    case ReadData => s.(rx := if s.rx == [] then [] else s.rx[1..])
  }

  /** Which updates report a level: all but a transmit and a receive into no buffer. */
  predicate Signals(u: Update, rxCapacity: nat) {
    match u case Receive(_) => rxCapacity != 0 case Transmit(_) => false case _ => true
  }

  // ---- Whole runs ----

  function After(s: State, updates: seq<Update>, rxCapacity: nat, txCapacity: nat): State
    decreases |updates|
  {
    if updates == [] then s else After(Step(s, updates[0], rxCapacity, txCapacity), updates[1..], rxCapacity, txCapacity)
  }

  function Received(updates: seq<Update>): seq<u8> {
    if updates == [] then []
    else (if updates[0].Receive? then [updates[0].byte] else []) + Received(updates[1..])
  }

  function Transmitted(updates: seq<Update>): seq<u8> {
    if updates == [] then []
    else (if updates[0].Transmit? then [updates[0].byte] else []) + Transmitted(updates[1..])
  }

  /** The bytes that data reads find, oldest first. */
  function ReadOut(s: State, updates: seq<Update>, rxCapacity: nat, txCapacity: nat): seq<u8>
    decreases |updates|
  {
    if updates == [] then []
    else
      (if updates[0].ReadData? && s.rx != [] then [s.rx[0]] else [])
      + ReadOut(Step(s, updates[0], rxCapacity, txCapacity), updates[1..], rxCapacity, txCapacity)
  }

  /** What one update does to the receive buffer: it takes its byte off the front, and puts a
      received one at the end. */
  lemma OneUpdateReads(s: State, u: Update, rxCapacity: nat, txCapacity: nat)
    requires u.Receive? ==> |s.rx| < rxCapacity
    ensures (if u.ReadData? && s.rx != [] then [s.rx[0]] else []) + Step(s, u, rxCapacity, txCapacity).rx
         == s.rx + (if u.Receive? then [u.byte] else [])
  {}

  lemma Exchange(out: seq<u8>, next: seq<u8>, rest: seq<u8>, last: seq<u8>, rx: seq<u8>, into: seq<u8>, more: seq<u8>)
    requires out + next == rx + into && rest + last == next + more
    ensures (out + rest) + last == rx + (into + more)
  {
    assert (out + rest) + last == out + (rest + last);
    assert out + (next + more) == (out + next) + more;
    assert (rx + into) + more == rx + (into + more);
  }

  /** While the buffer does not overflow, the guest reads the received bytes once each and in
      order, however receives and reads alternate. */
  lemma {:induction false} BytesAreReadInOrder(s: State, updates: seq<Update>, rxCapacity: nat, txCapacity: nat)
    requires |s.rx| + |Received(updates)| <= rxCapacity
    ensures ReadOut(s, updates, rxCapacity, txCapacity) + After(s, updates, rxCapacity, txCapacity).rx == s.rx + Received(updates)
    decreases |updates|
  {
    if updates == [] {
      assert [] + s.rx == s.rx + [] == s.rx;
    } else {
      var u, next := updates[0], Step(s, updates[0], rxCapacity, txCapacity);
      OneUpdateReads(s, u, rxCapacity, txCapacity);
      var into := if u.Receive? then [u.byte] else [];
      assert |Received(updates)| == |into| + |Received(updates[1..])|;
      hide Step;
      BytesAreReadInOrder(next, updates[1..], rxCapacity, txCapacity);
      Exchange(if u.ReadData? && s.rx != [] then [s.rx[0]] else [], next.rx, ReadOut(next, updates[1..], rxCapacity, txCapacity),
               After(s, updates, rxCapacity, txCapacity).rx, s.rx, into, Received(updates[1..]));
    }
  }

  function WrittenIrq(u: Update): Option<bool> { if u.Control? then Some(u.control % 2 == 1) else None }

  lemma OneUpdateTransmits(s: State, u: Update, rest: seq<u8>, rxCapacity: nat, txCapacity: nat)
    requires |s.tx| <= txCapacity
    ensures var next := Step(s, u, rxCapacity, txCapacity).tx;
      |next| <= txCapacity && Newest(next + rest, txCapacity) == Newest(s.tx + ((if u.Transmit? then [u.byte] else []) + rest), txCapacity)
  {
    if u.Transmit? { NewestAfterPush(s.tx, u.byte, rest, txCapacity); }
    else { assert [] + rest == rest; }
    hide Newest;
  }

  /** The transmit history is the newest bytes that the guest sent, in order. */
  lemma {:induction false} HistoryIsNewest(s: State, updates: seq<Update>, rxCapacity: nat, txCapacity: nat)
    requires |s.tx| <= txCapacity
    ensures After(s, updates, rxCapacity, txCapacity).tx == Newest(s.tx + Transmitted(updates), txCapacity)
    decreases |updates|
  {
    if updates == [] {
      assert s.tx + [] == s.tx;
    } else {
      OneUpdateTransmits(s, updates[0], Transmitted(updates[1..]), rxCapacity, txCapacity);
      hide Newest, Step;
      HistoryIsNewest(Step(s, updates[0], rxCapacity, txCapacity), updates[1..], rxCapacity, txCapacity);
    }
  }

  /** Bit 0 of the last CONTROL written enables the interrupt. */
  lemma {:induction false} ControlIsLatest(s: State, updates: seq<Update>, rxCapacity: nat, txCapacity: nat)
    ensures After(s, updates, rxCapacity, txCapacity).irqEnabled == Latest(updates, WrittenIrq, s.irqEnabled)
    decreases |updates|
  {
    if updates != [] {
      LatestFromFront(updates, WrittenIrq, s.irqEnabled);
      ControlIsLatest(Step(s, updates[0], rxCapacity, txCapacity), updates[1..], rxCapacity, txCapacity);
      hide Push, Latest;
    }
  }

  class Uart {
    var rx: seq<u8>
    var tx: seq<u8>
    var irqEnabled: bool
    const rxCapacity: nat
    const txCapacity: nat
    const source: Interrupts.Source
    const sender: Interrupts.SignalQueue

    function Value(): State
      reads this
    {
      State(rx, tx, irqEnabled)
    }

    constructor (rxCap: nat, txCap: nat, irq: Interrupts.Source, queue: Interrupts.SignalQueue)
      ensures rxCapacity == rxCap && txCapacity == txCap && source == irq && sender == queue
      ensures Value() == State([], [], false)
    {
      rxCapacity, txCapacity, source, sender := rxCap, txCap, irq, queue;
      rx, tx, irqEnabled := [], [], false;
    }

    method SignalInterrupt()
      modifies sender
      ensures sender.signals == old(sender.signals) + [Interrupts.Signal(source, Value().IrqPending())]
    {
      sender.Send(Interrupts.Signal(source, irqEnabled && rx != []));
    }

    /** One receive, data read or register write. The byte is the data read, or zero. */
    method Update(u: Update) returns (byte: u8)
      modifies this, sender
      ensures Value() == Step(old(Value()), u, rxCapacity, txCapacity)
      ensures byte == if u.ReadData? && old(rx) != [] then old(rx)[0] else 0
      ensures sender.signals == old(sender.signals) +
        if Signals(u, rxCapacity) then [Interrupts.Signal(source, Value().IrqPending())] else []
    {
      byte := 0;
      match u {
        case Receive(b) =>
          if rxCapacity == 0 { return; }
          if |rx| == rxCapacity { rx := rx[1..]; }
          rx := rx + [b];
          SignalInterrupt();
        case Transmit(b) =>
          if txCapacity == 0 { return; }
          if |tx| == txCapacity { tx := tx[1..]; }
          tx := tx + [b];
        case Control(control) =>
          irqEnabled := control % 2 == 1;
          SignalInterrupt();
        case ReadData =>
          if rx != [] { byte, rx := rx[0], rx[1..]; }
          SignalInterrupt();
      }
    }
  }
}
