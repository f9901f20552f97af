/** The level-signal queue and the interrupt controller
    (crates/minemu-core/src/interrupt.rs). */
module Interrupts {
  import opened Platform
  import opened Registers

  datatype Source = SysTick | Uart0 | Uart1 | Block {
    function Id(): (id: nat)
      ensures id < 4
    {
      match this case SysTick => 0 case Uart0 => 1 case Uart1 => 2 case Block => 3
    }
  }

  /** A level transition sent by a peripheral. */
  datatype Signal = Signal(source: Source, pending: bool)

  /** The bitmap after one signal: `pending |= bit` or `pending &= !bit`. */
  function Apply(pending: set<Source>, signal: Signal): set<Source> {
    if signal.pending then pending + {signal.source} else pending - {signal.source}
  }

  /** The bitmap after every queued signal, oldest first. */
  function Replay(pending: set<Source>, queue: seq<Signal>): set<Source>
    decreases |queue|
  {
    if queue == [] then pending else Replay(Apply(pending, queue[0]), queue[1..])
  }

  lemma {:induction false} ReplaySplit(pending: set<Source>, first: seq<Signal>, second: seq<Signal>)
    ensures Replay(pending, first + second) == Replay(Replay(pending, first), second)
    decreases |first|
  {
    if first == [] {
      assert first + second == second;
    } else {
      assert (first + second)[1..] == first[1..] + second;
      ReplaySplit(Apply(pending, first[0]), first[1..], second);
    }
  }

  /** The most recent queued level of a source, if any signal of it is queued. */
  function LastLevel(queue: seq<Signal>, source: Source): Option<bool> {
    if queue == [] then None
    else
      var last := queue[|queue| - 1];
      if last.source == source then Some(last.pending) else LastLevel(queue[..|queue| - 1], source)
  }

  /** Replaying keeps, for each source, its newest queued level, or its old bit. */
  lemma {:induction false} ReplayKeepsLastLevel(pending: set<Source>, queue: seq<Signal>, source: Source)
    ensures source in Replay(pending, queue) <==>
      match LastLevel(queue, source) case Some(level) => level case None => source in pending
    decreases |queue|
  {
    if queue != [] {
      var rest, last := queue[..|queue| - 1], queue[|queue| - 1];
      ReplayKeepsLastLevel(pending, rest, source);
      assert queue == rest + [last];
      ReplaySplit(pending, rest, [last]);
      assert Replay(Replay(pending, rest), [last]) == Apply(Replay(pending, rest), last);
    }
  }

  // ---- The controller ----

  /** PENDING and ENABLE hold one bit per source and are modelled as sets of sources. */
  datatype Controller = Controller(pending: set<Source>, enabled: set<Source>, priorities: seq<u8>, claim: Option<Source>) {
    predicate Valid() { |priorities| == 4 }

    function Priority(source: Source): u8
      requires Valid()
    {
      priorities[source.Id()]
    }

    predicate Eligible(source: Source) { source in pending && source in enabled }

    /** The claim order: smaller priority value first, then smaller source ID. */
    predicate Before(a: Source, b: Source)
      requires Valid()
    {
      Priority(a) < Priority(b) || (Priority(a) == Priority(b) && a.Id() <= b.Id())
    }

    function Better(best: Option<Source>, candidate: Source): Option<Source>
      requires Valid()
    {
      if !Eligible(candidate) then best
      else if best.Some? && Before(best.value, candidate) then best
      else Some(candidate)
    }

    /** `filter(..).min_by_key(..)` over the four sources: the first eligible source in
        the claim order. */
    function Select(): (choice: Option<Source>)
      requires Valid()
      ensures choice.None? <==> forall s: Source :: !Eligible(s)
      ensures choice.Some? ==> Eligible(choice.value) && forall s: Source :: Eligible(s) ==> Before(choice.value, s)
    {
      var choice := Better(Better(Better(Better(None, Source.SysTick), Source.Uart0), Source.Uart1), Source.Block);
      assert forall s: Source :: Eligible(s) ==>
        s == Source.SysTick || s == Source.Uart0 || s == Source.Uart1 || s == Source.Block;
      choice
    }

    function Claimed(): Controller
      requires Valid()
    {
      if claim.Some? then this else this.(claim := Select())
    }

    /** An EOI is accepted only for the source that is claimed. */
    function Ended(source: u32): Result<Controller, ()> {
      if claim.Some? && claim.value.Id() == source then Ok(this.(claim := None)) else Err(())
    }
  }

  /** One input to the controller, in the order in which it takes effect. */
  datatype Event =
    | Level(signal: Signal)
    | SetEnabled(sources: set<Source>)
    | SetPriority(source: Source, priority: u8)
    | Claim
    | Eoi(id: u32)

  function Step(c: Controller, e: Event): (r: Controller)
    requires c.Valid()
    ensures r.Valid()
  {
    match e
    case Level(signal) => c.(pending := Apply(c.pending, signal))
    case SetEnabled(sources) => c.(enabled := sources)
    case SetPriority(source, priority) => c.(priorities := c.priorities[source.Id() := priority])
    case Claim => c.Claimed()
    case Eoi(id) => var r := c.Ended(id); if r.Ok? then r.value else c
  }

  function Run(c: Controller, events: seq<Event>): (r: Controller)
    requires c.Valid()
    ensures r.Valid()
    decreases |events|
  {
    if events == [] then c else Run(Step(c, events[0]), events[1..])
  }

  /** A claim stays with its source through any events but its own EOI, so every claim
      read in between returns that source. */
  lemma {:induction false} ClaimIsRetained(c: Controller, events: seq<Event>, source: Source)
    requires c.Valid() && c.claim == Some(source) && Eoi(source.Id()) !in events
    ensures Run(c, events).claim == Some(source)
    ensures Run(c, events).Claimed() == Run(c, events)
    decreases |events|
  {
    if events != [] {
      assert events[0] in events;
      ClaimIsRetained(Step(c, events[0]), events[1..], source);
    }
  }

  /** A claim can only change by being taken for the first eligible source when none is
      held, or released by the EOI of the source that holds it. */
  lemma ClaimChangesOnlyByProtocol(c: Controller, e: Event)
    requires c.Valid() && Step(c, e).claim != c.claim
    ensures c.claim.None? ==>
      && e.Claim?
      && var chosen := Step(c, e).claim;
         chosen.Some? && c.Eligible(chosen.value) && forall s: Source :: c.Eligible(s) ==> c.Before(chosen.value, s)
    ensures c.claim.Some? ==> e == Eoi(c.claim.value.Id()) && Step(c, e) == c.(claim := None)
  {}

  /** Source IDs are fixed. */
  lemma SourceIds()
    ensures Source.SysTick.Id() == 0 && Source.Uart0.Id() == 1 && Source.Uart1.Id() == 2 && Source.Block.Id() == 3
  {}

  /** A claim while none is held takes the pending and enabled source of the least priority
      value, and among equals the one of the least ID; only without such a source it takes none. */
  lemma ClaimTakesFirst(c: Controller)
    requires c.Valid() && c.claim.None?
    ensures Step(c, Claim) == c.(claim := Step(c, Claim).claim)
    ensures var taken := Step(c, Claim).claim;
      && (taken.None? <==> c.pending * c.enabled == {})
      && (taken.Some? ==>
            && taken.value in c.pending * c.enabled
            && forall s | s in c.pending * c.enabled ::
                 var p, q := c.priorities[taken.value.Id()], c.priorities[s.Id()];
                 p < q || (p == q && taken.value.Id() <= s.Id()))
  {
    var taken := Step(c, Claim).claim;
    assert taken == c.Select();
    forall s | s in c.pending * c.enabled ensures taken.Some? && c.Before(taken.value, s) { assert c.Eligible(s); }
    if taken.Some? { assert c.Eligible(taken.value) && taken.value in c.pending * c.enabled; }
  }

  /** The EOI of the source that is claimed releases it; any other EOI changes nothing. */
  lemma EoiReleases(c: Controller, id: u32)
    requires c.Valid()
    ensures Step(c, Eoi(id)) == if exists s: Source :: c.claim == Some(s) && s.Id() == id then c.(claim := None) else c
  {}

  function WrittenEnable(e: Event): Option<set<Source>> { if e.SetEnabled? then Some(e.sources) else None }

  function WrittenPriority(source: Source): Event -> Option<u8> {
    (e: Event) => if e.SetPriority? && e.source == source then Some(e.priority) else None
  }

  function SentLevel(source: Source): Event -> Option<bool> {
    (e: Event) => if e.Level? && e.signal.source == source then Some(e.signal.pending) else None
  }

  /** After any events ENABLE, each priority and each source's PENDING bit are what was last
      written or sent. */
  lemma {:induction false} ControllerHoldsLatest(c: Controller, events: seq<Event>, s: Source)
    requires c.Valid()
    ensures var after := Run(c, events);
      && after.enabled == Latest(events, WrittenEnable, c.enabled)
      && after.priorities[s.Id()] == Latest(events, WrittenPriority(s), c.priorities[s.Id()])
      && (s in after.pending <==> Latest(events, SentLevel(s), s in c.pending))
    decreases |events|
  {
    if events != [] {
      ControllerHoldsLatest(Step(c, events[0]), events[1..], s);
      LatestFromFront(events, WrittenEnable, c.enabled);
      LatestFromFront(events, WrittenPriority(s), c.priorities[s.Id()]);
      LatestFromFront(events, SentLevel(s), s in c.pending);
      hide Latest;
      OneEventHolds(c, events[0], s);
    }
  }

  lemma OneEventHolds(c: Controller, e: Event, s: Source)
    requires c.Valid()
    ensures var after := Step(c, e);
      && after.enabled == (if WrittenEnable(e).Some? then WrittenEnable(e).value else c.enabled)
      && after.priorities[s.Id()] == (if WrittenPriority(s)(e).Some? then WrittenPriority(s)(e).value else c.priorities[s.Id()])
      && (s in after.pending) == (if SentLevel(s)(e).Some? then SentLevel(s)(e).value else s in c.pending)
  {}

  /** The channel from the peripherals to the controller. */
  class SignalQueue {
    var signals: seq<Signal>

    constructor ()
      ensures signals == []
    {
      signals := [];
    }

    method Send(signal: Signal)
      modifies this
      ensures signals == old(signals) + [signal]
    {
      signals := signals + [signal];
    }
  }

  class InterruptController {
    const receiver: SignalQueue
    var pending: set<Source>
    var enabled: set<Source>
    var priorities: seq<u8>
    var claim: Option<Source>

    ghost predicate Valid()
      reads this
    {
      |priorities| == 4
    }

    function State(): (c: Controller)
      reads this
    {
      Controller(pending, enabled, priorities, claim)
    }

    constructor (queue: SignalQueue)
      ensures Valid() && receiver == queue
      ensures State() == Controller({}, {}, [0, 64, 64, 128], None)
    {
      receiver, pending, enabled, priorities, claim := queue, {}, {}, [0, 64, 64, 128], None;
    }

    /** `process_signals`: drains the queue into the bitmap. */
    method ProcessSignals()
      requires Valid()
      modifies this`pending, receiver
      ensures Valid() && receiver.signals == []
      ensures State() == old(State()).(pending := Replay(old(pending), old(receiver.signals)))
    {
      while receiver.signals != []
        invariant Replay(pending, receiver.signals) == Replay(old(pending), old(receiver.signals))
        decreases |receiver.signals|
      {
        var signal := receiver.signals[0];
        receiver.signals := receiver.signals[1..];
        pending := Apply(pending, signal);
      }
    }

    /** `claim`: returns and retains the active source until its EOI. */
    method ClaimSource() returns (source: Option<Source>)
      requires Valid()
      modifies this`pending, this`claim, receiver
      ensures Valid() && receiver.signals == []
      ensures var drained := old(State()).(pending := Replay(old(pending), old(receiver.signals)));
              State() == drained.Claimed() && source == State().claim
    {
      ProcessSignals();
      if claim.None? { claim := State().Select(); }
      source := claim;
    }

    /** `eoi`: an end-of-interrupt for any other source changes nothing. */
    method EndOfInterrupt(source: u32) returns (ok: bool)
      requires Valid()
      modifies this`claim
      ensures Valid() && ok == old(State()).Ended(source).Ok?
      ensures State() == if ok then old(State()).Ended(source).value else old(State())
    {
      ok := claim.Some? && claim.value.Id() == source;
      if ok { claim := None; }
    }

    method SetEnabled(sources: set<Source>)
      requires Valid()
      modifies this`enabled
      ensures Valid() && State() == Step(old(State()), Event.SetEnabled(sources))
    {
      enabled := sources;
    }

    method SetPriority(source: Source, priority: u8)
      requires Valid()
      modifies this`priorities
      ensures Valid() && State() == Step(old(State()), Event.SetPriority(source, priority))
    {
      priorities := priorities[source.Id() := priority];
    }
  }
}
