/** The gate between the sender thread, which opens it when no packet waits in RAM,
    and the discharge thread, which drains the file stack while it is open. The gate
    is a plain variable both threads write without a lock; only the semaphore
    orders them. Every access is one step. The model covers the time before
    shutdown (gws_die is never stored). */
module Gateway {
  import opened Wrappers

  datatype Gate = Die | Close | Open

  datatype Sender =
    | Deciding       // top of the loop: it may read the gate to close or to open it
    | SawOpen        // read open, about to store close
    | SawClosed      // read closed, about to store open
    | OwesPost       // stored open, about to post the semaphore

  datatype Discharger =
    | Waiting        // in sem_wait
    | Testing        // about to read the gate
    | Draining       // in the loop body, in the pop from the stack
    | FoundEmpty     // the stack was empty, about to store close

  datatype State = State(gate: Gate, sem: nat, sender: Sender, discharger: Discharger)

  const START := State(Close, 0, Deciding, Waiting)

  datatype Event =
    | ReadToClose    // a segment was popped from RAM
    | ReadToOpen     // nothing in RAM, or the file packets are older
    | SenderStores
    | SenderPosts
    | Wakes          // sem_wait returns
    | Tests
    | Pops(empty: bool)
    | DischargerStores

  function Next(s: State, e: Event): Option<State> {
    match (e, s.sender, s.discharger)
    case (ReadToClose, Deciding, _) => Some(if s.gate.Open? then s.(sender := SawOpen) else s)
    case (ReadToOpen, Deciding, _) => Some(if s.gate.Close? then s.(sender := SawClosed) else s)
    case (SenderStores, SawOpen, _) => Some(s.(gate := Close, sender := Deciding))
    case (SenderStores, SawClosed, _) => Some(s.(gate := Open, sender := OwesPost))
    case (SenderPosts, OwesPost, _) => Some(s.(sem := s.sem + 1, sender := Deciding))
    case (Wakes, _, Waiting) => if s.sem > 0 then Some(s.(sem := s.sem - 1, discharger := Testing)) else None
    case (Tests, _, Testing) => Some(s.(discharger := if s.gate.Open? then Draining else Waiting))
    case (Pops(empty), _, Draining) => Some(s.(discharger := if empty then FoundEmpty else Testing))
    case (DischargerStores, _, FoundEmpty) => Some(s.(gate := Close, discharger := Testing))
    case _ => None
  }

  function Run(s: State, events: seq<Event>): Option<State>
    decreases |events|
  {
    if events == [] then Some(s)
    else
      match Run(s, events[..|events| - 1])
      case None => None
      case Some(m) => Next(m, events[|events| - 1])
  }

  predicate Awake(s: State) {
    !s.discharger.Waiting? || s.sem > 0 || s.sender.OwesPost?
  }

  /** No lost wake-up: in every reachable state with the gate open, the discharge
      thread is draining or about to test the gate, or a post is there or owed. */
  lemma {:induction false} NoLostWakeUp(events: seq<Event>)
    requires Run(START, events).Some?
    ensures var s := Run(START, events).value; !s.gate.Die? && (s.gate.Open? ==> Awake(s))
    decreases |events|
  {
    if events != [] {
      NoLostWakeUp(events[..|events| - 1]);
    }
  }

  /** What is left to do, without the sender deciding anything new: the owed post,
      then the discharge thread on its own. */
  function Settle(s: State): State {
    if s.sender.OwesPost? then s.(sem := s.sem + 1, sender := Deciding)
    else if s.discharger.Waiting? && s.sem > 0 then s.(sem := s.sem - 1, discharger := Testing)
    else if s.discharger.Testing? then s.(discharger := if s.gate.Open? then Draining else Waiting)
    else s
  }

  /** Progress: with the gate open, at most three such steps bring the discharge
      thread into its draining loop; they are steps of the program. */
  lemma OpenGateDrains(events: seq<Event>)
    requires Run(START, events).Some? && Run(START, events).value.gate.Open?
    ensures var s := Settle(Settle(Settle(Run(START, events).value)));
            s.gate.Open? && !s.discharger.Waiting? && !s.discharger.Testing?
    ensures forall s :: Settle(s) != s ==> exists e :: Next(s, e) == Some(Settle(s))
  {
    NoLostWakeUp(events);
    forall s | Settle(s) != s ensures exists e :: Next(s, e) == Some(Settle(s)) {
      var e := if s.sender.OwesPost? then SenderPosts else if s.discharger.Waiting? then Wakes else Tests;
      assert Next(s, e) == Some(Settle(s));
    }
  }

  /** Conversely a sleeping discharge thread with nothing owed means a closed gate,
      so the sender's next attempt to open it really opens and posts. */
  lemma SleepingCanBeWoken(events: seq<Event>)
    requires Run(START, events).Some?
    requires var s := Run(START, events).value; s.discharger.Waiting? && s.sem == 0 && s.sender.Deciding?
    ensures var s := Run(START, events).value;
            var r := Run(s, [ReadToOpen, SenderStores, SenderPosts]);
            r == Some(State(Open, 1, Deciding, Waiting))
  {
    NoLostWakeUp(events);
    var s := Run(START, events).value;
    var three := [ReadToOpen, SenderStores, SenderPosts];
    assert three[..2] == [ReadToOpen, SenderStores] && three[..2][..1] == [ReadToOpen];
    assert three[..2][..1][..0] == [];
    assert Run(s, [ReadToOpen]) == Some(s.(sender := SawClosed));
    assert Run(s, three[..2]) == Some(State(Open, 0, OwesPost, Waiting));
  }

  // ---- what each thread did last ----------------------------------------

  predicate SenderEvent(e: Event) { e.ReadToClose? || e.ReadToOpen? || e.SenderStores? || e.SenderPosts? }

  predicate Reads(e: Event) { e.ReadToClose? || e.ReadToOpen? }

  /** The last event of a run that is the sender's, the discharge thread's, a read of the
      sender, or a pop. */
  function LastOf(events: seq<Event>, which: Event -> bool): Option<Event> {
    if events == [] then None
    else
      var n := |events| - 1;
      if which(events[n]) then Some(events[n]) else LastOf(events[..n], which)
  }

  function LastOfSender(events: seq<Event>): Option<Event> { LastOf(events, SenderEvent) }
  function LastOfDischarger(events: seq<Event>): Option<Event> { LastOf(events, e => !SenderEvent(e)) }
  function LastRead(events: seq<Event>): Option<Event> { LastOf(events, Reads) }
  function LastPop(events: seq<Event>): Option<Event> { LastOf(events, (e: Event) => e.Pops?) }

  /** The value stored into the gate last: the sender stores what its last read was for, the
      discharge thread only closes. */
  function Stored(events: seq<Event>): Gate {
    if events == [] then Close
    else
      var n := |events| - 1;
      match events[n]
      case SenderStores => if LastRead(events[..n]) == Some(ReadToOpen) then Open else Close
      case DischargerStores => Close
      case _ => Stored(events[..n])
  }

  function Count(events: seq<Event>, e: Event): nat {
    if events == [] then 0
    else Count(events[..|events| - 1], e) + if events[|events| - 1] == e then 1 else 0
  }

  /** Where the discharge thread stands after its last event; a test told it where to. */
  predicate DischargerAfter(d: Discharger, last: Option<Event>) {
    match last
    case None => d.Waiting?
    case Some(Tests) => d.Draining? || d.Waiting?
    case Some(Pops(true)) => d.FoundEmpty?
    case Some(_) => d.Testing?
  }

  /** Where the sender stands after its last event: after a store it owes a post exactly
      when it opened the gate. */
  predicate SenderAfter(s: Sender, last: Option<Event>, read: Option<Event>) {
    match last
    case Some(ReadToClose) => s.SawOpen? || s.Deciding?
    case Some(ReadToOpen) => s.SawClosed? || s.Deciding?
    case Some(SenderStores) => if read == Some(ReadToOpen) then s.OwesPost? else s.Deciding?
    case _ => s.Deciding?
  }

  /** The whole state, told by the events alone, but for what a read or a test saw: the gate
      is what was stored last, the semaphore counts posts less wake-ups. */
  lemma {:induction false} StateIsHistory(events: seq<Event>)
    requires Run(START, events).Some?
    ensures var s := Run(START, events).value;
      && s.gate == Stored(events) && s.sem == Count(events, SenderPosts) - Count(events, Wakes)
      && DischargerAfter(s.discharger, LastOfDischarger(events))
      && SenderAfter(s.sender, LastOfSender(events), LastRead(events))
      && (Reading(s.sender) ==> LastOfSender(events) == LastRead(events))
    decreases |events|
  {
    if events != [] {
      StateIsHistory(events[..|events| - 1]);
    }
  }

  predicate Reading(s: Sender) { s.SawOpen? || s.SawClosed? }

  /** What a read of the gate and a test of it see, and which events are possible. */
  lemma SeesTheGate(s: State, e: Event)
    ensures Next(s, e).Some? <==> (
      match e
      case SenderStores => Reading(s.sender)
      case SenderPosts => s.sender.OwesPost?
      case Wakes => s.discharger.Waiting? && s.sem > 0
      case Tests => s.discharger.Testing?
      case Pops(_) => s.discharger.Draining?
      case DischargerStores => s.discharger.FoundEmpty?
      case _ => s.sender.Deciding?)
    ensures Next(s, e).Some? ==> var s' := Next(s, e).value;
      && (e.ReadToClose? ==> (s'.sender.SawOpen? <==> s.gate.Open?) && (s'.sender.Deciding? <==> !s.gate.Open?))
      && (e.ReadToOpen? ==> (s'.sender.SawClosed? <==> s.gate.Close?) && (s'.sender.Deciding? <==> !s.gate.Close?))
      && (e.Tests? ==> (s'.discharger.Draining? <==> s.gate.Open?) && (s'.discharger.Waiting? <==> !s.gate.Open?))
      && (if SenderEvent(e) then s'.discharger == s.discharger else s'.sender == s.sender)
  {
  }

  lemma {:induction false} LastPopOfDischarger(events: seq<Event>)
    requires LastOfDischarger(events).Some? && LastOfDischarger(events).value.Pops?
    ensures LastPop(events) == LastOfDischarger(events)
    decreases |events|
  {
    var n := |events| - 1;
    if SenderEvent(events[n]) {
      LastPopOfDischarger(events[..n]);
    }
  }

  /** The discharge thread is about to close the gate exactly when its last step was a pop
      that found the stack empty; after one that found a packet it tests the gate. */
  lemma ClosesOnEmpty(events: seq<Event>)
    requires Run(START, events).Some?
    ensures var s := Run(START, events).value;
      && (s.discharger.FoundEmpty? <==> LastOfDischarger(events) == Some(Pops(true)))
      && (s.discharger.FoundEmpty? ==> LastPop(events) == Some(Pops(true)))
      && (LastOfDischarger(events) == Some(Pops(false)) ==> s.discharger.Testing?)
  {
    StateIsHistory(events);
    if LastOfDischarger(events) == Some(Pops(true)) {
      LastPopOfDischarger(events);
    }
  }

  lemma RunTwo(s: State, a: Event, b: Event)
    requires Next(s, a).Some?
    ensures Run(s, [a, b]) == Next(Next(s, a).value, b)
  {
    var two := [a, b];
    assert two[..1] == [a] && [a][..0] == [];
    assert Run(s, [a]) == Next(s, a);
  }

  /** While the gate stays open the discharge thread goes from pop to pop; a segment popped
      from RAM while it is open closes it. */
  lemma LoopsWhileOpen(events: seq<Event>)
    requires Run(START, events).Some? && Run(START, events).value.gate.Open?
    ensures var s := Run(START, events).value;
      && (s.discharger.Draining? ==> Run(s, [Pops(false), Tests]) == Some(s))
      && (s.sender.Deciding? ==> Run(s, [ReadToClose, SenderStores]) == Some(s.(gate := Close)))
      && (s.discharger.FoundEmpty? ==> Next(s, DischargerStores) == Some(s.(gate := Close, discharger := Testing)))
  {
    var s := Run(START, events).value;
    if s.discharger.Draining? {
      RunTwo(s, Pops(false), Tests);
    }
    if s.sender.Deciding? {
      RunTwo(s, ReadToClose, SenderStores);
    }
  }
}
