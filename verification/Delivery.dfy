/** Whole runs of the reassembler: any number of datagrams in flight, their fragments in
    any order and interleaved with the consumer, some of them late, refused or given up
    on, ids reused once nothing of them is left. */
module Delivery {
  import opened Checksum
  import opened Ranges
  import opened Frames
  import opened Defrag
  import opened DefragInvariant
  import opened Reassembly

  datatype Sent = Sent(id: nat, payload: seq<Byte>)
  datatype Output = Output(dgram: nat, bytes: seq<Byte>)

  /** begun, delivered, lost and log are history: every datagram sent; those output;
      those not output whose id was taken over by another; and the outputs. */
  datatype World = World(
    st: State, live: map<nat, Flight>, begun: seq<Sent>, delivered: set<nat>, lost: set<nat>, log: seq<Output>)

  /** stale and push are the clock's and the ring's answers to an arrival, timedOut the
      clock's to the consumer. */
  datatype WorldEvent =
    | Begins(id: nat, payload: seq<Byte>, whole: bool)
    | Arrives(a: Arrival, tm: nat, stale: bool, push: Pushes)
    | Consumes
    | Completes(timedOut: bool, buf: seq<Byte>)

  function EmptyWorld(): World {
    World(EmptyState(), map[], [], {}, {}, [])
  }

  /** What the network and the scheduler may do: an id is reused when its entry is
      clear and no header of it is left; no byte comes that is recorded already; no
      payload push fails alone; the ten places and the output buffer are not overstepped. */
  ghost predicate Allowed(cfg: Config, w: World, ev: WorldEvent) {
    match ev
    case Begins(id, payload, whole) =>
      id < |w.st.ids| && 0 < |payload| && |payload| + 8 < 0x1_0000 && (id in w.live ==> Quiet(w.st, id))
    case Arrives(a, tm, stale, push) =>
      a.id in w.live && a.id < |w.st.ids| && tm != 0 && Fits(Base(w.live[a.id], stale), a)
      && push != PayloadRefused && !Oversteps(cfg, w.st, a, stale, push)
    case Consumes => true
    case Completes(_, buf) => !Overruns(w.st, buf)
  }

  function Begun(w: World, id: nat, payload: seq<Byte>, whole: bool): World {
    w.(live := w.live[id := Flight(payload, whole, |w.begun|, {}, 0, 0, false)], begun := w.begun + [Sent(id, payload)],
       lost := w.lost + if id in w.live && !w.live[id].done then {w.live[id].dgram} else {})
  }

  /** The consumer's call is over: it output the datagram, or gave it up. */
  function Ended(w: World, st: State, id: nat, outcome: Outcome): World
    requires id in w.live
  {
    var fl := w.live[id];
    if outcome.Delivered? then
      World(st, w.live[id := fl.(done := true)], w.begun, w.delivered + {fl.dgram}, w.lost,
            w.log + [Output(fl.dgram, Shown(outcome.buf, outcome.len))])
    else w.(st := st, live := w.live[id := if fl.done then fl else Cleared(fl)])
  }

  function Step(cfg: Config, w: World, ev: WorldEvent): World {
    match ev
    case Begins(id, payload, whole) => Begun(w, id, payload, whole)
    case Arrives(a, tm, stale, push) =>
      if a.id in w.live && a.id < |w.st.ids| then
        var (st, r) := Receive(cfg, w.st, a, tm, stale, push);
        w.(st := st, live := w.live[a.id := Landed(w.live[a.id], a, stale, |w.st.cells|, r)])
      else w
    case Consumes => w.(st := TakeHeader(w.st))
    case Completes(timedOut, buf) =>
      var (st, outcome) := Finish(w.st, timedOut, buf);
      if w.st.held.Some? && w.st.held.value.id in w.live && !outcome.Waits? then
        Ended(w, st, w.st.held.value.id, outcome)
      else w.(st := st)
  }

  function RunWorld(cfg: Config, events: seq<WorldEvent>): World
    decreases |events|
  {
    if events == [] then EmptyWorld()
    else Step(cfg, RunWorld(cfg, events[..|events| - 1]), events[|events| - 1])
  }

  ghost predicate AllowedRun(cfg: Config, events: seq<WorldEvent>) {
    forall n | 0 <= n < |events| :: Allowed(cfg, RunWorld(cfg, events[..n]), events[n])
  }

  // ---- the invariant ----------------------------------------------------

  ghost predicate FlightAt(s: State, live: map<nat, Flight>, id: nat) {
    id < |s.ids| && if id in live then FlightInv(s, id, live[id]) else Quiet(s, id)
  }

  ghost predicate Tracked(s: State, live: map<nat, Flight>) {
    && (forall id | id in live :: id < UDP_IDS_COUNT)
    && (forall id: nat {:trigger FlightAt(s, live, id)} | id < UDP_IDS_COUNT :: FlightAt(s, live, id))
  }

  /** The flight of an id is that of a datagram sent under it, done when output. */
  predicate Known(w: World, id: nat) {
    id in w.live ==>
      w.live[id].dgram < |w.begun| && w.begun[w.live[id].dgram] == Sent(id, w.live[id].payload)
      && (w.live[id].done <==> w.live[id].dgram in w.delivered) && w.live[id].dgram !in w.lost
  }

  /** A datagram is output, lost or still in flight. */
  predicate Somewhere(w: World, d: nat) {
    d < |w.begun| ==>
      d in w.delivered || d in w.lost || (w.begun[d].id in w.live && w.live[w.begun[d].id].dgram == d)
  }

  predicate TrueOutput(w: World, n: nat) {
    n < |w.log| ==>
      w.log[n].dgram < |w.begun| && w.log[n].dgram in w.delivered && w.log[n].bytes == w.begun[w.log[n].dgram].payload
  }

  /** Outputs are true and no datagram is output twice; the rest is accounted for. */
  ghost predicate Honest(w: World) {
    && (forall id: nat {:trigger Known(w, id)} :: Known(w, id))
    && (forall d: nat {:trigger Somewhere(w, d)} :: Somewhere(w, d))
    && (forall n: nat {:trigger TrueOutput(w, n)} :: TrueOutput(w, n))
    && (forall m, n | 0 <= m < n < |w.log| :: w.log[m].dgram != w.log[n].dgram)
    && |w.log| == |w.delivered| && w.delivered !! w.lost
    && w.delivered <= Between(0, |w.begun|) && w.lost <= Between(0, |w.begun|)
  }

  ghost predicate WorldInv(w: World) {
    Inv(w.st) && Tracked(w.st, w.live) && Honest(w)
  }

  lemma TouchTracked(s: State, s': State, id: nat, live: map<nat, Flight>, fl: Flight)
    requires Tracked(s, live) && id < UDP_IDS_COUNT && Touches(s, s', id) && id in live
    requires id < |s'.ids| && FlightInv(s', id, fl)
    ensures Tracked(s', live[id := fl])
  {
    var live' := live[id := fl];
    forall other: nat | other < UDP_IDS_COUNT ensures FlightAt(s', live', other) {
      if other != id {
        assert FlightAt(s, live, other) && SameLive(s, s', other);
        if other in live {
          CarryFlight(s, s', other, live[other]);
        }
      }
    }
  }

  // ---- arrivals ---------------------------------------------------------

  lemma ReceiveTouches(cfg: Config, s: State, a: Arrival, tm: nat, stale: bool, push: Pushes)
    requires a.id < |s.ids|
    ensures Touches(s, Receive(cfg, s, a, tm, stale, push).0, a.id)
  {
    var s' := Receive(cfg, s, a, tm, stale, push).0;
    AddedTouches(s, s', a.id);
  }

  /** Cells that are added hold no header of another id. */
  lemma AddedTouches(s: State, s': State, id: nat)
    requires Extends(s, s') && s'.popped == s.popped && s'.held == s.held
    requires forall i | |s.cells| <= i < |s'.cells| && s'.cells[i].Header? :: s'.cells[i].meta.id == id
    requires forall other: nat | other < |s.ids| && other != id :: s'.ids[other] == s.ids[other]
    ensures Touches(s, s', id)
  {
    assert forall i | 0 <= i < |s.cells| :: s'.cells[i] == s'.cells[..|s.cells|][i];
  }

  lemma TrackedFlight(s: State, live: map<nat, Flight>, id: nat)
    requires Inv(s) && Tracked(s, live) && id in live
    ensures id < |s.ids| && FlightInv(s, id, live[id]) && RecordedEntry(s, id, s.ids[id]) && s.popped <= |s.cells|
  {
    assert Recorded(s, id) && FlightAt(s, live, id);
  }

  lemma ArrivalKeepsInv(cfg: Config, w: World, a: Arrival, tm: nat, stale: bool, push: Pushes)
    requires Inv(w.st) && Tracked(w.st, w.live) && Allowed(cfg, w, Arrives(a, tm, stale, push))
    ensures Inv(Step(cfg, w, Arrives(a, tm, stale, push)).st)
  {
    TrackedFlight(w.st, w.live, a.id);
    ArrivalUnmixed(w.st, w.live[a.id], a, stale);
    ReceiveInv(cfg, w.st, a, tm, stale, push);
  }

  lemma ArrivalTracked(
    cfg: Config, s: State, live: map<nat, Flight>, a: Arrival, tm: nat, stale: bool, push: Pushes)
    requires Inv(s) && Tracked(s, live) && a.id in live && a.id < |s.ids| && Fits(Base(live[a.id], stale), a)
    requires tm != 0 && push != PayloadRefused && !Oversteps(cfg, s, a, stale, push)
    ensures var (s', r) := Receive(cfg, s, a, tm, stale, push);
      Tracked(s', live[a.id := Landed(live[a.id], a, stale, |s.cells|, r)])
  {
    var (s', r) := Receive(cfg, s, a, tm, stale, push);
    TrackedFlight(s, live, a.id);
    ArrivalFlight(cfg, s, live[a.id], a, tm, stale, push);
    ReceiveTouches(cfg, s, a, tm, stale, push);
    TouchTracked(s, s', a.id, live, Landed(live[a.id], a, stale, |s.cells|, r));
  }

  lemma ArrivalKeepsFlights(cfg: Config, w: World, a: Arrival, tm: nat, stale: bool, push: Pushes)
    requires Inv(w.st) && Tracked(w.st, w.live) && Allowed(cfg, w, Arrives(a, tm, stale, push))
    ensures var w' := Step(cfg, w, Arrives(a, tm, stale, push)); Tracked(w'.st, w'.live)
  {
    ArrivalTracked(cfg, w.st, w.live, a, tm, stale, push);
  }

  /** Changing a flight's bytes, its datagram and its being done apart. */
  lemma SameHonest(w: World, st: State, id: nat, fl: Flight)
    requires Honest(w) && id in w.live
    requires fl.payload == w.live[id].payload && fl.dgram == w.live[id].dgram && fl.done == w.live[id].done
    ensures Honest(w.(st := st, live := w.live[id := fl]))
  {
    var w' := w.(st := st, live := w.live[id := fl]);
    forall x: nat ensures Known(w', x) && Somewhere(w', x) && TrueOutput(w', x) {
      assert Known(w, x) && Somewhere(w, x) && TrueOutput(w, x);
    }
  }

  lemma ArrivalHonest(cfg: Config, w: World, a: Arrival, tm: nat, stale: bool, push: Pushes)
    requires Honest(w) && Allowed(cfg, w, Arrives(a, tm, stale, push))
    ensures Honest(Step(cfg, w, Arrives(a, tm, stale, push)))
  {
    var (st, r) := Receive(cfg, w.st, a, tm, stale, push);
    SameHonest(w, st, a.id, Landed(w.live[a.id], a, stale, |w.st.cells|, r));
  }

  // ---- the consumer -----------------------------------------------------

  lemma TakeDrops(s: State, id: nat, fl: Flight)
    requires Framing(s) && s.held.None? && s.popped < |s.cells| && s.cells[s.popped].Header?
    requires id == s.cells[s.popped].meta.id && id < |s.ids| && FlightInv(s, id, fl) && !Dirty(s.ids[id])
    ensures FlightInv(TakeHeader(s), id, fl)
  {
    var s' := TakeHeader(s);
    CarryKind(s, s', id, fl.payload, fl.whole);
  }

  lemma TakeKeepsFlights(s: State, live: map<nat, Flight>)
    requires Inv(s) && Tracked(s, live)
    ensures Inv(TakeHeader(s)) && Tracked(TakeHeader(s), live)
  {
    TakeInv(s);
    if s.held.None? && s.popped < |s.cells| {
      var s', id := TakeHeader(s), s.cells[s.popped].meta.id;
      TakeTouches(s);
      assert LiveHeader(s, s.popped, id) && FlightAt(s, live, id);
      if Dirty(s.ids[id]) {
        CarryFlight(s, s', id, live[id]);
      } else {
        TakeDrops(s, id, live[id]);
      }
      TouchTracked(s, s', id, live, live[id]);
      assert live[id := live[id]] == live;
    }
  }

  /** The consumer holds a header of some flight. */
  lemma HeldFlight(w: World)
    requires Inv(w.st) && Tracked(w.st, w.live) && w.st.held.Some?
    ensures var id := w.st.held.value.id;
      id < UDP_IDS_COUNT && id in w.live && Holding(w.st, id) && FlightInv(w.st, id, w.live[id])
      && RecordedEntry(w.st, id, w.st.ids[id])
  {
    var s, id := w.st, w.st.held.value.id;
    assert CellFramed(s, s.popped - 1);
    assert LiveHeader(s, s.popped - 1, id) && FlightAt(s, w.live, id) && Recorded(s, id);
  }

  lemma FinishCovers(s: State, id: nat, fl: Flight, timedOut: bool, buf: seq<Byte>)
    requires Framing(s) && s.held.Some? && s.held.value.id == id < |s.ids| && FlightInv(s, id, fl)
    requires !Finish(s, timedOut, buf).1.Waits?
    ensures var s' := Finish(s, timedOut, buf).0;
      id < |s'.ids| && FlightInv(s', id, Cleared(fl)) && FlightInv(s', id, fl.(done := true))
  {
    FinishTouches(s, timedOut, buf);
    var s' := Finish(s, timedOut, buf).0;
    CarryKind(s, s', id, fl.payload, fl.whole);
  }

  lemma FinishKeepsFlights(cfg: Config, w: World, timedOut: bool, buf: seq<Byte>)
    requires Inv(w.st) && Tracked(w.st, w.live) && !Overruns(w.st, buf)
    ensures var w' := Step(cfg, w, Completes(timedOut, buf)); Inv(w'.st) && Tracked(w'.st, w'.live)
  {
    FinishInv(w.st, timedOut, buf);
    if w.st.held.Some? && !Finish(w.st, timedOut, buf).1.Waits? {
      var id := w.st.held.value.id;
      var (s', outcome) := Finish(w.st, timedOut, buf);
      HeldFlight(w);
      var fl := w.live[id];
      FinishCovers(w.st, id, fl, timedOut, buf);
      FinishTouches(w.st, timedOut, buf);
      TouchTracked(w.st, s', id, w.live, if outcome.Delivered? || fl.done then fl.(done := true) else Cleared(fl));
    }
  }

  /** Recording the output of a flight that was not done. */
  lemma RecordHonest(w: World, st: State, id: nat, outcome: Outcome)
    requires Honest(w) && id in w.live && !w.live[id].done && outcome.Delivered?
    requires Shown(outcome.buf, outcome.len) == w.live[id].payload
    ensures Honest(Ended(w, st, id, outcome))
  {
    var w', d := Ended(w, st, id, outcome), w.live[id].dgram;
    assert Known(w, id);
    forall x: nat ensures Known(w', x) && Somewhere(w', x) && TrueOutput(w', x) {
      assert Known(w, x) && Somewhere(w, x) && TrueOutput(w, x);
    }
    forall n | 0 <= n < |w.log| ensures w.log[n].dgram != d {
      assert TrueOutput(w, n);
    }
  }

  lemma DeliveryHonest(cfg: Config, w: World, timedOut: bool, buf: seq<Byte>)
    requires WorldInv(w)
    ensures Honest(Step(cfg, w, Completes(timedOut, buf)))
  {
    var (st, outcome) := Finish(w.st, timedOut, buf);
    if w.st.held.Some? && !outcome.Waits? {
      var id := w.st.held.value.id;
      HeldFlight(w);
      FinishFlight(w.st, id, w.live[id], timedOut, buf);
      if outcome.Delivered? {
        RecordHonest(w, st, id, outcome);
      } else {
        SameHonest(w, st, id, if w.live[id].done then w.live[id] else Cleared(w.live[id]));
      }
    } else {
      StateHonest(w, st);
    }
  }

  lemma StateHonest(w: World, st: State)
    requires Honest(w)
    ensures Honest(w.(st := st))
  {
    var w' := w.(st := st);
    forall x: nat ensures Known(w', x) && Somewhere(w', x) && TrueOutput(w', x) {
      assert Known(w, x) && Somewhere(w, x) && TrueOutput(w, x);
    }
  }

  // ---- a new datagram ---------------------------------------------------

  lemma BeginKeepsFlights(w: World, id: nat, payload: seq<Byte>, whole: bool)
    requires Inv(w.st) && Tracked(w.st, w.live) && Allowed(Config(0, 0), w, Begins(id, payload, whole))
    ensures Tracked(w.st, Begun(w, id, payload, whole).live)
  {
    var live' := Begun(w, id, payload, whole).live;
    forall other: nat | other < UDP_IDS_COUNT ensures FlightAt(w.st, live', other) {
      assert FlightAt(w.st, w.live, other);
    }
  }

  lemma BeginHonest(w: World, id: nat, payload: seq<Byte>, whole: bool)
    requires Honest(w)
    ensures Honest(Begun(w, id, payload, whole))
  {
    var w' := Begun(w, id, payload, whole);
    assert Known(w, id);
    forall x: nat ensures Known(w', x) && Somewhere(w', x) && TrueOutput(w', x) {
      assert Known(w, x) && Somewhere(w, x) && TrueOutput(w, x);
    }
  }

  // ---- whole runs -------------------------------------------------------

  /** Every step, with everything the network, the ring and the clocks may do, keeps the
      books: what is recorded is what is in the ring, outputs are true, none twice. */
  lemma StepInv(cfg: Config, w: World, ev: WorldEvent)
    requires WorldInv(w) && Allowed(cfg, w, ev)
    ensures WorldInv(Step(cfg, w, ev))
  {
    match ev
    case Begins(id, payload, whole) =>
      BeginKeepsFlights(w, id, payload, whole);
      BeginHonest(w, id, payload, whole);
    case Arrives(a, tm, stale, push) =>
      ArrivalKeepsInv(cfg, w, a, tm, stale, push);
      ArrivalKeepsFlights(cfg, w, a, tm, stale, push);
      ArrivalHonest(cfg, w, a, tm, stale, push);
    case Consumes =>
      TakeKeepsFlights(w.st, w.live);
      StateHonest(w, TakeHeader(w.st));
    case Completes(timedOut, buf) =>
      FinishKeepsFlights(cfg, w, timedOut, buf);
      DeliveryHonest(cfg, w, timedOut, buf);
  }

  lemma InitWorld()
    ensures WorldInv(EmptyWorld())
  {
    var w := EmptyWorld();
    assert Run(Config(0, 0), []) == EmptyState();
    RunInv(Config(0, 0), []);
  }

  lemma EarlierAllowed(cfg: Config, events: seq<WorldEvent>)
    requires events != [] && AllowedRun(cfg, events)
    ensures AllowedRun(cfg, events[..|events| - 1])
    ensures Allowed(cfg, RunWorld(cfg, events[..|events| - 1]), events[|events| - 1])
  {
    var n := |events| - 1;
    assert forall k | 0 <= k < n :: events[..n][..k] == events[..k] && events[..n][k] == events[k];
  }

  lemma {:induction false} RunWorldInv(cfg: Config, events: seq<WorldEvent>)
    requires AllowedRun(cfg, events)
    ensures WorldInv(RunWorld(cfg, events))
    decreases |events|
  {
    if events == [] {
      InitWorld();
    } else {
      EarlierAllowed(cfg, events);
      RunWorldInv(cfg, events[..|events| - 1]);
      StepInv(cfg, RunWorld(cfg, events[..|events| - 1]), events[|events| - 1]);
    }
  }

  /** Every byte of every datagram in flight is recorded. */
  ghost predicate AllArrived(w: World) {
    forall id | id in w.live :: w.live[id].done || w.live[id].covered == Between(0, |w.live[id].payload|)
  }

  lemma NothingLeft(w: World, d: nat)
    requires WorldInv(w) && AllArrived(w) && Drained(w.st) && d < |w.begun|
    ensures d in w.delivered || d in w.lost
  {
    assert Somewhere(w, d);
    if d !in w.delivered && d !in w.lost {
      var id := w.begun[d].id;
      assert Known(w, id) && FlightAt(w.st, w.live, id) && Recorded(w.st, id);
      NotDrained(w.st, id, w.live[id]);
    }
  }

  lemma AllDelivered(w: World)
    requires WorldInv(w) && AllArrived(w) && Drained(w.st)
    ensures |w.log| + |w.lost| == |w.begun|
  {
    forall d: nat | d < |w.begun| ensures d in w.delivered || d in w.lost {
      NothingLeft(w, d);
    }
    assert w.delivered + w.lost == Between(0, |w.begun|);
  }

  predicate TrueLog(w: World) {
    && (forall n | 0 <= n < |w.log| ::
          w.log[n].dgram < |w.begun| && w.log[n].bytes == w.begun[w.log[n].dgram].payload && w.log[n].dgram !in w.lost)
    && (forall m, n | 0 <= m < n < |w.log| :: w.log[m].dgram != w.log[n].dgram)
  }

  lemma HonestLog(w: World)
    requires Honest(w)
    ensures TrueLog(w)
  {
    forall n | 0 <= n < |w.log|
      ensures w.log[n].dgram < |w.begun| && w.log[n].bytes == w.begun[w.log[n].dgram].payload
      ensures w.log[n].dgram !in w.lost
    {
      assert TrueOutput(w, n);
    }
  }

  /** Exactly once, whole and unchanged: in every run, whatever came late, was refused or
      timed out, each output is the payload of a datagram that was sent and no datagram
      is output twice; and once every byte of those in flight is recorded and the ring is
      empty, every datagram has been output but those whose id was given away before. */
  lemma ExactDelivery(cfg: Config, events: seq<WorldEvent>)
    requires AllowedRun(cfg, events)
    ensures var w := RunWorld(cfg, events);
      TrueLog(w) && (AllArrived(w) && Drained(w.st) ==> |w.log| + |w.lost| == |w.begun|)
  {
    RunWorldInv(cfg, events);
    HonestLog(RunWorld(cfg, events));
    if AllArrived(RunWorld(cfg, events)) && Drained(RunWorld(cfg, events).st) {
      AllDelivered(RunWorld(cfg, events));
    }
  }

  // ---- the history is only history --------------------------------------

  /** What the receiver sees of an event: the arrival or the consumer's call. */
  function Plain(ev: WorldEvent): (r: seq<Event>)
    ensures |r| <= 1
  {
    match ev
    case Begins(_, _, _) => []
    case Arrives(a, tm, stale, push) => [Receives(a, tm, stale, push)]
    case Consumes => [Takes]
    case Completes(timedOut, buf) => [Finishes(timedOut, buf)]
  }

  function PlainRun(events: seq<WorldEvent>): seq<Event> {
    if events == [] then [] else PlainRun(events[..|events| - 1]) + Plain(events[|events| - 1])
  }

  /** What the consumer's calls deliver in a run of the receiver: the bytes of the output
      buffer up to the length they answer. */
  function Outputs(cfg: Config, events: seq<Event>): seq<seq<Byte>> {
    if events == [] then []
    else
      var n := |events| - 1;
      Outputs(cfg, events[..n]) + OutputOf(Run(cfg, events[..n]), events[n])
  }

  function OutputOf(s: State, ev: Event): seq<seq<Byte>> {
    if ev.Finishes? && Finish(s, ev.timedOut, ev.buf).1.Delivered? then
      var r := Finish(s, ev.timedOut, ev.buf).1;
      [if r.len <= |r.buf| then r.buf[..r.len] else r.buf]
    else []
  }

  function BytesOf(log: seq<Output>): seq<seq<Byte>> {
    seq(|log|, i requires 0 <= i < |log| => log[i].bytes)
  }

  /** The receiver after one more event, or none; and what that event delivers. */
  function After(cfg: Config, s: State, more: seq<Event>): State {
    if more == [] then s else Next(cfg, s, more[0])
  }

  function Delivers(s: State, more: seq<Event>): seq<seq<Byte>> {
    if more == [] then [] else OutputOf(s, more[0])
  }

  lemma RunOneMore(cfg: Config, events: seq<Event>, more: seq<Event>)
    requires |more| <= 1
    ensures Run(cfg, events + more) == After(cfg, Run(cfg, events), more)
    ensures Outputs(cfg, events + more) == Outputs(cfg, events) + Delivers(Run(cfg, events), more)
  {
    if more == [] {
      assert events + more == events;
    } else {
      assert (events + more)[..|events|] == events;
    }
  }

  lemma EndIsReceivers(w: World, st: State, id: nat, outcome: Outcome)
    requires id in w.live
    ensures BytesOf(Ended(w, st, id, outcome).log) == BytesOf(w.log) +
              if outcome.Delivered? then [Shown(outcome.buf, outcome.len)] else []
    ensures Ended(w, st, id, outcome).st == st
  {
  }

  lemma CallStep(cfg: Config, w: World, timedOut: bool, buf: seq<Byte>)
    requires w.st.held.Some? && w.st.held.value.id in w.live
    ensures var (st, outcome) := Finish(w.st, timedOut, buf);
      Step(cfg, w, Completes(timedOut, buf))
        == if outcome.Waits? then w.(st := st) else Ended(w, st, w.st.held.value.id, outcome)
  {
  }

  lemma CallIsReceivers(cfg: Config, w: World, timedOut: bool, buf: seq<Byte>)
    requires w.st.held.Some? ==> w.st.held.value.id in w.live
    ensures var ev := Completes(timedOut, buf);
      && Step(cfg, w, ev).st == Finish(w.st, timedOut, buf).0
      && BytesOf(Step(cfg, w, ev).log) == BytesOf(w.log) + OutputOf(w.st, Finishes(timedOut, buf))
  {
    if w.st.held.Some? {
      var (st, outcome) := Finish(w.st, timedOut, buf);
      CallStep(cfg, w, timedOut, buf);
      EndIsReceivers(w, st, w.st.held.value.id, outcome);
    }
  }

  /** A step of the world is the receiver's step, and logs what it delivers. */
  lemma StepIsReceivers(cfg: Config, w: World, ev: WorldEvent)
    requires WorldInv(w) && Allowed(cfg, w, ev)
    ensures Step(cfg, w, ev).st == After(cfg, w.st, Plain(ev))
    ensures BytesOf(Step(cfg, w, ev).log) == BytesOf(w.log) + Delivers(w.st, Plain(ev))
  {
    if ev.Completes? {
      if w.st.held.Some? {
        HeldFlight(w);
      }
      CallIsReceivers(cfg, w, ev.timedOut, ev.buf);
    }
  }

  /** The books are kept on the side: the world's state is that of the receiver alone on the
      same arrivals and calls, and its log is what the receiver delivered. */
  lemma {:induction false} WorldIsReceiver(cfg: Config, events: seq<WorldEvent>)
    requires AllowedRun(cfg, events)
    ensures RunWorld(cfg, events).st == Run(cfg, PlainRun(events))
    ensures BytesOf(RunWorld(cfg, events).log) == Outputs(cfg, PlainRun(events))
    decreases |events|
  {
    if events != [] {
      var n := |events| - 1;
      EarlierAllowed(cfg, events);
      WorldIsReceiver(cfg, events[..n]);
      RunWorldInv(cfg, events[..n]);
      StepIsReceivers(cfg, RunWorld(cfg, events[..n]), events[n]);
      RunOneMore(cfg, PlainRun(events[..n]), Plain(events[n]));
    }
  }

  // ---- progress ---------------------------------------------------------

  /** The consumer does not hold a header whose id has been cleared. */
  predicate HoldsDirty(s: State) {
    s.held.Some? ==> s.held.value.id < |s.ids| && Dirty(s.ids[s.held.value.id])
  }

  /** The consumer's buffer holds every payload in flight. */
  ghost predicate Roomy(w: World, buf: seq<Byte>) {
    forall id | id in w.live :: |w.live[id].payload| <= |buf|
  }

  /** Everything has arrived and the buffer is large enough. */
  ghost predicate Closing(w: World, buf: seq<Byte>) {
    WorldInv(w) && HoldsDirty(w.st) && AllArrived(w) && Roomy(w, buf)
  }

  /** Once everything has arrived, the id of the header the consumer holds is settled,
      so the consumer does not wait. */
  lemma HeldSettles(w: World)
    requires Inv(w.st) && HoldsDirty(w.st) && Tracked(w.st, w.live) && AllArrived(w) && w.st.held.Some?
    ensures Settled(w.st.ids[w.st.held.value.id])
  {
    HeldFlight(w);
    NotDrained(w.st, w.st.held.value.id, w.live[w.st.held.value.id]);
  }

  lemma TakeMoves(s: State)
    requires Inv(s) && HoldsDirty(s) && !Drained(s)
    ensures var s' := TakeHeader(s);
      s'.cells == s.cells && HoldsDirty(s') && s'.popped >= s.popped && (s'.held.Some? || s'.popped > s.popped)
  {
    TakeInv(s);
    assert s.held.None? ==> s.popped < |s.cells| && CellFramed(s, s.popped);
  }

  lemma FinishState(s: State, timedOut: bool, buf: seq<Byte>)
    requires !Finish(s, timedOut, buf).1.Waits?
    ensures var s' := Finish(s, timedOut, buf).0; s'.held.None? && s'.cells == s.cells && s'.popped == s.popped + 1
  {
  }

  /** A buffer that holds the payload of the header's flight is not overrun. */
  lemma RoomyFits(w: World, buf: seq<Byte>)
    requires Inv(w.st) && Tracked(w.st, w.live)
    requires w.st.held.Some? && w.st.held.value.id in w.live ==> |w.live[w.st.held.value.id].payload| <= |buf|
    ensures !Overruns(w.st, buf)
  {
    if w.st.held.Some? {
      HeldFlight(w);
      FinishFlight(w.st, w.st.held.value.id, w.live[w.st.held.value.id], false, buf);
    }
  }

  /** The step of a call that does not wait and has room. */
  lemma FinishEnds(cfg: Config, w: World, id: nat, buf: seq<Byte>)
    requires Holding(w.st, id) && id in w.live && FlightInv(w.st, id, w.live[id])
    requires RecordedEntry(w.st, id, w.st.ids[id]) && Settled(w.st.ids[id]) && |w.live[id].payload| <= |buf|
    ensures var w' := Step(cfg, w, Completes(false, buf));
      w'.live == w.live[id := w.live[id].(done := true)] && w'.st.held.None? && w'.st.cells == w.st.cells
      && w'.st.popped == w.st.popped + 1 && w'.begun == w.begun && w'.lost == w.lost
  {
    FinishFlight(w.st, id, w.live[id], false, buf);
    FinishState(w.st, false, buf);
    assert Step(cfg, w, Completes(false, buf)) == Ended(w, Finish(w.st, false, buf).0, id, Finish(w.st, false, buf).1);
  }

  /** One call of the consumer. */
  function Call(cfg: Config, w: World, buf: seq<Byte>): World {
    Step(cfg, Step(cfg, w, Consumes), Completes(false, buf))
  }

  lemma TakeCloses(cfg: Config, w: World, buf: seq<Byte>)
    requires Closing(w, buf) && !Drained(w.st)
    ensures Closing(Step(cfg, w, Consumes), buf)
  {
    StepInv(cfg, w, Consumes);
    TakeMoves(w.st);
  }

  lemma FinishCloses(cfg: Config, w: World, buf: seq<Byte>)
    requires Closing(w, buf)
    ensures var w' := Step(cfg, w, Completes(false, buf));
      Closing(w', buf) && w'.st.held.None? && w'.st.cells == w.st.cells && w'.begun == w.begun && w'.lost == w.lost
      && w'.st.popped == if w.st.held.Some? then w.st.popped + 1 else w.st.popped
  {
    RoomyFits(w, buf);
    StepInv(cfg, w, Completes(false, buf));
    if w.st.held.Some? {
      HeldSettles(w);
      HeldFlight(w);
      FinishEnds(cfg, w, w.st.held.value.id, buf);
    }
  }

  /** No deadlock: when everything has arrived and the ring is not empty, one more
      call of the consumer pops a header and its payload. */
  lemma NeverStuck(cfg: Config, w: World, buf: seq<Byte>)
    requires Closing(w, buf) && !Drained(w.st)
    ensures var w' := Call(cfg, w, buf);
      Closing(w', buf) && w'.st.held.None? && w'.st.popped > w.st.popped
      && w'.st.cells == w.st.cells && w'.begun == w.begun && w'.lost == w.lost
  {
    TakeCloses(cfg, w, buf);
    TakeMoves(w.st);
    FinishCloses(cfg, Step(cfg, w, Consumes), buf);
  }

  function Calls(cfg: Config, w: World, buf: seq<Byte>, n: nat): World
    decreases n
  {
    if n == 0 then w else Calls(cfg, Call(cfg, w, buf), buf, n - 1)
  }

  lemma NotYet(w: World, buf: seq<Byte>)
    requires Closing(w, buf) && !Drained(w.st)
    ensures w.st.popped < |w.st.cells|
  {
  }

  lemma {:induction false} Idle(cfg: Config, w: World, buf: seq<Byte>, n: nat)
    requires Drained(w.st)
    ensures Calls(cfg, w, buf, n) == w
  {
    if n > 0 {
      Idle(cfg, w, buf, n - 1);
    }
  }

  /** The books are closed: the ring is empty and all of begun is output or lost. */
  ghost predicate Closed(w: World, begun: seq<Sent>, lost: set<nat>) {
    Honest(w) && Drained(w.st) && w.begun == begun && w.lost == lost && |w.log| + |lost| == |begun|
  }

  lemma DrainedIsClosed(cfg: Config, w: World, buf: seq<Byte>, n: nat)
    requires Closing(w, buf) && Drained(w.st)
    ensures Closed(Calls(cfg, w, buf, n), w.begun, w.lost)
  {
    Idle(cfg, w, buf, n);
    AllDelivered(w);
  }

  /** Once every byte has arrived, as many calls as there are cells left empty the ring
      and every datagram has been output but those lost before. */
  lemma {:induction false} CallsDeliver(cfg: Config, w: World, buf: seq<Byte>, n: nat)
    requires Closing(w, buf) && n >= |w.st.cells| - w.st.popped
    ensures Closed(Calls(cfg, w, buf, n), w.begun, w.lost)
    decreases n
  {
    if Drained(w.st) {
      DrainedIsClosed(cfg, w, buf, n);
    } else {
      NotYet(w, buf);
      NeverStuck(cfg, w, buf);
      CallsDeliver(cfg, Call(cfg, w, buf), buf, n - 1);
    }
  }
}
