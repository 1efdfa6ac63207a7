/** Whole runs over the store of copies: RAM segments, the public file stack and the
    private file queues. A popped segment belongs to the thread that popped it, so its
    copy is not sent between the three steps of archiving; other copies may be. */
module PacketRuns {
  import opened Wrappers
  import G = Gateway
  import opened PacketLife

  datatype Place = Ram | PubFile | PrivFile

  /** Marked: rewritten for the file, about to be published. Published: the file copy
      exists, the original is about to be rewritten. */
  datatype Phase = Idle | Marked | Published

  datatype Slot = Slot(copy: Copy, place: Place, live: bool, phase: Phase)

  /** accepted packets are numbered; sent counts payload writes by packet. */
  datatype State = State(slots: seq<Slot>, accepted: nat, sent: multiset<nat>)

  datatype Event =
    | Accepts(skip: bool, stored: bool)
    | SendsFromRam(i: nat, w: World)
    | Marks(i: nat)
    | Publishes(i: nat, answer: Status)
    | Settles(i: nat)
    | Relays(i: nat, blocked: bool, pressure: bool, w: World, publish: Status, gate: G.Gate)
    | Releases(i: nat)

  const START := State([], 0, multiset{})

  predicate Ready(s: State, i: nat) {
    i < |s.slots| && s.slots[i].live && s.slots[i].phase.Idle?
  }

  predicate Phased(s: State, i: nat, phase: Phase) {
    i < |s.slots| && s.slots[i].live && s.slots[i].phase == phase
  }

  function Counted(sent: multiset<nat>, pkt: nat, n: nat): multiset<nat> {
    sent[pkt := sent[pkt] + n]
  }

  function Fresh(pkt: nat): Slot {
    Slot(Copy(pkt, OnL2Ram, OnL1Cache, 0), Ram, true, Idle)
  }

  function Next(s: State, ev: Event): State {
    match ev
    case Accepts(skip, stored) =>
      if skip || !stored then s else s.(slots := s.slots + [Fresh(s.accepted)], accepted := s.accepted + 1)
    case SendsFromRam(i, w) =>
      if Ready(s, i) && s.slots[i].place.Ram? then
        var r := SendItem(s.slots[i].copy, w);
        s.(slots := s.slots[i := s.slots[i].(copy := r.copy)], sent := Counted(s.sent, r.copy.pkt, r.sends))
      else s
    case Marks(i) =>
      if Ready(s, i) && s.slots[i].place.Ram? && s.slots[i].copy.state.OnL2Ram? then
        var c := s.slots[i].copy;
        s.(slots := s.slots[i := s.slots[i].(copy := c.(prev := c.state, state := ReplicatedOnPub), phase := Marked)])
      else s
    case Publishes(i, answer) =>
      if !Phased(s, i, Marked) then s
      else if answer == Ok then
        s.(slots := s.slots[i := s.slots[i].(phase := Published)] + [Slot(s.slots[i].copy, PubFile, true, Idle)])
      else s.(slots := s.slots[i := s.slots[i].(phase := Idle)])
    case Settles(i) =>
      if Phased(s, i, Published) then
        s.(slots := s.slots[i := s.slots[i].(copy := s.slots[i].copy.(state := OriginalRemainOnRam), phase := Idle)])
      else s
    case Relays(i, blocked, pressure, w, publish, gate) =>
      if Ready(s, i) && !s.slots[i].place.Ram? && !blocked then
        var r := Discharge(s.slots[i].copy, pressure, w, publish);
        var slot := s.slots[i].(copy := r.copy, live := !Drops(Relay(r.err, gate)));
        State(s.slots[i := slot] + (if r.made.Some? then [Slot(r.made.value, PrivFile, true, Idle)] else []),
              s.accepted, Counted(s.sent, r.copy.pkt, r.sends))
      else s
    case Releases(i) =>
      if Ready(s, i) && s.slots[i].place.Ram? then s.(slots := s.slots[i := s.slots[i].(live := false)]) else s
  }

  function Run(events: seq<Event>): State
    decreases |events|
  {
    if events == [] then START else Next(Run(events[..|events| - 1]), events[|events| - 1])
  }

  /** The three steps of archiving are store_segment_item. */
  lemma ArchiveIsStoreItem(s: State, i: nat, answer: Status)
    requires Ready(s, i) && s.slots[i].place.Ram?
    ensures var r := StoreItem(s.slots[i].copy, answer);
      Next(Next(Next(s, Marks(i)), Publishes(i, answer)), Settles(i)).slots
      == s.slots[i := s.slots[i].(copy := r.copy)]
         + (if r.made.Some? then [Slot(r.made.value, PubFile, true, Idle)] else [])
  {
    var s1 := Next(s, Marks(i));
    var s2 := Next(s1, Publishes(i, answer));
    var r := StoreItem(s.slots[i].copy, answer);
    assert s.slots[i].copy.state.OnL2Ram? && answer == Ok ==> s2.slots[i].copy == r.made.value;
  }

  // ---- counting rights to send ------------------------------------------

  /** A copy can cause a delivery of p: it is there, sendable, and has not handed its
      right to a copy in the file. */
  function Right(slot: Slot, p: nat): nat {
    if slot.live && slot.copy.pkt == p && !slot.phase.Published? then Weight(slot.copy.state) else 0
  }

  function Rights(slots: seq<Slot>, p: nat): nat {
    if slots == [] then 0 else Rights(slots[..|slots| - 1], p) + Right(slots[|slots| - 1], p)
  }

  lemma {:induction false} RightsUpdate(slots: seq<Slot>, i: nat, slot: Slot, p: nat)
    requires i < |slots|
    ensures Rights(slots[i := slot], p) == Rights(slots, p) - Right(slots[i], p) + Right(slot, p)
  {
    var n := |slots| - 1;
    if i < n {
      RightsUpdate(slots[..n], i, slot, p);
      assert slots[i := slot][..n] == slots[..n][i := slot];
    } else {
      assert slots[i := slot][..n] == slots[..n];
    }
  }

  lemma RightsAppend(slots: seq<Slot>, slot: Slot, p: nat)
    ensures Rights(slots + [slot], p) == Rights(slots, p) + Right(slot, p)
  {
    assert (slots + [slot])[..|slots|] == slots;
  }

  lemma {:induction false} NoneYet(slots: seq<Slot>, accepted: nat, p: nat)
    requires (forall i | 0 <= i < |slots| :: slots[i].copy.pkt < accepted) && p >= accepted
    ensures Rights(slots, p) == 0
  {
    if slots != [] {
      NoneYet(slots[..|slots| - 1], accepted, p);
    }
  }

  /** Copies that can cause a delivery of p, and deliveries of p so far. */
  function Tokens(s: State, p: nat): nat {
    Rights(s.slots, p) + s.sent[p]
  }

  predicate Numbered(s: State) {
    (forall i | 0 <= i < |s.slots| :: s.slots[i].copy.pkt < s.accepted) && forall p | p in s.sent :: p < s.accepted
  }

  /** A discharge of a copy of p whose payload write was followed by a newline that found
      no peer, the remap succeeding: the one step that makes a second right. */
  predicate Doubles(s: State, ev: Event, p: nat) {
    && ev.Relays? && Ready(s, ev.i) && s.slots[ev.i].copy.pkt == p && !s.slots[ev.i].place.Ram?
    && !ev.blocked && !ev.pressure && ev.publish == Ok
    && SentButNoPeer(SendItem(s.slots[ev.i].copy.(prev := s.slots[ev.i].copy.state), ev.w))
  }

  /** A step that discards a copy of p which could still be sent. */
  predicate Discards(s: State, ev: Event, p: nat) {
    (ev.Releases? && Ready(s, ev.i) && s.slots[ev.i].place.Ram? && Right(s.slots[ev.i], p) > 0)
    || (ev.Relays? && Ready(s, ev.i) && !s.slots[ev.i].place.Ram? && !ev.blocked &&
        var r := Discharge(s.slots[ev.i].copy, ev.pressure, ev.w, ev.publish);
        r.copy.pkt == p && Drops(Relay(r.err, ev.gate)) && Sendable(r.copy.state))
  }

  function Entering(s: State, ev: Event, p: nat): nat {
    if ev.Accepts? && !ev.skip && ev.stored && s.accepted == p then 1 else 0
  }

  lemma RelayTokens(s: State, ev: Event, p: nat)
    requires ev.Relays? && Ready(s, ev.i) && !s.slots[ev.i].place.Ram? && !ev.blocked && !Doubles(s, ev, p)
    ensures Tokens(Next(s, ev), p) <= Tokens(s, p)
    ensures !Discards(s, ev, p) ==> Tokens(Next(s, ev), p) == Tokens(s, p)
  {
    var i, c := ev.i, s.slots[ev.i].copy;
    var r := Discharge(c, ev.pressure, ev.w, ev.publish);
    var slot := s.slots[i].(copy := r.copy, live := !Drops(Relay(r.err, ev.gate)));
    DischargeMovesTheToken(c, ev.pressure, ev.w, ev.publish);
    RightsUpdate(s.slots, i, slot, p);
    if r.made.Some? {
      RightsAppend(s.slots[i := slot], Slot(r.made.value, PrivFile, true, Idle), p);
    } else {
      assert s.slots[i := slot] + [] == s.slots[i := slot];
    }
  }

  lemma ArchiveTokens(s: State, ev: Event, p: nat)
    requires ev.Marks? || ev.Publishes? || ev.Settles?
    ensures Tokens(Next(s, ev), p) == Tokens(s, p)
  {
    if ev.i < |s.slots| {
      var s' := Next(s, ev);
      if ev.Publishes? && Phased(s, ev.i, Marked) && ev.answer == Ok {
        PublishTokens(s.slots, ev.i, p);
      } else {
        RightsUpdate(s.slots, ev.i, s'.slots[ev.i], p);
        assert s'.slots == s.slots[ev.i := s'.slots[ev.i]];
      }
    }
  }

  /** Publishing hands the right to the copy in the file. */
  lemma PublishTokens(slots: seq<Slot>, i: nat, p: nat)
    requires i < |slots| && slots[i].live && slots[i].phase.Marked?
    ensures Rights(slots[i := slots[i].(phase := Published)] + [Slot(slots[i].copy, PubFile, true, Idle)], p)
         == Rights(slots, p)
  {
    RightsUpdate(slots, i, slots[i].(phase := Published), p);
    RightsAppend(slots[i := slots[i].(phase := Published)], Slot(slots[i].copy, PubFile, true, Idle), p);
  }

  /** Every step but one kind keeps, for every packet, the sum of rights and deliveries:
      accepting a packet starts it at one, discarding a sendable copy lowers it. */
  lemma StepTokens(s: State, ev: Event, p: nat)
    requires !Doubles(s, ev, p)
    ensures Tokens(Next(s, ev), p) <= Tokens(s, p) + Entering(s, ev, p)
    ensures !Discards(s, ev, p) ==> Tokens(Next(s, ev), p) == Tokens(s, p) + Entering(s, ev, p)
  {
    match ev
    case Accepts(_, _) => RightsAppend(s.slots, Fresh(s.accepted), p);
    case SendsFromRam(i, w) =>
      if Ready(s, i) && s.slots[i].place.Ram? {
        SendMovesTheToken(s.slots[i].copy, w);
        RightsUpdate(s.slots, i, s.slots[i].(copy := SendItem(s.slots[i].copy, w).copy), p);
      }
    case Marks(_) => ArchiveTokens(s, ev, p);
    case Publishes(_, _) => ArchiveTokens(s, ev, p);
    case Settles(_) => ArchiveTokens(s, ev, p);
    case Relays(i, blocked, _, _, _, _) =>
      if Ready(s, i) && !s.slots[i].place.Ram? && !blocked {
        RelayTokens(s, ev, p);
      }
    case Releases(i) =>
      if i < |s.slots| {
        RightsUpdate(s.slots, i, s.slots[i].(live := false), p);
      }
  }

  lemma StepNumbered(s: State, ev: Event)
    requires Numbered(s)
    ensures Numbered(Next(s, ev))
  {
    if ev.SendsFromRam? && Ready(s, ev.i) {
      SendMovesTheToken(s.slots[ev.i].copy, ev.w);
    } else if ev.Relays? && Ready(s, ev.i) {
      DischargeMovesTheToken(s.slots[ev.i].copy, ev.pressure, ev.w, ev.publish);
    }
  }

  // ---- at most once -----------------------------------------------------

  /** Packets outside post go to outputs that are not set to "post enter". */
  ghost predicate Routed(s: State, ev: Event, post: set<nat>) {
    && (ev.SendsFromRam? && Ready(s, ev.i) && s.slots[ev.i].copy.pkt !in post ==> PlainOutputs(ev.w))
    && (ev.Relays? && Ready(s, ev.i) && s.slots[ev.i].copy.pkt !in post ==> PlainOutputs(ev.w))
  }

  ghost predicate RoutedRun(events: seq<Event>, post: set<nat>) {
    forall n | 0 <= n < |events| :: Routed(Run(events[..n]), events[n], post)
  }

  predicate AtMostOne(events: seq<Event>, p: nat) {
    Tokens(Run(events), p) <= 1
  }

  lemma RoutedPrefix(events: seq<Event>, post: set<nat>)
    requires events != [] && RoutedRun(events, post)
    ensures RoutedRun(events[..|events| - 1], post)
    ensures Routed(Run(events[..|events| - 1]), events[|events| - 1], post)
  {
    var n := |events| - 1;
    assert forall k | 0 <= k < n :: events[..n][..k] == events[..k] && events[..n][k] == events[k];
    assert Routed(Run(events[..n]), events[n], post);
  }

  lemma PlainNeverDoubles(s: State, ev: Event, post: set<nat>, p: nat)
    requires Routed(s, ev, post) && p !in post
    ensures !Doubles(s, ev, p)
  {
    if Doubles(s, ev, p) {
      PlainIsNeverBoth(s.slots[ev.i].copy.(prev := s.slots[ev.i].copy.state), ev.w);
    }
  }

  lemma {:induction false} AtMostOnceForPlain(events: seq<Event>, post: set<nat>, p: nat)
    requires RoutedRun(events, post) && p !in post
    ensures Numbered(Run(events)) && AtMostOne(events, p)
    decreases |events|
  {
    if events != [] {
      var n := |events| - 1;
      var s := Run(events[..n]);
      RoutedPrefix(events, post);
      AtMostOnceForPlain(events[..n], post, p);
      PlainNeverDoubles(s, events[n], post, p);
      StepTokens(s, events[n], p);
      StepNumbered(s, events[n]);
      if Entering(s, events[n], p) > 0 {
        NoneYet(s.slots, s.accepted, p);
      }
    }
  }

  // ---- never none, while nothing sendable is discarded -------------------

  ghost predicate NothingDiscarded(events: seq<Event>, p: nat) {
    forall n | 0 <= n < |events| :: !Discards(Run(events[..n]), events[n], p)
  }

  lemma KeptPrefix(events: seq<Event>, p: nat)
    requires events != [] && NothingDiscarded(events, p)
    ensures NothingDiscarded(events[..|events| - 1], p)
    ensures !Discards(Run(events[..|events| - 1]), events[|events| - 1], p)
  {
    var n := |events| - 1;
    assert forall k | 0 <= k < n :: events[..n][..k] == events[..k] && events[..n][k] == events[k];
    assert !Discards(Run(events[..n]), events[n], p);
  }

  /** Exactly one: for every accepted packet not routed to a "post enter" output, in every run
      that discards no sendable copy of it, it has been delivered once and no copy can
      deliver it again, or it has not been delivered and exactly one copy can. */
  lemma {:induction false} ExactlyOneRight(events: seq<Event>, post: set<nat>, p: nat)
    requires RoutedRun(events, post) && p !in post && NothingDiscarded(events, p)
    ensures Tokens(Run(events), p) == if p < Run(events).accepted then 1 else 0
    decreases |events|
  {
    if events != [] {
      var n := |events| - 1;
      var s := Run(events[..n]);
      RoutedPrefix(events, post);
      KeptPrefix(events, p);
      ExactlyOneRight(events[..n], post, p);
      PlainNeverDoubles(s, events[n], post, p);
      StepTokens(s, events[n], p);
    }
  }

  // ---- where it fails ---------------------------------------------------

  /** p + 1 packets are accepted. */
  function Arrivals(n: nat): seq<Event> {
    if n == 0 then [] else Arrivals(n - 1) + [Accepts(false, true)]
  }

  lemma {:induction false} RunArrivals(n: nat)
    ensures var s := Run(Arrivals(n));
      s.accepted == |s.slots| == n && s.sent == multiset{} && (n > 0 ==> s.slots[n - 1] == Fresh(n - 1))
  {
    if n > 0 {
      RunArrivals(n - 1);
      RunMore(Arrivals(n - 1), Accepts(false, true));
    }
  }

  lemma RunMore(events: seq<Event>, ev: Event)
    ensures Run(events + [ev]) == Next(Run(events), ev)
  {
    assert (events + [ev])[..|events|] == events;
  }

  /** A cached route on which the payload is written and the newline finds no peer. */
  const NEWLINE_LOST := World(false, false, 1, Some(Written(Ok, Some(NoPeer))), true, true, [])
  const NEWLINE_KEPT := World(false, false, 2, Some(Written(Ok, Some(Ok))), true, true, [])

  /** Archive packet p, discharge the copy with the newline lost, then discharge the
      copy the remap made. */
  function TwiceDelivered(p: nat): seq<Event> {
    Arrivals(p + 1) + [Marks(p)] + [Publishes(p, Ok)] + [Settles(p)]
    + [Relays(p + 1, false, false, NEWLINE_LOST, Ok, G.Open)] + [Relays(p + 2, false, false, NEWLINE_KEPT, Ok, G.Open)]
  }

  lemma OneMore(events: seq<Event>, ev: Event, post: set<nat>)
    requires RoutedRun(events, post) && Routed(Run(events), ev, post)
    ensures RoutedRun(events + [ev], post) && Run(events + [ev]) == Next(Run(events), ev)
  {
    var more := events + [ev];
    RunMore(events, ev);
    forall n | 0 <= n < |more| ensures Routed(Run(more[..n]), more[n], post) {
      if n < |events| {
        assert more[..n] == events[..n];
      } else {
        assert more[..n] == events;
      }
    }
  }

  lemma {:induction false} ArrivalsRouted(n: nat, post: set<nat>)
    ensures RoutedRun(Arrivals(n), post)
  {
    if n > 0 {
      ArrivalsRouted(n - 1, post);
      OneMore(Arrivals(n - 1), Accepts(false, true), post);
    }
  }

  /** The last of p + 1 packets just accepted, archived. */
  function Archive(s: State, p: nat): State {
    Next(Next(Next(s, Marks(p)), Publishes(p, Ok)), Settles(p))
  }

  lemma ArchivedShape(s: State, p: nat)
    requires |s.slots| == p + 1 && s.slots[p] == Fresh(p)
    ensures var s' := Archive(s, p); |s'.slots| == p + 2 && s'.sent == s.sent
    ensures Archive(s, p).slots[p + 1] == Slot(Copy(p, ReplicatedOnPub, OnL2Ram, 0), PubFile, true, Idle)
  {
  }

  lemma ArchivedRun(p: nat, post: set<nat>) returns (events: seq<Event>)
    ensures events == Arrivals(p + 1) + [Marks(p)] + [Publishes(p, Ok)] + [Settles(p)] && RoutedRun(events, post)
    ensures Run(events) == Archive(Run(Arrivals(p + 1)), p)
  {
    events := Arrivals(p + 1);
    ArrivalsRouted(p + 1, post);
    OneMore(events, Marks(p), post);
    OneMore(events + [Marks(p)], Publishes(p, Ok), post);
    OneMore(events + [Marks(p)] + [Publishes(p, Ok)], Settles(p), post);
    events := events + [Marks(p)] + [Publishes(p, Ok)] + [Settles(p)];
  }

  lemma LostShape(s: State, p: nat)
    requires |s.slots| == p + 2 && s.sent == multiset{}
    requires s.slots[p + 1] == Slot(Copy(p, ReplicatedOnPub, OnL2Ram, 0), PubFile, true, Idle)
    ensures var s' := Next(s, Relays(p + 1, false, false, NEWLINE_LOST, Ok, G.Open));
      |s'.slots| == p + 3 && s'.sent == multiset{p} && Ready(s', p + 2) && s'.slots[p + 2].place.PrivFile?
      && s'.slots[p + 2].copy == Copy(p, ReplicatedOnPriv, Sent, 1)
  {
  }

  lemma KeptShape(s: State, p: nat)
    requires |s.slots| == p + 3 && s.sent == multiset{p} && Ready(s, p + 2) && s.slots[p + 2].place.PrivFile?
    requires s.slots[p + 2].copy == Copy(p, ReplicatedOnPriv, Sent, 1)
    ensures Next(s, Relays(p + 2, false, false, NEWLINE_KEPT, Ok, G.Open)).sent[p] == 2
  {
  }

  /** A packet for a "post enter" output can be delivered twice. */
  lemma DeliveredTwice(p: nat, post: set<nat>)
    requires p in post
    ensures RoutedRun(TwiceDelivered(p), post) && Run(TwiceDelivered(p)).sent[p] == 2
  {
    var lost := Relays(p + 1, false, false, NEWLINE_LOST, Ok, G.Open);
    var kept := Relays(p + 2, false, false, NEWLINE_KEPT, Ok, G.Open);
    var events := ArchivedRun(p, post);
    RunArrivals(p + 1);
    ArchivedShape(Run(Arrivals(p + 1)), p);
    LostShape(Run(events), p);
    OneMore(events, lost, post);
    KeptShape(Run(events + [lost]), p);
    OneMore(events + [lost], kept, post);
  }

  /** At-most-once delivery: over all runs that respect the routing, the copies of a
      packet that can still be sent and its payload writes are together at most one,
      exactly when the packet is not for a "post enter" output. */
  lemma AtMostOnce(p: nat, post: set<nat>)
    ensures p !in post <==> forall events: seq<Event> | RoutedRun(events, post) :: AtMostOne(events, p)
  {
    if p in post {
      DeliveredTwice(p, post);
      assert !AtMostOne(TwiceDelivered(p), p);
    } else {
      forall events: seq<Event> | RoutedRun(events, post) ensures AtMostOne(events, p) {
        AtMostOnceForPlain(events, post, p);
      }
    }
  }
}
