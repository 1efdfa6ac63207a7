/** What every event on the store of copies does, and that no accepted packet is stranded:
    as long as nothing sendable is thrown away, an undelivered packet can be delivered. */
module PacketProgress {
  import opened Wrappers
  import G = Gateway
  import opened PacketLife
  import PacketCases
  import opened PacketRuns

  /** A copy on RAM that no one is archiving, a copy in a file. */
  predicate OnRam(s: State, i: nat) { Ready(s, i) && s.slots[i].place.Ram? }
  predicate OnFile(s: State, i: nat) { Ready(s, i) && !s.slots[i].place.Ram? }

  /** The payload writes of p an event makes: those of the one send it stands for. */
  function Writes(s: State, ev: Event, p: nat): nat {
    match ev
    case SendsFromRam(i, w) =>
      if OnRam(s, i) && s.slots[i].copy.pkt == p then SendItem(s.slots[i].copy, w).sends else 0
    case Relays(i, blocked, pressure, w, publish, _) =>
      if OnFile(s, i) && !blocked && s.slots[i].copy.pkt == p then
        Discharge(s.slots[i].copy, pressure, w, publish).sends
      else 0
    case _ => 0
  }

  lemma WritesAreCounted(s: State, ev: Event, p: nat)
    ensures Next(s, ev).sent[p] == s.sent[p] + Writes(s, ev, p)
  {
    if ev.SendsFromRam? && OnRam(s, ev.i) {
      SendMovesTheToken(s.slots[ev.i].copy, ev.w);
    } else if ev.Relays? && OnFile(s, ev.i) {
      DischargeMovesTheToken(s.slots[ev.i].copy, ev.pressure, ev.w, ev.publish);
    }
  }

  /** The copy is released with its segment, or the file stack is told to drop it. */
  predicate Dropped(s: State, ev: Event, i: nat)
    requires i < |s.slots|
  {
    || (ev == Releases(i) && OnRam(s, i))
    || (ev.Relays? && ev.i == i && OnFile(s, i) && !ev.blocked
        && Drops(Relay(Discharge(s.slots[i].copy, ev.pressure, ev.w, ev.publish).err, ev.gate)))
  }

  function PlaceOfNew(ev: Event): Place {
    if ev.Accepts? then Ram else if ev.Publishes? then PubFile else PrivFile
  }

  /** Each event touches one copy at most: what becomes of it, and which copies are new. */
  lemma CopiesAfter(s: State, ev: Event, i: nat)
    requires i < |s.slots|
    ensures var s', slot := Next(s, ev), s.slots[i];
      |s.slots| <= |s'.slots| <= |s.slots| + 1 && var slot' := s'.slots[i];
      && slot'.place == slot.place
      && (slot'.live <==> slot.live && !Dropped(s, ev, i))
      && (slot'.copy != slot.copy ==>
            (ev.SendsFromRam? && ev.i == i && OnRam(s, i)) || (ev.Marks? && ev.i == i && OnRam(s, i))
            || (ev.Settles? && ev.i == i && Phased(s, i, Published)) || (ev.Relays? && ev.i == i && OnFile(s, i)))
  {
  }

  lemma NewCopies(s: State, ev: Event)
    ensures var s', n := Next(s, ev), |s.slots|;
      && (|s'.slots| == n + 1 <==>
            ev == Accepts(false, true) || (ev.Publishes? && Phased(s, ev.i, Marked) && ev.answer == Ok)
            || (ev.Relays? && OnFile(s, ev.i) && !ev.blocked
                && Discharge(s.slots[ev.i].copy, ev.pressure, ev.w, ev.publish).made.Some?))
      && (|s'.slots| == n + 1 ==> s'.slots[n].live && s'.slots[n].phase.Idle? && s'.slots[n].place == PlaceOfNew(ev))
      && (s'.accepted == s.accepted + if ev == Accepts(false, true) then 1 else 0)
  {
  }

  // ---- no packet is stranded --------------------------------------------

  /** A route that takes the payload, at a moment no cool-down forbids. */
  const GOOD := World(false, false, 0, Some(Written(Ok, None)), true, true, [])

  lemma GoodRouteSends(c: Copy)
    requires Sendable(c.state)
    ensures var r := SendItem(c, GOOD); r.sends == 1 && r.err == Ok && r.copy.pkt == c.pkt
  {
    PacketCases.WritesIff(c, GOOD);
    SendMovesTheToken(c, GOOD);
  }

  lemma {:induction false} SomeRight(slots: seq<Slot>, p: nat) returns (i: nat)
    requires Rights(slots, p) > 0
    ensures i < |slots| && Right(slots[i], p) > 0
  {
    var n := |slots| - 1;
    if Right(slots[n], p) > 0 {
      i := n;
    } else {
      i := SomeRight(slots[..n], p);
    }
  }

  /** The event that sends a copy with a right. */
  function Sends(s: State, i: nat): Event
    requires i < |s.slots|
  {
    if s.slots[i].place.Ram? then SendsFromRam(i, GOOD) else Relays(i, false, false, GOOD, Ok, G.Open)
  }

  lemma ReadyIsSent(s: State, i: nat, p: nat)
    requires Ready(s, i) && Right(s.slots[i], p) > 0
    ensures Next(s, Sends(s, i)).sent[p] == s.sent[p] + 1
  {
    var c := s.slots[i].copy;
    GoodRouteSends(c);
    GoodRouteSends(c.(prev := c.state));
    WritesAreCounted(s, Sends(s, i), p);
  }

  /** A copy marked for the file is free again once storage refuses it. */
  lemma MarkedIsFreed(s: State, i: nat, p: nat)
    requires i < |s.slots| && Right(s.slots[i], p) > 0 && s.slots[i].phase.Marked?
    ensures var s' := Next(s, Publishes(i, Timeout));
      Ready(s', i) && Right(s'.slots[i], p) > 0 && s'.sent == s.sent
  {
  }

  /** No accepted packet is stranded: in every run that discards no sendable copy of it, a
      packet off "post enter" outputs that is not delivered yet can be, by one send, after
      an archive attempt at most that is under way. */
  lemma NeverStranded(events: seq<Event>, post: set<nat>, p: nat) returns (more: seq<Event>)
    requires RoutedRun(events, post) && p !in post && NothingDiscarded(events, p)
    requires p < Run(events).accepted && Run(events).sent[p] == 0
    ensures |more| <= 2 && Run(events + more).sent[p] == 1
  {
    var s := Run(events);
    ExactlyOneRight(events, post, p);
    var i := SomeRight(s.slots, p);
    if s.slots[i].phase.Marked? {
      MarkedIsFreed(s, i, p);
      var freed := events + [Publishes(i, Timeout)];
      RunMore(events, Publishes(i, Timeout));
      ReadyIsSent(Run(freed), i, p);
      RunMore(freed, Sends(Run(freed), i));
      more := [Publishes(i, Timeout), Sends(Run(freed), i)];
      assert events + more == freed + [Sends(Run(freed), i)];
    } else {
      ReadyIsSent(s, i, p);
      RunMore(events, Sends(s, i));
      more := [Sends(s, i)];
    }
  }
}
