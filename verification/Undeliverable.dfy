/** The datagrams no run delivers, whatever is lost, late, duplicated or timed out. */
module Undeliverable {
  import opened Wrappers
  import opened Checksum
  import opened Frames
  import opened Defrag
  import opened DefragInvariant
  import opened EndToEnd
  import F = Fragmentation

  /** The arrival brings no byte that could count: an empty datagram, or a first fragment
      that holds its UDP header only. Fragments after the first bring no length. */
  predicate Barren(a: Arrival) {
    a.offset == 0 ==> if a.more then U16(a.fragLen - 8) == 0 else U16(a.udpLen - 8) == 0
  }

  /** Every header of the id that tells a length counts no bytes. */
  predicate BarrenHeader(cells: seq<Cell>, id: nat, i: nat) {
    i < |cells| && cells[i].Header? && cells[i].meta.id == id && cells[i].meta.length != 0 ==>
      cells[i].meta.progress == 0
  }

  ghost predicate BarrenRing(cells: seq<Cell>, id: nat) {
    forall i: nat {:trigger BarrenHeader(cells, id, i)} :: BarrenHeader(cells, id, i)
  }

  lemma BarrenMore(cells: seq<Cell>, more: seq<Cell>, id: nat)
    requires BarrenRing(cells, id) && |more| <= 2
    requires forall i | 0 <= i < |more| && more[i].Header? && more[i].meta.id == id ::
      more[i].meta.length != 0 ==> more[i].meta.progress == 0
    ensures BarrenRing(cells + more, id)
  {
    forall i: nat ensures BarrenHeader(cells + more, id, i) {
      assert BarrenHeader(cells, id, i);
    }
  }

  lemma ReceiveBarren(cfg: Config, s: State, a: Arrival, tm: nat, stale: bool, push: Pushes, id: nat)
    requires a.id < |s.ids| && BarrenRing(s.cells, id) && (a.id == id ==> Barren(a))
    ensures BarrenRing(Receive(cfg, s, a, tm, stale, push).0.cells, id)
  {
    var cells' := Receive(cfg, s, a, tm, stale, push).0.cells;
    assert cells' == s.cells + cells'[|s.cells|..];
    BarrenMore(s.cells, cells'[|s.cells|..], id);
  }

  /** Every arrival under the id is barren. */
  predicate BarrenArrivals(events: seq<Event>, id: nat) {
    forall n | 0 <= n < |events| && events[n].Receives? && events[n].a.id == id :: Barren(events[n].a)
  }

  lemma {:induction false} RunBarren(cfg: Config, events: seq<Event>, id: nat)
    requires BarrenArrivals(events, id)
    ensures BarrenRing(Run(cfg, events).cells, id)
    decreases |events|
  {
    if events != [] {
      var n := |events| - 1;
      var s := Run(cfg, events[..n]);
      RunBarren(cfg, events[..n], id);
      if events[n].Receives? && events[n].a.id < |s.ids| {
        ReceiveBarren(cfg, s, events[n].a, events[n].tm, events[n].stale, events[n].push, id);
      }
    }
  }

  /** With such a ring the consumer gives up or waits for ever. */
  lemma BarrenIsNotDelivered(s: State, id: nat, timedOut: bool, buf: seq<Byte>)
    requires Inv(s) && BarrenRing(s.cells, id) && s.held.Some? && s.held.value.id == id
    ensures Finish(s, timedOut, buf).1 in {Waits, Ignored}
  {
    assert CellFramed(s, s.popped - 1) && BarrenHeader(s.cells, id, s.popped - 1);
    assert LiveHeader(s, s.popped - 1, id) && Recorded(s, id);
    var e := s.ids[id];
    if Defrag.Complete(e) {
      assert 0 in e.addr;
      assert RecordedPair(s, id, e, 0) && BarrenHeader(s.cells, id, e.addr[0].0);
    }
  }

  /** No run outputs anything under an id all of whose arrivals are barren. */
  lemma NeverDelivered(cfg: Config, events: seq<Event>, id: nat, timedOut: bool, buf: seq<Byte>)
    requires Disciplined(cfg, events) && !Run(cfg, events).broken && BarrenArrivals(events, id)
    ensures var s := Run(cfg, events);
      s.held.Some? && s.held.value.id == id ==> Finish(s, timedOut, buf).1 in {Waits, Ignored}
  {
    RunInv(cfg, events);
    RunBarren(cfg, events, id);
    if Run(cfg, events).held.Some? && Run(cfg, events).held.value.id == id {
      BarrenIsNotDelivered(Run(cfg, events), id, timedOut, buf);
    }
  }

  // ---- which datagrams they are -------------------------------------------

  predicate FitsTheField(payload: seq<Byte>) {
    |payload| + F.UDP_HDRLEN < 0x1_0000
  }

  /** Fragment k of the datagram as the receiver parses it. */
  function Fragment(snd: Sender, id: nat, payload: seq<Byte>, k: nat, padding: seq<Byte>): Arrival
    requires F.Usable(snd.mtu) && FitsTheField(payload) && k < |PiecesOf(snd, payload)| && |snd.ports| == 4
  {
    PieceEnds(|payload| + F.UDP_HDRLEN, snd.mtu, k);
    FirstHoldsHeader(|payload| + F.UDP_HDRLEN, snd.mtu, k);
    SentArrival(id, Datagram(snd, payload), PiecesOf(snd, payload)[k], padding)
  }

  lemma FirstFragment(snd: Sender, id: nat, payload: seq<Byte>, k: nat, padding: seq<Byte>)
    requires F.Usable(snd.mtu) && FitsTheField(payload) && k < |PiecesOf(snd, payload)| && |snd.ports| == 4
    ensures var a, total := Fragment(snd, id, payload, k, padding), |payload| + F.UDP_HDRLEN;
      && (a.offset == 0 <==> k == 0)
      && (k == 0 ==> a.udpLen == total && (a.more <==> total > F.MaxPayload(snd.mtu))
                     && a.fragLen == if a.more then F.MaxPayload(snd.mtu) else total)
  {
    var d := Datagram(snd, payload);
    FirstHoldsHeader(|payload| + F.UDP_HDRLEN, snd.mtu, k);
    assert d[4] == F.Be16(|d|)[0] && d[5] == F.Be16(|d|)[1];
    assert k == 0 ==> PiecesOf(snd, payload)[0] == F.PieceAt(|d|, snd.mtu, 0);
  }

  /** A first fragment counts no byte exactly when there is none or its room is used up. */
  lemma FirstIsBarren(a: Arrival, total: nat, room: nat)
    requires F.UDP_HDRLEN <= total < 0x1_0000 && F.UDP_HDRLEN <= room && a.offset == 0
    requires a.udpLen == total && (a.more <==> total > room) && a.fragLen == if a.more then room else total
    ensures Barren(a) <==> total == F.UDP_HDRLEN || room == F.UDP_HDRLEN
  {
  }

  lemma BarrenFragment(snd: Sender, id: nat, payload: seq<Byte>, k: nat, padding: seq<Byte>)
    requires F.Usable(snd.mtu) && FitsTheField(payload) && k < |PiecesOf(snd, payload)| && |snd.ports| == 4
    ensures Barren(Fragment(snd, id, payload, k, padding)) <==>
      k != 0 || payload == [] || F.MaxPayload(snd.mtu) == F.UDP_HDRLEN
  {
    FirstFragment(snd, id, payload, k, padding);
    if k == 0 {
      FirstIsBarren(Fragment(snd, id, payload, k, padding), |payload| + F.UDP_HDRLEN, F.MaxPayload(snd.mtu));
    }
  }

  /** All fragments of a datagram are barren exactly when its payload is empty or eight
      bytes are all a fragment holds. */
  lemma BarrenDatagrams(snd: Sender, id: nat, payload: seq<Byte>, padding: seq<Byte>)
    requires F.Usable(snd.mtu) && FitsTheField(payload) && |snd.ports| == 4
    ensures (forall k: nat | k < |PiecesOf(snd, payload)| :: Barren(Fragment(snd, id, payload, k, padding)))
       <==> payload == [] || F.MaxPayload(snd.mtu) == F.UDP_HDRLEN
  {
    F.Tiling(|payload| + F.UDP_HDRLEN, snd.mtu, 0);
    forall k: nat | k < |PiecesOf(snd, payload)|
      ensures Barren(Fragment(snd, id, payload, k, padding)) <==>
        k != 0 || payload == [] || F.MaxPayload(snd.mtu) == F.UDP_HDRLEN
    {
      BarrenFragment(snd, id, payload, k, padding);
    }
    var first := Fragment(snd, id, payload, 0, padding);
    assert !Barren(first) ==> payload != [] && F.MaxPayload(snd.mtu) != F.UDP_HDRLEN;
  }

  predicate ParsedFrom(
    cfg: Config, snd: Sender, id: nat, payload: seq<Byte>, a: Arrival, k: nat, link: seq<Byte>, padding: seq<Byte>)
    requires Compatible(cfg, snd) && FitsTheField(payload) && id < UDP_IDS_COUNT
  {
    k < |PiecesOf(snd, payload)| && IPv4Link(link) && cfg.mtu + |padding| < 0x1_0000
    && Parse(cfg.mtu, FrameOf(snd, id, payload, k, link, padding)) == Parsed(a)
  }

  /** The arrival is what the receiver parses from some frame of the datagram. */
  ghost predicate FrameArrives(cfg: Config, snd: Sender, id: nat, payload: seq<Byte>, a: Arrival)
    requires Compatible(cfg, snd) && FitsTheField(payload) && id < UDP_IDS_COUNT
  {
    exists k: nat, link: seq<Byte>, padding: seq<Byte> :: ParsedFrom(cfg, snd, id, payload, a, k, link, padding)
  }

  lemma FrameIsFragment(
    cfg: Config, snd: Sender, id: nat, payload: seq<Byte>, k: nat, link: seq<Byte>, padding: seq<Byte>)
    requires Compatible(cfg, snd) && FitsTheField(payload) && id < UDP_IDS_COUNT
    requires k < |PiecesOf(snd, payload)| && IPv4Link(link) && cfg.mtu + |padding| < 0x1_0000
    ensures Parse(cfg.mtu, FrameOf(snd, id, payload, k, link, padding))
         == Parsed(Fragment(snd, id, payload, k, padding))
  {
    var total := |payload| + F.UDP_HDRLEN;
    F.Tiling(total, snd.mtu, 0);
    PieceEnds(total, snd.mtu, k);
    FirstHoldsHeader(total, snd.mtu, k);
    TemplateFields(snd, id);
    ParseSent(cfg.mtu, snd.host, TemplateFor(snd, id), id, Datagram(snd, payload), PiecesOf(snd, payload)[k],
              link, padding);
  }

  /** The converse of fragment-then-reassemble: when the payload is empty or a fragment holds
      eight bytes, no run in which the frames of the datagram are all that arrives
      under its id outputs it; order, duplicates, other ids, late fragments, refused
      pushes and timeouts make no difference. */
  lemma NoRunDelivers(
    cfg: Config, snd: Sender, id: nat, payload: seq<Byte>, events: seq<Event>, timedOut: bool, buf: seq<Byte>)
    requires Compatible(cfg, snd) && FitsTheField(payload) && id < UDP_IDS_COUNT
    requires payload == [] || F.MaxPayload(snd.mtu) == F.UDP_HDRLEN
    requires Disciplined(cfg, events) && !Run(cfg, events).broken
    requires forall n | 0 <= n < |events| && events[n].Receives? && events[n].a.id == id ::
      FrameArrives(cfg, snd, id, payload, events[n].a)
    ensures var s := Run(cfg, events);
      s.held.Some? && s.held.value.id == id ==> Finish(s, timedOut, buf).1 in {Waits, Ignored}
  {
    forall n | 0 <= n < |events| && events[n].Receives? && events[n].a.id == id ensures Barren(events[n].a) {
      FrameIsBarren(cfg, snd, id, payload, events[n].a);
    }
    NeverDelivered(cfg, events, id, timedOut, buf);
  }

  lemma FrameIsBarren(cfg: Config, snd: Sender, id: nat, payload: seq<Byte>, a: Arrival)
    requires Compatible(cfg, snd) && FitsTheField(payload) && id < UDP_IDS_COUNT
    requires payload == [] || F.MaxPayload(snd.mtu) == F.UDP_HDRLEN
    requires FrameArrives(cfg, snd, id, payload, a)
    ensures Barren(a)
  {
    var k: nat, link: seq<Byte>, padding: seq<Byte> :| ParsedFrom(cfg, snd, id, payload, a, k, link, padding);
    FrameIsFragment(cfg, snd, id, payload, k, link, padding);
    BarrenDatagrams(snd, id, payload, padding);
    assert Barren(Fragment(snd, id, payload, k, padding));
  }
}
