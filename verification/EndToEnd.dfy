/** Sender and receiver together: the frames of any number of datagrams, each frame
    delivered once, in any order, interleaved with the consumer's calls. */
module EndToEnd {
  import opened Checksum
  import opened Ranges
  import opened Frames
  import opened Defrag
  import opened DefragInvariant
  import opened Reassembly
  import opened Delivery
  import F = Fragmentation
  import Bits

  /** A sending host: byte order, header template, UDP ports, MTU. */
  datatype Sender = Sender(host: Host, template: seq<Byte>, ports: seq<Byte>, mtu: nat)

  /** The sender's packets fit the receiver's MTU. */
  predicate Compatible(cfg: Config, snd: Sender) {
    && |snd.template| == F.IP_HDRLEN && snd.template[0] == 0x45 && snd.template[9] == 17 && |snd.ports| == 4
    && F.Usable(snd.mtu) && F.IP_HDRLEN + F.MaxPayload(snd.mtu) <= cfg.mtu < 0x1_0000
  }

  function PiecesOf(snd: Sender, payload: seq<Byte>): seq<F.Piece>
    requires F.Usable(snd.mtu)
  {
    F.Pieces(|payload| + F.UDP_HDRLEN, snd.mtu, 0)
  }

  /** At most ten fragments, and if there is a second one it does not start at byte 8. */
  predicate Sendable(snd: Sender, payload: seq<Byte>)
    requires F.Usable(snd.mtu)
  {
    && 0 < |payload| && |payload| + F.UDP_HDRLEN < 0x1_0000
    && |PiecesOf(snd, payload)| <= MAXIMUM_FRAGMENT_MADE
    && (|PiecesOf(snd, payload)| > 1 ==> F.MaxPayload(snd.mtu) > F.UDP_HDRLEN)
  }

  /** Whichever fragment after the first comes last, the capacity test lets it through: the
      second one is as long as any of them. */
  predicate HasRoom(cfg: Config, snd: Sender, payload: seq<Byte>)
    requires F.Usable(snd.mtu)
  {
    var ps := PiecesOf(snd, payload);
    |ps| > 1 ==> (|ps| - 2) * cfg.mtu + ps[1].len <= cfg.bufferSize
  }

  /** UDP header, with no checksum, and payload. */
  function Datagram(snd: Sender, payload: seq<Byte>): (d: seq<Byte>)
    requires |payload| + F.UDP_HDRLEN < 0x1_0000
  {
    snd.ports + F.Be16(|payload| + F.UDP_HDRLEN) + [0, 0] + payload
  }

  function TemplateFor(snd: Sender, id: nat): (t: seq<Byte>)
    requires |snd.template| == F.IP_HDRLEN && id < UDP_IDS_COUNT
    ensures |t| == F.IP_HDRLEN
  {
    Put(snd.template, 4, F.Be16(id))
  }

  /** The captured frame of fragment k. */
  function FrameOf(snd: Sender, id: nat, payload: seq<Byte>, k: nat, link: seq<Byte>, padding: seq<Byte>): seq<Byte>
    requires |snd.template| == F.IP_HDRLEN && id < UDP_IDS_COUNT && F.Usable(snd.mtu) && |snd.ports| == 4
    requires |payload| + F.UDP_HDRLEN < 0x1_0000 && k < |PiecesOf(snd, payload)|
    requires F.IP_HDRLEN + F.MaxPayload(snd.mtu) < 0x1_0000
  {
    F.Tiling(|payload| + F.UDP_HDRLEN, snd.mtu, 0);
    PieceEnds(|payload| + F.UDP_HDRLEN, snd.mtu, k);
    Framed(link, F.PacketOf(snd.host, TemplateFor(snd, id), Datagram(snd, payload), PiecesOf(snd, payload)[k]), padding)
  }

  lemma PieceEnds(total: nat, mtu: nat, k: nat)
    requires F.Usable(mtu) && k < |F.Pieces(total, mtu, 0)|
    ensures F.Pieces(total, mtu, 0)[k].End() <= total
  {
    F.Tiling(total, mtu, 0);
    if k + 1 < |F.Pieces(total, mtu, 0)| {
      F.Ordered(total, mtu, k, |F.Pieces(total, mtu, 0)| - 1);
    }
  }

  // ---- runs over the wire -----------------------------------------------

  /** A frame is tagged with the fragment it is; the receiver sees its bytes only. */
  datatype NetEvent =
    | Begin(id: nat, payload: seq<Byte>, whole: bool)
    | Frame(bytes: seq<Byte>, tm: nat, id: nat, k: nat, link: seq<Byte>, padding: seq<Byte>)
    | Consume
    | Complete(buf: seq<Byte>)

  /** got is history: the fragments of each id's current datagram delivered so far. */
  datatype Net = Net(w: World, got: map<nat, set<nat>>)

  function NetStep(cfg: Config, net: Net, ev: NetEvent): Net {
    match ev
    case Begin(id, payload, whole) => Net(Step(cfg, net.w, Begins(id, payload, whole)), net.got[id := {}])
    case Frame(bytes, tm, id, k, _, _) =>
      (match Parse(cfg.mtu, bytes)
       case BadStructure => net
       case Parsed(a) =>
         Net(Step(cfg, net.w, Arrives(a, tm, false, Both)),
             if id in net.got then net.got[id := net.got[id] + {k}] else net.got))
    case Consume => net.(w := Step(cfg, net.w, Consumes))
    case Complete(buf) => net.(w := Step(cfg, net.w, Completes(false, buf)))
  }

  /** Each frame is a fragment of its id's current datagram, not delivered before. */
  ghost predicate NetAllowed(cfg: Config, snd: Sender, net: Net, ev: NetEvent)
    requires Compatible(cfg, snd)
  {
    match ev
    case Begin(id, payload, whole) =>
      Allowed(cfg, net.w, Begins(id, payload, whole)) && Sendable(snd, payload) && HasRoom(cfg, snd, payload)
      && (whole <==> |PiecesOf(snd, payload)| == 1) && (id in net.w.live ==> net.w.live[id].done)
    case Frame(bytes, tm, id, k, link, padding) =>
      && id < UDP_IDS_COUNT && id in net.w.live && id in net.got && k !in net.got[id] && tm != 0
      && IPv4Link(link) && cfg.mtu + |padding| < 0x1_0000
      && var payload := net.w.live[id].payload;
         |payload| + F.UDP_HDRLEN < 0x1_0000 && k < |PiecesOf(snd, payload)|
         && bytes == FrameOf(snd, id, payload, k, link, padding)
    case Consume => true
    case Complete(buf) =>
      net.w.st.held.Some? && net.w.st.held.value.id in net.w.live ==>
        |net.w.live[net.w.st.held.value.id].payload| <= |buf|
  }

  function RunNet(cfg: Config, events: seq<NetEvent>): Net {
    if events == [] then Net(EmptyWorld(), map[])
    else NetStep(cfg, RunNet(cfg, events[..|events| - 1]), events[|events| - 1])
  }

  ghost predicate NetRun(cfg: Config, snd: Sender, events: seq<NetEvent>)
    requires Compatible(cfg, snd)
  {
    forall n | 0 <= n < |events| :: NetAllowed(cfg, snd, RunNet(cfg, events[..n]), events[n])
  }

  // ---- the invariant ----------------------------------------------------

  /** Byte x of the payload is in piece k. */
  predicate InPiece(ps: seq<F.Piece>, k: nat, x: nat) {
    k < |ps| && ps[k].start <= x + F.UDP_HDRLEN < ps[k].End()
  }

  predicate InSome(ps: seq<F.Piece>, g: set<nat>, x: nat) {
    exists k | k in g :: InPiece(ps, k, x)
  }

  /** The bytes that have arrived are those of the fragments delivered. */
  ghost predicate Accounts(snd: Sender, fl: Flight, g: set<nat>)
    requires F.Usable(snd.mtu)
  {
    && Sendable(snd, fl.payload)
    && (forall k | k in g :: k < |PiecesOf(snd, fl.payload)|)
    && (forall x: nat :: x in fl.covered <==> InSome(PiecesOf(snd, fl.payload), g, x))
    && fl.others == |g - {0}| && (fl.whole <==> |PiecesOf(snd, fl.payload)| == 1)
    && (fl.done ==> fl.covered == Between(0, |fl.payload|))
  }

  ghost predicate Accounted(snd: Sender, live: map<nat, Flight>, got: map<nat, set<nat>>)
    requires F.Usable(snd.mtu)
  {
    forall id | id in live :: id in got && Accounts(snd, live[id], got[id])
  }

  predicate AllHaveRoom(cfg: Config, snd: Sender, live: map<nat, Flight>)
    requires F.Usable(snd.mtu)
  {
    forall id | id in live :: HasRoom(cfg, snd, live[id].payload)
  }

  ghost predicate NetInv(snd: Sender, net: Net)
    requires F.Usable(snd.mtu)
  {
    WorldInv(net.w) && HoldsDirty(net.w.st) && net.w.lost == {} && Accounted(snd, net.w.live, net.got)
  }

  /** A byte of the payload is in exactly one piece. */
  lemma OnePiece(snd: Sender, payload: seq<Byte>, j: nat, k: nat, x: nat)
    requires F.Usable(snd.mtu) && InPiece(PiecesOf(snd, payload), j, x) && InPiece(PiecesOf(snd, payload), k, x)
    ensures j == k
  {
    if j < k {
      F.Ordered(|payload| + F.UDP_HDRLEN, snd.mtu, j, k);
    } else if k < j {
      F.Ordered(|payload| + F.UDP_HDRLEN, snd.mtu, k, j);
    }
  }

  /** What a piece is: where it starts, and that it holds payload. */
  lemma PieceShape(snd: Sender, payload: seq<Byte>, k: nat)
    requires F.Usable(snd.mtu) && Sendable(snd, payload) && k < |PiecesOf(snd, payload)|
    ensures var p := PiecesOf(snd, payload)[k];
      && p.start % 8 == 0 && 0 < p.len <= F.MaxPayload(snd.mtu) && p.End() <= |payload| + F.UDP_HDRLEN
      && (k == 0 <==> p.start == 0) && (k > 0 ==> p.start > F.UDP_HDRLEN) && (k == 0 ==> p.len > F.UDP_HDRLEN)
      && (p.End() == |payload| + F.UDP_HDRLEN <==> k + 1 == |PiecesOf(snd, payload)|)
  {
    var total := |payload| + F.UDP_HDRLEN;
    F.Tiling(total, snd.mtu, 0);
    PieceEnds(total, snd.mtu, k);
    var n := |PiecesOf(snd, payload)|;
    if k + 1 < n {
      F.Ordered(total, snd.mtu, k, n - 1);
    }
    if k > 0 {
      F.Ordered(total, snd.mtu, 0, k);
    }
  }

  function Sent(snd: Sender, id: nat, payload: seq<Byte>, k: nat, padding: seq<Byte>): Arrival
    requires F.Usable(snd.mtu) && Sendable(snd, payload) && k < |PiecesOf(snd, payload)| && |snd.ports| == 4
  {
    PieceShape(snd, payload, k);
    SentArrival(id, Datagram(snd, payload), PiecesOf(snd, payload)[k], padding)
  }

  /** The receiver reads from the sender's frame what the sender put in. */
  lemma FrameParses(cfg: Config, snd: Sender, id: nat, payload: seq<Byte>, k: nat, link: seq<Byte>, padding: seq<Byte>)
    requires Compatible(cfg, snd) && Sendable(snd, payload) && k < |PiecesOf(snd, payload)| && id < UDP_IDS_COUNT
    requires IPv4Link(link) && cfg.mtu + |padding| < 0x1_0000
    ensures Parse(cfg.mtu, FrameOf(snd, id, payload, k, link, padding)) == Parsed(Sent(snd, id, payload, k, padding))
  {
    PieceShape(snd, payload, k);
    TemplateFields(snd, id);
    ParseSent(cfg.mtu, snd.host, TemplateFor(snd, id), id, Datagram(snd, payload), PiecesOf(snd, payload)[k],
              link, padding);
  }

  lemma TemplateFields(snd: Sender, id: nat)
    requires |snd.template| == F.IP_HDRLEN && snd.template[0] == 0x45 && snd.template[9] == 17 && id < UDP_IDS_COUNT
    ensures UdpTemplate(TemplateFor(snd, id), id)
  {
    PutSlice(snd.template, 4, F.Be16(id), 0, 0);
  }

  lemma TailSlice(head: seq<Byte>, tail: seq<Byte>, i: nat, j: nat)
    requires |head| <= i <= j <= |head| + |tail|
    ensures (head + tail)[i..j] == tail[i - |head|..j - |head|]
  {
  }

  /** The fields of a sent fragment in terms of the payload. */
  lemma SentFields(snd: Sender, id: nat, payload: seq<Byte>, k: nat, padding: seq<Byte>)
    requires F.Usable(snd.mtu) && Sendable(snd, payload) && k < |PiecesOf(snd, payload)| && |snd.ports| == 4
    ensures var a, p := Sent(snd, id, payload, k, padding), PiecesOf(snd, payload)[k];
      var lo, hi := RangeStart(a), p.End() - F.UDP_HDRLEN;
      && a.id == id && a.offset == p.start && a.fragLen == p.len && (a.more <==> hi < |payload|)
      && (a.offset == 0 ==> a.udpLen == |payload| + F.UDP_HDRLEN)
      && lo < hi <= |payload| && hi - lo <= |a.body| && a.body[..hi - lo] == payload[lo..hi]
  {
    PieceShape(snd, payload, k);
    var d, p := Datagram(snd, payload), PiecesOf(snd, payload)[k];
    var head := snd.ports + F.Be16(|d|) + [0, 0];
    assert d == head + payload;
    TailSlice(head, payload, if p.start == 0 then F.UDP_HDRLEN else p.start, p.End());
    assert d[4] == F.Be16(|d|)[0] && d[5] == F.Be16(|d|)[1];
  }

  lemma RangeIs(fl: Flight, a: Arrival, lo: nat, hi: nat)
    requires lo < hi <= |fl.payload| && |fl.payload| + 8 < 0x1_0000
    requires a.offset == 0 || a.offset > 8
    requires lo == RangeStart(a) && (if a.offset == 0 then hi == a.fragLen - 8 else hi == lo + a.fragLen)
    requires a.more <==> hi < |fl.payload|
    ensures RangeEnd(fl, a) == hi
  {
  }

  lemma SentRange(snd: Sender, id: nat, fl: Flight, k: nat, padding: seq<Byte>, x: nat)
    requires F.Usable(snd.mtu) && Sendable(snd, fl.payload) && k < |PiecesOf(snd, fl.payload)| && |snd.ports| == 4
    ensures var a := Sent(snd, id, fl.payload, k, padding);
      && RangeEnd(fl, a) == PiecesOf(snd, fl.payload)[k].End() - F.UDP_HDRLEN
      && (RangeStart(a) <= x < RangeEnd(fl, a) <==> InPiece(PiecesOf(snd, fl.payload), k, x))
  {
    var a, p := Sent(snd, id, fl.payload, k, padding), PiecesOf(snd, fl.payload)[k];
    PieceShape(snd, fl.payload, k);
    SentFields(snd, id, fl.payload, k, padding);
    RangeIs(fl, a, RangeStart(a), p.End() - F.UDP_HDRLEN);
  }

  /** Bytes of a fragment not delivered have not arrived. */
  lemma StillMissing(snd: Sender, fl: Flight, g: set<nat>, k: nat, x: nat)
    requires F.Usable(snd.mtu) && Accounts(snd, fl, g) && k !in g && InPiece(PiecesOf(snd, fl.payload), k, x)
    ensures x !in fl.covered
  {
    if x in fl.covered {
      var j :| j in g && InPiece(PiecesOf(snd, fl.payload), j, x);
      OnePiece(snd, fl.payload, j, k, x);
    }
  }

  /** None of a fragment's bytes has arrived before it. */
  lemma SentIsNew(snd: Sender, id: nat, fl: Flight, g: set<nat>, k: nat, padding: seq<Byte>)
    requires F.Usable(snd.mtu) && |snd.ports| == 4 && Accounts(snd, fl, g) && k !in g && k < |PiecesOf(snd, fl.payload)|
    ensures var a := Sent(snd, id, fl.payload, k, padding);
      fl.covered !! Between(RangeStart(a), RangeEnd(fl, a)) && !fl.done
  {
    var ps, a := PiecesOf(snd, fl.payload), Sent(snd, id, fl.payload, k, padding);
    var lo, hi := RangeStart(a), RangeEnd(fl, a);
    forall x: nat | lo <= x < hi ensures x !in fl.covered {
      SentRange(snd, id, fl, k, padding, x);
      StillMissing(snd, fl, g, k, x);
    }
    SentFields(snd, id, fl.payload, k, padding);
    SentRange(snd, id, fl, k, padding, lo);
    StillMissing(snd, fl, g, k, lo);
  }

  lemma FitsFrom(fl: Flight, a: Arrival)
    requires RangeStart(a) < RangeEnd(fl, a) <= |fl.payload| && !fl.done
    requires var n := RangeEnd(fl, a) - RangeStart(a);
             n <= |a.body| && a.body[..n] == fl.payload[RangeStart(a)..RangeEnd(fl, a)]
    requires fl.covered !! Between(RangeStart(a), RangeEnd(fl, a))
    requires (fl.whole <==> a.offset == 0 && !a.more) && (a.offset == 0 ==> a.udpLen == |fl.payload| + 8)
    requires (a.more <==> RangeEnd(fl, a) < |fl.payload|) && (a.offset == 0 ==> RangeEnd(fl, a) + 8 == a.fragLen)
    ensures Fits(fl, a)
  {
  }

  lemma NewFits(snd: Sender, id: nat, fl: Flight, k: nat, padding: seq<Byte>)
    requires F.Usable(snd.mtu) && Sendable(snd, fl.payload) && k < |PiecesOf(snd, fl.payload)| && |snd.ports| == 4
    requires (fl.whole <==> |PiecesOf(snd, fl.payload)| == 1) && !fl.done
    requires var a := Sent(snd, id, fl.payload, k, padding); fl.covered !! Between(RangeStart(a), RangeEnd(fl, a))
    ensures Fits(fl, Sent(snd, id, fl.payload, k, padding))
  {
    var a, p := Sent(snd, id, fl.payload, k, padding), PiecesOf(snd, fl.payload)[k];
    PieceShape(snd, fl.payload, k);
    SentFields(snd, id, fl.payload, k, padding);
    RangeIs(fl, a, RangeStart(a), p.End() - F.UDP_HDRLEN);
    FitsFrom(fl, a);
  }

  /** A sent fragment that was not delivered fits the flight. */
  lemma SentFits(cfg: Config, snd: Sender, id: nat, fl: Flight, g: set<nat>, k: nat, padding: seq<Byte>)
    requires Compatible(cfg, snd) && Accounts(snd, fl, g) && k !in g && k < |PiecesOf(snd, fl.payload)|
    ensures Fits(fl, Sent(snd, id, fl.payload, k, padding))
  {
    SentIsNew(snd, id, fl, g, k, padding);
    NewFits(snd, id, fl, k, padding);
  }

  /** It has a place of the ten, and the receiver records it. */
  lemma SentIsRecorded(
    cfg: Config, snd: Sender, s: State, id: nat, fl: Flight, g: set<nat>, k: nat, padding: seq<Byte>, tm: nat)
    requires Compatible(cfg, snd) && Accounts(snd, fl, g) && k !in g && k < |PiecesOf(snd, fl.payload)|
    requires id < |s.ids| && EntryInv(s, id, fl, s.ids[id]) && !fl.done && HasRoom(cfg, snd, fl.payload)
    ensures var a := Sent(snd, id, fl.payload, k, padding);
      a.id == id && !Oversteps(cfg, s, a, false, Both) && Receive(cfg, s, a, tm, false, Both).1 == Ok
  {
    var a := Sent(snd, id, fl.payload, k, padding);
    PieceShape(snd, fl.payload, k);
    SentFields(snd, id, fl.payload, k, padding);
    if k > 0 {
      Few(g - {0}, k, |PiecesOf(snd, fl.payload)|);
      RoomForOne(cfg, snd, fl.payload, fl.others, k);
      assert s.ids[id].lastPos == fl.others;
    }
  }

  lemma RoomForOne(cfg: Config, snd: Sender, payload: seq<Byte>, others: nat, k: nat)
    requires F.Usable(snd.mtu) && HasRoom(cfg, snd, payload) && 0 < k < |PiecesOf(snd, payload)|
    requires others + 2 <= |PiecesOf(snd, payload)|
    ensures others * cfg.mtu + PiecesOf(snd, payload)[k].len <= cfg.bufferSize
  {
    SecondIsLongest(|payload| + F.UDP_HDRLEN, snd.mtu, k);
    Bits.MulOrder(others, |PiecesOf(snd, payload)| - 2, cfg.mtu);
  }

  lemma SecondIsLongest(total: nat, mtu: nat, k: nat)
    requires F.Usable(mtu) && 0 < k < |F.Pieces(total, mtu, 0)|
    ensures F.Pieces(total, mtu, 0)[k].len <= F.Pieces(total, mtu, 0)[1].len
  {
    F.Tiling(total, mtu, 0);
  }

  /** The room is needed: when the second fragment comes last it is refused without it. */
  lemma SecondNeedsRoom(cfg: Config, snd: Sender, s: State, id: nat, payload: seq<Byte>, padding: seq<Byte>, tm: nat)
    requires Compatible(cfg, snd) && Sendable(snd, payload) && |PiecesOf(snd, payload)| > 1
    requires id < |s.ids| && s.ids[id].lastPos == |PiecesOf(snd, payload)| - 2
    ensures Receive(cfg, s, Sent(snd, id, payload, 1, padding), tm, false, Both).1 == Ok <==> HasRoom(cfg, snd, payload)
  {
    PieceShape(snd, payload, 1);
    SentFields(snd, id, payload, 1, padding);
  }

  lemma CoveredMore(snd: Sender, id: nat, fl: Flight, g: set<nat>, k: nat, padding: seq<Byte>, at: nat, x: nat)
    requires F.Usable(snd.mtu) && |snd.ports| == 4 && Sendable(snd, fl.payload) && k < |PiecesOf(snd, fl.payload)|
    requires x in fl.covered <==> InSome(PiecesOf(snd, fl.payload), g, x)
    ensures x in Arrived(fl, Sent(snd, id, fl.payload, k, padding), at).covered
       <==> InSome(PiecesOf(snd, fl.payload), g + {k}, x)
  {
    var ps := PiecesOf(snd, fl.payload);
    SentRange(snd, id, fl, k, padding, x);
    if InPiece(ps, k, x) {
      assert k in g + {k};
    } else if InSome(ps, g, x) {
      var j :| j in g && InPiece(ps, j, x);
      assert j in g + {k};
    }
  }

  lemma AccountsMore(cfg: Config, snd: Sender, id: nat, fl: Flight, g: set<nat>, k: nat, padding: seq<Byte>, at: nat)
    requires Compatible(cfg, snd) && Accounts(snd, fl, g) && k !in g && k < |PiecesOf(snd, fl.payload)| && !fl.done
    ensures Accounts(snd, Arrived(fl, Sent(snd, id, fl.payload, k, padding), at), g + {k})
  {
    var ps, fl' := PiecesOf(snd, fl.payload), Arrived(fl, Sent(snd, id, fl.payload, k, padding), at);
    forall x: nat ensures x in fl'.covered <==> InSome(ps, g + {k}, x) {
      CoveredMore(snd, id, fl, g, k, padding, at, x);
    }
    PieceShape(snd, fl.payload, k);
    OneMore(g, k);
  }

  // ---- steps and runs ---------------------------------------------------

  /** A frame's effect is that of the fragment it carries, which is recorded. */
  lemma FrameEffect(cfg: Config, snd: Sender, net: Net, ev: NetEvent)
    requires Compatible(cfg, snd) && NetInv(snd, net) && ev.Frame? && NetAllowed(cfg, snd, net, ev)
    requires AllHaveRoom(cfg, snd, net.w.live)
    ensures var fl := net.w.live[ev.id]; var a := Sent(snd, ev.id, fl.payload, ev.k, ev.padding);
      && Accounts(snd, fl, net.got[ev.id]) && !fl.done && a.id == ev.id
      && Allowed(cfg, net.w, Arrives(a, ev.tm, false, Both))
      && Receive(cfg, net.w.st, a, ev.tm, false, Both).1 == Ok
  {
    var fl, g := net.w.live[ev.id], net.got[ev.id];
    assert Accounts(snd, fl, g) && FlightAt(net.w.st, net.w.live, ev.id);
    SentIsNew(snd, ev.id, fl, g, ev.k, ev.padding);
    SentFits(cfg, snd, ev.id, fl, g, ev.k, ev.padding);
    SentIsRecorded(cfg, snd, net.w.st, ev.id, fl, g, ev.k, ev.padding, ev.tm);
  }

  lemma FrameNext(cfg: Config, snd: Sender, net: Net, ev: NetEvent)
    requires Compatible(cfg, snd) && Accounted(snd, net.w.live, net.got) && ev.Frame? && NetAllowed(cfg, snd, net, ev)
    ensures var a := Sent(snd, ev.id, net.w.live[ev.id].payload, ev.k, ev.padding);
      NetStep(cfg, net, ev)
      == Net(Step(cfg, net.w, Arrives(a, ev.tm, false, Both)), net.got[ev.id := net.got[ev.id] + {ev.k}])
  {
    assert Accounts(snd, net.w.live[ev.id], net.got[ev.id]);
    FrameParses(cfg, snd, ev.id, net.w.live[ev.id].payload, ev.k, ev.link, ev.padding);
  }

  lemma FrameAccounted(cfg: Config, snd: Sender, live: map<nat, Flight>, got: map<nat, set<nat>>, id: nat, k: nat,
                       padding: seq<Byte>, at: nat)
    requires Compatible(cfg, snd) && Accounted(snd, live, got) && id in live && !live[id].done && k !in got[id]
    requires Sendable(snd, live[id].payload) && k < |PiecesOf(snd, live[id].payload)|
    ensures Accounted(snd, live[id := Arrived(live[id], Sent(snd, id, live[id].payload, k, padding), at)],
                      got[id := got[id] + {k}])
  {
    assert Accounts(snd, live[id], got[id]);
    AccountsMore(cfg, snd, id, live[id], got[id], k, padding, at);
  }

  /** What a recorded arrival does to the books. */
  lemma RecordedStep(cfg: Config, w: World, a: Arrival, tm: nat)
    requires a.id in w.live && a.id < |w.st.ids| && tm != 0 && HoldsDirty(w.st)
    requires Receive(cfg, w.st, a, tm, false, Both).1 == Ok
    ensures var w' := Step(cfg, w, Arrives(a, tm, false, Both));
      w'.live == w.live[a.id := Arrived(w.live[a.id], a, |w.st.cells|)] && w'.lost == w.lost
    ensures HoldsDirty(Step(cfg, w, Arrives(a, tm, false, Both)).st)
  {
  }

  lemma FrameStep(cfg: Config, snd: Sender, net: Net, ev: NetEvent)
    requires Compatible(cfg, snd) && NetInv(snd, net) && ev.Frame? && NetAllowed(cfg, snd, net, ev)
    requires AllHaveRoom(cfg, snd, net.w.live)
    ensures NetInv(snd, NetStep(cfg, net, ev))
  {
    FrameEffect(cfg, snd, net, ev);
    var a := Sent(snd, ev.id, net.w.live[ev.id].payload, ev.k, ev.padding);
    FrameNext(cfg, snd, net, ev);
    StepInv(cfg, net.w, Arrives(a, ev.tm, false, Both));
    RecordedStep(cfg, net.w, a, ev.tm);
    FrameAccounted(cfg, snd, net.w.live, net.got, ev.id, ev.k, ev.padding, |net.w.st.cells|);
  }

  /** A call that does not time out and has room waits or delivers. */
  lemma CompleteEffect(cfg: Config, w: World, buf: seq<Byte>)
    requires Inv(w.st) && Tracked(w.st, w.live)
    requires w.st.held.Some? && w.st.held.value.id in w.live ==> |w.live[w.st.held.value.id].payload| <= |buf|
    ensures var w' := Step(cfg, w, Completes(false, buf));
      && (w' == w || w'.st.held.None?) && w'.lost == w.lost && w'.live.Keys == w.live.Keys
      && forall id | id in w.live ::
           w'.live[id] == w.live[id] ||
           (w.live[id].covered == Between(0, |w.live[id].payload|) && w'.live[id] == w.live[id].(done := true))
  {
    if w.st.held.Some? {
      HeldFlight(w);
      FinishFlight(w.st, w.st.held.value.id, w.live[w.st.held.value.id], false, buf);
    }
  }

  lemma CompleteAccounted(snd: Sender, live: map<nat, Flight>, live': map<nat, Flight>, got: map<nat, set<nat>>)
    requires F.Usable(snd.mtu) && Accounted(snd, live, got) && live'.Keys == live.Keys
    requires forall id | id in live ::
      live'[id] == live[id] ||
      (live[id].covered == Between(0, |live[id].payload|) && live'[id] == live[id].(done := true))
    ensures Accounted(snd, live', got)
  {
    forall id | id in live' ensures id in got && Accounts(snd, live'[id], got[id]) {
      assert Accounts(snd, live[id], got[id]);
    }
  }

  lemma CompleteStep(cfg: Config, snd: Sender, net: Net, buf: seq<Byte>)
    requires Compatible(cfg, snd) && NetInv(snd, net) && NetAllowed(cfg, snd, net, Complete(buf))
    ensures NetInv(snd, NetStep(cfg, net, Complete(buf)))
  {
    CompleteEffect(cfg, net.w, buf);
    RoomyFits(net.w, buf);
    StepInv(cfg, net.w, Completes(false, buf));
    CompleteAccounted(snd, net.w.live, Step(cfg, net.w, Completes(false, buf)).live, net.got);
  }

  lemma BeginAccounted(snd: Sender, live: map<nat, Flight>, got: map<nat, set<nat>>, id: nat, fl: Flight)
    requires F.Usable(snd.mtu) && Accounted(snd, live, got) && Accounts(snd, fl, {})
    ensures Accounted(snd, live[id := fl], got[id := {}])
  {
  }

  lemma BeginStep(cfg: Config, snd: Sender, net: Net, ev: NetEvent)
    requires Compatible(cfg, snd) && NetInv(snd, net) && ev.Begin? && NetAllowed(cfg, snd, net, ev)
    ensures NetInv(snd, NetStep(cfg, net, ev))
  {
    StepInv(cfg, net.w, Begins(ev.id, ev.payload, ev.whole));
    BeginAccounted(snd, net.w.live, net.got, ev.id, Flight(ev.payload, ev.whole, |net.w.begun|, {}, 0, 0, false));
  }

  /** The payloads in flight change only when one begins. */
  lemma SamePayloads(cfg: Config, w: World, ev: WorldEvent)
    requires !ev.Begins?
    ensures var live' := Step(cfg, w, ev).live;
      live'.Keys == w.live.Keys && forall id | id in w.live :: live'[id].payload == w.live[id].payload
  {
  }

  lemma RoomStep(cfg: Config, snd: Sender, net: Net, ev: NetEvent)
    requires Compatible(cfg, snd) && NetAllowed(cfg, snd, net, ev) && AllHaveRoom(cfg, snd, net.w.live)
    ensures AllHaveRoom(cfg, snd, NetStep(cfg, net, ev).w.live)
  {
    match ev
    case Begin(_, _, _) =>
    case Frame(bytes, tm, _, _, _, _) =>
      if Parse(cfg.mtu, bytes).Parsed? {
        SamePayloads(cfg, net.w, Arrives(Parse(cfg.mtu, bytes).arrival, tm, false, Both));
      }
    case Consume => SamePayloads(cfg, net.w, Consumes);
    case Complete(buf) => SamePayloads(cfg, net.w, Completes(false, buf));
  }

  lemma NetStepInv(cfg: Config, snd: Sender, net: Net, ev: NetEvent)
    requires Compatible(cfg, snd) && NetInv(snd, net) && NetAllowed(cfg, snd, net, ev)
    requires AllHaveRoom(cfg, snd, net.w.live)
    ensures NetInv(snd, NetStep(cfg, net, ev))
  {
    match ev
    case Begin(_, _, _) => BeginStep(cfg, snd, net, ev);
    case Frame(_, _, _, _, _, _) => FrameStep(cfg, snd, net, ev);
    case Consume => StepInv(cfg, net.w, Consumes);
    case Complete(buf) => CompleteStep(cfg, snd, net, buf);
  }

  lemma NetInit(snd: Sender)
    requires F.Usable(snd.mtu)
    ensures NetInv(snd, Net(EmptyWorld(), map[]))
  {
    InitWorld();
  }

  lemma EarlierNetRun(cfg: Config, snd: Sender, events: seq<NetEvent>)
    requires Compatible(cfg, snd) && NetRun(cfg, snd, events) && events != []
    ensures var n := |events| - 1;
      NetRun(cfg, snd, events[..n]) && NetAllowed(cfg, snd, RunNet(cfg, events[..n]), events[n])
  {
    var n := |events| - 1;
    assert forall k | 0 <= k < n :: events[..n][..k] == events[..k];
  }

  lemma {:induction false} NetRunInv(cfg: Config, snd: Sender, events: seq<NetEvent>)
    requires Compatible(cfg, snd) && NetRun(cfg, snd, events)
    ensures NetInv(snd, RunNet(cfg, events)) && AllHaveRoom(cfg, snd, RunNet(cfg, events).w.live)
    decreases |events|
  {
    if events == [] {
      NetInit(snd);
    } else {
      var n := |events| - 1;
      EarlierNetRun(cfg, snd, events);
      NetRunInv(cfg, snd, events[..n]);
      NetStepInv(cfg, snd, RunNet(cfg, events[..n]), events[n]);
      RoomStep(cfg, snd, RunNet(cfg, events[..n]), events[n]);
    }
  }

  /** Every fragment of every datagram begun and not yet output has been delivered. */
  ghost predicate AllDeliveredOnce(snd: Sender, net: Net)
    requires F.Usable(snd.mtu)
  {
    forall id | id in net.w.live && id in net.got && !net.w.live[id].done ::
      forall k: nat | k < |PiecesOf(snd, net.w.live[id].payload)| :: k in net.got[id]
  }

  lemma AllPiecesCover(snd: Sender, fl: Flight, g: set<nat>)
    requires F.Usable(snd.mtu) && Accounts(snd, fl, g)
    requires forall k: nat | k < |PiecesOf(snd, fl.payload)| :: k in g
    ensures fl.covered == Between(0, |fl.payload|)
  {
    var ps, total := PiecesOf(snd, fl.payload), |fl.payload| + F.UDP_HDRLEN;
    forall x: nat ensures x in fl.covered <==> x < |fl.payload| {
      if x < |fl.payload| {
        var k := F.PieceOf(total, snd.mtu, 0, x + F.UDP_HDRLEN);
        assert k in g && InPiece(ps, k, x);
      } else if x in fl.covered {
        var k :| k in g && InPiece(ps, k, x);
        PieceShape(snd, fl.payload, k);
      }
    }
  }

  /** What the receiver sees of an event: a frame's bytes, parsed, or a call. */
  function Seen(cfg: Config, ev: NetEvent): (r: seq<Event>)
    ensures |r| <= 1
  {
    match ev
    case Begin(_, _, _) => []
    case Frame(bytes, tm, _, _, _, _) =>
      (match Parse(cfg.mtu, bytes)
       case BadStructure => []
       case Parsed(a) => [Receives(a, tm, false, Both)])
    case Consume => [Takes]
    case Complete(buf) => [Finishes(false, buf)]
  }

  function SeenRun(cfg: Config, events: seq<NetEvent>): seq<Event> {
    if events == [] then []
    else SeenRun(cfg, events[..|events| - 1]) + Seen(cfg, events[|events| - 1])
  }

  lemma NetStepIsReceivers(cfg: Config, snd: Sender, net: Net, ev: NetEvent)
    requires Compatible(cfg, snd) && NetInv(snd, net) && NetAllowed(cfg, snd, net, ev)
    requires AllHaveRoom(cfg, snd, net.w.live)
    ensures var w' := NetStep(cfg, net, ev).w;
      w'.st == After(cfg, net.w.st, Seen(cfg, ev))
      && BytesOf(w'.log) == BytesOf(net.w.log) + Delivers(net.w.st, Seen(cfg, ev))
  {
    match ev
    case Begin(id, payload, whole) => StepIsReceivers(cfg, net.w, Begins(id, payload, whole));
    case Frame(_, _, _, _, _, _) => FrameIsReceivers(cfg, snd, net, ev);
    case Consume => StepIsReceivers(cfg, net.w, Consumes);
    case Complete(buf) =>
      RoomyFits(net.w, buf);
      StepIsReceivers(cfg, net.w, Completes(false, buf));
  }

  lemma FrameIsReceivers(cfg: Config, snd: Sender, net: Net, ev: NetEvent)
    requires Compatible(cfg, snd) && NetInv(snd, net) && NetAllowed(cfg, snd, net, ev) && ev.Frame?
    requires AllHaveRoom(cfg, snd, net.w.live)
    ensures var w' := NetStep(cfg, net, ev).w;
      w'.st == After(cfg, net.w.st, Seen(cfg, ev))
      && BytesOf(w'.log) == BytesOf(net.w.log) + Delivers(net.w.st, Seen(cfg, ev))
  {
    var payload := net.w.live[ev.id].payload;
    FrameEffect(cfg, snd, net, ev);
    FrameNext(cfg, snd, net, ev);
    FrameParses(cfg, snd, ev.id, payload, ev.k, ev.link, ev.padding);
    StepIsReceivers(cfg, net.w, Arrives(Sent(snd, ev.id, payload, ev.k, ev.padding), ev.tm, false, Both));
  }

  /** The receiver sees bytes only: its state is that of the parser and the reassembler on
      the frames' bytes, and the outputs compared with the payloads are what it delivered. */
  lemma {:induction false} NetIsReceiver(cfg: Config, snd: Sender, events: seq<NetEvent>)
    requires Compatible(cfg, snd) && NetRun(cfg, snd, events)
    ensures RunNet(cfg, events).w.st == Run(cfg, SeenRun(cfg, events))
    ensures BytesOf(RunNet(cfg, events).w.log) == Outputs(cfg, SeenRun(cfg, events))
    decreases |events|
  {
    if events != [] {
      var n := |events| - 1;
      EarlierNetRun(cfg, snd, events);
      NetIsReceiver(cfg, snd, events[..n]);
      NetRunInv(cfg, snd, events[..n]);
      NetStepIsReceivers(cfg, snd, RunNet(cfg, events[..n]), events[n]);
      RunOneMore(cfg, SeenRun(cfg, events[..n]), Seen(cfg, events[n]));
    }
  }

  /** Fragment, then reassemble, is the identity: whatever datagrams the sender cuts into at
      most ten fragments, in whatever order and interleaving their frames arrive, no
      frame twice, every output is the payload of its datagram byte for byte and no
      datagram is output twice; and once all frames have arrived, calling the consumer
      until the ring is empty has output every datagram. */
  lemma FragmentThenReassemble(cfg: Config, snd: Sender, events: seq<NetEvent>, buf: seq<Byte>)
    requires Compatible(cfg, snd) && NetRun(cfg, snd, events)
    ensures TrueLog(RunNet(cfg, events).w)
    ensures var w := RunNet(cfg, events).w; AllDeliveredOnce(snd, RunNet(cfg, events)) && Roomy(w, buf) ==>
      var w' := Calls(cfg, w, buf, |w.st.cells|); TrueLog(w') && w'.begun == w.begun && |w'.log| == |w.begun|
  {
    NetRunInv(cfg, snd, events);
    var net := RunNet(cfg, events);
    HonestLog(net.w);
    if AllDeliveredOnce(snd, net) && Roomy(net.w, buf) {
      AllGotArrived(snd, net);
      CallsDeliver(cfg, net.w, buf, |net.w.st.cells|);
      HonestLog(Calls(cfg, net.w, buf, |net.w.st.cells|));
    }
  }

  lemma AllGotArrived(snd: Sender, net: Net)
    requires F.Usable(snd.mtu) && NetInv(snd, net) && AllDeliveredOnce(snd, net)
    ensures AllArrived(net.w)
  {
    forall id | id in net.w.live && !net.w.live[id].done
      ensures net.w.live[id].covered == Between(0, |net.w.live[id].payload|)
    {
      AllPiecesCover(snd, net.w.live[id], net.got[id]);
    }
  }

  /** One datagram: its fragments in any permutation give exactly its payload, once. */
  lemma OneDatagram(cfg: Config, snd: Sender, events: seq<NetEvent>, id: nat, payload: seq<Byte>, buf: seq<Byte>)
    requires Compatible(cfg, snd) && NetRun(cfg, snd, events) && |payload| <= |buf|
    requires RunNet(cfg, events).w.begun == [Delivery.Sent(id, payload)]
    requires AllDeliveredOnce(snd, RunNet(cfg, events))
    ensures var w := RunNet(cfg, events).w; Calls(cfg, w, buf, |w.st.cells|).log == [Output(0, payload)]
  {
    NetRunInv(cfg, snd, events);
    var net := RunNet(cfg, events);
    AllGotArrived(snd, net);
    OneLive(net.w, id, payload, buf);
    CallsDeliver(cfg, net.w, buf, |net.w.st.cells|);
    OneOutput(Calls(cfg, net.w, buf, |net.w.st.cells|), id, payload);
  }

  lemma OneLive(w: World, id: nat, payload: seq<Byte>, buf: seq<Byte>)
    requires Honest(w) && w.begun == [Delivery.Sent(id, payload)] && |payload| <= |buf|
    ensures Roomy(w, buf)
  {
    forall x | x in w.live ensures |w.live[x].payload| <= |buf| {
      assert Known(w, x);
    }
  }

  lemma OneOutput(w: World, id: nat, payload: seq<Byte>)
    requires Honest(w) && w.begun == [Delivery.Sent(id, payload)] && |w.log| == 1
    ensures w.log == [Output(0, payload)]
  {
    assert TrueOutput(w, 0);
  }

  // ---- where the identity ends ------------------------------------------

  /** The receiver records fragment k of the datagram, the ring having room. */
  predicate Accepts(cfg: Config, s: State, id: nat, dgram: seq<Byte>, mtu: nat, k: nat, tm: nat, stale: bool)
    requires id < |s.ids| && F.Usable(mtu) && |dgram| >= F.UDP_HDRLEN && k < |F.Pieces(|dgram|, mtu, 0)|
  {
    F.Tiling(|dgram|, mtu, 0);
    PieceEnds(|dgram|, mtu, k);
    FirstHoldsHeader(|dgram|, mtu, k);
    Receive(cfg, s, SentArrival(id, dgram, F.Pieces(|dgram|, mtu, 0)[k], []), tm, stale, Both).1 == Ok
  }

  lemma FirstHoldsHeader(total: nat, mtu: nat, k: nat)
    requires F.Usable(mtu) && total >= F.UDP_HDRLEN && k < |F.Pieces(total, mtu, 0)|
    ensures var p := F.Pieces(total, mtu, 0)[k]; p.start == 0 ==> k == 0 && p.len >= F.UDP_HDRLEN
  {
    F.Tiling(total, mtu, 0);
    if k > 0 {
      F.Ordered(total, mtu, 0, k);
    }
  }

  lemma TakenUnlessAtEight(cfg: Config, s: State, a: Arrival, tm: nat, stale: bool)
    requires a.id < |s.ids| && s.ids[a.id].lastPos * cfg.mtu + a.fragLen <= cfg.bufferSize && a.offset % 8 == 0
    ensures Receive(cfg, s, a, tm, stale, Both).1 == Ok <==> a.offset != F.UDP_HDRLEN
  {
  }

  /** A fragment is taken unless it starts at byte 8. */
  lemma AcceptsOne(cfg: Config, s: State, id: nat, dgram: seq<Byte>, mtu: nat, k: nat, tm: nat, stale: bool)
    requires id < |s.ids| && F.Usable(mtu) && |dgram| >= F.UDP_HDRLEN && k < |F.Pieces(|dgram|, mtu, 0)|
    requires s.ids[id].lastPos * cfg.mtu + F.MaxPayload(mtu) <= cfg.bufferSize
    ensures Accepts(cfg, s, id, dgram, mtu, k, tm, stale) <==> F.Pieces(|dgram|, mtu, 0)[k].start != F.UDP_HDRLEN
  {
    F.Tiling(|dgram|, mtu, 0);
    PieceEnds(|dgram|, mtu, k);
    FirstHoldsHeader(|dgram|, mtu, k);
    TakenUnlessAtEight(cfg, s, SentArrival(id, dgram, F.Pieces(|dgram|, mtu, 0)[k], []), tm, stale);
  }

  /** A fragment starts at byte 8 exactly when it is the second and the first is full with 8. */
  lemma StartsAtEight(total: nat, mtu: nat, k: nat)
    requires F.Usable(mtu) && total >= F.UDP_HDRLEN && k < |F.Pieces(total, mtu, 0)|
    ensures F.Pieces(total, mtu, 0)[k].start == F.UDP_HDRLEN <==> k == 1 && F.MaxPayload(mtu) == F.UDP_HDRLEN
  {
    F.Tiling(total, mtu, 0);
    if k > 1 {
      F.Ordered(total, mtu, 1, k);
    }
  }

  /** There is a second fragment exactly when the first cannot hold all. */
  lemma SecondPiece(total: nat, mtu: nat)
    requires F.Usable(mtu) && 0 < total
    ensures |F.Pieces(total, mtu, 0)| > 1 <==> total > F.MaxPayload(mtu)
  {
    F.Tiling(total, mtu, 0);
    assert F.Pieces(total, mtu, 0)[0] == F.PieceAt(total, mtu, 0);
  }

  /** The receiver takes every fragment of a datagram exactly when none starts at byte
      8, which is when a fragment holds more than eight bytes or one is enough. */
  lemma AcceptsAll(cfg: Config, s: State, id: nat, dgram: seq<Byte>, mtu: nat, tm: nat, stale: bool)
    requires id < |s.ids| && F.Usable(mtu) && |dgram| >= F.UDP_HDRLEN
    requires s.ids[id].lastPos * cfg.mtu + F.MaxPayload(mtu) <= cfg.bufferSize
    ensures (forall k: nat | k < |F.Pieces(|dgram|, mtu, 0)| :: Accepts(cfg, s, id, dgram, mtu, k, tm, stale))
       <==> F.MaxPayload(mtu) > F.UDP_HDRLEN || |dgram| == F.UDP_HDRLEN
  {
    var ps := F.Pieces(|dgram|, mtu, 0);
    forall k: nat | k < |ps|
      ensures Accepts(cfg, s, id, dgram, mtu, k, tm, stale) <==> !(k == 1 && F.MaxPayload(mtu) == F.UDP_HDRLEN)
    {
      AcceptsOne(cfg, s, id, dgram, mtu, k, tm, stale);
      StartsAtEight(|dgram|, mtu, k);
    }
    SecondPiece(|dgram|, mtu);
    if F.MaxPayload(mtu) == F.UDP_HDRLEN && |dgram| > F.UDP_HDRLEN {
      assert !Accepts(cfg, s, id, dgram, mtu, 1, tm, stale);
    }
  }

  /** A datagram that comes whole into an empty ring is delivered exactly when its
      payload is not empty: the consumer reads a length of zero as not known yet. */
  lemma WholeDeliveredIffNotEmpty(
    cfg: Config, s: State, a: Arrival, tm: nat, stale: bool, timedOut: bool, buf: seq<Byte>)
    requires a.id < |s.ids| && a.offset == 0 && !a.more && tm != 0 && Drained(s)
    requires U16(a.udpLen - 8) <= |buf|
    ensures var s1 := TakeHeader(Receive(cfg, s, a, tm, stale, Both).0);
      s1.held.Some? && (Finish(s1, timedOut, buf).1.Delivered? <==> U16(a.udpLen - 8) != 0)
  {
    var s0 := Receive(cfg, s, a, tm, stale, Both).0;
    assert s0.cells[s.popped].Header? && s0.cells[s.popped + 1].Payload?;
  }
}
