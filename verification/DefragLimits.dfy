/** Where the reassembler's guarantees end: runs that write outside or read what is not
    theirs, and exactly when there are such runs. */
module DefragLimits {
  import opened Wrappers
  import opened Checksum
  import opened Frames
  import opened Defrag
  import opened DefragInvariant
  import opened DefragCases

  // ---- the eleventh fragment --------------------------------------------

  /** One empty fragment at offset 16, again and again. */
  function Same(): Event {
    Receives(Arrival(0, 16, true, 0, 0, []), 1, false, Both)
  }

  /** A frame that carries it: link and IP header with offset 16, more to come, no byte. */
  function SameFrame(): (frame: seq<Byte>)
    ensures |frame| == 34
  {
    seq(34, i requires 0 <= i < 34 =>
      if i == 12 then 8 else if i == 14 then 0x45 else if i == 20 then 0x20 else if i == 21 then 2
      else if i == 23 then 17 else 0)
  }

  lemma SameArrives(maxTotal: nat)
    ensures Parse(maxTotal, SameFrame()) == Parsed(Same().a)
  {
    var frame := SameFrame();
    assert ByteAt(frame, 14) == 0x45 && WordAt(frame, 16) == 0 && WordAt(frame, 20) == 0x2002;
    assert From(frame, 34) == [];
  }

  /** n of them recorded under id 0. */
  predicate Filled(s: State, n: nat) {
    |s.ids| == UDP_IDS_COUNT && s.ids[0].lastPos == n && s.ids[0].length == 0 && s.ids[0].progress == 0
    && (n > 0 ==> Dirty(s.ids[0]))
  }

  lemma SameFills(cfg: Config, s: State, n: nat)
    requires 9 * cfg.mtu <= cfg.bufferSize && n <= 9 && Filled(s, n)
    ensures var s' := Next(cfg, s, Same()); Filled(s', n + 1) && (s'.broken <==> s.broken || n == 9)
    ensures Harmless(cfg, s, Same().a, false, Both)
  {
    assert n * cfg.mtu <= 9 * cfg.mtu;
  }

  lemma RunMore(cfg: Config, events: seq<Event>, ev: Event)
    ensures Run(cfg, events + [ev]) == Next(cfg, Run(cfg, events), ev)
  {
    assert (events + [ev])[..|events|] == events;
  }

  lemma DisciplinedMore(cfg: Config, events: seq<Event>, ev: Event)
    requires Disciplined(cfg, events)
    requires ev.Receives? ==> ev.tm != 0 && ev.a.id < UDP_IDS_COUNT == |Run(cfg, events).ids|
                              && Harmless(cfg, Run(cfg, events), ev.a, ev.stale, ev.push)
    ensures Disciplined(cfg, events + [ev])
  {
    var more := events + [ev];
    forall n: nat | n < |more| ensures HarmlessAt(cfg, more, n) {
      assert more[..n] == if n < |events| then events[..n] else events;
      assert n < |events| ==> HarmlessAt(cfg, events, n);
    }
  }

  /** The run records n of them, and the tenth breaks it. */
  ghost predicate FilledBy(cfg: Config, events: seq<Event>, n: nat) {
    Disciplined(cfg, events) && Filled(Run(cfg, events), n) && (Run(cfg, events).broken <==> n == 10)
  }

  lemma SameRun(cfg: Config, events: seq<Event>, n: nat)
    requires 9 * cfg.mtu <= cfg.bufferSize && n <= 9 && FilledBy(cfg, events, n)
    ensures FilledBy(cfg, events + [Same()], n + 1)
  {
    SameFills(cfg, Run(cfg, events), n);
    DisciplinedMore(cfg, events, Same());
    RunMore(cfg, events, Same());
  }

  lemma NoneFilled(cfg: Config)
    ensures FilledBy(cfg, [], 0)
  {
    assert Run(cfg, []) == EmptyState();
  }

  /** Same, n times over. */
  lemma {:induction false} SamesRun(cfg: Config, n: nat) returns (events: seq<Event>)
    requires 9 * cfg.mtu <= cfg.bufferSize && n <= 10
    ensures FilledBy(cfg, events, n) && events == seq(n, _ => Same())
  {
    if n == 0 {
      events := [];
      NoneFilled(cfg);
    } else {
      var before := SamesRun(cfg, n - 1);
      events := before + [Same()];
      SameRun(cfg, before, n - 1);
    }
  }

  lemma NinePlacesFill(cfg: Config, s: State, a: Arrival, stale: bool, push: Pushes)
    requires a.id < |s.ids| && s.ids[a.id].lastPos < MAXIMUM_FRAGMENT_MADE && 9 * cfg.mtu > cfg.bufferSize
    ensures !Oversteps(cfg, s, a, stale, push)
  {
    assert s.ids[a.id].lastPos >= 9 ==> s.ids[a.id].lastPos * cfg.mtu >= 9 * cfg.mtu;
  }

  // ---- the payload longer than the buffer -------------------------------

  /** A whole packet whose UDP length is one less than the UDP header's: the payload
      length is the largest there is. */
  function Longest(): Event {
    Receives(Arrival(0, 0, false, 8, 7, []), 1, false, Both)
  }

  /** A frame that carries it: link, IP and UDP header. */
  function LongestFrame(): (frame: seq<Byte>)
    ensures |frame| == 42
  {
    seq(42, i requires 0 <= i < 42 =>
      if i == 12 then 8 else if i == 14 then 0x45 else if i == 17 then 28 else if i == 23 then 17
      else if i == 39 then 7 else 0)
  }

  lemma LongestArrives(maxTotal: nat)
    requires maxTotal >= 28
    ensures Parse(maxTotal, LongestFrame()) == Parsed(Longest().a)
  {
    var frame := LongestFrame();
    assert ByteAt(frame, 14) == 0x45 && WordAt(frame, 16) == 28 && WordAt(frame, 20) == 0 && WordAt(frame, 38) == 7;
    assert From(frame, 42) == [];
  }

  /** After it the consumer's call writes past every buffer that is shorter. */
  lemma LongestRun(cfg: Config, buf: seq<Byte>) returns (events: seq<Event>)
    requires |buf| < 0xFFFF
    ensures Disciplined(cfg, events) && Run(cfg, events).broken && BuffersOf(events, |buf|)
  {
    var none: seq<Event> := [];
    NoneFilled(cfg);
    var s0 := Run(cfg, none);
    assert Harmless(cfg, s0, Longest().a, false, Both);
    DisciplinedMore(cfg, none, Longest());
    RunMore(cfg, none, Longest());
    var one := none + [Longest()];
    DisciplinedMore(cfg, one, Takes);
    RunMore(cfg, one, Takes);
    var two := one + [Takes];
    DisciplinedMore(cfg, two, Finishes(false, buf));
    RunMore(cfg, two, Finishes(false, buf));
    events := two + [Finishes(false, buf)];
    LongestOverruns(cfg, s0, buf);
  }

  lemma LongestOverruns(cfg: Config, s: State, buf: seq<Byte>)
    requires |s.ids| == UDP_IDS_COUNT && s.cells == [] && s.popped == 0 && s.held.None? && |buf| < 0xFFFF
    ensures Next(cfg, Next(cfg, Next(cfg, s, Longest()), Takes), Finishes(false, buf)).broken
  {
    var s1 := Next(cfg, s, Longest());
    assert |s1.cells| == 2 && s1.cells[0] == Header(Meta(0, 0, 0xFFFF, 0xFFFF, 1));
    assert s1.ids[0] == Entry(map[], 0, 0xFFFF, 0xFFFF, 1);
    var s2 := Next(cfg, s1, Takes);
    assert s2.held == Some(Meta(0, 0, 0xFFFF, 0xFFFF, 1)) && s2.popped == 1;
    assert Overruns(s2, buf);
  }

  /** A payload behind a whole packet's header is as long as the header says. */
  predicate PairAt(cells: seq<Cell>, i: nat) {
    i + 1 < |cells| && cells[i].Header? && IsWhole(cells[i].meta) && cells[i + 1].Payload? ==>
      |cells[i + 1].bytes| <= 0xFFFF
  }

  ghost predicate WholePairs(cells: seq<Cell>) {
    forall i: nat {:trigger PairAt(cells, i)} | i < |cells| :: PairAt(cells, i)
  }

  lemma ReceivePairs(cfg: Config, s: State, a: Arrival, tm: nat, stale: bool, push: Pushes)
    requires a.id < |s.ids| && WholePairs(s.cells)
    ensures WholePairs(Receive(cfg, s, a, tm, stale, push).0.cells)
  {
    var cells' := Receive(cfg, s, a, tm, stale, push).0.cells;
    forall i: nat | i < |cells'| ensures PairAt(cells', i) {
      assert i < |s.cells| ==> PairAt(s.cells, i) && cells'[i] == s.cells[i];
    }
  }

  lemma {:induction false} RunPairs(cfg: Config, events: seq<Event>)
    ensures WholePairs(Run(cfg, events).cells)
    decreases |events|
  {
    if events != [] {
      var n := |events| - 1;
      RunPairs(cfg, events[..n]);
      var s := Run(cfg, events[..n]);
      if events[n].Receives? && events[n].a.id < |s.ids| {
        ReceivePairs(cfg, s, events[n].a, events[n].tm, events[n].stale, events[n].push);
      }
    }
  }

  predicate BuffersOf(events: seq<Event>, room: nat) {
    forall n | 0 <= n < |events| && events[n].Finishes? :: |events[n].buf| >= room
  }

  lemma LongestFits(s: State, buf: seq<Byte>)
    requires Framing(s) && WholePairs(s.cells) && |buf| >= 0xFFFF
    ensures !Overruns(s, buf)
  {
    if s.held.Some? {
      assert PairAt(s.cells, s.popped - 1);
    }
  }

  /** Nothing is written outside in a step from a sound state when nine receiver MTUs do
      not fit the receiver's buffer and the longest payload fits the output's. */
  lemma RoomKeeps(cfg: Config, events: seq<Event>, ev: Event)
    requires Disciplined(cfg, events) && !Run(cfg, events).broken && 9 * cfg.mtu > cfg.bufferSize
    requires ev.Receives? ==> ev.a.id < UDP_IDS_COUNT
    requires ev.Finishes? ==> |ev.buf| >= 0xFFFF
    ensures !BreaksNow(cfg, Run(cfg, events), ev)
  {
    if ev.Receives? {
      TenPlaces(cfg, events, ev.a.id, 0);
      NinePlacesFill(cfg, Run(cfg, events), ev.a, ev.stale, ev.push);
    } else if ev.Finishes? {
      RunInv(cfg, events);
      RunPairs(cfg, events);
      LongestFits(Run(cfg, events), ev.buf);
    }
  }

  lemma {:induction false} RoomNeverBreaks(cfg: Config, events: seq<Event>)
    requires Disciplined(cfg, events) && 9 * cfg.mtu > cfg.bufferSize && BuffersOf(events, 0xFFFF)
    ensures !Run(cfg, events).broken
    decreases |events|
  {
    if events != [] {
      var n := |events| - 1;
      EarlierDisciplined(cfg, events);
      RoomNeverBreaks(cfg, events[..n]);
      RoomKeeps(cfg, events[..n], events[n]);
      NextBroken(cfg, Run(cfg, events[..n]), events[n]);
    }
  }

  lemma MoreRoom(events: seq<Event>, room: nat)
    requires BuffersOf(events, room) && room >= 0xFFFF
    ensures BuffersOf(events, 0xFFFF)
  {
  }

  /** Some disciplined run writes outside exactly when nine receiver MTUs fit the
      receiver's buffer, or the output buffers may be shorter than the longest payload. */
  lemma BrokenIffRoom(cfg: Config, room: nat)
    ensures (exists events: seq<Event> | Disciplined(cfg, events) && BuffersOf(events, room) :: Run(cfg, events).broken)
       <==> 9 * cfg.mtu <= cfg.bufferSize || room < 0xFFFF
  {
    if 9 * cfg.mtu <= cfg.bufferSize {
      var n := MAXIMUM_FRAGMENT_MADE;
      var events := SamesRun(cfg, n);
      assert BuffersOf(events, room);
    } else if room < 0xFFFF {
      var events := LongestRun(cfg, seq(room, _ => 0));
    } else {
      forall events: seq<Event> | Disciplined(cfg, events) && BuffersOf(events, room)
        ensures !Run(cfg, events).broken
      {
        MoreRoom(events, room);
        RoomNeverBreaks(cfg, events);
      }
    }
  }

  // ---- mixed kinds ------------------------------------------------------

  /** A whole packet under id 1; then the first fragment of a datagram under id 0 and a
      whole packet under the same id. */
  function Mixed(buf: seq<Byte>): seq<Event> {
    [Receives(Arrival(1, 0, false, 9, 9, [0]), 1, false, Both), Takes, Finishes(false, buf),
     Receives(Arrival(0, 0, true, 9, 10, [0]), 1, false, Both),
     Receives(Arrival(0, 0, false, 9, 9, [0]), 1, false, Both), Takes]
  }

  lemma RunThree(cfg: Config, es: seq<Event>, k: nat)
    requires k + 3 <= |es|
    ensures Run(cfg, es[..k + 3]) == Next(cfg, Next(cfg, Next(cfg, Run(cfg, es[..k]), es[k]), es[k + 1]), es[k + 2])
  {
    StepAt(cfg, es, k);
    StepAt(cfg, es, k + 1);
    StepAt(cfg, es, k + 2);
  }

  /** The first packet has gone; its two cells are popped. */
  predicate OneGone(s: State) {
    && |s.ids| == UDP_IDS_COUNT && s.ids[0] == CLEAN && s.popped == 2 == |s.cells| && s.held.None? && !s.broken
    && s.cells[0] == Header(Meta(1, 0, 1, 1, 1))
  }

  lemma FirstGone(cfg: Config, s: State, es: seq<Event>, buf: seq<Byte>)
    requires s == EmptyState() && 0 < |buf| && es == Mixed(buf)
    ensures OneGone(Next(cfg, Next(cfg, Next(cfg, s, es[0]), es[1]), es[2]))
  {
    var s1 := Next(cfg, s, es[0]);
    assert s1.cells[0] == Header(Meta(1, 0, 1, 1, 1)) && s1.ids[1] == Entry(map[], 0, 1, 1, 1);
    var s2 := Next(cfg, s1, es[1]);
    assert s2.held == Some(Meta(1, 0, 1, 1, 1)) && s2.popped == 1;
  }

  lemma ThenMixed(cfg: Config, s: State, es: seq<Event>, buf: seq<Byte>)
    requires OneGone(s) && es == Mixed(buf)
    ensures !NoMixing(Next(cfg, s, es[3]), es[4].a, false)
    ensures var s' := Next(cfg, Next(cfg, Next(cfg, s, es[3]), es[4]), es[5]);
      && Assembling(s') && s'.held.value.id == 0 && s'.ids[0].addr == map[] && s'.popped == 3 && !s'.broken
      && Finish(s', false, buf).1.Misread?
  {
    var s4 := Next(cfg, s, es[3]);
    assert s4.cells[2] == Header(Meta(0, 0, 2, 1, 1));
    assert LiveHeader(s4, 2, 0);
    var s5 := Next(cfg, s4, es[4]);
    assert s5.cells[..4] == s4.cells && s5.ids[0] == Entry(map[], 0, 1, 1, 1);
    var s6 := Next(cfg, s5, es[5]);
    assert s6.held == Some(Meta(0, 0, 2, 1, 1)) && s6.cells[0] == Header(Meta(1, 0, 1, 1, 1));
  }

  lemma MixedRun(cfg: Config, es: seq<Event>, buf: seq<Byte>)
    requires 0 < |buf| && es == Mixed(buf)
    ensures OneGone(Run(cfg, es[..3]))
    ensures Run(cfg, es) == Next(cfg, Next(cfg, Next(cfg, Run(cfg, es[..3]), es[3]), es[4]), es[5])
  {
    RunThree(cfg, es, 0);
    RunThree(cfg, es, 3);
    assert es[..0] == [] && es[..6] == es;
    FirstGone(cfg, EmptyState(), es, buf);
  }

  lemma MixedIsUndisciplined(cfg: Config, es: seq<Event>, s: State)
    requires |es| == 6 && es[4].Receives? && es[4].a.id < |s.ids| && Run(cfg, es[..4]) == s
    requires !es[4].a.more && es[4].a.offset == 0 && es[4].push.Both? && !NoMixing(s, es[4].a, es[4].stale)
    ensures !Disciplined(cfg, es)
  {
    assert !HarmlessAt(cfg, es, 4);
  }

  /** Mixing kinds under a live id is not harmless: in this run nothing is written outside
      and no push fails, but the consumer assembles with the first place unrecorded, reads
      ring position 0, which is popped, and outputs a header in place of a payload. */
  lemma MixingMisreads(cfg: Config, buf: seq<Byte>)
    requires 0 < |buf|
    ensures Stamped(Mixed(buf)) && !Disciplined(cfg, Mixed(buf))
    ensures var s := Run(cfg, Mixed(buf));
      && !s.broken && Assembling(s) && 0 < s.popped && Finish(s, false, buf).1.Misread?
      && 0 !in s.ids[s.held.value.id].addr && AddrOf(s.ids[s.held.value.id], 0) == (0, 0)
  {
    var es := Mixed(buf);
    MixedRun(cfg, es, buf);
    ThenMixed(cfg, Run(cfg, es[..3]), es, buf);
    StepAt(cfg, es, 3);
    MixedIsUndisciplined(cfg, es, Run(cfg, es[..4]));
  }

  // ---- duplicates -------------------------------------------------------

  /** A datagram of 24 bytes in three fragments: the first, the second and its duplicate
      come, the third does not. */
  function Ones(): (r: seq<Byte>) ensures |r| == 8 { seq(8, _ => 1) }
  function Twos(): (r: seq<Byte>) ensures |r| == 8 { seq(8, _ => 2) }

  function FirstThird(): Arrival { Arrival(0, 0, true, 16, 32, Ones()) }
  function SecondThird(): Arrival { Arrival(0, 16, true, 8, 0, Twos()) }

  function Doubled(): seq<Event> {
    [Receives(FirstThird(), 1, false, Both), Receives(SecondThird(), 1, false, Both),
     Receives(SecondThird(), 1, false, Both)]
  }

  /** Three pairs recorded, 24 bytes counted of 24. */
  predicate ThreeCounted(s: State) {
    && |s.ids| == UDP_IDS_COUNT && |s.cells| == 6 && s.popped == 0 && s.held.None? && !s.broken
    && s.ids[0] == Entry(map[0 := (0, 1), 1 := (2, 3), 2 := (4, 5)], 2, 24, 24, 1)
    && s.cells[0] == Header(Meta(0, 0, 24, 8, 1)) && s.cells[1] == Payload(Ones())
    && s.cells[2] == Header(Meta(0, 8, 0, 8, 1)) && s.cells[3] == Payload(Twos())
    && s.cells[4] == Header(Meta(0, 8, 0, 8, 1)) && s.cells[5] == Payload(Twos())
  }

  lemma DoubledCounts(cfg: Config, s: State, es: seq<Event>)
    requires s == EmptyState() && es == Doubled() && cfg.mtu + 8 <= cfg.bufferSize
    ensures Harmless(cfg, s, es[0].a, false, Both)
    ensures var s1 := Next(cfg, s, es[0]); |s1.ids| == UDP_IDS_COUNT && Harmless(cfg, s1, es[1].a, false, Both)
    ensures var s2 := Next(cfg, Next(cfg, s, es[0]), es[1]);
      |s2.ids| == UDP_IDS_COUNT && Harmless(cfg, s2, es[2].a, false, Both)
    ensures ThreeCounted(Next(cfg, Next(cfg, Next(cfg, s, es[0]), es[1]), es[2]))
  {
    var s1 := Next(cfg, s, es[0]);
    assert Take(es[0].a.body, 8) == Ones() && Take(es[1].a.body, 8) == Twos();
    assert s1.ids[0] == Entry(map[0 := (0, 1)], 0, 24, 8, 1);
    var s2 := Next(cfg, s1, es[1]);
    assert s2.ids[0] == Entry(map[0 := (0, 1), 1 := (2, 3)], 1, 24, 16, 1);
  }

  lemma DoubledRun(cfg: Config)
    requires cfg.mtu + 8 <= cfg.bufferSize
    ensures Disciplined(cfg, Doubled()) && ThreeCounted(Run(cfg, Doubled()))
  {
    var es := Doubled();
    assert es[..0] == [] && es[..3] == es;
    DoubledCounts(cfg, EmptyState(), es);
    StepAt(cfg, es, 0);
    StepAt(cfg, es, 1);
    StepAt(cfg, es, 2);
    forall n: nat | n < |es| ensures HarmlessAt(cfg, es, n) {
      assert n in {0, 1, 2};
    }
  }

  /** The buffer after the pieces that are there. */
  function TwoThirds(buf: seq<Byte>): (r: seq<Byte>)
    requires |buf| >= 24
    ensures |r| == |buf|
  {
    Put(Put(Put(buf, 0, Ones()), 8, Twos()), 8, Twos())
  }

  lemma LastThirdStays(buf: seq<Byte>)
    requires |buf| >= 24
    ensures TwoThirds(buf)[16..24] == buf[16..24]
  {
    var one := Put(buf, 0, Ones());
    var two := Put(one, 8, Twos());
    assert one[16..24] == buf[16..24];
    assert two[16..24] == one[16..24];
    assert TwoThirds(buf)[16..24] == two[16..24];
  }

  function Piece(k: nat): (r: seq<Byte>) ensures |r| == 8 { if k == 0 then Ones() else Twos() }
  function Place(k: nat): nat { if k == 0 then 0 else 8 }

  lemma PieceCopied(s: State, buf: seq<Byte>, len: nat, k: nat)
    requires ThreeCounted(s) && |buf| >= 24 && k <= 2
    ensures Assemble(s.cells, s.ids[0], k, buf, len)
      == Assemble(s.cells, s.ids[0], k + 1, Put(buf, Place(k), Piece(k)), if k == 0 then 24 else len)
  {
    assert AddrOf(s.ids[0], k) == (2 * k, 2 * k + 1);
    CopiesOne(s.cells, s.ids[0], k, buf, len);
  }

  lemma NoPieceLeft(s: State, buf: seq<Byte>, len: nat, k: nat)
    requires ThreeCounted(s) && k == 3
    ensures Assemble(s.cells, s.ids[0], k, buf, len) == Delivered(buf, len)
  {
  }

  lemma CopiesFrom(s: State, buf: seq<Byte>, k: nat)
    requires ThreeCounted(s) && |buf| >= 24 && k == 1
    ensures Assemble(s.cells, s.ids[0], k, buf, 24) == Delivered(Put(Put(buf, 8, Twos()), 8, Twos()), 24)
  {
    var two := Put(buf, 8, Twos());
    PieceCopied(s, buf, 24, k);
    PieceCopied(s, two, 24, k + 1);
    NoPieceLeft(s, Put(two, 8, Twos()), 24, k + 2);
  }

  lemma CopiesTwoThirds(s: State, buf: seq<Byte>, k: nat)
    requires ThreeCounted(s) && |buf| >= 24 && k == 0
    ensures Assemble(s.cells, s.ids[0], k, buf, 0) == Delivered(TwoThirds(buf), 24)
  {
    PieceCopied(s, buf, 0, k);
    CopiesFrom(s, Put(buf, 0, Ones()), k + 1);
  }

  lemma HoleStays(s: State, buf: seq<Byte>)
    requires ThreeCounted(s) && |buf| >= 24
    ensures Finish(TakeHeader(s), false, buf).1 == Delivered(TwoThirds(buf), 24)
  {
    var s' := TakeHeader(s);
    assert s'.held == Some(Meta(0, 0, 24, 8, 1)) && s'.popped == 1 && s'.ids == s.ids && s'.cells == s.cells;
    FragmentAnswers(s', false, buf);
    CopiesTwoThirds(s, buf, 0);
  }

  /** Counting is misled by a duplicate as long as a missing fragment: the datagram is output
      with its last bytes never received, whatever the buffer held there
      (Reassembly.ExactCountIff says when this cannot happen). */
  lemma DuplicateLeavesHole(cfg: Config, buf: seq<Byte>)
    requires cfg.mtu + 8 <= cfg.bufferSize && |buf| >= 24
    ensures Disciplined(cfg, Doubled()) && !Run(cfg, Doubled()).broken
    ensures var r := Finish(TakeHeader(Run(cfg, Doubled())), false, buf).1;
      r.Delivered? && r.len == 24 <= |r.buf| && r.buf[16..24] == buf[16..24]
  {
    DoubledRun(cfg);
    HoleStays(Run(cfg, Doubled()), buf);
    LastThirdStays(buf);
  }
}
