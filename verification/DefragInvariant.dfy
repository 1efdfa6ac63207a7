/** What every run of the reassembler keeps: timeouts, expiries, duplicates and
    refused pushes included. */
module DefragInvariant {
  import opened Checksum
  import opened Frames
  import opened Defrag

  /** The cell has not been popped, or is the header the consumer holds. */
  predicate Live(s: State, i: nat) {
    i < |s.cells| && (i >= s.popped || (s.held.Some? && i + 1 == s.popped))
  }

  predicate LiveHeader(s: State, i: nat, id: nat) {
    Live(s, i) && s.cells[i].Header? && s.cells[i].meta.id == id
  }

  predicate CellFramed(s: State, i: nat)
    requires i < |s.cells|
  {
    (s.cells[i].Header? <==> i % 2 == 0) && (s.cells[i].Header? ==> s.cells[i].meta.id < UDP_IDS_COUNT)
  }

  /** Headers and payloads alternate, and the consumer is on a header between calls
      and on its payload within one. */
  ghost predicate Framing(s: State) {
    && |s.ids| == UDP_IDS_COUNT
    && |s.cells| % 2 == 0 && s.popped <= |s.cells|
    && (forall i {:trigger CellFramed(s, i)} | 0 <= i < |s.cells| :: CellFramed(s, i))
    && (s.popped % 2 == 1 <==> s.held.Some?)
    && (s.held.Some? ==> s.cells[s.popped - 1] == Header(s.held.value))
  }

  /** The id's byte count came from a whole packet, not from fragments. */
  predicate FromWhole(e: Entry) { e.length != 0 && 0 !in e.addr }

  /** The j-th recorded pair of an entry: a live header of the id, its payload behind. */
  predicate RecordedPair(s: State, id: nat, e: Entry, j: nat)
    requires j in e.addr
  {
    && j <= e.lastPos && e.addr[j].1 == e.addr[j].0 + 1 < |s.cells|
    && LiveHeader(s, e.addr[j].0, id)
    && (j == 0 ==> s.cells[e.addr[0].0].meta.fragOffset == 0 && s.cells[e.addr[0].0].meta.length == e.length)
  }

  ghost predicate OnlyWhole(s: State, id: nat) {
    forall i: nat | LiveHeader(s, i, id) :: IsWhole(s.cells[i].meta)
  }

  /** Every recorded position is a live header of the id with its payload behind it. */
  ghost predicate RecordedEntry(s: State, id: nat, e: Entry) {
    && (forall j {:trigger RecordedPair(s, id, e, j)} | j in e.addr :: RecordedPair(s, id, e, j))
    && (forall j | 1 <= j <= e.lastPos :: j in e.addr)
    && e.lastPos < MAXIMUM_FRAGMENT_MADE
    && (e.tm == 0 ==> e == CLEAN)
    && (FromWhole(e) ==> e.addr == map[] && e.lastPos == 0 && OnlyWhole(s, id))
  }

  ghost predicate Recorded(s: State, id: nat)
    requires id < |s.ids|
  {
    RecordedEntry(s, id, s.ids[id])
  }

  ghost predicate Inv(s: State) {
    !s.broken && Framing(s) && forall id {:trigger Recorded(s, id)} | 0 <= id < UDP_IDS_COUNT :: Recorded(s, id)
  }

  /** An id is not reused across kinds while it is live: no whole packet while a fragment
      of that id is in the ring, no fragment after the first while its count is a whole
      packet's. */
  ghost predicate NoMixing(s: State, a: Arrival, stale: bool)
    requires a.id < |s.ids|
  {
    if a.offset == 0 && !a.more then U16(a.udpLen - 8) != 0 ==> OnlyWhole(s, a.id)
    else a.offset == 0 || !FromWhole(Expire(s.ids[a.id], stale))
  }

  /** The arrival is a fragment, and the tests before the pushes let it through. */
  predicate Passes(cfg: Config, s: State, a: Arrival)
    requires a.id < |s.ids|
  {
    if a.offset == 0 then a.more
    else a.offset > 8 && s.ids[a.id].lastPos * cfg.mtu + a.fragLen <= cfg.bufferSize
  }

  /** If the arrival comes to be pushed, its payload push does not fail after its header
      push succeeded, and if both succeed it does not mix kinds under its id. */
  ghost predicate Harmless(cfg: Config, s: State, a: Arrival, stale: bool, push: Pushes)
    requires a.id < |s.ids|
  {
    (a.offset == 0 && !a.more) || Passes(cfg, s, a) ==>
      push != PayloadRefused && (push.Both? ==> NoMixing(s, a, stale))
  }

  predicate Extends(s: State, s': State) {
    |s'.ids| == |s.ids| && |s.cells| <= |s'.cells| && s'.cells[..|s.cells|] == s.cells
  }

  ghost predicate SameLive(s: State, s': State, id: nat) {
    forall i: nat :: LiveHeader(s', i, id) <==> LiveHeader(s, i, id)
  }

  /** An entry stays recorded while its cells and their liveness stay. */
  lemma CarryEntry(s: State, s': State, id: nat, e: Entry)
    requires RecordedEntry(s, id, e) && Extends(s, s') && SameLive(s, s', id)
    ensures RecordedEntry(s', id, e)
  {
    assert forall i | 0 <= i < |s.cells| :: s'.cells[i] == s'.cells[..|s.cells|][i];
    forall j | j in e.addr ensures RecordedPair(s', id, e, j) {
      assert RecordedPair(s, id, e, j);
    }
  }

  /** A step that changes one entry, and the liveness of headers of that id only. */
  ghost predicate Touches(s: State, s': State, id: nat) {
    && Extends(s, s')
    && (forall other: nat | other < |s.ids| && other != id :: s'.ids[other] == s.ids[other])
    && (forall other: nat | other != id :: SameLive(s, s', other))
  }

  lemma TouchInv(s: State, s': State, id: nat)
    requires Inv(s) && id < UDP_IDS_COUNT && Touches(s, s', id) && !s'.broken && Framing(s') && Recorded(s', id)
    ensures Inv(s')
  {
    forall other: nat | other < UDP_IDS_COUNT ensures Recorded(s', other) {
      if other != id {
        assert Recorded(s, other) && SameLive(s, s', other);
        CarryEntry(s, s', other, s.ids[other]);
      }
    }
  }

  lemma PushTouches(s: State, id: nat, m: Meta, bytes: seq<Byte>, e: Entry, push: Pushes)
    requires Framing(s) && id < UDP_IDS_COUNT && m.id == id && push != PayloadRefused
    ensures var s' := PushPair(s, id, m, bytes, e, push).0; Touches(s, s', id) && Framing(s')
  {
    var s' := PushPair(s, id, m, bytes, e, push).0;
    forall i | 0 <= i < |s'.cells| ensures CellFramed(s', i) {
      assert i < |s.cells| ==> CellFramed(s, i);
    }
  }

  lemma PushInv(s: State, id: nat, m: Meta, bytes: seq<Byte>, e: Entry, push: Pushes)
    requires Inv(s) && id < UDP_IDS_COUNT && m.id == id && push != PayloadRefused
    requires RecordedEntry(PushPair(s, id, m, bytes, e, Both).0, id, e)
    ensures Inv(PushPair(s, id, m, bytes, e, push).0)
  {
    PushTouches(s, id, m, bytes, e, push);
    var s' := PushPair(s, id, m, bytes, e, push).0;
    assert s'.ids[id] == if push.Both? then e else CLEAN;
    assert push.Both? ==> s' == PushPair(s, id, m, bytes, e, Both).0;
    TouchInv(s, s', id);
  }

  lemma ClearInv(s: State, id: nat)
    requires Inv(s) && id < UDP_IDS_COUNT
    ensures Inv(s.(ids := s.ids[id := CLEAN]))
  {
    var s' := s.(ids := s.ids[id := CLEAN]);
    forall i | 0 <= i < |s'.cells| ensures CellFramed(s', i) {
      assert CellFramed(s, i);
    }
    TouchInv(s, s', id);
  }

  /** Recording one more pair at place j0 of an entry. */
  lemma RecordOne(s: State, id: nat, m: Meta, bytes: seq<Byte>, e: Entry, e': Entry, j0: nat)
    requires Framing(s) && id < UDP_IDS_COUNT && m.id == id
    requires RecordedEntry(s, id, e) && (j0 == 0 || !FromWhole(e)) && e'.tm != 0
    requires e'.addr == e.addr[j0 := (|s.cells|, |s.cells| + 1)]
    requires if j0 == 0 then e'.lastPos == e.lastPos && m.fragOffset == 0 && m.length == e'.length
             else j0 == e'.lastPos == e.lastPos + 1 < MAXIMUM_FRAGMENT_MADE && e'.length == e.length
    ensures RecordedEntry(PushPair(s, id, m, bytes, e', Both).0, id, e')
  {
    var s' := PushPair(s, id, m, bytes, e', Both).0;
    forall j | j in e'.addr ensures RecordedPair(s', id, e', j) {
      if j != j0 {
        assert RecordedPair(s, id, e, j);
      }
    }
  }

  lemma RecordInv(s: State, id: nat, m: Meta, bytes: seq<Byte>, e: Entry, e': Entry, j0: nat, push: Pushes)
    requires Inv(s) && id < UDP_IDS_COUNT && m.id == id && push != PayloadRefused
    requires RecordedEntry(s, id, e) && (j0 == 0 || !FromWhole(e)) && e'.tm != 0
    requires e'.addr == e.addr[j0 := (|s.cells|, |s.cells| + 1)]
    requires if j0 == 0 then e'.lastPos == e.lastPos && m.fragOffset == 0 && m.length == e'.length
             else j0 == e'.lastPos == e.lastPos + 1 < MAXIMUM_FRAGMENT_MADE && e'.length == e.length
    ensures Inv(PushPair(s, id, m, bytes, e', push).0)
  {
    RecordOne(s, id, m, bytes, e, e', j0);
    PushInv(s, id, m, bytes, e', push);
  }

  /** The entry x with the pair at at recorded and the arrival's bytes counted. */
  function NextEntry(x: Entry, at: nat, a: Arrival): Entry {
    if a.offset == 0 then
      Entry(x.addr[0 := (at, at + 1)], x.lastPos, U16(a.udpLen - 8), U16(x.progress + U16(a.fragLen - 8)), x.tm)
    else Entry(x.addr[x.lastPos + 1 := (at, at + 1)], x.lastPos + 1, x.length, U16(x.progress + a.fragLen), x.tm)
  }

  function MetaOf(a: Arrival, tm: nat): Meta {
    Meta(a.id, if a.offset < 8 then 0 else a.offset - 8, if a.offset == 0 then U16(a.udpLen - 8) else 0, PushLen(a), tm)
  }

  lemma FragmentEffect(cfg: Config, s: State, a: Arrival, tm: nat, stale: bool, push: Pushes)
    requires a.id < |s.ids| && Passes(cfg, s, a) && !Oversteps(cfg, s, a, stale, push)
    ensures Receive(cfg, s, a, tm, stale, push) ==
      PushPair(s, a.id, MetaOf(a, tm), Take(a.body, PushLen(a)),
               NextEntry(Stamp(Expire(s.ids[a.id], stale), tm), |s.cells|, a), push)
  {
    assert s.(broken := s.broken || false) == s;
  }

  lemma PlaceLeft(cfg: Config, s: State, a: Arrival, tm: nat, stale: bool)
    requires a.id < |s.ids| && a.offset != 0 && Passes(cfg, s, a) && !Oversteps(cfg, s, a, stale, Both)
    ensures Stamp(Expire(s.ids[a.id], stale), tm).lastPos + 1 < MAXIMUM_FRAGMENT_MADE
  {
  }

  lemma FragmentInv(cfg: Config, s: State, a: Arrival, tm: nat, stale: bool, push: Pushes)
    requires Inv(s) && a.id < UDP_IDS_COUNT && tm != 0 && Passes(cfg, s, a) && push != PayloadRefused
    requires (push.Both? ==> NoMixing(s, a, stale)) && !Oversteps(cfg, s, a, stale, push)
    ensures Inv(Receive(cfg, s, a, tm, stale, push).0)
  {
    var x := Stamp(Expire(s.ids[a.id], stale), tm);
    assert Recorded(s, a.id);
    StampedRecorded(s, a.id, s.ids[a.id], stale, tm);
    FragmentEffect(cfg, s, a, tm, stale, push);
    if push.Both? {
      if a.offset != 0 {
        PlaceLeft(cfg, s, a, tm, stale);
      }
      RecordInv(s, a.id, MetaOf(a, tm), Take(a.body, PushLen(a)), x, NextEntry(x, |s.cells|, a),
                if a.offset == 0 then 0 else x.lastPos + 1, push);
    } else {
      ClearInv(s, a.id);
    }
  }

  /** Mixing kinds breaks the entry: a count without a first fragment and not of whole
      packets alone, or with a fragment after the first. */
  lemma MixingBreaks(cfg: Config, s: State, a: Arrival, tm: nat, stale: bool)
    requires Inv(s) && a.id < UDP_IDS_COUNT && tm != 0 && ((a.offset == 0 && !a.more) || Passes(cfg, s, a))
    requires !NoMixing(s, a, stale)
    ensures !Inv(Receive(cfg, s, a, tm, stale, Both).0)
  {
    var s' := Receive(cfg, s, a, tm, stale, Both).0;
    if a.offset == 0 {
      var i: nat :| LiveHeader(s, i, a.id) && !IsWhole(s.cells[i].meta);
      assert LiveHeader(s', i, a.id) && !IsWhole(s'.cells[i].meta);
    } else {
      assert Recorded(s, a.id) && 1 in s'.ids[a.id].addr;
    }
    assert !Recorded(s', a.id);
  }

  lemma LoneHeaderBreaks(cfg: Config, s: State, a: Arrival, tm: nat, stale: bool)
    requires Inv(s) && a.id < UDP_IDS_COUNT && ((a.offset == 0 && !a.more) || Passes(cfg, s, a))
    ensures !Inv(Receive(cfg, s, a, tm, stale, PayloadRefused).0)
  {
    assert |Receive(cfg, s, a, tm, stale, PayloadRefused).0.cells| == |s.cells| + 1;
  }

  /** An arrival of any kind, expiring or refused, keeps the invariant exactly when it does
      not mix kinds, leaves no lone header and is not recorded past the ten places. */
  lemma ReceiveInv(cfg: Config, s: State, a: Arrival, tm: nat, stale: bool, push: Pushes)
    requires Inv(s) && a.id < UDP_IDS_COUNT && tm != 0
    ensures Inv(Receive(cfg, s, a, tm, stale, push).0)
       <==> Harmless(cfg, s, a, stale, push) && !Oversteps(cfg, s, a, stale, push)
  {
    if !Harmless(cfg, s, a, stale, push) {
      if push.PayloadRefused? {
        LoneHeaderBreaks(cfg, s, a, tm, stale);
      } else {
        MixingBreaks(cfg, s, a, tm, stale);
      }
    } else if !Oversteps(cfg, s, a, stale, push) {
      HarmlessInv(cfg, s, a, tm, stale, push);
    }
  }

  lemma HarmlessInv(cfg: Config, s: State, a: Arrival, tm: nat, stale: bool, push: Pushes)
    requires Inv(s) && a.id < UDP_IDS_COUNT && tm != 0
    requires Harmless(cfg, s, a, stale, push) && !Oversteps(cfg, s, a, stale, push)
    ensures Inv(Receive(cfg, s, a, tm, stale, push).0)
  {
    if a.offset == 0 && !a.more {
      WholeInv(s, a.id, U16(a.udpLen - 8), Take(a.body, U16(a.udpLen - 8)), tm, push);
    } else if Passes(cfg, s, a) {
      FragmentInv(cfg, s, a, tm, stale, push);
    } else {
      ClearInv(s, a.id);
    }
  }

  lemma StampedRecorded(s: State, id: nat, e: Entry, stale: bool, tm: nat)
    requires RecordedEntry(s, id, e) && tm != 0
    ensures var x := Stamp(Expire(e, stale), tm);
      RecordedEntry(s, id, x) && x.tm != 0 && (FromWhole(x) <==> FromWhole(Expire(e, stale)))
  {
    var x := Stamp(Expire(e, stale), tm);
    forall j | j in x.addr ensures RecordedPair(s, id, x, j) {
      assert RecordedPair(s, id, e, j);
    }
  }

  lemma WholeInv(s: State, id: nat, len: nat, bytes: seq<Byte>, tm: nat, push: Pushes)
    requires Inv(s) && id < UDP_IDS_COUNT && tm != 0 && push != PayloadRefused
    requires push.Both? && len != 0 ==> OnlyWhole(s, id)
    ensures Inv(PushPair(s, id, Meta(id, 0, len, len, tm), bytes, Entry(map[], 0, len, len, tm), push).0)
  {
    var m, e := Meta(id, 0, len, len, tm), Entry(map[], 0, len, len, tm);
    var s' := PushPair(s, id, m, bytes, e, Both).0;
    if push.Both? && len != 0 {
      forall i: nat | LiveHeader(s', i, id) ensures IsWhole(s'.cells[i].meta) {
        assert i < |s.cells| ==> LiveHeader(s, i, id);
      }
    }
    if push.Both? {
      PushInv(s, id, m, bytes, e, push);
    } else {
      ClearInv(s, id);
    }
  }

  /** Popping a header keeps the invariant when its id is clean or it is held. */
  lemma TakeInv(s: State)
    requires Inv(s)
    ensures Inv(TakeHeader(s))
    ensures s.held.None? && s.popped < |s.cells| ==> s.cells[s.popped].Header?
  {
    if s.held.None? && s.popped < |s.cells| {
      assert CellFramed(s, s.popped);
      var id := s.cells[s.popped].meta.id;
      TakeTouches(s);
      var s' := TakeHeader(s);
      assert Recorded(s, id);
      if Dirty(s.ids[id]) {
        CarryEntry(s, s', id, s.ids[id]);
      } else {
        assert OnlyWhole(s', id) ==> RecordedEntry(s', id, CLEAN);
      }
      TouchInv(s, s', id);
    }
  }

  lemma TakeTouches(s: State)
    requires Framing(s) && s.held.None? && s.popped < |s.cells| && s.cells[s.popped].Header?
    ensures var s' := TakeHeader(s); var id := s.cells[s.popped].meta.id;
      id < UDP_IDS_COUNT && Framing(s') && Touches(s, s', id) && (Dirty(s.ids[id]) ==> SameLive(s, s', id))
  {
    var s' := TakeHeader(s);
    assert CellFramed(s, s.popped) && s.popped + 1 < |s.cells|;
    assert CellFramed(s, s.popped + 1);
    forall i | 0 <= i < |s'.cells| ensures CellFramed(s', i) {
      assert CellFramed(s, i);
    }
  }

  lemma FinishTouches(s: State, timedOut: bool, buf: seq<Byte>)
    requires Framing(s) && s.held.Some?
    ensures var s' := Finish(s, timedOut, buf).0; var id := s.held.value.id;
      id < UDP_IDS_COUNT && Framing(s') && Touches(s, s', id) && (s' != s ==> s'.ids[id] == CLEAN)
  {
    var s' := Finish(s, timedOut, buf).0;
    assert CellFramed(s, s.popped - 1) && s.popped < |s.cells|;
    assert CellFramed(s, s.popped);
    forall i | 0 <= i < |s'.cells| ensures CellFramed(s', i) {
      assert CellFramed(s, i);
    }
  }

  /** However the call ends it keeps the invariant, but for a write past the buffer. */
  lemma FinishInv(s: State, timedOut: bool, buf: seq<Byte>)
    requires Inv(s)
    ensures Inv(Finish(s, timedOut, buf).0) <==> !Overruns(s, buf)
  {
    var s' := Finish(s, timedOut, buf).0;
    if s' != s && !Overruns(s, buf) {
      FinishTouches(s, timedOut, buf);
      TouchInv(s, s', s.held.value.id);
    }
  }

  // ---- runs -------------------------------------------------------------

  datatype Event =
    | Receives(a: Arrival, tm: nat, stale: bool, push: Pushes)
    | Takes
    | Finishes(timedOut: bool, buf: seq<Byte>)

  function Next(cfg: Config, s: State, ev: Event): State {
    match ev
    case Receives(a, tm, stale, push) =>
      if a.id < |s.ids| then Receive(cfg, s, a, tm, stale, push).0 else s
    case Takes => TakeHeader(s)
    case Finishes(timedOut, buf) => Finish(s, timedOut, buf).0
  }

  function Run(cfg: Config, events: seq<Event>): State {
    if events == [] then EmptyState()
    else Next(cfg, Run(cfg, events[..|events| - 1]), events[|events| - 1])
  }

  /** Every arrival has a time stamp and a 16-bit id. */
  predicate Stamped(events: seq<Event>) {
    forall n | 0 <= n < |events| && events[n].Receives? :: events[n].tm != 0 && events[n].a.id < UDP_IDS_COUNT
  }

  ghost predicate HarmlessAt(cfg: Config, events: seq<Event>, n: nat)
    requires n < |events|
  {
    var s, ev := Run(cfg, events[..n]), events[n];
    ev.Receives? && ev.a.id < |s.ids| ==> Harmless(cfg, s, ev.a, ev.stale, ev.push)
  }

  /** No arrival mixes kinds under a live id or leaves a lone header. */
  ghost predicate Disciplined(cfg: Config, events: seq<Event>) {
    Stamped(events) && forall n: nat | n < |events| :: HarmlessAt(cfg, events, n)
  }

  /** The event writes past the ten places of its entry, or past the output buffer. */
  predicate BreaksNow(cfg: Config, s: State, ev: Event) {
    || (ev.Receives? && ev.a.id < |s.ids| && Oversteps(cfg, s, ev.a, ev.stale, ev.push))
    || (ev.Finishes? && Overruns(s, ev.buf))
  }

  predicate BreaksAt(cfg: Config, events: seq<Event>, n: nat)
    requires n < |events|
  {
    BreaksNow(cfg, Run(cfg, events[..n]), events[n])
  }

  lemma NextBroken(cfg: Config, s: State, ev: Event)
    ensures Next(cfg, s, ev).broken <==> s.broken || BreaksNow(cfg, s, ev)
  {
  }

  lemma SomeEarlierOrLast(cfg: Config, events: seq<Event>)
    requires events != []
    ensures var k := |events| - 1;
      (exists n: nat | n < |events| :: BreaksAt(cfg, events, n)) <==>
      (exists n: nat | n < k :: BreaksAt(cfg, events[..k], n)) || BreaksNow(cfg, Run(cfg, events[..k]), events[k])
  {
    var k, before := |events| - 1, events[..|events| - 1];
    forall n: nat | n < k ensures BreaksAt(cfg, before, n) <==> BreaksAt(cfg, events, n) {
      assert before[..n] == events[..n];
    }
    if n: nat :| n < |before| && BreaksAt(cfg, before, n) {
      assert BreaksAt(cfg, events, n);
    }
    assert BreaksAt(cfg, events, k) <==> BreaksNow(cfg, Run(cfg, before), events[k]);
  }

  /** A run is broken exactly when one of its arrivals found nine fragments recorded after
      the first, was not taken for late, and had both pushes succeed, or one of its calls
      popped a whole payload longer than its buffer. */
  lemma {:induction false} BrokenIff(cfg: Config, events: seq<Event>)
    ensures Run(cfg, events).broken <==> exists n: nat | n < |events| :: BreaksAt(cfg, events, n)
    decreases |events|
  {
    if events != [] {
      BrokenIff(cfg, events[..|events| - 1]);
      SomeEarlierOrLast(cfg, events);
      NextBroken(cfg, Run(cfg, events[..|events| - 1]), events[|events| - 1]);
    }
  }

  lemma EarlierDisciplined(cfg: Config, events: seq<Event>)
    requires events != [] && Disciplined(cfg, events)
    ensures Disciplined(cfg, events[..|events| - 1]) && HarmlessAt(cfg, events, |events| - 1)
  {
    var n := |events| - 1;
    forall k: nat | k < n ensures HarmlessAt(cfg, events[..n], k) {
      assert HarmlessAt(cfg, events, k) && events[..n][..k] == events[..k];
    }
  }

  /** A step keeps the invariant exactly when it is harmless and writes nothing outside. */
  lemma NextInv(cfg: Config, s: State, ev: Event)
    requires Inv(s) && (ev.Receives? ==> ev.tm != 0 && ev.a.id < UDP_IDS_COUNT)
    ensures Inv(Next(cfg, s, ev)) <==>
      (ev.Receives? ==> Harmless(cfg, s, ev.a, ev.stale, ev.push)) && !BreaksNow(cfg, s, ev)
  {
    match ev
    case Receives(a, tm, stale, push) => ReceiveInv(cfg, s, a, tm, stale, push);
    case Takes => TakeInv(s);
    case Finishes(timedOut, buf) => FinishInv(s, timedOut, buf);
  }

  lemma InitialInv()
    ensures Inv(EmptyState())
  {
  }

  /** Every disciplined run that writes nothing outside keeps the invariant. */
  lemma {:induction false} RunInv(cfg: Config, events: seq<Event>)
    requires Disciplined(cfg, events) && !Run(cfg, events).broken
    ensures Inv(Run(cfg, events))
    decreases |events|
  {
    if events == [] {
      InitialInv();
    } else {
      var n := |events| - 1;
      EarlierDisciplined(cfg, events);
      NextBroken(cfg, Run(cfg, events[..n]), events[n]);
      RunInv(cfg, events[..n]);
      NextInv(cfg, Run(cfg, events[..n]), events[n]);
    }
  }

  ghost predicate InvAt(cfg: Config, events: seq<Event>, n: nat)
    requires n <= |events|
  {
    Inv(Run(cfg, events[..n]))
  }

  lemma StepAt(cfg: Config, events: seq<Event>, n: nat)
    requires n < |events|
    ensures Run(cfg, events[..n + 1]) == Next(cfg, Run(cfg, events[..n]), events[n])
  {
    assert events[..n + 1][..n] == events[..n];
  }

  lemma {:induction false} InvUpTo(cfg: Config, events: seq<Event>, n: nat)
    requires Disciplined(cfg, events) && !Run(cfg, events).broken && n <= |events|
    ensures InvAt(cfg, events, n)
    decreases |events| - n
  {
    if n == |events| {
      assert events[..n] == events;
      RunInv(cfg, events);
    } else {
      var k := |events| - 1;
      EarlierDisciplined(cfg, events);
      NextBroken(cfg, Run(cfg, events[..k]), events[k]);
      InvUpTo(cfg, events[..k], n);
      assert events[..k][..n] == events[..n];
    }
  }

  /** The discipline is exact: a run of stamped arrivals keeps the invariant all along if
      and only if no arrival mixes kinds or leaves a lone header and nothing is written
      outside. */
  lemma RunInvIff(cfg: Config, events: seq<Event>)
    requires Stamped(events)
    ensures (forall n: nat | n <= |events| :: InvAt(cfg, events, n))
       <==> Disciplined(cfg, events) && !Run(cfg, events).broken
  {
    if forall n: nat | n <= |events| :: InvAt(cfg, events, n) {
      assert InvAt(cfg, events, |events|) && events[..|events|] == events;
      forall n: nat | n < |events| ensures HarmlessAt(cfg, events, n) {
        assert InvAt(cfg, events, n) && InvAt(cfg, events, n + 1);
        StepAt(cfg, events, n);
        NextInv(cfg, Run(cfg, events[..n]), events[n]);
      }
    }
    if Disciplined(cfg, events) && !Run(cfg, events).broken {
      forall n: nat | n <= |events| ensures InvAt(cfg, events, n) {
        InvUpTo(cfg, events, n);
      }
    }
  }

  /** Ring framing: between calls the consumer is always on a header, so the marker
      check never fails; and while it holds a header its payload is the next cell. */
  lemma MarkerNeverFails(cfg: Config, events: seq<Event>)
    requires Disciplined(cfg, events) && !Run(cfg, events).broken
    ensures var s := Run(cfg, events); s.popped <= |s.cells| && s.popped < |s.cells| ==>
              (s.held.None? ==> s.cells[s.popped].Header?) &&
              (s.held.Some? ==> s.cells[s.popped].Payload?)
  {
    RunInv(cfg, events);
    var s := Run(cfg, events);
    assert s.popped < |s.cells| ==> CellFramed(s, s.popped);
  }

  /** The consumer is about to assemble the fragments of its header's id. */
  predicate Assembling(s: State) {
    s.held.Some? && s.held.value.id < |s.ids| && !IsWhole(s.held.value) && Complete(s.ids[s.held.value.id])
  }

  /** The position holds a live pair of this id; the header may be the held one. */
  predicate ReadablePair(s: State, id: nat, pair: (nat, nat)) {
    && pair.1 == pair.0 + 1 < |s.cells| && s.popped <= pair.1
    && (s.popped <= pair.0 || (s.held.Some? && pair.0 + 1 == s.popped))
    && s.cells[pair.0].Header? && s.cells[pair.0].meta.id == id && s.cells[pair.1].Payload?
  }

  lemma LivePairs(s: State, j: nat)
    requires Inv(s) && Assembling(s) && j <= s.ids[s.held.value.id].lastPos
    ensures j in s.ids[s.held.value.id].addr
    ensures ReadablePair(s, s.held.value.id, s.ids[s.held.value.id].addr[j])
  {
    var id := s.held.value.id;
    assert Recorded(s, id);
    assert LiveHeader(s, s.popped - 1, id);
    assert j in s.ids[id].addr;
    assert CellFramed(s, s.ids[id].addr[j].0) && CellFramed(s, s.ids[id].addr[j].1) by {
      assert RecordedPair(s, id, s.ids[id], j);
    }
    assert !FromWhole(s.ids[id]);
    assert RecordedPair(s, id, s.ids[id], j);
  }

  /** Live addresses: whenever the consumer goes on to assemble, the first fragment is
      recorded, and every position it will blind-copy holds a header or payload of
      that id that is not popped, but for the one header it has itself just popped. */
  lemma AssemblyReadsLiveCells(cfg: Config, events: seq<Event>, j: nat)
    requires Disciplined(cfg, events) && !Run(cfg, events).broken && Assembling(Run(cfg, events))
    requires j <= Run(cfg, events).ids[Run(cfg, events).held.value.id].lastPos
    ensures var s := Run(cfg, events); var e := s.ids[s.held.value.id];
            j in e.addr && ReadablePair(s, s.held.value.id, e.addr[j])
  {
    RunInv(cfg, events);
    LivePairs(Run(cfg, events), j);
  }

  lemma {:induction false} NothingMisread(s: State, pos: nat, buf: seq<Byte>, len: nat)
    requires Inv(s) && Assembling(s) && pos <= s.ids[s.held.value.id].lastPos + 1
    ensures !Assemble(s.cells, s.ids[s.held.value.id], pos, buf, len).Misread?
    decreases s.ids[s.held.value.id].lastPos + 1 - pos
  {
    var e := s.ids[s.held.value.id];
    if pos <= e.lastPos {
      LivePairs(s, pos);
      var m, bytes := s.cells[e.addr[pos].0].meta, s.cells[e.addr[pos].1].bytes;
      if m.fragOffset + |bytes| <= |buf| {
        NothingMisread(s, pos + 1, Put(buf, m.fragOffset, bytes), if pos == 0 then m.length else len);
      }
    }
  }

  /** So no header is ever output in place of a payload. */
  lemma NeverMisreads(cfg: Config, events: seq<Event>, timedOut: bool, buf: seq<Byte>)
    requires Disciplined(cfg, events) && !Run(cfg, events).broken
    ensures !Finish(Run(cfg, events), timedOut, buf).1.Misread?
  {
    RunInv(cfg, events);
    MarkerNeverFails(cfg, events);
    if Assembling(Run(cfg, events)) {
      NothingMisread(Run(cfg, events), 0, buf, 0);
    }
  }

  /** A payload push that fails after its header push leaves a header alone in the
      ring: framing survives a call exactly when that does not happen. */
  lemma FramingNeedsThePayload(cfg: Config, s: State, a: Arrival, tm: nat, stale: bool, push: Pushes)
    requires Framing(s) && a.id < UDP_IDS_COUNT
    requires a.offset == 0 || (a.offset > 8 && s.ids[a.id].lastPos * cfg.mtu + a.fragLen <= cfg.bufferSize)
    ensures Framing(Receive(cfg, s, a, tm, stale, push).0) <==> push != PayloadRefused
  {
    var s' := Receive(cfg, s, a, tm, stale, push).0;
    ReceivedCells(cfg, s, a, tm, stale, push);
    if !push.PayloadRefused? {
      forall i | 0 <= i < |s'.cells| ensures CellFramed(s', i) {
        assert i < |s.cells| ==> CellFramed(s, i) && s'.cells[..|s.cells|][i] == s'.cells[i];
      }
    }
  }

  lemma ReceivedCells(cfg: Config, s: State, a: Arrival, tm: nat, stale: bool, push: Pushes)
    requires a.id < |s.ids| && (Passes(cfg, s, a) || (a.offset == 0 && !a.more))
    ensures var s' := Receive(cfg, s, a, tm, stale, push).0;
      && |s'.ids| == |s.ids| && s'.popped == s.popped && s'.held == s.held
      && |s'.cells| == |s.cells| + (match push case Both => 2 case HeaderRefused => 0 case PayloadRefused => 1)
      && s'.cells[..|s.cells|] == s.cells
      && (push.Both? ==> s'.cells[|s.cells|].Header? && s'.cells[|s.cells|].meta.id == a.id
                         && s'.cells[|s.cells| + 1].Payload?)
  {
  }

  // ---- the ten places ---------------------------------------------------

  /** In a run that is not broken every recorded position is in one of the ten places,
      so the test for ten fragments in use never fires. */
  lemma TenPlaces(cfg: Config, events: seq<Event>, id: nat, j: nat)
    requires Disciplined(cfg, events) && !Run(cfg, events).broken && id < UDP_IDS_COUNT
    ensures var s := Run(cfg, events); id < |s.ids| && s.ids[id].lastPos < MAXIMUM_FRAGMENT_MADE
    ensures var s := Run(cfg, events); j in s.ids[id].addr ==> j < MAXIMUM_FRAGMENT_MADE
  {
    RunInv(cfg, events);
    var s := Run(cfg, events);
    assert Recorded(s, id);
    if j in s.ids[id].addr {
      assert RecordedPair(s, id, s.ids[id], j);
    }
  }

  /** The tests before the pushes let through an entry with fewer than ten fragments
      after the first, and the next one is recorded one further: within the ten places
      exactly if nine were not already there. */
  lemma NextIndexInArray(cfg: Config, s: State, a: Arrival, tm: nat)
    requires a.id < |s.ids| && a.offset > 8 && Dirty(s.ids[a.id]) && !s.broken
    requires s.ids[a.id].lastPos * cfg.mtu + a.fragLen <= cfg.bufferSize
    requires Expire(s.ids[a.id], false) == s.ids[a.id]
    ensures s.ids[a.id].lastPos < MAXIMUM_FRAGMENT_MADE
    ensures var s' := Receive(cfg, s, a, tm, false, Both).0;
      s'.ids[a.id].lastPos == s.ids[a.id].lastPos + 1 && s'.ids[a.id].lastPos in s'.ids[a.id].addr
      && (!s'.broken <==> s.ids[a.id].lastPos != MAXIMUM_FRAGMENT_MADE - 1)
  {
  }

  lemma FirstReceived(cfg: Config, s: State, a: Arrival, tm: nat, stale: bool)
    requires a.id < |s.ids| && a.offset == 0 && a.more
    ensures var s' := Receive(cfg, s, a, tm, stale, Both).0;
      s'.ids[a.id] == NextEntry(Stamp(Expire(s.ids[a.id], stale), tm), |s.cells|, a) && s'.broken == s.broken
  {
  }

  lemma OtherReceived(cfg: Config, s: State, a: Arrival, tm: nat, stale: bool)
    requires a.id < |s.ids| && a.offset > 8 && s.ids[a.id].lastPos * cfg.mtu + a.fragLen <= cfg.bufferSize
    ensures var s' := Receive(cfg, s, a, tm, stale, Both).0;
      s'.ids[a.id] == NextEntry(Stamp(Expire(s.ids[a.id], stale), tm), |s.cells|, a)
      && (s'.broken <==> s.broken || Oversteps(cfg, s, a, stale, Both))
  {
  }

  lemma AfreshEntry(at: nat, a: Arrival, tm: nat)
    requires tm != 0
    ensures var e' := NextEntry(Stamp(CLEAN, tm), at, a);
      e'.addr.Keys == {if a.offset == 0 then 0 else 1} && e'.tm == tm
      && e'.progress == if a.offset == 0 then U16(a.fragLen - 8) else U16(a.fragLen)
  {
  }

  lemma TimelyEntry(e: Entry, at: nat, a: Arrival, tm: nat)
    requires Dirty(e)
    ensures var e' := NextEntry(Stamp(e, tm), at, a);
      e'.addr.Keys == e.addr.Keys + {if a.offset == 0 then 0 else e.lastPos + 1} && e'.tm == e.tm
      && e'.progress == U16(e.progress + if a.offset == 0 then U16(a.fragLen - 8) else U16(a.fragLen))
  {
    assert (e.progress + a.fragLen) % 0x1_0000 == (e.progress + a.fragLen % 0x1_0000) % 0x1_0000 by {
      assert a.fragLen == a.fragLen / 0x1_0000 * 0x1_0000 + a.fragLen % 0x1_0000;
    }
  }

  /** A fragment that comes too late for what its id holds starts the id afresh: it is
      the only one recorded, only its bytes count, and the time is its own; one that
      comes in time adds itself and keeps the first arrival's time, or, being the
      eleventh, breaks the entry. */
  lemma StaleStartsAfresh(cfg: Config, s: State, a: Arrival, tm: nat, stale: bool)
    requires a.id < |s.ids| && Dirty(s.ids[a.id]) && Expire(s.ids[a.id], false) == s.ids[a.id] && tm != 0 && !s.broken
    requires (a.offset == 0 && a.more)
          || (a.offset > 8 && s.ids[a.id].lastPos * cfg.mtu + a.fragLen <= cfg.bufferSize)
    ensures Receive(cfg, s, a, tm, stale, Both).0.broken
       <==> !stale && a.offset > 8 && s.ids[a.id].lastPos == MAXIMUM_FRAGMENT_MADE - 1
    ensures var e, s' := s.ids[a.id], Receive(cfg, s, a, tm, stale, Both).0;
      var e', own := s'.ids[a.id], if a.offset == 0 then U16(a.fragLen - 8) else U16(a.fragLen);
      !s'.broken ==>
        if stale then
          e'.addr.Keys == {if a.offset == 0 then 0 else 1} && e'.progress == own && e'.tm == tm
        else
          e'.addr.Keys == e.addr.Keys + {if a.offset == 0 then 0 else e.lastPos + 1} && e'.tm == e.tm
          && e'.progress == U16(e.progress + own)
  {
    if a.offset == 0 {
      FirstReceived(cfg, s, a, tm, stale);
    } else {
      OtherReceived(cfg, s, a, tm, stale);
    }
    var e := s.ids[a.id];
    assert Expire(e, stale) == if stale then CLEAN else e;
    if stale {
      AfreshEntry(|s.cells|, a, tm);
    } else {
      TimelyEntry(e, |s.cells|, a, tm);
    }
  }
}
