/** One datagram on its way through the reassembler: what its id's entry and its cells
    in the ring hold, whatever is lost on the way. */
module Reassembly {
  import opened Checksum
  import opened Ranges
  import opened Frames
  import opened Defrag
  import opened DefragInvariant

  // ---- counting bytes ---------------------------------------------------

  function Covered(pieces: seq<(nat, nat)>): set<nat> {
    if pieces == [] then {}
    else Covered(pieces[..|pieces| - 1]) + Between(pieces[|pieces| - 1].0, pieces[|pieces| - 1].1)
  }

  function Progress(pieces: seq<(nat, nat)>): nat {
    if pieces == [] then 0
    else
      var p := pieces[|pieces| - 1];
      Progress(pieces[..|pieces| - 1]) + if p.0 < p.1 then p.1 - p.0 else 0
  }

  /** Byte counting decides completeness: for pairwise disjoint pieces inside
      [0, length) the bytes counted reach the length exactly when no byte is missing. */
  lemma {:induction false} CountingDecides(pieces: seq<(nat, nat)>, length: nat)
    requires forall i | 0 <= i < |pieces| :: pieces[i].0 <= pieces[i].1 <= length
    requires forall i, j | 0 <= i < j < |pieces| :: pieces[i].1 <= pieces[j].0 || pieces[j].1 <= pieces[i].0
    ensures Covered(pieces) <= Between(0, length) && Progress(pieces) == |Covered(pieces)|
    ensures Progress(pieces) == length <==> Covered(pieces) == Between(0, length)
  {
    if pieces != [] {
      var n := |pieces| - 1;
      CountingDecides(pieces[..n], length);
      CoveredApart(pieces[..n], pieces[n]);
    }
    SubsetCount(Covered(pieces), Between(0, length));
  }

  predicate Apart(p: (nat, nat), q: (nat, nat)) {
    p.1 <= q.0 || q.1 <= p.0
  }

  /** The bytes of the last piece. */
  lemma LastPiece(pieces: seq<(nat, nat)>) returns (before: seq<(nat, nat)>, last: set<nat>)
    requires pieces != [] && pieces[|pieces| - 1].0 < pieces[|pieces| - 1].1
    ensures before == pieces[..|pieces| - 1] && Covered(pieces) == Covered(before) + last
    ensures Progress(pieces) == Progress(before) + |last|
    ensures forall x: nat :: x in last <==> pieces[|pieces| - 1].0 <= x < pieces[|pieces| - 1].1
  {
    before := pieces[..|pieces| - 1];
    last := Between(pieces[|pieces| - 1].0, pieces[|pieces| - 1].1);
  }

  predicate Pieces(pieces: seq<(nat, nat)>, length: nat) {
    forall k | 0 <= k < |pieces| :: pieces[k].0 < pieces[k].1 <= length
  }

  lemma LastOverlaps(pieces: seq<(nat, nat)>, length: nat, i: nat)
    requires Pieces(pieces, length) && i < |pieces| - 1 && !Apart(pieces[i], pieces[|pieces| - 1])
    ensures |Covered(pieces)| < Progress(pieces)
  {
    var before, last := LastPiece(pieces);
    var p, q := before[i], pieces[|pieces| - 1];
    var x := if p.0 < q.0 then q.0 else p.0;
    InCovered(before, i, x);
    CoveredAtMost(before, length);
    SharedByte(Covered(before), last, x);
  }

  /** Where pieces overlap fewer bytes are covered than counted. */
  lemma {:induction false} OverlapCosts(pieces: seq<(nat, nat)>, length: nat, i: nat, j: nat)
    requires Pieces(pieces, length) && i < j < |pieces| && !Apart(pieces[i], pieces[j])
    ensures |Covered(pieces)| < Progress(pieces)
  {
    if j < |pieces| - 1 {
      var before, last := LastPiece(pieces);
      OverlapCosts(before, length, i, j);
      UnionAtMost(Covered(before), last);
    } else {
      LastOverlaps(pieces, length, i);
    }
  }

  lemma SharedByte(a: set<nat>, b: set<nat>, x: nat)
    requires x in a && x in b
    ensures |a + b| < |a| + |b|
  {
    assert a + b == a + (b - {x});
    UnionAtMost(a, b - {x});
    assert |b - {x}| == |b| - 1;
  }

  lemma {:induction false} CoveredAtMost(pieces: seq<(nat, nat)>, length: nat)
    requires Pieces(pieces, length)
    ensures |Covered(pieces)| <= Progress(pieces)
  {
    if pieces != [] {
      var before, last := LastPiece(pieces);
      CoveredAtMost(before, length);
      UnionAtMost(Covered(before), last);
    }
  }

  lemma UnionAtMost(a: set<nat>, b: set<nat>)
    ensures |a + b| <= |a| + |b|
  {
    assert a + b == a + (b - a);
    assert |a + (b - a)| == |a| + |b - a|;
    SubsetCount(b - a, b);
  }

  lemma {:induction false} InCovered(pieces: seq<(nat, nat)>, i: nat, x: nat)
    requires i < |pieces| && pieces[i].0 <= x < pieces[i].1
    ensures x in Covered(pieces)
  {
    if i < |pieces| - 1 {
      InCovered(pieces[..|pieces| - 1], i, x);
    }
  }

  /** Without that supposition counting decides nothing: an id whose count is exact has all
      its bytes exactly when no two of its pieces overlap. */
  lemma ExactCountIff(pieces: seq<(nat, nat)>, length: nat)
    requires Pieces(pieces, length) && Progress(pieces) == length
    ensures Covered(pieces) == Between(0, length)
       <==> forall i, j | 0 <= i < j < |pieces| :: Apart(pieces[i], pieces[j])
  {
    if forall i, j | 0 <= i < j < |pieces| :: Apart(pieces[i], pieces[j]) {
      CountingDecides(pieces, length);
    } else {
      var i, j :| 0 <= i < j < |pieces| && !Apart(pieces[i], pieces[j]);
      OverlapCosts(pieces, length, i, j);
    }
  }

  lemma {:induction false} CoveredApart(pieces: seq<(nat, nat)>, p: (nat, nat))
    requires forall i | 0 <= i < |pieces| :: pieces[i].1 <= p.0 || p.1 <= pieces[i].0
    ensures Covered(pieces) !! Between(p.0, p.1)
  {
    if pieces != [] {
      CoveredApart(pieces[..|pieces| - 1], p);
    }
  }

  // ---- a datagram in flight ---------------------------------------------

  /** A datagram being delivered, sent whole or cut: the bytes the receiver has recorded
      of it, how many fragments after the first, where its last header is. */
  datatype Flight = Flight(
    payload: seq<Byte>, whole: bool, dgram: nat, covered: set<nat>, others: nat, at: nat, done: bool)

  /** Its entry has been cleared. */
  function Cleared(fl: Flight): Flight {
    fl.(covered := {}, others := 0)
  }

  /** What counts when the next fragment comes, late or in time. */
  function Base(fl: Flight, stale: bool): Flight {
    if stale then Cleared(fl) else fl
  }

  /** First and last byte of the payload an arrival carries. */
  function RangeStart(a: Arrival): nat {
    if a.offset < 8 then 0 else a.offset - 8
  }

  function RangeEnd(fl: Flight, a: Arrival): nat {
    if a.offset == 0 && !a.more then |fl.payload|
    else if a.offset == 0 then U16(a.fragLen - 8)
    else RangeStart(a) + a.fragLen
  }

  /** The arrival is a fragment of the datagram, or all of it, none of whose bytes is
      recorded. */
  ghost predicate Fits(fl: Flight, a: Arrival) {
    var lo, hi, n := RangeStart(a), RangeEnd(fl, a), |fl.payload|;
    && !fl.done && lo < hi <= n && fl.covered !! Between(lo, hi)
    && hi - lo <= |a.body| && a.body[..hi - lo] == fl.payload[lo..hi]
    && (fl.whole <==> a.offset == 0 && !a.more)
    && (a.offset == 0 ==> a.udpLen == n + 8)
    && (a.offset == 0 && a.more ==> 8 < a.fragLen && hi == a.fragLen - 8 < n)
  }

  function Arrived(fl: Flight, a: Arrival, at: nat): Flight {
    fl.(covered := fl.covered + Between(RangeStart(a), RangeEnd(fl, a)),
        others := if a.offset == 0 then fl.others else fl.others + 1, at := at)
  }

  /** The flight after an arrival the receiver answered with r. */
  function Landed(fl: Flight, a: Arrival, stale: bool, at: nat, r: Status): Flight {
    if r == Ok then Arrived(Base(fl, stale), a, at) else Cleared(fl)
  }

  ghost predicate NoLiveHeader(s: State, id: nat) {
    forall i: nat :: !LiveHeader(s, i, id)
  }

  // ---- the invariant ----------------------------------------------------

  ghost predicate Quiet(s: State, id: nat)
    requires id < |s.ids|
  {
    s.ids[id] == CLEAN && NoLiveHeader(s, id)
  }

  /** The pair in the ring is a piece of the payload. */
  predicate PieceAt(cells: seq<Cell>, payload: seq<Byte>, pair: (nat, nat)) {
    && pair.0 < |cells| && pair.1 < |cells| && cells[pair.0].Header? && cells[pair.1].Payload?
    && cells[pair.0].meta.progress == |cells[pair.1].bytes| > 0
    && cells[pair.0].meta.fragOffset + |cells[pair.1].bytes| <= |payload|
    && cells[pair.1].bytes
       == payload[cells[pair.0].meta.fragOffset..cells[pair.0].meta.fragOffset + |cells[pair.1].bytes|]
  }

  predicate InPiece(cells: seq<Cell>, pair: (nat, nat), x: nat) {
    pair.0 < |cells| && cells[pair.0].Header?
    && cells[pair.0].meta.fragOffset <= x < cells[pair.0].meta.fragOffset + cells[pair.0].meta.progress
  }

  predicate PieceIn(cells: seq<Cell>, payload: seq<Byte>, e: Entry, j: nat) {
    j in e.addr && PieceAt(cells, payload, e.addr[j]) && (j > 0 ==> cells[e.addr[j].0].meta.fragOffset > 0)
  }

  predicate CoversByte(cells: seq<Cell>, e: Entry, j: nat, x: nat) {
    j in e.addr && InPiece(cells, e.addr[j], x)
  }

  /** The recorded pairs are pieces of the payload, and between them they hold
      exactly the bytes that are recorded. */
  ghost predicate PiecesCover(cells: seq<Cell>, payload: seq<Byte>, covered: set<nat>, e: Entry) {
    && (forall j: nat {:trigger PieceIn(cells, payload, e, j)} | j in e.addr :: PieceIn(cells, payload, e, j))
    && (forall j, x: nat | CoversByte(cells, e, j, x) :: x in covered)
    && (forall x | x in covered :: exists j :: CoversByte(cells, e, j, x))
  }

  predicate Counts(fl: Flight, e: Entry) {
    e.progress == |fl.covered| && e.lastPos == fl.others <= 9 && e.length == if 0 in e.addr then |fl.payload| else 0
  }

  ghost predicate FragmentsInv(cells: seq<Cell>, fl: Flight, e: Entry) {
    Counts(fl, e) && PiecesCover(cells, fl.payload, fl.covered, e)
  }

  ghost predicate WholeEntry(s: State, id: nat, fl: Flight, e: Entry) {
    e.addr == map[] && e.length == e.progress == |fl.payload| && Dirty(e)
    && LiveHeader(s, fl.at, id) && fl.covered == Between(0, |fl.payload|)
  }

  /** A header of the id that is not popped is of the datagram's kind; a whole one has
      the payload behind it. */
  predicate KindHeader(s: State, id: nat, payload: seq<Byte>, whole: bool, i: nat) {
    LiveHeader(s, i, id) ==>
      if whole then IsWhole(s.cells[i].meta) && i + 1 < |s.cells| && s.cells[i + 1] == Payload(payload)
      else !IsWhole(s.cells[i].meta)
  }

  ghost predicate OneKind(s: State, id: nat, payload: seq<Byte>, whole: bool) {
    forall i: nat {:trigger KindHeader(s, id, payload, whole, i)} :: KindHeader(s, id, payload, whole, i)
  }

  /** The entry of the flight's id. */
  ghost predicate EntryInv(s: State, id: nat, fl: Flight, e: Entry) {
    if fl.done then e == CLEAN
    else if fl.covered == {} then e == CLEAN && fl.others == 0
    else if fl.whole then WholeEntry(s, id, fl, e)
    else Dirty(e) && FragmentsInv(s.cells, fl, e)
  }

  predicate Sized(fl: Flight) {
    0 < |fl.payload| && |fl.payload| + 8 < 0x1_0000 && fl.covered <= Between(0, |fl.payload|)
  }

  ghost predicate FlightInv(s: State, id: nat, fl: Flight)
    requires id < |s.ids|
  {
    Sized(fl) && OneKind(s, id, fl.payload, fl.whole) && EntryInv(s, id, fl, s.ids[id])
  }

  // ---- carrying a flight over a step --------------------------------------

  /** The cells stay and no header of the id comes alive. */
  ghost predicate NoNewHeaders(s: State, s': State, id: nat) {
    Extends(s, s') && forall i: nat | LiveHeader(s', i, id) :: LiveHeader(s, i, id)
  }

  lemma CarryKind(s: State, s': State, id: nat, payload: seq<Byte>, whole: bool)
    requires OneKind(s, id, payload, whole) && NoNewHeaders(s, s', id)
    ensures OneKind(s', id, payload, whole)
  {
    assert forall i | 0 <= i < |s.cells| :: s'.cells[i] == s'.cells[..|s.cells|][i];
    forall i: nat ensures KindHeader(s', id, payload, whole, i) {
      assert KindHeader(s, id, payload, whole, i);
    }
  }

  lemma CarryEntryInv(s: State, s': State, id: nat, fl: Flight, e: Entry)
    requires EntryInv(s, id, fl, e) && Extends(s, s') && SameLive(s, s', id)
    ensures EntryInv(s', id, fl, e)
  {
    if !fl.done && fl.covered != {} && !fl.whole {
      assert forall i | 0 <= i < |s.cells| :: s'.cells[i] == s'.cells[..|s.cells|][i];
      CarryPieces(s.cells, s'.cells, fl.payload, fl.covered, e);
    }
  }

  lemma CarryFlight(s: State, s': State, id: nat, fl: Flight)
    requires id < |s.ids| && FlightInv(s, id, fl)
    requires Extends(s, s') && SameLive(s, s', id) && s'.ids[id] == s.ids[id]
    ensures FlightInv(s', id, fl)
  {
    CarryKind(s, s', id, fl.payload, fl.whole);
    CarryEntryInv(s, s', id, fl, s.ids[id]);
  }

  lemma CarryPieces(cells: seq<Cell>, cells': seq<Cell>, payload: seq<Byte>, covered: set<nat>, e: Entry)
    requires PiecesCover(cells, payload, covered, e)
    requires |cells| <= |cells'| && forall i | 0 <= i < |cells| :: cells'[i] == cells[i]
    ensures PiecesCover(cells', payload, covered, e)
  {
    forall j: nat | j in e.addr ensures PieceIn(cells', payload, e, j) {
      assert PieceIn(cells, payload, e, j);
    }
    forall j, x: nat | CoversByte(cells', e, j, x) ensures x in covered {
      assert PieceIn(cells, payload, e, j) && CoversByte(cells, e, j, x);
    }
    forall x | x in covered ensures exists j :: CoversByte(cells', e, j, x) {
      var j :| CoversByte(cells, e, j, x);
      assert CoversByte(cells', e, j, x);
    }
  }

  /** A clean entry whose datagram is done or has no byte recorded; headers of earlier
      attempts may still be in the ring. */
  lemma CleanFlight(s: State, s': State, id: nat, fl: Flight)
    requires id < |s.ids| && FlightInv(s, id, fl) && NoNewHeaders(s, s', id) && s'.ids[id] == CLEAN
    ensures FlightInv(s', id, Cleared(fl)) && (fl.done ==> FlightInv(s', id, fl))
  {
    CarryKind(s, s', id, fl.payload, fl.whole);
  }

  // ---- arrivals ---------------------------------------------------------

  /** The bytes of an arrival that fits are new, so the datagram did not come whole,
      and a whole one comes first. */
  lemma NewBytes(fl: Flight, a: Arrival)
    requires Fits(fl, a) && fl.covered <= Between(0, |fl.payload|)
    ensures RangeStart(a) !in fl.covered && fl.covered != Between(0, |fl.payload|)
    ensures fl.whole ==> fl.covered == {}
    ensures |fl.covered + Between(RangeStart(a), RangeEnd(fl, a))|
         == |fl.covered| + RangeEnd(fl, a) - RangeStart(a) <= |fl.payload|
  {
    var added := Between(RangeStart(a), RangeEnd(fl, a));
    assert RangeStart(a) in added;
    SubsetCount(fl.covered + added, Between(0, |fl.payload|));
    if fl.whole {
      assert fl.covered * added == fl.covered;
    }
  }

  /** Pushing a header and its payload under an id. */
  function Pushed(s: State, id: nat, m: Meta, bytes: seq<Byte>, e: Entry): State
    requires id < |s.ids|
  {
    s.(ids := s.ids[id := e], cells := s.cells + [Header(m), Payload(bytes)])
  }

  lemma PushKind(s: State, id: nat, m: Meta, bytes: seq<Byte>, e: Entry, payload: seq<Byte>, whole: bool)
    requires id < |s.ids| && m.id == id && OneKind(s, id, payload, whole)
    requires if whole then IsWhole(m) && bytes == payload else !IsWhole(m)
    ensures OneKind(Pushed(s, id, m, bytes, e), id, payload, whole)
  {
    var s' := Pushed(s, id, m, bytes, e);
    assert forall i | 0 <= i < |s.cells| :: s'.cells[i] == s.cells[i];
    forall i: nat ensures KindHeader(s', id, payload, whole, i) {
      assert KindHeader(s, id, payload, whole, i);
    }
  }

  lemma WholeEffect(cfg: Config, s: State, fl: Flight, a: Arrival, tm: nat, stale: bool)
    requires a.id < |s.ids| && Fits(fl, a) && fl.whole && |fl.payload| + 8 < 0x1_0000
    ensures var n := |fl.payload|;
      Receive(cfg, s, a, tm, stale, Both)
        == (Pushed(s, a.id, Meta(a.id, 0, n, n, tm), fl.payload, Entry(map[], 0, n, n, tm)), Ok)
  {
    var n := |fl.payload|;
    assert fl.payload[0..n] == fl.payload;
    assert Take(a.body, n) == fl.payload;
  }

  lemma WholeArrival(cfg: Config, s: State, fl: Flight, a: Arrival, tm: nat, stale: bool)
    requires a.id < |s.ids| && FlightInv(s, a.id, fl) && Fits(Base(fl, stale), a) && tm != 0
    requires fl.whole && s.popped <= |s.cells|
    ensures var (s', r) := Receive(cfg, s, a, tm, stale, Both);
      r == Ok && FlightInv(s', a.id, Arrived(Base(fl, stale), a, |s.cells|))
  {
    var n := |fl.payload|;
    var m, e := Meta(a.id, 0, n, n, tm), Entry(map[], 0, n, n, tm);
    NewBytes(Base(fl, stale), a);
    assert 0 in Between(0, n);
    WholeEffect(cfg, s, Base(fl, stale), a, tm, stale);
    PushKind(s, a.id, m, fl.payload, e, fl.payload, true);
  }

  /** What a fragment that fits leaves behind: its header, and its id's entry with
      one more pair recorded and its bytes counted. */
  function FragmentMeta(fl: Flight, a: Arrival, tm: nat): Meta {
    Meta(a.id, RangeStart(a), if a.offset == 0 then |fl.payload| else 0,
         if a.offset == 0 then U16(a.fragLen - 8) else a.fragLen, tm)
  }

  function FragmentIndex(e: Entry, a: Arrival): nat {
    if a.offset == 0 then 0 else e.lastPos + 1
  }

  function FragmentEntry(e: Entry, at: nat, fl: Flight, a: Arrival, tm: nat): Entry {
    Entry(e.addr[FragmentIndex(e, a) := (at, at + 1)],
          if a.offset == 0 then e.lastPos else e.lastPos + 1,
          if a.offset == 0 then |fl.payload| else e.length,
          e.progress + FragmentMeta(fl, a, tm).progress,
          if Dirty(e) then e.tm else tm)
  }

  function WithFragment(s: State, fl: Flight, e: Entry, a: Arrival, tm: nat): State
    requires a.id < |s.ids| && RangeStart(a) <= RangeEnd(fl, a) <= |fl.payload|
  {
    Pushed(s, a.id, FragmentMeta(fl, a, tm), fl.payload[RangeStart(a)..RangeEnd(fl, a)],
           FragmentEntry(e, |s.cells|, fl, a, tm))
  }

  /** The entry a fragment is added to, the first arrival and a late one included. */
  lemma FragmentsSoFar(s: State, id: nat, fl: Flight, stale: bool)
    requires id < |s.ids| && FlightInv(s, id, fl) && RecordedEntry(s, id, s.ids[id]) && !fl.whole && !fl.done
    ensures var e := s.ids[id]; Expire(e, stale) == if stale then CLEAN else e
    ensures var x, base := Expire(s.ids[id], stale), Base(fl, stale);
      FragmentsInv(s.cells, base, x) && RecordedEntry(s, id, x) && !FromWhole(x) && Sized(base)
  {
    SubsetCount(fl.covered, Between(0, |fl.payload|));
    assert FragmentsInv(s.cells, Cleared(fl), CLEAN);
  }

  lemma IndexIsFree(s: State, id: nat, fl: Flight, e: Entry, a: Arrival)
    requires FragmentsInv(s.cells, fl, e) && RecordedEntry(s, id, e) && RangeStart(a) !in fl.covered
    ensures FragmentIndex(e, a) !in e.addr
  {
    if FragmentIndex(e, a) in e.addr {
      assert RecordedPair(s, id, e, FragmentIndex(e, a));
      assert PieceIn(s.cells, fl.payload, e, 0) && CoversByte(s.cells, e, 0, 0);
    }
  }

  lemma FirstEffect(cfg: Config, s: State, fl: Flight, a: Arrival, tm: nat, stale: bool)
    requires a.id < |s.ids| && Fits(fl, a) && tm != 0 && a.offset == 0 && a.more
    requires var x := Expire(s.ids[a.id], stale);
      x.progress + RangeEnd(fl, a) - RangeStart(a) <= |fl.payload| < 0x1_0000 - 8
    ensures Receive(cfg, s, a, tm, stale, Both) == (WithFragment(s, fl, Expire(s.ids[a.id], stale), a, tm), Ok)
  {
    assert Take(a.body, RangeEnd(fl, a)) == fl.payload[0..RangeEnd(fl, a)];
  }

  lemma OtherEffect(cfg: Config, s: State, fl: Flight, a: Arrival, tm: nat, stale: bool)
    requires a.id < |s.ids| && Fits(fl, a) && tm != 0 && a.offset > 8 && !Oversteps(cfg, s, a, stale, Both)
    requires s.ids[a.id].lastPos * cfg.mtu + a.fragLen <= cfg.bufferSize
    requires var x := Expire(s.ids[a.id], stale);
      x.progress + RangeEnd(fl, a) - RangeStart(a) <= |fl.payload| < 0x1_0000 - 8
    ensures Receive(cfg, s, a, tm, stale, Both) == (WithFragment(s, fl, Expire(s.ids[a.id], stale), a, tm), Ok)
  {
    assert Take(a.body, a.fragLen) == fl.payload[RangeStart(a)..RangeEnd(fl, a)];
    assert s.(broken := s.broken || false) == s;
  }

  /** Recording one more pair adds its bytes. */
  lemma PiecesMore(cells: seq<Cell>, payload: seq<Byte>, covered: set<nat>, e: Entry, e': Entry,
                   j0: nat, pair: (nat, nat), lo: nat, hi: nat)
    requires PiecesCover(cells, payload, covered, e) && j0 !in e.addr && e'.addr == e.addr[j0 := pair]
    requires PieceAt(cells, payload, pair) && (j0 > 0 ==> lo > 0)
    requires cells[pair.0].meta.fragOffset == lo && cells[pair.0].meta.progress == hi - lo
    ensures PiecesCover(cells, payload, covered + Between(lo, hi), e')
  {
    forall j: nat | j in e'.addr ensures PieceIn(cells, payload, e', j) {
      assert j != j0 ==> PieceIn(cells, payload, e, j);
    }
    forall j, x: nat | CoversByte(cells, e', j, x) ensures x in covered + Between(lo, hi) {
      CoveredOrNew(cells, payload, covered, e, e', j0, pair, j, x);
    }
    forall x | x in covered + Between(lo, hi) ensures exists j :: CoversByte(cells, e', j, x) {
      CoversMore(cells, covered, e, e', j0, pair, lo, hi, x);
    }
  }

  lemma CoveredOrNew(cells: seq<Cell>, payload: seq<Byte>, covered: set<nat>, e: Entry, e': Entry, j0: nat,
                     pair: (nat, nat), j: nat, x: nat)
    requires PiecesCover(cells, payload, covered, e) && e'.addr == e.addr[j0 := pair] && CoversByte(cells, e', j, x)
    ensures x in covered || InPiece(cells, pair, x)
  {
    assert j != j0 ==> CoversByte(cells, e, j, x);
  }

  lemma CoversMore(cells: seq<Cell>, covered: set<nat>, e: Entry, e': Entry, j0: nat, pair: (nat, nat), lo: nat,
                   hi: nat, x: nat)
    requires j0 !in e.addr && e'.addr == e.addr[j0 := pair] && x in covered + Between(lo, hi)
    requires x in covered ==> exists j :: CoversByte(cells, e, j, x)
    requires lo <= x < hi ==> InPiece(cells, pair, x)
    ensures exists j :: CoversByte(cells, e', j, x)
  {
    if x in covered {
      var j :| CoversByte(cells, e, j, x);
      assert CoversByte(cells, e', j, x);
    } else {
      assert CoversByte(cells, e', j0, x);
    }
  }

  lemma FragmentPieces(s: State, fl: Flight, e: Entry, a: Arrival, tm: nat)
    requires a.id < |s.ids| && Fits(fl, a) && !fl.whole && (a.offset == 0 || a.offset > 8)
    requires FragmentIndex(e, a) !in e.addr && PiecesCover(s.cells, fl.payload, fl.covered, e)
    ensures PiecesCover(WithFragment(s, fl, e, a, tm).cells, fl.payload, Arrived(fl, a, |s.cells|).covered,
                        FragmentEntry(e, |s.cells|, fl, a, tm))
  {
    var s' := WithFragment(s, fl, e, a, tm);
    CarryPieces(s.cells, s'.cells, fl.payload, fl.covered, e);
    PiecesMore(s'.cells, fl.payload, fl.covered, e, FragmentEntry(e, |s.cells|, fl, a, tm), FragmentIndex(e, a),
               (|s.cells|, |s.cells| + 1), RangeStart(a), RangeEnd(fl, a));
  }

  lemma FragmentCounts(fl: Flight, e: Entry, a: Arrival, tm: nat, at: nat)
    requires Fits(fl, a) && !fl.whole && Counts(fl, e) && (a.offset != 0 ==> e.lastPos < 9)
    requires |fl.covered + Between(RangeStart(a), RangeEnd(fl, a))|
          == |fl.covered| + RangeEnd(fl, a) - RangeStart(a)
    ensures Counts(Arrived(fl, a, at), FragmentEntry(e, at, fl, a, tm))
  {
  }

  lemma FragmentKind(s: State, fl: Flight, e: Entry, a: Arrival, tm: nat)
    requires a.id < |s.ids| && Fits(fl, a) && !fl.whole && OneKind(s, a.id, fl.payload, false)
    ensures OneKind(WithFragment(s, fl, e, a, tm), a.id, fl.payload, false)
  {
    PushKind(s, a.id, FragmentMeta(fl, a, tm), fl.payload[RangeStart(a)..RangeEnd(fl, a)],
             FragmentEntry(e, |s.cells|, fl, a, tm), fl.payload, false);
  }

  lemma FragmentRecorded(s: State, fl: Flight, e: Entry, a: Arrival, tm: nat)
    requires a.id < |s.ids| && Fits(fl, a) && !fl.whole && (a.offset == 0 || (a.offset > 8 && e.lastPos < 9))
    requires Sized(fl) && FragmentsInv(s.cells, fl, e) && RecordedEntry(s, a.id, e)
    ensures FragmentsInv(WithFragment(s, fl, e, a, tm).cells, Arrived(fl, a, |s.cells|),
                         FragmentEntry(e, |s.cells|, fl, a, tm))
    ensures Sized(Arrived(fl, a, |s.cells|)) && Arrived(fl, a, |s.cells|).covered != {}
  {
    NewBytes(fl, a);
    IndexIsFree(s, a.id, fl, e, a);
    FragmentPieces(s, fl, e, a, tm);
    FragmentCounts(fl, e, a, tm, |s.cells|);
    assert RangeStart(a) in Arrived(fl, a, |s.cells|).covered;
  }

  /** A fragment that is recorded, as far as its own flight goes. */
  lemma FragmentArrival(s: State, fl: Flight, e: Entry, a: Arrival, tm: nat)
    requires a.id < |s.ids| && Fits(fl, a) && !fl.whole && (a.offset == 0 || (a.offset > 8 && e.lastPos < 9)) && tm != 0
    requires Sized(fl) && OneKind(s, a.id, fl.payload, false)
    requires FragmentsInv(s.cells, fl, e) && RecordedEntry(s, a.id, e)
    ensures FlightInv(WithFragment(s, fl, e, a, tm), a.id, Arrived(fl, a, |s.cells|))
  {
    FragmentKind(s, fl, e, a, tm);
    FragmentRecorded(s, fl, e, a, tm);
    FlightFrom(WithFragment(s, fl, e, a, tm), a.id, Arrived(fl, a, |s.cells|));
  }

  lemma FlightFrom(s: State, id: nat, fl: Flight)
    requires id < |s.ids| && Sized(fl) && OneKind(s, id, fl.payload, false) && !fl.whole && !fl.done
    requires fl.covered != {} && Dirty(s.ids[id]) && FragmentsInv(s.cells, fl, s.ids[id])
    ensures FlightInv(s, id, fl)
  {
  }

  /** The receiver does not record the arrival: the id is cleared, nothing is pushed. */
  lemma RefusedArrival(cfg: Config, s: State, fl: Flight, a: Arrival, tm: nat, stale: bool, push: Pushes)
    requires a.id < |s.ids| && FlightInv(s, a.id, fl) && push != PayloadRefused
    requires Receive(cfg, s, a, tm, stale, push).1 != Ok
    ensures FlightInv(Receive(cfg, s, a, tm, stale, push).0, a.id, Cleared(fl))
  {
    CleanFlight(s, Receive(cfg, s, a, tm, stale, push).0, a.id, fl);
  }

  /** A fragment that the receiver records. */
  lemma RecordedArrival(cfg: Config, s: State, fl: Flight, a: Arrival, tm: nat, stale: bool)
    requires a.id < |s.ids| && FlightInv(s, a.id, fl) && Fits(Base(fl, stale), a) && tm != 0 && !fl.whole
    requires RecordedEntry(s, a.id, s.ids[a.id]) && !Oversteps(cfg, s, a, stale, Both)
    requires a.offset == 0 || (a.offset > 8 && s.ids[a.id].lastPos * cfg.mtu + a.fragLen <= cfg.bufferSize)
    ensures var (s', r) := Receive(cfg, s, a, tm, stale, Both);
      r == Ok && FlightInv(s', a.id, Arrived(Base(fl, stale), a, |s.cells|))
  {
    var x, base := Expire(s.ids[a.id], stale), Base(fl, stale);
    FragmentsSoFar(s, a.id, fl, stale);
    NewBytes(base, a);
    if a.offset == 0 {
      FirstEffect(cfg, s, base, a, tm, stale);
    } else {
      OtherEffect(cfg, s, base, a, tm, stale);
    }
    FragmentArrival(s, base, x, a, tm);
  }

  /** One arrival, recorded or refused, in time or late. */
  lemma ArrivalFlight(cfg: Config, s: State, fl: Flight, a: Arrival, tm: nat, stale: bool, push: Pushes)
    requires a.id < |s.ids| && FlightInv(s, a.id, fl) && Fits(Base(fl, stale), a) && tm != 0
    requires RecordedEntry(s, a.id, s.ids[a.id]) && s.popped <= |s.cells|
    requires push != PayloadRefused && !Oversteps(cfg, s, a, stale, push)
    ensures var (s', r) := Receive(cfg, s, a, tm, stale, push);
      FlightInv(s', a.id, Landed(fl, a, stale, |s.cells|, r))
  {
    if Receive(cfg, s, a, tm, stale, push).1 != Ok {
      RefusedArrival(cfg, s, fl, a, tm, stale, push);
    } else if fl.whole {
      WholeArrival(cfg, s, fl, a, tm, stale);
    } else {
      RecordedArrival(cfg, s, fl, a, tm, stale);
    }
  }

  /** No fragment comes under the id of a whole packet, nor the other way round. */
  lemma ArrivalUnmixed(s: State, fl: Flight, a: Arrival, stale: bool)
    requires a.id < |s.ids| && FlightInv(s, a.id, fl) && Fits(Base(fl, stale), a)
    requires RecordedEntry(s, a.id, s.ids[a.id])
    ensures NoMixing(s, a, stale)
  {
    if fl.whole {
      forall i: nat | LiveHeader(s, i, a.id) ensures IsWhole(s.cells[i].meta) {
        assert KindHeader(s, a.id, fl.payload, true, i);
      }
    }
  }

  // ---- the consumer -----------------------------------------------------

  /** The copy loop writes every piece where it belongs; it fails only when the buffer
      is too small. */
  lemma {:induction false} AssembleCopies(
    cells: seq<Cell>, e: Entry, pos: nat, buf: seq<Byte>, len: nat, payload: seq<Byte>)
    requires pos <= e.lastPos + 1
    requires forall j: nat {:trigger PieceIn(cells, payload, e, j)} | j <= e.lastPos :: PieceIn(cells, payload, e, j)
    ensures |payload| <= |buf| ==> Assemble(cells, e, pos, buf, len).Delivered?
    ensures Assemble(cells, e, pos, buf, len).Delivered? ==>
      var Delivered(out, n) := Assemble(cells, e, pos, buf, len);
      && |out| == |buf| && (pos > 0 ==> n == len)
      && (pos == 0 ==> PieceIn(cells, payload, e, 0) && n == cells[e.addr[0].0].meta.length)
      && (forall x: nat | x < |payload| && x < |buf| && buf[x] == payload[x] :: out[x] == payload[x])
      && (forall j, x: nat | pos <= j <= e.lastPos && CoversByte(cells, e, j, x) ::
            x < |payload| && x < |buf| && out[x] == payload[x])
    decreases e.lastPos + 1 - pos
  {
    if pos <= e.lastPos {
      assert PieceIn(cells, payload, e, pos);
      var m, bytes := cells[e.addr[pos].0].meta, cells[e.addr[pos].1].bytes;
      if m.fragOffset + |bytes| <= |buf| {
        PutPiece(cells, payload, buf, e.addr[pos]);
        AssembleCopies(cells, e, pos + 1, Put(buf, m.fragOffset, bytes), if pos == 0 then m.length else len, payload);
      }
    }
  }

  lemma PutPiece(cells: seq<Cell>, payload: seq<Byte>, buf: seq<Byte>, pair: (nat, nat))
    requires PieceAt(cells, payload, pair) && cells[pair.0].meta.fragOffset + |cells[pair.1].bytes| <= |buf|
    ensures var put := Put(buf, cells[pair.0].meta.fragOffset, cells[pair.1].bytes);
      forall x: nat | x < |payload| && x < |buf| && (buf[x] == payload[x] || InPiece(cells, pair, x)) ::
        put[x] == payload[x]
    ensures forall x: nat | InPiece(cells, pair, x) :: x < |payload| && x < |buf|
  {
  }

  /** With the count full every byte is in a recorded piece of index at most lastPos. */
  lemma EveryByteRecorded(s: State, id: nat, fl: Flight, x: nat) returns (j: nat)
    requires id < |s.ids| && RecordedEntry(s, id, s.ids[id]) && FragmentsInv(s.cells, fl, s.ids[id]) && x in fl.covered
    ensures j <= s.ids[id].lastPos && CoversByte(s.cells, s.ids[id], j, x)
  {
    j :| CoversByte(s.cells, s.ids[id], j, x);
    assert RecordedPair(s, id, s.ids[id], j);
  }

  lemma CompleteCovers(fl: Flight, e: Entry)
    requires Counts(fl, e) && Sized(fl) && Settled(e)
    ensures Complete(e) && fl.covered == Between(0, |fl.payload|) && 0 in e.addr && e.length == |fl.payload|
  {
    SubsetCount(fl.covered, Between(0, |fl.payload|));
  }

  lemma AllPieces(s: State, id: nat, fl: Flight, e: Entry)
    requires RecordedEntry(s, id, e) && FragmentsInv(s.cells, fl, e) && 0 in e.addr
    ensures forall j: nat {:trigger PieceIn(s.cells, fl.payload, e, j)} | j <= e.lastPos ::
              PieceIn(s.cells, fl.payload, e, j)
  {
    forall j: nat | j <= e.lastPos ensures PieceIn(s.cells, fl.payload, e, j) {
      assert j in e.addr;
    }
  }

  /** A byte of the payload in what was assembled. */
  lemma ByteAssembled(s: State, id: nat, fl: Flight, buf: seq<Byte>, x: nat)
    requires id < |s.ids| && RecordedEntry(s, id, s.ids[id]) && FragmentsInv(s.cells, fl, s.ids[id]) && Sized(fl)
    requires Settled(s.ids[id]) && x < |fl.payload| && Assemble(s.cells, s.ids[id], 0, buf, 0).Delivered?
    ensures x < |buf| == |Assemble(s.cells, s.ids[id], 0, buf, 0).buf|
    ensures Assemble(s.cells, s.ids[id], 0, buf, 0).buf[x] == fl.payload[x]
  {
    CompleteCovers(fl, s.ids[id]);
    AllPieces(s, id, fl, s.ids[id]);
    AssembleCopies(s.cells, s.ids[id], 0, buf, 0, fl.payload);
    var j := EveryByteRecorded(s, id, fl, x);
  }

  lemma LengthAssembled(s: State, id: nat, fl: Flight, buf: seq<Byte>)
    requires id < |s.ids| && RecordedEntry(s, id, s.ids[id]) && FragmentsInv(s.cells, fl, s.ids[id]) && Sized(fl)
    requires Settled(s.ids[id])
    ensures |fl.payload| <= |buf| ==> Assemble(s.cells, s.ids[id], 0, buf, 0).Delivered?
    ensures var r := Assemble(s.cells, s.ids[id], 0, buf, 0); r.Delivered? ==> r.len == |fl.payload|
  {
    CompleteCovers(fl, s.ids[id]);
    AllPieces(s, id, fl, s.ids[id]);
    AssembleCopies(s.cells, s.ids[id], 0, buf, 0, fl.payload);
    assert RecordedPair(s, id, s.ids[id], 0);
  }

  /** With the id settled the fragments cover the payload; assembling succeeds exactly
      when the buffer is large enough, and then gives the payload. */
  lemma AssembledPayload(s: State, id: nat, fl: Flight, buf: seq<Byte>)
    requires id < |s.ids| && RecordedEntry(s, id, s.ids[id]) && FragmentsInv(s.cells, fl, s.ids[id]) && Sized(fl)
    requires Settled(s.ids[id])
    ensures Complete(s.ids[id]) && fl.covered == Between(0, |fl.payload|)
    ensures Assemble(s.cells, s.ids[id], 0, buf, 0).Delivered? <==> |fl.payload| <= |buf|
    ensures |fl.payload| <= |buf| ==>
      var Delivered(out, n) := Assemble(s.cells, s.ids[id], 0, buf, 0);
      n == |fl.payload| <= |out| && out[..n] == fl.payload
  {
    var r := Assemble(s.cells, s.ids[id], 0, buf, 0);
    CompleteCovers(fl, s.ids[id]);
    LengthAssembled(s, id, fl, buf);
    if r.Delivered? {
      ByteAssembled(s, id, fl, buf, |fl.payload| - 1);
      forall x: nat | x < |fl.payload| ensures r.buf[x] == fl.payload[x] {
        ByteAssembled(s, id, fl, buf, x);
      }
    }
  }

  function Shown(buf: seq<Byte>, len: nat): seq<Byte> {
    if len <= |buf| then buf[..len] else buf
  }

  /** The consumer holds a header of the flight's id, its payload behind. */
  ghost predicate Holding(s: State, id: nat) {
    s.held.Some? && s.held.value.id == id < |s.ids| && 0 < s.popped < |s.cells|
    && s.cells[s.popped - 1] == Header(s.held.value)
  }

  lemma HeldKind(s: State, id: nat, payload: seq<Byte>, whole: bool)
    requires Holding(s, id) && OneKind(s, id, payload, whole)
    ensures if whole then IsWhole(s.held.value) && s.cells[s.popped] == Payload(payload) else !IsWhole(s.held.value)
  {
    assert LiveHeader(s, s.popped - 1, id) && KindHeader(s, id, payload, whole, s.popped - 1);
  }

  /** What one call of the consumer does with the flight of its header, timed out or
      not: it delivers nothing but the whole datagram, byte for byte, and that it does
      exactly when the id is settled and the buffer large enough. A buffer too small is
      noticed for fragments; a whole packet is written past its end. */
  lemma FinishFlight(s: State, id: nat, fl: Flight, timedOut: bool, buf: seq<Byte>)
    requires Holding(s, id) && FlightInv(s, id, fl) && RecordedEntry(s, id, s.ids[id])
    ensures var outcome := Finish(s, timedOut, buf).1;
      && (outcome.Delivered? <==> Settled(s.ids[id]) && |fl.payload| <= |buf|)
      && (outcome.Delivered? ==> !fl.done && fl.covered == Between(0, |fl.payload|) && outcome.len == |fl.payload|
                                 && Shown(outcome.buf, outcome.len) == fl.payload)
      && (outcome.Waits? <==> !Settled(s.ids[id]) && !timedOut)
    ensures Overruns(s, buf) <==> fl.whole && Settled(s.ids[id]) && |fl.payload| > |buf|
  {
    HeldKind(s, id, fl.payload, fl.whole);
    if Settled(s.ids[id]) {
      if fl.whole {
        if |fl.payload| <= |buf| {
          assert Put(buf, 0, fl.payload)[..|fl.payload|] == fl.payload;
        }
      } else {
        AssembledPayload(s, id, fl, buf);
      }
    }
  }

  /** Bytes 0 of a datagram whose bytes are all recorded came with the first fragment. */
  lemma HoldsFirst(cells: seq<Cell>, fl: Flight, e: Entry)
    requires FragmentsInv(cells, fl, e) && 0 in fl.covered
    ensures 0 in e.addr
  {
    var j :| CoversByte(cells, e, j, 0);
    assert PieceIn(cells, fl.payload, e, j);
  }

  predicate Drained(s: State) {
    s.held.None? && s.popped == |s.cells|
  }

  /** A datagram whose bytes are all recorded, and that is not delivered, keeps the ring
      from being empty, and its id is settled. */
  lemma NotDrained(s: State, id: nat, fl: Flight)
    requires id < |s.ids| && FlightInv(s, id, fl) && RecordedEntry(s, id, s.ids[id])
    requires !fl.done && fl.covered == Between(0, |fl.payload|)
    ensures !Drained(s) && Settled(s.ids[id])
  {
    assert 0 in fl.covered;
    if fl.whole {
      assert Live(s, fl.at);
    } else {
      HoldsFirst(s.cells, fl, s.ids[id]);
      assert RecordedPair(s, id, s.ids[id], 0);
    }
  }
}
