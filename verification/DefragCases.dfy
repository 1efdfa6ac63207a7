/** The reassembler's operations case by case, on the fields they read: what an arrival
    records, what a pop keeps, and what the consumer's call answers. */
module DefragCases {
  import opened Wrappers
  import opened Checksum
  import opened Frames
  import opened Defrag
  import opened DefragInvariant

  // ---- an arrival -------------------------------------------------------

  /** A whole packet, or a fragment that passes the tests before the pushes. */
  predicate Accepted(cfg: Config, s: State, a: Arrival)
    requires a.id < |s.ids|
  {
    (a.offset == 0 && !a.more) || Passes(cfg, s, a)
  }

  /** What is pushed: the header, and as many bytes behind it as it counts. */
  function PushedCells(a: Arrival, tm: nat, push: Pushes): seq<Cell> {
    match push
    case Both => [Header(MetaOf(a, tm)), Payload(Take(a.body, PushLen(a)))]
    case HeaderRefused => []
    case PayloadRefused => [Header(MetaOf(a, tm))]
  }

  /** The answer, the ring and the rest of the table after an arrival: only an accepted one
      is pushed, only its own id changes, and every failure clears that id. */
  lemma ReceiveAnswers(cfg: Config, s: State, a: Arrival, tm: nat, stale: bool, push: Pushes)
    requires a.id < |s.ids|
    ensures var (s', r) := Receive(cfg, s, a, tm, stale, push);
      && r == (if !Accepted(cfg, s, a) then General else if push.Both? then Ok else Refused)
      && s'.cells == s.cells + (if Accepted(cfg, s, a) then PushedCells(a, tm, push) else [])
      && s'.popped == s.popped && s'.held == s.held
      && |s'.ids| == |s.ids| && s'.ids == s.ids[a.id := s'.ids[a.id]] && (r != Ok ==> s'.ids[a.id] == CLEAN)
  {
    var s' := Receive(cfg, s, a, tm, stale, push).0;
    assert s.cells + [] == s.cells;
  }

  /** What an id holds does not count any more: it is too old, all ten places are used, or
      it holds more bytes than its length. */
  predicate Outdated(e: Entry, stale: bool) {
    stale || e.lastPos >= 10 || (e.length != 0 && e.progress > e.length)
  }

  /** What is left of an id's entry when a fragment comes. */
  predicate Remains(e: Entry, stale: bool, x: Entry) {
    if e.tm != 0 && Outdated(e, stale) then x == Entry(map[], 0, 0, 0, 0) else x == e
  }

  /** A whole packet replaces what its id held. */
  lemma WholeEntry(cfg: Config, s: State, a: Arrival, tm: nat, stale: bool)
    requires a.id < |s.ids| && a.offset == 0 && !a.more
    ensures var e' := Receive(cfg, s, a, tm, stale, Both).0.ids[a.id];
      e'.addr == map[] && e'.lastPos == 0 && e'.tm == tm && e'.length == e'.progress == U16(a.udpLen - 8)
    ensures Receive(cfg, s, a, tm, stale, Both).0.broken == s.broken
  {
  }

  /** A fragment is added to what remains of its id: the first at place 0 with the length,
      another one place further; its bytes count; the first to come sets the time. It
      breaks the entry exactly if it goes to place ten. */
  lemma FragmentEntry(cfg: Config, s: State, a: Arrival, tm: nat, stale: bool, x: Entry)
    requires a.id < |s.ids| && Passes(cfg, s, a) && Remains(s.ids[a.id], stale, x)
    ensures var s', n := Receive(cfg, s, a, tm, stale, Both).0, |s.cells|;
      var e' := s'.ids[a.id];
      && e'.tm == (if x.tm == 0 then tm else x.tm)
      && e'.addr == x.addr[if a.offset == 0 then 0 else x.lastPos + 1 := (n, n + 1)]
      && e'.lastPos == (if a.offset == 0 then x.lastPos else x.lastPos + 1)
      && e'.length == (if a.offset == 0 then U16(a.udpLen - 8) else x.length)
      && e'.progress == U16(x.progress + PushLen(a))
      && (s'.broken <==> s.broken || (a.offset != 0 && x.lastPos + 1 >= 10))
  {
  }

  // ---- a pop ------------------------------------------------------------

  /** Popping keeps a header whose id is in use; any other cell goes with the one behind it;
      and nothing else changes. */
  lemma TakeAnswers(s: State)
    ensures var s' := TakeHeader(s);
      s'.ids == s.ids && s'.cells == s.cells && s'.broken == s.broken
    ensures s.held.Some? || s.popped >= |s.cells| ==> TakeHeader(s) == s
    ensures s.held.None? && s.popped < |s.cells| ==>
      var s', top := TakeHeader(s), s.cells[s.popped];
      if top.Header? && top.meta.id < |s.ids| && s.ids[top.meta.id].tm != 0 then
        s'.held == Some(top.meta) && s'.popped == s.popped + 1
      else s'.held.None? && s'.popped == if s.popped + 1 < |s.cells| then s.popped + 2 else s.popped + 1
  {
  }

  // ---- the consumer's call ----------------------------------------------

  /** The consumer holds a header, and its cell is in the ring. */
  predicate InCall(s: State) {
    s.held.Some? && s.held.value.id < |s.ids| && s.popped < |s.cells|
  }

  /** Nothing is known of the length, or bytes are missing. */
  predicate Missing(e: Entry) { e.length == 0 || e.progress < e.length }

  /** More bytes were counted than the length says. */
  predicate Overfull(e: Entry) { e.length != 0 && e.progress > e.length }

  /** The call waits exactly while bytes are missing and its time is not over, and changes
      nothing. It ends in clearing the id and popping the header's own payload. */
  lemma FinishEnds(s: State, timedOut: bool, buf: seq<Byte>)
    requires InCall(s)
    ensures var (s', outcome), id := Finish(s, timedOut, buf), s.held.value.id;
      && (outcome.Waits? <==> Missing(s.ids[id]) && !timedOut)
      && (outcome.Waits? ==> s' == s)
      && (!outcome.Waits? ==>
            s' == s.(ids := s.ids[id := Entry(map[], 0, 0, 0, 0)], popped := s.popped + 1, held := None,
                     broken := s.broken || outcome.Overrun?))
  {
  }

  lemma NotInCall(s: State, timedOut: bool, buf: seq<Byte>)
    requires !InCall(s)
    ensures Finish(s, timedOut, buf) == (s, Waits)
  {
  }

  /** Whatever the count of an id, only an exact one is delivered: an id with too many bytes
      is dropped whether the time is over or not, one with too few once it is over. */
  lemma OnlyExactCounts(s: State, timedOut: bool, buf: seq<Byte>)
    requires InCall(s)
    ensures var e, outcome := s.ids[s.held.value.id], Finish(s, timedOut, buf).1;
      && (Overfull(e) ==> outcome == Ignored)
      && (Missing(e) ==> outcome == if timedOut then Ignored else Waits)
      && (outcome.Delivered? || outcome.Overrun? || outcome.Misread? ==> e.length != 0 && e.progress == e.length)
  {
  }

  /** A header that counts all its bytes is a whole packet's: the next cell is output at the
      start of the buffer, whose rest stays as it was; a longer one overruns it. */
  lemma WholeAnswers(s: State, timedOut: bool, buf: seq<Byte>)
    requires InCall(s) && s.ids[s.held.value.id].length == s.ids[s.held.value.id].progress != 0
    requires s.held.value.length == s.held.value.progress != 0
    ensures match s.cells[s.popped]
      case Header(_) => Finish(s, timedOut, buf).1 == Misread
      case Payload(bytes) =>
        if |bytes| <= |buf| then Finish(s, timedOut, buf).1 == Delivered(bytes + buf[|bytes|..], |bytes|)
        else Finish(s, timedOut, buf).1 == Overrun
  {
    assert buf[..0] == [];
  }

  /** Piece j of an entry can be copied: a header that counts bytes, a payload, and room. */
  predicate Copyable(cells: seq<Cell>, e: Entry, j: nat, room: nat) {
    var (hdr, pyld) := AddrOf(e, j);
    && hdr < |cells| && pyld < |cells| && cells[hdr].Header? && cells[pyld].Payload?
    && cells[hdr].meta.progress != 0 && cells[hdr].meta.fragOffset + |cells[pyld].bytes| <= room
  }

  /** Byte x of the buffer lies in piece j. */
  predicate Writes(cells: seq<Cell>, e: Entry, j: nat, x: nat, room: nat) {
    Copyable(cells, e, j, room) &&
    var (hdr, pyld) := AddrOf(e, j);
    cells[hdr].meta.fragOffset <= x < cells[hdr].meta.fragOffset + |cells[pyld].bytes|
  }

  lemma CopiesOne(cells: seq<Cell>, e: Entry, pos: nat, buf: seq<Byte>, len: nat)
    requires pos <= e.lastPos && Copyable(cells, e, pos, |buf|)
    ensures var (hdr, pyld) := AddrOf(e, pos);
      Assemble(cells, e, pos, buf, len)
      == Assemble(cells, e, pos + 1, Put(buf, cells[hdr].meta.fragOffset, cells[pyld].bytes),
                  if pos == 0 then cells[hdr].meta.length else len)
  {
  }

  lemma StopsAt(cells: seq<Cell>, e: Entry, pos: nat, buf: seq<Byte>, len: nat)
    requires pos <= e.lastPos && !Copyable(cells, e, pos, |buf|)
    ensures !Assemble(cells, e, pos, buf, len).Delivered?
  {
    var (hdr, pyld) := AddrOf(e, pos);
    if hdr < |cells| && cells[hdr].Header? && cells[hdr].meta.progress != 0 && cells[hdr].meta.fragOffset <= |buf| {
      assert pyld < |cells| && cells[pyld].Payload? ==> |cells[pyld].bytes| > |buf| - cells[hdr].meta.fragOffset;
    }
  }

  predicate Untouched(cells: seq<Cell>, e: Entry, pos: nat, x: nat, room: nat) {
    forall j: nat | pos <= j <= e.lastPos :: !Writes(cells, e, j, x, room)
  }

  /** The copy loop delivers exactly when every piece can be copied; the length is that of
      place 0, and bytes in no piece stay as they were. */
  lemma {:induction false} AssembleAnswers(cells: seq<Cell>, e: Entry, pos: nat, buf: seq<Byte>, len: nat)
    requires pos <= e.lastPos + 1
    ensures var r := Assemble(cells, e, pos, buf, len);
      && (r.Delivered? <==> forall j: nat | pos <= j <= e.lastPos :: Copyable(cells, e, j, |buf|))
      && (r.Delivered? ==> |r.buf| == |buf|)
      && (r.Delivered? ==> r.len == if pos == 0 then cells[AddrOf(e, 0).0].meta.length else len)
      && (r.Delivered? ==> forall x: nat | x < |buf| && Untouched(cells, e, pos, x, |buf|) :: r.buf[x] == buf[x])
    decreases e.lastPos + 1 - pos
  {
    if pos <= e.lastPos {
      if Copyable(cells, e, pos, |buf|) {
        var (hdr, pyld) := AddrOf(e, pos);
        var m, bytes := cells[hdr].meta, cells[pyld].bytes;
        var put := Put(buf, m.fragOffset, bytes);
        AssembleAnswers(cells, e, pos + 1, put, if pos == 0 then m.length else len);
        forall x: nat | x < |buf| && Untouched(cells, e, pos, x, |buf|)
          ensures put[x] == buf[x] && Untouched(cells, e, pos + 1, x, |buf|)
        {
          assert !Writes(cells, e, pos, x, |buf|);
        }
      } else {
        StopsAt(cells, e, pos, buf, len);
      }
    }
  }

  /** A header of a fragment leads to the copy loop. */
  lemma FragmentAnswers(s: State, timedOut: bool, buf: seq<Byte>)
    requires InCall(s) && s.ids[s.held.value.id].length == s.ids[s.held.value.id].progress != 0
    requires s.held.value.length == 0 || s.held.value.progress != s.held.value.length
    ensures Finish(s, timedOut, buf).1 == Assemble(s.cells, s.ids[s.held.value.id], 0, buf, 0)
  {
  }
}
