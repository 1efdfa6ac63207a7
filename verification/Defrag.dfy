/** The reassembler as functions on its state: the id table, the ring that carries
    fragments from the capture thread to the consumer, and the consumer's position.

    The ring cbuf_pked_* is not part of this repository. The model takes it as an
    append-only sequence of cells with a pop index; a push that succeeds returns the
    position of its cell, and a blind copy reads the cell at a position. */
module Defrag {
  import opened Wrappers
  import opened Checksum
  import opened Frames

  const UDP_IDS_COUNT: nat := 0x1_0000
  const MAXIMUM_FRAGMENT_MADE: nat := 10

  /** ETHERNET_MTU and BUFFER_SIZE, fixed by headers outside this repository. */
  datatype Config = Config(mtu: nat, bufferSize: nat)

  /** dfrg_udp_metadata. A cell is a header exactly when its marker checks. */
  datatype Meta = Meta(id: nat, fragOffset: nat, length: nat, progress: nat, tm: nat)
  datatype Cell = Header(meta: Meta) | Payload(bytes: seq<Byte>)

  /** udp_part. addr holds the recorded ring positions of header and payload; tm is
      the second of the first arrival and doubles as the dirty mark. */
  datatype Entry = Entry(addr: map<nat, (nat, nat)>, lastPos: nat, length: nat, progress: nat, tm: nat)

  const CLEAN := Entry(map[], 0, 0, 0, 0)

  predicate Dirty(e: Entry) { e.tm != 0 }

  predicate Complete(e: Entry) { e.length != 0 && e.progress == e.length }

  /** The test that ends the consumer's wait without a timeout. */
  predicate Settled(e: Entry) { e.length != 0 && e.progress >= e.length }

  /** One header and payload that carry a whole packet. */
  predicate IsWhole(m: Meta) { m.length != 0 && m.progress == m.length }

  /** broken says that memory was written that is not meant: a position past the ten places
      of ring_addr, which in C overwrites the entry's own counters and mark, or a payload
      past the end of the output buffer. Nothing that follows is described by this model;
      what is proved is proved of states that are not broken. */
  datatype State = State(ids: seq<Entry>, cells: seq<Cell>, popped: nat, held: Option<Meta>, broken: bool)

  function EmptyState(): State {
    State(seq(UDP_IDS_COUNT, _ => CLEAN), [], 0, None, false)
  }

  /** Whether the two pushes of a call succeed. */
  datatype Pushes = Both | HeaderRefused | PayloadRefused

  datatype Status = Ok | Refused | General | Canceled

  /** n bytes of a buffer, as the push copies them. */
  function Take(body: seq<Byte>, n: nat): (r: seq<Byte>)
    ensures |r| == n && forall i | 0 <= i < n && i < |body| :: r[i] == body[i]
    ensures n <= |body| ==> r == body[..n]
  {
    seq(n, i requires 0 <= i < n => ByteAt(body, i))
  }

  function U16(x: int): (r: nat)
    ensures r < 0x1_0000
    ensures 0 <= x < 0x1_0000 ==> r == x
  {
    x % 0x1_0000
  }

  function Min(a: nat, b: nat): nat { if a < b then a else b }

  /** How many payload bytes the arrival's push copies. */
  function PushLen(a: Arrival): nat {
    if a.offset == 0 && !a.more then U16(a.udpLen - 8)
    else if a.offset == 0 then U16(a.fragLen - 8)
    else a.fragLen
  }

  /** The length behind the IP header that the header claims, in 16 bits. */
  function Claimed(frame: seq<Byte>): nat {
    U16(WordAt(frame, 16) - HeaderLen(frame))
  }

  lemma ParsedLengths(maxTotal: nat, frame: seq<Byte>)
    requires Parse(maxTotal, frame).Parsed?
    ensures var a, at := Parse(maxTotal, frame).arrival, SIZE_ETHERNET + HeaderLen(frame);
      && at <= 74 && a.body == From(frame, if a.offset == 0 then at + 8 else at)
      && (a.offset == 0 ==> Claimed(frame) >= 8) && a.fragLen == Min(Claimed(frame), (|frame| - at) % 0x1_0000)
  {
  }

  /** A length taken from the capture, less the UDP header in a first fragment, lies within
      it exactly when it is zero or the capture reaches behind the headers. */
  lemma LengthWithin(rest: int, claimed: nat, header: nat)
    requires -74 <= rest && claimed < 0x1_0000 && (header == 0 || (header == 8 && claimed >= 8))
    ensures var n := U16(Min(claimed, rest % 0x1_0000) - header);
      n <= (if rest >= header then rest - header else 0) <==> n == 0 || rest >= header
  {
    if rest >= 0 {
      assert rest == rest / 0x1_0000 * 0x1_0000 + rest % 0x1_0000;
    } else {
      assert rest % 0x1_0000 == rest + 0x1_0000;
    }
  }

  /** The bytes pushed are bytes of the captured frame exactly when there are none, or the
      capture holds the headers; for a whole packet, whose length is taken from the UDP
      header, only when it also holds the bytes that header claims. */
  lemma PushIsCaptured(maxTotal: nat, frame: seq<Byte>)
    requires Parse(maxTotal, frame).Parsed?
    ensures var a, at := Parse(maxTotal, frame).arrival, SIZE_ETHERNET + HeaderLen(frame);
      PushLen(a) <= |a.body| <==>
        PushLen(a) == 0 ||
        |frame| >= if a.offset != 0 then at else if a.more then at + 8 else at + 8 + PushLen(a)
  {
    var a, at := Parse(maxTotal, frame).arrival, SIZE_ETHERNET + HeaderLen(frame);
    ParsedLengths(maxTotal, frame);
    LengthWithin(|frame| - at, Claimed(frame), if a.offset == 0 then 8 else 0);
  }

  /** Drops what an earlier packet with the same id left, when it is too old (the
      clock's answer is stale), has too many fragments, or too many bytes. */
  function Expire(e: Entry, stale: bool): Entry {
    if !Dirty(e) || stale then (if Dirty(e) then CLEAN else e)
    else if e.lastPos >= MAXIMUM_FRAGMENT_MADE then CLEAN
    else if e.length != 0 && e.progress > e.length then CLEAN
    else e
  }

  function Stamp(e: Entry, tm: nat): Entry {
    if Dirty(e) then e else e.(tm := tm)
  }

  function PushPair(s: State, id: nat, m: Meta, bytes: seq<Byte>, e: Entry, push: Pushes): (State, Status)
    requires id < |s.ids|
  {
    match push
    case Both => (s.(ids := s.ids[id := e], cells := s.cells + [Header(m), Payload(bytes)]), Ok)
    case HeaderRefused => (s.(ids := s.ids[id := CLEAN]), Refused)
    case PayloadRefused => (s.(ids := s.ids[id := CLEAN], cells := s.cells + [Header(m)]), Refused)
  }

  /** The fragment is recorded past the ten places: the tests before the pushes look at
      the places in use, ten of them, and the next one is written. */
  predicate Oversteps(cfg: Config, s: State, a: Arrival, stale: bool, push: Pushes)
    requires a.id < |s.ids|
  {
    var e := s.ids[a.id];
    a.offset > 8 && e.lastPos * cfg.mtu + a.fragLen <= cfg.bufferSize && push.Both?
    && Expire(e, stale).lastPos + 1 >= MAXIMUM_FRAGMENT_MADE
  }

  /** defragment_pcap_data after parsing: one atomic step of the capture thread. */
  function Receive(cfg: Config, s: State, a: Arrival, tm: nat, stale: bool, push: Pushes): (State, Status)
    requires a.id < |s.ids|
  {
    var e := s.ids[a.id];
    var hdr, pyld := |s.cells|, |s.cells| + 1;
    if a.offset == 0 && !a.more then
      var len := U16(a.udpLen - 8);
      PushPair(s, a.id, Meta(a.id, 0, len, len, tm), Take(a.body, len), Entry(map[], 0, len, len, tm), push)
    else if a.offset == 0 then
      var len, progress := U16(a.udpLen - 8), U16(a.fragLen - 8);
      var x := Stamp(Expire(e, stale), tm);
      PushPair(s, a.id, Meta(a.id, 0, len, progress, tm), Take(a.body, progress),
               x.(length := len, addr := x.addr[0 := (hdr, pyld)], progress := U16(x.progress + progress)), push)
    else if a.offset <= 8 then (s.(ids := s.ids[a.id := CLEAN]), General)
    else if e.lastPos * cfg.mtu + a.fragLen > cfg.bufferSize then (s.(ids := s.ids[a.id := CLEAN]), General)
    else
      var x := Stamp(Expire(e, stale), tm);
      PushPair(s.(broken := s.broken || Oversteps(cfg, s, a, stale, push)), a.id,
               Meta(a.id, a.offset - 8, 0, a.fragLen, tm), Take(a.body, a.fragLen),
               x.(addr := x.addr[x.lastPos + 1 := (hdr, pyld)], progress := U16(x.progress + a.fragLen),
                  lastPos := x.lastPos + 1), push)
  }

  /** The consumer pops a header. It keeps it when its id is dirty; otherwise, or when
      the marker does not check, it drops the next cell too. */
  function TakeHeader(s: State): State {
    if s.held.Some? || s.popped >= |s.cells| then s
    else
      match s.cells[s.popped]
      case Header(m) =>
        if m.id < |s.ids| && Dirty(s.ids[m.id]) then s.(popped := s.popped + 1, held := Some(m))
        else s.(popped := Min(s.popped + 2, |s.cells|))
      case Payload(_) => s.(popped := Min(s.popped + 2, |s.cells|))
  }

  /** Overrun: the payload of a whole packet was written past the end of the output
      buffer. Misread: a header's bytes were output in place of a payload's. What the
      buffer holds then is not described. */
  datatype Outcome = Waits | Ignored | Delivered(buf: seq<Byte>, len: nat) | Overrun | Misread

  function AddrOf(e: Entry, pos: nat): (nat, nat) {
    if pos in e.addr then e.addr[pos] else (0, 0)
  }

  /** The copy loop from fragment pos on: Ignored when a blind copy or a check fails. */
  function Assemble(cells: seq<Cell>, e: Entry, pos: nat, buf: seq<Byte>, len: nat): (r: Outcome)
    requires pos <= e.lastPos + 1
    ensures !r.Waits? && !r.Overrun?
    decreases e.lastPos + 1 - pos
  {
    if pos > e.lastPos then Delivered(buf, len)
    else
      var (hdr, pyld) := AddrOf(e, pos);
      if hdr >= |cells| || !cells[hdr].Header? || cells[hdr].meta.progress == 0 then Ignored
      else
        var m := cells[hdr].meta;
        if m.fragOffset > |buf| || pyld >= |cells| then Ignored
        else if cells[pyld].Header? then Misread
        else if |cells[pyld].bytes| > |buf| - m.fragOffset then Ignored
        else Assemble(cells, e, pos + 1, Put(buf, m.fragOffset, cells[pyld].bytes), if pos == 0 then m.length else len)
  }

  /** The pop of a whole packet's payload is not told how long the buffer is. */
  predicate Overruns(s: State, buf: seq<Byte>) {
    && s.held.Some? && s.held.value.id < |s.ids| && s.popped < |s.cells|
    && Complete(s.ids[s.held.value.id]) && IsWhole(s.held.value)
    && s.cells[s.popped].Payload? && |s.cells[s.popped].bytes| > |buf|
  }

  /** The rest of the consumer's call once it holds a header: it waits until the id
      is settled or the clock gives up, then delivers or drops, clears the id and
      pops the header's own payload. buf is the output buffer as it was. */
  function Finish(s: State, timedOut: bool, buf: seq<Byte>): (State, Outcome) {
    if s.held.None? || s.held.value.id >= |s.ids| || s.popped >= |s.cells| then (s, Waits)
    else
      var m := s.held.value;
      var e := s.ids[m.id];
      var done := s.(ids := s.ids[m.id := CLEAN], popped := s.popped + 1, held := None,
                     broken := s.broken || Overruns(s, buf));
      if !Settled(e) && !timedOut then (s, Waits)
      else if !Complete(e) then (done, Ignored)
      else if !IsWhole(m) then (done, Assemble(s.cells, e, 0, buf, 0))
      else if s.cells[s.popped].Header? then (done, Misread)
      else if Overruns(s, buf) then (done, Overrun)
      else (done, Delivered(Put(buf, 0, s.cells[s.popped].bytes), |s.cells[s.popped].bytes|))
  }
}
