/** The reassembler in its own form: one table updated in place by the capture thread
    and the consumer. Every method is tied to the step function of the state. */
module Defragmentator {
  import opened Wrappers
  import opened Checksum
  import opened Frames
  import opened Defrag

  class Defragmenter {
    const cfg: Config
    const ids: array<Entry>
    var cells: seq<Cell>
    var popped: nat
    var held: Option<Meta>
    ghost var broken: bool

    ghost predicate Valid()
      reads this
    {
      ids.Length == UDP_IDS_COUNT
    }

    ghost function State(): State
      reads this, ids
    {
      Defrag.State(ids[..], cells, popped, held, broken)
    }

    constructor (cfg: Config)
      ensures Valid() && fresh(ids) && this.cfg == cfg && State() == EmptyState()
    {
      this.cfg := cfg;
      ids := new Entry[UDP_IDS_COUNT](_ => CLEAN);
      cells, popped, held, broken := [], 0, None, false;
    }

    // ---- the capture thread -----------------------------------------------

    /** The dirty entry's three tests, then the time stamp of a clean one. */
    method Refresh(id: nat, stale: bool, tm: nat)
      requires Valid() && id < UDP_IDS_COUNT
      modifies ids
      ensures ids[..] == old(ids[..])[id := Stamp(Expire(old(ids[id]), stale), tm)]
    {
      if Dirty(ids[id]) {
        if stale {
          ids[id] := CLEAN;
        }
        if ids[id].lastPos >= MAXIMUM_FRAGMENT_MADE {
          ids[id] := CLEAN;
        }
        if ids[id].length != 0 && ids[id].progress > ids[id].length {
          ids[id] := CLEAN;
        }
      }
      if !Dirty(ids[id]) {
        ids[id] := ids[id].(tm := tm);
      }
    }

    /** Pushes a header and its payload; a refusal clears the id. */
    method PushBoth(id: nat, m: Meta, bytes: seq<Byte>, push: Pushes) returns (r: Status, hdr: nat, pyld: nat)
      requires Valid() && id < UDP_IDS_COUNT
      modifies `cells, ids
      ensures hdr == |old(cells)| && pyld == |old(cells)| + 1
      ensures (State(), r) == PushPair(old(State()), id, m, bytes, old(ids[id]), push)
    {
      hdr, pyld := |cells|, |cells| + 1;
      assert ids[..][id := ids[id]] == ids[..];
      if push.HeaderRefused? {
        ids[id] := CLEAN;
        return Refused, hdr, pyld;
      }
      cells := cells + [Header(m)];
      if push.PayloadRefused? {
        ids[id] := CLEAN;
        return Refused, hdr, pyld;
      }
      assert cells + [Payload(bytes)] == old(cells) + [Header(m), Payload(bytes)];
      cells := cells + [Payload(bytes)];
      r := Ok;
    }

    method WholePacket(a: Arrival, tm: nat, stale: bool, push: Pushes) returns (r: Status)
      requires Valid() && a.id < UDP_IDS_COUNT && a.offset == 0 && !a.more
      modifies `cells, ids
      ensures (State(), r) == Receive(cfg, old(State()), a, tm, stale, push)
    {
      ids[a.id] := ids[a.id].(addr := map[], lastPos := 0, tm := tm);
      var len := U16(a.udpLen - 8);
      var hdr, pyld;
      r, hdr, pyld := PushBoth(a.id, Meta(a.id, 0, len, len, tm), Take(a.body, len), push);
      if r == Ok {
        ids[a.id] := ids[a.id].(length := len, progress := len);
      }
      assert ids[..] == old(ids[..])[a.id := ids[a.id]];
    }

    method FirstFragment(a: Arrival, tm: nat, stale: bool, push: Pushes) returns (r: Status)
      requires Valid() && a.id < UDP_IDS_COUNT && a.offset == 0 && a.more
      modifies `cells, ids
      ensures (State(), r) == Receive(cfg, old(State()), a, tm, stale, push)
    {
      var len, progress := U16(a.udpLen - 8), U16(a.fragLen - 8);
      Refresh(a.id, stale, tm);
      var hdr, pyld;
      r, hdr, pyld := PushBoth(a.id, Meta(a.id, 0, len, progress, tm), Take(a.body, progress), push);
      if r == Ok {
        var e := ids[a.id];
        e := e.(length := len);
        e := e.(addr := e.addr[0 := (hdr, pyld)]);
        e := e.(progress := U16(e.progress + progress));
        ids[a.id] := e;
      }
      assert ids[..] == old(ids[..])[a.id := ids[a.id]];
    }

    method OtherFragment(a: Arrival, tm: nat, stale: bool, push: Pushes) returns (r: Status)
      requires Valid() && a.id < UDP_IDS_COUNT && a.offset != 0
      modifies `cells, `broken, ids
      ensures (State(), r) == Receive(cfg, old(State()), a, tm, stale, push)
    {
      if a.offset <= 8 {
        ids[a.id] := CLEAN;
        return General;
      }
      if ids[a.id].lastPos * cfg.mtu + a.fragLen > cfg.bufferSize {
        ids[a.id] := CLEAN;
        return General;
      }
      Refresh(a.id, stale, tm);
      var hdr, pyld;
      r, hdr, pyld := PushBoth(a.id, Meta(a.id, a.offset - 8, 0, a.fragLen, tm), Take(a.body, a.fragLen), push);
      if r == Ok {
        var e := ids[a.id];
        broken := broken || e.lastPos + 1 >= MAXIMUM_FRAGMENT_MADE;
        e := e.(addr := e.addr[e.lastPos + 1 := (hdr, pyld)]);
        e := e.(progress := U16(e.progress + a.fragLen));
        e := e.(lastPos := e.lastPos + 1);
        ids[a.id] := e;
      }
      assert ids[..] == old(ids[..])[a.id := ids[a.id]];
    }

    /** defragment_pcap_data. */
    method DefragmentPcapData(frame: seq<Byte>, tm: nat, stale: bool, push: Pushes) returns (r: Status)
      requires Valid()
      modifies `cells, `broken, ids
      ensures match Parse(cfg.mtu, frame)
              case BadStructure => r == Canceled && State() == old(State())
              case Parsed(a) => a.id < UDP_IDS_COUNT && (State(), r) == Receive(cfg, old(State()), a, tm, stale, push)
    {
      match Parse(cfg.mtu, frame)
      case BadStructure => r := Canceled;
      case Parsed(a) =>
        assert a.id == WordAt(frame, 18);
        if a.offset == 0 && !a.more {
          r := WholePacket(a, tm, stale, push);
        } else if a.offset == 0 {
          r := FirstFragment(a, tm, stale, push);
        } else {
          r := OtherFragment(a, tm, stale, push);
        }
    }

    // ---- the consumer -----------------------------------------------------

    /** Pops a cell, or does nothing on an empty ring. */
    method Pop()
      modifies `popped
      ensures popped == if old(popped) < |cells| then old(popped) + 1 else old(popped)
    {
      if popped < |cells| {
        popped := popped + 1;
      }
    }

    /** poped_defraged_packet up to the dirty test. */
    method PopHeader()
      requires Valid()
      modifies `popped, `held
      ensures State() == TakeHeader(old(State()))
    {
      if held.Some? || popped >= |cells| {
        return;
      }
      var top := cells[popped];
      popped := popped + 1;
      match top
      case Header(m) =>
        if m.id < ids.Length && Dirty(ids[m.id]) {
          held := Some(m);
        } else {
          Pop();
        }
      case Payload(_) => Pop();
    }

    /** A blind copy of the payload at a position into the buffer from at on. */
    method BlindCopy(outBuf: array<Byte>, at: nat, bytes: seq<Byte>)
      requires at + |bytes| <= outBuf.Length
      modifies outBuf
      ensures outBuf[..] == Put(old(outBuf[..]), at, bytes)
    {
      forall i | 0 <= i < |bytes| {
        outBuf[at + i] := bytes[i];
      }
    }

    /** The copy loop over the recorded pairs. */
    method CopyPieces(e: Entry, outBuf: array<Byte>) returns (r: Outcome)
      modifies outBuf
      ensures r == Assemble(cells, e, 0, old(outBuf[..]), 0) && (r.Delivered? ==> r.buf == outBuf[..])
    {
      var len, ipos := 0, 0;
      while ipos <= e.lastPos
        invariant 0 <= ipos <= e.lastPos + 1
        invariant Assemble(cells, e, 0, old(outBuf[..]), 0) == Assemble(cells, e, ipos, outBuf[..], len)
      {
        var (hdr, pyld) := AddrOf(e, ipos);
        if hdr >= |cells| || !cells[hdr].Header? || cells[hdr].meta.progress == 0 {
          return Ignored;
        }
        var m := cells[hdr].meta;
        if ipos == 0 {
          len := m.length;
        }
        if m.fragOffset > outBuf.Length || pyld >= |cells| {
          return Ignored;
        }
        if cells[pyld].Header? {
          return Misread;
        }
        if |cells[pyld].bytes| > outBuf.Length - m.fragOffset {
          return Ignored;
        }
        BlindCopy(outBuf, m.fragOffset, cells[pyld].bytes);
        ipos := ipos + 1;
      }
      r := Delivered(outBuf[..], len);
    }

    /** The pop of a whole packet's payload into the output buffer. */
    method PopPayload(outBuf: array<Byte>) returns (r: Outcome)
      requires popped < |cells|
      modifies outBuf
      ensures r == if cells[popped].Header? then Misread
                   else if |cells[popped].bytes| > outBuf.Length then Overrun
                   else Delivered(Put(old(outBuf[..]), 0, cells[popped].bytes), |cells[popped].bytes|)
      ensures r.Delivered? ==> r.buf == outBuf[..]
    {
      match cells[popped]
      case Header(_) => r := Misread;
      case Payload(bytes) =>
        if |bytes| > outBuf.Length {
          return Overrun;
        }
        BlindCopy(outBuf, 0, bytes);
        r := Delivered(outBuf[..], |bytes|);
    }

    /** What the rest of the consumer's call does, stated on the state. */
    twostate predicate FinishedAs(outBuf: array<Byte>, timedOut: bool, r: Outcome)
      reads this, ids, outBuf
    {
      var (s, outcome) := Finish(old(State()), timedOut, old(outBuf[..]));
      State() == s && r == outcome
      && (r.Delivered? ==> outBuf[..] == r.buf) && (r.Waits? ==> outBuf[..] == old(outBuf[..]))
    }

    /** poped_defraged_packet from the wait on, at the moment its wait ends. A write past
        the buffer is not made here but marked. */
    method FinishPacket(timedOut: bool, outBuf: array<Byte>) returns (r: Outcome)
      requires Valid()
      modifies this`popped, this`held, this`broken, ids, outBuf
      ensures FinishedAs(outBuf, timedOut, r)
    {
      if held.None? || held.value.id >= ids.Length || popped >= |cells| {
        return Waits;
      }
      var m := held.value;
      var e := ids[m.id];
      if !Settled(e) && !timedOut {
        return Waits;
      }
      r := Ignored;
      if Complete(e) {
        if IsWhole(m) {
          r := PopPayload(outBuf);
        } else {
          r := CopyPieces(e, outBuf);
        }
      }
      broken := broken || r.Overrun?;
      ids[m.id] := CLEAN;
      Pop();
      held := None;
    }
  }
}
