/** The packet manager's operations in their own form: a segment is an array of
    packets whose metadata they rewrite in place. */
module PacketManager {
  import opened Wrappers
  import opened PacketLife
  import opened PacketDrain

  /** send_segment_itm on item i. */
  method SendSegmentItm(items: array<Copy>, i: nat, w: World) returns (err: Status, sends: nat)
    requires i < items.Length
    modifies items
    ensures var r := SendItem(old(items[i]), w);
      items[..] == old(items[..])[i := r.copy] && err == r.err && sends == r.sends
  {
    sends := 0;
    err := Canceled;
    if w.lockTimeout {
      return Timeout, 0;
    }
    if Finished(items[i].state) {
      return Ok, 0;
    }
    if w.blocked {
      return Canceled, 0;
    }
    if FromFile(items[i].state) {
      if items[i].coolDown != 0 && items[i].coolDown == w.second {
        return TooManyAttempt, 0;
      }
      items[i] := items[i].(coolDown := w.second);
    }
    if w.fast.Some? {
      err, sends := TryOutput(items, i, w.fast.value);
    } else if w.connected {
      err, sends := LookUp(items, i, w.slow);
    }
    if !items[i].state.Sent? && err == Canceled && !w.stillConnected {
      err := NoPeer;
    }
  }

  /** One output: the throttle, the write, the state, the post action. */
  method TryOutput(items: array<Copy>, i: nat, a: Attempt) returns (err: Status, sends: nat)
    requires i < items.Length
    modifies items
    ensures var r := Try(old(items[i]), a);
      items[..] == old(items[..])[i := r.copy] && err == r.err && sends == r.sends
  {
    sends := 0;
    match a
    case Occupied => err := PortOccupied;
    case Written(payload, newline) =>
      err := payload;
      if payload == Ok {
        sends := 1;
        items[i] := items[i].(prev := items[i].state);
        items[i] := items[i].(state := Sent);
        if newline.Some? {
          err := newline.value;
        }
      }
  }

  /** The slow method: the connected outputs of that name, one after the other. */
  method LookUp(items: array<Copy>, i: nat, slow: seq<Attempt>) returns (err: Status, sends: nat)
    requires i < items.Length && Sendable(items[i].state)
    modifies items
    ensures var r := TrySlow(old(items[i]), slow, Canceled);
      items[..] == old(items[..])[i := r.copy] && err == r.err && sends == r.sends
  {
    err, sends := Canceled, 0;
    var k := 0;
    while k < |slow|
      invariant k <= |slow| && sends == 0 && Sendable(items[i].state)
      invariant TrySlow(old(items[i]), slow, Canceled) == TrySlow(items[i], slow[k..], err)
      invariant items[..] == old(items[..])[i := items[i]]
    {
      assert slow[k..][1..] == slow[k + 1..];
      err, sends := TryOutput(items, i, slow[k]);
      if slow[k].Occupied? || items[i].state.Sent? {
        return;
      }
      k := k + 1;
    }
  }

  /** store_segment_item on item i. */
  method StoreSegmentItem(items: array<Copy>, i: nat, publish: Status) returns (err: Status, made: Option<Copy>)
    requires i < items.Length
    modifies items
    ensures var r := StoreItem(old(items[i]), publish);
      items[..] == old(items[..])[i := r.copy] && err == r.err && made == r.made
  {
    made := None;
    if !items[i].state.OnL2Ram? {
      return Ok, None;
    }
    items[i] := items[i].(prev := items[i].state);
    items[i] := items[i].(state := ReplicatedOnPub);
    err := publish;
    if publish == Ok {
      made := Some(items[i]);
      items[i] := items[i].(state := OriginalRemainOnRam);
    }
  }

  /** remap_storage_data on item i. */
  method RemapStorageData(items: array<Copy>, i: nat, publish: Status) returns (err: Status, made: Option<Copy>)
    requires i < items.Length
    modifies items
    ensures var r := Remap(old(items[i]), publish);
      items[..] == old(items[..])[i := r.copy] && err == r.err && made == r.made
  {
    made := None;
    if items[i].state.ReplicatedOnPriv? {
      return DoneAlready, None;
    }
    items[i] := items[i].(prev := items[i].state);
    items[i] := items[i].(state := ReplicatedOnPriv);
    err := publish;
    if publish == Ok {
      made := Some(items[i]);
      items[i] := items[i].(state := RemainOnPub);
      return;
    }
    items[i] := items[i].(state := items[i].prev);
  }

  /** discharge_persistent_storage_data on the stored packet i. */
  method DischargePersistentStorageData(items: array<Copy>, i: nat, pressure: bool, w: World, publish: Status)
    returns (err: Status, made: Option<Copy>, sends: nat)
    requires i < items.Length
    modifies items
    ensures var r := Discharge(old(items[i]), pressure, w, publish);
      items[..] == old(items[..])[i := r.copy] && err == r.err && made == r.made && sends == r.sends
  {
    made, sends := None, 0;
    if pressure {
      return PortOccupied, None, 0;
    }
    items[i] := items[i].(prev := items[i].state);
    err, sends := SendSegmentItm(items, i, w);
    if err == PeerClosed || err == NoPeer {
      var answer;
      answer, made := RemapStorageData(items, i, publish);
      if answer == Ok {
        err := Mapped;
      } else if answer == DoneAlready {
        err := ButContinue;
      }
    }
  }

  /** The two passes over a popped segment, stride one, no item skipped. */
  method DrainSegment(items: array<Copy>, blocked: bool, worlds: seq<World>, answers: seq<Status>)
    returns (made: seq<Copy>)
    requires items.Length == |worlds| == |answers|
    modifies items
    ensures (items[..], made) == Drain(old(items[..]), blocked, worlds, answers)
  {
    made := [];
    if !blocked {
      var err := SendAll(items, worlds);
      if err == Ok {
        return;
      }
    }
    made := StoreAll(items, answers);
  }

  method SendAll(items: array<Copy>, worlds: seq<World>) returns (err: Status)
    requires items.Length == |worlds|
    modifies items
    ensures (items[..], err) == SendPass(old(items[..]), items.Length, worlds)
  {
    err := Ok;
    var n := items.Length;
    while n > 0
      invariant 0 <= n <= items.Length && err == Ok
      invariant SendPass(old(items[..]), items.Length, worlds) == SendPass(items[..], n, worlds)
    {
      var sends;
      err, sends := SendSegmentItm(items, n - 1, worlds[n - 1]);
      if err != Ok {
        return;
      }
      n := n - 1;
    }
  }

  method StoreAll(items: array<Copy>, answers: seq<Status>) returns (made: seq<Copy>)
    requires items.Length == |answers|
    modifies items
    ensures (items[..], made) == StorePass(old(items[..]), 0, answers)
  {
    made := [];
    var k := 0;
    while k < items.Length
      invariant 0 <= k <= items.Length
      invariant StorePass(old(items[..]), 0, answers).0 == StorePass(items[..], k, answers).0
      invariant StorePass(old(items[..]), 0, answers).1 == made + StorePass(items[..], k, answers).1
    {
      ghost var before := items[..];
      var err, copy := StoreSegmentItem(items, k, answers[k]);
      if err != Ok {
        assert StorePass(before, k, answers) == (items[..], []) && made + [] == made;
        return;
      }
      if copy.Some? {
        MakeOne(made, copy.value, StorePass(items[..], k + 1, answers).1);
        made := made + [copy.value];
      }
      k := k + 1;
    }
    assert made + [] == made;
  }

  lemma MakeOne(made: seq<Copy>, c: Copy, rest: seq<Copy>)
    ensures made + ([c] + rest) == made + [c] + rest
  {
  }
}
