/** One copy of a packet and the operations that rewrite its state: sending, archiving
    to the public file, remapping to a private file. Every answer of TCP, storage,
    routing and the clock is an input. */
module PacketLife {
  import opened Wrappers
  import opened Gateway

  datatype PktState =
    | OnL1Cache
    | OnL2Ram
    | OriginalRemainOnRam
    | ReplicatedOnPub
    | RemainOnPub
    | ReplicatedOnPriv
    | Sent

  datatype Status =
    | Ok
    | Timeout
    | Canceled
    | TooManyAttempt
    | PortOccupied
    | NoPeer
    | PeerClosed
    | Mapped
    | DoneAlready
    | ButContinue
    | Failure(code: int)

  /** The states in which send_segment_itm has nothing left to do. */
  predicate Finished(st: PktState) {
    st.Sent? || st.OriginalRemainOnRam? || st.RemainOnPub?
  }

  predicate Sendable(st: PktState) { !Finished(st) }

  /** A copy's metadata. coolDown is the low byte of the second of the last attempt. */
  datatype Copy = Copy(pkt: nat, state: PktState, prev: PktState, coolDown: nat)

  /** One output tried: throttled, or a payload write and, where the output is set to
      "post enter", the answer of the newline write that follows a successful one. */
  datatype Attempt = Occupied | Written(payload: Status, newline: Option<Status>)

  /** What one call meets: the lock, the block flag, the clock's low byte, the cached
      route, whether any output is connected (asked twice), and in order the
      connected outputs of that name that the lookup would try. */
  datatype World = World(
    lockTimeout: bool, blocked: bool, second: nat, fast: Option<Attempt>,
    connected: bool, stillConnected: bool, slow: seq<Attempt>)

  /** sends counts payload writes that succeeded. */
  datatype Result = Result(copy: Copy, err: Status, sends: nat)

  function Try(c: Copy, a: Attempt): Result {
    match a
    case Occupied => Result(c, PortOccupied, 0)
    case Written(Ok, newline) =>
      Result(c.(prev := c.state, state := Sent), if newline.Some? then newline.value else Ok, 1)
    case Written(e, _) => Result(c, e, 0)
  }

  /** The lookup over the outputs: it ends with a throttled one or once sent. */
  function TrySlow(c: Copy, slow: seq<Attempt>, err: Status): Result {
    if slow == [] then Result(c, err, 0)
    else
      var r := Try(c, slow[0]);
      if slow[0].Occupied? || r.copy.state.Sent? then r else TrySlow(r.copy, slow[1..], r.err)
  }

  function FromFile(st: PktState): bool { st.ReplicatedOnPub? || st.ReplicatedOnPriv? }

  /** The route taken: the cached one if there is one, else the lookup. */
  function Route(c: Copy, w: World): Result {
    if w.fast.Some? then Try(c, w.fast.value)
    else if w.connected then TrySlow(c, w.slow, Canceled)
    else Result(c, Canceled, 0)
  }

  /** send_segment_itm. */
  function SendItem(c: Copy, w: World): Result {
    if w.lockTimeout then Result(c, Timeout, 0)
    else if Finished(c.state) then Result(c, Ok, 0)
    else if w.blocked then Result(c, Canceled, 0)
    else if FromFile(c.state) && c.coolDown != 0 && c.coolDown == w.second then Result(c, TooManyAttempt, 0)
    else
      var r := Route(if FromFile(c.state) then c.(coolDown := w.second) else c, w);
      if !r.copy.state.Sent? && r.err.Canceled? && !w.stillConnected then r.(err := NoPeer) else r
  }

  function Weight(st: PktState): nat { if Sendable(st) then 1 else 0 }

  /** The call has at most one effect on the packet: sendable before, it is sendable
      after or its payload was written, never both and never twice. */
  lemma SendMovesTheToken(c: Copy, w: World)
    ensures var r := SendItem(c, w);
      && Weight(c.state) == Weight(r.copy.state) + r.sends
      && r.copy.pkt == c.pkt
      && (r.copy == c.(coolDown := r.copy.coolDown) || (r.copy.state.Sent? && r.copy.prev == c.state && r.sends == 1))
      && (!FromFile(c.state) ==> r.copy.coolDown == c.coolDown)
  {
    if !w.lockTimeout && Sendable(c.state) && !w.blocked {
      var c' := if FromFile(c.state) then c.(coolDown := w.second) else c;
      if w.fast.None? && w.connected {
        SlowSendsOnce(c', w.slow, Canceled);
      }
    }
  }

  lemma {:induction false} SlowSendsOnce(c: Copy, slow: seq<Attempt>, err: Status)
    requires Sendable(c.state)
    ensures var r := TrySlow(c, slow, err);
      (r.copy == c && r.sends == 0) || (r.copy == c.(prev := c.state, state := Sent) && r.sends == 1)
  {
    if slow != [] {
      var r := Try(c, slow[0]);
      if !slow[0].Occupied? && !r.copy.state.Sent? {
        SlowSendsOnce(r.copy, slow[1..], r.err);
      }
    }
  }

  /** The answer OK is given only for a copy in a finished state. */
  lemma OkMeansFinished(c: Copy, w: World)
    ensures SendItem(c, w).err == Ok ==> Finished(SendItem(c, w).copy.state)
  {
    if !w.lockTimeout && Sendable(c.state) && !w.blocked {
      var c' := if FromFile(c.state) then c.(coolDown := w.second) else c;
      if w.fast.None? && w.connected {
        SlowOk(c', w.slow, Canceled);
      }
    }
  }

  lemma {:induction false} SlowOk(c: Copy, slow: seq<Attempt>, err: Status)
    requires err != Ok
    ensures TrySlow(c, slow, err).err == Ok ==> TrySlow(c, slow, err).copy.state.Sent?
  {
    if slow != [] {
      var r := Try(c, slow[0]);
      if !slow[0].Occupied? && !r.copy.state.Sent? {
        SlowOk(r.copy, slow[1..], r.err);
      }
    }
  }

  /** A throttled output, or one that takes the payload, ends the lookup: the outputs
      after it are never tried. */
  predicate Ends(a: Attempt) { a.Occupied? || a.payload == Ok }

  lemma {:induction false} LookupEnds(c: Copy, slow: seq<Attempt>, err: Status, k: nat)
    requires Sendable(c.state) && k < |slow| && Ends(slow[k])
    ensures TrySlow(c, slow, err) == TrySlow(c, slow[..k + 1], err)
    ensures (forall j | 0 <= j < k :: !Ends(slow[j])) ==>
      TrySlow(c, slow, err).sends == (if slow[k].Occupied? then 0 else 1)
  {
    assert slow[..k + 1][0] == slow[0];
    if !Ends(slow[0]) {
      LookupEnds(c, slow[1..], slow[0].payload, k - 1);
      assert slow[..k + 1][1..] == slow[1..][..k];
    }
  }

  /** A file copy just tried in vain is not tried again in the same second, whatever
      the routes, exactly when the second's low byte is not zero. */
  lemma OneAttemptPerSecond(c: Copy, w: World)
    requires FromFile(c.state) && !w.lockTimeout && !w.blocked && !(c.coolDown != 0 && c.coolDown == w.second)
    requires SendItem(c, w).sends == 0
    ensures (forall again: World | again.second == w.second :: SendItem(SendItem(c, w).copy, again).sends == 0)
       <==> w.second != 0
  {
    SendMovesTheToken(c, w);
    var c' := SendItem(c, w).copy;
    assert c' == c.(coolDown := w.second) by {
      if w.fast.None? && w.connected {
        SlowSendsOnce(c.(coolDown := w.second), w.slow, Canceled);
      }
    }
    if w.second == 0 {
      var again := World(false, false, 0, Some(Written(Ok, None)), true, true, []);
      assert SendItem(c', again).sends == 1;
    }
  }

  // ---- outputs without a post action ------------------------------------

  predicate Plain(a: Attempt) { a.Written? ==> a.newline.None? }

  /** No output of this packet is set to "post enter". */
  predicate PlainOutputs(w: World) {
    (w.fast.Some? ==> Plain(w.fast.value)) && forall k | 0 <= k < |w.slow| :: Plain(w.slow[k])
  }

  /** Without a post action a call that wrote the payload says so. */
  lemma PlainSendAnswersOk(c: Copy, w: World)
    requires PlainOutputs(w)
    ensures SendItem(c, w).sends > 0 ==> SendItem(c, w).err == Ok
  {
    if !w.lockTimeout && Sendable(c.state) && !w.blocked {
      var c' := if FromFile(c.state) then c.(coolDown := w.second) else c;
      if w.fast.None? && w.connected {
        PlainSlow(c', w.slow, Canceled);
      }
    }
  }

  lemma {:induction false} PlainSlow(c: Copy, slow: seq<Attempt>, err: Status)
    requires forall k | 0 <= k < |slow| :: Plain(slow[k])
    ensures TrySlow(c, slow, err).sends > 0 ==> TrySlow(c, slow, err).err == Ok
  {
    if slow != [] {
      assert Plain(slow[0]);
      var r := Try(c, slow[0]);
      if !slow[0].Occupied? && !r.copy.state.Sent? {
        PlainSlow(r.copy, slow[1..], r.err);
      }
    }
  }

  // ---- archiving and remapping ------------------------------------------

  /** What an operation leaves: the copy, the copy it had storage make, its answer. */
  datatype Stored = Stored(copy: Copy, made: Option<Copy>, err: Status)

  /** store_segment_item: only packets from RAM are archived; on a failure the state is
      not put back. */
  function StoreItem(c: Copy, publish: Status): Stored {
    if !c.state.OnL2Ram? then Stored(c, None, Ok)
    else
      var marked := c.(prev := c.state, state := ReplicatedOnPub);
      if publish == Ok then Stored(marked.(state := OriginalRemainOnRam), Some(marked), Ok)
      else Stored(marked, None, publish)
  }

  /** remap_storage_data. */
  function Remap(c: Copy, publish: Status): Stored {
    if c.state.ReplicatedOnPriv? then Stored(c, None, DoneAlready)
    else
      var marked := c.(prev := c.state, state := ReplicatedOnPriv);
      if publish == Ok then Stored(marked.(state := RemainOnPub), Some(marked), Ok)
      else Stored(marked.(state := marked.prev), None, publish)
  }

  datatype Discharged = Discharged(copy: Copy, made: Option<Copy>, err: Status, sends: nat)

  /** discharge_persistent_storage_data on a stored packet. */
  function Discharge(c: Copy, pressure: bool, w: World, publish: Status): Discharged {
    if pressure then Discharged(c, None, PortOccupied, 0)
    else
      var r := SendItem(c.(prev := c.state), w);
      if r.err != PeerClosed && r.err != NoPeer then Discharged(r.copy, None, r.err, r.sends)
      else
        var m := Remap(r.copy, publish);
        Discharged(m.copy, m.made,
                   if m.err == Ok then Mapped else if m.err == DoneAlready then ButContinue else r.err, r.sends)
  }

  function Made(o: Option<Copy>): nat {
    if o.Some? then Weight(o.value.state) else 0
  }

  /** Archiving moves the right to send from one copy to the other. */
  lemma StoreMovesTheToken(c: Copy, publish: Status)
    ensures var r := StoreItem(c, publish);
      Weight(c.state) == Weight(r.copy.state) + Made(r.made) && r.copy.pkt == c.pkt
      && (r.made.Some? ==> r.made.value.pkt == c.pkt)
  {
  }

  /** Remapping moves the right to send exactly when the copy still had it, or it does
      not make a copy. */
  lemma RemapMovesTheToken(c: Copy, publish: Status)
    ensures var r := Remap(c, publish);
      Weight(c.state) == Weight(r.copy.state) + Made(r.made) <==> Sendable(c.state) || publish != Ok
  {
  }

  /** The payload was written and the call still answered that there is no peer: the
      newline of a "post enter" output met a closed connection. */
  predicate SentButNoPeer(r: Result) {
    r.sends > 0 && (r.err == NoPeer || r.err == PeerClosed)
  }

  /** Discharging keeps the one right to send, exactly unless the payload was written,
      the newline found no peer, and storage accepted the remapped copy. */
  lemma DischargeMovesTheToken(c: Copy, pressure: bool, w: World, publish: Status)
    ensures var r := Discharge(c, pressure, w, publish);
      r.copy.pkt == c.pkt && (r.made.Some? ==> r.made.value.pkt == c.pkt && r.made.value.state == ReplicatedOnPriv)
    ensures var r := Discharge(c, pressure, w, publish);
      Weight(c.state) == Weight(r.copy.state) + Made(r.made) + r.sends
      <==> pressure || publish != Ok || !SentButNoPeer(SendItem(c.(prev := c.state), w))
  {
    SendMovesTheToken(c.(prev := c.state), w);
  }

  lemma PlainIsNeverBoth(c: Copy, w: World)
    requires PlainOutputs(w)
    ensures !SentButNoPeer(SendItem(c, w))
  {
    PlainSendAnswersOk(c, w);
  }

  // ---- the relay --------------------------------------------------------

  datatype Command =
    | SentStop
    | SentContinue
    | RemappedStop
    | RemappedContinue
    | NotSentTooMany
    | NotSentNoPeer
    | NotSentStop
    | NotSentContinue
    | NotSentStopDelayed
    | NotSentUncongest

  /** persistant_cache_mngr_relay_packet: what the file stack is told. */
  function Relay(ret: Status, gate: Gate): Command {
    match ret
    case Ok => (match gate case Close => SentStop case Open => SentContinue case Die => NotSentStop)
    case Mapped => (match gate case Open => RemappedContinue case _ => RemappedStop)
    case TooManyAttempt => NotSentTooMany
    case PeerClosed => NotSentNoPeer
    case NoPeer => NotSentNoPeer
    case ButContinue => (match gate case Open => NotSentContinue case _ => NotSentStopDelayed)
    case PortOccupied => NotSentUncongest
    case _ => (match gate case Open => NotSentContinue case _ => NotSentStop)
  }

  predicate Continues(cmd: Command) {
    cmd.SentContinue? || cmd.RemappedContinue? || cmd.NotSentContinue?
  }

  /** The stack goes on at once only while the gate is open, and then for every answer
      that does not ask for a pause. */
  lemma ContinuesWhileOpen(ret: Status, gate: Gate)
    ensures Continues(Relay(ret, gate)) <==> gate.Open? && ret !in {TooManyAttempt, NoPeer, PeerClosed, PortOccupied}
  {
  }

  /** The stack drops its copy on these. */
  predicate Drops(cmd: Command) {
    cmd.SentStop? || cmd.SentContinue? || cmd.RemappedStop? || cmd.RemappedContinue?
  }

  /** The stack is told to drop a copy only when the copy is finished: nothing
      sendable is thrown away, whatever the answers. */
  lemma OnlyFinishedIsDropped(c: Copy, pressure: bool, w: World, publish: Status, gate: Gate)
    requires forall k | 0 <= k < |w.slow| :: w.slow[k].Written? ==> w.slow[k].payload != Mapped
    requires w.fast.Some? && w.fast.value.Written? ==> w.fast.value.payload != Mapped
    ensures var r := Discharge(c, pressure, w, publish); Drops(Relay(r.err, gate)) ==> Finished(r.copy.state)
    ensures var r := Discharge(c, pressure, w, publish);
      r.err == Ok || r.err == Mapped ==> (Drops(Relay(r.err, gate)) <==> r.err == Mapped || !gate.Die?)
  {
    var c' := c.(prev := c.state);
    OkMeansFinished(c', w);
    NeverMapped(c', w);
  }

  /** A TCP write never answers Mapped, so a call does not either unless it is sent. */
  lemma NeverMapped(c: Copy, w: World)
    requires forall k | 0 <= k < |w.slow| :: w.slow[k].Written? ==> w.slow[k].payload != Mapped
    requires w.fast.Some? && w.fast.value.Written? ==> w.fast.value.payload != Mapped
    ensures SendItem(c, w).err == Mapped ==> Finished(SendItem(c, w).copy.state)
  {
    if !w.lockTimeout && Sendable(c.state) && !w.blocked {
      var c' := if FromFile(c.state) then c.(coolDown := w.second) else c;
      if w.fast.None? && w.connected {
        SlowNeverMapped(c', w.slow, Canceled);
      }
    }
  }

  lemma {:induction false} SlowNeverMapped(c: Copy, slow: seq<Attempt>, err: Status)
    requires err != Mapped && forall k | 0 <= k < |slow| :: slow[k].Written? ==> slow[k].payload != Mapped
    ensures TrySlow(c, slow, err).err == Mapped ==> TrySlow(c, slow, err).copy.state.Sent?
  {
    if slow != [] {
      var r := Try(c, slow[0]);
      if !slow[0].Occupied? && !r.copy.state.Sent? {
        SlowNeverMapped(r.copy, slow[1..], r.err);
      }
    }
  }
}
