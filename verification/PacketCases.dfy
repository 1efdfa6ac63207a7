/** What each operation on a copy answers and does, case by case on its inputs: when the
    payload is written, and which answer stands for what. */
module PacketCases {
  import opened Wrappers
  import opened Gateway
  import opened PacketLife

  // ---- when a call writes the payload -----------------------------------

  /** The lock is taken, the packet is neither sent nor left behind by a copy in the file,
      sending is not blocked, and a file copy was not tried in this second. */
  predicate Tries(c: Copy, w: World) {
    && !w.lockTimeout && !w.blocked
    && c.state in {OnL1Cache, OnL2Ram, ReplicatedOnPub, ReplicatedOnPriv}
    && (c.state in {ReplicatedOnPub, ReplicatedOnPriv} ==> c.coolDown == 0 || c.coolDown != w.second)
  }

  predicate Takes(a: Attempt) { a.Written? && a.payload == Ok }

  /** An output that neither is throttled nor takes the payload: the lookup goes on. */
  predicate Fails(a: Attempt) { a.Written? && a.payload != Ok }

  /** The first output of the lookup that does not fail takes the payload. */
  predicate LookupTakes(slow: seq<Attempt>) {
    exists k: nat :: FirstEnd(slow, k) && k < |slow| && Takes(slow[k])
  }

  /** The outputs before k fail, and k is the end or does not fail. */
  predicate FirstEnd(slow: seq<Attempt>, k: nat) {
    k <= |slow| && (forall j | 0 <= j < k :: Fails(slow[j])) && (k < |slow| ==> !Fails(slow[k]))
  }

  lemma {:induction false} SomeEnd(slow: seq<Attempt>) returns (k: nat)
    ensures FirstEnd(slow, k)
  {
    k := 0;
    if slow != [] && Fails(slow[0]) {
      var rest := SomeEnd(slow[1..]);
      k := rest + 1;
      assert forall j | 0 < j <= |slow| - 1 :: slow[j] == slow[1..][j - 1];
    }
  }

  lemma OneEnd(slow: seq<Attempt>, j: nat, k: nat)
    requires FirstEnd(slow, j) && FirstEnd(slow, k)
    ensures j == k
  {
  }

  /** What one attempt answers when the packet could be sent. */
  function Answer(a: Attempt): Status {
    match a
    case Occupied => PortOccupied
    case Written(Ok, Some(newline)) => newline
    case Written(payload, _) => payload
  }

  /** The lookup ends at the first output that does not fail; its answer is that of the
      output it ends at, or of the last one. */
  lemma {:induction false} LookupAnswers(c: Copy, slow: seq<Attempt>, err: Status, k: nat)
    requires Sendable(c.state) && FirstEnd(slow, k)
    ensures var r := TrySlow(c, slow, err);
      && r.err == (if k < |slow| then Answer(slow[k]) else if k > 0 then slow[k - 1].payload else err)
      && (if k < |slow| && Takes(slow[k]) then r.sends == 1 && r.copy == c.(prev := c.state, state := Sent)
          else r.sends == 0 && r.copy == c)
  {
    if k > 0 {
      assert FirstEnd(slow[1..], k - 1) by {
        assert forall j | 0 <= j < |slow| - 1 :: slow[1..][j] == slow[j + 1];
      }
      LookupAnswers(c, slow[1..], slow[0].payload, k - 1);
    }
  }

  lemma EndTakes(slow: seq<Attempt>, k: nat)
    requires FirstEnd(slow, k)
    ensures LookupTakes(slow) <==> k < |slow| && Takes(slow[k])
  {
    if LookupTakes(slow) {
      var j: nat :| FirstEnd(slow, j) && j < |slow| && Takes(slow[j]);
      OneEnd(slow, j, k);
    }
  }

  /** The payload is written exactly when the call gets to try and the cached route takes
      it, or there is none, an output is connected, and the lookup finds one that does. */
  lemma WritesIff(c: Copy, w: World)
    ensures SendItem(c, w).sends == 1 <==>
      Tries(c, w) && (if w.fast.Some? then Takes(w.fast.value) else w.connected && LookupTakes(w.slow))
    ensures SendItem(c, w).sends <= 1
    ensures SendItem(c, w).sends == 1 <==> SendItem(c, w).copy.state.Sent? && !c.state.Sent?
  {
    var k := SomeEnd(w.slow);
    EndTakes(w.slow, k);
    if Tries(c, w) {
      LookupAnswers(if FromFile(c.state) then c.(coolDown := w.second) else c, w.slow, Canceled, k);
    }
  }

  /** The answer before the last test: what the route taken said. */
  function RouteAnswer(w: World, k: nat): Status
    requires FirstEnd(w.slow, k)
  {
    if w.fast.Some? then Answer(w.fast.value)
    else if !w.connected || w.slow == [] then Canceled
    else if k < |w.slow| then Answer(w.slow[k])
    else w.slow[k - 1].payload
  }

  /** Every answer of a call. Timeout: the lock. Ok for a packet that is not tried: there is
      nothing left to do. Canceled for one not tried: sending is blocked. TooManyAttempt:
      the second is not over. Else the route's answer, but "no peer" where nothing was
      written, it was Canceled, and no output is connected any more. */
  lemma SendAnswers(c: Copy, w: World, k: nat)
    requires FirstEnd(w.slow, k)
    ensures !Tries(c, w) ==> SendItem(c, w) == Result(c,
      if w.lockTimeout then Timeout
      else if c.state in {Sent, OriginalRemainOnRam, RemainOnPub} then Ok
      else if w.blocked then Canceled else TooManyAttempt, 0)
    ensures Tries(c, w) ==> var r := SendItem(c, w);
      && r.err == (if r.sends == 0 && RouteAnswer(w, k) == Canceled && !w.stillConnected then NoPeer
                   else RouteAnswer(w, k))
      && r.copy.coolDown == if FromFile(c.state) then w.second else c.coolDown
  {
    if Tries(c, w) {
      LookupAnswers(if FromFile(c.state) then c.(coolDown := w.second) else c, w.slow, Canceled, k);
    }
  }

  /** A packet on RAM whose cached route takes the payload is sent, and the call says OK
      when there is no newline to write. */
  lemma RamPacketIsSent(c: Copy, w: World)
    requires c.state.OnL2Ram? && !w.lockTimeout && !w.blocked && w.fast == Some(Written(Ok, None))
    ensures SendItem(c, w) == Result(c.(prev := OnL2Ram, state := Sent), Ok, 1)
  {
  }

  // ---- archive, remap, discharge ----------------------------------------

  /** A packet on RAM, and no other, is offered to the archive. Accepted, the file gets the
      copy that can be sent and the original stays behind; refused, the answer is passed
      on and the original is left in the file's state. */
  lemma StoreAnswers(c: Copy, publish: Status)
    ensures var r := StoreItem(c, publish);
      && (r.made.Some? <==> c.state.OnL2Ram? && publish == Ok)
      && (r.made.Some? ==> r.made.value.state.ReplicatedOnPub? && r.made.value.prev.OnL2Ram?)
      && (r.err == Ok <==> !c.state.OnL2Ram? || publish == Ok) && (r.err != Ok ==> r.err == publish)
      && r.copy.state == (if !c.state.OnL2Ram? then c.state
                          else if publish == Ok then OriginalRemainOnRam else ReplicatedOnPub)
      && (!c.state.OnL2Ram? ==> r.copy == c) && (c.state.OnL2Ram? ==> r.copy.prev.OnL2Ram?)
      && r.copy.coolDown == c.coolDown && (r.made.Some? ==> r.made.value.coolDown == c.coolDown)
  {
  }

  /** A packet already remapped is told so and left alone. Else accepted, the private file
      gets the copy and the original stays behind; refused, the state is put back. */
  lemma RemapAnswers(c: Copy, publish: Status)
    ensures var r := Remap(c, publish);
      && (r.err == DoneAlready <==> c.state.ReplicatedOnPriv? || publish == DoneAlready)
      && (r.made.Some? <==> !c.state.ReplicatedOnPriv? && publish == Ok)
      && (r.made.Some? ==> r.made.value == c.(prev := c.state, state := ReplicatedOnPriv))
      && (!c.state.ReplicatedOnPriv? ==> r.err == publish && r.copy.prev == c.state)
      && r.copy.state == (if r.made.Some? then RemainOnPub else c.state)
      && (c.state.ReplicatedOnPriv? ==> r.copy == c) && r.copy.coolDown == c.coolDown
  {
  }

  /** Whether a file send goes on to the remap. */
  predicate Unreachable(err: Status) { err == NoPeer || err == PeerClosed }

  /** Every answer of a file send: occupied under pressure, with nothing done; else the
      send's own answer, but where that found no peer "mapped" if the remap made a copy,
      and "go on" if there was nothing to remap. */
  lemma DischargeAnswers(c: Copy, pressure: bool, w: World, publish: Status)
    ensures pressure ==> Discharge(c, pressure, w, publish) == Discharged(c, None, PortOccupied, 0)
    ensures !pressure ==>
      var sent, r := SendItem(c.(prev := c.state), w), Discharge(c, pressure, w, publish);
      && r.sends == sent.sends
      && (!Unreachable(sent.err) ==> r.copy == sent.copy && r.made.None? && r.err == sent.err)
      && (Unreachable(sent.err) && sent.copy.state.ReplicatedOnPriv? ==>
            r.copy == sent.copy && r.made.None? && r.err == ButContinue)
      && (Unreachable(sent.err) && !sent.copy.state.ReplicatedOnPriv? ==>
            (r.made.Some? <==> publish == Ok)
            && r.copy.state == (if publish == Ok then RemainOnPub else sent.copy.state)
            && r.err == if publish == Ok then Mapped else if publish == DoneAlready then ButContinue else sent.err)
  {
    RemapAnswers(SendItem(c.(prev := c.state), w).copy, publish);
  }

  // ---- what the file stack is told --------------------------------------

  /** Which answers and gates lead to each command. */
  predicate Leads(cmd: Command, ret: Status, gate: Gate) {
    match cmd
    case SentStop => ret == Ok && gate.Close?
    case SentContinue => ret == Ok && gate.Open?
    case RemappedStop => ret == Mapped && !gate.Open?
    case RemappedContinue => ret == Mapped && gate.Open?
    case NotSentTooMany => ret == TooManyAttempt
    case NotSentNoPeer => ret in {NoPeer, PeerClosed}
    case NotSentUncongest => ret == PortOccupied
    case NotSentStopDelayed => ret == ButContinue && !gate.Open?
    case NotSentContinue => gate.Open? && ret !in {Ok, Mapped, TooManyAttempt, NoPeer, PeerClosed, PortOccupied}
    case NotSentStop =>
      !gate.Open? && (ret == Ok ==> gate.Die?)
      && ret !in {Mapped, TooManyAttempt, NoPeer, PeerClosed, PortOccupied, ButContinue}
  }

  /** The file stack gets a command exactly in the cases that lead to it. */
  lemma CommandIff(cmd: Command, ret: Status, gate: Gate)
    ensures Relay(ret, gate) == cmd <==> Leads(cmd, ret, gate)
  {
  }
}
