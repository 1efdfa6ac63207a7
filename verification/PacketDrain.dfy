/** Emptying one popped segment: send from the tail to the head until one is not sent,
    then archive what is left, then release the segment with everything in it. */
module PacketDrain {
  import opened Wrappers
  import opened PacketLife

  /** The send pass over the first n items, last first: the items after it, and the
      answer it ended with. */
  function SendPass(items: seq<Copy>, n: nat, worlds: seq<World>): (r: (seq<Copy>, Status))
    requires n <= |items| == |worlds|
    ensures |r.0| == |items|
    decreases n
  {
    if n == 0 then (items, Ok)
    else
      var r := SendItem(items[n - 1], worlds[n - 1]);
      if r.err != Ok then (items[n - 1 := r.copy], r.err) else SendPass(items[n - 1 := r.copy], n - 1, worlds)
  }

  /** The store pass from item k on: the items after it, the file copies made. */
  function StorePass(items: seq<Copy>, k: nat, answers: seq<Status>): (r: (seq<Copy>, seq<Copy>))
    requires k <= |items| == |answers|
    ensures |r.0| == |items|
    decreases |items| - k
  {
    if k == |items| then (items, [])
    else
      var r := StoreItem(items[k], answers[k]);
      if r.err != Ok then (items[k := r.copy], [])
      else
        var rest := StorePass(items[k := r.copy], k + 1, answers);
        (rest.0, (if r.made.Some? then [r.made.value] else []) + rest.1)
  }

  /** blocked is the block flag, which skips the send pass. */
  function Drain(items: seq<Copy>, blocked: bool, worlds: seq<World>, answers: seq<Status>): (r: (seq<Copy>, seq<Copy>))
    requires |items| == |worlds| == |answers|
    ensures |r.0| == |items|
  {
    var pass := SendPass(items, |items|, worlds);
    if blocked then StorePass(items, 0, answers)
    else if pass.1 != Ok then StorePass(pass.0, 0, answers)
    else (pass.0, [])
  }

  // ---- the send pass ----------------------------------------------------

  lemma {:induction false} SendPassItem(items: seq<Copy>, n: nat, worlds: seq<World>, k: nat)
    requires n <= |items| == |worlds| && k < |items|
    ensures var r := SendPass(items, n, worlds);
      && (k >= n ==> r.0[k] == items[k])
      && r.0[k].pkt == items[k].pkt
      && (r.0[k].state == items[k].state
          || (Sendable(items[k].state) && r.0[k].state.Sent? && r.0[k].prev == items[k].state))
      && (!FromFile(items[k].state) ==> r.0[k] == items[k] || r.0[k].state.Sent?)
      && (r.1 == Ok && k < n ==> Finished(r.0[k].state))
    decreases n
  {
    if n > 0 {
      SendMovesTheToken(items[n - 1], worlds[n - 1]);
      OkMeansFinished(items[n - 1], worlds[n - 1]);
      var r := SendItem(items[n - 1], worlds[n - 1]);
      if r.err == Ok {
        SendPassItem(items[n - 1 := r.copy], n - 1, worlds, k);
      }
    }
  }

  /** Every packet above k is sent, or was before: the pass comes to k. */
  predicate Reached(items: seq<Copy>, n: nat, worlds: seq<World>, k: nat)
    requires n <= |items| == |worlds|
  {
    forall j | k < j < n :: SendItem(items[j], worlds[j]).err == Ok
  }

  /** The pass goes on as long as the answer is OK: packet k is offered to TCP exactly if
      every one above it answered OK. */
  lemma {:induction false} SendPassExact(items: seq<Copy>, n: nat, worlds: seq<World>, k: nat)
    requires n <= |items| == |worlds| && k < |items|
    ensures SendPass(items, n, worlds).0[k]
      == if k < n && Reached(items, n, worlds, k) then SendItem(items[k], worlds[k]).copy else items[k]
    decreases n
  {
    if n > 0 {
      var r := SendItem(items[n - 1], worlds[n - 1]);
      var items' := items[n - 1 := r.copy];
      if r.err == Ok {
        SendPassExact(items', n - 1, worlds, k);
        if k < n - 1 {
          assert Reached(items', n - 1, worlds, k) <==> Reached(items, n, worlds, k);
        }
      } else if k < n - 1 {
        assert !Reached(items, n, worlds, k);
      }
    }
  }

  /** The pass answers OK exactly if every send does, and else what the last one said. */
  lemma {:induction false} SendPassAnswers(items: seq<Copy>, n: nat, worlds: seq<World>)
    requires n <= |items| == |worlds|
    ensures SendPass(items, n, worlds).1 == Ok <==> forall j | 0 <= j < n :: SendItem(items[j], worlds[j]).err == Ok
    ensures forall j: nat | j < n && Reached(items, n, worlds, j) && SendItem(items[j], worlds[j]).err != Ok ::
              SendPass(items, n, worlds).1 == SendItem(items[j], worlds[j]).err
    decreases n
  {
    if n > 0 {
      var r := SendItem(items[n - 1], worlds[n - 1]);
      if r.err == Ok {
        var items' := items[n - 1 := r.copy];
        SendPassAnswers(items', n - 1, worlds);
        forall j: nat | j < n && Reached(items, n, worlds, j) && SendItem(items[j], worlds[j]).err != Ok
          ensures SendPass(items, n, worlds).1 == SendItem(items[j], worlds[j]).err
        {
          assert Reached(items', n - 1, worlds, j);
        }
      } else {
        assert forall j: nat | j < n - 1 :: !Reached(items, n, worlds, j);
      }
    }
  }

  // ---- the store pass ---------------------------------------------------

  /** The archive takes this item, or it needs none. */
  predicate Storable(c: Copy, answer: Status) {
    Finished(c.state) || (c.state.OnL2Ram? && answer == Ok)
  }

  lemma {:induction false} StorePassItem(items: seq<Copy>, k: nat, answers: seq<Status>, j: nat)
    requires k <= |items| == |answers| && j < |items|
    ensures var r := StorePass(items, k, answers);
      && (j < k ==> r.0[j] == items[j])
      && (!Storable(items[j], answers[j]) && Sendable(items[j].state) ==> Sendable(r.0[j].state))
      && (r.0[j].state == items[j].state || (items[j].state.OnL2Ram?
          && r.0[j].state == if answers[j] == Ok then OriginalRemainOnRam else ReplicatedOnPub))
    decreases |items| - k
  {
    if k < |items| {
      var r := StoreItem(items[k], answers[k]);
      if r.err == Ok {
        StorePassItem(items[k := r.copy], k + 1, answers, j);
      }
    }
  }

  lemma {:induction false} StorePassAll(items: seq<Copy>, k: nat, answers: seq<Status>, j: nat)
    requires k <= j < |items| == |answers|
    requires forall i | k <= i < |items| :: Storable(items[i], answers[i])
    ensures Finished(StorePass(items, k, answers).0[j].state)
    decreases |items| - k
  {
    var r := StoreItem(items[k], answers[k]);
    assert Storable(items[k], answers[k]);
    assert r.err == Ok;
    if j > k {
      StorePassAll(items[k := r.copy], k + 1, answers, j);
    } else {
      StorePassItem(items[k := r.copy], k + 1, answers, j);
    }
  }

  /** The store pass goes on as long as the answer is OK: packet j is offered to the archive
      exactly if every one below it answered OK. */
  predicate Offered(items: seq<Copy>, k: nat, answers: seq<Status>, j: nat)
    requires j < |items| == |answers|
  {
    forall i | k <= i < j :: StoreItem(items[i], answers[i]).err == Ok
  }

  lemma {:induction false} StorePassExact(items: seq<Copy>, k: nat, answers: seq<Status>, j: nat)
    requires k <= |items| == |answers| && j < |items|
    ensures StorePass(items, k, answers).0[j]
      == if k <= j && Offered(items, k, answers, j) then StoreItem(items[j], answers[j]).copy else items[j]
    decreases |items| - k
  {
    if k < |items| {
      var r := StoreItem(items[k], answers[k]);
      var items' := items[k := r.copy];
      if r.err == Ok {
        StorePassExact(items', k + 1, answers, j);
        if k < j {
          assert Offered(items', k + 1, answers, j) <==> Offered(items, k, answers, j);
        }
      } else if k < j {
        assert !Offered(items, k, answers, j);
      }
    }
  }

  // ---- nothing is lost --------------------------------------------------

  predicate AllFinished(items: seq<Copy>) {
    forall k | 0 <= k < |items| :: Finished(items[k].state)
  }

  /** Whatever TCP answers, the segment ends with every packet finished. */
  ghost predicate AlwaysFinishes(items: seq<Copy>, answers: seq<Status>)
    requires |items| == |answers|
  {
    forall blocked: bool, worlds: seq<World> | |worlds| == |items| ::
      AllFinished(Drain(items, blocked, worlds, answers).0)
  }

  lemma DrainFinishes(items: seq<Copy>, blocked: bool, worlds: seq<World>, answers: seq<Status>)
    requires |items| == |worlds| == |answers|
    requires forall k | 0 <= k < |items| :: Storable(items[k], answers[k])
    ensures AllFinished(Drain(items, blocked, worlds, answers).0)
  {
    var pass := SendPass(items, |items|, worlds);
    var before := if blocked then items else pass.0;
    forall k | 0 <= k < |items| ensures Finished(Drain(items, blocked, worlds, answers).0[k].state) {
      forall i | 0 <= i < |items| ensures Storable(before[i], answers[i]) {
        SendPassItem(items, |items|, worlds, i);
        assert Storable(items[i], answers[i]);
      }
      SendPassItem(items, |items|, worlds, k);
      StorePassAll(before, 0, answers, k);
    }
  }

  /** Draining loses nothing, whatever TCP and the block flag do, exactly when every item on
      entry is finished already, or is a packet on RAM that the archive accepts. What
      remains is an item left in the file's state by an archive that failed before. */
  lemma DrainLosesNothing(items: seq<Copy>, answers: seq<Status>)
    requires |items| == |answers|
    ensures AlwaysFinishes(items, answers) <==> forall k | 0 <= k < |items| :: Storable(items[k], answers[k])
  {
    if forall k | 0 <= k < |items| :: Storable(items[k], answers[k]) {
      forall blocked: bool, worlds: seq<World> | |worlds| == |items|
        ensures AllFinished(Drain(items, blocked, worlds, answers).0)
      {
        DrainFinishes(items, blocked, worlds, answers);
      }
    } else {
      var k :| 0 <= k < |items| && !Storable(items[k], answers[k]);
      var worlds := seq(|items|, _ => World(true, true, 0, None, false, false, []));
      StorePassItem(items, 0, answers, k);
      assert !Finished(Drain(items, true, worlds, answers).0[k].state);
    }
  }

  // ---- what the archive gets --------------------------------------------

  /** The file copy of a packet that was on RAM and remains there as an original. */
  function Archived(before: seq<Copy>, after: seq<Copy>, k: nat): seq<Copy>
    requires k <= |before| == |after|
    decreases |before| - k
  {
    if k == |before| then []
    else
      (if before[k].state.OnL2Ram? && after[k].state.OriginalRemainOnRam?
       then [before[k].(prev := OnL2Ram, state := ReplicatedOnPub)] else []) + Archived(before, after, k + 1)
  }

  lemma {:induction false} StoreMakes(items: seq<Copy>, k: nat, answers: seq<Status>)
    requires k <= |items| == |answers|
    ensures StorePass(items, k, answers).1 == Archived(items, StorePass(items, k, answers).0, k)
    decreases |items| - k
  {
    if k < |items| {
      var r := StoreItem(items[k], answers[k]);
      var after := StorePass(items, k, answers).0;
      if r.err == Ok {
        StorePassItem(items[k := r.copy], k + 1, answers, k);
        StoreMakes(items[k := r.copy], k + 1, answers);
        SameArchive(items, items[k := r.copy], after, k + 1);
      } else {
        NoneArchived(items, after, k);
      }
    }
  }

  lemma {:induction false} SameArchive(a: seq<Copy>, b: seq<Copy>, after: seq<Copy>, k: nat)
    requires k <= |a| == |b| == |after|
    requires forall i | k <= i < |a| :: a[i] == b[i] || !after[i].state.OriginalRemainOnRam?
    ensures Archived(a, after, k) == Archived(b, after, k)
    decreases |a| - k
  {
    if k < |a| {
      SameArchive(a, b, after, k + 1);
    }
  }

  lemma {:induction false} NoneArchived(a: seq<Copy>, after: seq<Copy>, k: nat)
    requires k <= |a| == |after|
    requires forall i | k <= i < |a| :: a[i].state.OnL2Ram? ==> !after[i].state.OriginalRemainOnRam?
    ensures Archived(a, after, k) == []
    decreases |a| - k
  {
    if k < |a| {
      NoneArchived(a, after, k + 1);
    }
  }

  /** One packet of the segment, before and after the store pass. */
  lemma FateOfOne(items: seq<Copy>, blocked: bool, worlds: seq<World>, answers: seq<Status>, k: nat)
    requires |items| == |worlds| == |answers| && k < |items|
    ensures var before := if blocked then items else SendPass(items, |items|, worlds).0;
      var after := Drain(items, blocked, worlds, answers).0[k];
      && (before[k] == items[k] || !after.state.OriginalRemainOnRam?)
      && (!blocked && SendPass(items, |items|, worlds).1 == Ok ==> !before[k].state.OnL2Ram?)
      && (items[k].state.OnL2Ram? ==> after.state in {Sent, OriginalRemainOnRam, OnL2Ram, ReplicatedOnPub})
  {
    SendPassItem(items, |items|, worlds, k);
    StorePassItem(if blocked then items else SendPass(items, |items|, worlds).0, 0, answers, k);
  }

  /** Sent or archived, never both: the archive gets, in the segment's order, one copy of
      each packet that was on RAM and remains there as an original, and nothing else;
      and when the archive accepts whatever it is asked, those packets and the ones
      sent are all that were on RAM. */
  lemma SentOrArchived(items: seq<Copy>, blocked: bool, worlds: seq<World>, answers: seq<Status>)
    requires |items| == |worlds| == |answers|
    ensures var (after, made) := Drain(items, blocked, worlds, answers);
      && made == Archived(items, after, 0)
      && ((forall k | 0 <= k < |items| :: Storable(items[k], answers[k])) ==>
          forall k | 0 <= k < |items| && items[k].state.OnL2Ram? ::
            after[k].state.Sent? || after[k].state.OriginalRemainOnRam?)
  {
    var pass := SendPass(items, |items|, worlds);
    var before := if blocked then items else pass.0;
    var after := Drain(items, blocked, worlds, answers).0;
    forall k: nat | k < |items| {
      FateOfOne(items, blocked, worlds, answers, k);
    }
    StoreMakes(before, 0, answers);
    SameArchive(items, before, after, 0);
    if !blocked && pass.1 == Ok {
      NoneArchived(before, after, 0);
    }
    if forall k | 0 <= k < |items| :: Storable(items[k], answers[k]) {
      DrainFinishes(items, blocked, worlds, answers);
    }
  }

  // ---- what becomes of each packet --------------------------------------

  /** With every send answering OK and no block nothing is archived, and every packet was
      offered to TCP. */
  lemma DrainSendsAll(items: seq<Copy>, worlds: seq<World>, answers: seq<Status>)
    requires |items| == |worlds| == |answers|
    requires forall k | 0 <= k < |items| :: SendItem(items[k], worlds[k]).err == Ok
    ensures var (after, made) := Drain(items, false, worlds, answers);
      made == [] && forall k | 0 <= k < |items| :: after[k] == SendItem(items[k], worlds[k]).copy
  {
    SendPassAnswers(items, |items|, worlds);
    forall k: nat | k < |items|
      ensures SendPass(items, |items|, worlds).0[k] == SendItem(items[k], worlds[k]).copy
    {
      SendPassExact(items, |items|, worlds, k);
    }
  }

  /** Packet k after the send pass, or as it was when sending is blocked. */
  function SentOver(items: seq<Copy>, blocked: bool, worlds: seq<World>, k: nat): Copy
    requires k < |items| == |worlds|
  {
    if !blocked && Reached(items, |items|, worlds, k) then SendItem(items[k], worlds[k]).copy else items[k]
  }

  /** The send pass got through all: no store pass is made. */
  predicate AllSent(items: seq<Copy>, blocked: bool, worlds: seq<World>)
    requires |items| == |worlds|
  {
    !blocked && forall k | 0 <= k < |items| :: SendItem(items[k], worlds[k]).err == Ok
  }

  /** Otherwise packet k is offered to the archive after the send pass, exactly if the
      archive answered OK for every one below it. */
  lemma DrainExact(items: seq<Copy>, blocked: bool, worlds: seq<World>, answers: seq<Status>, k: nat)
    requires |items| == |worlds| == |answers| && k < |items|
    ensures var over := SentOver(items, blocked, worlds, k);
      Drain(items, blocked, worlds, answers).0[k]
        == if !AllSent(items, blocked, worlds)
              && forall i | 0 <= i < k :: StoreItem(SentOver(items, blocked, worlds, i), answers[i]).err == Ok
           then StoreItem(over, answers[k]).copy else over
  {
    var before := if blocked then items else SendPass(items, |items|, worlds).0;
    SendPassAnswers(items, |items|, worlds);
    forall i: nat | i < |items| ensures before[i] == SentOver(items, blocked, worlds, i) {
      SendPassExact(items, |items|, worlds, i);
    }
    StorePassExact(before, 0, answers, k);
  }
}
