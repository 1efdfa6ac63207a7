/** What each step answers: from which state an operation ends, with which answer, where it
    goes on otherwise, and that it serves the call it was made for. */
module RingAnswers {
  import opened Wrappers
  import opened Bits
  import opened RingModel
  import opened RingInvariant
  import opened RingTheorems

  predicate CanMake(pc: Pc, e: Event) {
    match e
    case CallEnqueue(_) => pc.Ready?
    case CallDequeue => pc.Ready?
    case CasFails => pc.EnqCas? || pc.DeqCas?
    case Tick => !pc.Ready?
  }

  /** A thread between operations can start one; one within an operation can always make its
      next access; and only a CAS can fail spuriously. */
  lemma Possible(s: State, t: Tid, e: Event)
    requires Inv(s)
    ensures Next(Unbounded, s, t, e).Some? <==> t in s.pcs && CanMake(s.pcs[t], e)
  {
  }

  lemma OneMoves(a: Arith, s: State, t: Tid)
    requires t in s.pcs && Access(a, s, t).Some?
    ensures var s' := Access(a, s, t).value; t in s'.pcs && s'.pcs == s.pcs[t := s'.pcs[t]]
  {
  }

  /** No thread moves another. */
  lemma OthersStay(a: Arith, s: State, t: Tid, e: Event)
    requires Next(a, s, t, e).Some?
    ensures var s' := Next(a, s, t, e).value;
      s'.pcs.Keys == s.pcs.Keys && forall u | u in s.pcs && u != t :: s'.pcs[u] == s.pcs[u]
  {
    if e.Tick? {
      OneMoves(a, s, t);
    }
  }

  /** The position's predecessor in the slot, a lap before, is released or there is none. */
  predicate FreeForTail(s: State, pos: nat)
    requires s.cap > 0 && |s.slots| == s.cap
  {
    pos < s.cap || PhaseOf(s, pos - s.cap).Released?
  }

  /** The position is not claimed yet, or claimed and not published. */
  predicate Unpublished(s: State, pos: nat)
    requires s.cap > 0 && |s.slots| == s.cap
  {
    pos == s.tail || PhaseOf(s, pos).Claimed?
  }

  /** The answers of an enqueue, over every step of every thread: full exactly from a stamp
      read whose position is still next and not free; true exactly from the store that
      publishes, which leaves the claimed position published with the item in its slot. */
  lemma EnqueueAnswers(s: State, t: Tid, e: Event)
    requires Inv(s) && Next(Unbounded, s, t, e).Some?
    ensures var pc, pc' := s.pcs[t], Next(Unbounded, s, t, e).value.pcs[t];
      && (pc' == Ready(Full) <==> e.Tick? && pc.EnqLoadStamp? && pc.pos == s.tail && !FreeForTail(s, pc.pos))
      && (pc' == Ready(Enqueued) <==> e.Tick? && pc.EnqPublish?)
    ensures var pc, s' := s.pcs[t], Next(Unbounded, s, t, e).value;
      s'.pcs[t] == Ready(Enqueued) ==>
        Inv(s') && InWindow(s', pc.pos) && s'.claims[pc.pos] == Claim(t, pc.item)
        && PhaseOf(s', pc.pos).Published? && At(s', pc.pos).data == pc.item
  {
    NextInv(s, t, e);
    assert PcInv(s, t);
    if e.Tick? && s.pcs[t].EnqLoadStamp? {
      FullIffUnreleased(s, t);
    }
    if e.Tick? && s.pcs[t].EnqPublish? {
      PublishesItem(s, t);
    }
  }

  lemma PublishesItem(s: State, t: Tid)
    requires Inv(s) && t in s.pcs && s.pcs[t].EnqPublish?
    ensures var pos, s' := s.pcs[t].pos, Next(Unbounded, s, t, Tick).value;
      PhaseOf(s', pos).Published? && At(s', pos).data == s.pcs[t].item
  {
    assert PcInv(s, t) && PhaseInv(s, s.pcs[t].pos);
  }

  /** The answers of a dequeue: empty exactly from a stamp read whose position is still next
      and not published; an item exactly from the release, and it is the item claimed for
      that position, which this thread took (ReturnsTheTaken). */
  lemma DequeueAnswers(s: State, t: Tid, e: Event)
    requires Inv(s) && Next(Unbounded, s, t, e).Some?
    ensures var pc, pc' := s.pcs[t], Next(Unbounded, s, t, e).value.pcs[t];
      && (pc' == Ready(Empty) <==> e.Tick? && pc.DeqLoadStamp? && pc.pos == s.head && Unpublished(s, pc.pos))
      && (pc'.Ready? && pc'.last.Dequeued? <==> e.Tick? && pc.DeqRelease?)
      && pc' != Ready(NoAnswer)
  {
    assert PcInv(s, t);
    if e.Tick? && s.pcs[t].DeqLoadStamp? {
      EmptyIffUnpublished(s, t);
    }
  }

  lemma ReturnsTheTaken(s: State, t: Tid, e: Event)
    requires Inv(s) && Next(Unbounded, s, t, e).Some?
    ensures var pc, pc' := s.pcs[t], Next(Unbounded, s, t, e).value.pcs[t];
      pc'.Ready? && pc'.last.Dequeued? ==>
        pc.pos < s.head && s.takers[pc.pos] == t && pc'.last.item == s.claims[pc.pos].item
  {
    assert PcInv(s, t);
  }

  // ---- where an operation goes on ---------------------------------------

  /** An enqueue that has not answered goes on with its item: to its CAS exactly from a stamp
      that is the position's own, to the write exactly from a CAS on the current tail, and
      back to the top of the loop from any other stamp or CAS. */
  lemma EnqueueGoesOn(s: State, t: Tid, e: Event)
    requires Inv(s) && Next(Unbounded, s, t, e).Some?
    ensures var pc, pc' := s.pcs[t], Next(Unbounded, s, t, e).value.pcs[t];
      && (pc.EnqLoadTail? ==> pc' == EnqLoadStamp(pc.item, s.tail))
      && (pc.EnqLoadStamp? && !pc'.Ready? ==>
            pc' == if At(s, pc.pos).stamp == pc.pos then EnqCas(pc.item, pc.pos) else EnqLoadTail(pc.item))
      && (pc.EnqLoadStamp? ==>
            (pc'.EnqCas? <==> if pc.pos == s.tail then FreeForTail(s, pc.pos)
                              else InWindow(s, pc.pos) && PhaseOf(s, pc.pos).Claimed?))
      && (pc.EnqCas? ==>
            pc' == if e.Tick? && s.tail == pc.pos then EnqWrite(pc.item, pc.pos) else EnqLoadTail(pc.item))
      && (pc.EnqWrite? ==> pc' == EnqPublish(pc.item, pc.pos))
  {
    assert PcInv(s, t);
    if s.pcs[t].EnqLoadStamp? {
      StampSays(s, s.pcs[t].pos);
    }
  }

  /** What the stamp of a position read from tail says. */
  lemma StampSays(s: State, pos: nat)
    requires Inv(s) && pos <= s.tail
    ensures At(s, pos).stamp == pos <==>
      if pos == s.tail then FreeForTail(s, pos) else InWindow(s, pos) && PhaseOf(s, pos).Claimed?
    ensures pos < s.tail ==> pos <= At(s, pos).stamp
    ensures pos < s.head ==> pos < At(s, pos).stamp
    ensures pos < s.tail ==>
      (At(s, pos).stamp == pos + 1 <==> InWindow(s, pos) && PhaseOf(s, pos) in {Published, Taken})
  {
    if pos == s.tail {
      TailStamp(s);
    } else {
      StampReached(s, pos);
      if InWindow(s, pos) {
        assert PhaseInv(s, pos);
      } else {
        ModShift(pos, s.cap);
        StampReached(s, pos + s.cap);
      }
    }
  }

  lemma DequeueGoesOn(s: State, t: Tid, e: Event)
    requires Inv(s) && Next(Unbounded, s, t, e).Some?
    ensures var pc, pc' := s.pcs[t], Next(Unbounded, s, t, e).value.pcs[t];
      && (pc.DeqLoadHead? ==> pc' == DeqLoadStamp(s.head))
      && (pc.DeqLoadStamp? && !pc'.Ready? ==>
            pc' == if At(s, pc.pos).stamp == pc.pos + 1 then DeqCas(pc.pos) else DeqLoadHead)
      && (pc.DeqLoadStamp? ==>
            (pc'.DeqCas? <==> pc.pos < s.tail && InWindow(s, pc.pos) && PhaseOf(s, pc.pos) in {Published, Taken}))
      && (pc.DeqCas? ==> pc' == if e.Tick? && s.head == pc.pos then DeqRead(pc.pos) else DeqLoadHead)
      && (pc.DeqRead? ==> pc' == DeqRelease(pc.pos, At(s, pc.pos).data))
  {
    assert PcInv(s, t);
    if s.pcs[t].DeqLoadStamp? {
      StampSays(s, s.pcs[t].pos);
      if s.pcs[t].pos == s.tail {
        TailStamp(s);
      }
    }
  }

  // ---- the call an operation serves -------------------------------------

  /** The last call thread t made in a run. */
  function LastCall(sched: Schedule, t: Tid): Option<Event> {
    if sched == [] then None
    else
      var n := |sched| - 1;
      if sched[n].0 == t && (sched[n].1.CallEnqueue? || sched[n].1.CallDequeue?) then Some(sched[n].1)
      else LastCall(sched[..n], t)
  }

  /** The place is one within, or an answer to, the call. */
  predicate Serves(pc: Pc, call: Option<Event>) {
    match pc
    case Ready(NoAnswer) => call.None?
    case Ready(Enqueued) => call.Some? && call.value.CallEnqueue?
    case Ready(Full) => call.Some? && call.value.CallEnqueue?
    case EnqLoadTail(item) => call == Some(CallEnqueue(item))
    case EnqLoadStamp(item, _) => call == Some(CallEnqueue(item))
    case EnqCas(item, _) => call == Some(CallEnqueue(item))
    case EnqWrite(item, _) => call == Some(CallEnqueue(item))
    case EnqPublish(item, _) => call == Some(CallEnqueue(item))
    case _ => call == Some(CallDequeue)
  }

  function CallAfter(call: Option<Event>, e: Event): Option<Event> {
    if e.CallEnqueue? || e.CallDequeue? then Some(e) else call
  }

  lemma StepServes(a: Arith, s: State, t: Tid, e: Event, call: Option<Event>)
    requires Next(a, s, t, e).Some? && Serves(s.pcs[t], call)
    ensures Serves(Next(a, s, t, e).value.pcs[t], CallAfter(call, e))
  {
  }

  /** In every run, in either arithmetic, a thread is where its last call put it, with the
      item it was called with. */
  lemma {:induction false} ServesTheCall(a: Arith, cap: nat, tids: set<Tid>, sched: Schedule, t: Tid)
    requires Run(a, Init(cap, tids), sched).Some? && t in Run(a, Init(cap, tids), sched).value.pcs
    ensures Serves(Run(a, Init(cap, tids), sched).value.pcs[t], LastCall(sched, t))
    decreases |sched|
  {
    if sched != [] {
      var n := |sched| - 1;
      var s := Run(a, Init(cap, tids), sched[..n]).value;
      OthersStay(a, s, sched[n].0, sched[n].1);
      ServesTheCall(a, cap, tids, sched[..n], t);
      if sched[n].0 == t {
        StepServes(a, s, t, sched[n].1, LastCall(sched[..n], t));
      }
    }
  }

  /** So the item a thread appends to the queue is the one its enqueue was called with. */
  lemma AppendsTheCalled(cap: nat, tids: set<Tid>, sched: Schedule, t: Tid, e: Event)
    requires Run(Unbounded, Init(cap, tids), sched).Some?
    requires var s := Run(Unbounded, Init(cap, tids), sched).value; Next(Unbounded, s, t, e).Some?
    ensures var s := Run(Unbounded, Init(cap, tids), sched).value;
      forall item :: Append(item) in LinPoint(s, t, e) ==> LastCall(sched, t) == Some(CallEnqueue(item))
  {
    ServesTheCall(Unbounded, cap, tids, sched, t);
  }
}
