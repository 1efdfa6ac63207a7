/** One thread moving while the others stand still: whole operations as schedules, in
    both arithmetics. */
module RingSolo {
  import opened Bits
  import opened RingModel
  import opened Wrappers

  lemma {:induction false} RunTwo(a: Arith, s: State, one: Schedule, two: Schedule)
    requires Run(a, s, one).Some?
    ensures Run(a, s, one + two) == Run(a, Run(a, s, one).value, two)
    decreases |two|
  {
    if two == [] {
      assert one + two == one;
    } else {
      var n := |two| - 1;
      RunTwo(a, s, one, two[..n]);
      assert (one + two)[..|one + two| - 1] == one + two[..n];
    }
  }

  lemma RunJoins(a: Arith, s: State, one: Schedule, m: State, two: Schedule, e: State)
    requires Run(a, s, one) == Some(m) && Run(a, m, two) == Some(e)
    ensures Run(a, s, one + two) == Some(e)
  {
    RunTwo(a, s, one, two);
  }

  function Repeated(part: Schedule, n: nat): Schedule {
    if n == 0 then [] else Repeated(part, n - 1) + part
  }

  ghost predicate Linked(a: Arith, states: seq<State>, part: Schedule, i: nat)
    requires i + 1 < |states|
  {
    Run(a, states[i], part) == Some(states[i + 1])
  }

  ghost predicate AllLinked(a: Arith, states: seq<State>, part: Schedule, n: nat)
    requires n < |states|
  {
    forall i: nat {:trigger Linked(a, states, part, i)} | i < n :: Linked(a, states, part, i)
  }

  lemma LinkMore(a: Arith, states: seq<State>, part: Schedule, n: nat, s': State)
    requires |states| == n + 1 && AllLinked(a, states, part, n) && Run(a, states[n], part) == Some(s')
    ensures AllLinked(a, states + [s'], part, n + 1)
  {
    forall i: nat | i < n + 1 ensures Linked(a, states + [s'], part, i) {
      assert i < n ==> Linked(a, states, part, i);
    }
  }

  lemma {:induction false} RunRepeats(a: Arith, states: seq<State>, part: Schedule, n: nat)
    requires n < |states| && AllLinked(a, states, part, n)
    ensures Run(a, states[0], Repeated(part, n)) == Some(states[n])
  {
    if n > 0 {
      RunRepeats(a, states, part, n - 1);
      assert Linked(a, states, part, n - 1);
      RunJoins(a, states[0], Repeated(part, n - 1), states[n - 1], part, states[n]);
    }
  }

  lemma RunMore(a: Arith, s: State, sched: Schedule, m: State, t: Tid, e: Event)
    requires Run(a, s, sched) == Some(m)
    ensures Run(a, s, sched + [(t, e)]) == Next(a, m, t, e)
  {
    assert (sched + [(t, e)])[..|sched|] == sched;
  }

  function One(t: Tid, e: Event): Schedule { [(t, e)] }

  lemma RunOne(a: Arith, s: State, t: Tid, e: Event)
    ensures Run(a, s, One(t, e)) == Next(a, s, t, e)
  {
    RunMore(a, s, [], s, t, e);
    assert [] + One(t, e) == One(t, e);
  }

  // ---- an enqueue, up to its CAS and to its answer ------------------------

  /** An enqueue called, up to just before its CAS on tail. */
  function ParkEnqueue(t: Tid, item: Item): Schedule {
    One(t, CallEnqueue(item)) + [(t, Tick)] + [(t, Tick)]
  }

  function EnqueueSchedule(t: Tid, item: Item): Schedule {
    ParkEnqueue(t, item) + [(t, Tick)] + [(t, Tick)] + [(t, Tick)]
  }

  /** The slot of tail is i and free. */
  predicate TailFree(a: Arith, s: State, i: nat) {
    i < |s.slots| && Index(a, s.tail, s.cap) == i && s.slots[i].stamp == s.tail && (a.Words? ==> s.tail < WORD)
  }

  lemma ParksAtTail(a: Arith, s: State, t: Tid, item: Item, i: nat)
    requires t in s.pcs && s.pcs[t].Ready? && TailFree(a, s, i)
    ensures Run(a, s, ParkEnqueue(t, item)) == Some(Goto(s, t, EnqCas(item, s.tail)))
  {
    var s1, s2 := Goto(s, t, EnqLoadTail(item)), Goto(s, t, EnqLoadStamp(item, s.tail));
    RunOne(a, s, t, CallEnqueue(item));
    assert s1.pcs[t := EnqLoadStamp(item, s.tail)] == s2.pcs;
    RunMore(a, s, One(t, CallEnqueue(item)), s1, t, Tick);
    assert s2.pcs[t := EnqCas(item, s.tail)] == s.pcs[t := EnqCas(item, s.tail)];
    RunMore(a, s, One(t, CallEnqueue(item)) + [(t, Tick)], s2, t, Tick);
  }

  function AfterEnqueue(a: Arith, s: State, t: Tid, item: Item, i: nat): State
    requires i < |s.slots|
  {
    s.(pcs := s.pcs[t := Ready(Enqueued)], tail := Plus(a, s.tail, 1),
       slots := s.slots[i := Slot(Plus(a, s.tail, 1), item)], claims := s.claims + [Claim(t, item)])
  }

  lemma OneEnqueue(a: Arith, s: State, t: Tid, item: Item, i: nat)
    requires t in s.pcs && s.pcs[t].Ready? && TailFree(a, s, i)
    ensures Run(a, s, EnqueueSchedule(t, item)) == Some(AfterEnqueue(a, s, t, item, i))
  {
    ParksAtTail(a, s, t, item, i);
    var s3 := Goto(s, t, EnqCas(item, s.tail));
    var s4, s5 := EnqueueEnds(a, s, t, item, i);
    RunMore(a, s, ParkEnqueue(t, item), s3, t, Tick);
    RunMore(a, s, ParkEnqueue(t, item) + [(t, Tick)], s4, t, Tick);
    RunMore(a, s, ParkEnqueue(t, item) + [(t, Tick)] + [(t, Tick)], s5, t, Tick);
  }

  lemma EnqueueEnds(a: Arith, s: State, t: Tid, item: Item, i: nat) returns (s4: State, s5: State)
    requires t in s.pcs && TailFree(a, s, i)
    ensures Next(a, Goto(s, t, EnqCas(item, s.tail)), t, Tick) == Some(s4)
    ensures Next(a, s4, t, Tick) == Some(s5) && Next(a, s5, t, Tick) == Some(AfterEnqueue(a, s, t, item, i))
  {
    s4 := Goto(s, t, EnqWrite(item, s.tail)).(tail := Plus(a, s.tail, 1), claims := s.claims + [Claim(t, item)]);
    assert Goto(s, t, EnqCas(item, s.tail)).pcs[t := EnqWrite(item, s.tail)] == s4.pcs;
    s5 := Goto(s4, t, EnqPublish(item, s.tail)).(slots := s.slots[i := Slot(s.tail, item)]);
    assert s5.pcs[t := Ready(Enqueued)] == s.pcs[t := Ready(Enqueued)];
    assert s5.slots[i := Slot(Plus(a, s.tail, 1), item)] == s.slots[i := Slot(Plus(a, s.tail, 1), item)];
  }

  // ---- a dequeue --------------------------------------------------------

  function ParkDequeue(t: Tid): Schedule {
    One(t, CallDequeue) + [(t, Tick)] + [(t, Tick)]
  }

  function DequeueSchedule(t: Tid): Schedule {
    ParkDequeue(t) + [(t, Tick)] + [(t, Tick)] + [(t, Tick)]
  }

  /** The slot of head is i and published. */
  predicate HeadPublished(a: Arith, s: State, i: nat) {
    i < |s.slots| && Index(a, s.head, s.cap) == i && s.slots[i].stamp == Plus(a, s.head, 1)
    && (a.Words? ==> s.head < WORD)
  }

  lemma ParksAtHead(a: Arith, s: State, t: Tid, i: nat)
    requires t in s.pcs && s.pcs[t].Ready? && HeadPublished(a, s, i)
    ensures Run(a, s, ParkDequeue(t)) == Some(Goto(s, t, DeqCas(s.head)))
  {
    var s1, s2 := Goto(s, t, DeqLoadHead), Goto(s, t, DeqLoadStamp(s.head));
    RunOne(a, s, t, CallDequeue);
    assert s1.pcs[t := DeqLoadStamp(s.head)] == s2.pcs;
    RunMore(a, s, One(t, CallDequeue), s1, t, Tick);
    assert s2.pcs[t := DeqCas(s.head)] == s.pcs[t := DeqCas(s.head)];
    RunMore(a, s, One(t, CallDequeue) + [(t, Tick)], s2, t, Tick);
  }

  function AfterDequeue(a: Arith, s: State, t: Tid, i: nat): State
    requires i < |s.slots|
  {
    s.(pcs := s.pcs[t := Ready(Dequeued(s.slots[i].data))], head := Plus(a, s.head, 1),
       slots := s.slots[i := s.slots[i].(stamp := Plus(a, s.head, s.cap))],
       takers := s.takers + [t], returned := s.returned + [s.slots[i].data])
  }

  lemma OneDequeue(a: Arith, s: State, t: Tid, i: nat)
    requires t in s.pcs && s.pcs[t].Ready? && HeadPublished(a, s, i)
    ensures Run(a, s, DequeueSchedule(t)) == Some(AfterDequeue(a, s, t, i))
  {
    ParksAtHead(a, s, t, i);
    var s3 := Goto(s, t, DeqCas(s.head));
    var s4, s5 := DequeueEnds(a, s, t, i);
    RunMore(a, s, ParkDequeue(t), s3, t, Tick);
    RunMore(a, s, ParkDequeue(t) + [(t, Tick)], s4, t, Tick);
    RunMore(a, s, ParkDequeue(t) + [(t, Tick)] + [(t, Tick)], s5, t, Tick);
  }

  lemma DequeueEnds(a: Arith, s: State, t: Tid, i: nat) returns (s4: State, s5: State)
    requires t in s.pcs && HeadPublished(a, s, i)
    ensures Next(a, Goto(s, t, DeqCas(s.head)), t, Tick) == Some(s4)
    ensures Next(a, s4, t, Tick) == Some(s5) && Next(a, s5, t, Tick) == Some(AfterDequeue(a, s, t, i))
  {
    var item := s.slots[i].data;
    s4 := Goto(s, t, DeqRead(s.head)).(head := Plus(a, s.head, 1), takers := s.takers + [t]);
    assert Goto(s, t, DeqCas(s.head)).pcs[t := DeqRead(s.head)] == s4.pcs;
    s5 := Goto(s4, t, DeqRelease(s.head, item));
    assert s5.pcs[t := Ready(Dequeued(item))] == s.pcs[t := Ready(Dequeued(item))];
  }
}
