/** What the invariant means to the users of the ring. */
module RingTheorems {
  import opened Wrappers
  import opened Bits
  import opened Ranges
  import opened RingModel
  import opened RingInvariant
  import opened RingSolo

  // ---- phases and owners ------------------------------------------------

  predicate Produces(pc: Pc, p: nat) {
    (pc.EnqWrite? || pc.EnqPublish?) && pc.pos == p
  }

  predicate Consumes(pc: Pc, p: nat) {
    (pc.DeqRead? || pc.DeqRelease?) && pc.pos == p
  }

  function StampIn(s: State, p: nat, phase: Phase): nat {
    match phase case Claimed => p case Released => p + s.cap case _ => p + 1
  }

  /** Every claimed position is in one phase, told by its stamp and head; a thread
      works on it exactly in the phases Claimed and Taken, and then only the thread
      whose CAS claimed it. */
  lemma Ownership(s: State, p: nat)
    requires Inv(s) && p < s.tail
    ensures p >= s.head ==> InWindow(s, p) && PhaseOf(s, p) in {Claimed, Published}
    ensures p < s.head && InWindow(s, p) ==> PhaseOf(s, p) in {Taken, Released}
    ensures InWindow(s, p) ==> At(s, p).stamp == StampIn(s, p, PhaseOf(s, p))
    ensures forall u | u in s.pcs :: Produces(s.pcs[u], p) <==>
              InWindow(s, p) && PhaseOf(s, p).Claimed? && u == s.claims[p].tid
    ensures forall u | u in s.pcs :: Consumes(s.pcs[u], p) <==>
              InWindow(s, p) && PhaseOf(s, p).Taken? && u == s.takers[p]
  {
    if InWindow(s, p) {
      assert PhaseInv(s, p);
    }
    forall u | u in s.pcs
      ensures Produces(s.pcs[u], p) ==> InWindow(s, p) && PhaseOf(s, p).Claimed? && u == s.claims[p].tid
      ensures Consumes(s.pcs[u], p) ==> InWindow(s, p) && PhaseOf(s, p).Taken? && u == s.takers[p]
    {
      assert PcInv(s, u);
    }
  }

  /** Between publication and release no step of any thread changes the item. */
  lemma NoOverwrite(s: State, t: Tid, e: Event, p: nat)
    requires Inv(s) && Next(Unbounded, s, t, e).Some?
    requires InWindow(s, p) && PhaseOf(s, p) in {Published, Taken}
    ensures var s' := Next(Unbounded, s, t, e).value;
            |s'.slots| == s.cap && s'.cap == s.cap && InWindow(s', p) &&
            (PhaseOf(s', p).Released? || (At(s', p) == At(s, p) && At(s', p).data == s.claims[p].item))
  {
    assert PhaseInv(s, p) && PcInv(s, t);
    var s' := Next(Unbounded, s, t, e).value;
    if s.tail != s'.tail {
      TailStamp(s);
    }
    if s.slots != s'.slots {
      var q := s.pcs[t].pos;
      if q != p {
        OwnSlot(s, q, p);
      }
    }
  }

  // ---- refinement of a bounded FIFO queue -------------------------------

  datatype Fifo = Fifo(items: seq<Item>, popped: seq<Item>)
  datatype QueueOp = Append(item: Item) | Pop

  /** The specification: a queue of at most cap items, and what left it. */
  function Apply(cap: nat, q: Fifo, op: QueueOp): Option<Fifo> {
    match op
    case Append(item) =>
      if |q.items| < cap then Some(q.(items := q.items + [item])) else None
    case Pop =>
      if |q.items| > 0 then Some(Fifo(q.items[1..], q.popped + [q.items[0]])) else None
  }

  function ApplyAll(cap: nat, ops: seq<QueueOp>): Option<Fifo> {
    if ops == [] then Some(Fifo([], []))
    else
      match ApplyAll(cap, ops[..|ops| - 1])
      case None => None
      case Some(q) => Apply(cap, q, ops[|ops| - 1])
  }

  /** The linearization points: the successful CAS on tail and on head. */
  function LinPoint(s: State, t: Tid, e: Event): seq<QueueOp> {
    if t !in s.pcs || !e.Tick? then []
    else
      match s.pcs[t]
      case EnqCas(item, pos) => if s.tail == pos then [Append(item)] else []
      case DeqCas(pos) => if s.head == pos then [Pop] else []
      case _ => []
  }

  function Linearization(s: State, sched: Schedule): seq<QueueOp>
    requires Run(Unbounded, s, sched).Some?
    decreases |sched|
  {
    if sched == [] then []
    else
      var n := |sched| - 1;
      Linearization(s, sched[..n])
        + LinPoint(Run(Unbounded, s, sched[..n]).value, sched[n].0, sched[n].1)
  }

  function Items(claims: seq<Claim>): (items: seq<Item>)
    ensures |items| == |claims| && forall k | 0 <= k < |claims| :: items[k] == claims[k].item
  {
    seq(|claims|, k requires 0 <= k < |claims| => claims[k].item)
  }

  /** The queue a state stands for: what is claimed by producers and not yet by
      consumers, and before it what consumers have claimed. */
  function Abstract(s: State): Fifo
    requires s.head <= s.tail == |s.claims|
  {
    Fifo(Items(s.claims)[s.head..], Items(s.claims)[..s.head])
  }

  lemma FifoStep(s: State, t: Tid, e: Event)
    requires Inv(s) && Next(Unbounded, s, t, e).Some?
    ensures var s' := Next(Unbounded, s, t, e).value;
            var lin := LinPoint(s, t, e);
            Inv(s') && s'.cap == s.cap &&
            if lin == [] then Abstract(s') == Abstract(s)
            else lin == [lin[0]] && Apply(s.cap, Abstract(s), lin[0]) == Some(Abstract(s'))
  {
    NextInv(s, t, e);
    assert PcInv(s, t);
    var s' := Next(Unbounded, s, t, e).value;
    if LinPoint(s, t, e) != [] {
      if s.pcs[t].EnqCas? {
        TailStamp(s);
        ClaimAppends(s, s', Claim(t, s.pcs[t].item));
      } else {
        HeadCasPublished(s, s.pcs[t].pos);
        TakePops(s, s');
      }
    }
  }

  lemma ClaimAppends(s: State, s': State, c: Claim)
    requires s.head <= s.tail == |s.claims| && s'.head == s.head && s'.tail == s.tail + 1 && s'.claims == s.claims + [c]
    ensures Abstract(s') == Fifo(Abstract(s).items + [c.item], Abstract(s).popped)
  {
    assert Items(s'.claims) == Items(s.claims) + [c.item];
  }

  lemma TakePops(s: State, s': State)
    requires s.head < s.tail == |s.claims| && s'.head == s.head + 1 && s'.tail == s.tail && s'.claims == s.claims
    ensures var q := Abstract(s); Abstract(s') == Fifo(q.items[1..], q.popped + [q.items[0]])
  {
  }

  /** Refinement over whole runs: replaying the linearization points of any
      interleaving on the bounded queue succeeds and ends in the state's queue. */
  lemma {:induction false} RefinesFifo(cap: nat, tids: set<Tid>, sched: Schedule)
    requires cap >= 2 && Run(Unbounded, Init(cap, tids), sched).Some?
    ensures var s := Run(Unbounded, Init(cap, tids), sched).value;
            Inv(s) && s.cap == cap &&
            ApplyAll(cap, Linearization(Init(cap, tids), sched)) == Some(Abstract(s))
    decreases |sched|
  {
    if sched == [] {
      InitInv(cap, tids);
    } else {
      var n := |sched| - 1;
      RefinesFifo(cap, tids, sched[..n]);
      var s := Run(Unbounded, Init(cap, tids), sched[..n]).value;
      FifoStep(s, sched[n].0, sched[n].1);
      var ops, lin := Linearization(Init(cap, tids), sched[..n]), LinPoint(s, sched[n].0, sched[n].1);
      if lin == [] {
        assert ops + lin == ops;
      } else {
        assert (ops + lin)[..|ops + lin| - 1] == ops;
      }
    }
  }

  /** A thread about to release a position took it and holds the item claimed for it. */
  lemma TakerReturns(s: State, t: Tid)
    requires Inv(s) && t in s.pcs && s.pcs[t].DeqRelease?
    ensures var k, s' := s.pcs[t].pos, Next(Unbounded, s, t, Tick);
            k < s.head && s.takers[k] == t && s.claims[k].item == s.pcs[t].item &&
            |Abstract(s).popped| == s.head && Abstract(s).popped[k] == s.claims[k].item &&
            s'.Some? && t in s'.value.pcs && s'.value.pcs[t] == Ready(Dequeued(s.claims[k].item))
  {
    assert PcInv(s, t);
  }

  /** The value handed back, in every interleaving: the thread that made the k-th
      claim on head returns the item of the k-th claim on tail, which is the k-th item
      to leave the queue that the linearization points describe. */
  lemma ReturnsTheClaimedItem(cap: nat, tids: set<Tid>, sched: Schedule, t: Tid)
    requires cap >= 2 && Run(Unbounded, Init(cap, tids), sched).Some?
    requires var s := Run(Unbounded, Init(cap, tids), sched).value; t in s.pcs && s.pcs[t].DeqRelease?
    ensures var s := Run(Unbounded, Init(cap, tids), sched).value;
            var k, q := s.pcs[t].pos, ApplyAll(cap, Linearization(Init(cap, tids), sched));
            Inv(s) && k < s.head && s.takers[k] == t && q.Some? && |q.value.popped| == s.head &&
            q.value.popped[k] == s.claims[k].item == s.pcs[t].item &&
            var s' := Next(Unbounded, s, t, Tick);
            s'.Some? && t in s'.value.pcs && s'.value.pcs[t] == Ready(Dequeued(s.claims[k].item))
  {
    RefinesFifo(cap, tids, sched);
    TakerReturns(Run(Unbounded, Init(cap, tids), sched).value, t);
  }

  // ---- why an operation answers false -----------------------------------

  /** Enqueue answers "full" exactly when, at the moment it read the stamp, its
      position was still the next to claim and the one a lap earlier unreleased. */
  lemma FullIffUnreleased(s: State, t: Tid)
    requires Inv(s) && t in s.pcs && s.pcs[t].EnqLoadStamp?
    ensures var pos := s.pcs[t].pos;
            Next(Unbounded, s, t, Tick).value.pcs[t] == Ready(Full) <==>
            pos == s.tail && pos >= s.cap && !PhaseOf(s, pos - s.cap).Released?
  {
    assert PcInv(s, t);
    var pos := s.pcs[t].pos;
    if pos == s.tail {
      TailStamp(s);
    } else {
      StampReached(s, pos);
    }
  }

  /** A claimed position's slot carries at least that position's stamp. */
  lemma StampReached(s: State, pos: nat)
    requires Inv(s) && pos < s.tail
    ensures pos <= At(s, pos).stamp
    ensures pos < s.head ==> pos + 1 <= At(s, pos).stamp
    decreases s.tail - pos
  {
    if InWindow(s, pos) {
      assert PhaseInv(s, pos);
    } else {
      ModShift(pos, s.cap);
      StampReached(s, pos + s.cap);
    }
  }

  /** Dequeue answers "empty" exactly when, at the moment it read the stamp, its
      position was still the next to take and not yet published. */
  lemma EmptyIffUnpublished(s: State, t: Tid)
    requires Inv(s) && t in s.pcs && s.pcs[t].DeqLoadStamp?
    ensures var pos := s.pcs[t].pos;
            Next(Unbounded, s, t, Tick).value.pcs[t] == Ready(Empty) <==>
            pos == s.head && (pos == s.tail || PhaseOf(s, pos).Claimed?)
  {
    assert PcInv(s, t);
    var pos := s.pcs[t].pos;
    if pos < s.head {
      StampReached(s, pos);
    } else if pos == s.tail {
      TailStamp(s);
    } else {
      assert PhaseInv(s, pos);
    }
  }

  // ---- conservation -----------------------------------------------------

  /** The items of the first n positions of xs that are chosen, with multiplicity. */
  function Pick(xs: seq<Item>, n: nat, chosen: set<nat>): multiset<Item>
    requires n <= |xs|
  {
    if n == 0 then multiset{}
    else if n - 1 in chosen then Pick(xs, n - 1, chosen) + multiset{xs[n - 1]}
    else Pick(xs, n - 1, chosen)
  }

  /** Only the first n items and the choice among them matter. */
  lemma {:induction false} PickSame(xs: seq<Item>, ys: seq<Item>, n: nat, a: set<nat>, b: set<nat>)
    requires n <= |xs| && n <= |ys|
    requires forall p: nat | p < n :: xs[p] == ys[p] && (p in a <==> p in b)
    ensures Pick(xs, n, a) == Pick(ys, n, b)
  {
    if n > 0 {
      PickSame(xs, ys, n - 1, a, b);
    }
  }

  lemma {:induction false} PickOne(xs: seq<Item>, n: nat, chosen: set<nat>, more: set<nat>, p: nat)
    requires p < n <= |xs| && p !in chosen && more == chosen + {p}
    ensures Pick(xs, n, more) == Pick(xs, n, chosen) + multiset{xs[p]}
  {
    if p < n - 1 {
      PickOne(xs, n - 1, chosen, more, p);
    } else {
      PickSame(xs, xs, n - 1, chosen, more);
    }
  }

  /** Disjoint choices that cover all positions give back the whole sequence. */
  lemma {:induction false} PickSplit(xs: seq<Item>, n: nat, a: set<nat>, b: set<nat>, c: set<nat>)
    requires a !! b !! c && n <= |xs| && forall p: nat | p < n :: p in a || p in b || p in c
    ensures Pick(xs, n, a) + Pick(xs, n, b) + Pick(xs, n, c) == multiset(xs[..n])
  {
    if n > 0 {
      PickSplit(xs, n - 1, a, b, c);
      assert xs[..n] == xs[..n - 1] + [xs[n - 1]];
    }
  }

  lemma {:induction false} PickRange(xs: seq<Item>, n: nat, lo: nat, chosen: set<nat>)
    requires lo <= n <= |xs| && forall p: nat | p < n :: p in chosen <==> lo <= p
    ensures Pick(xs, n, chosen) == multiset(xs[lo..n])
    decreases n
  {
    if lo < n {
      PickRange(xs, n - 1, lo, chosen);
      SliceEnd(xs, lo, n);
    } else {
      PickNone(xs, n, chosen);
      assert xs[lo..n] == [];
    }
  }

  lemma SliceEnd(xs: seq<Item>, lo: nat, n: nat)
    requires lo < n <= |xs|
    ensures multiset(xs[lo..n]) == multiset(xs[lo..n - 1]) + multiset{xs[n - 1]}
  {
    assert xs[lo..n] == xs[lo..n - 1] + [xs[n - 1]];
  }

  lemma {:induction false} PickNone(xs: seq<Item>, n: nat, chosen: set<nat>)
    requires n <= |xs| && forall p: nat | p < n :: p !in chosen
    ensures Pick(xs, n, chosen) == multiset{}
  {
    if n > 0 {
      PickNone(xs, n - 1, chosen);
    }
  }

  /** Taken positions whose slot has been released, and those still being read. */
  function ReleasedSet(s: State): set<nat>
    requires s.cap > 0 && |s.slots| == s.cap
  {
    set p: nat | p < s.head && IsReleased(s, p)
  }

  function InFlight(s: State): set<nat>
    requires s.cap > 0 && |s.slots| == s.cap
  {
    set p: nat | p < s.head && InWindow(s, p) && PhaseOf(s, p).Taken?
  }

  ghost predicate Ledger(s: State)
    requires Shape(s)
  {
    multiset(s.returned) == Pick(Items(s.claims), s.tail, ReleasedSet(s))
  }

  predicate IsReleased(s: State, p: nat)
    requires s.cap > 0 && |s.slots| == s.cap
  {
    p < s.head && (!InWindow(s, p) || PhaseOf(s, p).Released?)
  }

  /** A claim on tail takes over a slot that was released a lap before. */
  lemma ReleasedClaim(s: State, t: Tid, e: Event, p: nat)
    requires Inv(s) && Next(Unbounded, s, t, e).Some? && p < s.tail
    requires s.tail != Next(Unbounded, s, t, e).value.tail && Shape(Next(Unbounded, s, t, e).value)
    ensures IsReleased(Next(Unbounded, s, t, e).value, p) <==> IsReleased(s, p)
  {
    assert PcInv(s, t);
    TailStamp(s);
  }

  /** A write to a slot changes the phase of its own position only. */
  lemma ReleasedWrite(s: State, t: Tid, e: Event, p: nat)
    requires Inv(s) && Next(Unbounded, s, t, e).Some? && p < s.tail
    requires s.slots != Next(Unbounded, s, t, e).value.slots && Shape(Next(Unbounded, s, t, e).value)
    ensures IsReleased(Next(Unbounded, s, t, e).value, p) <==>
      IsReleased(s, p) || (s.pcs[t].DeqRelease? && p == s.pcs[t].pos)
  {
    assert PcInv(s, t);
    Ownership(s, p);
    if InWindow(s, p) && p != s.pcs[t].pos {
      OwnSlot(s, s.pcs[t].pos, p);
    }
  }

  lemma ReleasedStep(s: State, t: Tid, e: Event, p: nat)
    requires Inv(s) && Next(Unbounded, s, t, e).Some? && p < s.tail
    requires Shape(Next(Unbounded, s, t, e).value)
    ensures IsReleased(Next(Unbounded, s, t, e).value, p) <==>
      IsReleased(s, p) || (e.Tick? && s.pcs[t].DeqRelease? && p == s.pcs[t].pos)
  {
    var s' := Next(Unbounded, s, t, e).value;
    if s.tail != s'.tail {
      ReleasedClaim(s, t, e, p);
    } else if s.slots != s'.slots {
      ReleasedWrite(s, t, e, p);
    } else {
      assert PcInv(s, t) && (InWindow(s, p) ==> PhaseInv(s, p));
    }
  }

  /** A step releases one position exactly when it hands an item back. */
  lemma ReleasedSetStep(s: State, t: Tid, e: Event)
    requires Inv(s) && Next(Unbounded, s, t, e).Some?
    ensures Inv(Next(Unbounded, s, t, e).value)
    ensures ReleasedSet(Next(Unbounded, s, t, e).value) == ReleasedSet(s) +
              if e.Tick? && s.pcs[t].DeqRelease? then {s.pcs[t].pos} else {}
    ensures e.Tick? && s.pcs[t].DeqRelease? ==> s.pcs[t].pos !in ReleasedSet(s)
  {
    NextInv(s, t, e);
    assert PcInv(s, t);
    var s' := Next(Unbounded, s, t, e).value;
    assert s'.head <= s.tail && s.head <= s.tail by {
      if s.head != s'.head {
        HeadCasPublished(s, s.pcs[t].pos);
      }
    }
    forall p: nat | p < s.tail
      ensures p in ReleasedSet(s') <==>
                p in ReleasedSet(s) || (e.Tick? && s.pcs[t].DeqRelease? && p == s.pcs[t].pos)
    {
      ReleasedStep(s, t, e, p);
    }
    assert forall p | p in ReleasedSet(s') :: p < s.tail;
    assert forall p | p in ReleasedSet(s) :: p < s.tail;
  }

  /** What a step adds to the history. */
  lemma HistoryStep(s: State, t: Tid, e: Event)
    requires Inv(s) && Next(Unbounded, s, t, e).Some?
    ensures var s' := Next(Unbounded, s, t, e).value;
            var release := e.Tick? && s.pcs[t].DeqRelease?;
            && s'.returned == s.returned + (if release then [s.pcs[t].item] else [])
            && (release ==> InWindow(s, s.pcs[t].pos) && s.claims[s.pcs[t].pos].item == s.pcs[t].item)
            && s.tail <= s'.tail && s.claims <= s'.claims && (release ==> s'.tail == s.tail)
            && s'.tail <= s.tail + 1
  {
    assert PcInv(s, t);
  }

  lemma LedgerMove(s: State, s': State, release: bool, p: nat)
    requires Shape(s) && Shape(s') && Ledger(s) && s.claims <= s'.claims
    requires s.tail <= s'.tail <= s.tail + 1 && (release ==> s'.tail == s.tail && p < s.tail)
    requires s'.returned == s.returned + if release then [s.claims[p].item] else []
    requires ReleasedSet(s') == ReleasedSet(s) + (if release then {p} else {}) && (release ==> p !in ReleasedSet(s))
    requires s.tail !in ReleasedSet(s)
    ensures Ledger(s')
  {
    var xs, ys, before, after := Items(s.claims), Items(s'.claims), ReleasedSet(s), ReleasedSet(s');
    if release {
      PickOne(xs, s.tail, before, after, p);
      PickSame(xs, ys, s.tail, after, after);
    } else {
      PickSame(xs, ys, s.tail, before, after);
    }
  }

  lemma LedgerStep(s: State, t: Tid, e: Event)
    requires Inv(s) && Ledger(s) && Next(Unbounded, s, t, e).Some?
    ensures Inv(Next(Unbounded, s, t, e).value) && Ledger(Next(Unbounded, s, t, e).value)
  {
    ReleasedSetStep(s, t, e);
    HistoryStep(s, t, e);
    var release := e.Tick? && s.pcs[t].DeqRelease?;
    LedgerMove(s, Next(Unbounded, s, t, e).value, release, if release then s.pcs[t].pos else 0);
  }

  lemma {:induction false} RunLedger(cap: nat, tids: set<Tid>, sched: Schedule)
    requires cap >= 2 && Run(Unbounded, Init(cap, tids), sched).Some?
    ensures var s := Run(Unbounded, Init(cap, tids), sched).value; Inv(s) && Ledger(s)
    decreases |sched|
  {
    if sched == [] {
      InitInv(cap, tids);
    } else {
      var n := |sched| - 1;
      RunLedger(cap, tids, sched[..n]);
      LedgerStep(Run(Unbounded, Init(cap, tids), sched[..n]).value, sched[n].0, sched[n].1);
    }
  }

  lemma LedgerSplits(s: State)
    requires Inv(s) && Ledger(s)
    ensures multiset(Items(s.claims)) ==
              multiset(s.returned) + Pick(Items(s.claims), s.tail, InFlight(s)) + multiset(Abstract(s).items)
  {
    var items, queued := Items(s.claims), Between(s.head, s.tail);
    forall p: nat | p < s.tail
      ensures p in ReleasedSet(s) + InFlight(s) + queued
    {
      Ownership(s, p);
    }
    PickSplit(items, s.tail, ReleasedSet(s), InFlight(s), queued);
    PickRange(items, s.tail, s.head, queued);
    assert items[..s.tail] == items && items[s.head..s.tail] == items[s.head..];
  }

  /** Conservation at every reachable state: what producers claimed is what was
      returned, what consumers are still reading, and what is queued. */
  lemma Conservation(cap: nat, tids: set<Tid>, sched: Schedule)
    requires cap >= 2 && Run(Unbounded, Init(cap, tids), sched).Some?
    ensures var s := Run(Unbounded, Init(cap, tids), sched).value;
            var items := Items(s.claims);
            Inv(s) && multiset(items) ==
              multiset(s.returned) + Pick(items, s.tail, InFlight(s)) + multiset(Abstract(s).items)
  {
    RunLedger(cap, tids, sched);
    LedgerSplits(Run(Unbounded, Init(cap, tids), sched).value);
  }

  /** Exactly once: when as many items were returned as were enqueued, they are the
      same items; and distinct items are never returned twice, at any time. */
  lemma ExactlyOnce(cap: nat, tids: set<Tid>, sched: Schedule)
    requires cap >= 2 && Run(Unbounded, Init(cap, tids), sched).Some?
    ensures var s := Run(Unbounded, Init(cap, tids), sched).value;
            && (|s.returned| == |s.claims| ==> multiset(s.returned) == multiset(Items(s.claims)))
            && forall x :: multiset(s.returned)[x] <= multiset(Items(s.claims))[x]
  {
    Conservation(cap, tids, sched);
    var s := Run(Unbounded, Init(cap, tids), sched).value;
    var rest := Pick(Items(s.claims), s.tail, InFlight(s)) + multiset(Abstract(s).items);
    assert multiset(Items(s.claims)) == multiset(s.returned) + rest;
    if |s.returned| == |s.claims| {
      assert |rest| == 0;
    }
  }

  // ---- the capacity the ring needs --------------------------------------

  /** With one slot "published" and "free for the next lap" are the same stamp: the
      second enqueue answers true and overwrites the first item. */
  lemma CapacityOneOverflows()
    ensures var r := Run(Unbounded, Init(1, {0}), EnqueueSchedule(0, 7) + EnqueueSchedule(0, 8));
            r.Some? && 0 in r.value.pcs && r.value.pcs[0] == Ready(Enqueued)
            && r.value.tail - r.value.head == 2 && r.value.slots == [Slot(2, 8)] && r.value.cap == 1
  {
    var s := Init(1, {0});
    OneEnqueue(Unbounded, s, 0, 7, 0);
    var s1 := AfterEnqueue(Unbounded, s, 0, 7, 0);
    OneEnqueue(Unbounded, s1, 0, 8, 0);
    RunTwo(Unbounded, s, EnqueueSchedule(0, 7), EnqueueSchedule(0, 8));
  }

  /** The position whose slot a thread accesses next, if it does. */
  function Accesses(pc: Pc): Option<nat> {
    if pc.EnqLoadStamp? || pc.EnqWrite? || pc.EnqPublish? || pc.DeqLoadStamp? || pc.DeqRead? || pc.DeqRelease? then
      Some(pc.pos)
    else None
  }

  /** The content fits and no thread is about to access a slot that does not exist. */
  predicate WithinBounds(s: State) {
    s.tail - s.head <= s.cap
    && forall t | t in s.pcs && Accesses(s.pcs[t]).Some? ::
         Index(Unbounded, Accesses(s.pcs[t]).value, s.cap) < |s.slots|
  }

  /** With no slot the first access of the first operation is out of bounds. */
  lemma CapacityZeroHasNoSlot()
    ensures var r := Run(Unbounded, Init(0, {0}), One(0, CallEnqueue(7)) + [(0, Tick)]);
            r.Some? && !WithinBounds(r.value)
  {
    var s := Init(0, {0});
    var s1 := Goto(s, 0, EnqLoadTail(7));
    RunOne(Unbounded, s, 0, CallEnqueue(7));
    RunMore(Unbounded, s, One(0, CallEnqueue(7)), s1, 0, Tick);
    assert Accesses(Goto(s1, 0, EnqLoadStamp(7, 0)).pcs[0]) == Some(0);
  }

  /** The constructor lets zero and every power of two through; the ring stays within
      its bounds over all runs exactly for capacities of at least two. */
  lemma BoundedIffTwoSlots(cap: nat)
    ensures cap >= 2 <==> forall tids, sched | Run(Unbounded, Init(cap, tids), sched).Some? ::
              WithinBounds(Run(Unbounded, Init(cap, tids), sched).value)
  {
    if cap >= 2 {
      forall tids, sched | Run(Unbounded, Init(cap, tids), sched).Some?
        ensures WithinBounds(Run(Unbounded, Init(cap, tids), sched).value)
      {
        RunInv(cap, tids, sched);
        RunCap(cap, tids, sched);
      }
    } else if cap == 1 {
      CapacityOneOverflows();
    } else {
      CapacityZeroHasNoSlot();
    }
  }

  lemma {:induction false} RunCap(cap: nat, tids: set<Tid>, sched: Schedule)
    requires Run(Unbounded, Init(cap, tids), sched).Some?
    ensures Run(Unbounded, Init(cap, tids), sched).value.cap == cap
    decreases |sched|
  {
    if sched != [] {
      RunCap(cap, tids, sched[..|sched| - 1]);
    }
  }
}
