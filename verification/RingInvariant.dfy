/** What every interleaving of producers and consumers keeps. */
module RingInvariant {
  import opened Bits
  import opened RingModel

  function At(s: State, p: int): Slot
    requires s.cap > 0 && |s.slots| == s.cap
  {
    s.slots[p % s.cap]
  }

  /** p is one of the last cap claimed positions, the ones whose slot still
      tells their phase. Negative positions stand for slots never used. */
  predicate InWindow(s: State, p: int) {
    s.tail - s.cap <= p < s.tail
  }

  predicate Producing(pcs: map<Tid, Pc>, c: Claim, p: nat) {
    c.tid in pcs && pcs[c.tid] in {EnqWrite(c.item, p), EnqPublish(c.item, p)}
  }

  predicate Consuming(pcs: map<Tid, Pc>, t: Tid, p: nat, item: Item) {
    t in pcs && pcs[t] in {DeqRead(p), DeqRelease(p, item)}
  }

  datatype Phase = Claimed | Published | Taken | Released

  /** The phase of a claimed position, read off its slot and head. */
  function PhaseOf(s: State, p: int): Phase
    requires s.cap > 0 && |s.slots| == s.cap
  {
    if At(s, p).stamp == p then Claimed
    else if At(s, p).stamp == p + 1 && p >= 0 then
      if p >= s.head then Published else Taken
    else Released
  }

  ghost predicate PhaseInv(s: State, p: int)
    requires s.cap > 0 && |s.slots| == s.cap
    requires |s.claims| == s.tail && |s.takers| == s.head
    requires InWindow(s, p)
  {
    if p < 0 then At(s, p).stamp == p + s.cap
    else
      match PhaseOf(s, p)
      case Claimed => p >= s.head && Producing(s.pcs, s.claims[p], p)
      case Published => At(s, p).data == s.claims[p].item
      case Taken => At(s, p).data == s.claims[p].item
                    && Consuming(s.pcs, s.takers[p], p, s.claims[p].item)
      case Released => At(s, p).stamp == p + s.cap && p < s.head
  }

  ghost predicate PcInv(s: State, t: Tid)
    requires s.cap > 0 && |s.slots| == s.cap
    requires |s.claims| == s.tail && |s.takers| == s.head
    requires t in s.pcs
  {
    match s.pcs[t]
    case EnqLoadStamp(_, pos) => pos <= s.tail
    case EnqCas(_, pos) => pos <= s.tail && pos <= At(s, pos).stamp
    case EnqWrite(item, pos) =>
      InWindow(s, pos) && PhaseOf(s, pos).Claimed? && s.claims[pos] == Claim(t, item)
    case EnqPublish(item, pos) =>
      InWindow(s, pos) && PhaseOf(s, pos).Claimed? && s.claims[pos] == Claim(t, item)
      && At(s, pos).data == item
    case DeqLoadStamp(pos) => pos <= s.head
    case DeqCas(pos) => pos <= s.head && pos + 1 <= At(s, pos).stamp
    case DeqRead(pos) => InWindow(s, pos) && PhaseOf(s, pos).Taken? && s.takers[pos] == t
    case DeqRelease(pos, item) =>
      InWindow(s, pos) && PhaseOf(s, pos).Taken? && s.takers[pos] == t
      && item == s.claims[pos].item
    case _ => true
  }

  /** Structure: sizes, and the ring never holds more than its capacity. */
  ghost predicate Shape(s: State) {
    && s.cap >= 2 && |s.slots| == s.cap
    && |s.claims| == s.tail && |s.takers| == s.head
    && s.head <= s.tail <= s.head + s.cap
  }

  ghost predicate Inv(s: State) {
    && Shape(s)
    && (forall p | InWindow(s, p) :: PhaseInv(s, p))
    && (forall t | t in s.pcs :: PcInv(s, t))
  }

  lemma InitInv(cap: nat, tids: set<Tid>)
    requires cap >= 2
    ensures Inv(Init(cap, tids))
  {
    var s := Init(cap, tids);
    forall p | InWindow(s, p) ensures PhaseInv(s, p) {
      ModIs(p, cap, -1, p + cap);
    }
  }

  // ---- one lemma per kind of step ---------------------------------------

  /** Positions of one window have slots of their own. */
  lemma OwnSlot(s: State, p: int, q: int)
    requires s.cap > 0 && -1 * s.cap < p - q < s.cap && p != q
    ensures p % s.cap != q % s.cap
  {
    if p % s.cap == q % s.cap {
      ModApart(p, q, s.cap);
    }
  }

  /** Steps that touch no slot and no counter. */
  lemma LocalStep(s: State, t: Tid, pc: Pc)
    requires Inv(s) && t in s.pcs
    requires s.pcs[t].Ready? || s.pcs[t].EnqLoadTail? || s.pcs[t].EnqLoadStamp? || s.pcs[t].EnqCas?
          || s.pcs[t].DeqLoadHead? || s.pcs[t].DeqLoadStamp? || s.pcs[t].DeqCas?
    requires PcInv(Goto(s, t, pc), t)
    ensures Inv(Goto(s, t, pc))
  {
    var s' := Goto(s, t, pc);
    forall p | InWindow(s', p) ensures PhaseInv(s', p) {
      assert PhaseInv(s, p);
    }
    forall u | u in s'.pcs ensures PcInv(s', u) {
      if u != t {
        assert PcInv(s, u);
      }
    }
  }

  /** The slot of the next position to claim: its stamp never exceeds tail, and
      equals it only once the previous lap has been released. */
  lemma TailStamp(s: State)
    requires Inv(s)
    ensures At(s, s.tail).stamp <= s.tail
    ensures At(s, s.tail) == At(s, s.tail - s.cap)
    ensures At(s, s.tail).stamp == s.tail <==> s.tail < s.cap || PhaseOf(s, s.tail - s.cap).Released?
    ensures At(s, s.tail).stamp == s.tail ==> s.tail < s.head + s.cap
  {
    ModShift(s.tail, s.cap);
    assert InWindow(s, s.tail - s.cap) && PhaseInv(s, s.tail - s.cap);
  }

  lemma EnqCasStep(s: State, t: Tid)
    requires Inv(s) && t in s.pcs && s.pcs[t].EnqCas? && s.tail == s.pcs[t].pos
    ensures Inv(Access(Unbounded, s, t).value)
  {
    var s', pos := Access(Unbounded, s, t).value, s.pcs[t].pos;
    assert PcInv(s, t);
    TailStamp(s);
    EnqCasPhases(s, t);
    forall u | u in s'.pcs ensures PcInv(s', u) {
      if u != t {
        assert PcInv(s, u);
      }
    }
  }

  lemma EnqCasPhases(s: State, t: Tid)
    requires Inv(s) && t in s.pcs && s.pcs[t].EnqCas? && s.tail == s.pcs[t].pos
    requires Shape(Access(Unbounded, s, t).value)
    ensures var s' := Access(Unbounded, s, t).value; forall p | InWindow(s', p) :: PhaseInv(s', p)
  {
    var s' := Access(Unbounded, s, t).value;
    assert PcInv(s, t);
    TailStamp(s);
    forall p | InWindow(s', p) ensures PhaseInv(s', p) {
      if p < s.tail {
        assert PhaseInv(s, p);
      }
    }
  }

  /** The CAS on head: the position is published. */
  lemma HeadCasPublished(s: State, pos: nat)
    requires Inv(s) && s.head == pos && pos + 1 <= At(s, pos).stamp
    ensures pos < s.tail && InWindow(s, pos) && PhaseOf(s, pos).Published?
  {
    TailStamp(s);
    assert PhaseInv(s, pos);
  }

  lemma DeqCasStep(s: State, t: Tid)
    requires Inv(s) && t in s.pcs && s.pcs[t].DeqCas? && s.head == s.pcs[t].pos
    ensures Inv(Access(Unbounded, s, t).value)
  {
    var s', pos := Access(Unbounded, s, t).value, s.pcs[t].pos;
    assert PcInv(s, t);
    HeadCasPublished(s, pos);
    forall p | InWindow(s', p) ensures PhaseInv(s', p) {
      assert PhaseInv(s, p);
    }
    forall u | u in s'.pcs ensures PcInv(s', u) {
      if u != t {
        assert PcInv(s, u);
      }
    }
  }

  /** What the owner of a claimed position may do to the state: replace that
      position's slot, move on, and hand an item back. */
  function Owned(s: State, t: Tid, pos: nat, slot: Slot, pc: Pc, handed: seq<Item>): State
    requires s.cap > 0 && |s.slots| == s.cap
  {
    s.(slots := s.slots[pos % s.cap := slot], pcs := s.pcs[t := pc], returned := s.returned + handed)
  }

  lemma OwnerStep(s: State, t: Tid, pos: nat, slot: Slot, pc: Pc, handed: seq<Item>)
    requires Inv(s) && t in s.pcs && InWindow(s, pos)
    requires s.pcs[t] in {EnqWrite(s.claims[pos].item, pos), EnqPublish(s.claims[pos].item, pos),
                          DeqRead(pos), DeqRelease(pos, s.claims[pos].item)}
    requires slot.stamp >= At(s, pos).stamp
    requires var s' := Owned(s, t, pos, slot, pc, handed); PhaseInv(s', pos) && PcInv(s', t)
    ensures Inv(Owned(s, t, pos, slot, pc, handed))
  {
    var s' := Owned(s, t, pos, slot, pc, handed);
    assert PcInv(s, t) && PhaseInv(s, pos);
    forall p | InWindow(s', p) ensures PhaseInv(s', p) {
      if p != pos {
        OtherPosition(s, t, pos, slot, pc, handed, p);
      }
    }
    forall u | u in s'.pcs ensures PcInv(s', u) {
      if u != t {
        assert PcInv(s, u);
        OtherThread(s, t, pos, slot, pc, handed, u);
      }
    }
  }

  lemma OtherPosition(s: State, t: Tid, pos: nat, slot: Slot, pc: Pc, handed: seq<Item>, p: int)
    requires Inv(s) && t in s.pcs && InWindow(s, pos) && InWindow(s, p) && p != pos
    requires s.pcs[t] in {EnqWrite(s.claims[pos].item, pos), EnqPublish(s.claims[pos].item, pos),
                          DeqRead(pos), DeqRelease(pos, s.claims[pos].item)}
    ensures PhaseInv(Owned(s, t, pos, slot, pc, handed), p)
  {
    OwnSlot(s, p, pos);
    assert PhaseInv(s, p);
    assert At(Owned(s, t, pos, slot, pc, handed), p) == At(s, p);
  }

  lemma SlotKept(s: State, t: Tid, pos: nat, slot: Slot, pc: Pc, handed: seq<Item>, p: nat)
    requires Shape(s) && InWindow(s, pos) && InWindow(s, p) && p != pos
    ensures var s' := Owned(s, t, pos, slot, pc, handed); At(s', p) == At(s, p) && PhaseOf(s', p) == PhaseOf(s, p)
  {
    OwnSlot(s, p, pos);
  }

  lemma OtherThread(s: State, t: Tid, pos: nat, slot: Slot, pc: Pc, handed: seq<Item>, u: Tid)
    requires Shape(s) && InWindow(s, pos) && u in s.pcs && u != t && PcInv(s, u)
    requires slot.stamp >= At(s, pos).stamp
    requires PhaseOf(s, pos).Claimed? || (PhaseOf(s, pos).Taken? && pos < s.head)
    requires PhaseOf(s, pos).Claimed? ==> s.claims[pos].tid == t
    requires PhaseOf(s, pos).Taken? ==> s.takers[pos] == t
    ensures PcInv(Owned(s, t, pos, slot, pc, handed), u)
  {
    if s.pcs[u].EnqWrite? || s.pcs[u].EnqPublish? || s.pcs[u].DeqRead? || s.pcs[u].DeqRelease? {
      assert s.pcs[u].pos != pos;
      SlotKept(s, t, pos, slot, pc, handed, s.pcs[u].pos);
    }
  }

  lemma WriteTick(s: State, t: Tid)
    requires Inv(s) && t in s.pcs && s.pcs[t].EnqWrite?
    ensures Inv(Access(Unbounded, s, t).value)
  {
    assert PcInv(s, t);
    var pos, item := s.pcs[t].pos, s.pcs[t].item;
    var slot := At(s, pos).(data := item);
    assert s.returned + [] == s.returned;
    assert Access(Unbounded, s, t).value == Owned(s, t, pos, slot, EnqPublish(item, pos), []);
    assert PhaseInv(s, pos);
    OwnerStep(s, t, pos, slot, EnqPublish(item, pos), []);
  }

  lemma PublishTick(s: State, t: Tid)
    requires Inv(s) && t in s.pcs && s.pcs[t].EnqPublish?
    ensures Inv(Access(Unbounded, s, t).value)
  {
    assert PcInv(s, t);
    var pos := s.pcs[t].pos;
    var slot := At(s, pos).(stamp := pos + 1);
    assert s.returned + [] == s.returned;
    assert Access(Unbounded, s, t).value == Owned(s, t, pos, slot, Ready(Enqueued), []);
    assert PhaseInv(s, pos);
    OwnerStep(s, t, pos, slot, Ready(Enqueued), []);
  }

  lemma ReadTick(s: State, t: Tid)
    requires Inv(s) && t in s.pcs && s.pcs[t].DeqRead?
    ensures Inv(Access(Unbounded, s, t).value)
  {
    assert PcInv(s, t);
    var pos := s.pcs[t].pos;
    var slot := At(s, pos);
    assert s.returned + [] == s.returned && s.slots[pos % s.cap := slot] == s.slots;
    assert Access(Unbounded, s, t).value == Owned(s, t, pos, slot, DeqRelease(pos, slot.data), []);
    assert PhaseInv(s, pos);
    OwnerStep(s, t, pos, slot, DeqRelease(pos, slot.data), []);
  }

  lemma ReleaseTick(s: State, t: Tid)
    requires Inv(s) && t in s.pcs && s.pcs[t].DeqRelease?
    ensures Inv(Access(Unbounded, s, t).value)
  {
    assert PcInv(s, t);
    var pos, item := s.pcs[t].pos, s.pcs[t].item;
    var slot := At(s, pos).(stamp := pos + s.cap);
    assert Access(Unbounded, s, t).value == Owned(s, t, pos, slot, Ready(Dequeued(item)), [item]);
    assert PhaseInv(s, pos);
    OwnerStep(s, t, pos, slot, Ready(Dequeued(item)), [item]);
  }

  /** Every step of every thread keeps the invariant. */
  lemma NextInv(s: State, t: Tid, e: Event)
    requires Inv(s) && Next(Unbounded, s, t, e).Some?
    ensures Inv(Next(Unbounded, s, t, e).value)
  {
    var s' := Next(Unbounded, s, t, e).value;
    assert PcInv(s, t);
    if e.Tick? && s.pcs[t].EnqWrite? {
      WriteTick(s, t);
    } else if e.Tick? && s.pcs[t].EnqPublish? {
      PublishTick(s, t);
    } else if e.Tick? && s.pcs[t].DeqRead? {
      ReadTick(s, t);
    } else if e.Tick? && s.pcs[t].DeqRelease? {
      ReleaseTick(s, t);
    } else if e.Tick? && s.pcs[t].EnqCas? && s.tail == s.pcs[t].pos {
      EnqCasStep(s, t);
    } else if e.Tick? && s.pcs[t].DeqCas? && s.head == s.pcs[t].pos {
      DeqCasStep(s, t);
    } else {
      LocalStep(s, t, s'.pcs[t]);
    }
  }

  /** Hence every reachable state satisfies it, for any number of threads, any
      schedule and any capacity of at least two. */
  lemma {:induction false} RunInv(cap: nat, tids: set<Tid>, sched: Schedule)
    requires cap >= 2 && Run(Unbounded, Init(cap, tids), sched).Some?
    ensures Inv(Run(Unbounded, Init(cap, tids), sched).value)
    decreases |sched|
  {
    if sched == [] {
      InitInv(cap, tids);
    } else {
      var n := |sched| - 1;
      RunInv(cap, tids, sched[..n]);
      NextInv(Run(Unbounded, Init(cap, tids), sched[..n]).value, sched[n].0, sched[n].1);
    }
  }
}
