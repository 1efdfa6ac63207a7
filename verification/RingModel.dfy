/** The lock-free multi-producer/multi-consumer ring as a transition system.

    Every shared access of mpmc_ring_enqueue and mpmc_ring_dequeue is one atomic
    step; any number of threads interleave in any order. One program runs in two
    arithmetics: with unbounded counters, where the invariants are proved, and
    with the 64-bit words of the C code (see RingWords). */
module RingModel {
  import opened Wrappers
  import opened Bits

  type Item = int  // the stored pointer; its value is never inspected
  type Tid = nat

  datatype Slot = Slot(stamp: nat, data: Item)

  datatype Answer = NoAnswer | Enqueued | Full | Dequeued(item: Item) | Empty

  /** Where a thread stands: the name says the shared access it performs next. */
  datatype Pc =
    | Ready(last: Answer)
    | EnqLoadTail(item: Item)
    | EnqLoadStamp(item: Item, pos: nat)
    | EnqCas(item: Item, pos: nat)
    | EnqWrite(item: Item, pos: nat)
    | EnqPublish(item: Item, pos: nat)
    | DeqLoadHead
    | DeqLoadStamp(pos: nat)
    | DeqCas(pos: nat)
    | DeqRead(pos: nat)
    | DeqRelease(pos: nat, item: Item)

  datatype Claim = Claim(tid: Tid, item: Item)

  /** claims, takers and returned are history: no step reads them. claims[k] is
      the k-th successful CAS on tail, takers[k] the k-th on head, returned the
      dequeued items in the order their slots were released. */
  datatype State = State(
    cap: nat, slots: seq<Slot>, head: nat, tail: nat, pcs: map<Tid, Pc>,
    claims: seq<Claim>, takers: seq<Tid>, returned: seq<Item>)

  datatype Event =
    | CallEnqueue(item: Item)
    | CallDequeue
    | Tick       // the next shared access
    | CasFails   // the weak CAS fails, spuriously or not

  datatype Arith = Unbounded | Words

  function Plus(a: Arith, x: nat, y: nat): nat {
    if a.Words? then (x + y) % WORD else x + y
  }

  /** (intptr_t)x - (intptr_t)y */
  function Dif(a: Arith, x: nat, y: nat): int {
    if a.Words? then SignedDif(x, y) else x - y
  }

  /** pos & (capacity - 1). With capacity 0 the mask is all ones. */
  function Index(a: Arith, pos: nat, cap: nat): nat {
    if cap == 0 then pos
    else if a.Words? then And(pos, cap - 1) else pos % cap
  }

  function Init(cap: nat, tids: set<Tid>): State {
    State(cap, seq(cap, i requires 0 <= i < cap => Slot(i, 0)), 0, 0,
          map t | t in tids :: Ready(NoAnswer), [], [], [])
  }

  /** One step of thread t, or None when the event is not possible there. */
  function Next(a: Arith, s: State, t: Tid, e: Event): Option<State> {
    if t !in s.pcs then None
    else
      match e
      case CallEnqueue(item) =>
        if s.pcs[t].Ready? then Some(Goto(s, t, EnqLoadTail(item))) else None
      case CallDequeue =>
        if s.pcs[t].Ready? then Some(Goto(s, t, DeqLoadHead)) else None
      case CasFails =>
        (match s.pcs[t]
         case EnqCas(item, _) => Some(Goto(s, t, EnqLoadTail(item)))
         case DeqCas(_) => Some(Goto(s, t, DeqLoadHead))
         case _ => None)
      case Tick => Access(a, s, t)
  }

  function Goto(s: State, t: Tid, pc: Pc): State {
    s.(pcs := s.pcs[t := pc])
  }

  function Access(a: Arith, s: State, t: Tid): Option<State>
    requires t in s.pcs
  {
    match s.pcs[t]
    case Ready(_) => None
    case EnqLoadTail(item) => Some(Goto(s, t, EnqLoadStamp(item, s.tail)))
    case EnqLoadStamp(item, pos) =>
      var i := Index(a, pos, s.cap);
      if i >= |s.slots| then None
      else
        var dif := Dif(a, s.slots[i].stamp, pos);
        Some(Goto(s, t,
          if dif == 0 then EnqCas(item, pos)
          else if dif < 0 then Ready(Full)
          else EnqLoadTail(item)))
    case EnqCas(item, pos) =>
      if s.tail != pos then Some(Goto(s, t, EnqLoadTail(item)))
      else Some(Goto(s, t, EnqWrite(item, pos)).(
        tail := Plus(a, pos, 1), claims := s.claims + [Claim(t, item)]))
    case EnqWrite(item, pos) =>
      var i := Index(a, pos, s.cap);
      if i >= |s.slots| then None
      else Some(Goto(s, t, EnqPublish(item, pos)).(
        slots := s.slots[i := s.slots[i].(data := item)]))
    case EnqPublish(item, pos) =>
      var i := Index(a, pos, s.cap);
      if i >= |s.slots| then None
      else Some(Goto(s, t, Ready(Enqueued)).(
        slots := s.slots[i := s.slots[i].(stamp := Plus(a, pos, 1))]))
    case DeqLoadHead => Some(Goto(s, t, DeqLoadStamp(s.head)))
    case DeqLoadStamp(pos) =>
      var i := Index(a, pos, s.cap);
      if i >= |s.slots| then None
      else
        var dif := Dif(a, s.slots[i].stamp, Plus(a, pos, 1));
        Some(Goto(s, t,
          if dif == 0 then DeqCas(pos)
          else if dif < 0 then Ready(Empty)
          else DeqLoadHead))
    case DeqCas(pos) =>
      if s.head != pos then Some(Goto(s, t, DeqLoadHead))
      else Some(Goto(s, t, DeqRead(pos)).(
        head := Plus(a, pos, 1), takers := s.takers + [t]))
    case DeqRead(pos) =>
      var i := Index(a, pos, s.cap);
      if i >= |s.slots| then None
      else Some(Goto(s, t, DeqRelease(pos, s.slots[i].data)))
    case DeqRelease(pos, item) =>
      var i := Index(a, pos, s.cap);
      if i >= |s.slots| then None
      else Some(Goto(s, t, Ready(Dequeued(item))).(
        slots := s.slots[i := s.slots[i].(stamp := Plus(a, pos, s.cap))],
        returned := s.returned + [item]))
  }

  /** A schedule says which thread moves and how; a run follows it. */
  type Schedule = seq<(Tid, Event)>

  function Run(a: Arith, s: State, sched: Schedule): Option<State>
    decreases |sched|
  {
    if sched == [] then Some(s)
    else
      var n := |sched| - 1;
      match Run(a, s, sched[..n])
      case None => None
      case Some(m) => Next(a, m, sched[n].0, sched[n].1)
  }
}
