/** Runs in which a thread sleeps before its CAS while another one moves the ring by a
    whole word range. */
module RingLag {
  import opened Bits
  import opened RingModel
  import opened RingSolo
  import opened Wrappers

  /** Position p as a counter of the arithmetic. */
  function Num(a: Arith, p: nat): nat {
    if a.Words? then p % WORD else p
  }

  lemma PlusNum(a: Arith, p: nat, k: nat)
    ensures Plus(a, Num(a, p), k) == Num(a, p + k)
  {
    ModOfSum(p, k);
  }

  ghost predicate Allocatable(cap: nat) {
    2 <= cap <= HALF && IsPow2(cap)
  }

  lemma IndexNum(a: Arith, p: nat, cap: nat)
    requires Allocatable(cap)
    ensures Index(a, Num(a, p), cap) == p % cap
  {
    MaskOfWord(p, cap);
  }

  function StampAt(s: State, p: nat): nat
    requires 0 < s.cap == |s.slots|
  {
    s.slots[p % s.cap].stamp
  }

  /** Empty at position n, every slot free for the lap from n on. */
  ghost predicate Level(a: Arith, s: State, n: nat) {
    && 0 < s.cap == |s.slots|
    && s.head == s.tail == Num(a, n)
    && forall p: nat {:trigger StampAt(s, p)} | n <= p < n + s.cap :: StampAt(s, p) == Num(a, p)
  }

  lemma InitLevel(a: Arith, cap: nat, tids: set<Tid>)
    requires 2 <= cap <= HALF
    ensures Level(a, Init(cap, tids), 0)
  {
    forall p: nat | p < cap ensures StampAt(Init(cap, tids), p) == Num(a, p) {
      ModIs(p, cap, 0, p);
    }
  }

  /** An enqueue and a dequeue by the same thread. */
  function Round(t: Tid, item: Item): Schedule {
    EnqueueSchedule(t, item) + DequeueSchedule(t)
  }

  lemma GotoLevel(a: Arith, s: State, n: nat, t: Tid, pc: Pc)
    requires Level(a, s, n)
    ensures Level(a, Goto(s, t, pc), n)
  {
    var s' := Goto(s, t, pc);
    forall p: nat | n <= p < n + s.cap ensures StampAt(s', p) == Num(a, p) {
      assert StampAt(s', p) == StampAt(s, p);
    }
  }

  lemma LevelTail(a: Arith, s: State, n: nat)
    requires Allocatable(s.cap) && Level(a, s, n)
    ensures TailFree(a, s, n % s.cap)
  {
    IndexNum(a, n, s.cap);
    assert StampAt(s, n) == Num(a, n);
  }

  lemma FilledHead(a: Arith, s: State, n: nat, t: Tid, item: Item)
    requires Allocatable(s.cap) && Level(a, s, n)
    ensures HeadPublished(a, AfterEnqueue(a, s, t, item, n % s.cap), n % s.cap)
  {
    IndexNum(a, n, s.cap);
  }

  /** Emptying what was just filled leaves the ring level one position on, whatever
      the threads' places became in between. */
  lemma LevelAgain(a: Arith, s: State, f: State, n: nat, t: Tid, item: Item)
    requires Level(a, s, n) && f.cap == s.cap && f.head == s.head && f.tail == Plus(a, s.tail, 1)
    requires f.slots == s.slots[n % s.cap := Slot(Plus(a, s.tail, 1), item)]
    ensures Level(a, AfterDequeue(a, f, t, n % s.cap), n + 1)
  {
    var s', cap := AfterDequeue(a, f, t, n % s.cap), s.cap;
    PlusNum(a, n, 1);
    PlusNum(a, n, cap);
    ModShift(n, cap);
    forall p: nat | n + 1 <= p < n + 1 + cap ensures StampAt(s', p) == Num(a, p) {
      if p < n + cap {
        if p % cap == n % cap {
          ModApart(p, n, cap);
        }
        assert StampAt(s, p) == Num(a, p);
      }
    }
  }

  /** The state a round at position n ends in. */
  function AfterRound(a: Arith, s: State, n: nat, t: Tid, item: Item): (r: State)
    requires 0 < s.cap == |s.slots|
    ensures r.cap == s.cap && |r.slots| == |s.slots|
  {
    AfterDequeue(a, AfterEnqueue(a, s, t, item, n % s.cap), t, n % s.cap)
  }

  lemma RoundLevels(a: Arith, s: State, n: nat, t: Tid, item: Item)
    requires Level(a, s, n)
    ensures Level(a, AfterRound(a, s, n, t, item), n + 1)
    ensures AfterRound(a, s, n, t, item).pcs == s.pcs[t := Ready(Dequeued(item))]
  {
    var f := AfterEnqueue(a, s, t, item, n % s.cap);
    LevelAgain(a, s, f, n, t, item);
    assert f.pcs[t := Ready(Dequeued(item))] == s.pcs[t := Ready(Dequeued(item))];
  }

  lemma OneRound(a: Arith, s: State, n: nat, t: Tid, item: Item)
    requires Allocatable(s.cap) && Level(a, s, n) && t in s.pcs && s.pcs[t].Ready?
    ensures Run(a, s, Round(t, item)) == Some(AfterRound(a, s, n, t, item))
  {
    var i := n % s.cap;
    LevelTail(a, s, n);
    OneEnqueue(a, s, t, item, i);
    var f := AfterEnqueue(a, s, t, item, i);
    FilledHead(a, s, n, t, item);
    OneDequeue(a, f, t, i);
    RunJoins(a, s, EnqueueSchedule(t, item), f, DequeueSchedule(t), AfterDequeue(a, f, t, i));
  }

  /** Only thread t has moved, and it is between operations. */
  predicate OnlyMoved(s: State, s': State, t: Tid) {
    t in s'.pcs && s'.pcs[t].Ready? && s'.pcs == s.pcs[t := s'.pcs[t]]
  }

  /** The states between n rounds, from position m to k. */
  lemma {:induction false} RoundStates(a: Arith, s: State, m: nat, k: nat, t: Tid, item: Item, n: nat)
    returns (states: seq<State>)
    requires k == m + n && Allocatable(s.cap) && Level(a, s, m) && t in s.pcs && s.pcs[t].Ready?
    ensures |states| == n + 1 && states[0] == s && states[n].cap == s.cap
    ensures Level(a, states[n], k) && OnlyMoved(s, states[n], t)
    ensures AllLinked(a, states, Round(t, item), n)
    decreases n
  {
    if n == 0 {
      states := [s];
      assert s.pcs == s.pcs[t := s.pcs[t]];
    } else {
      var before := RoundStates(a, s, m, k - 1, t, item, n - 1);
      states := RoundState(a, s, before, k - 1, t, item, n - 1);
    }
  }

  lemma RoundState(a: Arith, s: State, before: seq<State>, p: nat, t: Tid, item: Item, n: nat)
    returns (states: seq<State>)
    requires Allocatable(s.cap) && |before| == n + 1 && before[0] == s && before[n].cap == s.cap
    requires Level(a, before[n], p) && OnlyMoved(s, before[n], t)
    requires AllLinked(a, before, Round(t, item), n)
    ensures |states| == n + 2 && states[0] == s && states[n + 1].cap == s.cap
    ensures Level(a, states[n + 1], p + 1) && OnlyMoved(s, states[n + 1], t)
    ensures AllLinked(a, states, Round(t, item), n + 1)
  {
    var s' := AfterRound(a, before[n], p, t, item);
    states := before + [s'];
    RoundLevels(a, before[n], p, t, item);
    OneRound(a, before[n], p, t, item);
    assert before[n].pcs[t := Ready(Dequeued(item))] == s.pcs[t := Ready(Dequeued(item))];
    LinkMore(a, before, Round(t, item), n, s');
  }

  /** n rounds move the ring from position m to k and leave the other threads alone. */
  lemma ManyRounds(a: Arith, s: State, m: nat, k: nat, t: Tid, item: Item, n: nat) returns (s': State)
    requires k == m + n && Allocatable(s.cap) && Level(a, s, m) && t in s.pcs && s.pcs[t].Ready?
    ensures Run(a, s, Repeated(Round(t, item), n)) == Some(s') && Level(a, s', k) && OnlyMoved(s, s', t)
    ensures s'.cap == s.cap
  {
    var states := RoundStates(a, s, m, k, t, item, n);
    RunRepeats(a, states, Round(t, item), n);
    s' := states[n];
  }

  /** Rounds from position m to k, after a schedule that leaves the ring level at m and
      thread u asleep. */
  lemma WhileAsleep(
    a: Arith, s: State, first: Schedule, s1: State, m: nat, k: nat, t: Tid, item: Item, n: nat, u: Tid)
    returns (s': State)
    requires k == m + n
    requires Run(a, s, first) == Some(s1) && Allocatable(s1.cap) && Level(a, s1, m)
    requires t in s1.pcs && s1.pcs[t].Ready? && u in s1.pcs && u != t
    ensures Run(a, s, first + Repeated(Round(t, item), n)) == Some(s')
    ensures u in s'.pcs && s'.pcs[u] == s1.pcs[u] && s'.head == s'.tail == Num(a, k)
    ensures t in s'.pcs && s'.pcs[t].Ready? && s'.cap == s1.cap && Level(a, s', k)
  {
    s' := ManyRounds(a, s1, m, k, t, item, n);
    RunJoins(a, s, first, s1, Repeated(Round(t, item), n), s');
  }

  /** A thread about to CAS on tail: it claims exactly if its position is tail's. */
  lemma TailCas(a: Arith, s: State, sched: Schedule, m: State, u: Tid)
    requires Run(a, s, sched) == Some(m) && u in m.pcs && m.pcs[u].EnqCas?
    ensures var r := Run(a, s, sched + One(u, Tick));
            r.Some? && u in r.value.pcs && r.value.pcs[u]
              == if m.tail == m.pcs[u].pos then EnqWrite(m.pcs[u].item, m.pcs[u].pos) else EnqLoadTail(m.pcs[u].item)
  {
    RunMore(a, s, sched, m, u, Tick);
  }

  lemma HeadCas(a: Arith, s: State, sched: Schedule, m: State, u: Tid)
    requires Run(a, s, sched) == Some(m) && u in m.pcs && m.pcs[u].DeqCas?
    ensures var r := Run(a, s, sched + One(u, Tick));
            r.Some? && u in r.value.pcs && r.value.tail == m.tail &&
            r.value.pcs[u] == if m.head == m.pcs[u].pos then DeqRead(m.pcs[u].pos) else DeqLoadHead
  {
    RunMore(a, s, sched, m, u, Tick);
  }

  // ---- the CAS on tail --------------------------------------------------

  /** Thread u goes to sleep before its CAS; thread t makes n rounds. */
  function TailLag(u: Tid, x: Item, t: Tid, y: Item, n: nat): Schedule {
    ParkEnqueue(u, x) + Repeated(Round(t, y), n)
  }

  lemma TailParked(a: Arith, cap: nat, u: Tid, x: Item, t: Tid) returns (s: State)
    requires Allocatable(cap) && u != t
    ensures Run(a, Init(cap, {u, t}), ParkEnqueue(u, x)) == Some(s) && Level(a, s, 0) && s.cap == cap
    ensures u in s.pcs && s.pcs[u] == EnqCas(x, 0) && t in s.pcs && s.pcs[t].Ready?
  {
    var s0 := Init(cap, {u, t});
    InitLevel(a, cap, {u, t});
    LevelTail(a, s0, 0);
    assert Num(a, 0) == 0;
    ParksAtTail(a, s0, u, x, 0 % cap);
    GotoLevel(a, s0, 0, u, EnqCas(x, 0));
    s := Goto(s0, u, EnqCas(x, 0));
  }

  lemma TailLagRun(a: Arith, cap: nat, u: Tid, x: Item, t: Tid, y: Item, n: nat) returns (s: State)
    requires Allocatable(cap) && u != t
    ensures Run(a, Init(cap, {u, t}), TailLag(u, x, t, y, n)) == Some(s)
    ensures u in s.pcs && s.pcs[u] == EnqCas(x, 0) && s.tail == Num(a, n)
  {
    var s1 := TailParked(a, cap, u, x, t);
    s := WhileAsleep(a, Init(cap, {u, t}), ParkEnqueue(u, x), s1, 0, n, t, y, n, u);
  }

  /** The bound on the lag cannot be dropped: in this run, after one word range of
      rounds, the CAS on tail fails with unbounded counters and succeeds on words. */
  lemma TailCasAfterLag(cap: nat, u: Tid, x: Item, t: Tid, y: Item, n: nat)
    requires Allocatable(cap) && u != t && n == WORD
    ensures var r := Run(Unbounded, Init(cap, {u, t}), TailLag(u, x, t, y, n) + One(u, Tick));
            r.Some? && u in r.value.pcs && r.value.pcs[u] == EnqLoadTail(x)
    ensures var r := Run(Words, Init(cap, {u, t}), TailLag(u, x, t, y, n) + One(u, Tick));
            r.Some? && u in r.value.pcs && r.value.pcs[u] == EnqWrite(x, 0)
  {
    var unbounded := TailLagRun(Unbounded, cap, u, x, t, y, n);
    var words := TailLagRun(Words, cap, u, x, t, y, n);
    TailCas(Unbounded, Init(cap, {u, t}), TailLag(u, x, t, y, n), unbounded, u);
    TailCas(Words, Init(cap, {u, t}), TailLag(u, x, t, y, n), words, u);
  }

  // ---- the CAS on head --------------------------------------------------

  /** Thread t enqueues, thread u goes to sleep before its CAS on head, thread t
      dequeues; then thread t makes n rounds. */
  function HeadLagFirst(u: Tid, t: Tid, y: Item): Schedule {
    EnqueueSchedule(t, y) + ParkDequeue(u) + DequeueSchedule(t)
  }

  function HeadLag(u: Tid, t: Tid, y: Item, n: nat): Schedule {
    HeadLagFirst(u, t, y) + Repeated(Round(t, y), n)
  }

  /** Thread t has enqueued into a level ring, thread u sleeps before its CAS on head. */
  lemma HeadParked(a: Arith, s: State, u: Tid, t: Tid, y: Item, i: nat) returns (f: State)
    requires Allocatable(s.cap) && Level(a, s, 0) && i == 0 % s.cap && u != t
    requires u in s.pcs && t in s.pcs && s.pcs[u].Ready? && s.pcs[t].Ready?
    ensures Run(a, s, EnqueueSchedule(t, y) + ParkDequeue(u)) == Some(f) && HeadPublished(a, f, i)
    ensures f.pcs == s.pcs[t := Ready(Enqueued)][u := DeqCas(0)] && f.cap == s.cap && f.head == s.head
    ensures f.tail == Plus(a, s.tail, 1) && f.slots == s.slots[i := Slot(Plus(a, s.tail, 1), y)]
  {
    LevelTail(a, s, 0);
    OneEnqueue(a, s, t, y, i);
    var e := AfterEnqueue(a, s, t, y, i);
    FilledHead(a, s, 0, t, y);
    ParksAtHead(a, e, u, i);
    assert Num(a, 0) == 0;
    f := Goto(e, u, DeqCas(0));
    RunJoins(a, s, EnqueueSchedule(t, y), e, ParkDequeue(u), f);
  }

  lemma HeadLagStart(a: Arith, cap: nat, u: Tid, t: Tid, y: Item) returns (s: State)
    requires Allocatable(cap) && u != t
    ensures Run(a, Init(cap, {u, t}), HeadLagFirst(u, t, y)) == Some(s)
    ensures Level(a, s, 1) && s.cap == cap
    ensures u in s.pcs && s.pcs[u] == DeqCas(0) && t in s.pcs && s.pcs[t].Ready?
  {
    var s0, i := Init(cap, {u, t}), 0 % cap;
    InitLevel(a, cap, {u, t});
    var f := HeadParked(a, s0, u, t, y, i);
    OneDequeue(a, f, t, i);
    s := AfterDequeue(a, f, t, i);
    RunJoins(a, s0, EnqueueSchedule(t, y) + ParkDequeue(u), f, DequeueSchedule(t), s);
    LevelAgain(a, s0, f, 0, t, y);
  }

  lemma HeadLagRun(a: Arith, cap: nat, u: Tid, t: Tid, y: Item, n: nat) returns (s: State)
    requires Allocatable(cap) && u != t
    ensures Run(a, Init(cap, {u, t}), HeadLag(u, t, y, n)) == Some(s)
    ensures u in s.pcs && s.pcs[u] == DeqCas(0) && s.head == s.tail == Num(a, 1 + n)
  {
    var s1 := HeadLagStart(a, cap, u, t, y);
    s := WhileAsleep(a, Init(cap, {u, t}), HeadLagFirst(u, t, y), s1, 1, 1 + n, t, y, n, u);
  }

  /** Likewise the CAS on head: on words it takes a position from an empty ring. */
  lemma HeadCasAfterLag(cap: nat, u: Tid, t: Tid, y: Item, n: nat)
    requires Allocatable(cap) && u != t && n + 1 == WORD
    ensures var r := Run(Unbounded, Init(cap, {u, t}), HeadLag(u, t, y, n) + One(u, Tick));
            r.Some? && u in r.value.pcs && r.value.pcs[u] == DeqLoadHead
    ensures var r := Run(Words, Init(cap, {u, t}), HeadLag(u, t, y, n) + One(u, Tick));
            r.Some? && u in r.value.pcs && r.value.pcs[u] == DeqRead(0) && r.value.tail == 0
  {
    var unbounded := HeadLagRun(Unbounded, cap, u, t, y, n);
    var words := HeadLagRun(Words, cap, u, t, y, n);
    HeadCas(Unbounded, Init(cap, {u, t}), HeadLag(u, t, y, n), unbounded, u);
    HeadCas(Words, Init(cap, {u, t}), HeadLag(u, t, y, n), words, u);
  }

  // ---- the stamp a producer reads ---------------------------------------

  /** An enqueue called, up to just before it reads the stamp. */
  function ParkEnqLoad(u: Tid, x: Item): Schedule {
    One(u, CallEnqueue(x)) + [(u, Tick)]
  }

  lemma EnqLoadParked(a: Arith, cap: nat, u: Tid, x: Item, t: Tid) returns (s: State)
    requires Allocatable(cap) && u != t
    ensures Run(a, Init(cap, {u, t}), ParkEnqLoad(u, x)) == Some(s) && Level(a, s, 0) && s.cap == cap
    ensures u in s.pcs && s.pcs[u] == EnqLoadStamp(x, 0) && t in s.pcs && s.pcs[t].Ready?
  {
    var s0 := Init(cap, {u, t});
    var s1 := Goto(s0, u, EnqLoadTail(x));
    InitLevel(a, cap, {u, t});
    GotoLevel(a, s0, 0, u, EnqLoadTail(x));
    GotoLevel(a, s1, 0, u, EnqLoadStamp(x, 0));
    RunOne(a, s0, u, CallEnqueue(x));
    RunMore(a, s0, One(u, CallEnqueue(x)), s1, u, Tick);
    s := Goto(s1, u, EnqLoadStamp(x, 0));
  }

  /** Half the word range is a whole number of laps, so the slot of position 0 carries the
      stamp for it when the ring is level up to a lap before. */
  lemma HalfAtZero(a: Arith, s: State, n: nat)
    requires Allocatable(s.cap) && Level(a, s, n) && n <= HALF < n + s.cap
    ensures Index(a, 0, s.cap) == 0 && s.slots[0].stamp == HALF
  {
    var laps := HalfInLaps(s.cap);
    ModIs(HALF, s.cap, laps, 0);
    IndexNum(a, 0, s.cap);
    assert StampAt(s, HALF) == Num(a, HALF);
  }

  lemma ReadsHalf(a: Arith, s: State, sched: Schedule, m: State, n: nat, u: Tid, x: Item)
    requires Run(a, s, sched) == Some(m) && u in m.pcs && m.pcs[u] == EnqLoadStamp(x, 0)
    requires Allocatable(m.cap) && Level(a, m, n) && n <= HALF < n + m.cap
    ensures var r := Run(a, s, sched + One(u, Tick));
            r.Some? && u in r.value.pcs && r.value.head == r.value.tail
            && r.value.pcs[u] == if a.Words? then Ready(Full) else EnqLoadTail(x)
  {
    HalfAtZero(a, m, n);
    RunMore(a, s, sched, m, u, Tick);
  }

  function FullLag(u: Tid, x: Item, t: Tid, y: Item, n: nat): Schedule {
    ParkEnqLoad(u, x) + Repeated(Round(t, y), n)
  }

  lemma FullLagRun(a: Arith, cap: nat, u: Tid, x: Item, t: Tid, y: Item, n: nat)
    requires Allocatable(cap) && u != t && n <= HALF < n + cap
    ensures var r := Run(a, Init(cap, {u, t}), FullLag(u, x, t, y, n) + One(u, Tick));
            r.Some? && u in r.value.pcs && r.value.head == r.value.tail
            && r.value.pcs[u] == if a.Words? then Ready(Full) else EnqLoadTail(x)
  {
    var s1 := EnqLoadParked(a, cap, u, x, t);
    var s := WhileAsleep(a, Init(cap, {u, t}), ParkEnqLoad(u, x), s1, 0, n, t, y, n, u);
    ReadsHalf(a, Init(cap, {u, t}), FullLag(u, x, t, y, n), s, n, u, x);
  }

  /** The bound on a producer's lag is sharp for every capacity: in this run tail and a lap
      are one more than half the word range ahead, if n is as small as it can be; the ring
      is empty, and the enqueue answers full on words and goes on otherwise. */
  lemma FullAfterLag(cap: nat, u: Tid, x: Item, t: Tid, y: Item, n: nat)
    requires Allocatable(cap) && u != t && n <= HALF < n + cap
    ensures var r := Run(Unbounded, Init(cap, {u, t}), FullLag(u, x, t, y, n) + One(u, Tick));
            r.Some? && u in r.value.pcs && r.value.pcs[u] == EnqLoadTail(x) && r.value.head == r.value.tail
    ensures var r := Run(Words, Init(cap, {u, t}), FullLag(u, x, t, y, n) + One(u, Tick));
            r.Some? && u in r.value.pcs && r.value.pcs[u] == Ready(Full) && r.value.head == r.value.tail
  {
    FullLagRun(Unbounded, cap, u, x, t, y, n);
    FullLagRun(Words, cap, u, x, t, y, n);
  }

  // ---- the stamp a consumer reads ---------------------------------------

  /** A dequeue called, up to just before it reads the stamp. */
  function ParkDeqLoad(u: Tid): Schedule {
    One(u, CallDequeue) + [(u, Tick)]
  }

  lemma DeqLoadParked(a: Arith, cap: nat, u: Tid, t: Tid) returns (s: State)
    requires Allocatable(cap) && u != t
    ensures Run(a, Init(cap, {u, t}), ParkDeqLoad(u)) == Some(s) && Level(a, s, 0) && s.cap == cap
    ensures u in s.pcs && s.pcs[u] == DeqLoadStamp(0) && t in s.pcs && s.pcs[t].Ready?
  {
    var s0 := Init(cap, {u, t});
    var s1 := Goto(s0, u, DeqLoadHead);
    InitLevel(a, cap, {u, t});
    GotoLevel(a, s0, 0, u, DeqLoadHead);
    GotoLevel(a, s1, 0, u, DeqLoadStamp(0));
    RunOne(a, s0, u, CallDequeue);
    RunMore(a, s0, One(u, CallDequeue), s1, u, Tick);
    s := Goto(s1, u, DeqLoadStamp(0));
  }

  /** An enqueue into a ring level at HALF publishes in the slot of position 0. */
  lemma PublishedAtZero(a: Arith, s: State, t: Tid, y: Item) returns (e: State)
    requires Allocatable(s.cap) && Level(a, s, HALF) && t in s.pcs && s.pcs[t].Ready?
    ensures Run(a, s, EnqueueSchedule(t, y)) == Some(e) && e.cap == s.cap && |e.slots| == s.cap
    ensures Index(a, 0, e.cap) == 0 && e.slots[0].stamp == HALF + 1 && e.pcs == s.pcs[t := Ready(Enqueued)]
    ensures e.tail == e.head + 1
  {
    var laps := HalfInLaps(s.cap);
    ModIs(HALF, s.cap, laps, 0);
    IndexNum(a, 0, s.cap);
    LevelTail(a, s, HALF);
    OneEnqueue(a, s, t, y, 0);
    e := AfterEnqueue(a, s, t, y, 0);
  }

  function EmptyLag(u: Tid, t: Tid, y: Item, n: nat): Schedule {
    ParkDeqLoad(u) + Repeated(Round(t, y), n) + EnqueueSchedule(t, y)
  }

  lemma EmptyLagRun(a: Arith, cap: nat, u: Tid, t: Tid, y: Item, n: nat)
    requires Allocatable(cap) && u != t && n == HALF
    ensures var r := Run(a, Init(cap, {u, t}), EmptyLag(u, t, y, n) + One(u, Tick));
            r.Some? && u in r.value.pcs && r.value.tail == r.value.head + 1
            && r.value.pcs[u] == if a.Words? then Ready(Empty) else DeqLoadHead
  {
    var s0 := Init(cap, {u, t});
    var s1 := DeqLoadParked(a, cap, u, t);
    var s := WhileAsleep(a, s0, ParkDeqLoad(u), s1, 0, n, t, y, n, u);
    var e := PublishedAtZero(a, s, t, y);
    RunJoins(a, s0, ParkDeqLoad(u) + Repeated(Round(t, y), n), s, EnqueueSchedule(t, y), e);
    ReadsPublished(a, s0, EmptyLag(u, t, y, n), e, u);
  }

  lemma HalfAhead(a: Arith, m: State, u: Tid)
    requires u in m.pcs && m.pcs[u] == DeqLoadStamp(0)
    requires 0 < |m.slots| && Index(a, 0, m.cap) == 0 && m.slots[0].stamp == HALF + 1
    ensures Next(a, m, u, Tick) == Some(Goto(m, u, if a.Words? then Ready(Empty) else DeqLoadHead))
  {
    assert Plus(a, 0, 1) == 1 && Dif(a, HALF + 1, 1) == if a.Words? then -1 * HALF else HALF;
  }

  lemma ReadsPublished(a: Arith, s: State, sched: Schedule, m: State, u: Tid)
    requires Run(a, s, sched) == Some(m) && u in m.pcs && m.pcs[u] == DeqLoadStamp(0)
    requires 0 < |m.slots| && Index(a, 0, m.cap) == 0 && m.slots[0].stamp == HALF + 1
    ensures var r := Run(a, s, sched + One(u, Tick));
            r.Some? && u in r.value.pcs && r.value.tail == m.tail && r.value.head == m.head
            && r.value.pcs[u] == if a.Words? then Ready(Empty) else DeqLoadHead
  {
    RunMore(a, s, sched, m, u, Tick);
    HalfAhead(a, m, u);
  }

  /** So is the bound on a consumer's: after HALF rounds and one more enqueue tail is one
      more than half the word range ahead; the ring holds an item, and the dequeue answers
      empty on words and goes on otherwise. */
  lemma EmptyAfterLag(cap: nat, u: Tid, t: Tid, y: Item, n: nat)
    requires Allocatable(cap) && u != t && n == HALF
    ensures var r := Run(Unbounded, Init(cap, {u, t}), EmptyLag(u, t, y, n) + One(u, Tick));
            r.Some? && u in r.value.pcs && r.value.pcs[u] == DeqLoadHead && r.value.tail == r.value.head + 1
    ensures var r := Run(Words, Init(cap, {u, t}), EmptyLag(u, t, y, n) + One(u, Tick));
            r.Some? && u in r.value.pcs && r.value.pcs[u] == Ready(Empty) && r.value.tail == r.value.head + 1
  {
    EmptyLagRun(Unbounded, cap, u, t, y, n);
    EmptyLagRun(Words, cap, u, t, y, n);
  }
}
