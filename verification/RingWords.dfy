/** The same program on the machine's 64-bit words. head, tail, the stamps and the
    positions threads hold wrap around; indexes are masks; the distance of two
    positions is a signed difference. Which steps decide as they do with unbounded
    counters is told exactly; all do as long as no thread's position lags too far. */
module RingWords {
  import opened Wrappers
  import opened Bits
  import opened RingModel
  import opened RingInvariant
  import RingTheorems

  function WrapPc(pc: Pc): Pc {
    match pc
    case EnqLoadStamp(item, pos) => EnqLoadStamp(item, pos % WORD)
    case EnqCas(item, pos) => EnqCas(item, pos % WORD)
    case EnqWrite(item, pos) => EnqWrite(item, pos % WORD)
    case EnqPublish(item, pos) => EnqPublish(item, pos % WORD)
    case DeqLoadStamp(pos) => DeqLoadStamp(pos % WORD)
    case DeqCas(pos) => DeqCas(pos % WORD)
    case DeqRead(pos) => DeqRead(pos % WORD)
    case DeqRelease(pos, item) => DeqRelease(pos % WORD, item)
    case _ => pc
  }

  function WrapSlot(slot: Slot): Slot {
    Slot(slot.stamp % WORD, slot.data)
  }

  /** The machine state an unbounded state stands for. */
  function Wrap(s: State): State {
    s.(slots := seq(|s.slots|, i requires 0 <= i < |s.slots| => WrapSlot(s.slots[i])),
       head := s.head % WORD, tail := s.tail % WORD,
       pcs := map t | t in s.pcs :: WrapPc(s.pcs[t]))
  }

  function WrapAll(s: Option<State>): Option<State> {
    match s case None => None case Some(v) => Some(Wrap(v))
  }

  /** A distance of at least -HALF has the same sign on signed words. */
  predicate KeepsSign(d: int) {
    d <= 0 || 0 < d % WORD < HALF
  }

  /** Thread t's next shared access decides on words as on unbounded counters: the stamp
      it reads is not so far ahead that the signed difference turns, and the counter its
      CAS compares has not moved by a whole number of word ranges. */
  predicate Decides(s: State, t: Tid) {
    0 < s.cap == |s.slots| && t in s.pcs ==>
      match s.pcs[t]
      case EnqLoadStamp(_, pos) => KeepsSign(At(s, pos).stamp - pos)
      case DeqLoadStamp(pos) => KeepsSign(At(s, pos).stamp - (pos + 1))
      case EnqCas(_, pos) => s.tail == pos || (s.tail - pos) % WORD != 0
      case DeqCas(pos) => s.head == pos || (s.head - pos) % WORD != 0
      case _ => true
  }

  lemma WrapGoto(s: State, t: Tid, pc: Pc)
    requires t in s.pcs
    ensures Wrap(Goto(s, t, pc)) == Goto(Wrap(s), t, WrapPc(pc))
  {
    assert Wrap(Goto(s, t, pc)).pcs == Goto(Wrap(s), t, WrapPc(pc)).pcs;
  }

  lemma WrapPut(s: State, i: nat, slot: Slot)
    requires i < |s.slots|
    ensures Wrap(s.(slots := s.slots[i := slot])) == Wrap(s).(slots := Wrap(s).slots[i := WrapSlot(slot)])
  {
    assert Wrap(s.(slots := s.slots[i := slot])).slots == Wrap(s).slots[i := WrapSlot(slot)];
  }

  /** A stamp never exceeds the position of the next lap. */
  lemma StampBound(s: State, pos: nat)
    requires Inv(s)
    ensures At(s, pos).stamp < s.tail + s.cap
    ensures pos <= s.tail ==> pos <= At(s, pos).stamp + s.cap
    ensures pos <= s.head ==> pos < At(s, pos).stamp + s.cap
  {
    var q := WindowPos(s, pos);
    assert PhaseInv(s, q);
    if pos < s.tail {
      RingTheorems.StampReached(s, pos);
    } else if pos == s.tail {
      TailStamp(s);
      assert PhaseInv(s, s.tail - s.cap);
    }
  }

  /** The window position that shares a slot with pos. */
  lemma WindowPos(s: State, pos: nat) returns (q: int)
    requires Inv(s)
    ensures InWindow(s, q) && q % s.cap == pos % s.cap && At(s, q) == At(s, pos)
  {
    var d := (s.tail - 1 - pos) % s.cap;
    q := s.tail - 1 - d;
    var k := (s.tail - 1 - pos) / s.cap;
    assert s.tail - 1 - pos == k * s.cap + d;
    assert pos == (pos / s.cap) * s.cap + pos % s.cap;
    assert q == (pos / s.cap + k) * s.cap + pos % s.cap;
    ModIs(q, s.cap, pos / s.cap + k, pos % s.cap);
  }

  lemma IndexWraps(s: State, pos: nat)
    requires Shape(s) && IsPow2(s.cap) && s.cap <= HALF
    ensures Index(Words, pos % WORD, s.cap) == pos % s.cap
    ensures Wrap(s).slots[pos % s.cap] == WrapSlot(At(s, pos))
  {
    MaskOfWord(pos, s.cap);
  }

  /** The three-way decision on a difference survives exactly when the sign does. */
  lemma SignOnWords(x: nat, y: nat)
    requires -1 * HALF <= x - y
    ensures var d := SignedDif(x % WORD, y % WORD);
      (d == 0 <==> x == y) && (d < 0 <==> x < y) <==> KeepsSign(x - y)
  {
    SignedDifOf(x, y);
    if x <= y {
      SignedDifExact(x, y);
    }
  }

  /** The stamp producers of position pos read decides alike in both arithmetics exactly
      when the difference keeps its sign. */
  lemma EnqLoadIff(s: State, t: Tid)
    requires Inv(s) && IsPow2(s.cap) && s.cap <= HALF && t in s.pcs && s.pcs[t].EnqLoadStamp?
    ensures Access(Words, Wrap(s), t) == WrapAll(Access(Unbounded, s, t))
       <==> KeepsSign(At(s, s.pcs[t].pos).stamp - s.pcs[t].pos)
  {
    assert PcInv(s, t);
    var pos := s.pcs[t].pos;
    IndexWraps(s, pos);
    StampBound(s, pos);
    SignOnWords(At(s, pos).stamp, pos);
    GotoWraps(s, t, Access(Words, Wrap(s), t).value.pcs[t], Access(Unbounded, s, t).value.pcs[t]);
  }

  lemma PublishedSign(stamp: nat, pos: nat)
    requires -1 * HALF <= stamp - (pos + 1)
    ensures var d := Dif(Words, stamp % WORD, Plus(Words, pos % WORD, 1));
      (d == 0 <==> stamp == pos + 1) && (d < 0 <==> stamp < pos + 1) <==> KeepsSign(stamp - (pos + 1))
  {
    ModOfSum(pos, 1);
    SignOnWords(stamp, pos + 1);
  }

  /** Where a consumer goes from the difference it computes. */
  function Seen(dif: int, pos: nat): Pc {
    if dif == 0 then DeqCas(pos) else if dif < 0 then Ready(Empty) else DeqLoadHead
  }

  lemma SeenWraps(word: int, dif: int, pos: nat)
    ensures Seen(word, pos % WORD) == WrapPc(Seen(dif, pos)) <==> (word == 0 <==> dif == 0) && (word < 0 <==> dif < 0)
  {
  }

  lemma SeenOnWords(s: State, t: Tid, pos: nat)
    requires Shape(s) && IsPow2(s.cap) && s.cap <= HALF && t in s.pcs && s.pcs[t] == DeqLoadStamp(pos)
    ensures Access(Words, Wrap(s), t)
      == Some(Goto(Wrap(s), t, Seen(Dif(Words, At(s, pos).stamp % WORD, Plus(Words, pos % WORD, 1)), pos % WORD)))
    ensures Access(Unbounded, s, t) == Some(Goto(s, t, Seen(At(s, pos).stamp - (pos + 1), pos)))
  {
    IndexWraps(s, pos);
  }

  lemma SeenAlike(s: State, t: Tid, pos: nat)
    requires Shape(s) && IsPow2(s.cap) && s.cap <= HALF && t in s.pcs && s.pcs[t] == DeqLoadStamp(pos)
    requires -1 * HALF <= At(s, pos).stamp - (pos + 1)
    ensures Access(Words, Wrap(s), t) == WrapAll(Access(Unbounded, s, t)) <==> KeepsSign(At(s, pos).stamp - (pos + 1))
  {
    var dif, word := At(s, pos).stamp - (pos + 1), Dif(Words, At(s, pos).stamp % WORD, Plus(Words, pos % WORD, 1));
    PublishedSign(At(s, pos).stamp, pos);
    SeenOnWords(s, t, pos);
    SeenWraps(word, dif, pos);
    GotoWraps(s, t, Seen(word, pos % WORD), Seen(dif, pos));
  }

  /** Likewise for the stamp that consumers read. */
  lemma DeqLoadIff(s: State, t: Tid)
    requires Inv(s) && IsPow2(s.cap) && s.cap <= HALF && t in s.pcs && s.pcs[t].DeqLoadStamp?
    ensures Access(Words, Wrap(s), t) == WrapAll(Access(Unbounded, s, t))
       <==> KeepsSign(At(s, s.pcs[t].pos).stamp - (s.pcs[t].pos + 1))
  {
    assert PcInv(s, t);
    StampBound(s, s.pcs[t].pos);
    SeenAlike(s, t, s.pcs[t].pos);
  }

  /** Two moves of a thread wrap to each other exactly when their places do. */
  lemma GotoWraps(s: State, t: Tid, word: Pc, pc: Pc)
    requires t in s.pcs
    ensures Goto(Wrap(s), t, word) == Wrap(Goto(s, t, pc)) <==> word == WrapPc(pc)
  {
    WrapGoto(s, t, pc);
    assert Goto(Wrap(s), t, word).pcs[t] == word && Goto(Wrap(s), t, WrapPc(pc)).pcs[t] == WrapPc(pc);
  }

  /** A step that writes one slot and moves its thread. */
  lemma WrapOwned(s: State, t: Tid, i: nat, slot: Slot, pc: Pc, handed: seq<Item>)
    requires t in s.pcs && i < |s.slots|
    ensures Wrap(Goto(s, t, pc).(slots := s.slots[i := slot], returned := s.returned + handed))
         == Goto(Wrap(s), t, WrapPc(pc)).(slots := Wrap(s).slots[i := WrapSlot(slot)], returned := s.returned + handed)
  {
    WrapGoto(s, t, pc);
    WrapPut(Goto(s, t, pc), i, slot);
  }

  lemma WriterCommutes(s: State, t: Tid)
    requires Inv(s) && IsPow2(s.cap) && s.cap <= HALF && t in s.pcs && s.pcs[t].EnqWrite?
    ensures Access(Words, Wrap(s), t) == WrapAll(Access(Unbounded, s, t))
  {
    var pos := s.pcs[t].pos;
    IndexWraps(s, pos);
    var s' := Access(Unbounded, s, t).value;
    WrapOwned(s, t, pos % s.cap, At(s', pos), s'.pcs[t], []);
    assert s.returned + [] == s.returned;
  }

  lemma PublisherCommutes(s: State, t: Tid)
    requires Inv(s) && IsPow2(s.cap) && s.cap <= HALF && t in s.pcs && s.pcs[t].EnqPublish?
    ensures Access(Words, Wrap(s), t) == WrapAll(Access(Unbounded, s, t))
  {
    var pos := s.pcs[t].pos;
    IndexWraps(s, pos);
    ModOfSum(pos, 1);
    var s' := Access(Unbounded, s, t).value;
    WrapOwned(s, t, pos % s.cap, At(s', pos), s'.pcs[t], []);
    assert s.returned + [] == s.returned;
  }

  lemma ReaderCommutes(s: State, t: Tid)
    requires Inv(s) && IsPow2(s.cap) && s.cap <= HALF && t in s.pcs && s.pcs[t].DeqRead?
    ensures Access(Words, Wrap(s), t) == WrapAll(Access(Unbounded, s, t))
  {
    IndexWraps(s, s.pcs[t].pos);
    WrapGoto(s, t, Access(Unbounded, s, t).value.pcs[t]);
  }

  lemma ReleaserCommutes(s: State, t: Tid)
    requires Inv(s) && IsPow2(s.cap) && s.cap <= HALF && t in s.pcs && s.pcs[t].DeqRelease?
    ensures Access(Words, Wrap(s), t) == WrapAll(Access(Unbounded, s, t))
  {
    var pos := s.pcs[t].pos;
    IndexWraps(s, pos);
    ModOfSum(pos, s.cap);
    assert Plus(Words, pos % WORD, s.cap) == Plus(Unbounded, pos, s.cap) % WORD;
    var s' := Access(Unbounded, s, t).value;
    WrapOwned(s, t, pos % s.cap, At(s', pos), s'.pcs[t], [s.pcs[t].item]);
  }

  /** What a lag does to the CAS on tail: on words it decides as with unbounded
      counters exactly unless tail has moved by a whole number of word ranges, one at
      least, since the position was read; then it succeeds where it should fail. */
  lemma LagBreaksTheCas(s: State, t: Tid)
    requires Inv(s) && t in s.pcs && s.pcs[t].EnqCas?
    ensures Access(Words, Wrap(s), t).value.pcs[t] == WrapPc(Access(Unbounded, s, t).value.pcs[t])
       <==> s.tail == s.pcs[t].pos || (s.tail - s.pcs[t].pos) % WORD != 0
    ensures Access(Words, Wrap(s), t) == WrapAll(Access(Unbounded, s, t))
       <==> s.tail == s.pcs[t].pos || (s.tail - s.pcs[t].pos) % WORD != 0
  {
    assert PcInv(s, t);
    SameWordIff(s.tail, s.pcs[t].pos);
    ModOfSum(s.pcs[t].pos, 1);
    WrapGoto(s, t, Access(Unbounded, s, t).value.pcs[t]);
  }

  /** The same for the CAS on head. */
  lemma LagBreaksTheHeadCas(s: State, t: Tid)
    requires Inv(s) && t in s.pcs && s.pcs[t].DeqCas?
    ensures Access(Words, Wrap(s), t).value.pcs[t] == WrapPc(Access(Unbounded, s, t).value.pcs[t])
       <==> s.head == s.pcs[t].pos || (s.head - s.pcs[t].pos) % WORD != 0
    ensures Access(Words, Wrap(s), t) == WrapAll(Access(Unbounded, s, t))
       <==> s.head == s.pcs[t].pos || (s.head - s.pcs[t].pos) % WORD != 0
  {
    assert PcInv(s, t);
    SameWordIff(s.head, s.pcs[t].pos);
    ModOfSum(s.pcs[t].pos, 1);
    WrapGoto(s, t, Access(Unbounded, s, t).value.pcs[t]);
  }

  lemma SameWordIff(x: nat, y: nat)
    requires y <= x
    ensures x % WORD == y % WORD <==> (x - y) % WORD == 0
  {
    var qx, qy := x / WORD, y / WORD;
    assert x == qx * WORD + x % WORD && y == qy * WORD + y % WORD;
    if x % WORD == y % WORD {
      ModIs(x - y, WORD, qx - qy, 0);
    }
    if (x - y) % WORD == 0 {
      ModIs(x, WORD, qy + (x - y) / WORD, y % WORD);
    }
  }

  /** Stepping the machine state is wrapping the stepped unbounded state, exactly when the
      access decides alike; nothing but a decision can tell the two apart. */
  lemma NextCommutes(s: State, t: Tid, e: Event)
    requires Inv(s) && IsPow2(s.cap) && s.cap <= HALF
    ensures Next(Words, Wrap(s), t, e) == WrapAll(Next(Unbounded, s, t, e)) <==> (e.Tick? ==> Decides(s, t))
  {
    if t in s.pcs {
      if e.Tick? {
        AccessCommutes(s, t);
      } else if Next(Unbounded, s, t, e).Some? {
        WrapGoto(s, t, Next(Unbounded, s, t, e).value.pcs[t]);
      }
    }
  }

  lemma AccessCommutes(s: State, t: Tid)
    requires Inv(s) && IsPow2(s.cap) && s.cap <= HALF && t in s.pcs
    ensures Access(Words, Wrap(s), t) == WrapAll(Access(Unbounded, s, t)) <==> Decides(s, t)
  {
    match s.pcs[t]
    case Ready(_) =>
    case EnqLoadTail(_) => WrapGoto(s, t, Access(Unbounded, s, t).value.pcs[t]);
    case EnqLoadStamp(_, _) => EnqLoadIff(s, t);
    case EnqCas(_, _) => LagBreaksTheCas(s, t);
    case EnqWrite(_, _) => WriterCommutes(s, t);
    case EnqPublish(_, _) => PublisherCommutes(s, t);
    case DeqLoadHead => WrapGoto(s, t, Access(Unbounded, s, t).value.pcs[t]);
    case DeqLoadStamp(_) => DeqLoadIff(s, t);
    case DeqCas(_) => LagBreaksTheHeadCas(s, t);
    case DeqRead(_) => ReaderCommutes(s, t);
    case DeqRelease(_, _) => ReleaserCommutes(s, t);
  }

  // ---- whole runs -------------------------------------------------------

  lemma InitWraps(cap: nat, tids: set<Tid>)
    requires cap <= HALF
    ensures Wrap(Init(cap, tids)) == Init(cap, tids)
  {
    var s := Init(cap, tids);
    assert Wrap(s).slots == s.slots;
    assert Wrap(s).pcs == s.pcs;
  }

  /** After the first n steps the machine is in the wrapped unbounded state, or both runs
      have come to a step that is not possible. */
  predicate AgreeAt(s: State, sched: Schedule, n: nat)
    requires n <= |sched|
  {
    Run(Words, s, sched[..n]) == WrapAll(Run(Unbounded, s, sched[..n]))
  }

  /** Step n decides on words as on unbounded counters. */
  predicate DecidesAt(s: State, sched: Schedule, n: nat)
    requires n < |sched|
  {
    var before := Run(Unbounded, s, sched[..n]);
    before.Some? && sched[n].1.Tick? ==> Decides(before.value, sched[n].0)
  }

  lemma StepAgrees(cap: nat, tids: set<Tid>, sched: Schedule, n: nat)
    requires 2 <= cap <= HALF && IsPow2(cap) && n < |sched| && AgreeAt(Init(cap, tids), sched, n)
    ensures AgreeAt(Init(cap, tids), sched, n + 1) <==> DecidesAt(Init(cap, tids), sched, n)
  {
    var before := Run(Unbounded, Init(cap, tids), sched[..n]);
    assert sched[..n + 1][..n] == sched[..n] && sched[..n + 1][n] == sched[n];
    if before.Some? {
      RunInv(cap, tids, sched[..n]);
      RingTheorems.RunCap(cap, tids, sched[..n]);
      NextCommutes(before.value, sched[n].0, sched[n].1);
    }
  }

  /** Machine-word refinement over whole runs, for every capacity of at least two that the
      test lets through: the run on words is at every point the wrapped run on unbounded
      counters exactly when every step decides alike. */
  lemma RunCommutes(cap: nat, tids: set<Tid>, sched: Schedule)
    requires 2 <= cap <= HALF && IsPow2(cap)
    ensures (forall n: nat | n <= |sched| :: AgreeAt(Init(cap, tids), sched, n))
       <==> (forall n: nat | n < |sched| :: DecidesAt(Init(cap, tids), sched, n))
  {
    var s := Init(cap, tids);
    if forall n: nat | n <= |sched| :: AgreeAt(s, sched, n) {
      forall n: nat | n < |sched| ensures DecidesAt(s, sched, n) {
        assert AgreeAt(s, sched, n) && AgreeAt(s, sched, n + 1);
        StepAgrees(cap, tids, sched, n);
      }
    }
    if forall n: nat | n < |sched| :: DecidesAt(s, sched, n) {
      forall n: nat | n <= |sched| ensures AgreeAt(s, sched, n) {
        AgreeUpTo(cap, tids, sched, n);
      }
    }
  }

  lemma {:induction false} AgreeUpTo(cap: nat, tids: set<Tid>, sched: Schedule, n: nat)
    requires 2 <= cap <= HALF && IsPow2(cap) && n <= |sched|
    requires forall k: nat | k < |sched| :: DecidesAt(Init(cap, tids), sched, k)
    ensures AgreeAt(Init(cap, tids), sched, n)
    decreases n
  {
    if n == 0 {
      InitWraps(cap, tids);
      assert sched[..0] == [];
    } else {
      AgreeUpTo(cap, tids, sched, n - 1);
      assert DecidesAt(Init(cap, tids), sched, n - 1);
      StepAgrees(cap, tids, sched, n - 1);
    }
  }

  // ---- how far a thread may lag -----------------------------------------

  /** Since thread t read its position tail has not come further than half the word range
      ahead of it, for a producer about to read a stamp a lap of the ring included; a
      position about to be compared is less than the word range behind. */
  predicate NoLag(s: State, t: Tid) {
    t in s.pcs ==>
      match s.pcs[t]
      case EnqLoadStamp(_, pos) => s.tail + s.cap - pos <= HALF
      case DeqLoadStamp(pos) => s.tail - pos <= HALF
      case EnqCas(_, pos) => s.tail - pos < WORD
      case DeqCas(pos) => s.head - pos < WORD
      case _ => true
  }

  /** Such a thread decides alike. */
  lemma NoLagDecides(s: State, t: Tid)
    requires Inv(s) && IsPow2(s.cap) && s.cap <= HALF && t in s.pcs && NoLag(s, t)
    ensures Decides(s, t)
  {
    assert PcInv(s, t);
    match s.pcs[t]
    case EnqLoadStamp(_, pos) =>
      StampBound(s, pos);
      BelowHalf(At(s, pos).stamp - pos);
    case DeqLoadStamp(pos) =>
      PublishedBound(s, pos);
      BelowHalf(At(s, pos).stamp - (pos + 1));
    case EnqCas(_, pos) => BelowWord(s.tail - pos);
    case DeqCas(pos) => BelowWord(s.head - pos);
    case _ =>
  }

  lemma BelowHalf(d: int)
    requires d < HALF
    ensures KeepsSign(d)
  {
  }

  lemma BelowWord(d: nat)
    requires d < WORD
    ensures d == 0 || d % WORD != 0
  {
  }

  /** The stamp a consumer reads is less than half the word range ahead: positions of one
      slot are whole laps apart, and the capacity divides half the word range. */
  lemma PublishedBound(s: State, pos: nat)
    requires Inv(s) && IsPow2(s.cap) && s.cap <= HALF && pos <= s.head && s.tail - pos <= HALF
    ensures At(s, pos).stamp - (pos + 1) < HALF
  {
    var q := WindowPos(s, pos);
    var n := HalfInLaps(s.cap);
    LapsBelow(q, pos, s.cap, n);
    assert PhaseInv(s, q);
  }

  /** A run in which no thread lags when it moves; one that sleeps may. */
  ghost predicate NeverLags(s: State, sched: Schedule) {
    forall n | 0 <= n < |sched| ::
      Run(Unbounded, s, sched[..n]).Some? ==> NoLag(Run(Unbounded, s, sched[..n]).value, sched[n].0)
  }

  /** A run in which no thread lags is the same on words. */
  lemma RunWithoutLag(cap: nat, tids: set<Tid>, sched: Schedule)
    requires 2 <= cap <= HALF && IsPow2(cap) && NeverLags(Init(cap, tids), sched)
    ensures Run(Words, Init(cap, tids), sched) == WrapAll(Run(Unbounded, Init(cap, tids), sched))
  {
    var s := Init(cap, tids);
    forall n: nat | n < |sched| ensures DecidesAt(s, sched, n) {
      var before := Run(Unbounded, s, sched[..n]);
      if before.Some? && sched[n].0 in before.value.pcs {
        RunInv(cap, tids, sched[..n]);
        RingTheorems.RunCap(cap, tids, sched[..n]);
        NoLagDecides(before.value, sched[n].0);
      }
    }
    AgreeUpTo(cap, tids, sched, |sched|);
    assert sched[..|sched|] == sched;
  }
}
