/** The ring as the object one thread uses: the same code on 64-bit words, with the
    contents as a sequence. */
module RingBuffer {
  import opened Bits
  import opened RingModel

  /** The positions of one lap have slots of their own. */
  lemma OwnIndex(p: nat, q: nat, cap: nat)
    requires p != q && p < q + cap && q < p + cap
    ensures q % cap != p % cap
  {
    if q % cap == p % cap {
      ModApart(q, p, cap);
    }
  }

  /** Slot of position p: published with the queued item, or free for p. */
  predicate SlotHolds(slots: seq<Slot>, head: nat, tail: nat, items: seq<Item>, p: nat)
    requires 0 < |slots| && head <= tail && |items| == tail - head && head <= p
  {
    if p < tail then slots[p % |slots|] == Slot((p + 1) % WORD, items[p - head])
    else slots[p % |slots|].stamp == p % WORD
  }

  /** The slots of a ring that holds items, from position head up to tail. */
  ghost predicate SlotsHold(slots: seq<Slot>, head: nat, tail: nat, items: seq<Item>) {
    && 0 < |slots| && head <= tail <= head + |slots| && |items| == tail - head
    && forall p: nat {:trigger SlotHolds(slots, head, tail, items, p)} | head <= p < head + |slots| ::
         SlotHolds(slots, head, tail, items, p)
  }

  /** The slot of tail decides "full": free for tail while there is room, and still
      carrying the stamp of the previous lap when every slot is taken. */
  lemma TailDecision(slots: seq<Slot>, head: nat, tail: nat, items: seq<Item>)
    requires SlotsHold(slots, head, tail, items) && 2 <= |slots| <= HALF
    ensures SignedDif(slots[tail % |slots|].stamp, tail % WORD) == if |items| < |slots| then 0 else 1 - |slots|
  {
    if |items| < |slots| {
      assert SlotHolds(slots, head, tail, items, tail);
      SignedDifExact(tail, tail);
    } else {
      ModShift(tail, |slots|);
      assert SlotHolds(slots, head, tail, items, head);
      SignedDifExact(head + 1, tail);
    }
  }

  lemma HeadDecision(slots: seq<Slot>, head: nat, tail: nat, items: seq<Item>)
    requires SlotsHold(slots, head, tail, items)
    ensures SignedDif(slots[head % |slots|].stamp, (head % WORD + 1) % WORD) == if |items| > 0 then 0 else -1
  {
    assert SlotHolds(slots, head, tail, items, head);
    ModOfSum(head, 1);
    SignedDifExact(head + 1, head + 1);
    SignedDifExact(head, head + 1);
  }

  lemma Filled(slots: seq<Slot>, head: nat, tail: nat, items: seq<Item>, item: Item)
    requires SlotsHold(slots, head, tail, items) && |items| < |slots|
    ensures SlotsHold(slots[tail % |slots| := Slot((tail + 1) % WORD, item)], head, tail + 1, items + [item])
  {
    var slots', tail', items' := slots[tail % |slots| := Slot((tail + 1) % WORD, item)], tail + 1, items + [item];
    forall p: nat | head <= p < head + |slots| ensures SlotHolds(slots', head, tail', items', p) {
      assert SlotHolds(slots, head, tail, items, p);
      if p != tail {
        OwnIndex(p, tail, |slots|);
      }
    }
  }

  lemma Emptied(slots: seq<Slot>, head: nat, tail: nat, items: seq<Item>)
    requires SlotsHold(slots, head, tail, items) && items != []
    ensures slots[head % |slots|].data == items[0]
    ensures SlotsHold(slots[head % |slots| := slots[head % |slots|].(stamp := (head + |slots|) % WORD)],
                      head + 1, tail, items[1..])
  {
    var slots' := slots[head % |slots| := slots[head % |slots|].(stamp := (head + |slots|) % WORD)];
    var head', items' := head + 1, items[1..];
    assert SlotHolds(slots, head, tail, items, head);
    ModShift(head, |slots|);
    forall p: nat | head' <= p < head' + |slots| ensures SlotHolds(slots', head', tail, items', p) {
      if p < head + |slots| {
        assert SlotHolds(slots, head, tail, items, p);
        OwnIndex(p, head, |slots|);
      }
    }
  }

  /** What a consumer does with the slot its words select. */
  lemma TakesOldest(slots: seq<Slot>, pos: nat, head: nat, tail: nat, items: seq<Item>)
    requires SlotsHold(slots, head, tail, items) && items != [] && pos == head % WORD
    requires IsPow2(|slots|) && |slots| <= HALF
    ensures var i := And(pos, |slots| - 1);
      && i < |slots| && slots[i].data == items[0] && (pos + 1) % WORD == (head + 1) % WORD
      && SlotsHold(slots[i := slots[i].(stamp := (pos + |slots|) % WORD)], head + 1, tail, items[1..])
  {
    MaskOfWord(head, |slots|);
    ModOfSum(head, 1);
    ModOfSum(head, |slots|);
    Emptied(slots, head, tail, items);
  }

  /** What a producer does with the slot its words select. */
  lemma AddsNewest(slots: seq<Slot>, pos: nat, head: nat, tail: nat, items: seq<Item>, item: Item)
    requires SlotsHold(slots, head, tail, items) && |items| < |slots| && pos == tail % WORD
    requires IsPow2(|slots|) && |slots| <= HALF
    ensures var i := And(pos, |slots| - 1);
      && i < |slots| && (pos + 1) % WORD == (tail + 1) % WORD
      && SlotsHold(slots[i := Slot((pos + 1) % WORD, item)], head, tail + 1, items + [item])
  {
    MaskOfWord(tail, |slots|);
    ModOfSum(tail, 1);
    Filled(slots, head, tail, items, item);
  }

  class MpmcRing {
    const capacity: nat
    const buffer: array<Slot>
    var head: nat
    var tail: nat

    // The unbounded positions behind the words head and tail, and the contents.
    ghost var headPos: nat
    ghost var tailPos: nat
    ghost var contents: seq<Item>

    ghost predicate Valid()
      reads this, buffer
    {
      && 2 <= capacity <= HALF && IsPow2(capacity) && buffer.Length == capacity
      && head == headPos % WORD && tail == tailPos % WORD
      && SlotsHold(buffer[..], headPos, tailPos, contents)
    }

    constructor (capacity: nat)
      ensures fresh(buffer) && this.capacity == capacity == buffer.Length
      ensures head == tail == 0 && contents == []
      ensures forall i | 0 <= i < capacity :: buffer[i] == Slot(i, 0)
      ensures 2 <= capacity <= HALF && IsPow2(capacity) ==> Valid()
    {
      this.capacity := capacity;
      buffer := new Slot[capacity](i => Slot(if i < 0 then 0 else i, 0));
      head, tail, headPos, tailPos, contents := 0, 0, 0, 0, [];
      new;
      if 2 <= capacity <= HALF {
        forall p: nat | p < capacity ensures SlotHolds(buffer[..], 0, 0, [], p) {
          ModIs(p, capacity, 0, p);
        }
      }
    }

    /** The retry loop of mpmc_ring_enqueue up to the CAS that succeeds. spurious
        bounds how often the weak CAS fails although tail is unchanged. */
    method AwaitFree(spurious: nat) returns (ok: bool, pos: nat)
      requires Valid()
      ensures pos == tail && ok == (|contents| < capacity)
    {
      var left := spurious;
      pos := tail;
      while true
        decreases left
      {
        pos := tail;
        MaskOfWord(tailPos, capacity);
        var slot := buffer[And(pos, capacity - 1)];
        TailDecision(buffer[..], headPos, tailPos, contents);
        var dif := SignedDif(slot.stamp, pos);
        if dif == 0 {
          if left == 0 {
            return true, pos;
          }
          left := left - 1;
        } else if dif < 0 {
          return false, pos;
        }
      }
    }

    /** mpmc_ring_enqueue without contention. */
    method Enqueue(item: Item, spurious: nat) returns (ok: bool)
      requires Valid()
      modifies this, buffer
      ensures Valid() && ok == (|old(contents)| < capacity)
      ensures contents == old(contents) + if ok then [item] else []
      ensures headPos == old(headPos) && (!ok ==> buffer[..] == old(buffer[..]))
    {
      var pos;
      ok, pos := AwaitFree(spurious);
      if !ok {
        return;
      }
      ghost var before := buffer[..];
      AddsNewest(before, pos, headPos, tailPos, contents, item);
      var i := And(pos, capacity - 1);
      tail := (pos + 1) % WORD;
      buffer[i] := buffer[i].(data := item);
      buffer[i] := buffer[i].(stamp := (pos + 1) % WORD);
      assert buffer[..] == before[i := Slot((pos + 1) % WORD, item)];
      contents, tailPos := contents + [item], tailPos + 1;
    }

    /** The retry loop of mpmc_ring_dequeue up to the CAS that succeeds. */
    method AwaitPublished(spurious: nat) returns (ok: bool, pos: nat)
      requires Valid()
      ensures pos == head && ok == (contents != [])
    {
      var left := spurious;
      pos := head;
      while true
        decreases left
      {
        pos := head;
        MaskOfWord(headPos, capacity);
        var slot := buffer[And(pos, capacity - 1)];
        HeadDecision(buffer[..], headPos, tailPos, contents);
        var dif := SignedDif(slot.stamp, (pos + 1) % WORD);
        if dif == 0 {
          if left == 0 {
            return true, pos;
          }
          left := left - 1;
        } else if dif < 0 {
          return false, pos;
        }
      }
    }

    /** mpmc_ring_dequeue without contention. */
    method Dequeue(spurious: nat) returns (ok: bool, item: Item)
      requires Valid()
      modifies this, buffer
      ensures Valid() && ok == (old(contents) != [])
      ensures if ok then old(contents) == [item] + contents else contents == old(contents)
      ensures tailPos == old(tailPos) && (!ok ==> buffer[..] == old(buffer[..]))
    {
      var pos;
      item := 0;
      ok, pos := AwaitPublished(spurious);
      if !ok {
        return;
      }
      ghost var before := buffer[..];
      TakesOldest(before, pos, headPos, tailPos, contents);
      var i := And(pos, capacity - 1);
      head := (pos + 1) % WORD;
      item := buffer[i].data;
      buffer[i] := buffer[i].(stamp := (pos + capacity) % WORD);
      assert buffer[..] == before[i := before[i].(stamp := (pos + capacity) % WORD)];
      contents, headPos := contents[1..], headPos + 1;
    }
  }

  /** sizeof( ring_slot_t ): a pointer and a counter of eight bytes each. */
  const SLOT_BYTES: nat := 16

  /** The first capacity whose byte count does not fit a word. */
  const TOO_MANY: nat := 0x1000_0000_0000_0000

  /** The byte count asked of the allocator, a size_t, is that of the slots exactly below
      TOO_MANY; from there on it is zero. */
  lemma BytesOfSlots(capacity: nat)
    requires capacity < WORD && (capacity == 0 || IsPow2(capacity))
    ensures SLOT_BYTES * capacity % WORD == SLOT_BYTES * capacity <==> capacity < TOO_MANY
    ensures capacity >= TOO_MANY ==> SLOT_BYTES * capacity % WORD == 0
  {
    if capacity < TOO_MANY {
      ModIs(SLOT_BYTES * capacity, WORD, 0, SLOT_BYTES * capacity);
    } else {
      var q := WordsOfSlots(capacity);
      ModIs(SLOT_BYTES * capacity, WORD, q, 0);
    }
  }

  lemma WordsOfSlots(capacity: nat) returns (q: nat)
    requires IsPow2(capacity) && capacity >= TOO_MANY
    ensures SLOT_BYTES * capacity == q * WORD
  {
    var k: nat :| capacity == Pow2(k);
    WordIsPow2();
    Pow2Sum(60, 4);
    assert Pow2(4) == SLOT_BYTES && Pow2(60) == TOO_MANY;
    if k < 60 {
      Pow2Monotone(k, 60);
    }
    Pow2Sum(k - 60, 60);
    q := Pow2(k - 60);
  }

  /** mpmc_ring_init: null when the capacity fails the power-of-two test or the allocator
      refuses. The test also passes 0 and 1, for which the ring is built but is not a valid
      queue (see RingTheorems.BoundedIffTwoSlots), and capacities whose byte count wraps to
      zero: then the loop that stamps the slots writes outside what was allocated, and
      outside says so instead of a ring. */
  method InitRing(capacity: nat, slotsOk: bool) returns (rb: MpmcRing?, outside: bool)
    requires capacity < WORD
    ensures rb != null || outside <==> (capacity == 0 || IsPow2(capacity)) && slotsOk
    ensures !(rb != null && outside) && (outside ==> capacity >= TOO_MANY) && (rb != null ==> capacity < TOO_MANY)
    ensures rb != null ==> fresh(rb) && fresh(rb.buffer) && rb.capacity == capacity && rb.contents == []
    ensures rb != null && capacity >= 2 ==> rb.Valid()
  {
    PowerOfTwoTest(capacity);
    if And(capacity, (capacity - 1) % WORD) != 0 {
      return null, false;
    }
    if !slotsOk {
      return null, false;
    }
    BytesOfSlots(capacity);
    if SLOT_BYTES * capacity % WORD < SLOT_BYTES * capacity {
      return null, true;
    }
    rb := new MpmcRing(capacity);
    outside := false;
  }
}
