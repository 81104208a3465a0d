/**
  The lock-free single-producer/single-consumer ring (src/containers/spsc_ring.c).

  Part one is the concurrent protocol: the producer and the consumer advance one memory access at a time, in any
  interleaving, an element's bytes are copied one by one, and each side may see an old value of the other's index.
  Part two is the ring as an object used from one thread at a time, over flat storage.
*/
module SpscRing {
  import opened Arith
  import opened Bytes

  // ---- index arithmetic ----

  /** The next slot, (i + 1) & (capacity - 1). */
  function Next(i: nat, cap: nat): nat {
    if i + 1 == cap then 0 else i + 1
  }

  /** The slot n places after i. */
  function Advance(i: nat, n: nat, cap: nat): nat {
    if n == 0 then i else Next(Advance(i, n - 1, cap), cap)
  }

  // ---- masks ----

  /** x & y, bit by bit from the lowest. */
  function And(x: nat, y: nat): nat {
    if x == 0 || y == 0 then 0 else 2 * And(x / 2, y / 2) + if x % 2 == 1 && y % 2 == 1 then 1 else 0
  }

  /** Bit k of a number. */
  predicate BitOf(x: nat, k: nat) {
    if k == 0 then x % 2 == 1 else BitOf(x / 2, k - 1)
  }

  lemma {:induction false} NoBits(k: nat)
    ensures !BitOf(0, k)
  {
    if k > 0 {
      NoBits(k - 1);
    }
  }

  /** And is the bitwise conjunction. */
  lemma {:induction false} AndBits(x: nat, y: nat, k: nat)
    ensures BitOf(And(x, y), k) <==> BitOf(x, k) && BitOf(y, k)
  {
    if x == 0 || y == 0 {
      NoBits(k);
    } else if k > 0 {
      AndBits(x / 2, y / 2, k - 1);
      assert And(x, y) / 2 == And(x / 2, y / 2);
    }
  }

  /** is_pow2. */
  predicate IsPow2(x: nat) {
    x >= 2 && And(x, x - 1) == 0
  }

  function Power2(k: nat): (p: nat)
    ensures p >= 1
  {
    if k == 0 then 1 else 2 * Power2(k - 1)
  }

  lemma {:induction false} AndSelf(x: nat)
    ensures And(x, x) == x
  {
    if x > 0 {
      AndSelf(x / 2);
    }
  }

  /** Masking with 2^k - 1 is the remainder modulo 2^k. */
  lemma {:induction false} MaskIsMod(m: nat, k: nat)
    ensures And(m, Power2(k) - 1) == m % Power2(k)
  {
    if k > 0 {
      var d := Power2(k - 1);
      MaskIsMod(m / 2, k - 1);
      AndDoubles(m, d, And(m / 2, d - 1), 2 * d);
      ModDoubles(m, d, m / 2 % d, 2 * d);
    }
  }

  lemma AndDoubles(m: nat, d: nat, r: nat, e: nat)
    requires d >= 1 && e == 2 * d && r == And(m / 2, d - 1)
    ensures And(m, e - 1) == 2 * r + m % 2
  {
    assert (e - 1) / 2 == d - 1 && (e - 1) % 2 == 1;
  }

  lemma ModDoubles(m: nat, d: nat, r: nat, e: nat)
    requires d >= 1 && e == 2 * d && r == m / 2 % d
    ensures m % e == 2 * r + m % 2
  {
    var q := m / 2 / d;
    DivBounds(m / 2, d);
    assert q * e == 2 * (q * d);
    DivUnique(m, q, e);
  }

  lemma {:induction false} Pow2IsPower(x: nat) returns (k: nat)
    requires IsPow2(x)
    ensures k >= 1 && x == Power2(k)
  {
    if x % 2 == 1 {
      assert (x - 1) / 2 == x / 2;
      AndSelf(x / 2);
      assert false;
    } else if x == 2 {
      k := 1;
      assert Power2(0) == 1;
    } else {
      assert (x - 1) / 2 == x / 2 - 1;
      k := Pow2IsPower(x / 2);
      k := k + 1;
    }
  }

  lemma {:induction false} PowerIsPow2(k: nat)
    requires k >= 1
    ensures IsPow2(Power2(k))
  {
    var x := Power2(k);
    assert x == 2 * Power2(k - 1);
    if k > 1 {
      PowerIsPow2(k - 1);
      assert (x - 1) / 2 == x / 2 - 1;
    }
  }

  /** The accepted capacities are 2, 4, 8 and so on. */
  lemma PowerOfTwoIff(x: nat)
    ensures IsPow2(x) <==> exists k :: k >= 1 && x == Power2(k)
  {
    if IsPow2(x) {
      var k := Pow2IsPower(x);
    }
    forall k: nat | k >= 1 && x == Power2(k)
      ensures IsPow2(x)
    {
      PowerIsPow2(k);
    }
  }

  /** For every capacity the ring accepts, the mask wraps an index exactly as Next does. */
  lemma MaskedIncrement(i: nat, cap: nat)
    requires IsPow2(cap) && i < cap
    ensures And(i + 1, cap - 1) == Next(i, cap)
  {
    var k := Pow2IsPower(cap);
    MaskIsMod(i + 1, k);
    DivUnique(i + 1, if i + 1 == cap then 1 else 0, cap);
  }

  // ---- positions ----

  lemma {:induction false} AdvanceIs(i: nat, n: nat, cap: nat)
    requires i < cap && n <= cap
    ensures Advance(i, n, cap) == if i + n < cap then i + n else i + n - cap
  {
    if n > 0 {
      AdvanceIs(i, n - 1, cap);
    }
  }

  lemma {:induction false} AdvanceInRange(i: nat, n: nat, cap: nat)
    requires i < cap
    ensures Advance(i, n, cap) < cap
  {
    if n > 0 {
      AdvanceInRange(i, n - 1, cap);
    }
  }

  lemma {:induction false} AdvanceAdds(i: nat, m: nat, n: nat, cap: nat)
    ensures Advance(Advance(i, m, cap), n, cap) == Advance(i, m + n, cap)
  {
    if n > 0 {
      AdvanceAdds(i, m, n - 1, cap);
    }
  }

  /** Up to a full turn apart, two positions are the same slot only if they are equal or exactly a turn apart. */
  lemma AdvanceMeets(i: nat, m: nat, n: nat, cap: nat)
    requires i < cap && m <= n <= m + cap
    ensures Advance(i, m, cap) == Advance(i, n, cap) <==> n == m || n == m + cap
  {
    AdvanceInRange(i, m, cap);
    AdvanceAdds(i, m, n - m, cap);
    AdvanceIs(Advance(i, m, cap), n - m, cap);
  }

  // ---- the protocol ----

  /** Where the producer stands inside spsc_ring_push. */
  datatype Producer<T> = Away | Writing(elem: seq<T>, done: nat)

  /** Where the consumer stands inside spsc_ring_pop. */
  datatype Consumer<T> = Idle | Reading(got: seq<T>)

  /** The shared ring and, for the proof, the history: the elements published by the producer and those taken by the
      consumer, and how much of the other side's history each side has seen so far. */
  datatype State<T> = State(
    cap: nat, size: nat, storage: seq<seq<T>>, head: nat, tail: nat, producer: Producer<T>, consumer: Consumer<T>,
    pushed: seq<seq<T>>, popped: seq<seq<T>>, popsSeen: nat, pushesSeen: nat)

  /** One memory access. `seen` is the number of pops (pushes) whose effect on the index an acquire load returns: any
      value between what that side saw last and what is published now. */
  datatype Step<T> =
    | BeginPush(elem: seq<T>, seen: nat)
    | WriteByte
    | PublishPush
    | BeginPop(seen: nat)
    | ReadByte
    | PublishPop

  predicate Enabled<T>(s: State<T>, step: Step<T>) {
    match step
    case BeginPush(elem, seen) => s.producer.Away? && |elem| == s.size && s.popsSeen <= seen <= |s.popped|
    case WriteByte => s.producer.Writing? && s.producer.done < s.size
    case PublishPush => s.producer.Writing? && s.producer.done == s.size
    case BeginPop(seen) => s.consumer.Idle? && s.pushesSeen <= seen <= |s.pushed|
    case ReadByte => s.consumer.Reading? && |s.consumer.got| < s.size
    case PublishPop => s.consumer.Reading? && |s.consumer.got| == s.size
  }

  predicate Shaped<T>(s: State<T>) {
    && s.cap >= 2 && |s.storage| == s.cap && s.head < s.cap && s.tail < s.cap
    && (forall i :: 0 <= i < s.cap ==> |s.storage[i]| == s.size)
    && (s.producer.Writing? ==> |s.producer.elem| == s.size)
  }

  function Apply<T>(s: State<T>, step: Step<T>): (s': State<T>)
    requires Shaped(s) && Enabled(s, step)
  {
    match step
    case BeginPush(elem, seen) =>
      if Next(s.head, s.cap) == Advance(0, seen, s.cap) then s.(popsSeen := seen)
      else s.(popsSeen := seen, producer := Writing(elem, 0))
    case WriteByte =>
      var k := s.producer.done;
      s.(storage := s.storage[s.head := s.storage[s.head][k := s.producer.elem[k]]],
         producer := Writing(s.producer.elem, k + 1))
    case PublishPush =>
      s.(head := Next(s.head, s.cap), producer := Away, pushed := s.pushed + [s.producer.elem])
    case BeginPop(seen) =>
      if s.tail == Advance(0, seen, s.cap) then s.(pushesSeen := seen)
      else s.(pushesSeen := seen, consumer := Reading([]))
    case ReadByte =>
      s.(consumer := Reading(s.consumer.got + [s.storage[s.tail][|s.consumer.got|]]))
    case PublishPop =>
      s.(tail := Next(s.tail, s.cap), consumer := Idle, popped := s.popped + [s.consumer.got])
  }

  /** What every interleaving keeps. */
  ghost predicate Inv<T>(s: State<T>) {
    && Shaped(s)
    && s.popsSeen <= |s.popped| <= s.pushesSeen <= |s.pushed|
    && |s.pushed| - s.popsSeen <= s.cap - 1
    && s.popped <= s.pushed
    && s.head == Advance(0, |s.pushed|, s.cap) && s.tail == Advance(0, |s.popped|, s.cap)
    && (forall j :: |s.popped| <= j < |s.pushed| ==> s.storage[SlotOf(s, j)] == s.pushed[j])
    && ProducerOk(s) && ConsumerOk(s)
  }

  /** The slot of the j-th element ever pushed. */
  function SlotOf<T>(s: State<T>, j: nat): (i: nat)
    requires s.cap >= 1
    ensures i < s.cap
  {
    AdvanceInRange(0, j, s.cap);
    Advance(0, j, s.cap)
  }

  ghost predicate ProducerOk<T>(s: State<T>)
    requires Shaped(s)
  {
    match s.producer
    case Away => true
    case Writing(elem, done) =>
      && done <= s.size && |s.pushed| - s.popsSeen <= s.cap - 2
      && s.storage[s.head][..done] == elem[..done]
  }

  ghost predicate ConsumerOk<T>(s: State<T>) {
    match s.consumer
    case Idle => true
    case Reading(got) => |s.popped| < s.pushesSeen <= |s.pushed| && got <= s.pushed[|s.popped|]
  }

  /** A push finds the ring full exactly if, as far as it has seen, all capacity - 1 usable slots are taken. */
  lemma BeginPushKeeps<T>(s: State<T>, step: Step<T>)
    requires Inv(s) && Enabled(s, step) && step.BeginPush?
    ensures Inv(Apply(s, step))
    ensures Apply(s, step).producer.Away? <==> |s.pushed| - step.seen == s.cap - 1
  {
    AdvanceMeets(0, step.seen, |s.pushed| + 1, s.cap);
    var s' := Apply(s, step);
    assert forall j :: |s.popped| <= j < |s.pushed| ==> SlotOf(s', j) == SlotOf(s, j);
  }

  lemma WriteByteKeeps<T>(s: State<T>, step: Step<T>)
    requires Inv(s) && Enabled(s, step) && step.WriteByte?
    ensures Inv(Apply(s, step))
  {
    var s' := Apply(s, step);
    forall j | |s.popped| <= j < |s.pushed|
      ensures s'.storage[SlotOf(s', j)] == s.pushed[j]
    {
      AdvanceMeets(0, j, |s.pushed|, s.cap);
      assert SlotOf(s', j) == SlotOf(s, j);
    }
    var k, row := s.producer.done, s.storage[s.head];
    assert row[k := s.producer.elem[k]][..k + 1] == row[..k] + [s.producer.elem[k]];
    assert s.producer.elem[..k + 1] == s.producer.elem[..k] + [s.producer.elem[k]];
  }

  lemma PublishPushKeeps<T>(s: State<T>, step: Step<T>)
    requires Inv(s) && Enabled(s, step) && step.PublishPush?
    ensures Inv(Apply(s, step))
  {
    var s' := Apply(s, step);
    assert s.storage[s.head] == s.storage[s.head][..s.size] == s.producer.elem[..s.size] == s.producer.elem;
    forall j | |s'.popped| <= j < |s'.pushed|
      ensures s'.storage[SlotOf(s', j)] == s'.pushed[j]
    {
      assert SlotOf(s', j) == SlotOf(s, j);
    }
    assert s.pushed <= s'.pushed;
  }

  /** A pop finds the ring empty exactly if, as far as it has seen, everything pushed has been taken. */
  lemma BeginPopKeeps<T>(s: State<T>, step: Step<T>)
    requires Inv(s) && Enabled(s, step) && step.BeginPop?
    ensures Inv(Apply(s, step))
    ensures Apply(s, step).consumer.Idle? <==> step.seen == |s.popped|
  {
    AdvanceMeets(0, |s.popped|, step.seen, s.cap);
    var s' := Apply(s, step);
    assert forall j :: |s.popped| <= j < |s.pushed| ==> SlotOf(s', j) == SlotOf(s, j);
  }

  lemma ReadByteKeeps<T>(s: State<T>, step: Step<T>)
    requires Inv(s) && Enabled(s, step) && step.ReadByte?
    ensures Inv(Apply(s, step))
  {
    var s', got, e := Apply(s, step), s.consumer.got, s.pushed[|s.popped|];
    assert s.storage[s.tail] == e by { assert SlotOf(s, |s.popped|) == s.tail; }
    assert got == e[..|got|];
    assert got + [e[|got|]] == e[..|got| + 1];
    assert forall j :: |s.popped| <= j < |s.pushed| ==> SlotOf(s', j) == SlotOf(s, j);
  }

  lemma PublishPopKeeps<T>(s: State<T>, step: Step<T>)
    requires Inv(s) && Enabled(s, step) && step.PublishPop?
    ensures Inv(Apply(s, step))
  {
    var s', got, e := Apply(s, step), s.consumer.got, s.pushed[|s.popped|];
    assert |e| == s.size by { assert s.storage[SlotOf(s, |s.popped|)] == e; }
    assert got == e;
    assert s.popped + [e] == s.pushed[..|s.popped| + 1];
    assert forall j :: |s.popped| <= j < |s.pushed| ==> SlotOf(s', j) == SlotOf(s, j);
  }

  lemma StepKeeps<T>(s: State<T>, step: Step<T>)
    requires Inv(s) && Enabled(s, step)
    ensures Inv(Apply(s, step))
  {
    match step {
      case BeginPush(_, _) => BeginPushKeeps(s, step);
      case WriteByte => WriteByteKeeps(s, step);
      case PublishPush => PublishPushKeeps(s, step);
      case BeginPop(_) => BeginPopKeeps(s, step);
      case ReadByte => ReadByteKeeps(s, step);
      case PublishPop => PublishPopKeeps(s, step);
    }
  }

  // ---- every interleaving ----

  ghost predicate Initial<T>(s: State<T>) {
    && Shaped(s) && s.head == s.tail == 0 && s.producer.Away? && s.consumer.Idle?
    && s.pushed == [] && s.popped == [] && s.popsSeen == s.pushesSeen == 0
  }

  ghost predicate IsRun<T>(s: State<T>, steps: seq<Step<T>>)
    requires Inv(s)
    decreases |steps|
  {
    steps == [] || (Enabled(s, steps[0]) && (StepKeeps(s, steps[0]); IsRun(Apply(s, steps[0]), steps[1..])))
  }

  ghost function RunFrom<T>(s: State<T>, steps: seq<Step<T>>): (s': State<T>)
    requires Inv(s) && IsRun(s, steps)
    ensures Inv(s') && s'.cap == s.cap
    decreases |steps|
  {
    if steps == [] then s else (StepKeeps(s, steps[0]); RunFrom(Apply(s, steps[0]), steps[1..]))
  }

  /** Whatever the interleaving and however stale the indices: what the consumer took is a prefix of what the producer
      published, at most capacity - 1 elements are live, and the two sides never touch the same slot at once. */
  lemma EveryRunIsFifo<T>(s: State<T>, steps: seq<Step<T>>)
    requires Initial(s)
    ensures Inv(s)
    ensures IsRun(s, steps) ==>
              var s' := RunFrom(s, steps);
              && s'.popped <= s'.pushed && |s'.pushed| - |s'.popped| <= s.cap - 1
              && (s'.producer.Writing? && s'.consumer.Reading? ==> s'.head != s'.tail)
  {
    if IsRun(s, steps) {
      var s' := RunFrom(s, steps);
      AdvanceMeets(0, |s'.popped|, |s'.pushed|, s.cap);
    }
  }

  // ---- the ring as an object ----

  class Ring<T(0)> {
    const storage: array<T>
    const capacity: nat
    const elementSize: nat
    var head: nat
    var tail: nat
    ghost var contents: seq<seq<T>>

    ghost predicate Valid()
      reads this, storage
    {
      && capacity >= 2 && elementSize >= 1 && Times(capacity, elementSize) <= storage.Length
      && tail < capacity && |contents| < capacity && head == Advance(tail, |contents|, capacity)
      && forall j :: 0 <= j < |contents| ==> Holds(storage[..], Advance(tail, j, capacity), elementSize, contents[j])
    }

    /** The fields spsc_ring_init sets once it has accepted its arguments. */
    constructor Init(storage: array<T>, capacity: nat, elementSize: nat)
      requires capacity >= 2 && elementSize >= 1 && Times(capacity, elementSize) <= storage.Length
      ensures Valid() && contents == []
      ensures this.storage == storage && this.capacity == capacity && this.elementSize == elementSize
    {
      this.storage, this.capacity, this.elementSize := storage, capacity, elementSize;
      head, tail, contents := 0, 0, [];
    }

    /** spsc_ring_push: refuses on full, and then changes nothing. */
    method Push(element: array<T>) returns (ok: bool)
      requires Valid() && element.Length == elementSize && element != storage
      modifies this`head, this`contents, storage
      ensures Valid()
      ensures ok <==> |old(contents)| < capacity - 1
      ensures ok ==> contents == old(contents) + [element[..]]
      ensures !ok ==> contents == old(contents) && head == old(head) && storage[..] == old(storage[..])
    {
      AdvanceInRange(tail, |contents|, capacity);
      AdvanceMeets(tail, 0, |contents| + 1, capacity);
      var next := Next(head, capacity);
      if next == tail {
        return false;
      }
      ghost var before := storage[..];
      TimesMonotone(head, capacity, elementSize);
      TimesIsProduct(head, elementSize);
      CopyIn(element, storage, head * elementSize);
      forall j | 0 <= j < |contents|
        ensures Holds(storage[..], Advance(tail, j, capacity), elementSize, contents[j])
      {
        AdvanceMeets(tail, j, |contents|, capacity);
        AdvanceInRange(tail, j, capacity);
        OtherSlotKept(before, storage[..], head, element[..], Advance(tail, j, capacity), elementSize, contents[j]);
      }
      contents := contents + [element[..]];
      head := next;
      ok := true;
    }

    /** spsc_ring_pop: the oldest element; refuses on empty and then leaves `out` alone. */
    method Pop(out: array<T>) returns (ok: bool)
      requires Valid() && out.Length == elementSize && out != storage
      modifies this`tail, this`contents, out
      ensures Valid()
      ensures ok <==> old(contents) != []
      ensures ok ==> out[..] == old(contents)[0] && contents == old(contents)[1..]
      ensures !ok ==> contents == old(contents) && out[..] == old(out[..])
    {
      AdvanceMeets(tail, 0, |contents|, capacity);
      if tail == head {
        return false;
      }
      assert Advance(tail, 0, capacity) == tail;
      assert Holds(storage[..], tail, elementSize, contents[0]);
      TimesMonotone(tail, capacity, elementSize);
      TimesIsProduct(tail, elementSize);
      CopyOut(storage, tail * elementSize, out);
      assert out[..] == contents[0];
      var next := Next(tail, capacity);
      assert Advance(tail, 1, capacity) == next by { assert Advance(tail, 0, capacity) == tail; }
      forall j | 0 <= j <= |contents| - 1
        ensures Advance(next, j, capacity) == Advance(tail, j + 1, capacity)
      {
        AdvanceAdds(tail, 1, j, capacity);
      }
      contents := contents[1..];
      tail := next;
      ok := true;
    }
  }

  /** Slot `i` of the flat storage holds the element `e`. */
  ghost predicate Holds<T>(storage: seq<T>, i: nat, size: nat, e: seq<T>) {
    && |e| == size && Times(i, size) + size <= |storage|
    && forall k :: 0 <= k < size ==> storage[Times(i, size) + k] == e[k]
  }

  /** spsc_ring_init: no ring for a zero element size or a capacity that is not a power of two, and an empty one
      otherwise. */
  method InitRing<T(0)>(storage: array<T>, capacity: nat, elementSize: nat) returns (r: Ring?<T>)
    requires Times(capacity, elementSize) <= storage.Length
    ensures r == null <==> elementSize == 0 || !IsPow2(capacity)
    ensures r != null ==>
              && fresh(r) && r.Valid() && r.contents == []
              && r.storage == storage && r.capacity == capacity && r.elementSize == elementSize
  {
    if elementSize == 0 || !IsPow2(capacity) {
      return null;
    }
    r := new Ring.Init(storage, capacity, elementSize);
  }

  /** Writing slot `h` leaves every other slot alone. */
  lemma OtherSlotKept<T>(before: seq<T>, after: seq<T>, h: nat, w: seq<T>, i: nat, size: nat, e: seq<T>)
    requires |w| == size && Overwritten(before, after, Times(h, size), w)
    requires Holds(before, i, size, e) && i != h
    ensures Holds(after, i, size, e)
  {
    TimesMonotone(h, i, size);
    TimesMonotone(i, h, size);
  }

  method CopyIn<T>(src: array<T>, dst: array<T>, at: nat)
    requires src != dst && at + src.Length <= dst.Length
    modifies dst
    ensures Overwritten(old(dst[..]), dst[..], at, src[..])
  {
    forall k | 0 <= k < src.Length {
      dst[at + k] := src[k];
    }
  }

  method CopyOut<T>(src: array<T>, from: nat, dst: array<T>)
    requires src != dst && from + dst.Length <= src.Length
    modifies dst
    ensures forall k :: 0 <= k < dst.Length ==> dst[k] == src[from + k]
  {
    forall k | 0 <= k < dst.Length {
      dst[k] := src[from + k];
    }
  }
}
