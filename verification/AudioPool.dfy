/**
  The block pool behind the audio service (src/audio/audio_pool.c).

  Audio memory is carved into fixed-size blocks. An object owns a chain of blocks threaded through the
  out-of-band arrays `owner` and `next`; `used` is the block free-map and `objects` the descriptor table.

  `Blocks` and `Table` are the two halves of the bookkeeping as plain values, with the effect of every step on
  them and the invariants those steps keep. The class `Pool` holds the arrays and updates them in place.
*/
module AudioPool {
  import opened Arith
  import opened Bytes
  import opened ChainBytes
  import Bitset

  // ---- constants and handles ----

  const NO_BLOCK: nat := 0xFFFF_FFFF
  const HANDLE_NONE: nat := 0
  const U32: nat := 0x1_0000_0000
  const GEN_RANGE: nat := 0x1_0000

  datatype Option<T> = None | Some(value: T)

  datatype Result = Ok | NoSpace | NoObjects | BadHandle

  datatype Object = Object(
    head: nat, size: nat, nblocks: nat, refcount: int, generation: nat, ownerVm: nat, inUse: bool, sampleRate: nat)

  const FRESH := Object(0, 0, 0, 0, 0, 0, false, 0)
  const FREED := Object(NO_BLOCK, 0, 0, 0, 0, 0, false, 0)

  function PackHandle(slot: nat, gen: nat): nat {
    gen * 0x1_0000 + (slot + 1)
  }

  function UnpackHandle(h: nat): Option<(nat, nat)> {
    if h == HANDLE_NONE || h % 0x1_0000 == 0 then None else Some((h % 0x1_0000 - 1, h / 0x1_0000))
  }

  /** The slot a handle names, if that slot is live and its generation matches. */
  function Resolve(objs: seq<Object>, h: nat): (r: Option<nat>)
    ensures r.Some? ==> r.value < |objs| && objs[r.value].inUse
  {
    match UnpackHandle(h)
    case None => None
    case Some((slot, gen)) =>
      if slot < |objs| && objs[slot].inUse && objs[slot].generation == gen then Some(slot) else None
  }

  /** A handle issued for (slot, gen) resolves to that slot exactly while the slot is live in that generation. */
  lemma PackedHandleResolves(objs: seq<Object>, slot: nat, gen: nat)
    requires slot < |objs| <= 0xFFFF
    ensures PackHandle(slot, gen) != HANDLE_NONE
    ensures PackHandle(slot, gen) % 0x1_0000 == slot + 1 && PackHandle(slot, gen) / 0x1_0000 == gen
    ensures Resolve(objs, PackHandle(slot, gen)) ==
            if objs[slot].inUse && objs[slot].generation == gen then Some(slot) else None
  {
    var h := PackHandle(slot, gen);
    assert h % 0x1_0000 == slot + 1 && h / 0x1_0000 == gen;
  }

  /** Whatever resolves was packed from the slot it resolves to: no two handles alias one live object. */
  lemma ResolvedHandleIsPacked(objs: seq<Object>, h: nat)
    requires Resolve(objs, h).Some?
    ensures var s := Resolve(objs, h).value; h == PackHandle(s, objs[s].generation)
  {
  }

  // ---- generations ----

  function BumpGeneration(g: nat): nat {
    if (g + 1) % GEN_RANGE == 0 then 1 else (g + 1) % GEN_RANGE
  }

  /** The generation of a slot after k frees. */
  function GenerationAfter(g: nat, k: nat): nat {
    if k == 0 then g else BumpGeneration(GenerationAfter(g, k - 1))
  }

  lemma NextMod(x: nat, d: nat)
    requires d > 1
    ensures (x + 1) % d == if x % d + 1 == d then 0 else x % d + 1
  {
    var q, m := x / d, x % d;
    DivBounds(x, d);
    if m + 1 == d {
      assert (q + 1) * d == q * d + d;
      DivUnique(x + 1, q + 1, d);
    } else {
      DivUnique(x + 1, q, d);
    }
  }

  lemma {:induction false} GenerationClosedForm(g: nat, k: nat)
    requires 1 <= g < GEN_RANGE
    ensures GenerationAfter(g, k) == (g - 1 + k) % 0xFFFF + 1
  {
    if k != 0 {
      GenerationClosedForm(g, k - 1);
      var x := g - 1 + (k - 1);
      NextMod(x, 0xFFFF);
      BumpIs(x % 0xFFFF);
    }
  }

  lemma BumpIs(m: nat)
    requires m < 0xFFFF
    ensures BumpGeneration(m + 1) == if m + 1 == 0xFFFF then 1 else m + 2
  {
  }

  /** A stale handle is mistaken for a live one exactly when the frees in between are a multiple of 65535: one
      short of the 65536 the source's comment gives, because generation 0 is skipped. */
  lemma StaleHandleCollision(g: nat, k: nat)
    requires 1 <= g < GEN_RANGE
    ensures GenerationAfter(g, k) == g <==> k % 0xFFFF == 0
    ensures 1 <= GenerationAfter(g, k) < GEN_RANGE
  {
    GenerationClosedForm(g, k);
    var m, q := k % 0xFFFF, k / 0xFFFF;
    assert g - 1 + k == (g - 1 + m) + q * 0xFFFF;
    DivAddMultiple(g - 1 + m, q, 0xFFFF);
  }

  // ---- the block map ----

  datatype Blocks = Blocks(owner: seq<nat>, next: seq<nat>, used: seq<bool>, free: int)

  function CountClear(used: seq<bool>): nat {
    if used == [] then 0 else (if used[0] then 0 else 1) + CountClear(used[1..])
  }

  lemma {:induction false} CountClearUpdate(used: seq<bool>, i: nat, v: bool)
    requires i < |used| && used[i] != v
    ensures CountClear(used[i := v]) == CountClear(used) + (if v then -1 else 1)
  {
    if i == 0 {
      assert used[i := v][1..] == used[1..];
    } else {
      assert used[i := v][1..] == used[1..][i - 1 := v];
      CountClearUpdate(used[1..], i - 1, v);
    }
  }

  lemma {:induction false} CountClearPositive(used: seq<bool>)
    ensures CountClear(used) > 0 <==> exists i :: 0 <= i < |used| && !used[i]
  {
    if used != [] {
      CountClearPositive(used[1..]);
      assert forall i :: 1 <= i < |used| ==> used[i] == used[1..][i - 1];
    }
  }

  lemma {:induction false} CountClearAll(used: seq<bool>)
    requires forall i :: 0 <= i < |used| ==> !used[i]
    ensures CountClear(used) == |used|
  {
    if used != [] {
      CountClearAll(used[1..]);
    }
  }

  /** The block after position k of a chain. */
  function Successor(c: seq<nat>, k: nat): nat
    requires k < |c|
  {
    if k + 1 < |c| then c[k + 1] else NO_BLOCK
  }

  /** The i-th block of a chain, NO_BLOCK past its end. */
  function BlockAt(c: seq<nat>, i: nat): nat {
    if i < |c| then c[i] else NO_BLOCK
  }

  /** `c` is the chain of slot `s`: `next` threads it from its first block to NO_BLOCK. */
  ghost predicate ChainOk(b: Blocks, s: nat, c: seq<nat>) {
    && |b.owner| == |b.next| == |b.used|
    && (forall k :: 0 <= k < |c| ==> c[k] < |b.owner| && b.owner[c[k]] == s && b.used[c[k]])
    && (forall k {:trigger b.next[c[k]]} :: 0 <= k < |c| ==> b.next[c[k]] == Successor(c, k))
  }

  /** Every block is free, or it belongs to the chain of exactly one slot, the one `owner` names. */
  ghost predicate BlocksOk(b: Blocks, chains: seq<seq<nat>>) {
    && |b.owner| == |b.next| == |b.used| <= NO_BLOCK
    && |chains| < NO_BLOCK
    && (forall s :: 0 <= s < |chains| ==> ChainOk(b, s, chains[s]))
    && (forall i :: 0 <= i < |b.owner| ==>
          if b.used[i] then b.owner[i] < |chains| && i in chains[b.owner[i]]
          else b.owner[i] == NO_BLOCK && b.next[i] == NO_BLOCK)
    && b.free == CountClear(b.used)
  }

  lemma FreshBlocks(b: Blocks, chains: seq<seq<nat>>)
    requires |b.owner| == |b.next| == |b.used| <= NO_BLOCK && |chains| < NO_BLOCK && b.free == CountClear(b.used)
    requires forall i :: 0 <= i < |b.owner| ==> b.owner[i] == b.next[i] == NO_BLOCK && !b.used[i]
    requires forall s :: 0 <= s < |chains| ==> chains[s] == []
    ensures BlocksOk(b, chains)
  {
  }

  /** A chain that ends in NO_BLOCK has no cycle: it visits no block twice. */
  lemma {:induction false} ChainAcyclic(b: Blocks, s: nat, c: seq<nat>, i: nat, j: nat)
    requires |b.owner| <= NO_BLOCK && ChainOk(b, s, c) && i < j < |c|
    ensures c[i] != c[j]
    decreases |c| - j
  {
    assert b.next[c[i]] == Successor(c, i) && b.next[c[j]] == Successor(c, j);
    if j + 1 < |c| {
      ChainAcyclic(b, s, c, i + 1, j + 1);
    }
  }

  /** No block lies in two chains. */
  lemma ChainsDisjoint(b: Blocks, chains: seq<seq<nat>>, s: nat, t: nat, i: nat, j: nat)
    requires BlocksOk(b, chains)
    requires s < |chains| && t < |chains| && i < |chains[s]| && j < |chains[t]|
    ensures chains[s][i] == chains[t][j] <==> s == t && i == j
  {
    assert ChainOk(b, s, chains[s]) && ChainOk(b, t, chains[t]);
    if chains[s][i] == chains[t][j] {
      assert s == t;
      if i < j {
        ChainAcyclic(b, s, chains[s], i, j);
      } else if j < i {
        ChainAcyclic(b, s, chains[s], j, i);
      }
    }
  }

  /** Effect of linking a free block `i` at the end of chain `c` of slot `s`. */
  function LinkBlock(b: Blocks, c: seq<nat>, s: nat, i: nat): Blocks
    requires |b.owner| == |b.next| == |b.used|
    requires i < |b.owner|
    requires c != [] ==> c[|c| - 1] < |b.next|
  {
    var next := b.next[i := NO_BLOCK];
    Blocks(b.owner[i := s], if c == [] then next else next[c[|c| - 1] := i], b.used[i := true], b.free - 1)
  }

  lemma LinkBlockChain(b: Blocks, c: seq<nat>, s: nat, i: nat)
    requires |b.owner| <= NO_BLOCK && ChainOk(b, s, c) && i < |b.owner| && !b.used[i]
    ensures c != [] ==> c[|c| - 1] < |b.next|
    ensures ChainOk(LinkBlock(b, c, s, i), s, c + [i])
  {
    forall k | 0 <= k < |c| - 1
      ensures c[k] != c[|c| - 1]
    {
      ChainAcyclic(b, s, c, k, |c| - 1);
    }
    assert forall k :: 0 <= k < |c| ==> c[k] != i;
  }

  lemma LinkBlockOwners(b: Blocks, chains: seq<seq<nat>>, s: nat, i: nat, j: nat)
    requires BlocksOk(b, chains) && s < |chains| && i < |b.owner| && !b.used[i]
    requires chains[s] != [] ==> chains[s][|chains[s]| - 1] < |b.next|
    requires j < |b.owner| && (b.used[j] || j == i)
    ensures var b' := LinkBlock(b, chains[s], s, i);
            var chains' := chains[s := chains[s] + [i]];
            b'.owner[j] < |chains'| && j in chains'[b'.owner[j]]
  {
    if j == i {
      assert (chains[s] + [i])[|chains[s]|] == i;
    }
  }

  lemma LinkBlockKeeps(b: Blocks, chains: seq<seq<nat>>, s: nat, i: nat)
    requires BlocksOk(b, chains) && s < |chains| && i < |b.owner| && !b.used[i]
    ensures chains[s] != [] ==> chains[s][|chains[s]| - 1] < |b.next|
    ensures BlocksOk(LinkBlock(b, chains[s], s, i), chains[s := chains[s] + [i]])
  {
    var c := chains[s];
    assert ChainOk(b, s, c);
    LinkBlockChain(b, c, s, i);
    var b', chains' := LinkBlock(b, c, s, i), chains[s := c + [i]];
    CountClearUpdate(b.used, i, true);
    forall t | 0 <= t < |chains'|
      ensures ChainOk(b', t, chains'[t])
    {
      assert ChainOk(b, t, chains[t]);
    }
    forall j | 0 <= j < |b'.owner|
      ensures if b'.used[j] then b'.owner[j] < |chains'| && j in chains'[b'.owner[j]]
              else b'.owner[j] == NO_BLOCK && b'.next[j] == NO_BLOCK
    {
      if b.used[j] || j == i {
        LinkBlockOwners(b, chains, s, i, j);
      } else {
        assert c != [] ==> b.used[c[|c| - 1]];
      }
    }
  }

  /** Effect of free_one_block. */
  function FreeBlock(b: Blocks, i: nat): Blocks
    requires |b.owner| == |b.next| == |b.used|
    requires i < |b.owner|
  {
    Blocks(b.owner[i := NO_BLOCK], b.next[i := NO_BLOCK], b.used[i := false],
           if b.used[i] then b.free + 1 else b.free)
  }

  lemma FreeBlockChain(b: Blocks, c: seq<nat>, s: nat)
    requires |b.owner| <= NO_BLOCK && ChainOk(b, s, c) && c != []
    ensures ChainOk(FreeBlock(b, c[0]), s, c[1..])
  {
    forall k | 0 < k < |c|
      ensures c[k] != c[0]
    {
      ChainAcyclic(b, s, c, 0, k);
    }
    var d, b' := c[1..], FreeBlock(b, c[0]);
    forall k | 0 <= k < |d|
      ensures d[k] < |b'.owner| && b'.owner[d[k]] == s && b'.used[d[k]] && b'.next[d[k]] == Successor(d, k)
    {
      assert d[k] == c[k + 1] != c[0];
      assert b.next[c[k + 1]] == Successor(c, k + 1);
    }
  }

  lemma FreeBlockKeeps(b: Blocks, chains: seq<seq<nat>>, s: nat)
    requires BlocksOk(b, chains) && s < |chains| && chains[s] != []
    ensures chains[s][0] < |b.owner| && b.used[chains[s][0]]
    ensures b.next[chains[s][0]] == Successor(chains[s], 0)
    ensures BlocksOk(FreeBlock(b, chains[s][0]), chains[s := chains[s][1..]])
  {
    var c := chains[s];
    assert ChainOk(b, s, c);
    var i := c[0];
    var b', chains' := FreeBlock(b, i), chains[s := c[1..]];
    CountClearUpdate(b.used, i, false);
    FreeBlockChain(b, c, s);
    forall t | 0 <= t < |chains'|
      ensures ChainOk(b', t, chains'[t])
    {
      assert ChainOk(b, t, chains[t]);
    }
    forall j | 0 <= j < |b'.owner| && b'.used[j]
      ensures b'.owner[j] < |chains'| && j in chains'[b'.owner[j]]
    {
      FreeBlockOwners(b, chains, s, j);
    }
  }

  lemma FreeBlockOwners(b: Blocks, chains: seq<seq<nat>>, s: nat, j: nat)
    requires BlocksOk(b, chains) && s < |chains| && chains[s] != [] && j < |b.owner| && b.used[j] && j != chains[s][0]
    ensures b.owner[j] < |chains| && j in chains[s := chains[s][1..]][b.owner[j]]
  {
    var c := chains[s];
    if b.owner[j] == s {
      var k :| 0 <= k < |c| && c[k] == j;
      assert c[1..][k - 1] == j;
    }
  }

  // ---- the descriptor table ----

  datatype Table = Table(objs: seq<Object>, gens: seq<nat>)

  /** Blocks for `size` bytes as the 32-bit code computes them: the addition wraps. */
  function BlocksNeeded(size: nat, bs: nat): (n: nat)
    requires 1 <= bs
    ensures n >= 1
  {
    var n := ((size + bs - 1) % U32) / bs;
    if n == 0 then 1 else n
  }

  /** ceil(size / bs), at least one. */
  function CeilBlocks(size: nat, bs: nat): nat
    requires 1 <= bs
  {
    if size == 0 then 1 else (size - 1) / bs + 1
  }

  lemma CeilBlocksBounds(size: nat, bs: nat)
    requires 1 <= bs && size >= 1
    ensures size <= CeilBlocks(size, bs) * bs < size + bs
  {
    DivBounds(size - 1, bs);
    assert ((size - 1) / bs + 1) * bs == (size - 1) / bs * bs + bs;
  }

  lemma BlocksNeededInRange(size: nat, bs: nat)
    requires 1 <= bs && size + bs - 1 < U32
    ensures BlocksNeeded(size, bs) == CeilBlocks(size, bs)
  {
    var sum := size + bs - 1;
    DivUnique(sum, 0, U32);
    RoundUp(size, bs, sum);
  }

  lemma RoundUp(size: nat, bs: nat, sum: nat)
    requires 1 <= bs && sum == size + bs - 1
    ensures sum / bs == if size == 0 then 0 else (size - 1) / bs + 1
  {
    if size == 0 {
      DivUnique(sum, 0, bs);
    } else {
      DivAddMultiple(size - 1, 1, bs);
    }
  }

  lemma BlocksNeededWrapped(size: nat, bs: nat)
    requires 1 <= bs <= 0x8000_0000 && size < U32 <= size + bs - 1
    ensures BlocksNeeded(size, bs) == 1 < CeilBlocks(size, bs)
  {
    DivUnique(size + bs - 1 - U32, 0, bs);
    CeilBlocksBounds(size, bs);
    MulMonotone(CeilBlocks(size, bs), 1, bs);
  }

  /** The code allocates ceil(size / block_size) blocks exactly when rounding up does not pass 2^32. For larger
      sizes the sum wraps and the object gets a single block. */
  lemma BlocksNeededIsCeiling(size: nat, bs: nat)
    requires 1 <= bs <= 0x8000_0000 && size < U32
    ensures BlocksNeeded(size, bs) == CeilBlocks(size, bs) <==> size + bs - 1 < U32
    ensures size + bs - 1 >= U32 ==> BlocksNeeded(size, bs) == 1
    ensures 1 <= size && size + bs - 1 < U32 ==> size <= BlocksNeeded(size, bs) * bs < size + bs
  {
    if size + bs - 1 < U32 {
      BlocksNeededInRange(size, bs);
      if size >= 1 {
        CeilBlocksBounds(size, bs);
      }
    } else {
      BlocksNeededWrapped(size, bs);
    }
  }

  /** What the pool guarantees of one descriptor: a live object has references, carries the generation its handles
      carry, and its fields describe its chain; a free slot owns nothing. */
  ghost predicate SlotOk(o: Object, g: nat, c: seq<nat>, bs: nat)
    requires bs >= 1
  {
    && 1 <= g < GEN_RANGE
    && if o.inUse then
         && o.refcount >= 1 && o.generation == g && o.size < U32
         && o.nblocks == BlocksNeeded(o.size, bs) == |c| && o.head == c[0]
       else
         c == []
  }

  ghost predicate TableOk(t: Table, chains: seq<seq<nat>>, bs: nat)
    requires bs >= 1
  {
    && |t.objs| == |t.gens| == |chains| <= 0xFFFF
    && forall s :: 0 <= s < |t.objs| ==> SlotOk(t.objs[s], t.gens[s], chains[s], bs)
  }

  lemma FreshTable(t: Table, chains: seq<seq<nat>>, bs: nat)
    requires bs >= 1 && |t.objs| == |t.gens| == |chains| <= 0xFFFF
    requires forall s :: 0 <= s < |t.objs| ==> t.objs[s] == FRESH && t.gens[s] == 1 && chains[s] == []
    ensures TableOk(t, chains, bs)
  {
  }

  function FreeSlot(t: Table, s: nat): Table
    requires s < |t.objs| == |t.gens|
  {
    Table(t.objs[s := FREED], t.gens[s := BumpGeneration(t.gens[s])])
  }

  /** Effect of dropping one reference of a live slot. */
  function DropRef(t: Table, s: nat): (t': Table)
    requires s < |t.objs| == |t.gens|
    ensures |t'.objs| == |t.objs| && |t'.gens| == |t.gens|
  {
    if t.objs[s].refcount - 1 <= 0 then FreeSlot(t, s)
    else t.(objs := t.objs[s := t.objs[s].(refcount := t.objs[s].refcount - 1)])
  }

  function AddRef(t: Table, s: nat): Table
    requires s < |t.objs|
  {
    t.(objs := t.objs[s := t.objs[s].(refcount := t.objs[s].refcount + 1)])
  }

  function RefHandle(t: Table, h: nat): Table {
    match Resolve(t.objs, h)
    case None => t
    case Some(s) => AddRef(t, s)
  }

  function UnrefHandle(t: Table, h: nat): (t': Table)
    requires |t.objs| == |t.gens|
    ensures |t'.objs| == |t.objs| && |t'.gens| == |t.gens|
  {
    match Resolve(t.objs, h)
    case None => t
    case Some(s) => DropRef(t, s)
  }

  predicate LastRef(objs: seq<Object>, h: nat) {
    var r := Resolve(objs, h);
    r.Some? && objs[r.value].refcount <= 1
  }

  predicate OwnedBy(t: Table, s: nat, vm: nat)
    requires s < |t.objs|
  {
    t.objs[s].inUse && t.objs[s].ownerVm == vm
  }

  function SweepStep(t: Table, vm: nat, s: nat): (t': Table)
    requires s < |t.objs| == |t.gens|
    ensures |t'.objs| == |t.objs| && |t'.gens| == |t.gens|
  {
    if OwnedBy(t, s, vm) then DropRef(t, s) else t
  }

  function SweepFrees(t: Table, vm: nat, s: nat): nat
    requires s < |t.objs|
  {
    if OwnedBy(t, s, vm) && t.objs[s].refcount <= 1 then 1 else 0
  }

  /** Effect of audio_pool_sweep_vm on slots `s` and up. */
  function Sweep(t: Table, vm: nat, s: nat): (t': Table)
    requires s <= |t.objs| == |t.gens|
    ensures |t'.objs| == |t.objs| && |t'.gens| == |t.gens|
    decreases |t.objs| - s
  {
    if s == |t.objs| then t else Sweep(SweepStep(t, vm, s), vm, s + 1)
  }

  /** How many objects that sweep frees. */
  function SweepCount(t: Table, vm: nat, s: nat): nat
    requires s <= |t.objs| == |t.gens|
    decreases |t.objs| - s
  {
    if s == |t.objs| then 0 else SweepFrees(t, vm, s) + SweepCount(SweepStep(t, vm, s), vm, s + 1)
  }

  /** A sweep drops one reference of every slot the machine owns, each judged by its state before the sweep, and
      touches no other slot. */
  lemma {:induction false} SweepSlot(t: Table, vm: nat, s: nat, i: nat)
    requires s <= |t.objs| == |t.gens| && i < |t.objs|
    ensures var t' := Sweep(t, vm, s);
            var d := if s <= i && OwnedBy(t, i, vm) then DropRef(t, i) else t;
            t'.objs[i] == d.objs[i] && t'.gens[i] == d.gens[i]
    decreases |t.objs| - s
  {
    if s < |t.objs| {
      SweepSlot(SweepStep(t, vm, s), vm, s + 1, i);
    }
  }

  /** The same in one slot's fields, from o and g to o' and g' with the chain c': a live object the machine created loses
      one reference, and with its last one is freed with its chain and the slot's generation moves on; every other slot
      stays as it is. */
  ghost predicate SweptFor(vm: nat, o: Object, g: nat, o': Object, g': nat, c': seq<nat>) {
    if o.inUse && o.ownerVm == vm then
      if o.refcount <= 1 then !o'.inUse && g' == BumpGeneration(g) && c' == []
      else o' == o.(refcount := o.refcount - 1) && g' == g
    else o' == o && g' == g
  }

  lemma SweptAll(t: Table, t': Table, c': seq<seq<nat>>, vm: nat, bs: nat)
    requires bs >= 1 && |t.objs| == |t.gens| && t' == Sweep(t, vm, 0) && TableOk(t', c', bs)
    ensures forall i :: 0 <= i < |t.objs| ==> SweptFor(vm, t.objs[i], t.gens[i], t'.objs[i], t'.gens[i], c'[i])
    ensures SweepCount(t, vm, 0) == CountInUse(t.objs) - CountInUse(t'.objs)
  {
    forall i | 0 <= i < |t.objs|
      ensures SweptFor(vm, t.objs[i], t.gens[i], t'.objs[i], t'.gens[i], c'[i])
    {
      SweepSlot(t, vm, 0, i);
      assert SlotOk(t'.objs[i], t'.gens[i], c'[i], bs);
    }
    SweepCountIs(t, vm, 0);
  }

  function CountInUse(objs: seq<Object>): nat {
    if objs == [] then 0 else (if objs[0].inUse then 1 else 0) + CountInUse(objs[1..])
  }

  lemma {:induction false} CountInUseUpdate(objs: seq<Object>, i: nat, o: Object)
    requires i < |objs|
    ensures CountInUse(objs[i := o]) == CountInUse(objs) - (if objs[i].inUse then 1 else 0) + (if o.inUse then 1 else 0)
  {
    if i == 0 {
      assert objs[i := o][1..] == objs[1..];
    } else {
      assert objs[i := o][1..] == objs[1..][i - 1 := o];
      CountInUseUpdate(objs[1..], i - 1, o);
    }
  }

  /** The number a sweep returns is by how many the live objects become fewer. */
  lemma {:induction false} SweepCountIs(t: Table, vm: nat, s: nat)
    requires s <= |t.objs| == |t.gens|
    ensures SweepCount(t, vm, s) == CountInUse(t.objs) - CountInUse(Sweep(t, vm, s).objs)
    decreases |t.objs| - s
  {
    if s < |t.objs| {
      var t' := SweepStep(t, vm, s);
      CountInUseUpdate(t.objs, s, t'.objs[s]);
      assert t'.objs == t.objs[s := t'.objs[s]];
      SweepCountIs(t', vm, s + 1);
    }
  }

  /** Taking and dropping a reference in the descriptor's fields. */
  lemma RefFields(t: Table, h: nat)
    requires |t.objs| == |t.gens|
    ensures match Resolve(t.objs, h)
            case None => RefHandle(t, h) == t && UnrefHandle(t, h) == t
            case Some(s) =>
              && RefHandle(t, h) == Table(t.objs[s := t.objs[s].(refcount := t.objs[s].refcount + 1)], t.gens)
              && var u := UnrefHandle(t, h);
                 && (forall i :: 0 <= i < |t.objs| && i != s ==> u.objs[i] == t.objs[i] && u.gens[i] == t.gens[i])
                 && if t.objs[s].refcount <= 1 then !u.objs[s].inUse && u.gens[s] == BumpGeneration(t.gens[s])
                    else u.objs[s] == t.objs[s].(refcount := t.objs[s].refcount - 1) && u.gens[s] == t.gens[s]
  {
  }

  /** The handle of a new object is good for exactly one unref: with one reference, entered in a free slot in that slot's
      generation, the object is freed by it and the slot's other neighbours stay. */
  lemma FreshUnrefFrees(t: Table, slot: nat, o: Object)
    requires slot < |t.objs| == |t.gens| <= 0xFFFF && o.inUse && o.refcount == 1 && o.generation == t.gens[slot]
    ensures var h, t1 := PackHandle(slot, t.gens[slot]), t.(objs := t.objs[slot := o]);
            && Resolve(t1.objs, h) == Some(slot) && LastRef(t1.objs, h)
            && UnrefHandle(t1, h) == Table(t.objs[slot := FREED], t.gens[slot := BumpGeneration(t.gens[slot])])
            && Resolve(UnrefHandle(t1, h).objs, h) == None
  {
    var t1 := t.(objs := t.objs[slot := o]);
    PackedHandleResolves(t1.objs, slot, t.gens[slot]);
    PackedHandleResolves(t.objs[slot := FREED], slot, t.gens[slot]);
    assert t1.objs[slot := FREED] == t.objs[slot := FREED];
  }

  // ---- clamping ----

  /** Bytes an access of `n` bytes at `offset` transfers: clamped to the object's size and to its chain. */
  function Transfer(o: Object, bs: nat, offset: nat, n: nat): nat {
    if offset >= o.size || offset >= o.nblocks * bs then 0
    else Least(n, Least(o.size - offset, o.nblocks * bs - offset))
  }

  /** The documented transfer, clamped to the object's size alone. */
  function DocumentedTransfer(o: Object, offset: nat, n: nat): nat {
    if offset >= o.size then 0 else Least(n, o.size - offset)
  }

  /** Every access is clamped to the object's size, as documented, exactly when the object's size did not wrap the
      block count. */
  lemma TransferAsDocumented(o: Object, bs: nat)
    requires 1 <= bs <= 0x8000_0000 && o.size < U32 && o.nblocks == BlocksNeeded(o.size, bs)
    ensures (forall offset: nat, n: nat :: Transfer(o, bs, offset, n) == DocumentedTransfer(o, offset, n))
       <==> o.size + bs - 1 < U32
  {
    BlocksNeededIsCeiling(o.size, bs);
    if o.size + bs - 1 >= U32 {
      assert o.nblocks * bs == bs < o.size;
      assert Transfer(o, bs, bs, 1) != DocumentedTransfer(o, bs, 1);
    }
  }

  /** The lowest slot from `s` on that is not in use, or NO_BLOCK. */
  function LowestFree(objs: seq<Object>, s: nat): (r: nat)
    requires s <= |objs|
    ensures r == NO_BLOCK || r < |objs|
    decreases |objs| - s
  {
    if s == |objs| then NO_BLOCK else if !objs[s].inUse then s else LowestFree(objs, s + 1)
  }

  lemma {:induction false} LowestFreeIs(objs: seq<Object>, s: nat, r: nat)
    requires s <= |objs| <= NO_BLOCK
    requires if r == NO_BLOCK then forall t :: s <= t < |objs| ==> objs[t].inUse
             else s <= r < |objs| && !objs[r].inUse && forall t :: s <= t < r ==> objs[t].inUse
    ensures LowestFree(objs, s) == r
    decreases |objs| - s
  {
    if s < |objs| && objs[s].inUse {
      LowestFreeIs(objs, s + 1, r);
    }
  }

  function AllocOutcome(objs: seq<Object>, free: int, need: nat): Result {
    if need > free then NoSpace else if LowestFree(objs, 0) == NO_BLOCK then NoObjects else Ok
  }

  lemma AllocKeepsTable(t: Table, chains: seq<seq<nat>>, chains': seq<seq<nat>>, bs: nat, slot: nat, o: Object)
    requires bs >= 1 && TableOk(t, chains, bs) && slot < |chains| && !t.objs[slot].inUse
    requires |chains'| == |chains| && chains' == chains[slot := chains'[slot]]
    requires SlotOk(o, t.gens[slot], chains'[slot], bs)
    ensures TableOk(t.(objs := t.objs[slot := o]), chains', bs)
  {
    forall s | 0 <= s < |chains|
      ensures SlotOk(t.objs[slot := o][s], t.gens[s], chains'[s], bs)
    {
      assert SlotOk(t.objs[s], t.gens[s], chains[s], bs);
    }
  }

  lemma FreeSlotKeepsTable(t: Table, chains: seq<seq<nat>>, bs: nat, slot: nat)
    requires bs >= 1 && TableOk(t, chains, bs) && slot < |chains|
    ensures TableOk(FreeSlot(t, slot), chains[slot := []], bs)
  {
    forall s | 0 <= s < |chains|
      ensures SlotOk(FreeSlot(t, slot).objs[s], FreeSlot(t, slot).gens[s], chains[slot := []][s], bs)
    {
      assert SlotOk(t.objs[s], t.gens[s], chains[s], bs);
    }
  }

  lemma AddRefKeepsTable(t: Table, chains: seq<seq<nat>>, bs: nat, slot: nat)
    requires bs >= 1 && TableOk(t, chains, bs) && slot < |chains| && t.objs[slot].inUse
    ensures TableOk(AddRef(t, slot), chains, bs)
  {
    forall s | 0 <= s < |chains|
      ensures SlotOk(AddRef(t, slot).objs[s], t.gens[s], chains[s], bs)
    {
      assert SlotOk(t.objs[s], t.gens[s], chains[s], bs);
    }
  }

  lemma DropRefKeepsTable(t: Table, chains: seq<seq<nat>>, bs: nat, slot: nat)
    requires bs >= 1 && TableOk(t, chains, bs) && slot < |chains| && t.objs[slot].inUse
    ensures TableOk(DropRef(t, slot), if t.objs[slot].refcount <= 1 then chains[slot := []] else chains, bs)
  {
    if t.objs[slot].refcount <= 1 {
      FreeSlotKeepsTable(t, chains, bs, slot);
    } else {
      forall s | 0 <= s < |chains|
        ensures SlotOk(DropRef(t, slot).objs[s], t.gens[s], chains[s], bs)
      {
        assert SlotOk(t.objs[s], t.gens[s], chains[s], bs);
      }
    }
  }

  /** `c` lists, in ascending order, blocks taken from the free blocks of `used0`, each below whatever is still
      free; `used` is the map with exactly those blocks added. */
  ghost predicate FirstFit(used0: seq<bool>, used: seq<bool>, c: seq<nat>) {
    && |used0| == |used|
    && (forall k :: 0 <= k < |c| ==> c[k] < |used| && !used0[c[k]])
    && (forall j, k :: 0 <= j < k < |c| ==> c[j] < c[k])
    && (forall i, k :: 0 <= i < |used| && 0 <= k < |c| && !used[i] ==> c[k] < i)
    && (forall i :: 0 <= i < |used| ==> (used[i] <==> used0[i] || i in c))
  }

  lemma FirstFitStep(used0: seq<bool>, used: seq<bool>, c: seq<nat>, b: nat)
    requires FirstFit(used0, used, c)
    requires b < |used| && !used[b] && forall j :: 0 <= j < b ==> used[j]
    ensures FirstFit(used0, used[b := true], c + [b])
  {
    var d, used' := c + [b], used[b := true];
    forall i | 0 <= i < |used|
      ensures used'[i] <==> used0[i] || i in d
    {
      assert i in d <==> i in c || i == b;
    }
  }

  /** Every object live after an operation was live before it, and kept its chain. */
  ghost predicate Survivors(objs: seq<Object>, chains: seq<seq<nat>>, objs': seq<Object>, chains': seq<seq<nat>>) {
    && |objs| == |objs'| == |chains| == |chains'|
    && forall s :: 0 <= s < |objs'| && objs'[s].inUse ==> objs[s].inUse && chains'[s] == chains[s]
  }

  /** The sweep loop before slot `s`: what is left to do completes the whole sweep of `t0`. */
  ghost predicate Sweeping(t0: Table, c0: seq<seq<nat>>, t: Table, c: seq<seq<nat>>, vm: nat, s: nat, count: nat) {
    && |t0.objs| == |t0.gens| == |t.objs| == |t.gens| && s <= |t.objs|
    && Sweep(t, vm, s) == Sweep(t0, vm, 0)
    && count + SweepCount(t, vm, s) == SweepCount(t0, vm, 0)
    && Survivors(t0.objs, c0, t.objs, c)
  }

  lemma SweepingStep(t0: Table, c0: seq<seq<nat>>, t: Table, c: seq<seq<nat>>, t': Table, c': seq<seq<nat>>,
                     vm: nat, s: nat, count: nat)
    requires Sweeping(t0, c0, t, c, vm, s, count) && s < |t.objs|
    requires t' == SweepStep(t, vm, s)
    requires c' == if SweepFrees(t, vm, s) == 1 then c[s := []] else c
    ensures Sweeping(t0, c0, t', c', vm, s + 1, count + SweepFrees(t, vm, s))
  {
    SurvivorsTransitive(t0.objs, c0, t.objs, c, t'.objs, c');
  }

  lemma SurvivorsTransitive(o0: seq<Object>, c0: seq<seq<nat>>, o1: seq<Object>, c1: seq<seq<nat>>,
                            o2: seq<Object>, c2: seq<seq<nat>>)
    requires Survivors(o0, c0, o1, c1) && Survivors(o1, c1, o2, c2)
    ensures Survivors(o0, c0, o2, c2)
  {
  }

  // ---- the position of a copy loop in a chain of m blocks ----

  function Available(total: nat, offset: nat, n: nat): nat {
    if offset >= total then 0 else Least(n, total - offset)
  }

  /** `copied` of `n` bytes from `offset` on are done, and the next one is byte `inOff` of block `i`. */
  ghost predicate Cursor(m: nat, bs: nat, offset: nat, n: nat, i: nat, inOff: nat, copied: nat) {
    && inOff < bs && copied <= n
    && (copied > 0 ==> offset + copied <= Times(m, bs))
    && (copied < n ==> offset + copied == Times(i, bs) + inOff)
  }

  lemma CursorStart(m: nat, bs: nat, offset: nat, n: nat)
    requires bs >= 1
    ensures offset / bs >= 0 && Cursor(m, bs, offset, n, offset / bs, offset % bs, 0)
  {
    TimesDivMod(offset, bs);
  }

  lemma CursorAdvance(m: nat, bs: nat, offset: nat, n: nat, i: nat, inOff: nat, copied: nat)
    requires Cursor(m, bs, offset, n, i, inOff, copied) && copied < n && i < m
    ensures Cursor(m, bs, offset, n, i + 1, 0, copied + Least(bs - inOff, n - copied))
  {
    TimesMonotone(i, m, bs);
  }

  lemma CursorEnd(m: nat, bs: nat, offset: nat, n: nat, i: nat, inOff: nat, copied: nat)
    requires Cursor(m, bs, offset, n, i, inOff, copied)
    requires copied >= n || i >= m
    ensures copied == Available(Times(m, bs), offset, n)
  {
    TimesMonotone(m, i, bs);
  }

  /** The front of `d` holds bytes `offset` to `offset + copied` of `f`, the rest is that of `d0`. */
  ghost predicate Gathered(d0: seq<byte>, d: seq<byte>, f: seq<byte>, offset: nat, copied: nat) {
    && |d| == |d0| && copied <= |d| && (copied == 0 || offset + copied <= |f|)
    && forall k :: 0 <= k < |d| ==> d[k] == if k < copied then f[offset + k] else d0[k]
  }

  lemma GatheredGrows(d0: seq<byte>, d: seq<byte>, d': seq<byte>, region: seq<byte>, c: seq<nat>, bs: nat,
                      offset: nat, copied: nat, i: nat, at: nat, chunk: nat)
    requires bs >= 1 && i < |c| && at + chunk <= bs && offset + copied == Times(i, bs) + at
    requires Gathered(d0, d, Spell(region, c, bs), offset, copied)
    requires Times(c[i], bs) + at + chunk <= |region|
    requires Overwritten(d, d', copied, region[Times(c[i], bs) + at..Times(c[i], bs) + at + chunk])
    ensures Gathered(d0, d', Spell(region, c, bs), offset, copied + chunk)
  {
    TimesMonotone(i, |c|, bs);
    forall k | 0 <= k < |d'|
      ensures d'[k] == if k < copied + chunk then Spell(region, c, bs)[offset + k] else d0[k]
    {
      if copied <= k < copied + chunk {
        LocateInBlock(c, bs, i, at + (k - copied));
      }
    }
  }

  // ---- what a write leaves alone ----

  lemma ChainOnce(b: Blocks, s: nat, c: seq<nat>, i: nat, k: nat)
    requires |b.owner| <= NO_BLOCK && ChainOk(b, s, c) && i < |c| && k < |c| && k != i
    ensures c[k] != c[i]
  {
    ChainAcyclic(b, s, c, if k < i then k else i, if k < i then i else k);
  }

  lemma NotShared(m: Blocks, chains: seq<seq<nat>>, s: nat, t: nat, b: nat)
    requires BlocksOk(m, chains) && s < |chains| && t < |chains| && s != t && b in chains[s]
    ensures b !in chains[t]
  {
    assert ChainOk(m, s, chains[s]) && ChainOk(m, t, chains[t]);
  }

  /** `f` is `f0` with the first `written` bytes of `w` written over it from `offset` on. */
  ghost predicate Scattered(f0: seq<byte>, f: seq<byte>, w: seq<byte>, offset: nat, written: nat) {
    && |f| == |f0| && written <= |w| && (written == 0 || offset + written <= |f0|)
    && forall k :: 0 <= k < |f| ==> f[k] == if offset <= k < offset + written then w[k - offset] else f0[k]
  }

  /** The region after the first `written` bytes of `w` went to byte `offset` on of slot's object: that object's bytes
      are overwritten there, every other object's bytes are what they were. */
  ghost predicate Wrote(r0: seq<byte>, r: seq<byte>, chains: seq<seq<nat>>, slot: nat, bs: nat,
                        w: seq<byte>, offset: nat, written: nat)
  {
    && bs >= 1 && slot < |chains|
    && Scattered(Spell(r0, chains[slot], bs), Spell(r, chains[slot], bs), w, offset, written)
    && forall t :: 0 <= t < |chains| && t != slot ==> Spell(r, chains[t], bs) == Spell(r0, chains[t], bs)
  }

  lemma ScatteredGrows(m: Blocks, s: nat, c: seq<nat>, bs: nat, r0: seq<byte>, r: seq<byte>, r': seq<byte>,
                       w: seq<byte>, offset: nat, written: nat, i: nat, at: nat, chunk: nat)
    requires |m.owner| <= NO_BLOCK && ChainOk(m, s, c) && bs >= 1 && i < |c|
    requires Scattered(Spell(r0, c, bs), Spell(r, c, bs), w, offset, written)
    requires offset + written == Times(i, bs) + at && at + chunk <= bs && written + chunk <= |w|
    requires Overwritten(r, r', Times(c[i], bs) + at, w[written..written + chunk])
    ensures Scattered(Spell(r0, c, bs), Spell(r', c, bs), w, offset, written + chunk)
  {
    TimesMonotone(i, |c|, bs);
    forall j | 0 <= j < |c| && j != i
      ensures c[j] != c[i]
    {
      ChainOnce(m, s, c, i, j);
    }
    forall k | 0 <= k < Times(|c|, bs)
      ensures Spell(r', c, bs)[k] ==
              if offset <= k < offset + written + chunk then w[k - offset] else Spell(r0, c, bs)[k]
    {
      SpellAfterWrite(r, r', c, bs, i, at, w[written..written + chunk], k);
    }
  }

  lemma WroteGrows(m: Blocks, cs: seq<seq<nat>>, slot: nat, bs: nat, r0: seq<byte>, r: seq<byte>, r': seq<byte>,
                   w: seq<byte>, offset: nat, written: nat, i: nat, at: nat, chunk: nat)
    requires BlocksOk(m, cs) && Wrote(r0, r, cs, slot, bs, w, offset, written)
    requires i < |cs[slot]| && offset + written == Times(i, bs) + at
    requires at + chunk <= bs && written + chunk <= |w|
    requires Overwritten(r, r', Times(cs[slot][i], bs) + at, w[written..written + chunk])
    ensures Wrote(r0, r', cs, slot, bs, w, offset, written + chunk)
  {
    assert ChainOk(m, slot, cs[slot]);
    ScatteredGrows(m, slot, cs[slot], bs, r0, r, r', w, offset, written, i, at, chunk);
    forall t | 0 <= t < |cs| && t != slot
      ensures Spell(r', cs[t], bs) == Spell(r0, cs[t], bs)
    {
      NotShared(m, cs, slot, t, cs[slot][i]);
      SpellElsewhere(r, r', cs[t], bs, cs[slot][i], at, w[written..written + chunk]);
    }
  }

  // ---- the pool ----

  class Pool {
    const bs: nat
    const region: array<byte>
    const owner: array<nat>
    const next: array<nat>
    const used: Bitset.Bitset
    const objects: array<Object>
    const gens: array<nat>
    var freeBlocks: int
    ghost var chains: seq<seq<nat>>

    ghost predicate Shape() {
      && 1 <= bs <= 0x8000_0000
      && owner.Length == next.Length == used.nbits <= NO_BLOCK
      && objects.Length == gens.Length <= 0xFFFF
      && owner != next && owner != gens && next != gens
      && Times(owner.Length, bs) <= region.Length
    }

    ghost function Map(): Blocks
      reads this, owner, next, used
    {
      Blocks(owner[..], next[..], used.bits, freeBlocks)
    }

    function Descriptors(): Table
      reads objects, gens
    {
      Table(objects[..], gens[..])
    }

    ghost predicate Valid()
      reads this, owner, next, used, used.words, objects, gens
    {
      && Shape() && used.Valid()
      && |chains| == objects.Length
      && BlocksOk(Map(), chains)
      && TableOk(Descriptors(), chains, bs)
    }

    constructor Init(region: array<byte>, bs: nat, count: nat, maxObjects: nat)
      requires 1 <= bs <= 0x8000_0000 && 1 <= count <= NO_BLOCK && count * bs <= region.Length
      requires maxObjects <= 0xFFFF
      ensures Valid() && this.region == region && this.bs == bs
      ensures fresh(owner) && fresh(next) && fresh(used) && fresh(used.words) && fresh(objects) && fresh(gens)
      ensures freeBlocks == owner.Length == count && objects.Length == maxObjects
      ensures chains == seq(maxObjects, _ => [])
      ensures forall s :: 0 <= s < maxObjects ==> !objects[s].inUse && gens[s] == 1
    {
      TimesIsProduct(count, bs);
      this.region, this.bs := region, bs;
      owner := new nat[count](_ => NO_BLOCK);
      next := new nat[count](_ => NO_BLOCK);
      var m := FreeMap(count);
      used := m;
      objects := new Object[maxObjects](_ => FRESH);
      gens := new nat[maxObjects](_ => 1);
      freeBlocks := count;
      chains := seq(maxObjects, _ => []);
      new;
      CountClearAll(used.bits);
      FreshBlocks(Map(), chains);
      FreshTable(Descriptors(), chains, bs);
    }

    /** alloc_one_block: takes the lowest free block, if there is one. */
    method AllocOneBlock() returns (b: nat)
      requires Shape() && used.Valid() && freeBlocks == CountClear(used.bits)
      modifies used, used.words, this`freeBlocks
      ensures used.Valid()
      ensures b == NO_BLOCK <==> old(freeBlocks) == 0
      ensures b == NO_BLOCK ==> used.bits == old(used.bits) && freeBlocks == old(freeBlocks)
      ensures b != NO_BLOCK ==>
                && b < used.nbits && !old(used.bits)[b]
                && (forall j :: 0 <= j < b ==> old(used.bits)[j])
                && used.bits == old(used.bits)[b := true]
                && freeBlocks == old(freeBlocks) - 1
    {
      CountClearPositive(used.bits);
      if freeBlocks == 0 {
        return NO_BLOCK;
      }
      var r := used.FindFirstClear();
      if r.Npos? {
        return NO_BLOCK;
      }
      b := r.i;
      used.Set(b);
      CountClearUpdate(old(used.bits), b, true);
      freeBlocks := freeBlocks - 1;
    }

    /** Links the free block `b` at the end of the chain of `slot`. */
    method AppendBlock(slot: nat, b: nat, prev: nat, ghost before: Blocks)
      requires Shape() && |chains| == objects.Length && slot < |chains|
      requires used.Valid() && b < used.nbits
      requires BlocksOk(before, chains) && b < |before.used| && !before.used[b]
      requires Map() == before.(used := before.used[b := true], free := before.free - 1)
      requires prev == if chains[slot] == [] then NO_BLOCK else chains[slot][|chains[slot]| - 1]
      modifies owner, next, this`chains
      ensures BlocksOk(Map(), chains)
      ensures chains == old(chains)[slot := old(chains[slot]) + [b]]
    {
      LinkBlockKeeps(before, chains, slot, b);
      assert ChainOk(before, slot, chains[slot]);
      assert prev != NO_BLOCK ==> prev < next.Length;
      PutLinks(slot, b, prev);
      assert Map() == LinkBlock(before, chains[slot], slot, b);
      chains := chains[slot := chains[slot] + [b]];
    }

    /** The three stores that link a block. */
    method PutLinks(slot: nat, b: nat, prev: nat)
      requires Shape() && b < owner.Length && (prev != NO_BLOCK ==> prev < next.Length)
      modifies owner, next
      ensures owner[..] == old(owner[..])[b := slot]
      ensures next[..] == var n := old(next[..])[b := NO_BLOCK]; if prev == NO_BLOCK then n else n[prev := b]
    {
      owner[b] := slot;
      next[b] := NO_BLOCK;
      if prev != NO_BLOCK {
        next[prev] := b;
      }
    }

    method FindFreeSlot() returns (s: nat)
      requires objects.Length <= 0xFFFF
      ensures s == NO_BLOCK || s < objects.Length
      ensures s == NO_BLOCK ==> forall t :: 0 <= t < objects.Length ==> objects[t].inUse
      ensures s != NO_BLOCK ==> !objects[s].inUse && forall t :: 0 <= t < s ==> objects[t].inUse
    {
      s := 0;
      while s < objects.Length
        invariant s <= objects.Length
        invariant forall t :: 0 <= t < s ==> objects[t].inUse
      {
        if !objects[s].inUse {
          return;
        }
        s := s + 1;
      }
      s := NO_BLOCK;
    }

    /** One turn of the chain-building loop: takes the lowest free block and links it behind `prev`. */
    method ExtendChain(slot: nat, prev: nat, ghost used0: seq<bool>) returns (b: nat)
      requires Shape() && |chains| == objects.Length && slot < |chains|
      requires used.Valid() && BlocksOk(Map(), chains) && freeBlocks > 0
      requires prev == if chains[slot] == [] then NO_BLOCK else chains[slot][|chains[slot]| - 1]
      requires FirstFit(used0, used.bits, chains[slot])
      modifies owner, next, used, used.words, this`freeBlocks, this`chains
      ensures used.Valid() && BlocksOk(Map(), chains) && b < owner.Length
      ensures chains == old(chains)[slot := old(chains[slot]) + [b]]
      ensures freeBlocks == old(freeBlocks) - 1
      ensures FirstFit(used0, used.bits, chains[slot])
    {
      ghost var map0 := Map();
      b := AllocOneBlock();
      FirstFitStep(used0, map0.used, chains[slot], b);
      AppendBlock(slot, b, prev, map0);
    }

    /** The chain-building loop of audio_pool_alloc: gives an empty chain `need` blocks, lowest free block first. */
    method BuildChain(slot: nat, need: nat) returns (head: nat)
      requires Shape() && |chains| == objects.Length && slot < |chains|
      requires used.Valid() && BlocksOk(Map(), chains) && chains[slot] == [] && 1 <= need <= freeBlocks
      modifies owner, next, used, used.words, this`freeBlocks, this`chains
      ensures used.Valid() && BlocksOk(Map(), chains)
      ensures |chains| == |old(chains)| && chains == old(chains)[slot := chains[slot]]
      ensures |chains[slot]| == need && head == chains[slot][0]
      ensures freeBlocks == old(freeBlocks) - need
      ensures FirstFit(old(used.bits), used.bits, chains[slot])
    {
      head := NO_BLOCK;
      var prev, i := NO_BLOCK, 0;
      ghost var used0 := used.bits;
      while i < need
        invariant 0 <= i <= need
        invariant used.Valid() && BlocksOk(Map(), chains)
        invariant |chains| == |old(chains)| && chains == old(chains)[slot := chains[slot]]
        invariant |chains[slot]| == i && freeBlocks == old(freeBlocks) - i
        invariant if i == 0 then head == prev == NO_BLOCK
                  else head == chains[slot][0] && prev == chains[slot][i - 1] < NO_BLOCK
        invariant FirstFit(used0, used.bits, chains[slot])
      {
        ghost var c := chains;
        var b := ExtendChain(slot, prev, used0);
        UpdateAgain(old(chains), c, slot, chains[slot]);
        if prev == NO_BLOCK {
          head := b;
        }
        prev := b;
        i := i + 1;
      }
    }

    /** audio_pool_alloc. */
    method Alloc(size: nat, vm: nat) returns (r: Result, h: nat)
      requires Valid() && size < U32
      modifies owner, next, used, used.words, objects, this`freeBlocks, this`chains
      ensures Valid() && gens[..] == old(gens[..])
      ensures r == AllocOutcome(old(Descriptors()).objs, old(freeBlocks), BlocksNeeded(size, bs))
      ensures r != Ok ==> h == HANDLE_NONE && Map() == old(Map()) && objects[..] == old(objects[..]) && chains == old(chains)
      ensures r == Ok ==>
                var slot := LowestFree(old(objects[..]), 0);
                && h == PackHandle(slot, gens[slot])
                && freeBlocks == old(freeBlocks) - BlocksNeeded(size, bs)
                && |chains[slot]| == BlocksNeeded(size, bs)
                && chains == old(chains)[slot := chains[slot]]
                && FirstFit(old(used.bits), used.bits, chains[slot])
                && slot < objects.Length && !old(objects[slot].inUse) && (forall t :: 0 <= t < slot ==> old(objects[t].inUse))
                && chains[slot] != []
                && objects[..] == old(objects[..])[slot :=
                     Object(chains[slot][0], size, |chains[slot]|, 1, gens[slot], vm, true, 0)]
      ensures r == NoSpace <==> BlocksNeeded(size, bs) > old(freeBlocks)
      ensures r == NoObjects <==>
                BlocksNeeded(size, bs) <= old(freeBlocks) && forall t :: 0 <= t < objects.Length ==> old(objects[t].inUse)
      ensures r == Ok || r == NoSpace || r == NoObjects
    {
      h := HANDLE_NONE;
      var need := BlocksNeeded(size, bs);
      if need > freeBlocks {
        return NoSpace, h;
      }
      var slot := FindFreeSlot();
      LowestFreeIs(objects[..], 0, slot);
      if slot == NO_BLOCK {
        return NoObjects, h;
      }
      assert SlotOk(objects[slot], gens[slot], chains[slot], bs);
      var head := BuildChain(slot, need);
      EnterObject(slot, Object(head, size, need, 1, gens[slot], vm, true, 0), old(chains));
      r, h := Ok, PackHandle(slot, gens[slot]);
    }

    /** The new descriptor, once its chain stands. */
    method EnterObject(slot: nat, o: Object, ghost before: seq<seq<nat>>)
      requires Shape() && used.Valid() && |chains| == objects.Length && BlocksOk(Map(), chains)
      requires slot < objects.Length && !objects[slot].inUse
      requires |before| == |chains| && chains == before[slot := chains[slot]] && TableOk(Descriptors(), before, bs)
      requires SlotOk(o, gens[slot], chains[slot], bs)
      modifies objects
      ensures Valid() && objects[..] == old(objects[..])[slot := o]
    {
      AllocKeepsTable(Descriptors(), before, chains, bs, slot, o);
      objects[slot] := o;
      assert Descriptors() == old(Descriptors()).(objs := old(objects[..])[slot := o]);
    }

    /** free_chain: returns every block of the slot's chain to the free map. */
    method FreeChain(head: nat, ghost slot: nat)
      requires Shape() && |chains| == objects.Length && slot < |chains|
      requires used.Valid() && BlocksOk(Map(), chains)
      requires head == if chains[slot] == [] then NO_BLOCK else chains[slot][0]
      modifies owner, next, used, used.words, this`freeBlocks, this`chains
      ensures used.Valid() && BlocksOk(Map(), chains)
      ensures chains == old(chains)[slot := []]
      ensures freeBlocks == old(freeBlocks) + |old(chains)[slot]|
    {
      var b := head;
      while b != NO_BLOCK
        invariant |chains| == |old(chains)| && chains == old(chains)[slot := chains[slot]]
        invariant used.Valid() && BlocksOk(Map(), chains)
        invariant b == if chains[slot] == [] then NO_BLOCK else chains[slot][0]
        invariant freeBlocks + |chains[slot]| == old(freeBlocks) + |old(chains)[slot]|
        decreases |chains[slot]|
      {
        ghost var c := chains;
        b := FreeHead(b, slot);
        UpdateAgain(old(chains), c, slot, chains[slot]);
      }
    }

    /** One turn of free_chain: frees the head `b` of the chain and returns its successor. */
    method FreeHead(b: nat, ghost slot: nat) returns (nxt: nat)
      requires Shape() && |chains| == objects.Length && slot < |chains|
      requires used.Valid() && BlocksOk(Map(), chains) && chains[slot] != [] && b == chains[slot][0]
      modifies owner, next, used, used.words, this`freeBlocks, this`chains
      ensures used.Valid() && BlocksOk(Map(), chains)
      ensures chains == old(chains)[slot := old(chains)[slot][1..]]
      ensures nxt == if chains[slot] == [] then NO_BLOCK else chains[slot][0]
      ensures freeBlocks == old(freeBlocks) + 1
    {
      FreeBlockKeeps(Map(), chains, slot);
      nxt := next[b];
      FreeOneBlock(b);
      chains := chains[slot := chains[slot][1..]];
    }

    /** free_one_block. */
    method FreeOneBlock(b: nat)
      requires Shape() && used.Valid()
      modifies owner, next, used, used.words, this`freeBlocks
      ensures used.Valid() && Map() == if b < owner.Length then FreeBlock(old(Map()), b) else old(Map())
    {
      if b >= owner.Length {
        return;
      }
      var taken := used.Test(b);
      if taken {
        used.Clear(b);
        freeBlocks := freeBlocks + 1;
      }
      owner[b] := NO_BLOCK;
      next[b] := NO_BLOCK;
    }

    /** free_object. */
    method FreeObject(slot: nat)
      requires Valid() && slot < objects.Length && objects[slot].inUse
      modifies owner, next, used, used.words, objects, gens, this`freeBlocks, this`chains
      ensures Valid() && Descriptors() == FreeSlot(old(Descriptors()), slot)
      ensures chains == old(chains)[slot := []] && freeBlocks == old(freeBlocks) + |old(chains)[slot]|
    {
      assert SlotOk(objects[slot], gens[slot], chains[slot], bs);
      FreeSlotKeepsTable(Descriptors(), chains, bs, slot);
      FreeChain(objects[slot].head, slot);
      gens[slot] := BumpGeneration(gens[slot]);
      objects[slot] := FREED;
      assert Descriptors() == FreeSlot(old(Descriptors()), slot);
    }

    /** audio_pool_ref. */
    method Ref(h: nat) returns (r: Result)
      requires Valid()
      modifies objects
      ensures Valid()
      ensures r == if Resolve(old(objects[..]), h).Some? then Ok else BadHandle
      ensures Descriptors() == RefHandle(old(Descriptors()), h)
    {
      match Resolve(objects[..], h) {
        case None => r := BadHandle;
        case Some(slot) =>
          AddRefKeepsTable(Descriptors(), chains, bs, slot);
          objects[slot] := objects[slot].(refcount := objects[slot].refcount + 1);
          assert Descriptors() == AddRef(old(Descriptors()), slot);
          r := Ok;
      }
    }

    /** The decrement shared by audio_pool_unref and audio_pool_sweep_vm. */
    method DropReference(slot: nat) returns (freed: bool)
      requires Valid() && slot < objects.Length && objects[slot].inUse
      modifies owner, next, used, used.words, objects, gens, this`freeBlocks, this`chains
      ensures Valid() && Descriptors() == DropRef(old(Descriptors()), slot)
      ensures freed <==> old(objects[slot].refcount) <= 1
      ensures objects[slot].inUse <==> !freed
      ensures !freed ==> objects[slot] == old(objects[slot].(refcount := objects[slot].refcount - 1))
      ensures if freed then
                chains == old(chains)[slot := []] && freeBlocks == old(freeBlocks) + |old(chains)[slot]|
              else
                chains == old(chains) && Map() == old(Map())
    {
      ghost var before := Descriptors();
      if objects[slot].refcount - 1 <= 0 {
        FreeObject(slot);
        freed := true;
      } else {
        DropRefKeepsTable(before, chains, bs, slot);
        objects[slot] := objects[slot].(refcount := objects[slot].refcount - 1);
        assert Descriptors() == DropRef(before, slot);
        freed := false;
      }
    }

    /** audio_pool_unref. */
    method Unref(h: nat) returns (r: Result, freed: bool)
      requires Valid()
      modifies owner, next, used, used.words, objects, gens, this`freeBlocks, this`chains
      ensures Valid()
      ensures r == if Resolve(old(objects[..]), h).Some? then Ok else BadHandle
      ensures freed <==> LastRef(old(objects[..]), h)
      ensures !freed ==> Map() == old(Map()) && chains == old(chains)
      ensures Descriptors() == UnrefHandle(old(Descriptors()), h)
      ensures Survivors(old(objects[..]), old(chains), objects[..], chains)
    {
      match Resolve(objects[..], h) {
        case None => r, freed := BadHandle, false;
        case Some(slot) =>
          freed := DropReference(slot);
          r := Ok;
      }
    }

    /** audio_pool_sweep_vm. */
    method SweepVm(vm: nat) returns (count: nat)
      requires Valid()
      modifies owner, next, used, used.words, objects, gens, this`freeBlocks, this`chains
      ensures Valid() && Descriptors() == Sweep(old(Descriptors()), vm, 0)
      ensures count == SweepCount(old(Descriptors()), vm, 0)
      ensures Survivors(old(objects[..]), old(chains), objects[..], chains)
      ensures forall i :: 0 <= i < objects.Length ==>
                SweptFor(vm, old(objects[..])[i], old(gens[..])[i], objects[i], gens[i], chains[i])
      ensures count == CountInUse(old(objects[..])) - CountInUse(objects[..])
    {
      ghost var t0 := Descriptors();
      count := SweepSlots(vm);
      SweptAll(t0, Descriptors(), chains, vm, bs);
    }

    method SweepSlots(vm: nat) returns (count: nat)
      requires Valid()
      modifies owner, next, used, used.words, objects, gens, this`freeBlocks, this`chains
      ensures Valid() && Descriptors() == Sweep(old(Descriptors()), vm, 0)
      ensures count == SweepCount(old(Descriptors()), vm, 0)
      ensures Survivors(old(objects[..]), old(chains), objects[..], chains)
    {
      ghost var t0, c0 := Descriptors(), chains;
      count := 0;
      var s := 0;
      while s < objects.Length
        invariant s <= objects.Length && Valid()
        invariant Sweeping(t0, c0, Descriptors(), chains, vm, s, count)
      {
        count := SweepSlotStep(vm, s, count, t0, c0);
        s := s + 1;
      }
    }

    /** One turn of the sweep loop. */
    method SweepSlotStep(vm: nat, s: nat, count: nat, ghost t0: Table, ghost c0: seq<seq<nat>>) returns (count': nat)
      requires Valid() && s < objects.Length
      requires Sweeping(t0, c0, Descriptors(), chains, vm, s, count)
      modifies owner, next, used, used.words, objects, gens, this`freeBlocks, this`chains
      ensures Valid()
      ensures Sweeping(t0, c0, Descriptors(), chains, vm, s + 1, count')
    {
      ghost var t, c := Descriptors(), chains;
      count' := count;
      if objects[s].inUse && objects[s].ownerVm == vm {
        var freed := DropReference(s);
        if freed {
          count' := count + 1;
        }
      }
      SweepingStep(t0, c0, t, c, Descriptors(), chains, vm, s, count);
    }

    /** The bytes of slot's object, all blocks of its chain in order. */
    ghost function Payload(slot: nat): (bytes: seq<byte>)
      requires bs >= 1 && slot < |chains|
      reads this, region
      ensures |bytes| == |chains[slot]| * bs
    {
      TimesIsProduct(|chains[slot]|, bs);
      Spell(region[..], chains[slot], bs)
    }

    /** seek_block: the block holding byte `offset`, or NO_BLOCK past the end of the chain. */
    method SeekBlock(head: nat, offset: nat, ghost slot: nat, ghost c: seq<nat>) returns (b: nat, inOff: nat)
      requires bs >= 1 && owner.Length <= NO_BLOCK
      requires ChainOk(Map(), slot, c) && head == BlockAt(c, 0)
      ensures inOff == offset % bs && b == BlockAt(c, offset / bs)
    {
      b, inOff := head, offset % bs;
      var skip := offset / bs;
      ghost var i := 0;
      while skip > 0 && b != NO_BLOCK
        invariant skip >= 0 && i + skip == offset / bs
        invariant b == BlockAt(c, i)
      {
        NextBlock(slot, c, i);
        skip, b, i := skip - 1, next[b], i + 1;
      }
      PastEnd(c, i, offset / bs);
    }

    lemma NextBlock(slot: nat, c: seq<nat>, i: nat)
      requires owner.Length <= NO_BLOCK && ChainOk(Map(), slot, c) && BlockAt(c, i) != NO_BLOCK
      ensures BlockAt(c, i) < next.Length == owner.Length
      ensures next[BlockAt(c, i)] == BlockAt(c, i + 1)
    {
      assert Map().next[c[i]] == Successor(c, i);
    }

    lemma PastEnd(c: seq<nat>, i: nat, j: nat)
      requires i <= j && forall k :: 0 <= k < |c| ==> c[k] < NO_BLOCK
      ensures BlockAt(c, i) == NO_BLOCK ==> BlockAt(c, j) == NO_BLOCK
    {
    }

    /** One turn of the copy loop of audio_pool_read: copies what is left of block i, up to `n` bytes in all. */
    method ReadBlock(b: nat, inOff: nat, dst: array<byte>, copied: nat, n: nat, ghost d0: seq<byte>,
                     ghost slot: nat, ghost c: seq<nat>, ghost i: nat, ghost offset: nat)
      returns (copied': nat, b': nat)
      requires Shape() && ChainOk(Map(), slot, c) && b != NO_BLOCK && b == BlockAt(c, i)
      requires Cursor(|c|, bs, offset, n, i, inOff, copied) && copied < n <= dst.Length && dst != region
      requires Gathered(d0, dst[..], Spell(region[..], c, bs), offset, copied)
      modifies dst
      ensures b' == BlockAt(c, i + 1) && Cursor(|c|, bs, offset, n, i + 1, 0, copied')
      ensures Gathered(d0, dst[..], Spell(region[..], c, bs), offset, copied')
    {
      var chunk := Least(bs - inOff, n - copied);
      NextBlock(slot, c, i);
      CursorAdvance(|c|, bs, offset, n, i, inOff, copied);
      BlockEnd(b, bs, owner.Length);
      TimesIsProduct(b, bs);
      b' := next[b];
      ghost var d := dst[..];
      CopyBytes(region, b * bs + inOff, dst, copied, chunk);
      GatheredGrows(d0, d, dst[..], region[..], c, bs, offset, copied, i, inOff, chunk);
      copied' := copied + chunk;
    }

    /** The copy loop of audio_pool_read: gathers the chain's bytes from `offset` on into `dst`. */
    method ReadChain(head: nat, offset: nat, dst: array<byte>, n: nat, ghost slot: nat, ghost c: seq<nat>)
      returns (copied: nat)
      requires Shape() && ChainOk(Map(), slot, c) && head == BlockAt(c, 0)
      requires n <= dst.Length && dst != region
      modifies dst
      ensures copied == Available(Times(|c|, bs), offset, n)
      ensures Gathered(old(dst[..]), dst[..], Spell(region[..], c, bs), offset, copied)
    {
      CursorStart(|c|, bs, offset, n);
      ghost var i: nat, map0, region0, d0 := offset / bs, Map(), region[..], dst[..];
      var b, inOff := SeekBlock(head, offset, slot, c);
      copied := 0;
      while copied < n && b != NO_BLOCK
        invariant Map() == map0 && region[..] == region0
        invariant b == BlockAt(c, i) && Cursor(|c|, bs, offset, n, i, inOff, copied)
        invariant Gathered(d0, dst[..], Spell(region0, c, bs), offset, copied)
        decreases |c| - i
      {
        assert i < |c|;
        copied, b := ReadBlock(b, inOff, dst, copied, n, d0, slot, c, i, offset);
        inOff, i := 0, i + 1;
      }
      CursorEnd(|c|, bs, offset, n, i, inOff, copied);
    }

    /** audio_pool_read. The bytes come out in the object's order, wherever its blocks lie. */
    method Read(h: nat, offset: nat, dst: array<byte>, n: nat) returns (r: Result, copied: nat)
      requires Valid() && n <= dst.Length && dst != region
      modifies dst
      ensures r == if Resolve(objects[..], h).Some? then Ok else BadHandle
      ensures r == BadHandle ==> copied == 0 && dst[..] == old(dst[..])
      ensures r == Ok ==>
                var slot := Resolve(objects[..], h).value;
                && copied == Transfer(objects[slot], bs, offset, n)
                && Gathered(old(dst[..]), dst[..], Payload(slot), offset, copied)
    {
      copied := 0;
      var slot;
      match Resolve(objects[..], h) {
        case None => return BadHandle, 0;
        case Some(s) => slot := s;
      }
      var o := objects[slot];
      assert SlotOk(o, gens[slot], chains[slot], bs) && ChainOk(Map(), slot, chains[slot]);
      if offset >= o.size {
        return Ok, 0;
      }
      TimesIsProduct(|chains[slot]|, bs);
      copied := ReadChain(o.head, offset, dst, Least(n, o.size - offset), slot, chains[slot]);
      r := Ok;
    }

    /** One turn of the copy loop of audio_pool_write: overwrites what is left of block i. */
    method WriteBlock(b: nat, inOff: nat, src: array<byte>, written: nat, n: nat, ghost cs: seq<seq<nat>>,
                      ghost w: seq<byte>, ghost r0: seq<byte>, ghost slot: nat, ghost i: nat, ghost offset: nat)
      returns (written': nat, b': nat)
      requires Shape() && slot < |cs| && BlocksOk(Map(), cs) && b != NO_BLOCK && b == BlockAt(cs[slot], i)
      requires Cursor(|cs[slot]|, bs, offset, n, i, inOff, written)
      requires written < n <= src.Length && src != region && w == src[..]
      requires Wrote(r0, region[..], cs, slot, bs, w, offset, written)
      modifies region
      ensures Wrote(r0, region[..], cs, slot, bs, w, offset, written')
      ensures b' == BlockAt(cs[slot], i + 1) && Cursor(|cs[slot]|, bs, offset, n, i + 1, 0, written')
    {
      ghost var r, c, m := region[..], cs[slot], Map();
      assert ChainOk(m, slot, c);
      var chunk := Least(bs - inOff, n - written);
      NextBlock(slot, c, i);
      CursorAdvance(|c|, bs, offset, n, i, inOff, written);
      BlockEnd(b, bs, owner.Length);
      TimesIsProduct(b, bs);
      b' := next[b];
      CopyBytes(src, written, region, b * bs + inOff, chunk);
      WroteGrows(m, cs, slot, bs, r0, r, region[..], w, offset, written, i, inOff, chunk);
      written' := written + chunk;
    }

    /** The copy loop of audio_pool_write. */
    method WriteChain(head: nat, offset: nat, src: array<byte>, n: nat,
                      ghost cs: seq<seq<nat>>, ghost slot: nat, ghost w: seq<byte>)
      returns (written: nat)
      requires Shape() && BlocksOk(Map(), cs) && slot < |cs| && head == BlockAt(cs[slot], 0)
      requires n <= src.Length && src != region && w == src[..]
      modifies region
      ensures written == Available(Times(|cs[slot]|, bs), offset, n)
      ensures Wrote(old(region[..]), region[..], cs, slot, bs, w, offset, written)
    {
      CursorStart(|cs[slot]|, bs, offset, n);
      ghost var c, map0, r0 := cs[slot], Map(), region[..];
      ghost var i: nat := offset / bs;
      assert ChainOk(map0, slot, c);
      var b, inOff := SeekBlock(head, offset, slot, c);
      written := 0;
      while written < n && b != NO_BLOCK
        invariant Map() == map0 && src[..] == w
        invariant b == BlockAt(c, i) && Cursor(|c|, bs, offset, n, i, inOff, written)
        invariant Wrote(r0, region[..], cs, slot, bs, w, offset, written)
        decreases |c| - i
      {
        assert i < |c|;
        written, b := WriteBlock(b, inOff, src, written, n, cs, w, r0, slot, i, offset);
        inOff, i := 0, i + 1;
      }
      CursorEnd(|c|, bs, offset, n, i, inOff, written);
    }

    /** audio_pool_write. Exactly the addressed bytes of this one object change. */
    method Write(h: nat, offset: nat, src: array<byte>, n: nat) returns (r: Result, written: nat)
      requires Valid() && n <= src.Length && src != region
      modifies region
      ensures Valid()
      ensures r == if Resolve(objects[..], h).Some? then Ok else BadHandle
      ensures r == BadHandle ==> written == 0 && region[..] == old(region[..])
      ensures r == Ok ==>
                var slot := Resolve(objects[..], h).value;
                && written == Transfer(objects[slot], bs, offset, n)
                && Scattered(old(Payload(slot)), Payload(slot), src[..], offset, written)
                && forall t :: 0 <= t < |chains| && t != slot ==> Payload(t) == old(Payload(t))
    {
      written := 0;
      var slot;
      match Resolve(objects[..], h) {
        case None => return BadHandle, 0;
        case Some(s) => slot := s;
      }
      var o := objects[slot];
      assert SlotOk(o, gens[slot], chains[slot], bs);
      if offset >= o.size {
        return Ok, 0;
      }
      TimesIsProduct(|chains[slot]|, bs);
      written := WriteChain(o.head, offset, src, Least(n, o.size - offset), chains, slot, src[..]);
      r := Ok;
    }
  }

  /** audio_pool_init: carves the region into blocks; no pool if not even one block fits. */
  method InitPool(region: array<byte>, bs: nat, maxObjects: nat) returns (p: Pool?)
    requires 1 <= bs <= 0x8000_0000 && maxObjects <= 0xFFFF
    ensures p == null <==> (region.Length / bs) % U32 == 0
    ensures p != null ==>
              && p.Valid() && fresh(p) && p.region == region && p.bs == bs
              && p.freeBlocks == p.owner.Length == (region.Length / bs) % U32
              && |p.chains| == maxObjects && forall s :: 0 <= s < maxObjects ==> !p.objects[s].inUse
  {
    TimesDivMod(region.Length, bs);
    var count := (region.Length / bs) % U32;
    if count == 0 {
      return null;
    }
    MulMonotone(count, region.Length / bs, bs);
    TimesIsProduct(region.Length / bs, bs);
    p := new Pool.Init(region, bs, count, maxObjects);
  }

  lemma UpdateAgain<T>(s: seq<T>, t: seq<T>, i: nat, x: T)
    requires |s| == |t| && i < |t| && t == s[i := t[i]]
    ensures t[i := x] == s[i := x]
  {
  }

  /** The free map of audio_pool_init: whatever its words hold, all bits are cleared. */
  method FreeMap(count: nat) returns (map_: Bitset.Bitset)
    ensures fresh(map_) && fresh(map_.words) && map_.Valid() && map_.nbits == count
    ensures map_.bits == seq(count, _ => false)
  {
    var words := new Bitset.Word[Bitset.WordsFor(count)];
    map_ := new Bitset.Bitset(words, count);
    map_.ClearAll();
  }

  /** memcpy between distinct buffers. */
  method CopyBytes(src: array<byte>, from: nat, dst: array<byte>, at: nat, len: nat)
    requires src != dst && from + len <= src.Length && at + len <= dst.Length
    modifies dst
    ensures Overwritten(old(dst[..]), dst[..], at, src[from..from + len])
  {
    forall i | 0 <= i < len {
      dst[at + i] := src[from + i];
    }
  }
}
