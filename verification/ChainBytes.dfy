/**
  An object's bytes seen through its block chain (src/audio/audio_pool.c, "chained data access").

  `Locate` says where in the region the k-th byte of an object lies; `Spell` is the flat byte array the chain
  spells out. The lemmas say that distinct bytes lie in distinct places and what one block's write does to the flat
  arrays.
*/
module ChainBytes {
  import opened Arith
  import opened Bytes

  /** Region offset of byte k of a chain of blocks of `bs` bytes. */
  function Locate(c: seq<nat>, bs: nat, k: nat): nat
    requires bs >= 1 && k < Times(|c|, bs)
    decreases |c|
  {
    if k < bs then Times(c[0], bs) + k else Locate(c[1..], bs, k - bs)
  }

  /** Byte r of the i-th block of a chain is byte i * bs + r of the object. */
  lemma {:induction false} LocateInBlock(c: seq<nat>, bs: nat, i: nat, r: nat)
    requires i < |c| && r < bs
    ensures Times(i, bs) + r < Times(|c|, bs)
    ensures Locate(c, bs, Times(i, bs) + r) == Times(c[i], bs) + r
  {
    TimesMonotone(i, |c|, bs);
    if i > 0 {
      LocateInBlock(c[1..], bs, i - 1, r);
    }
  }

  /** Every byte of an object is some byte of some block of its chain. */
  lemma {:induction false} BlockOf(c: seq<nat>, bs: nat, k: nat) returns (i: nat, r: nat)
    requires bs >= 1 && k < Times(|c|, bs)
    ensures i < |c| && r < bs && k == Times(i, bs) + r
    ensures Locate(c, bs, k) == Times(c[i], bs) + r
  {
    if k < bs {
      i, r := 0, k;
    } else {
      i, r := BlockOf(c[1..], bs, k - bs);
      i := i + 1;
    }
  }

  lemma SameRow(a: nat, r: nat, b: nat, t: nat, bs: nat)
    requires r < bs && t < bs
    ensures Times(a, bs) + r == Times(b, bs) + t <==> a == b && r == t
  {
    TimesMonotone(a, b, bs);
    TimesMonotone(b, a, bs);
  }

  /** Bytes `lo` to `hi` of block `b` hold byte k of a chain exactly if it is one of those bytes of that block. */
  lemma LocatedIn(c: seq<nat>, bs: nat, i: nat, r: nat, b: nat, lo: nat, hi: nat)
    requires i < |c| && r < bs && lo <= hi <= bs
    ensures Times(b, bs) + lo <= Times(c[i], bs) + r < Times(b, bs) + hi <==> c[i] == b && lo <= r < hi
  {
    TimesMonotone(c[i], b, bs);
    TimesMonotone(b, c[i], bs);
  }

  lemma BlockEnd(b: nat, bs: nat, count: nat)
    ensures b < count ==> Times(b, bs) + bs <= Times(count, bs)
  {
    TimesMonotone(b, count, bs);
  }

  /** The flat byte array a chain spells out. */
  ghost function Spell(region: seq<byte>, c: seq<nat>, bs: nat): (f: seq<byte>)
    requires bs >= 1
    ensures |f| == Times(|c|, bs)
  {
    seq(Times(|c|, bs), k requires 0 <= k < Times(|c|, bs) => ByteAt(region, Locate(c, bs, k)))
  }

  function ByteAt(region: seq<byte>, i: nat): byte {
    if i < |region| then region[i] else 0
  }

  /** Writing `w` into block i of a chain changes the chain's own bytes at i * bs + at and nothing else. */
  lemma SpellAfterWrite(r: seq<byte>, r': seq<byte>, c: seq<nat>, bs: nat, i: nat, at: nat, w: seq<byte>, k: nat)
    requires i < |c| && at + |w| <= bs && bs >= 1 && k < Times(|c|, bs)
    requires forall j :: 0 <= j < |c| && j != i ==> c[j] != c[i]
    requires Overwritten(r, r', Times(c[i], bs) + at, w)
    ensures Spell(r', c, bs)[k] ==
            if Times(i, bs) + at <= k < Times(i, bs) + at + |w| then w[k - (Times(i, bs) + at)] else Spell(r, c, bs)[k]
  {
    var j, m := BlockOf(c, bs, k);
    LocatedIn(c, bs, j, m, c[i], at, at + |w|);
    TimesMonotone(i, j, bs);
    TimesMonotone(j, i, bs);
  }

  /** Writing into a block leaves every chain without that block alone. */
  lemma SpellElsewhere(r: seq<byte>, r': seq<byte>, c: seq<nat>, bs: nat, b: nat, at: nat, w: seq<byte>)
    requires at + |w| <= bs && bs >= 1 && b !in c
    requires Overwritten(r, r', Times(b, bs) + at, w)
    ensures Spell(r', c, bs) == Spell(r, c, bs)
  {
    forall k | 0 <= k < Times(|c|, bs)
      ensures Spell(r', c, bs)[k] == Spell(r, c, bs)[k]
    {
      var j, m := BlockOf(c, bs, k);
      LocatedIn(c, bs, j, m, b, at, at + |w|);
    }
  }
}
