/**
  The bit set that allocators scan (src/containers/bitset.c). A word is its 32 bits, lowest first.
*/
module Bitset {
  type Word = w: seq<bool> | |w| == 32 witness seq(32, _ => false)

  /** BITSET_WORDS. */
  function WordsFor(nbits: nat): (n: nat)
    ensures nbits <= 32 * n < nbits + 32
  {
    (nbits + 31) / 32
  }

  datatype Found = Npos | At(i: nat)

  class Bitset {
    const nbits: nat
    const words: array<Word>
    var hint: nat
    /** The bits, in order. */
    ghost var bits: seq<bool>

    /** Words before the hint have no clear bit left: this is what makes the rolling hint safe. */
    ghost predicate Valid()
      reads this, words
    {
      && words.Length == WordsFor(nbits) && hint <= words.Length
      && (forall w :: 0 <= w < hint ==> Full(w))
      && |bits| == nbits && forall i :: 0 <= i < nbits ==> bits[i] == Bit(i)
    }

    /** Word w has no clear bit below nbits. */
    ghost predicate Full(w: nat)
      requires w < words.Length
      reads words
    {
      forall k :: 0 <= k < 32 && 32 * w + k < nbits ==> words[w][k]
    }

    /** Bit i. */
    predicate Bit(i: nat)
      requires words.Length == WordsFor(nbits) && i < nbits
      reads words
    {
      words[i / 32][i % 32]
    }

    /** bitset_init: the words are left as they are. */
    constructor (storage: array<Word>, n: nat)
      requires storage.Length == WordsFor(n)
      ensures Valid() && nbits == n && words == storage && hint == 0
    {
      nbits, words, hint := n, storage, 0;
      bits := seq(n, i requires 0 <= i < n reads storage => storage[i / 32][i % 32]);
    }

    /** bitset_set. */
    method Set(i: nat)
      requires Valid()
      modifies this`bits, words
      ensures Valid() && bits == if i < nbits then old(bits)[i := true] else old(bits)
    {
      if i >= nbits {
        return;
      }
      words[i / 32] := words[i / 32][i % 32 := true];
      bits := bits[i := true];
      forall w | 0 <= w < hint
        ensures Full(w)
      {
        assert old(Full(w));
      }
    }

    /** bitset_clear: the hint is wound back to a freed bit before it. */
    method Clear(i: nat)
      requires Valid()
      modifies this`hint, this`bits, words
      ensures Valid() && bits == if i < nbits then old(bits)[i := false] else old(bits)
    {
      if i >= nbits {
        return;
      }
      words[i / 32] := words[i / 32][i % 32 := false];
      bits := bits[i := false];
      if i / 32 < hint {
        hint := i / 32;
      }
      forall w | 0 <= w < hint
        ensures Full(w)
      {
        assert old(Full(w));
      }
    }

    /** bitset_test. */
    method Test(i: nat) returns (on: bool)
      requires Valid()
      ensures on <==> i < nbits && bits[i]
    {
      on := i < nbits && words[i / 32][i % 32];
    }

    /** bitset_clear_all. */
    method ClearAll()
      requires Valid()
      modifies this`hint, this`bits, words
      ensures Valid() && bits == seq(nbits, _ => false)
    {
      var w := 0;
      while w < words.Length
        invariant w <= words.Length && hint == old(hint) && forall v :: 0 <= v < w ==> words[v] == seq(32, _ => false)
      {
        words[w] := seq(32, _ => false);
        w := w + 1;
      }
      hint := 0;
      bits := seq(nbits, _ => false);
    }

    /** bits_ctz32 of the inverted word, bits from nbits on masked out: the lowest clear bit of word w, 32 if none. */
    method LowestClear(w: nat) returns (k: nat)
      requires words.Length == WordsFor(nbits) && w < words.Length
      ensures k <= 32 && (k == 32 <==> Full(w))
      ensures k < 32 ==> 32 * w + k < nbits && !words[w][k]
      ensures forall l :: 0 <= l < k && 32 * w + l < nbits ==> words[w][l]
    {
      k := 0;
      while k < 32 && (words[w][k] || 32 * w + k >= nbits)
        invariant k <= 32 && forall l :: 0 <= l < k && 32 * w + l < nbits ==> words[w][l]
      {
        k := k + 1;
      }
    }

    /** One pass of bitset_find_first_clear, over the words from `from` up to `to`. */
    method Pass(from: nat, to: nat) returns (r: Found)
      requires Valid() && from <= to <= words.Length
      modifies this`hint
      ensures r.Npos? ==> hint == old(hint) && forall w :: from <= w < to ==> Full(w)
      ensures r.At? ==>
                && from <= hint < to && hint == r.i / 32 && r.i < nbits && !Bit(r.i)
                && (forall w :: from <= w < hint ==> Full(w))
                && (forall j :: 32 * hint <= j < r.i ==> Bit(j))
    {
      var w := from;
      while w < to
        invariant from <= w <= to && hint == old(hint) && forall v :: from <= v < w ==> Full(v)
      {
        var k := LowestClear(w);
        if k < 32 {
          hint := w;
          forall j | 32 * w <= j < 32 * w + k
            ensures Bit(j)
          {
            assert words[w][j % 32];
          }
          return At(32 * w + k);
        }
        w := w + 1;
      }
      r := Npos;
    }

    lemma FullBit(j: nat)
      requires words.Length == WordsFor(nbits) && j < nbits && Full(j / 32)
      ensures Bit(j)
    {
      assert 32 * (j / 32) + j % 32 == j;
    }

    /** bitset_find_first_clear: although it starts at the hint, it finds the lowest clear bit of all. */
    method FindFirstClear() returns (r: Found)
      requires Valid()
      modifies this`hint
      ensures Valid()
      ensures r.Npos? ==> forall j :: 0 <= j < nbits ==> bits[j]
      ensures r.At? ==> r.i < nbits && !bits[r.i] && forall j :: 0 <= j < r.i ==> bits[j]
    {
      if words.Length == 0 {
        return Npos;
      }
      r := Pass(hint, words.Length);
      if r.Npos? {
        r := Pass(0, hint);
      }
      var upTo := if r.At? then r.i else nbits;
      forall j | 0 <= j < upTo
        ensures Bit(j)
      {
        if r.Npos? || j / 32 < hint {
          FullBit(j);
        }
      }
    }
  }
}
