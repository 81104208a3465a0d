/**
  The candidate list of tab completion (comp_add and comp_common_prefix_len of examples/05_shell/shell.c): names packed
  one after the other, NUL-terminated, into a fixed pool.
*/
module ShellComplete {
  import opened Bytes
  import opened ShellHistory

  const MAX_CAND := 64
  const POOL_BYTES := 2048

  /** Among the first `used` bytes of the pool, those at `start` are the text and a NUL. */
  ghost predicate Stored(pool: array<byte>, used: nat, start: nat, text: seq<byte>)
    reads pool
  {
    && start + |text| < used <= pool.Length && pool[start + |text|] == 0
    && forall k :: 0 <= k < |text| ==> text[k] != 0 && pool[start + k] == text[k]
  }

  lemma ByteOf(pool: array<byte>, used: nat, start: nat, text: seq<byte>, k: nat)
    requires Stored(pool, used, start, text) && k <= |text|
    ensures pool[start + k] == 0 <==> k == |text|
    ensures k < |text| ==> pool[start + k] == text[k]
  {
    if k < |text| {
      assert text[k] != 0;
    }
  }

  /** Every text starts with p. */
  ghost predicate CommonPrefix(texts: seq<seq<byte>>, p: seq<byte>) {
    forall i :: 0 <= i < |texts| ==> p <= texts[i]
  }

  /** All texts agree with the first on their first k bytes, and have that many. */
  ghost predicate AgreeTo(texts: seq<seq<byte>>, k: nat) {
    |texts| > 0 && forall i :: 0 <= i < |texts| ==> SameTo(texts[0], texts[i], k)
  }

  ghost predicate SameTo(a: seq<byte>, b: seq<byte>, k: nat) {
    k <= |a| && k <= |b| && forall j :: 0 <= j < k ==> a[j] == b[j]
  }

  lemma SameIsPrefix(a: seq<byte>, b: seq<byte>, k: nat)
    requires SameTo(a, b, k)
    ensures a[..k] <= b
  {
  }

  /** When the texts agree to k but not to k + 1, the common prefixes are exactly the prefixes of those k bytes. */
  lemma AgreementIsLongest(texts: seq<seq<byte>>, k: nat, p: seq<byte>)
    requires AgreeTo(texts, k) && !AgreeTo(texts, k + 1)
    ensures CommonPrefix(texts, p) <==> p <= texts[0][..k]
  {
    forall i | 0 <= i < |texts|
      ensures texts[0][..k] <= texts[i]
    {
      SameIsPrefix(texts[0], texts[i], k);
    }
    PrefixAgrees(texts, p, k + 1);
  }

  lemma PrefixAgrees(texts: seq<seq<byte>>, p: seq<byte>, m: nat)
    requires |texts| > 0
    ensures CommonPrefix(texts, p) && m <= |p| ==> AgreeTo(texts, m)
  {
    forall i | 0 <= i < |texts|
      ensures p <= texts[0] && p <= texts[i] && m <= |p| ==> SameTo(texts[0], texts[i], m)
    {
    }
  }

  class CompList {
    const names: array<nat>
    const isDir: array<bool>
    const pool: array<byte>
    var count: nat
    var used: nat
    /** The names added, in order. */
    ghost var texts: seq<seq<byte>>

    constructor ()
      ensures Valid() && texts == [] && used == 0 && fresh(names) && fresh(isDir) && fresh(pool)
    {
      names := new nat[MAX_CAND](_ => 0);
      isDir := new bool[MAX_CAND](_ => false);
      pool := new byte[POOL_BYTES](_ => 0);
      count, used, texts := 0, 0, [];
    }

    ghost predicate Valid()
      reads this, names, isDir, pool
    {
      && names.Length == MAX_CAND && isDir.Length == MAX_CAND && pool.Length == POOL_BYTES
      && (names as object) != pool && (isDir as object) != pool && (names as object) != isDir
      && count == |texts| <= MAX_CAND && used <= POOL_BYTES
      && (forall i :: 0 <= i < count ==> Stored(pool, used, names[i], texts[i]))
      && (forall i, j :: 0 <= i < j < count ==> texts[i] != texts[j])
    }

    /** Whether candidate i is this name: its length, then its bytes. */
    method IsName(i: nat, name: seq<byte>) returns (same: bool)
      requires Valid() && i < count && IsText(name)
      ensures same <==> texts[i] == name
    {
      var p, m := names[i], 0;
      assert Stored(pool, used, p, texts[i]);
      while pool[p + m] != 0
        invariant m <= |texts[i]|
        decreases |texts[i]| - m
      {
        ByteOf(pool, used, p, texts[i], m);
        m := m + 1;
      }
      ByteOf(pool, used, p, texts[i], m);
      if m != |name| {
        return false;
      }
      var j := 0;
      while j < |name|
        invariant j <= |name| && texts[i][..j] == name[..j]
      {
        ByteOf(pool, used, p, texts[i], j);
        if pool[p + j] != name[j] {
          return false;
        }
        j := j + 1;
      }
      assert texts[i][..j] == texts[i] && name[..j] == name;
      same := true;
    }

    /** The duplicate check. */
    method Has(name: seq<byte>) returns (found: bool)
      requires Valid() && IsText(name)
      ensures found <==> name in texts
    {
      var i := 0;
      while i < count
        invariant i <= count && name !in texts[..i]
      {
        var same := IsName(i, name);
        if same {
          return true;
        }
        i := i + 1;
      }
      assert texts[..i] == texts;
      found := false;
    }

    /** comp_add: the name joins the list unless the list or the pool is full or it is there already. */
    method Add(name: seq<byte>, dir: bool)
      requires Valid() && IsText(name)
      modifies this, names, isDir, pool
      ensures Valid()
      ensures texts ==
              if old(count) >= MAX_CAND || old(used) + |name| + 1 > POOL_BYTES || name in old(texts) then old(texts)
              else old(texts) + [name]
      ensures used == if texts == old(texts) then old(used) else old(used) + |name| + 1
      ensures count > old(count) ==> isDir[old(count)] == dir
      ensures forall i :: 0 <= i < old(count) ==> isDir[i] == old(isDir[i])
    {
      if count >= MAX_CAND || used + |name| + 1 > POOL_BYTES {
        return;
      }
      var known := Has(name);
      if known {
        return;
      }
      CopyName(name);
      Enter(name, dir);
    }

    /** The copied name becomes a candidate. */
    method Enter(name: seq<byte>, dir: bool)
      requires Valid() && count < MAX_CAND && used + |name| + 1 <= POOL_BYTES && name !in texts
      requires Stored(pool, used + |name| + 1, used, name)
      requires forall j :: 0 <= j < count ==> Stored(pool, used + |name| + 1, names[j], texts[j])
      modifies this, names, isDir
      ensures Valid() && count == old(count) + 1
      ensures texts == old(texts) + [name] && used == old(used) + |name| + 1
      ensures isDir[old(count)] == dir && forall i :: 0 <= i < old(count) ==> isDir[i] == old(isDir[i])
    {
      isDir[count] := dir;
      names[count] := used;
      count := count + 1;
      used := used + |name| + 1;
      texts := texts + [name];
    }

    /** The copy into the free part of the pool. */
    method CopyName(name: seq<byte>)
      requires Valid() && IsText(name) && used + |name| + 1 <= POOL_BYTES
      modifies pool
      ensures forall k :: 0 <= k < used ==> pool[k] == old(pool[k])
      ensures Stored(pool, used + |name| + 1, used, name)
      ensures forall j :: 0 <= j < count ==> Stored(pool, used + |name| + 1, names[j], texts[j])
    {
      var i := 0;
      while i < |name|
        invariant i <= |name| && forall k :: 0 <= k < used ==> pool[k] == old(pool[k])
        invariant forall k :: 0 <= k < i ==> pool[used + k] == name[k]
      {
        pool[used + i] := name[i];
        i := i + 1;
      }
      pool[used + |name|] := 0;
      forall j | 0 <= j < count
        ensures Stored(pool, used + |name| + 1, names[j], texts[j])
      {
        assert old(Stored(pool, used, names[j], texts[j]));
      }
    }

    /** comp_common_prefix_len: how far all candidates agree, and no further. */
    method CommonPrefixLen() returns (k: nat)
      requires Valid()
      ensures count == 0 ==> k == 0
      ensures count > 0 ==> AgreeTo(texts, k) && !AgreeTo(texts, k + 1)
    {
      if count == 0 {
        return 0;
      }
      k := 0;
      while true
        invariant AgreeTo(texts, k)
        decreases |texts[0]| - k
      {
        assert Stored(pool, used, names[0], texts[0]);
        ByteOf(pool, used, names[0], texts[0], k);
        var ch := pool[names[0] + k];
        if ch == 0 {
          assert k == |texts[0]| && !SameTo(texts[0], texts[0], k + 1);
          return;
        }
        var i := 1;
        while i < count
          invariant 1 <= i <= count && forall j :: 0 <= j < i ==> SameTo(texts[0], texts[j], k + 1)
        {
          assert SameTo(texts[0], texts[i], k) && Stored(pool, used, names[i], texts[i]);
          ByteOf(pool, used, names[i], texts[i], k);
          if pool[names[i] + k] != ch {
            assert !SameTo(texts[0], texts[i], k + 1);
            return;
          }
          i := i + 1;
        }
        k := k + 1;
      }
    }
  }
}
