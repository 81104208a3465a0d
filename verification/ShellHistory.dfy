/**
  The shell's command history (history_add and history_get of examples/05_shell/shell.c): a ring of HIST_N rows of
  LINE_CAP bytes, each row a NUL-terminated string.
*/
module ShellHistory {
  import opened Bytes

  const LINE_CAP := 256
  const HIST_N := 16

  /** The row holds the text and the NUL after it. */
  ghost predicate HoldsText(buf: array2<byte>, row: nat, text: seq<byte>)
    requires buf.Length0 == HIST_N && buf.Length1 == LINE_CAP && row < HIST_N
    reads buf
  {
    && |text| < LINE_CAP && buf[row, |text|] == 0
    && forall i :: 0 <= i < |text| ==> text[i] != 0 && buf[row, i] == text[i]
  }

  /** A C string: no NUL inside. */
  predicate IsText(text: seq<byte>) {
    forall i :: 0 <= i < |text| ==> text[i] != 0
  }

  /** What scpy keeps of a string in LINE_CAP bytes. */
  function Cut(text: seq<byte>): (c: seq<byte>)
    ensures c <= text && |c| == if |text| < LINE_CAP then |text| else LINE_CAP - 1
  {
    if |text| < LINE_CAP then text else text[..LINE_CAP - 1]
  }

  /** Of the last HIST_N entries before entry n, only the oldest lies in the row where entry n goes. */
  lemma SameRow(j: nat, n: nat)
    requires n <= j + HIST_N && j < n
    ensures j % HIST_N == n % HIST_N <==> n == j + HIST_N
  {
  }

  lemma RowBehind(n: nat, i: nat)
    requires i < n && i < HIST_N
    ensures (n % HIST_N + HIST_N - 1 - i) % HIST_N == (n - 1 - i) % HIST_N
  {
  }

  lemma NextRow(n: nat)
    ensures (n % HIST_N + 1) % HIST_N == (n + 1) % HIST_N
  {
  }

  class History {
    const buf: array2<byte>
    var count: nat
    var head: nat
    /** Every line ever added, oldest first. */
    ghost var log: seq<seq<byte>>

    ghost predicate Valid()
      reads this, buf
    {
      && buf.Length0 == HIST_N && buf.Length1 == LINE_CAP
      && head == |log| % HIST_N && count == (if |log| < HIST_N then |log| else HIST_N)
      && forall j :: |log| - count <= j < |log| ==> Kept(j)
    }

    /** Entry j of the log is in its row. */
    ghost predicate Kept(j: int)
      requires buf.Length0 == HIST_N && buf.Length1 == LINE_CAP
      reads this, buf
    {
      0 <= j < |log| && |log[j]| > 0 && HoldsText(buf, j % HIST_N, log[j])
    }

    constructor ()
      ensures Valid() && log == [] && fresh(buf)
    {
      buf := new byte[HIST_N, LINE_CAP]((_, _) => 0);
      count, head, log := 0, 0, [];
    }

    /** The text of the i-th most recent entry. */
    ghost function Entry(i: nat): (e: seq<byte>)
      requires Valid() && i < count
      reads this, buf
      ensures |e| > 0
    {
      assert Kept(|log| - 1 - i);
      log[|log| - 1 - i]
    }

    /** scpy into one row. */
    method Fill(row: nat, line: seq<byte>)
      requires buf.Length0 == HIST_N && buf.Length1 == LINE_CAP && row < HIST_N && IsText(line)
      modifies buf
      ensures HoldsText(buf, row, Cut(line))
      ensures forall r, c :: 0 <= r < HIST_N && 0 <= c < LINE_CAP && r != row ==> buf[r, c] == old(buf[r, c])
    {
      var i := 0;
      while i + 1 < LINE_CAP && i < |line|
        invariant i <= |line| && i < LINE_CAP
        invariant forall k :: 0 <= k < i ==> buf[row, k] == line[k]
        invariant forall r, c :: 0 <= r < HIST_N && 0 <= c < LINE_CAP && r != row ==> buf[r, c] == old(buf[r, c])
      {
        buf[row, i] := line[i];
        i := i + 1;
      }
      buf[row, i] := 0;
      assert Cut(line) == line[..i];
    }

    /** history_add: a non-empty line, cut to the row, becomes the newest entry. */
    method Add(line: seq<byte>)
      requires Valid() && IsText(line)
      modifies this, buf
      ensures Valid()
      ensures log == if line == [] then old(log) else old(log) + [Cut(line)]
    {
      if line == [] {
        return;
      }
      ghost var n := |log|;
      NextRow(n);
      Fill(head, line);
      head := (head + 1) % HIST_N;
      if count < HIST_N {
        count := count + 1;
      }
      log := log + [Cut(line)];
      forall j | |log| - count <= j < |log|
        ensures Kept(j)
      {
        if j < n {
          SameRow(j, n);
          assert old(Kept(j));
        }
      }
    }

    /** history_get: the row of the i-th most recent entry, none from `count` on. */
    method Get(i: nat) returns (found: bool, row: nat)
      requires Valid()
      ensures found <==> i < count
      ensures found ==> row < HIST_N && HoldsText(buf, row, log[|log| - 1 - i])
    {
      if i >= count {
        return false, 0;
      }
      row := (head + HIST_N - 1 - i) % HIST_N;
      assert Kept(|log| - 1 - i);
      RowBehind(|log|, i);
      found := true;
    }
  }
}
