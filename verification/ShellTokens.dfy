/**
  Splitting a command line into words (tokenize, find_token_start and find_token_index of examples/05_shell/shell.c).
*/
module ShellTokens {
  import opened Arith
  import opened Bytes
  import opened ShellHistory

  /** ' ' or '\t'. */
  predicate Blank(c: byte) {
    c == 0x20 || c == 0x09
  }

  /** Spaces and tabs separate words, and nothing else does. */
  lemma BlankBytes(c: byte)
    ensures Blank(c) <==> c as int == 32 || c as int == 9
  {
  }

  /** A word lies from `start` up to `end`. */
  datatype Word = Word(start: nat, end: nat)

  /** The words with byte n read: a blank adds nothing, another byte extends the open word or starts one. */
  function NextWords(t: seq<byte>, n: nat, ws: seq<Word>): seq<Word>
    requires n < |t| && (n > 0 && !Blank(t[n - 1]) ==> |ws| > 0)
  {
    if Blank(t[n]) then ws
    else if n > 0 && !Blank(t[n - 1]) then ws[|ws| - 1 := Word(ws[|ws| - 1].start, n + 1)]
    else ws + [Word(n, n + 1)]
  }

  /** The words of the first n bytes: the runs of bytes between blanks. */
  function WordsTo(t: seq<byte>, n: nat): (ws: seq<Word>)
    requires n <= |t|
    ensures n > 0 && !Blank(t[n - 1]) ==> |ws| > 0 && ws[|ws| - 1].end == n && ws[|ws| - 1].start < n
  {
    if n == 0 then [] else NextWords(t, n - 1, WordsTo(t, n - 1))
  }

  function Words(t: seq<byte>): seq<Word> {
    WordsTo(t, |t|)
  }

  /** A maximal run of non-blank bytes among the first n. */
  ghost predicate IsRun(t: seq<byte>, n: nat, w: Word) {
    && w.start < w.end <= n <= |t|
    && (forall k :: w.start <= k < w.end ==> !Blank(t[k]))
    && (w.start == 0 || Blank(t[w.start - 1])) && (w.end == n || Blank(t[w.end]))
  }

  /** A finished run stays one when a byte is added, unless it touches that byte. */
  lemma RunStays(t: seq<byte>, n: nat, w: Word)
    requires n < |t| && IsRun(t, n, w) && (w.end < n || Blank(t[n]))
    ensures IsRun(t, n + 1, w)
  {
  }

  /** The run that touches a non-blank byte grows by it. */
  lemma RunGrows(t: seq<byte>, n: nat, w: Word)
    requires n < |t| && IsRun(t, n, w) && w.end == n && !Blank(t[n])
    ensures IsRun(t, n + 1, Word(w.start, n + 1))
  {
  }

  ghost predicate AllRuns(t: seq<byte>, n: nat, ws: seq<Word>) {
    && (forall i :: 0 <= i < |ws| ==> IsRun(t, n, ws[i]))
    && (forall i, j :: 0 <= i < j < |ws| ==> ws[i].end < ws[j].start)
  }

  lemma NextBlank(t: seq<byte>, n: nat, ws: seq<Word>)
    requires n < |t| && AllRuns(t, n, ws) && Blank(t[n])
    ensures AllRuns(t, n + 1, ws)
  {
    forall i | 0 <= i < |ws|
      ensures IsRun(t, n + 1, ws[i])
    {
      RunStays(t, n, ws[i]);
    }
  }

  lemma NextGrows(t: seq<byte>, n: nat, ws: seq<Word>)
    requires n < |t| && AllRuns(t, n, ws) && !Blank(t[n]) && |ws| > 0 && ws[|ws| - 1].end == n
    ensures AllRuns(t, n + 1, ws[|ws| - 1 := Word(ws[|ws| - 1].start, n + 1)])
  {
    RunGrows(t, n, ws[|ws| - 1]);
    forall i | 0 <= i < |ws| - 1
      ensures IsRun(t, n + 1, ws[i])
    {
      assert ws[i].end < ws[|ws| - 1].start;
      RunStays(t, n, ws[i]);
    }
  }

  lemma NextNew(t: seq<byte>, n: nat, ws: seq<Word>)
    requires n < |t| && AllRuns(t, n, ws) && !Blank(t[n]) && (n == 0 || Blank(t[n - 1]))
    ensures AllRuns(t, n + 1, ws + [Word(n, n + 1)])
  {
    forall i | 0 <= i < |ws|
      ensures IsRun(t, n + 1, ws[i]) && ws[i].end < n
    {
      assert IsRun(t, n, ws[i]);
      RunStays(t, n, ws[i]);
    }
  }

  lemma NextRuns(t: seq<byte>, n: nat, m: nat, ws: seq<Word>)
    requires n < |t| && m == n + 1 && AllRuns(t, n, ws)
    requires n > 0 && !Blank(t[n - 1]) ==> |ws| > 0 && ws[|ws| - 1].end == n
    ensures AllRuns(t, m, NextWords(t, n, ws))
  {
    if Blank(t[n]) {
      NextBlank(t, n, ws);
    } else if n > 0 && !Blank(t[n - 1]) {
      NextGrows(t, n, ws);
    } else {
      NextNew(t, n, ws);
    }
  }

  /** The words are maximal runs, in order. */
  lemma {:induction false} WordsAreRuns(t: seq<byte>, n: nat)
    requires n <= |t|
    ensures AllRuns(t, n, WordsTo(t, n))
  {
    if n > 0 {
      var m := n - 1;
      var ws := WordsTo(t, m);
      WordsAreRuns(t, m);
      assert AllRuns(t, m, ws);
      NextRuns(t, m, n, ws);
    }
  }

  /** No run is missed: every non-blank byte is in a word. */
  lemma {:induction false} EveryByteCovered(t: seq<byte>, n: nat, k: nat)
    requires k < n <= |t| && !Blank(t[k])
    ensures exists i :: 0 <= i < |WordsTo(t, n)| && WordsTo(t, n)[i].start <= k < WordsTo(t, n)[i].end
  {
    var ws := WordsTo(t, n);
    if k == n - 1 {
      assert ws[|ws| - 1].start <= k < ws[|ws| - 1].end;
    } else {
      EveryByteCovered(t, n - 1, k);
      var prev := WordsTo(t, n - 1);
      var i :| 0 <= i < |prev| && prev[i].start <= k < prev[i].end;
      assert ws[i].start <= k < ws[i].end;
    }
  }

  /** Later bytes leave a finished word alone. */
  lemma {:induction false} WordsGrow(t: seq<byte>, p: nat, q: nat)
    requires p <= q <= |t| && (p == 0 || p == |t| || Blank(t[p - 1]) || Blank(t[p]))
    ensures WordsTo(t, p) <= WordsTo(t, q)
  {
    if p < q {
      if q == p + 1 {
      } else {
        WordsGrow(t, p, q - 1);
        if !Blank(t[q - 1]) && !Blank(t[q - 2]) {
          LastIsNew(t, p, q - 1);
        }
      }
    }
  }

  /** A word still open at q, with a boundary at p before it, is not among the words at p. */
  lemma {:induction false} LastIsNew(t: seq<byte>, p: nat, q: nat)
    requires p < q <= |t| && (p == 0 || Blank(t[p - 1]) || Blank(t[p])) && !Blank(t[q - 1])
    ensures |WordsTo(t, p)| < |WordsTo(t, q)|
  {
    if q > p + 1 {
      if Blank(t[q - 2]) {
        CountGrows(t, p, q - 1);
      } else {
        LastIsNew(t, p, q - 1);
      }
    }
  }

  lemma {:induction false} CountGrows(t: seq<byte>, p: nat, q: nat)
    requires p <= q <= |t|
    ensures |WordsTo(t, p)| <= |WordsTo(t, q)|
  {
    if p < q {
      CountGrows(t, p, q - 1);
    }
  }

  // ---- tokenize ----

  /** The bytes at `start` are the word and a NUL. */
  ghost predicate StringAt(line: seq<byte>, start: nat, w: seq<byte>) {
    start + |w| < |line| && line[start..start + |w|] == w && line[start + |w|] == 0
  }

  predicate IsEnd(ws: seq<Word>, k: nat) {
    exists i :: 0 <= i < |ws| && ws[i].end == k
  }

  /** The words have been cut off: argv points at them, their ends are NUL, and no other byte has changed. */
  ghost predicate CutTo(line: seq<byte>, argv: seq<nat>, t: seq<byte>, ws: seq<Word>) {
    && |t| < |line| && |ws| <= |argv| && line[|t|] == 0
    && (forall i :: 0 <= i < |ws| ==> argv[i] == ws[i].start && ws[i].end <= |t|)
    && (forall k :: 0 <= k < |t| ==> line[k] == if IsEnd(ws, k) then 0 else t[k])
  }

  /** Cutting off one more word. */
  lemma CutOne(line: seq<byte>, argv: seq<nat>, t: seq<byte>, ws: seq<Word>, w: Word, line': seq<byte>, argv': seq<nat>)
    requires CutTo(line, argv, t, ws) && |ws| < |argv| && w.end <= |t|
    requires argv' == argv[|ws| := w.start] && line' == line[w.end := 0]
    ensures CutTo(line', argv', t, ws + [w])
  {
    var next := ws + [w];
    forall k | 0 <= k < |t|
      ensures line'[k] == if IsEnd(next, k) then 0 else t[k]
    {
      if IsEnd(ws, k) {
        var i :| 0 <= i < |ws| && ws[i].end == k;
        assert next[i].end == k;
      } else if k == w.end {
        assert next[|ws|].end == k;
      }
    }
  }

  /** tokenize, on a line holding the text t: the first maxArgv words. */
  method Tokenize(line: array<byte>, argv: array<nat>, maxArgv: nat, ghost t: seq<byte>) returns (n: nat)
    requires |t| < line.Length && IsText(t) && line[..|t|] == t && line[|t|] == 0
    requires maxArgv <= argv.Length && (argv as object) != line
    modifies line, argv
    ensures n == Least(maxArgv, |Words(t)|)
    ensures CutTo(line[..], argv[..], t, Words(t)[..n])
  {
    n := 0;
    var p := 0;
    while line[p] != 0 && n < maxArgv
      invariant n <= maxArgv && Progress(line[..], argv[..], t, p, n)
      decreases |t| - p
    {
      ghost var was := p;
      p := SkipBlanks(line, t, p);
      StillUntouched(line[..], t, was, p);
      if line[p] == 0 {
        break;
      }
      p := TakeWord(line, argv, t, p, n);
      n := n + 1;
    }
    AllTaken(line[..], argv[..], t, p, n, maxArgv);
  }

  /** The words before p, n of them, have been taken. */
  ghost predicate Progress(line: seq<byte>, argv: seq<nat>, t: seq<byte>, p: nat, n: nat) {
    Boundary(t, p) && n == |WordsTo(t, p)| && CutTo(line, argv, t, WordsTo(t, p)) && Untouched(line, t, p)
  }

  lemma AllTaken(line: seq<byte>, argv: seq<nat>, t: seq<byte>, p: nat, n: nat, maxArgv: nat)
    requires Progress(line, argv, t, p, n) && n <= maxArgv && (line[p] == 0 || n == maxArgv)
    ensures n == Least(maxArgv, |Words(t)|) && CutTo(line, argv, t, Words(t)[..n])
  {
    WordsGrow(t, p, |t|);
    assert Words(t)[..n] == WordsTo(t, p);
    StillUntouched(line, t, p, p);
  }

  /** argv[n++] = p, past the word, and the NUL at its end. */
  method TakeWord(line: array<byte>, argv: array<nat>, ghost t: seq<byte>, p: nat, n: nat) returns (q: nat)
    requires Progress(line[..], argv[..], t, p, n) && p < |t| && !Blank(t[p]) && n < argv.Length
    requires (argv as object) != line
    modifies line, argv
    ensures p < q <= |t| && Progress(line[..], argv[..], t, q, n + 1)
  {
    ghost var l, a := line[..], argv[..];
    var e := SkipWord(line, t, p);
    AfterWord(l, a, t, p, e);
    argv[n] := p;
    q := e;
    if line[q] != 0 {
      line[q] := 0;
      q := q + 1;
    }
    assert argv[..] == a[n := p] && line[..] == l[e := 0];
  }

  /** The state after a word that ends at e: the blank there, if any, has become a NUL and is passed. */
  lemma AfterWord(l: seq<byte>, a: seq<nat>, t: seq<byte>, p: nat, e: nat)
    requires p < e <= |t| && WordsTo(t, e) == WordsTo(t, p) + [Word(p, e)] && (e < |t| ==> Blank(t[e]))
    requires CutTo(l, a, t, WordsTo(t, p)) && Untouched(l, t, p) && |WordsTo(t, p)| < |a|
    ensures l[e] == 0 <==> e == |t|
    ensures var q := if e == |t| then e else e + 1;
            && Boundary(t, q) && WordsTo(t, q) == WordsTo(t, e)
            && CutTo(l[e := 0], a[|WordsTo(t, p)| := p], t, WordsTo(t, q)) && Untouched(l[e := 0], t, q)
  {
    CutOne(l, a, t, WordsTo(t, p), Word(p, e), l[e := 0], a[|WordsTo(t, p)| := p]);
  }

  /** Between words, or at the end. */
  predicate Boundary(t: seq<byte>, p: nat) {
    p <= |t| && (p == 0 || p == |t| || Blank(t[p - 1]) || Blank(t[p]))
  }

  /** The bytes from p on are the text's. */
  ghost predicate Untouched(line: seq<byte>, t: seq<byte>, p: nat) {
    p <= |t| < |line| && line[|t|] == 0 && IsText(t) && forall k :: p <= k < |t| ==> line[k] == t[k]
  }

  lemma StillUntouched(line: seq<byte>, t: seq<byte>, p: nat, q: nat)
    requires Untouched(line, t, p) && p <= q <= |t|
    ensures Untouched(line, t, q) && (line[q] == 0 <==> q == |t|)
  {
  }

  method SkipBlanks(line: array<byte>, ghost t: seq<byte>, p: nat) returns (q: nat)
    requires Untouched(line[..], t, p) && Boundary(t, p)
    ensures p <= q <= |t| && WordsTo(t, q) == WordsTo(t, p) && Boundary(t, q)
    ensures q < |t| ==> !Blank(t[q])
  {
    q := p;
    while line[q] == 0x20 || line[q] == 0x09
      invariant p <= q <= |t| && WordsTo(t, q) == WordsTo(t, p) && Boundary(t, q)
      decreases |t| - q
    {
      q := q + 1;
    }
  }

  method SkipWord(line: array<byte>, ghost t: seq<byte>, p: nat) returns (q: nat)
    requires Untouched(line[..], t, p) && Boundary(t, p) && p < |t| && !Blank(t[p])
    ensures p < q <= |t| && WordsTo(t, q) == WordsTo(t, p) + [Word(p, q)]
    ensures q < |t| ==> Blank(t[q])
  {
    q := p;
    while line[q] != 0 && line[q] != 0x20 && line[q] != 0x09
      invariant p <= q <= |t|
      invariant q > p ==> !Blank(t[q - 1]) && WordsTo(t, q) == WordsTo(t, p) + [Word(p, q)]
      decreases |t| - q
    {
      q := q + 1;
    }
  }

  /** Each argv entry of a cut line is its word, NUL-terminated. */
  lemma TokenString(line: seq<byte>, argv: seq<nat>, t: seq<byte>, n: nat, i: nat)
    requires n <= |Words(t)| && CutTo(line, argv, t, Words(t)[..n]) && i < n
    ensures var w := Words(t)[i];
            w.start < w.end <= |t| && argv[i] == w.start && StringAt(line, argv[i], t[w.start..w.end])
  {
    var ws := Words(t)[..n];
    var w := ws[i];
    WordsAreRuns(t, |t|);
    assert IsRun(t, |t|, w);
    forall k | w.start <= k < w.end
      ensures line[k] == t[k]
    {
      EndIsBlank(t, ws, k);
    }
    assert IsEnd(ws, w.end);
  }

  /** The same over the bytes: an entry is where its word starts, the word's bytes stand there, and a NUL where it ended. */
  lemma TokenBytes(line: seq<byte>, argv: seq<nat>, t: seq<byte>, n: nat, i: nat)
    requires n <= |Words(t)| && CutTo(line, argv, t, Words(t)[..n]) && i < n
    ensures var w := Words(t)[i];
            && w.start < w.end <= |t| && argv[i] == w.start && w.end < |line|
            && line[w.start..w.end] == t[w.start..w.end] && line[w.end] == 0
  {
    TokenString(line, argv, t, n, i);
  }

  lemma EndIsBlank(t: seq<byte>, ws: seq<Word>, k: nat)
    requires ws <= Words(t) && k < |t|
    ensures IsEnd(ws, k) ==> Blank(t[k])
  {
    WordsAreRuns(t, |t|);
    if IsEnd(ws, k) {
      var j :| 0 <= j < |ws| && ws[j].end == k;
      assert IsRun(t, |t|, Words(t)[j]);
    }
  }

  // ---- the token under the cursor ----

  predicate InWord(t: seq<byte>, pos: nat) {
    0 < pos <= |t| && !Blank(t[pos - 1])
  }

  /** find_token_start: where the word that ends at the cursor starts, or the cursor itself. */
  method FindTokenStart(buf: seq<byte>, pos: nat) returns (s: nat)
    requires pos <= |buf|
    ensures InWord(buf, pos) ==> s == WordsTo(buf, pos)[|WordsTo(buf, pos)| - 1].start
    ensures !InWord(buf, pos) ==> s == pos
  {
    s := pos;
    while s > 0 && buf[s - 1] != 0x20 && buf[s - 1] != 0x09
      invariant s <= pos && forall k :: s <= k < pos ==> !Blank(buf[k])
    {
      s := s - 1;
    }
    WordsAreRuns(buf, pos);
    if InWord(buf, pos) {
      assert IsRun(buf, pos, WordsTo(buf, pos)[|WordsTo(buf, pos)| - 1]);
    }
  }

  /** find_token_index: the number of words before the one at the cursor. */
  method FindTokenIndex(buf: seq<byte>, pos: nat) returns (idx: nat)
    requires pos <= |buf|
    ensures idx + (if InWord(buf, pos) then 1 else 0) == |WordsTo(buf, pos)|
  {
    idx := 0;
    var inTok, i := false, 0;
    while i < pos
      invariant i <= pos && inTok == InWord(buf, i)
      invariant idx + (if inTok then 1 else 0) == |WordsTo(buf, i)|
    {
      var c := buf[i];
      if c == 0x20 || c == 0x09 {
        if inTok {
          idx := idx + 1;
        }
        inTok := false;
      } else {
        inTok := true;
      }
      i := i + 1;
    }
  }

  /** The words up to the cursor do not depend on what follows it. */
  lemma {:induction false} PrefixWords(t: seq<byte>, u: seq<byte>, n: nat)
    requires n <= |t| && n <= |u| && t[..n] == u[..n]
    ensures WordsTo(t, n) == WordsTo(u, n)
  {
    if n > 0 {
      assert t[..n][n - 1] == u[..n][n - 1];
      if n > 1 {
        assert t[..n][n - 2] == u[..n][n - 2];
      }
      assert t[..n - 1] == t[..n][..n - 1] == u[..n][..n - 1] == u[..n - 1];
      PrefixWords(t, u, n - 1);
    }
  }

  /** Tokenizing the text before the cursor agrees with both: the word at the cursor has that index and that start. */
  lemma CursorAgrees(buf: seq<byte>, pos: nat, line: seq<byte>, argv: seq<nat>, n: nat, start: nat, idx: nat)
    requires pos <= |buf| && n == |Words(buf[..pos])|
    requires CutTo(line, argv, buf[..pos], Words(buf[..pos])[..n])
    requires InWord(buf, pos) ==> start == WordsTo(buf, pos)[|WordsTo(buf, pos)| - 1].start
    requires idx + (if InWord(buf, pos) then 1 else 0) == |WordsTo(buf, pos)|
    ensures InWord(buf, pos) ==> n == idx + 1 && argv[idx] == start
    ensures !InWord(buf, pos) ==> n == idx
  {
    PrefixWords(buf, buf[..pos], pos);
  }

  // ---- joining ----

  predicate Blanks(g: seq<byte>) {
    forall i :: 0 <= i < |g| ==> Blank(g[i])
  }

  predicate Solid(w: seq<byte>) {
    |w| > 0 && forall i :: 0 <= i < |w| ==> !Blank(w[i])
  }

  /** Words with blanks before each. */
  function Join(gaps: seq<seq<byte>>, words: seq<seq<byte>>): seq<byte>
    requires |gaps| == |words|
  {
    if |words| == 0 then [] else
      Join(gaps[..|gaps| - 1], words[..|words| - 1]) + gaps[|gaps| - 1] + words[|words| - 1]
  }

  predicate Joinable(gaps: seq<seq<byte>>, words: seq<seq<byte>>) {
    && |gaps| == |words|
    && forall i :: 0 <= i < |words| ==> Solid(words[i]) && Blanks(gaps[i]) && (i > 0 ==> |gaps[i]| > 0)
  }

  lemma {:induction false} BlanksAddNothing(t: seq<byte>, n: nat, m: nat)
    requires n <= m <= |t| && forall k :: n <= k < m ==> Blank(t[k])
    ensures WordsTo(t, m) == WordsTo(t, n)
  {
    if n < m {
      BlanksAddNothing(t, n, m - 1);
    }
  }

  lemma {:induction false} SolidAddsOne(t: seq<byte>, n: nat, m: nat)
    requires n < m <= |t| && (n == 0 || Blank(t[n - 1])) && forall k :: n <= k < m ==> !Blank(t[k])
    ensures WordsTo(t, m) == WordsTo(t, n) + [Word(n, m)]
  {
    if n + 1 < m {
      SolidAddsOne(t, n, m - 1);
    }
  }

  /** Where the i-th word of a joined line stands. */
  ghost predicate Spells(t: seq<byte>, ws: seq<Word>, words: seq<seq<byte>>) {
    && |ws| == |words|
    && forall i :: 0 <= i < |ws| ==> ws[i].start <= ws[i].end <= |t| && t[ws[i].start..ws[i].end] == words[i]
  }

  /** Splitting undoes joining: the words of the joined line, with any blanks after it, are the words that were joined. */
  lemma {:induction false} SplitUndoesJoin(gaps: seq<seq<byte>>, words: seq<seq<byte>>, tail: seq<byte>)
    requires Joinable(gaps, words) && Blanks(tail)
    ensures Spells(Join(gaps, words) + tail, Words(Join(gaps, words) + tail), words)
  {
    var t := Join(gaps, words);
    SplitJoined(gaps, words);
    TailStays(t, tail, words);
  }

  lemma TailStays(t: seq<byte>, tail: seq<byte>, words: seq<seq<byte>>)
    requires Blanks(tail) && Spells(t, Words(t), words)
    ensures Spells(t + tail, Words(t + tail), words)
  {
    var u := t + tail;
    assert t[..|t|] == u[..|t|];
    PrefixWords(t, u, |t|);
    BlanksAddNothing(u, |t|, |u|);
    SpellsStay(t, tail, Words(t), words);
  }

  lemma SpellsStay(t: seq<byte>, more: seq<byte>, ws: seq<Word>, words: seq<seq<byte>>)
    requires Spells(t, ws, words)
    ensures Spells(t + more, ws, words)
  {
    forall i | 0 <= i < |ws|
      ensures (t + more)[ws[i].start..ws[i].end] == words[i]
    {
      assert t[ws[i].start..ws[i].end] == words[i];
      assert (t + more)[ws[i].start..ws[i].end] == t[ws[i].start..ws[i].end];
    }
  }

  lemma {:induction false} SplitJoined(gaps: seq<seq<byte>>, words: seq<seq<byte>>)
    requires Joinable(gaps, words)
    ensures Spells(Join(gaps, words), Words(Join(gaps, words)), words)
  {
    if |words| > 0 {
      var m := |words| - 1;
      SplitJoined(gaps[..m], words[..m]);
      var t := Join(gaps[..m], words[..m]);
      TailStays(t, gaps[m], words[..m]);
      var u := t + gaps[m];
      assert m == 0 ==> t == [];
      WordAdded(u, words[m], words[..m]);
      assert words[..m] + [words[m]] == words;
    }
  }

  lemma WordAdded(u: seq<byte>, w: seq<byte>, words: seq<seq<byte>>)
    requires Solid(w) && Spells(u, Words(u), words) && (u == [] || Blank(u[|u| - 1]))
    ensures Spells(u + w, Words(u + w), words + [w])
  {
    OneMoreWord(u, w);
    SpellsStay(u, w, Words(u), words);
    SpellsOneMore(u + w, Words(u), words, Word(|u|, |u| + |w|), w);
  }

  lemma OneMoreWord(u: seq<byte>, w: seq<byte>)
    requires Solid(w) && (u == [] || Blank(u[|u| - 1]))
    ensures Words(u + w) == Words(u) + [Word(|u|, |u| + |w|)]
  {
    var v := u + w;
    assert u[..|u|] == v[..|u|];
    PrefixWords(u, v, |u|);
    SolidAddsOne(v, |u|, |v|);
  }

  lemma SpellsOneMore(v: seq<byte>, ws: seq<Word>, words: seq<seq<byte>>, x: Word, w: seq<byte>)
    requires Spells(v, ws, words) && x.start <= x.end <= |v| && v[x.start..x.end] == w
    ensures Spells(v, ws + [x], words + [w])
  {
  }
}
