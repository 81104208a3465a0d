/**
  The raw-mode line editor (set_line and readline_raw of examples/05_shell/shell.c), byte by byte: the escape parser,
  history recall with the draft kept aside, and the keys that edit.
*/
module ShellEditor {
  import opened Arith
  import opened Bytes
  import opened ShellHistory

  // ---- the editor between two bytes ----

  /** EscState. */
  datatype Esc = None | Intro | Csi

  datatype Status = Editing | Submitted | Eof

  /** The working text, the escape parser, the entry shown (-1 for the draft), the draft kept aside, and whether
      readline_raw has returned. */
  datatype Session = Session(text: seq<byte>, esc: Esc, shown: int, draft: seq<byte>, status: Status)

  /** A byte read. `ext` is what tab completion would append now; it matters for a tab only. */
  datatype Key = Key(b: byte, ext: seq<byte>)

  const ESC_BYTE: byte := 0x1B
  const BRACKET: byte := 0x5B
  const UP: byte := 0x41
  const DOWN: byte := 0x42

  /** `hist` lists the history's texts, newest first. */
  ghost predicate Ok(s: Session, hist: seq<seq<byte>>) {
    && IsText(s.text) && IsText(s.draft) && |s.draft| < LINE_CAP && -1 <= s.shown < |hist|
    && |s.text| < LINE_CAP && (s.status == Editing ==> |s.text| < LINE_CAP - 1)
  }

  /** Entries of the history are texts of at most LINE_CAP - 1 bytes. */
  ghost predicate HistOk(hist: seq<seq<byte>>) {
    forall i :: 0 <= i < |hist| ==> IsText(hist[i]) && |hist[i]| < LINE_CAP
  }

  ghost predicate KeyOk(s: Session, k: Key) {
    IsText(k.ext) && |s.text| + |k.ext| < LINE_CAP
  }

  function Recall(s: Session, hist: seq<seq<byte>>, i: nat): Session
    requires i < |hist|
  {
    s.(text := hist[i], shown := i)
  }

  function GoUp(s: Session, hist: seq<seq<byte>>): Session
    requires s.shown < |hist|
  {
    if |hist| == 0 then s
    else if s.shown < 0 then Recall(s.(draft := s.text), hist, 0)
    else Recall(s, hist, if s.shown + 1 < |hist| then s.shown + 1 else s.shown)
  }

  function GoDown(s: Session, hist: seq<seq<byte>>): Session
    requires s.shown < |hist|
  {
    if s.shown < 0 then s
    else if s.shown == 0 then s.(text := s.draft, shown := -1)
    else Recall(s, hist, s.shown - 1)
  }

  /** A byte outside escape sequences. */
  function Plain(s: Session, k: Key): Session {
    if k.b == 10 || k.b == 13 then s.(status := Submitted)
    else if k.b == 0x7F || k.b == 8 then if |s.text| > 0 then s.(text := s.text[..|s.text| - 1]) else s
    else if k.b == 3 then s.(text := [], status := Submitted)
    else if k.b == 4 then if |s.text| == 0 then s.(status := Eof) else s
    else if k.b == 0x15 then s.(text := [])
    else if k.b == 9 then s.(text := s.text + k.ext)
    else if 0x20 <= k.b <= 0x7E then s.(text := s.text + [k.b])
    else s
  }

  /** The check at the top of the loop: a full buffer is submitted without another byte. */
  function SubmitFull(s: Session): Session {
    if s.status == Editing && |s.text| >= LINE_CAP - 1 then s.(status := Submitted) else s
  }

  function Escaped(s: Session, hist: seq<seq<byte>>, b: byte): Session
    requires s.shown < |hist|
  {
    if 0x40 <= b <= 0x7E then
      (if b == UP then GoUp(s, hist) else if b == DOWN then GoDown(s, hist) else s).(esc := None)
    else s
  }

  /** The escape parser in front of the keys. */
  function Dispatch(s: Session, hist: seq<seq<byte>>, k: Key): Session
    requires s.shown < |hist|
  {
    match s.esc
    case Intro => s.(esc := if k.b == BRACKET || k.b == 0x4F then Csi else None)
    case Csi => Escaped(s, hist, k.b)
    case None => if k.b == ESC_BYTE then s.(esc := Intro) else Plain(s, k)
  }

  function Step(s: Session, hist: seq<seq<byte>>, k: Key): Session
    requires s.shown < |hist|
  {
    if s.status != Editing then s
    else SubmitFull(Dispatch(s, hist, k))
  }

  /** A step keeps the text a string that fits the buffer, and the editor only waits for a byte while there is room. */
  lemma StepKeeps(s: Session, hist: seq<seq<byte>>, k: Key)
    requires Ok(s, hist) && HistOk(hist) && KeyOk(s, k)
    ensures Ok(Step(s, hist, k), hist)
  {
    if s.status == Editing {
      match s.esc {
        case Intro =>
        case Csi => EscapedFits(s, hist, k.b);
        case None => PlainFits(s, hist, k);
      }
      assert Fits(Dispatch(s, hist, k), hist);
    }
  }

  /** Texts and positions are in range; the text may fill the buffer. */
  ghost predicate Fits(s: Session, hist: seq<seq<byte>>) {
    && IsText(s.text) && |s.text| < LINE_CAP && IsText(s.draft) && |s.draft| < LINE_CAP
    && -1 <= s.shown < |hist|
  }

  lemma PlainFits(s: Session, hist: seq<seq<byte>>, k: Key)
    requires Ok(s, hist) && s.status == Editing && KeyOk(s, k)
    ensures Fits(Plain(s, k), hist)
  {
    assert |s.text| < LINE_CAP - 1;
  }

  lemma EscapedFits(s: Session, hist: seq<seq<byte>>, b: byte)
    requires Ok(s, hist) && HistOk(hist)
    ensures Fits(Escaped(s, hist, b), hist)
  {
    if 0x40 <= b <= 0x7E {
      if b == UP {
        UpFits(s, hist);
      } else if b == DOWN {
        DownFits(s, hist);
      }
    }
  }

  lemma UpFits(s: Session, hist: seq<seq<byte>>)
    requires Ok(s, hist) && HistOk(hist)
    ensures Fits(GoUp(s, hist), hist)
  {
  }

  lemma DownFits(s: Session, hist: seq<seq<byte>>)
    requires Ok(s, hist) && HistOk(hist)
    ensures Fits(GoDown(s, hist), hist)
  {
  }

  lemma StepShown(s: Session, hist: seq<seq<byte>>, k: Key)
    requires s.shown < |hist|
    ensures Step(s, hist, k).shown < |hist|
  {
  }

  function Run(s: Session, hist: seq<seq<byte>>, keys: seq<Key>): (e: Session)
    requires s.shown < |hist|
    ensures e.shown < |hist|
  {
    if |keys| == 0 then s else
      var m := Run(s, hist, keys[..|keys| - 1]);
      StepShown(m, hist, keys[|keys| - 1]);
      Step(m, hist, keys[|keys| - 1])
  }

  lemma {:induction false} RunAppend(s: Session, hist: seq<seq<byte>>, a: seq<Key>, b: seq<Key>)
    requires s.shown < |hist|
    ensures Run(s, hist, a + b) == Run(Run(s, hist, a), hist, b)
  {
    if |b| == 0 {
      assert a + b == a;
    } else {
      RunAppend(s, hist, a, b[..|b| - 1]);
      assert (a + b)[..|a + b| - 1] == a + b[..|b| - 1];
    }
  }

  // ---- arrow keys ----

  function Arrow(b: byte): seq<Key> {
    [Key(ESC_BYTE, []), Key(BRACKET, []), Key(b, [])]
  }

  /** n presses of an arrow key, three bytes each. */
  function Arrows(b: byte, n: nat): seq<Key> {
    if n == 0 then [] else Arrows(b, n - 1) + Arrow(b)
  }

  lemma ArrowRun(s: Session, hist: seq<seq<byte>>, b: byte)
    requires Ok(s, hist) && (b == UP || b == DOWN) && s.esc == None
    ensures Run(s, hist, Arrow(b)) ==
            if s.status != Editing then s else SubmitFull(if b == UP then GoUp(s, hist) else GoDown(s, hist))
  {
    var k := Arrow(b);
    assert k[..2][..1][..0] == [] && k[..2][..1] == k[..1] && k[..2][1] == k[1] && k[..1][0] == k[0];
    assert Run(s, hist, k[..1]) == Step(s, hist, k[0]);
    assert Run(s, hist, k[..2]) == Step(Step(s, hist, k[0]), hist, k[1]);
    assert Run(s, hist, k) == Step(Run(s, hist, k[..2]), hist, k[2]);
  }

  /** The newest entry that fills the buffer, or the number of entries if none does. */
  function FirstFull(hist: seq<seq<byte>>, i: nat): (f: nat)
    requires i <= |hist|
    ensures i <= f <= |hist| && (f < |hist| ==> |hist[f]| >= LINE_CAP - 1)
    ensures forall j :: i <= j < f ==> |hist[j]| < LINE_CAP - 1
    decreases |hist| - i
  {
    if i == |hist| || |hist[i]| >= LINE_CAP - 1 then i else FirstFull(hist, i + 1)
  }

  /** The editor showing entry m - 1, having come from the session s. */
  function Showing(s: Session, hist: seq<seq<byte>>, m: nat): Session
    requires m <= |hist|
  {
    if m == 0 then s else s.(text := hist[m - 1], shown := m - 1, draft := s.text)
  }

  lemma FullAt(hist: seq<seq<byte>>, m: nat)
    requires m < |hist| && m <= FirstFull(hist, 0)
    ensures |hist[m]| >= LINE_CAP - 1 <==> m == FirstFull(hist, 0)
  {
  }

  /** One more Up from entry m - 1. */
  lemma OneUp(s: Session, hist: seq<seq<byte>>, m: nat)
    requires HistOk(hist) && Ok(s, hist) && s.status == Editing && s.shown == -1 && m <= FirstFull(hist, 0)
    ensures Ok(Showing(s, hist, m), hist)
    ensures SubmitFull(GoUp(Showing(s, hist, m), hist)) ==
            if m == |hist| then Showing(s, hist, m)
            else if m < FirstFull(hist, 0) then Showing(s, hist, m + 1)
            else Showing(s, hist, m + 1).(status := Submitted)
  {
    if m < |hist| {
      FullAt(hist, m);
    }
    if m > 0 {
      FullAt(hist, m - 1);
    }
  }

  /** n Ups from a draft: the least(n, count)-th newest entry is shown, unless a full one comes first and is submitted. */
  lemma {:induction false} UpsShow(s: Session, hist: seq<seq<byte>>, n: nat)
    requires Ok(s, hist) && HistOk(hist) && s.esc == None && s.status == Editing && s.shown == -1
    ensures var m, f := Least(n, |hist|), FirstFull(hist, 0);
            Run(s, hist, Arrows(UP, n)) ==
            if m <= f then Showing(s, hist, m) else Showing(s, hist, f + 1).(status := Submitted)
  {
    if n > 0 {
      UpsShow(s, hist, n - 1);
      var e, m := Run(s, hist, Arrows(UP, n - 1)), Least(n - 1, |hist|);
      RunAppend(s, hist, Arrows(UP, n - 1), Arrow(UP));
      if m <= FirstFull(hist, 0) {
        OneUp(s, hist, m);
        ArrowRun(e, hist, UP);
      } else {
        DoneStays(e, hist, Arrow(UP));
      }
    }
  }

  /** From entry m - 1, m Downs or more bring the draft back. */
  lemma {:induction false} DownsRestore(s: Session, hist: seq<seq<byte>>, m: nat, n: nat)
    requires Ok(s, hist) && HistOk(hist) && s.esc == None && s.status == Editing && s.shown == -1
    requires m <= FirstFull(hist, 0)
    ensures Run(Showing(s, hist, m), hist, Arrows(DOWN, n)) ==
            if n < m then Showing(s, hist, m - n) else if m == 0 then s else s.(draft := s.text)
  {
    if n > 0 {
      DownsRestore(s, hist, m, n - 1);
      var start := Showing(s, hist, m);
      RunAppend(start, hist, Arrows(DOWN, n - 1), Arrow(DOWN));
      ArrowRun(Run(start, hist, Arrows(DOWN, n - 1)), hist, DOWN);
    }
  }

  /** k Ups and then at least least(k, count) Downs give back the draft, still being edited, exactly if none of the
      entries passed fills the buffer: an entry of LINE_CAP - 1 bytes is submitted as soon as it is recalled. */
  lemma UpsThenDownsIff(s: Session, hist: seq<seq<byte>>, k: nat, n: nat)
    requires Ok(s, hist) && HistOk(hist) && s.esc == None && s.status == Editing && s.shown == -1
    requires n >= Least(k, |hist|)
    ensures var e := Run(s, hist, Arrows(UP, k) + Arrows(DOWN, n));
            e.text == s.text && e.shown == -1 && e.esc == None && e.status == Editing <==>
            forall i :: 0 <= i < Least(k, |hist|) ==> |hist[i]| < LINE_CAP - 1
  {
    var m, f := Least(k, |hist|), FirstFull(hist, 0);
    RunAppend(s, hist, Arrows(UP, k), Arrows(DOWN, n));
    UpsShow(s, hist, k);
    if m <= f {
      DownsRestore(s, hist, m, n);
    } else {
      DoneStays(Run(s, hist, Arrows(UP, k)), hist, Arrows(DOWN, n));
    }
  }

  lemma {:induction false} DoneStays(s: Session, hist: seq<seq<byte>>, keys: seq<Key>)
    requires s.shown < |hist| && s.status != Editing
    ensures Run(s, hist, keys) == s
  {
    if |keys| > 0 {
      DoneStays(s, hist, keys[..|keys| - 1]);
    }
  }

  // ---- typing ----

  predicate Printable(b: byte) {
    0x20 <= b <= 0x7E
  }

  /** The keys that type a text. */
  function Typed(p: seq<byte>): (k: seq<Key>)
    ensures |k| == |p|
  {
    if p == [] then [] else Typed(p[..|p| - 1]) + [Key(p[|p| - 1], [])]
  }

  lemma RunOne(s: Session, hist: seq<seq<byte>>, k: Key)
    requires s.shown < |hist|
    ensures Run(s, hist, [k]) == Step(s, hist, k)
  {
    assert [k][..0] == [];
  }

  lemma RunTwo(s: Session, hist: seq<seq<byte>>, k: Key, l: Key)
    requires s.shown < |hist|
    ensures Step(s, hist, k).shown < |hist| && Run(s, hist, [k, l]) == Step(Step(s, hist, k), hist, l)
  {
    RunOne(s, hist, k);
    assert [k, l][..1] == [k];
  }

  /** Typing appends: with room left the text is the old one and what was typed, and the line that fills the buffer is
      submitted by its last byte. */
  lemma {:induction false} TypingAppends(s: Session, hist: seq<seq<byte>>, p: seq<byte>)
    requires s.shown < |hist| && s.status == Editing && s.esc == None
    requires (forall i :: 0 <= i < |p| ==> Printable(p[i])) && |s.text| < LINE_CAP - 1 && |s.text| + |p| < LINE_CAP
    ensures Run(s, hist, Typed(p)) ==
            s.(text := s.text + p, status := if |s.text| + |p| < LINE_CAP - 1 then Editing else Submitted)
  {
    if p == [] {
      assert s.text + p == s.text;
    } else {
      var q, b := p[..|p| - 1], p[|p| - 1];
      TypingAppends(s, hist, q);
      RunAppend(s, hist, Typed(q), [Key(b, [])]);
      var m := s.(text := s.text + q);
      TypeOne(m, hist, b);
      RunOne(m, hist, Key(b, []));
      assert m.text + [b] == s.text + p;
    }
  }

  lemma TypeOne(s: Session, hist: seq<seq<byte>>, b: byte)
    requires s.shown < |hist| && s.status == Editing && s.esc == None && Printable(b) && |s.text| < LINE_CAP - 1
    ensures Step(s, hist, Key(b, [])) ==
            s.(text := s.text + [b], status := if |s.text| + 1 < LINE_CAP - 1 then Editing else Submitted)
  {
  }

  /** Typing a printable line and Enter submits exactly that line. */
  lemma TypedLineIsSubmitted(s: Session, hist: seq<seq<byte>>, p: seq<byte>, enter: byte)
    requires s.shown < |hist| && s.status == Editing && s.esc == None && s.text == []
    requires (forall i :: 0 <= i < |p| ==> Printable(p[i])) && |p| < LINE_CAP && (enter == 10 || enter == 13)
    ensures var e := Run(s, hist, Typed(p) + [Key(enter, [])]); e.text == p && e.status == Submitted
  {
    TypingAppends(s, hist, p);
    RunAppend(s, hist, Typed(p), [Key(enter, [])]);
    RunOne(Run(s, hist, Typed(p)), hist, Key(enter, []));
    assert [] + p == p;
  }

  /** A byte typed and taken back by either backspace leaves no trace, unless it filled the buffer. */
  lemma BackspaceUndoes(s: Session, hist: seq<seq<byte>>, b: byte, back: byte)
    requires s.shown < |hist| && s.status == Editing && s.esc == None && Printable(b) && (back == 0x7F || back == 8)
    requires |s.text| + 1 < LINE_CAP - 1
    ensures Run(s, hist, [Key(b, []), Key(back, [])]) == s
  {
    RunTwo(s, hist, Key(b, []), Key(back, []));
    assert (s.text + [b])[..|s.text|] == s.text;
  }

  /** A tab appends what completion found, however many bytes that is, and changes nothing else. */
  lemma TabAppends(s: Session, hist: seq<seq<byte>>, ext: seq<byte>)
    requires Ok(s, hist) && s.status == Editing && s.esc == None && |s.text| + |ext| < LINE_CAP
    ensures Step(s, hist, Key(9, ext)) ==
            s.(text := s.text + ext, status := if |s.text| + |ext| < LINE_CAP - 1 then Editing else Submitted)
  {
  }

  /** What the control keys do to a line being edited: Ctrl-U empties it, Ctrl-C submits an empty line, Ctrl-D ends the
      input on an empty line only, backspace on an empty line and every other control byte do nothing. */
  lemma ControlKeys(s: Session, hist: seq<seq<byte>>, b: byte)
    requires Ok(s, hist) && s.status == Editing && s.esc == None
    ensures var e := Step(s, hist, Key(b, []));
            && (b == 0x15 ==> e == s.(text := []))
            && (b == 3 ==> e == s.(text := [], status := Submitted))
            && (b == 4 ==> e == if s.text == [] then s.(status := Eof) else s)
            && ((b == 0x7F || b == 8) && s.text == [] ==> e == s)
            && ((b == 10 || b == 13) ==> e == s.(status := Submitted))
            && (b !in {3, 4, 8, 9, 10, 13, 0x15, 0x1B, 0x7F} && !Printable(b) ==> e == s)
  {
  }

  /** The keys of a control sequence: its introducer, its parameter bytes and its final byte. */
  function Sequence(intro: byte, params: seq<byte>, final: byte): seq<Key> {
    [Key(ESC_BYTE, []), Key(intro, [])] + Typed(params) + [Key(final, [])]
  }

  lemma {:induction false} ParamsSkipped(s: Session, hist: seq<seq<byte>>, p: seq<byte>)
    requires s.shown < |hist| && s.status == Editing && s.esc == Csi && |s.text| < LINE_CAP - 1
    requires forall i :: 0 <= i < |p| ==> !(0x40 <= p[i] <= 0x7E)
    ensures Run(s, hist, Typed(p)) == s
  {
    if p != [] {
      var q, b := p[..|p| - 1], p[|p| - 1];
      ParamsSkipped(s, hist, q);
      RunAppend(s, hist, Typed(q), [Key(b, [])]);
      RunOne(s, hist, Key(b, []));
    }
  }

  /** A control sequence of any length whose final byte is neither Up nor Down changes nothing. */
  lemma OtherSequencesIgnored(s: Session, hist: seq<seq<byte>>, intro: byte, params: seq<byte>, final: byte)
    requires Ok(s, hist) && s.status == Editing && s.esc == None && (intro == BRACKET || intro == 0x4F)
    requires forall i :: 0 <= i < |params| ==> !(0x40 <= params[i] <= 0x7E)
    requires 0x40 <= final <= 0x7E && final != UP && final != DOWN
    ensures Run(s, hist, Sequence(intro, params, final)) == s
  {
    var head := [Key(ESC_BYTE, []), Key(intro, [])];
    RunTwo(s, hist, Key(ESC_BYTE, []), Key(intro, []));
    RunAppend(s, hist, head, Typed(params));
    ParamsSkipped(s.(esc := Csi), hist, params);
    RunAppend(s, hist, head + Typed(params), [Key(final, [])]);
    RunOne(s.(esc := Csi), hist, Key(final, []));
  }

  // ---- the editor over its buffers ----

  /** The last `count` lines of the log, newest first. */
  function Newest(log: seq<seq<byte>>, count: nat): (h: seq<seq<byte>>)
    requires count <= |log|
    ensures |h| == count && forall i :: 0 <= i < count ==> h[i] == log[|log| - 1 - i]
  {
    if count == 0 then [] else Newest(log, count - 1) + [log[|log| - count]]
  }

  /** The buffer holds the text and a NUL after it. */
  ghost predicate Holds(a: array<byte>, text: seq<byte>)
    reads a
  {
    |text| < a.Length && IsText(text) && a[..|text|] == text && a[|text|] == 0
  }

  class Editor {
    const buf: array<byte>
    const draft: array<byte>
    const hist: History
    var pos: nat
    var esc: Esc
    var shown: int
    ghost var draftText: seq<byte>

    constructor (h: History)
      requires h.Valid()
      ensures Valid() && hist == h && fresh(buf) && fresh(draft)
    {
      buf := new byte[LINE_CAP](_ => 0);
      draft := new byte[LINE_CAP](_ => 0);
      hist, pos, esc, shown, draftText := h, 0, None, -1, [];
    }

    ghost predicate Valid()
      reads this, buf, draft, hist, hist.buf
    {
      && buf.Length == LINE_CAP && draft.Length == LINE_CAP && buf != draft
      && (buf as object) != hist.buf && (draft as object) != hist.buf
      && hist.Valid() && pos < LINE_CAP && Holds(buf, buf[..pos]) && Holds(draft, draftText)
      && -1 <= shown < hist.count
    }

    ghost function At(status: Status): Session
      requires pos <= buf.Length
      reads this, buf
    {
      Session(buf[..pos], esc, shown, draftText, status)
    }

    ghost function Lines(): seq<seq<byte>>
      requires hist.Valid()
      reads hist, hist.buf
    {
      Newest(hist.log, hist.count)
    }

    /** Every line the editor can recall is a string of less than LINE_CAP bytes. */
    lemma LinesAreOk()
      requires Valid()
      ensures HistOk(Lines())
    {
      forall i | 0 <= i < hist.count
        ensures IsText(Lines()[i]) && |Lines()[i]| < LINE_CAP
      {
        assert hist.Kept(|hist.log| - 1 - i);
      }
    }

    /** set_line from a row of the history. */
    method SetLine(row: nat, ghost text: seq<byte>)
      requires Valid() && row < HIST_N && HoldsText(hist.buf, row, text)
      modifies this`pos, buf
      ensures pos == |text| && Holds(buf, text)
    {
      var n := 0;
      while hist.buf[row, n] != 0 && n < LINE_CAP - 1
        invariant n <= |text| && buf[..n] == text[..n]
        invariant hist.buf[row, |text|] == 0
        decreases |text| - n
      {
        buf[n] := hist.buf[row, n];
        n := n + 1;
      }
      buf[n] := 0;
      pos := n;
    }

    /** set_line from the draft. */
    method RestoreDraft()
      requires Valid()
      modifies this`pos, buf
      ensures pos == |draftText| && Holds(buf, draftText)
    {
      var n := 0;
      while draft[n] != 0 && n < LINE_CAP - 1
        invariant n <= |draftText| && buf[..n] == draftText[..n]
        decreases |draftText| - n
      {
        assert draft[n] == draft[..|draftText|][n];
        buf[n] := draft[n];
        n := n + 1;
      }
      buf[n] := 0;
      pos := n;
    }

    /** scpy of the working text into the draft. */
    method SaveDraft()
      requires Valid()
      modifies this`draftText, draft
      ensures draftText == buf[..pos] && Holds(draft, draftText)
    {
      var i := 0;
      while i + 1 < LINE_CAP && buf[i] != 0
        invariant i <= pos && draft[..i] == buf[..i]
        decreases pos - i
      {
        assert buf[i] == buf[..pos][i];
        draft[i] := buf[i];
        i := i + 1;
      }
      draft[i] := 0;
      draftText := buf[..pos];
    }
  
    /** The Up branch. */
    method Up()
      requires Valid()
      modifies this, buf, draft
      ensures Valid() && At(Editing) == GoUp(old(At(Editing)), Lines())
    {
      if hist.count > 0 {
        var i: nat;
        if shown < 0 {
          SaveDraft();
          i := 0;
        } else if shown + 1 < hist.count {
          i := shown + 1;
        } else {
          i := shown;
        }
        shown := i;
        var found, row := hist.Get(i);
        SetLine(row, hist.Entry(i));
      }
    }

    /** The Down branch. */
    method Down()
      requires Valid()
      modifies this, buf
      ensures Valid() && At(Editing) == GoDown(old(At(Editing)), Lines())
    {
      if shown >= 0 {
        if shown == 0 {
          shown := -1;
          RestoreDraft();
        } else {
          shown := shown - 1;
          var found, row := hist.Get(shown);
          SetLine(row, hist.Entry(shown));
        }
      }
    }
  
    /** A byte that ends in the escape parser. */
    method EscapeByte(b: byte)
      requires Valid() && (esc != None || b == ESC_BYTE)
      modifies this, buf, draft
      ensures Valid() && At(Editing) == Dispatch(old(At(Editing)), Lines(), Key(b, []))
    {
      if esc == Intro {
        esc := if b == BRACKET || b == 0x4F then Csi else None;
      } else if esc == Csi {
        if 0x40 <= b <= 0x7E {
          if b == UP {
            Up();
          } else if b == DOWN {
            Down();
          }
          esc := None;
        }
      } else {
        esc := Intro;
      }
    }

    /** Cut the line back to n bytes. */
    method Truncate(n: nat)
      requires Valid() && n <= pos
      modifies this`pos, buf
      ensures Valid() && pos == n && buf[..pos] == old(buf[..n])
    {
      ghost var t := buf[..n];
      pos := n;
      buf[pos] := 0;
      assert buf[..pos] == t;
    }

    /** Append bytes to the line, NUL-terminated after each. */
    method Append(ext: seq<byte>)
      requires Valid() && IsText(ext) && pos + |ext| < LINE_CAP
      modifies this`pos, buf
      ensures Valid() && buf[..pos] == old(buf[..pos]) + ext
    {
      ghost var t := buf[..pos];
      var i := 0;
      while i < |ext|
        invariant i <= |ext| && pos == |t| + i < LINE_CAP && buf[..pos] == t + ext[..i] && IsText(buf[..pos])
        invariant Holds(buf, buf[..pos])
      {
        assert ext[..i + 1] == ext[..i] + [ext[i]];
        buf[pos] := ext[i];
        pos := pos + 1;
        buf[pos] := 0;
        i := i + 1;
      }
      assert ext[..i] == ext;
    }

    /** A byte outside escape sequences; tab completion appends `k.ext`. */
    method PlainByte(k: Key) returns (status: Status)
      requires Valid() && pos < LINE_CAP - 1 && KeyOk(At(Editing), k)
      modifies this`pos, buf
      ensures Valid() && At(status) == Plain(old(At(Editing)), k)
    {
      var b := k.b;
      status := Editing;
      if b == 10 || b == 13 {
        buf[pos] := 0;
        status := Submitted;
      } else if b == 0x7F || b == 8 {
        if pos > 0 {
          Truncate(pos - 1);
        }
      } else if b == 3 {
        Truncate(0);
        status := Submitted;
      } else if b == 4 {
        if pos == 0 {
          status := Eof;
        }
      } else if b == 0x15 {
        Truncate(0);
      } else if b == 9 {
        Append(k.ext);
      } else if 0x20 <= b <= 0x7E {
        Append([b]);
      }
    }

    /** One byte: the escape parser first. */
    method ReadKey(k: Key) returns (status: Status)
      requires Valid() && pos < LINE_CAP - 1 && KeyOk(At(Editing), k)
      modifies this, buf, draft
      ensures Valid() && At(status) == Dispatch(old(At(Editing)), Lines(), k)
    {
      if esc != None || k.b == ESC_BYTE {
        EscapeByte(k.b);
        status := Editing;
      } else {
        status := PlainByte(k);
      }
    }

    /** readline_raw over the bytes that arrive: how it ended, or Editing if it still waits when they run out. A submitted
        line stands NUL-terminated in the buffer and its length is `pos`. */
    method ReadLine(keys: seq<Key>) returns (status: Status)
      requires Valid() && KeysOk(Session([], None, -1, [], Editing), Lines(), keys)
      modifies this, buf, draft
      ensures Valid() && At(status) == Run(Session([], None, -1, [], Editing), Lines(), keys)
    {
      draft[0] := 0;
      draftText := [];
      pos, esc, shown := 0, None, -1;
      buf[0] := 0;
      ghost var s, lines := At(Editing), Lines();
      var i := 0;
      while true
        invariant i <= |keys| && Valid() && Lines() == lines
        invariant SubmitFull(At(Editing)) == Run(s, lines, keys[..i])
        decreases |keys| - i
      {
        if pos >= LINE_CAP - 1 {
          buf[LINE_CAP - 1] := 0;
          SubmittedEnds(s, lines, keys, i);
          return Submitted;
        }
        if i == |keys| {
          assert keys[..i] == keys;
          return Editing;
        }
        NextKey(s, lines, keys, i);
        status := ReadKey(keys[i]);
        i := i + 1;
        if status != Editing {
          SubmittedEnds(s, lines, keys, i);
          return;
        }
      }
    }

    /** One prompt of main: a submitted line goes to the history unless it is empty, as a cancelled one is. */
    method Prompt(keys: seq<Key>) returns (status: Status)
      requires Valid() && KeysOk(Session([], None, -1, [], Editing), Lines(), keys)
      modifies this, buf, draft, hist, hist.buf
      ensures Valid()
      ensures var e := Run(Session([], None, -1, [], Editing), old(Lines()), keys);
              && status == e.status
              && hist.log == if status == Submitted && e.text != [] then old(hist.log) + [e.text] else old(hist.log)
    {
      status := ReadLine(keys);
      if status == Submitted {
        ghost var t := buf[..pos];
        hist.Add(buf[..pos]);
        assert buf[..pos] == t;
      }
    }
  }

  /** The bytes that completion appends always fit. */
  ghost predicate KeysOk(s: Session, hist: seq<seq<byte>>, keys: seq<Key>)
    requires s.shown < |hist|
  {
    forall i :: 0 <= i < |keys| ==> KeyOk(Run(s, hist, keys[..i]), keys[i])
  }

  lemma NextKey(s: Session, hist: seq<seq<byte>>, keys: seq<Key>, i: nat)
    requires s.shown < |hist| && i < |keys|
    ensures Run(s, hist, keys[..i + 1]) == Step(Run(s, hist, keys[..i]), hist, keys[i])
  {
    assert keys[..i + 1][..i] == keys[..i];
  }

  /** Once the line is submitted, further bytes are not read. */
  lemma {:induction false} SubmittedEnds(s: Session, hist: seq<seq<byte>>, keys: seq<Key>, i: nat)
    requires s.shown < |hist| && i <= |keys| && Run(s, hist, keys[..i]).status != Editing
    ensures Run(s, hist, keys) == Run(s, hist, keys[..i])
    decreases |keys| - i
  {
    if i == |keys| {
      assert keys[..i] == keys;
    } else {
      NextKey(s, hist, keys, i);
      SubmittedEnds(s, hist, keys, i + 1);
    }
  }
}
