/**
  The Telnet transport of the shell host (examples/05_shell/host_tcp.c): the filter that strips commands from what the
  client sends, across reads split anywhere, and the newline cooking of what is sent back.
*/
module Telnet {
  import opened Bytes

  const IAC: byte := 255
  const SE: byte := 240
  const SB: byte := 250
  const WILL: byte := 251
  const WONT: byte := 252
  const DO: byte := 253
  const DONT: byte := 254

  // ---- the filter as a fold ----

  /** iac_state. */
  datatype Mode = Plain | Command | Option | Inside | InsideCommand

  /** The filter between two bytes, with what it has written to the caller's buffer and to the socket. */
  datatype State = State(mode: Mode, verb: byte, out: seq<byte>, sent: seq<byte>)

  predicate IsVerb(b: byte) {
    b == WILL || b == WONT || b == DO || b == DONT
  }

  /** The reply to an offer or a request; none to a refusal. */
  function Refusal(verb: byte, option: byte): (r: seq<byte>) {
    if verb == DO then [IAC, WONT, option] else if verb == WILL then [IAC, DONT, option] else []
  }

  /** In bytes: WILL is answered with DONT and DO with WONT, for the same option; nothing else is answered. */
  lemma RefusalBytes(verb: byte, option: byte)
    ensures Refusal(verb, option) ==
            if verb == 251 then [255, 254, option] else if verb == 253 then [255, 252, option] else []
  {
  }

  function Step(s: State, b: byte): State {
    match s.mode
    case Plain => if b == IAC then s.(mode := Command) else s.(out := s.out + [b])
    case Command =>
      if b == IAC then s.(mode := Plain, out := s.out + [255])
      else if IsVerb(b) then s.(mode := Option, verb := b)
      else if b == SB then s.(mode := Inside)
      else s.(mode := Plain)
    case Option => s.(mode := Plain, sent := s.sent + Refusal(s.verb, b))
    case Inside => if b == IAC then s.(mode := InsideCommand) else s
    case InsideCommand =>
      if b == SE then s.(mode := Plain) else if b == IAC then s else s.(mode := Inside)
  }

  function Run(s: State, raw: seq<byte>): State {
    if |raw| == 0 then s else Step(Run(s, raw[..|raw| - 1]), raw[|raw| - 1])
  }

  /** Reading a stream in two parts is reading it whole. */
  lemma {:induction false} RunAppend(s: State, a: seq<byte>, b: seq<byte>)
    ensures Run(s, a + b) == Run(Run(s, a), b)
  {
    if |b| == 0 {
      assert a + b == a;
    } else {
      RunAppend(s, a, b[..|b| - 1]);
      assert (a + b)[..|a + b| - 1] == a + b[..|b| - 1];
    }
  }

  function Flatten(chunks: seq<seq<byte>>): seq<byte> {
    if |chunks| == 0 then [] else Flatten(chunks[..|chunks| - 1]) + chunks[|chunks| - 1]
  }

  function RunChunks(s: State, chunks: seq<seq<byte>>): State {
    if |chunks| == 0 then s else Run(RunChunks(s, chunks[..|chunks| - 1]), chunks[|chunks| - 1])
  }

  /** However the stream is cut into reads, the filter does the same. */
  lemma {:induction false} SplitAnywhere(s: State, chunks: seq<seq<byte>>)
    ensures RunChunks(s, chunks) == Run(s, Flatten(chunks))
  {
    if |chunks| > 0 {
      SplitAnywhere(s, chunks[..|chunks| - 1]);
      RunAppend(s, Flatten(chunks[..|chunks| - 1]), chunks[|chunks| - 1]);
    }
  }

  /** The output only grows, by at most one byte for each byte read. */
  lemma {:induction false} NeverGrows(s: State, raw: seq<byte>)
    ensures s.out <= Run(s, raw).out && |Run(s, raw).out| <= |s.out| + |raw|
    ensures s.sent <= Run(s, raw).sent
  {
    if |raw| > 0 {
      NeverGrows(s, raw[..|raw| - 1]);
    }
  }

  // ---- the commands in bytes ----

  lemma ThreeBytes(s: State, a: byte, b: byte, c: byte)
    ensures Run(s, [a, b]) == Step(Step(s, a), b) && Run(s, [a, b, c]) == Step(Step(Step(s, a), b), c)
  {
    assert [a][..0] == [] && [a, b][..1] == [a] && [a, b, c][..2] == [a, b];
    assert Run(s, [a]) == Step(s, a);
  }

  /** From plain text: 255 255 is the data byte 255; 255 with 251 to 254 and an option is dropped, WILL answered with DONT
      and DO with WONT; 255 250 starts a subnegotiation, which 255 240 ends and nothing else; 255 with any other byte is
      dropped; and any other byte is data. */
  lemma CommandBytes(s: State, b: byte, option: byte)
    requires s.mode == Plain
    ensures b != 255 ==> Step(s, b) == s.(out := s.out + [b])
    ensures var e := Run(s, [255, b]);
            && (b == 255 ==> e == s.(out := s.out + [255]))
            && (b == 250 ==> e == s.(mode := Inside))
            && (b != 255 && !(250 <= b <= 254) ==> e == s)
    ensures 251 <= b <= 254 ==>
              var e := Run(s, [255, b, option]);
              && e.mode == Plain && e.out == s.out
              && e.sent == s.sent + if b == 251 then [255, 254, option] else if b == 253 then [255, 252, option] else []
    ensures var t := s.(mode := Inside);
            && Run(t, [255, 240]) == s
            && (b != 255 ==> Step(t, b) == t) && (b != 240 && b != 255 ==> Run(t, [255, b]) == t)
  {
    ThreeBytes(s, 255, b, option);
    ThreeBytes(s.(mode := Inside), 255, b, option);
    ThreeBytes(s.(mode := Inside), 255, 240, option);
  }

  // ---- what a client sends ----

  datatype Item =
    | Data(b: byte)
    | Cmd(c: byte)
    | Neg(verb: byte, option: byte)
    | Sub(payload: seq<byte>)

  predicate ItemOk(item: Item) {
    match item
    case Data(_) => true
    case Cmd(c) => c != IAC && c != SB && !IsVerb(c)
    case Neg(verb, _) => IsVerb(verb)
    case Sub(_) => true
  }

  /** A byte of data or of a subnegotiation, 255 doubled. */
  function Doubled(b: byte): seq<byte> {
    if b == IAC then [IAC, IAC] else [b]
  }

  function DoubledAll(p: seq<byte>): seq<byte> {
    if |p| == 0 then [] else DoubledAll(p[..|p| - 1]) + Doubled(p[|p| - 1])
  }

  function Encode(item: Item): seq<byte> {
    match item
    case Data(b) => Doubled(b)
    case Cmd(c) => [IAC, c]
    case Neg(verb, option) => [IAC, verb, option]
    case Sub(p) => [IAC, SB] + DoubledAll(p) + [IAC, SE]
  }

  function EncodeAll(items: seq<Item>): seq<byte> {
    if |items| == 0 then [] else EncodeAll(items[..|items| - 1]) + Encode(items[|items| - 1])
  }

  /** The data bytes among the items. */
  function DataOf(items: seq<Item>): seq<byte> {
    if |items| == 0 then []
    else DataOf(items[..|items| - 1]) + if items[|items| - 1].Data? then [items[|items| - 1].b] else []
  }

  /** One refusal for each WILL and each DO, in order. */
  function Refusals(items: seq<Item>): seq<byte> {
    if |items| == 0 then []
    else
      var last := items[|items| - 1];
      Refusals(items[..|items| - 1]) + if last.Neg? then Refusal(last.verb, last.option) else []
  }

  // ---- subnegotiations ----

  /** 255 followed by 240 somewhere in the payload. */
  predicate Broken(p: seq<byte>) {
    |p| > 0 && (Broken(p[..|p| - 1]) || (|p| > 1 && p[|p| - 2] == IAC && p[|p| - 1] == SE))
  }

  /** What comes after the first 255, 240. */
  function Leak(p: seq<byte>): seq<byte> {
    if |p| == 0 || !Broken(p[..|p| - 1]) then [] else Leak(p[..|p| - 1]) + [p[|p| - 1]]
  }

  /** The filter has read the payload p, starting inside a subnegotiation. */
  predicate HasRead(s: State, p: seq<byte>, e: State) {
    && e.mode == (if Broken(p) then Plain else if |p| > 0 && p[|p| - 1] == IAC then InsideCommand else Inside)
    && e.out == s.out + Leak(p) && e.sent == s.sent
  }

  /** Inside a subnegotiation the doubled 255 still looks like a command byte to the filter: a 240 after it ends the
      subnegotiation, and the rest of the payload is taken for data. */
  lemma {:induction false} PayloadRun(s: State, p: seq<byte>)
    requires s.mode == Inside
    ensures HasRead(s, p, Run(s, DoubledAll(p)))
  {
    if |p| > 0 {
      var q, b := p[..|p| - 1], p[|p| - 1];
      PayloadRun(s, q);
      RunAppend(s, DoubledAll(q), Doubled(b));
      PayloadByte(s, p, Run(s, DoubledAll(q)));
    }
  }

  lemma PayloadByte(s: State, p: seq<byte>, e: State)
    requires |p| > 0 && HasRead(s, p[..|p| - 1], e)
    ensures HasRead(s, p, Run(e, Doubled(p[|p| - 1])))
  {
    ByteRun(e, p[|p| - 1]);
  }

  lemma Run1(s: State, a: byte)
    ensures Run(s, [a]) == Step(s, a)
  {
    assert [a][..0] == [];
  }

  lemma Run2(s: State, a: byte, b: byte)
    ensures Run(s, [a, b]) == Step(Step(s, a), b)
  {
    Run1(s, a);
    assert [a, b][..1] == [a];
  }

  lemma ByteRun(s: State, b: byte)
    requires s.mode == Plain || s.mode == Inside || s.mode == InsideCommand
    ensures var e := Run(s, Doubled(b));
            && e.sent == s.sent
            && (s.mode == Plain ==> e.mode == Plain && e.out == s.out + [b])
            && (s.mode != Plain ==> e.out == s.out)
            && (s.mode == Inside ==> e.mode == if b == IAC then InsideCommand else Inside)
            && (s.mode == InsideCommand ==>
                  e.mode == if b == IAC then InsideCommand else if b == SE then Plain else Inside)
  {
    Run1(s, b);
    Run2(s, b, b);
  }

  lemma SubRun(s: State, p: seq<byte>)
    requires s.mode == Plain
    ensures var e := Run(s, Encode(Sub(p)));
            e.mode == Plain && e.out == s.out + Leak(p) && e.sent == s.sent
  {
    var inside := Run(s, [IAC, SB]);
    Run2(s, IAC, SB);
    RunAppend(s, [IAC, SB], DoubledAll(p));
    PayloadRun(inside, p);
    var ended := Run(inside, DoubledAll(p));
    RunAppend(s, [IAC, SB] + DoubledAll(p), [IAC, SE]);
    Run2(ended, IAC, SE);
  }

  lemma {:induction false} BrokenIff(p: seq<byte>)
    ensures Broken(p) <==> exists i :: 0 <= i < |p| - 1 && PairAt(p, i)
  {
    if |p| > 0 {
      var q := p[..|p| - 1];
      BrokenIff(q);
      forall i | 0 <= i < |q| - 1
        ensures PairAt(q, i) <==> PairAt(p, i)
      {
      }
      if |p| > 1 {
        assert PairAt(p, |p| - 2) <==> p[|p| - 2] == IAC && p[|p| - 1] == SE;
      }
    }
  }

  predicate PairAt(p: seq<byte>, i: int)
    requires 0 <= i < |p| - 1
  {
    p[i] == IAC && p[i + 1] == SE
  }

  /** Nothing leaks exactly if every 255, 240 in the payload is its very end. */
  lemma NoLeakIff(p: seq<byte>)
    ensures Leak(p) == [] <==> forall i :: 0 <= i < |p| - 1 && PairAt(p, i) ==> i + 2 == |p|
  {
    if |p| > 0 {
      var q := p[..|p| - 1];
      BrokenIff(q);
      forall i | 0 <= i < |q| - 1
        ensures PairAt(q, i) <==> PairAt(p, i)
      {
      }
    }
  }

  // ---- the whole stream ----

  function LeakOf(item: Item): seq<byte> {
    match item
    case Data(b) => [b]
    case Sub(p) => Leak(p)
    case _ => []
  }

  /** The data bytes together with what leaks from subnegotiations. */
  function Leaked(items: seq<Item>): seq<byte> {
    if |items| == 0 then [] else Leaked(items[..|items| - 1]) + LeakOf(items[|items| - 1])
  }

  lemma Regroup(a: seq<byte>, b: seq<byte>, c: seq<byte>)
    ensures a + b + c == a + (b + c)
  {
  }

  lemma ItemRun(s: State, item: Item)
    requires s.mode == Plain && ItemOk(item)
    ensures var e := Run(s, Encode(item));
            && e.mode == Plain && e.out == s.out + LeakOf(item)
            && e.sent == s.sent + if item.Neg? then Refusal(item.verb, item.option) else []
  {
    match item
    case Data(b) => ByteRun(s, b);
    case Cmd(c) => Run2(s, IAC, c);
    case Neg(verb, option) =>
      Run2(s, IAC, verb);
      RunAppend(s, [IAC, verb], [option]);
      Run1(Run(s, [IAC, verb]), option);
      assert [IAC, verb] + [option] == [IAC, verb, option];
    case Sub(p) => SubRun(s, p);
  }

  /** Filtering any encoded stream: the output is the data and what leaks, and each WILL and DO is answered once. */
  lemma {:induction false} StreamRun(s: State, items: seq<Item>)
    requires s.mode == Plain && forall i :: 0 <= i < |items| ==> ItemOk(items[i])
    ensures var e := Run(s, EncodeAll(items));
            e.mode == Plain && e.out == s.out + Leaked(items) && e.sent == s.sent + Refusals(items)
  {
    if |items| > 0 {
      var init, last := items[..|items| - 1], items[|items| - 1];
      StreamRun(s, init);
      RunAppend(s, EncodeAll(init), Encode(last));
      var m := Run(s, EncodeAll(init));
      ItemRun(m, last);
      Regroup(s.out, Leaked(init), LeakOf(last));
      Regroup(s.sent, Refusals(init), if last.Neg? then Refusal(last.verb, last.option) else []);
    }
  }

  /** The subnegotiation, if the item is one, does not leak. */
  predicate Clean(item: Item) {
    item.Sub? ==> Leak(item.payload) == []
  }

  lemma {:induction false} LeakedIff(items: seq<Item>)
    ensures |Leaked(items)| >= |DataOf(items)|
    ensures Leaked(items) == DataOf(items) <==> forall i :: 0 <= i < |items| ==> Clean(items[i])
  {
    if |items| > 0 {
      var init, last := items[..|items| - 1], items[|items| - 1];
      LeakedIff(init);
      LeakedStep(items);
      forall i | 0 <= i < |init|
        ensures init[i] == items[i]
      {
      }
      assert items[|items| - 1] == last;
    }
  }

  lemma LeakedStep(items: seq<Item>)
    requires |items| > 0 && |Leaked(items[..|items| - 1])| >= |DataOf(items[..|items| - 1])|
    ensures |Leaked(items)| >= |DataOf(items)|
    ensures Leaked(items) == DataOf(items) <==>
            Leaked(items[..|items| - 1]) == DataOf(items[..|items| - 1]) && Clean(items[|items| - 1])
  {
    var x, y := Leaked(items[..|items| - 1]), DataOf(items[..|items| - 1]);
    var last := items[|items| - 1];
    if last.Data? && x + [last.b] == y + [last.b] {
      assert (x + [last.b])[..|x|] == x && (y + [last.b])[..|y|] == y;
    }
  }

  /** The filter undoes the encoding, however the stream is cut into reads, exactly if no subnegotiation leaks. */
  lemma FilterUndoesEncodingIff(verb: byte, items: seq<Item>, chunks: seq<seq<byte>>)
    requires forall i :: 0 <= i < |items| ==> ItemOk(items[i])
    requires Flatten(chunks) == EncodeAll(items)
    ensures var e := RunChunks(State(Plain, verb, [], []), chunks);
            && (e.out == DataOf(items) <==> forall i :: 0 <= i < |items| ==> Clean(items[i]))
            && e.sent == Refusals(items)
  {
    var s := State(Plain, verb, [], []);
    SplitAnywhere(s, chunks);
    StreamRun(s, items);
    LeakedIff(items);
  }

  /** The items a filter's answers are read as. */
  function Answers(items: seq<Item>): (a: seq<Item>)
  {
    if |items| == 0 then []
    else
      var last := items[|items| - 1];
      Answers(items[..|items| - 1]) +
      if last.Neg? && last.verb == DO then [Neg(WONT, last.option)]
      else if last.Neg? && last.verb == WILL then [Neg(DONT, last.option)] else []
  }

  lemma AppendItem(a: seq<Item>, n: Item)
    ensures EncodeAll(a + [n]) == EncodeAll(a) + Encode(n)
    ensures Refusals(a + [n]) == Refusals(a) + if n.Neg? then Refusal(n.verb, n.option) else []
    ensures Leaked(a + [n]) == Leaked(a) + LeakOf(n)
  {
    assert (a + [n])[..|a + [n]| - 1] == a;
  }

  predicate IsAnswer(item: Item) {
    item.Neg? && (item.verb == WONT || item.verb == DONT)
  }

  /** The answers are exactly the bytes sent, and they are refusals only. */
  lemma {:induction false} AnswersEncoded(items: seq<Item>)
    ensures EncodeAll(Answers(items)) == Refusals(items)
    ensures forall i :: 0 <= i < |Answers(items)| ==> IsAnswer(Answers(items)[i])
  {
    if |items| > 0 {
      var init, last := items[..|items| - 1], items[|items| - 1];
      AnswersEncoded(init);
      if last.Neg? && last.verb == DO {
        AppendItem(Answers(init), Neg(WONT, last.option));
      } else if last.Neg? && last.verb == WILL {
        AppendItem(Answers(init), Neg(DONT, last.option));
      } else {
        assert Answers(items) == Answers(init);
      }
    }
  }

  lemma {:induction false} AnswersQuiet(items: seq<Item>)
    requires forall i :: 0 <= i < |items| ==> IsAnswer(items[i])
    ensures Refusals(items) == [] && Leaked(items) == []
  {
    if |items| > 0 {
      assert IsAnswer(items[|items| - 1]);
      AnswersQuiet(items[..|items| - 1]);
    }
  }

  /** Two filters do not argue: the answers of one draw no answer and no data from another. */
  lemma AnswersAreFinal(s: State, items: seq<Item>)
    requires s.mode == Plain
    ensures var e := Run(s, Refusals(items));
            e.mode == Plain && e.out == s.out && e.sent == s.sent
  {
    AnswersEncoded(items);
    AnswersQuiet(Answers(items));
    StreamRun(s, Answers(items));
  }

  // ---- what is sent back ----

  const CR: byte := 13
  const LF: byte := 10

  /** The cooking of tcp_t_write between two bytes: whether the last byte was a CR, and what has been sent. */
  datatype Cook = Cook(wasCr: bool, sent: seq<byte>)

  function CookStep(k: Cook, c: byte): Cook {
    if c == LF && !k.wasCr then Cook(false, k.sent + [CR, LF]) else Cook(c == CR, k.sent + [c])
  }

  function CookAll(k: Cook, p: seq<byte>): Cook {
    if |p| == 0 then k else CookStep(CookAll(k, p[..|p| - 1]), p[|p| - 1])
  }

  /** Byte j is an LF that tcp_t_write turns into CR LF. */
  predicate BareLf(wasCr: bool, p: seq<byte>, j: nat)
    requires j < |p|
  {
    p[j] == LF && !(if j == 0 then wasCr else p[j - 1] == CR)
  }

  /** How many bare LFs are among the first i bytes. */
  function BareLfs(wasCr: bool, p: seq<byte>, i: nat): nat
    requires i <= |p|
  {
    if i == 0 then 0 else BareLfs(wasCr, p, i - 1) + if BareLf(wasCr, p, i - 1) then 1 else 0
  }

  /** Where the text after the last bare LF among the first i bytes starts. */
  function AfterLastLf(wasCr: bool, p: seq<byte>, i: nat): (r: nat)
    requires i <= |p|
    ensures r <= i && (r == 0 || BareLf(wasCr, p, r - 1)) && forall j :: r <= j < i ==> !BareLf(wasCr, p, j)
  {
    if i == 0 then 0 else if BareLf(wasCr, p, i - 1) then i else AfterLastLf(wasCr, p, i - 1)
  }

  lemma {:induction false} BareLfsPrefix(wasCr: bool, p: seq<byte>, q: seq<byte>, i: nat)
    requires i <= |q| && q <= p
    ensures BareLfs(wasCr, q, i) == BareLfs(wasCr, p, i)
  {
    if i > 0 {
      BareLfsPrefix(wasCr, p, q, i - 1);
    }
  }

  /** The cooked output holds what was sent before and then every byte of the input, in order, each moved on by the bare
      LFs up to it; before each bare LF stands a CR; and there is nothing else. */
  ghost predicate IsCooked(wasCr: bool, before: seq<byte>, p: seq<byte>, e: seq<byte>) {
    && before <= e && |e| == |before| + |p| + BareLfs(wasCr, p, |p|)
    && forall i :: 0 <= i < |p| ==> CookedAt(e, |before| + i + BareLfs(wasCr, p, i + 1), p[i], BareLf(wasCr, p, i))
  }

  predicate CookedAt(e: seq<byte>, at: nat, c: byte, bare: bool) {
    at < |e| && e[at] == c && (bare ==> at > 0 && e[at - 1] == 13 && c == 10)
  }

  lemma {:induction false} CookedIs(k: Cook, p: seq<byte>)
    ensures var e := CookAll(k, p);
            && IsCooked(k.wasCr, k.sent, p, e.sent)
            && e.wasCr == if |p| == 0 then k.wasCr else p[|p| - 1] == CR
  {
    if |p| > 0 {
      var q := p[..|p| - 1];
      CookedIs(k, q);
      CookedMore(k.wasCr, k.sent, p, CookAll(k, q), CookAll(k, p).sent);
    }
  }

  lemma CookedMore(wasCr: bool, before: seq<byte>, p: seq<byte>, m: Cook, e: seq<byte>)
    requires |p| > 0 && IsCooked(wasCr, before, p[..|p| - 1], m.sent) && e == CookStep(m, p[|p| - 1]).sent
    requires m.wasCr == if |p| == 1 then wasCr else p[|p| - 2] == CR
    ensures IsCooked(wasCr, before, p, e)
  {
    LastByte(wasCr, before, p, m, e);
    forall i | 0 <= i < |p|
      ensures CookedAt(e, |before| + i + BareLfs(wasCr, p, i + 1), p[i], BareLf(wasCr, p, i))
    {
      if i < |p| - 1 {
        EarlierByte(wasCr, before, p, m.sent, e, i);
      }
    }
  }

  lemma LastByte(wasCr: bool, before: seq<byte>, p: seq<byte>, m: Cook, e: seq<byte>)
    requires |p| > 0 && before <= m.sent && |m.sent| == |before| + |p| - 1 + BareLfs(wasCr, p[..|p| - 1], |p| - 1)
    requires e == CookStep(m, p[|p| - 1]).sent && m.wasCr == if |p| == 1 then wasCr else p[|p| - 2] == CR
    ensures before <= e && m.sent <= e && |e| == |before| + |p| + BareLfs(wasCr, p, |p|)
    ensures CookedAt(e, |before| + (|p| - 1) + BareLfs(wasCr, p, |p|), p[|p| - 1], BareLf(wasCr, p, |p| - 1))
  {
    BareLfsPrefix(wasCr, p, p[..|p| - 1], |p| - 1);
  }

  lemma EarlierByte(wasCr: bool, before: seq<byte>, p: seq<byte>, m: seq<byte>, e: seq<byte>, i: nat)
    requires i + 1 < |p| && IsCooked(wasCr, before, p[..|p| - 1], m) && m <= e
    ensures CookedAt(e, |before| + i + BareLfs(wasCr, p, i + 1), p[i], BareLf(wasCr, p, i))
  {
    var q := p[..|p| - 1];
    BareLfsPrefix(wasCr, p, q, i + 1);
    assert CookedAt(m, |before| + i + BareLfs(wasCr, q, i + 1), q[i], BareLf(wasCr, q, i));
  }

  /** No text stands between this LF and the start or the bare LF before it. */
  predicate Leads(wasCr: bool, p: seq<byte>, j: nat)
    requires j < |p|
  {
    j == 0 || BareLf(wasCr, p, j - 1)
  }

  /** Among the first n bytes, all bare LFs come before any other byte. */
  ghost predicate LfOnlyLeads(wasCr: bool, p: seq<byte>, n: nat)
    requires n <= |p|
  {
    forall j :: 0 <= j < n && BareLf(wasCr, p, j) ==> Leads(wasCr, p, j)
  }

  /** Every LF of `p` follows a CR; `wasCr` says whether the byte before p is one. */
  ghost predicate NoBareLf(wasCr: bool, p: seq<byte>) {
    forall i :: 0 <= i < |p| ==> !BareLf(wasCr, p, i)
  }

  lemma StepHasNoBareLf(k: Cook, c: byte, before: bool)
    requires NoBareLf(before, k.sent) && (k.wasCr ==> |k.sent| > 0 && k.sent[|k.sent| - 1] == CR)
    ensures NoBareLf(before, CookStep(k, c).sent)
  {
    var t := CookStep(k, c).sent;
    forall i | 0 <= i < |t|
      ensures !BareLf(before, t, i)
    {
      if i < |k.sent| {
        assert !BareLf(before, k.sent, i);
      }
    }
  }

  /** Whatever the guest writes, in whatever pieces, the client never sees an LF without its CR. */
  lemma {:induction false} CookedHasNoBareLf(k: Cook, p: seq<byte>, before: bool)
    requires NoBareLf(before, k.sent) && (k.wasCr ==> |k.sent| > 0 && k.sent[|k.sent| - 1] == CR)
    ensures var e := CookAll(k, p);
            NoBareLf(before, e.sent) && (e.wasCr ==> |e.sent| > 0 && e.sent[|e.sent| - 1] == CR)
  {
    if |p| > 0 {
      var m := CookAll(k, p[..|p| - 1]);
      CookedHasNoBareLf(k, p[..|p| - 1], before);
      StepHasNoBareLf(m, p[|p| - 1], before);
    }
  }

  /** Text that already ends its lines with CR LF is sent as it is. */
  lemma {:induction false} CookedOnce(k: Cook, p: seq<byte>)
    requires NoBareLf(k.wasCr, p)
    ensures CookAll(k, p) == Cook(if |p| == 0 then k.wasCr else p[|p| - 1] == CR, k.sent + p)
  {
    if |p| == 0 {
      assert k.sent + p == k.sent;
    } else {
      var q := p[..|p| - 1];
      forall i | 0 <= i < |q|
        ensures !BareLf(k.wasCr, q, i)
      {
        assert !BareLf(k.wasCr, p, i);
      }
      assert !BareLf(k.wasCr, p, |q|);
      CookedOnce(k, q);
      assert p == q + [p[|p| - 1]];
      Regroup(k.sent, q, [p[|p| - 1]]);
    }
  }

  // ---- the transport ----

  /** What recv returned, an error already sorted by its cause. */
  datatype Received = Bytes(raw: seq<byte>) | Closed | WouldBlock | Interrupted | Failed

  class TcpCtx {
    var mode: Mode
    var verb: byte
    var prevWasCr: bool

    constructor ()
      ensures mode == Plain && !prevWasCr
    {
      mode, verb, prevWasCr := Plain, 0, false;
    }

    ghost function At(out: seq<byte>, sent: seq<byte>): State
      reads this
    {
      State(mode, verb, out, sent)
    }

    /** telnet_filter. The output needs no more room than the input. */
    method Filter(raw: seq<byte>, out: array<byte>) returns (w: nat, sent: seq<byte>)
      requires |raw| <= out.Length
      modifies this`mode, this`verb, out
      ensures w <= |raw|
      ensures At(out[..w], sent) == Run(old(At([], [])), raw)
      ensures out[w..] == old(out[w..])
    {
      w, sent := 0, [];
      ghost var s := At([], []);
      var i := 0;
      while i < |raw|
        invariant w <= i <= |raw|
        invariant At(out[..w], sent) == Run(s, raw[..i])
        invariant out[w..] == old(out[w..])
      {
        assert raw[..i + 1][..i] == raw[..i];
        w, sent := FilterByte(raw[i], out, w, sent);
        i := i + 1;
      }
      assert raw[..|raw|] == raw;
    }

    /** The switch of telnet_filter. */
    method FilterByte(b: byte, out: array<byte>, w: nat, sent: seq<byte>) returns (w': nat, sent': seq<byte>)
      requires w < out.Length
      modifies this`mode, this`verb, out
      ensures w <= w' <= w + 1
      ensures At(out[..w'], sent') == Step(old(At(out[..w], sent)), b)
      ensures out[w'..] == old(out[w'..])
    {
      w', sent' := w, sent;
      match mode {
        case Plain =>
          if b == IAC {
            mode := Command;
          } else {
            out[w'] := b;
            w' := w' + 1;
          }
        case Command =>
          if b == IAC {
            out[w'] := 255;
            w' := w' + 1;
            mode := Plain;
          } else if IsVerb(b) {
            verb, mode := b, Option;
          } else if b == SB {
            mode := Inside;
          } else {
            mode := Plain;
          }
        case Option =>
          sent' := sent + Refusal(verb, b);
          mode := Plain;
        case Inside =>
          if b == IAC {
            mode := InsideCommand;
          }
        case InsideCommand =>
          if b == SE {
            mode := Plain;
          } else if b == IAC {
          } else {
            mode := Inside;
          }
      }
    }

    /** tcp_t_read: `got` is what recv brings when asked for `want` bytes. A read of nothing but commands returns 0, which
        is not the end of input. */
    method Read(buf: array<byte>, cap: nat, open: bool, got: Received) returns (r: int, sent: seq<byte>)
      requires cap <= buf.Length
      requires got.Bytes? ==> 0 < |got.raw| <= if cap < 512 then cap else 512
      modifies this`mode, this`verb, buf
      ensures -5 <= r <= cap
      ensures open && cap > 0 && got.Bytes? ==> r >= 0 && At(buf[..r], sent) == Run(old(At([], [])), got.raw)
      ensures !(open && cap > 0 && got.Bytes?) ==> At([], []) == old(At([], [])) && buf[..] == old(buf[..]) && sent == []
      ensures !open || (cap > 0 && got.Failed?) ==> r == -5
      ensures open && cap > 0 && got.Closed? ==> r == -1
      ensures open && (cap == 0 || got.WouldBlock? || got.Interrupted?) ==> r == 0
    {
      sent := [];
      if !open {
        return -5, [];
      }
      if cap == 0 {
        return 0, [];
      }
      match got {
        case Bytes(raw) =>
          var w;
          w, sent := Filter(raw, buf);
          r := w;
        case Closed => r := -1;
        case WouldBlock => r := 0;
        case Interrupted => r := 0;
        case Failed => r := -5;
      }
    }

    /** tcp_t_write: what is offered to the connection, send by send, and the byte count returned. `fails` tells for each
        send whether it fails for good; the write ends with -5 at the first that does. A send that would block or takes
        less than it is offered is not repeated, and changes nothing of this. */
    method Write(p: seq<byte>, open: bool, fails: nat -> bool) returns (calls: seq<seq<byte>>, total: int)
      modifies this`prevWasCr
      ensures !open ==> total == -5 && calls == [] && prevWasCr == old(prevWasCr)
      ensures open ==> if total == -5 then BrokeOff(calls, fails) else AllWent(calls, fails)
      ensures total != -5 ==> Cook(prevWasCr, Flatten(calls)) == CookAll(Cook(old(prevWasCr), []), p)
      ensures total != -5 ==>
                total == BareLfs(old(prevWasCr), p, |p|) + (|p| - AfterLastLf(old(prevWasCr), p, |p|)) && 0 <= total <= |p|
      ensures total != -5 ==> (total == |p| <==> LfOnlyLeads(old(prevWasCr), p, |p|))
    {
      if !open {
        return [], -5;
      }
      var start, counted, ok;
      start, calls, counted, ok := WriteLines(p, fails);
      if !ok {
        return calls, -5;
      }
      total := counted;
      if start < |p| {
        calls, ok := Send(calls, p[start..], fails);
        if !ok {
          return calls, -5;
        }
        total := total + (|p| - start);
      } else {
        assert Flatten(calls) + p[start..] == Flatten(calls);
      }
    }

    /** The loop: all text up to the last bare LF is sent. */
    method WriteLines(p: seq<byte>, fails: nat -> bool) returns (start: nat, calls: seq<seq<byte>>, total: nat, ok: bool)
      modifies this`prevWasCr
      ensures !ok ==> BrokeOff(calls, fails)
      ensures ok ==>
                && AllWent(calls, fails) && start <= |p| && total <= start
                && total == BareLfs(old(prevWasCr), p, |p|) && start == AfterLastLf(old(prevWasCr), p, |p|)
                && (total == start <==> LfOnlyLeads(old(prevWasCr), p, |p|))
                && Cook(prevWasCr, Flatten(calls) + p[start..]) == CookAll(Cook(old(prevWasCr), []), p)
    {
      ghost var k := Cook(prevWasCr, []);
      start, calls, total, ok := 0, [], 0, true;
      var i := 0;
      while i < |p|
        invariant i <= |p| && AllWent(calls, fails) && Writing(k, p, start, i, total, prevWasCr, Flatten(calls))
      {
        start, calls, total, ok := WriteByte(k, p, start, i, calls, total, fails);
        if !ok {
          return;
        }
        i := i + 1;
      }
      ok := true;
      WrittenAll(k, p, start, total, prevWasCr, Flatten(calls));
    }

    /** One turn of that loop. */
    method WriteByte(ghost k: Cook, p: seq<byte>, start: nat, i: nat, calls: seq<seq<byte>>, total: nat, fails: nat -> bool)
      returns (start': nat, calls': seq<seq<byte>>, total': nat, ok: bool)
      requires i < |p| && AllWent(calls, fails) && Writing(k, p, start, i, total, prevWasCr, Flatten(calls))
      modifies this`prevWasCr
      ensures ok ==> AllWent(calls', fails) && Writing(k, p, start', i + 1, total', prevWasCr, Flatten(calls'))
      ensures !ok ==> BrokeOff(calls', fails)
    {
      start', calls', total', ok := start, calls, total, true;
      if p[i] == LF && !prevWasCr {
        CountLf(k.wasCr, p, start, i, total);
        CookLf(k, p, start, i, prevWasCr, Flatten(calls));
        calls', ok := SendLine(calls, p[start..i], fails);
        if !ok {
          return;
        }
        total' := total + 1;
        start' := i + 1;
        prevWasCr := false;
      } else {
        CountOther(k.wasCr, p, start, i, total);
        CookOther(k, p, start, i, prevWasCr, Flatten(calls));
        prevWasCr := p[i] == CR;
      }
    }
  }

  /** Between two turns: what has been counted, and what has been sent. */
  ghost predicate Writing(k: Cook, p: seq<byte>, start: nat, i: nat, total: nat, wasCr: bool, sent: seq<byte>) {
    Counted(k.wasCr, p, start, i, total) && CookedTo(k, p, start, i, wasCr, sent)
  }

  lemma WrittenAll(k: Cook, p: seq<byte>, start: nat, total: nat, wasCr: bool, sent: seq<byte>)
    requires Writing(k, p, start, |p|, total, wasCr, sent)
    ensures start <= |p| && total <= start && total == BareLfs(k.wasCr, p, |p|) && start == AfterLastLf(k.wasCr, p, |p|)
    ensures total == start <==> LfOnlyLeads(k.wasCr, p, |p|)
    ensures Cook(wasCr, sent + p[start..]) == CookAll(k, p)
  {
    assert p[..|p|] == p && p[start..] == p[start..|p|];
  }

  /** No send has failed for good. */
  ghost predicate AllWent(calls: seq<seq<byte>>, fails: nat -> bool) {
    forall i :: 0 <= i < |calls| ==> !fails(i)
  }

  /** The last send is the first to fail for good. */
  ghost predicate BrokeOff(calls: seq<seq<byte>>, fails: nat -> bool) {
    calls != [] && fails(|calls| - 1) && forall i :: 0 <= i < |calls| - 1 ==> !fails(i)
  }

  /** One more send. */
  method Send(calls: seq<seq<byte>>, c: seq<byte>, fails: nat -> bool) returns (more: seq<seq<byte>>, ok: bool)
    requires AllWent(calls, fails)
    ensures if ok then AllWent(more, fails) else BrokeOff(more, fails)
    ensures Flatten(more) == Flatten(calls) + c
  {
    more := calls + [c];
    assert more[..|calls|] == calls;
    ok := !fails(|more| - 1);
  }

  /** The text before a bare newline, if there is any, and CR LF. */
  method SendLine(calls: seq<seq<byte>>, run: seq<byte>, fails: nat -> bool) returns (more: seq<seq<byte>>, ok: bool)
    requires AllWent(calls, fails)
    ensures if ok then AllWent(more, fails) else BrokeOff(more, fails)
    ensures ok ==> Flatten(more) == (if |run| > 0 then Flatten(calls) + run else Flatten(calls)) + [CR, LF]
  {
    more, ok := calls, true;
    if |run| > 0 {
      more, ok := Send(more, run, fails);
      if !ok {
        return;
      }
    }
    more, ok := Send(more, [CR, LF], fails);
  }

  /** What reaches the wire when send i takes takes(i) bytes at most. */
  function Wire(calls: seq<seq<byte>>, takes: nat -> nat): seq<byte> {
    if |calls| == 0 then []
    else
      var k, c := |calls| - 1, calls[|calls| - 1];
      Wire(calls[..k], takes) + c[..if takes(k) < |c| then takes(k) else |c|]
  }

  lemma {:induction false} WireIsShorter(calls: seq<seq<byte>>, takes: nat -> nat)
    ensures |Wire(calls, takes)| <= |Flatten(calls)|
    ensures |Wire(calls, takes)| == |Flatten(calls)| <==> forall i :: 0 <= i < |calls| ==> takes(i) >= |calls[i]|
  {
    if |calls| > 0 {
      var k := |calls| - 1;
      WireIsShorter(calls[..k], takes);
      assert forall i :: 0 <= i < k ==> calls[..k][i] == calls[i];
    }
  }

  lemma {:induction false} WireTakesAll(calls: seq<seq<byte>>, takes: nat -> nat)
    requires forall i :: 0 <= i < |calls| ==> takes(i) >= |calls[i]|
    ensures Wire(calls, takes) == Flatten(calls)
  {
    if |calls| > 0 {
      var k := |calls| - 1;
      assert forall i :: 0 <= i < k ==> calls[..k][i] == calls[i];
      WireTakesAll(calls[..k], takes);
      assert calls[k][..|calls[k]|] == calls[k];
    }
  }

  /** The text reaches the wire whole exactly if every send takes all it is offered. The byte count returned is the same
      either way, for it does not look at what a send took. */
  lemma WireIsWholeIff(calls: seq<seq<byte>>, takes: nat -> nat)
    ensures Wire(calls, takes) == Flatten(calls) <==> forall i :: 0 <= i < |calls| ==> takes(i) >= |calls[i]|
  {
    WireIsShorter(calls, takes);
    if forall i :: 0 <= i < |calls| ==> takes(i) >= |calls[i]| {
      WireTakesAll(calls, takes);
    }
  }

  /** The return value so far: of the text before a bare LF, only the LF itself is counted. */
  ghost predicate Counted(wasCr: bool, p: seq<byte>, start: nat, i: nat, total: nat) {
    && start <= i <= |p| && total <= start && (total == start <==> LfOnlyLeads(wasCr, p, i))
    && (start == 0 || BareLf(wasCr, p, start - 1))
    && (forall j :: start <= j < i ==> !BareLf(wasCr, p, j))
    && total == BareLfs(wasCr, p, i) && start == AfterLastLf(wasCr, p, i)
  }

  lemma CountLf(wasCr: bool, p: seq<byte>, start: nat, i: nat, total: nat)
    requires Counted(wasCr, p, start, i, total) && i < |p| && BareLf(wasCr, p, i)
    ensures Counted(wasCr, p, i + 1, i + 1, total + 1)
  {
    assert Leads(wasCr, p, i) <==> start == i;
    if LfOnlyLeads(wasCr, p, i + 1) {
      assert LfOnlyLeads(wasCr, p, i);
    }
  }

  lemma CountOther(wasCr: bool, p: seq<byte>, start: nat, i: nat, total: nat)
    requires Counted(wasCr, p, start, i, total) && i < |p| && !BareLf(wasCr, p, i)
    ensures Counted(wasCr, p, start, i + 1, total)
  {
  }

  /** What has been sent, and the run that is still waiting, are the cooked input so far. */
  ghost predicate CookedTo(k: Cook, p: seq<byte>, start: nat, i: nat, wasCr: bool, sent: seq<byte>) {
    && start <= i <= |p| && CookAll(k, p[..i]) == Cook(wasCr, sent + p[start..i])
    && wasCr == if i == 0 then k.wasCr else p[i - 1] == CR
  }

  lemma CookNext(k: Cook, p: seq<byte>, i: nat)
    requires i < |p|
    ensures CookAll(k, p[..i + 1]) == CookStep(CookAll(k, p[..i]), p[i])
  {
    assert p[..i + 1][..i] == p[..i];
  }

  lemma CookLf(k: Cook, p: seq<byte>, start: nat, i: nat, wasCr: bool, sent: seq<byte>)
    requires CookedTo(k, p, start, i, wasCr, sent) && i < |p| && p[i] == LF && !wasCr
    ensures CookedTo(k, p, i + 1, i + 1, false, (if i > start then sent + p[start..i] else sent) + [CR, LF])
  {
    CookNext(k, p, i);
    assert p[i + 1..i + 1] == [];
    if i == start {
      assert sent + p[start..i] == sent;
    }
  }

  lemma CookOther(k: Cook, p: seq<byte>, start: nat, i: nat, wasCr: bool, sent: seq<byte>)
    requires CookedTo(k, p, start, i, wasCr, sent) && i < |p| && !(p[i] == LF && !wasCr)
    ensures CookedTo(k, p, start, i + 1, p[i] == CR, sent)
  {
    CookNext(k, p, i);
    OneMore(sent, p, start, i);
  }

  lemma OneMore(sent: seq<byte>, p: seq<byte>, start: nat, i: nat)
    requires start <= i < |p|
    ensures sent + p[start..i + 1] == sent + p[start..i] + [p[i]]
  {
    assert p[start..i + 1] == p[start..i] + [p[i]];
  }
}
