/**
  The preemptive scheduler of docs/reference/presched_step3_scheduler_thread_proof.c: strict priority, round robin
  among equals, sleeping tasks woken by the tick.

  `Sched` is the scheduler's memory as a value and `Apply` its three events; a task that sleeps or finishes does so in
  one step, between two ticks. The class `Kernel` is the code over arrays.
*/
module Scheduler {
  import Arith

  datatype TaskState = Ready | Running | Blocked | Finished

  datatype Sched = Sched(
    state: seq<TaskState>, prio: seq<int>, wake: seq<nat>, current: int, ticks: nat, running: int)

  predicate Shaped(s: Sched) {
    && |s.state| == |s.prio| == |s.wake| >= 1
    && -1 <= s.current < |s.state|
  }

  predicate Runnable(s: Sched, i: nat)
    requires i < |s.state|
  {
    s.state[i].Ready? || s.state[i].Running?
  }

  // ---- hi and pick ----

  /** hi: the highest priority among runnable tasks from `i` on, or `b` if none is above it. */
  function HiFrom(s: Sched, i: nat, b: int): int
    requires Shaped(s) && i <= |s.state|
    decreases |s.state| - i
  {
    if i == |s.state| then b
    else HiFrom(s, i + 1, if Runnable(s, i) && s.prio[i] > b then s.prio[i] else b)
  }

  function Hi(s: Sched): int
    requires Shaped(s)
  {
    HiFrom(s, 0, -1)
  }

  lemma {:induction false} HiFromIsMax(s: Sched, i: nat, b: int)
    requires Shaped(s) && i <= |s.state|
    ensures HiFrom(s, i, b) >= b
    ensures forall j :: i <= j < |s.state| && Runnable(s, j) ==> s.prio[j] <= HiFrom(s, i, b)
    ensures HiFrom(s, i, b) != b ==> exists j :: i <= j < |s.state| && Candidate(s, j, HiFrom(s, i, b))
    decreases |s.state| - i
  {
    if i < |s.state| {
      HiFromIsMax(s, i + 1, if Runnable(s, i) && s.prio[i] > b then s.prio[i] else b);
      if HiFrom(s, i, b) == s.prio[i] && Runnable(s, i) {
        assert Candidate(s, i, HiFrom(s, i, b));
      }
    }
  }

  predicate Candidate(s: Sched, i: nat, level: int)
    requires |s.prio| == |s.state| && i < |s.state|
  {
    s.prio[i] == level && Runnable(s, i)
  }

  /** Hi is -1 exactly when no runnable task has a non-negative priority, and otherwise the greatest such priority. */
  lemma HiIsMax(s: Sched)
    requires Shaped(s)
    ensures forall j :: 0 <= j < |s.state| && Runnable(s, j) ==> s.prio[j] <= Hi(s)
    ensures Hi(s) >= 0 ==> exists j :: 0 <= j < |s.state| && Candidate(s, j, Hi(s))
    ensures Hi(s) >= 0 <==> exists j :: 0 <= j < |s.state| && Runnable(s, j) && s.prio[j] >= 0
    ensures Hi(s) >= -1
  {
    HiFromIsMax(s, 0, -1);
  }

  /** Two states with the same runnable tasks and priorities have the same Hi. */
  lemma {:induction false} HiFromSame(s: Sched, t: Sched, i: nat, b: int)
    requires Shaped(s) && Shaped(t) && s.prio == t.prio && i <= |s.state|
    requires forall j :: i <= j < |s.state| ==> (Runnable(s, j) <==> Runnable(t, j))
    ensures HiFrom(s, i, b) == HiFrom(t, i, b)
    decreases |s.state| - i
  {
    if i < |s.state| {
      HiFromSame(s, t, i + 1, if Runnable(s, i) && s.prio[i] > b then s.prio[i] else b);
    }
  }

  /** The k-th task after `from`, cyclically: (from + k) % N. */
  function Cyclic(from: nat, k: nat, n: nat): nat {
    if from + k < n then from + k else from + k - n
  }

  lemma CyclicIsMod(from: nat, k: nat, n: nat)
    requires from < n && k <= n
    ensures (from + k) % n == Cyclic(from, k, n) < n
  {
    var x := from + k;
    if x >= n {
      assert x == (x - n) + 1 * n;
      Arith.DivUnique(x, 1, n);
    } else {
      Arith.DivUnique(x, 0, n);
    }
  }

  /** The scan of pick from offset k on. */
  function Scan(s: Sched, from: nat, level: int, k: nat): (r: int)
    requires Shaped(s) && from < |s.state| && 1 <= k <= |s.state| + 1
    ensures -1 <= r < |s.state|
    decreases |s.state| + 1 - k
  {
    if k > |s.state| then (if Candidate(s, from, level) then from else -1)
    else if Candidate(s, Cyclic(from, k, |s.state|), level) then Cyclic(from, k, |s.state|)
    else Scan(s, from, level, k + 1)
  }

  function Pick(s: Sched, from: nat): (r: int)
    requires Shaped(s) && from < |s.state|
    ensures -1 <= r < |s.state|
  {
    if Hi(s) < 0 then -1 else Scan(s, from, Hi(s), 1)
  }

  /** If a candidate lies `d` places on, the scan stops at the first candidate, no further than that. */
  lemma {:induction false} ScanStops(s: Sched, from: nat, level: int, k: nat, d: nat) returns (e: nat)
    requires Shaped(s) && from < |s.state| && 1 <= k <= d <= |s.state|
    requires Candidate(s, Cyclic(from, d, |s.state|), level)
    ensures k <= e <= d && Scan(s, from, level, k) == Cyclic(from, e, |s.state|)
    ensures Candidate(s, Cyclic(from, e, |s.state|), level)
    ensures forall j :: k <= j < e ==> !Candidate(s, Cyclic(from, j, |s.state|), level)
    decreases d - k
  {
    if Candidate(s, Cyclic(from, k, |s.state|), level) {
      e := k;
    } else {
      e := ScanStops(s, from, level, k + 1, d);
    }
  }

  /** How far after `from` task `j` comes, 1 to N. */
  function Distance(from: nat, j: nat, n: nat): nat
    requires from < n && j < n
  {
    if j > from then j - from else j + n - from
  }

  /** Pick finds a runnable task of the highest priority whenever there is one, and the first one after `from`. */
  lemma PickFindsHighest(s: Sched, from: nat)
    requires Shaped(s) && from < |s.state|
    ensures Pick(s, from) >= 0 <==> Hi(s) >= 0
    ensures Pick(s, from) >= 0 ==> Candidate(s, Pick(s, from), Hi(s))
    ensures Pick(s, from) >= 0 ==>
              forall j :: 0 <= j < |s.state| && Candidate(s, j, Hi(s)) ==>
                Distance(from, Pick(s, from), |s.state|) <= Distance(from, j, |s.state|)
  {
    HiIsMax(s);
    if Hi(s) >= 0 {
      forall j | 0 <= j < |s.state| && Candidate(s, j, Hi(s))
        ensures Pick(s, from) >= 0 && Candidate(s, Pick(s, from), Hi(s))
        ensures Distance(from, Pick(s, from), |s.state|) <= Distance(from, j, |s.state|)
      {
        var e := ScanStops(s, from, Hi(s), 1, Distance(from, j, |s.state|));
      }
    }
  }

  // ---- events ----

  predicate Due(s: Sched, i: nat, now: nat)
    requires Shaped(s) && i < |s.state|
  {
    s.wake[i] != 0 && now >= s.wake[i] && s.state[i].Blocked?
  }

  /** The tick counter advances and every task whose deadline has come is ready again. */
  function Wake(s: Sched): (s': Sched)
    requires Shaped(s)
    ensures Shaped(s') && |s'.state| == |s.state|
  {
    var now := s.ticks + 1;
    var n := |s.state|;
    s.(ticks := now,
       state := seq(n, i requires 0 <= i < n => if Due(s, i, now) then Ready else s.state[i]),
       wake := seq(n, i requires 0 <= i < n => if Due(s, i, now) then 0 else s.wake[i]))
  }

  function From(s: Sched): nat
    requires Shaped(s)
  {
    if s.current < 0 then 0 else s.current
  }

  /** The processor goes to the picked task; the task it is taken from is ready again. */
  function Dispatch(s: Sched): (s': Sched)
    requires Shaped(s)
    ensures Shaped(s') && |s'.state| == |s.state|
  {
    var nxt := Pick(s, From(s));
    if nxt < 0 || nxt == s.current then s
    else
      var parked := if s.current >= 0 && s.state[s.current].Running? then s.state[s.current := Ready] else s.state;
      s.(current := nxt, state := parked[nxt := Running])
  }

  function Tick(s: Sched): (s': Sched)
    requires Shaped(s)
    ensures Shaped(s') && |s'.state| == |s.state|
  {
    Dispatch(Wake(s))
  }

  /** do_sleep by the running task. */
  function Sleep(s: Sched, n: nat): (s': Sched)
    requires Shaped(s) && s.current >= 0
    ensures Shaped(s') && |s'.state| == |s.state|
  {
    s.(wake := s.wake[s.current := s.ticks + n], state := s.state[s.current := Blocked], current := -1)
  }

  /** The running task's function returns. */
  function Finish(s: Sched): (s': Sched)
    requires Shaped(s) && s.current >= 0
    ensures Shaped(s') && |s'.state| == |s.state|
  {
    s.(state := s.state[s.current := Finished], running := s.running - 1, current := -1)
  }

  datatype Step = DoTick | DoSleep(n: nat) | DoFinish

  /** The scheduler thread ticks while tasks remain; only the running task sleeps or finishes. */
  predicate Enabled(s: Sched, step: Step) {
    match step
    case DoTick => s.running > 0
    case _ => s.current >= 0
  }

  function Apply(s: Sched, step: Step): (s': Sched)
    requires Shaped(s) && Enabled(s, step)
    ensures Shaped(s') && |s'.state| == |s.state|
  {
    match step
    case DoTick => Tick(s)
    case DoSleep(n) => Sleep(s, n)
    case DoFinish => Finish(s)
  }

  predicate IsRun(s: Sched, steps: seq<Step>)
    requires Shaped(s)
    decreases |steps|
  {
    steps == [] || (Enabled(s, steps[0]) && IsRun(Apply(s, steps[0]), steps[1..]))
  }

  function RunFrom(s: Sched, steps: seq<Step>): (s': Sched)
    requires Shaped(s) && IsRun(s, steps)
    ensures Shaped(s') && |s'.state| == |s.state|
    decreases |steps|
  {
    if steps == [] then s else RunFrom(Apply(s, steps[0]), steps[1..])
  }

  // ---- what every reachable state satisfies ----

  /** At most one task runs and `current` names it; a deadline is set only for a blocked task. */
  ghost predicate Inv(s: Sched) {
    && Shaped(s)
    && (s.current >= 0 ==> s.state[s.current].Running? && s.prio[s.current] >= 0)
    && (forall i :: 0 <= i < |s.state| && s.state[i].Running? ==> i == s.current)
    && (forall i :: 0 <= i < |s.state| && s.wake[i] != 0 ==> s.state[i].Blocked?)
  }

  /** main: all tasks ready, then the first dispatch. */
  function Boot(prio: seq<int>, running: int): (s: Sched)
    requires |prio| >= 1
    ensures Shaped(s)
  {
    var n := |prio|;
    Dispatch(Sched(seq(n, _ => Ready), prio, seq(n, _ => 0), -1, 0, running))
  }

  lemma DispatchKeeps(s: Sched)
    requires Inv(s)
    ensures Inv(Dispatch(s))
    ensures Hi(Dispatch(s)) == Hi(s)
    ensures if Hi(s) >= 0 then Dispatch(s).current >= 0 && Candidate(Dispatch(s), Dispatch(s).current, Hi(s))
            else Dispatch(s).current == s.current
  {
    PickFindsHighest(s, From(s));
    HiFromSame(s, Dispatch(s), 0, -1);
  }

  lemma WakeKeeps(s: Sched)
    requires Inv(s)
    ensures Inv(Wake(s)) && Wake(s).current == s.current && Wake(s).prio == s.prio
  {
  }

  lemma StepKeeps(s: Sched, step: Step)
    requires Inv(s) && Enabled(s, step)
    ensures Inv(Apply(s, step))
  {
    if step.DoTick? {
      WakeKeeps(s);
      DispatchKeeps(Wake(s));
    }
  }

  lemma {:induction false} RunKeeps(s: Sched, steps: seq<Step>)
    requires Inv(s) && IsRun(s, steps)
    ensures Inv(RunFrom(s, steps))
    decreases |steps|
  {
    if steps != [] {
      StepKeeps(s, steps[0]);
      RunKeeps(Apply(s, steps[0]), steps[1..]);
    }
  }

  /** In every state reachable from the boot, at most one task is running, and `current` names it. */
  lemma AtMostOneRuns(prio: seq<int>, running: int, steps: seq<Step>)
    requires |prio| >= 1 && IsRun(Boot(prio, running), steps)
    ensures var s := RunFrom(Boot(prio, running), steps);
            && Inv(s)
            && forall i, j :: 0 <= i < |s.state| && 0 <= j < |s.state| && s.state[i].Running? && s.state[j].Running? ==> i == j
  {
    DispatchKeeps(Sched(seq(|prio|, _ => Ready), prio, seq(|prio|, _ => 0), -1, 0, running));
    RunKeeps(Boot(prio, running), steps);
  }

  /** Right after every tick the running task has the highest priority of all runnable tasks, and if there is one to
      run, one runs. */
  lemma TickRunsTheHighest(s: Sched)
    requires Inv(s)
    ensures var s' := Tick(s);
            && (forall j :: 0 <= j < |s'.state| && (s'.state[j] == Ready || s'.state[j] == Running) && s'.prio[j] >= 0 ==>
                  s'.current >= 0 && s'.prio[j] <= s'.prio[s'.current])
            && (s'.current >= 0 ==> s'.state[s'.current].Running?)
            && s'.ticks == s.ticks + 1
  {
    WakeKeeps(s);
    DispatchKeeps(Wake(s));
    HiIsMax(Tick(s));
  }

  // ---- round robin ----

  function Ticks(s: Sched, n: nat): (s': Sched)
    requires Shaped(s)
    ensures Shaped(s') && |s'.state| == |s.state|
    decreases n
  {
    if n == 0 then s else Ticks(Tick(s), n - 1)
  }

  /** Over d ticks, no runnable task ever has a higher priority than `level`. */
  ghost predicate NothingAbove(s: Sched, level: int, d: nat)
    requires Shaped(s)
    decreases d
  {
    d == 0 || (Hi(Wake(s)) == level && NothingAbove(Tick(s), level, d - 1))
  }

  /** One tick moves the processor to the first task of the top priority, no further on than `j`. */
  lemma TickAdvances(s: Sched, j: nat)
    requires Inv(s) && j < |s.state| && Candidate(s, j, Hi(Wake(s))) && s.prio[j] >= 0
    ensures Tick(s).current >= 0 && Runnable(Tick(s), j) && Inv(Tick(s)) && Tick(s).prio == s.prio
    ensures Tick(s).current != j ==>
              Distance(Tick(s).current, j, |s.state|) < Distance(From(s), j, |s.state|)
  {
    WakeKeeps(s);
    DispatchKeeps(Wake(s));
    PickFindsHighest(Wake(s), From(s));
    assert Candidate(Wake(s), j, Hi(Wake(s)));
  }

  /** Fairness with a bound: a runnable task of the top priority becomes current within as many ticks as it lies behind
      the current task in the cycle, N at most, if no task blocks meanwhile and none of higher priority wakes. Tasks of
      the same or lower priority may wake. */
  lemma {:induction false} RoundRobin(s: Sched, j: nat, d: nat) returns (m: nat)
    requires Inv(s) && j < |s.state| && Runnable(s, j) && s.prio[j] >= 0
    requires Distance(From(s), j, |s.state|) <= d && NothingAbove(s, s.prio[j], d)
    ensures 1 <= m <= d && Ticks(s, m).current == j
    decreases d
  {
    TickAdvances(s, j);
    var t := Tick(s);
    if t.current == j {
      TicksFrom(s, 0);
      m := 1;
    } else {
      var k := RoundRobin(t, j, d - 1);
      TicksFrom(s, k);
      m := k + 1;
    }
  }

  lemma TicksFrom(s: Sched, k: nat)
    requires Shaped(s)
    ensures Ticks(s, k + 1) == Ticks(Tick(s), k)
    ensures k == 0 ==> Ticks(s, k + 1) == Tick(s)
  {
  }

  /** The condition on blocking is needed. The rotation restarts at task 1 after a block, so of two equal tasks the one
      that always sleeps through the next tick keeps the processor for ever. */
  lemma {:induction false} BlockingStarves(t: nat, n: nat)
    ensures var s := Sched([Ready, Running], [5, 5], [0, 0], 1, t, 1);
            && IsRun(s, SleepTick(n))
            && RunFrom(s, SleepTick(n)) == s.(ticks := t + n)
    decreases n
  {
    if n > 0 {
      var s := Sched([Ready, Running], [5, 5], [0, 0], 1, t, 1);
      var a := Sched([Ready, Blocked], [5, 5], [0, t + 1], -1, t, 1);
      var b := Sched([Ready, Ready], [5, 5], [0, 0], -1, t + 1, 1);
      assert Sleep(s, 1) == a;
      assert Wake(a) == b;
      assert HiFrom(b, 2, 5) == 5 && HiFrom(b, 1, 5) == 5 && HiFrom(b, 0, -1) == 5;
      assert Candidate(b, Cyclic(0, 1, 2), 5);
      assert Scan(b, 0, 5, 1) == 1;
      assert Tick(a) == s.(ticks := t + 1);
      BlockingStarves(t + 1, n - 1);
      var rest := SleepTick(n - 1);
      assert SleepTick(n)[1..] == [DoTick] + rest && ([DoTick] + rest)[1..] == rest;
    }
  }

  function SleepTick(n: nat): seq<Step> {
    if n == 0 then [] else [DoSleep(1), DoTick] + SleepTick(n - 1)
  }

  // ---- fairness over every run ----

  /** Whether some step of the run gives task `j` the processor. */
  predicate Reaches(s: Sched, steps: seq<Step>, j: nat)
    requires Shaped(s) && IsRun(s, steps)
    decreases |steps|
  {
    steps != [] && (Apply(s, steps[0]).current == j || Reaches(Apply(s, steps[0]), steps[1..], j))
  }

  /** At every tick of the run, no runnable task has a higher priority than `level`. */
  predicate NoneAbove(s: Sched, steps: seq<Step>, level: int)
    requires Shaped(s) && IsRun(s, steps)
    decreases |steps|
  {
    steps == [] || ((steps[0].DoTick? ==> Hi(Wake(s)) <= level) && NoneAbove(Apply(s, steps[0]), steps[1..], level))
  }

  function TicksIn(steps: seq<Step>): nat {
    if steps == [] then 0 else (if steps[0].DoTick? then 1 else 0) + TicksIn(steps[1..])
  }

  predicate OnlyTicks(steps: seq<Step>) {
    forall k :: 0 <= k < |steps| ==> steps[k].DoTick?
  }

  /** Of all tasks of its priority, `j` is the one a scan from task 0 meets first. */
  predicate FirstOfEquals(s: Sched, j: nat)
    requires Shaped(s) && j < |s.state|
  {
    forall k :: 0 <= k < |s.state| && k != j && s.prio[k] == s.prio[j] ==>
      Distance(0, j, |s.state|) < Distance(0, k, |s.state|)
  }

  /** Ticks after which the processor comes to `j` at the latest. After a block the scan restarts behind task 0. */
  function Behind(s: Sched, j: nat): (d: nat)
    requires Shaped(s) && j < |s.state|
    ensures 1 <= d <= |s.state|
  {
    if s.current < 0 && FirstOfEquals(s, j) then 1 else Distance(From(s), j, |s.state|)
  }

  /** One step of a run in which nothing above `j` is runnable: `j` gets the processor, or it comes nearer, by a tick
      always and by a block if `j` is the first of its equals. */
  lemma StepNears(s: Sched, step: Step, j: nat)
    requires Inv(s) && Enabled(s, step) && j < |s.state| && j != s.current && Runnable(s, j) && s.prio[j] >= 0
    requires if step.DoTick? then Hi(Wake(s)) <= s.prio[j] else FirstOfEquals(s, j)
    ensures var s' := Apply(s, step);
            Inv(s') && s'.prio == s.prio &&
            (s'.current != j ==> Runnable(s', j) && Behind(s', j) <= Behind(s, j) - if step.DoTick? then 1 else 0)
  {
    StepKeeps(s, step);
    if step.DoTick? {
      WakeKeeps(s);
      HiIsMax(Wake(s));
      assert Runnable(Wake(s), j);
      TickAdvances(s, j);
      PickFindsHighest(Wake(s), From(s));
    }
  }

  /** Fairness with a bound, over every run: in ticks, sleeps and completions in any order, with nothing of higher
      priority runnable, a runnable task gets the processor within `Behind` ticks if no task blocks meanwhile or the
      task is the first of its equals. */
  lemma {:induction false} GetsItsTurn(s: Sched, steps: seq<Step>, j: nat)
    requires Inv(s) && IsRun(s, steps) && j < |s.state| && j != s.current && Runnable(s, j) && s.prio[j] >= 0
    requires NoneAbove(s, steps, s.prio[j]) && TicksIn(steps) >= Behind(s, j)
    requires OnlyTicks(steps) || FirstOfEquals(s, j)
    ensures Reaches(s, steps, j)
    decreases |steps|
  {
    StepNears(s, steps[0], j);
    if Apply(s, steps[0]).current != j {
      GetsItsTurn(Apply(s, steps[0]), steps[1..], j);
    }
  }

  /** The condition is needed for every other task: while the first of the tasks of the top priority sleeps through each
      next tick, no other task gets the processor, in any number of ticks. */
  lemma {:induction false} OthersStarve(s: Sched, i: nat, n: nat, j: nat)
    requires Inv(s) && s.current == i && s.running > 0 && FirstOfEquals(s, i)
    requires forall k :: 0 <= k < |s.state| ==> s.prio[k] <= s.prio[i]
    requires j < |s.state| && j != i
    ensures IsRun(s, SleepTick(n)) && TicksIn(SleepTick(n)) == n && NoneAbove(s, SleepTick(n), s.prio[i])
    ensures !Reaches(s, SleepTick(n), j)
    decreases n
  {
    if n > 0 {
      SleepThroughTick(s, i);
      var a, rest := Sleep(s, 1), SleepTick(n - 1);
      OthersStarve(Tick(a), i, n - 1, j);
      var last := [DoTick] + rest;
      OneStep(a, DoTick, rest, s.prio[i], j);
      OneStep(s, DoSleep(1), last, s.prio[i], j);
      assert SleepTick(n) == [DoSleep(1)] + last;
    }
  }

  /** What a run is, from its first step and the rest. */
  lemma OneStep(s: Sched, step: Step, rest: seq<Step>, level: int, j: nat)
    requires Shaped(s) && Enabled(s, step) && IsRun(Apply(s, step), rest)
    ensures var run := [step] + rest;
            && IsRun(s, run) && TicksIn(run) == TicksIn(rest) + (if step.DoTick? then 1 else 0)
            && (NoneAbove(s, run, level) <==>
                  (step.DoTick? ==> Hi(Wake(s)) <= level) && NoneAbove(Apply(s, step), rest, level))
            && (Reaches(s, run, j) <==> Apply(s, step).current == j || Reaches(Apply(s, step), rest, j))
  {
    assert ([step] + rest)[1..] == rest;
  }

  lemma SleepThroughTick(s: Sched, i: nat)
    requires Inv(s) && s.current == i && FirstOfEquals(s, i)
    requires forall k :: 0 <= k < |s.state| ==> s.prio[k] <= s.prio[i]
    ensures var t := Tick(Sleep(s, 1));
            Inv(t) && t.current == i && t.prio == s.prio && t.running == s.running && Hi(Wake(Sleep(s, 1))) <= s.prio[i]
  {
    var a := Sleep(s, 1);
    StepKeeps(s, DoSleep(1));
    WakeKeeps(a);
    DispatchKeeps(Wake(a));
    HiIsMax(Wake(a));
    assert Runnable(Wake(a), i);
    assert Candidate(Wake(a), i, Hi(Wake(a)));
    PickFindsHighest(Wake(a), 0);
  }

  // ---- sleeping ----

  /** A blocked task whose deadline has not come stays blocked through every run. */
  lemma {:induction false} StaysAsleep(s: Sched, steps: seq<Step>, me: nat)
    requires Inv(s) && IsRun(s, steps) && me < |s.state| && s.state[me].Blocked?
    requires s.wake[me] == 0 || RunFrom(s, steps).ticks < s.wake[me]
    ensures RunFrom(s, steps).state[me].Blocked? && RunFrom(s, steps).wake[me] == s.wake[me]
    decreases |steps|
  {
    if steps != [] {
      StepKeeps(s, steps[0]);
      TicksGrow(Apply(s, steps[0]), steps[1..]);
      SleepsOn(s, steps[0], me);
      StaysAsleep(Apply(s, steps[0]), steps[1..], me);
    }
  }

  lemma {:induction false} TicksGrow(s: Sched, steps: seq<Step>)
    requires Shaped(s) && IsRun(s, steps)
    ensures s.ticks <= RunFrom(s, steps).ticks
    decreases |steps|
  {
    if steps != [] {
      TicksGrow(Apply(s, steps[0]), steps[1..]);
    }
  }

  lemma SleepsOn(s: Sched, step: Step, me: nat)
    requires Inv(s) && Enabled(s, step) && me < |s.state| && s.state[me].Blocked?
    requires s.wake[me] == 0 || Apply(s, step).ticks < s.wake[me]
    ensures Apply(s, step).state[me].Blocked? && Apply(s, step).wake[me] == s.wake[me]
  {
    if step.DoTick? {
      WakeKeeps(s);
      PickFindsHighest(Wake(s), From(s));
    }
  }

  /** The tick that reaches a task's deadline makes it runnable, and running if its priority is above all others'. */
  lemma WakesAtDeadline(s: Sched, me: nat)
    requires Inv(s) && me < |s.state| && s.state[me].Blocked? && 0 < s.wake[me] <= s.ticks + 1
    ensures Runnable(Tick(s), me)
    ensures s.prio[me] >= 0 && (forall j :: 0 <= j < |s.state| && j != me ==> s.prio[j] < s.prio[me]) ==>
              Tick(s).current == me
  {
    WakeKeeps(s);
    DispatchKeeps(Wake(s));
    HiIsMax(Wake(s));
    assert Runnable(Wake(s), me);
  }

  /** The headline of the reference: a task of strictly highest priority that sleeps n >= 1 ticks is not running at any
      point before its deadline, whatever the other tasks do, and is running right after the tick that reaches it. */
  lemma SleeperWakesExactlyOnTime(s: Sched, n: nat, steps: seq<Step>, me: nat)
    requires Inv(s) && s.current == me && n >= 1
    requires forall j :: 0 <= j < |s.state| && j != me ==> s.prio[j] < s.prio[me]
    requires IsRun(Sleep(s, n), steps)
    ensures RunFrom(Sleep(s, n), steps).ticks < s.ticks + n ==> RunFrom(Sleep(s, n), steps).current != me
    ensures RunFrom(Sleep(s, n), steps).ticks == s.ticks + n - 1 ==>
              Tick(RunFrom(Sleep(s, n), steps)).current == me
  {
    var a := Sleep(s, n);
    var z := RunFrom(a, steps);
    StepKeeps(s, DoSleep(n));
    RunKeeps(a, steps);
    if z.ticks < s.ticks + n {
      StaysAsleep(a, steps, me);
      PrioFixed(a, steps);
      if z.ticks == s.ticks + n - 1 {
        WakesAtDeadline(z, me);
      }
    }
  }

  lemma {:induction false} PrioFixed(s: Sched, steps: seq<Step>)
    requires Shaped(s) && IsRun(s, steps)
    ensures RunFrom(s, steps).prio == s.prio
    decreases |steps|
  {
    if steps != [] {
      PrioFixed(Apply(s, steps[0]), steps[1..]);
    }
  }

  /** Deadline 0 doubles as "no deadline": a task that sleeps 0 ticks before the first tick never wakes. Every other
      sleeper is runnable after max(n, 1) ticks. */
  lemma SleeperWakesIff(s: Sched, n: nat, me: nat)
    requires Inv(s) && s.current == me
    ensures s.ticks + n > 0 <==> Runnable(Ticks(Sleep(s, n), if n == 0 then 1 else n), me)
    ensures s.ticks + n == 0 ==>
              forall steps :: IsRun(Sleep(s, n), steps) ==> RunFrom(Sleep(s, n), steps).state[me].Blocked?
  {
    var a := Sleep(s, n);
    StepKeeps(s, DoSleep(n));
    if s.ticks + n == 0 {
      forall steps | IsRun(a, steps)
        ensures RunFrom(a, steps).state[me].Blocked?
      {
        StaysAsleep(a, steps, me);
      }
      SleepsThroughTick(a, me);
      assert Ticks(a, 1) == Ticks(Tick(a), 0) == Tick(a);
    } else {
      WakesWithin(a, me, if n == 0 then 1 else n);
    }
  }

  lemma SleepsThroughTick(s: Sched, me: nat)
    requires Inv(s) && me < |s.state| && s.state[me].Blocked? && s.wake[me] == 0
    ensures Tick(s).state[me].Blocked?
  {
    WakeKeeps(s);
    PickFindsHighest(Wake(s), From(s));
  }

  lemma {:induction false} WakesWithin(s: Sched, me: nat, d: nat)
    requires Inv(s) && me < |s.state| && d >= 1
    requires Runnable(s, me) || (s.state[me].Blocked? && 0 < s.wake[me] <= s.ticks + d)
    ensures Runnable(Ticks(s, d), me)
    decreases d
  {
    WakeKeeps(s);
    DispatchKeeps(Wake(s));
    PickFindsHighest(Wake(s), From(s));
    assert Ticks(s, d) == Ticks(Tick(s), d - 1);
    if d > 1 {
      WakesWithin(Tick(s), me, d - 1);
    }
  }

  // ---- finishing ----

  /** No step makes a finished task runnable or gives it the processor. */
  lemma FinishedStep(s: Sched, step: Step, i: nat)
    requires Inv(s) && Enabled(s, step) && i < |s.state| && s.state[i].Finished?
    ensures Apply(s, step).state[i].Finished? && Apply(s, step).current != i
  {
    if step.DoTick? {
      WakeKeeps(s);
      PickFindsHighest(Wake(s), From(s));
    }
  }

  lemma {:induction false} FinishedRun(s: Sched, steps: seq<Step>, i: nat)
    requires Inv(s) && IsRun(s, steps) && i < |s.state| && s.state[i].Finished? && s.current != i
    ensures RunFrom(s, steps).state[i].Finished? && RunFrom(s, steps).current != i
    decreases |steps|
  {
    if steps != [] {
      StepKeeps(s, steps[0]);
      FinishedStep(s, steps[0], i);
      FinishedRun(Apply(s, steps[0]), steps[1..], i);
    }
  }

  /** A task whose function has returned is never ready, running or current again, whatever happens after. */
  lemma FinishedForGood(s: Sched, i: nat, steps: seq<Step>)
    requires Inv(s) && s.current == i && IsRun(Apply(s, DoFinish), steps)
    ensures var e := RunFrom(Apply(s, DoFinish), steps);
            e.current != i && e.state[i] != Ready && e.state[i] != Running
  {
    StepKeeps(s, DoFinish);
    FinishedRun(Apply(s, DoFinish), steps, i);
  }

  function FinishesIn(steps: seq<Step>): nat {
    if steps == [] then 0 else (if steps[0].DoFinish? then 1 else 0) + FinishesIn(steps[1..])
  }

  /** The count of tasks still to finish falls by one with each completion and with nothing else, and the clock advances
      by one with each tick and with nothing else. */
  lemma {:induction false} RunningCounts(s: Sched, steps: seq<Step>)
    requires Shaped(s) && IsRun(s, steps)
    ensures RunFrom(s, steps).running == s.running - FinishesIn(steps)
    ensures RunFrom(s, steps).ticks == s.ticks + TicksIn(steps)
    decreases |steps|
  {
    if steps != [] {
      RunningCounts(Apply(s, steps[0]), steps[1..]);
    }
  }

  /** A step changes only the states it is about: a sleep or a completion the current task's alone, a tick only to wake
      a blocked task whose deadline has come, to take the processor from the current task and to give it to another. */
  lemma StepTouches(s: Sched, step: Step, i: nat)
    requires Inv(s) && Enabled(s, step) && i < |s.state|
    ensures var s' := Apply(s, step);
            && s'.prio == s.prio
            && (!step.DoTick? && i != s.current ==> s'.state[i] == s.state[i] && s'.wake[i] == s.wake[i])
            && (step.DoTick? && s.state[i] == Ready ==> s'.state[i] == Ready || (s'.state[i] == Running && s'.current == i))
            && (step.DoTick? && s.state[i] == Running ==>
                  s'.state[i] == if s'.current == i then Running else Ready)
            && (step.DoTick? && s.state[i] == Blocked ==>
                  if s.wake[i] != 0 && s.wake[i] <= s.ticks + 1 then
                    s'.wake[i] == 0 && s'.state[i] == if s'.current == i then Running else Ready
                  else s'.state[i] == Blocked && s'.wake[i] == s.wake[i])
  {
    if step.DoTick? {
      WakeKeeps(s);
      PickFindsHighest(Wake(s), From(s));
    }
  }

  /** After the first dispatch every task is ready or running, none has a deadline, and a task of the highest priority
      has the processor if that is not negative. */
  lemma BootIs(prio: seq<int>, running: int)
    requires |prio| >= 1
    ensures var s := Boot(prio, running);
            && s.prio == prio && s.running == running && s.ticks == 0 && |s.state| == |s.wake| == |prio|
            && (forall i :: 0 <= i < |prio| ==> s.wake[i] == 0 && s.state[i] == if s.current == i then Running else Ready)
            && if forall i :: 0 <= i < |prio| ==> prio[i] < 0 then s.current == -1
               else s.current >= 0 && forall i :: 0 <= i < |prio| ==> prio[i] <= prio[s.current]
  {
    var n := |prio|;
    var r := Sched(seq(n, _ => Ready), prio, seq(n, _ => 0), -1, 0, running);
    HiIsMax(r);
    PickFindsHighest(r, 0);
    forall i | 0 <= i < n
      ensures Runnable(r, i)
    {
    }
  }

  // ---- the code ----

  /** With a task ready that may run, the first pick finds one. */
  lemma FirstIsFound(s: Sched)
    requires Shaped(s) && exists i :: 0 <= i < |s.state| && s.state[i].Ready? && s.prio[i] >= 0
    ensures Pick(s, 0) >= 0
  {
    HiIsMax(s);
    PickFindsHighest(s, 0);
    var i :| 0 <= i < |s.state| && s.state[i].Ready? && s.prio[i] >= 0;
    assert Runnable(s, i);
  }

  class Kernel {
    const state: array<TaskState>
    const prio: array<int>
    const wake: array<nat>
    var current: int
    var ticks: nat
    var running: int

    function View(): Sched
      reads this, state, prio, wake
    {
      Sched(state[..], prio[..], wake[..], current, ticks, running)
    }

    ghost predicate Valid()
      reads this, state, prio, wake
    {
      && state.Length == prio.Length == wake.Length >= 1
      && prio as object != wake
      && -1 <= current < state.Length
    }

    method Highest() returns (b: int)
      requires Valid()
      ensures b == Hi(View())
    {
      b := -1;
      var i := 0;
      while i < state.Length
        invariant i <= state.Length
        invariant HiFrom(View(), i, b) == Hi(View())
      {
        var s := state[i];
        if (s == Ready || s == Running) && prio[i] > b {
          b := prio[i];
        }
        i := i + 1;
      }
    }

    method PickNext(from: nat) returns (r: int)
      requires Valid() && from < state.Length
      ensures r == Pick(View(), from)
    {
      var l := Highest();
      if l < 0 {
        return -1;
      }
      var k := 1;
      while k <= state.Length
        invariant 1 <= k <= state.Length + 1
        invariant Scan(View(), from, l, k) == Scan(View(), from, l, 1)
      {
        CyclicIsMod(from, k, state.Length);
        var i := (from + k) % state.Length;
        if prio[i] == l && (state[i] == Ready || state[i] == Running) {
          return i;
        }
        k := k + 1;
      }
      if prio[from] == l && (state[from] == Ready || state[from] == Running) {
        return from;
      }
      r := -1;
    }

    /** The wake-up loop of sched_thread. */
    method WakeDue()
      requires Valid()
      modifies this`ticks, state, wake
      ensures Valid() && View() == Wake(old(View()))
      ensures ticks == old(ticks) + 1
      ensures forall j :: 0 <= j < state.Length ==>
                if old(state[j]) == Blocked && old(wake[j]) != 0 && old(wake[j]) <= ticks then state[j] == Ready && wake[j] == 0
                else state[j] == old(state[j]) && wake[j] == old(wake[j])
    {
      var now := ticks + 1;
      ghost var s0 := View();
      ticks := now;
      var i := 0;
      while i < state.Length
        invariant i <= state.Length && ticks == now && prio[..] == s0.prio
        invariant forall j :: 0 <= j < i ==> state[j] == Wake(s0).state[j] && wake[j] == Wake(s0).wake[j]
        invariant forall j :: i <= j < state.Length ==> state[j] == s0.state[j] && wake[j] == s0.wake[j]
      {
        var dl := wake[i];
        if dl != 0 && now >= dl && state[i] == Blocked {
          wake[i] := 0;
          state[i] := Ready;
        }
        i := i + 1;
      }
      assert View().state == Wake(s0).state && View().wake == Wake(s0).wake;
    }

    /** One turn of sched_thread. */
    method OnTick()
      requires Valid()
      modifies this`ticks, this`current, state, wake
      ensures Valid() && View() == Tick(old(View()))
    {
      WakeDue();
      ghost var s := View();
      var cur := current;
      var nxt := PickNext(if cur < 0 then 0 else cur);
      if nxt >= 0 && nxt != cur {
        if cur >= 0 && state[cur] == Running {
          state[cur] := Ready;
          current := -1;
        }
        current := nxt;
        state[nxt] := Running;
      }
      assert View() == Dispatch(s);
    }

    /** do_sleep, as one step. */
    method GoToSleep(n: nat)
      requires Valid() && current >= 0
      modifies this`current, state, wake
      ensures Valid() && View() == Sleep(old(View()), n)
      ensures state[..] == old(state[..])[old(current) := Blocked] && wake[..] == old(wake[..])[old(current) := ticks + n]
      ensures current == -1
    {
      wake[current] := ticks + n;
      state[current] := Blocked;
      current := -1;
    }

    /** The end of a task, as one step. */
    method Exit()
      requires Valid() && current >= 0
      modifies this`current, this`running, state
      ensures Valid() && View() == Finish(old(View()))
      ensures state[..] == old(state[..])[old(current) := Finished] && running == old(running) - 1 && current == -1
    {
      state[current] := Finished;
      running := running - 1;
      current := -1;
    }

    /** main up to the first dispatch. With every priority negative the source indexes out of bounds. */
    constructor Start(prio: array<int>, running: int)
      requires prio.Length >= 1 && exists i :: 0 <= i < prio.Length && prio[i] >= 0
      ensures Valid() && View() == Boot(prio[..], running) && current >= 0
    {
      this.prio, this.running, ticks, current := prio, running, 0, -1;
      state := new TaskState[prio.Length](_ => Ready);
      wake := new nat[prio.Length](_ => 0);
      new;
      assert state[..] == seq(prio.Length, _ => Ready) && wake[..] == seq(prio.Length, _ => 0);
      ghost var s := View();
      FirstIsFound(s);
      var f := PickNext(0);
      current := f;
      state[f] := Running;
      assert View() == Dispatch(s);
    }
  }
}
