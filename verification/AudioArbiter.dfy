/**
  Track arbitration over the block pool (src/audio/audio_arbiter.c).

  A live voice holds one reference on the object it plays. `System` puts the descriptor table, the tracks and the
  references each machine holds side by side; `Accounted` says that every object's count is exactly what is
  outstanding, and the run theorem says every disciplined history keeps it so. The class `Arbiter` is the code.
*/
module AudioArbiter {
  import opened AudioPool

  datatype Kind = Sfx | Music

  datatype Outcome = Done | Rejected | BadObject | BadVoice

  datatype Track = Track(active: bool, played: nat, kind: Kind, ownerVm: nat, generation: nat)

  const IDLE := Track(false, HANDLE_NONE, Sfx, 0, 0)
  const VOICE_NONE: nat := 0
  const MAX_TRACKS := 16

  datatype Desk = Desk(tracks: seq<Track>, gens: seq<nat>, activeCount: int)

  // ---- effect of each operation on the tracks and the descriptor table ----

  /** The track a voice handle names, if it is active in that generation. */
  function ResolveVoice(tracks: seq<Track>, v: nat): (r: Option<nat>)
    ensures r.Some? ==> r.value < |tracks| && tracks[r.value].active
  {
    match UnpackHandle(v)
    case None => None
    case Some((track, gen)) =>
      if track < |tracks| && tracks[track].active && tracks[track].generation == gen then Some(track) else None
  }

  /** The lowest idle track from `i` on; |tracks| if all are busy. */
  function LowestIdle(tracks: seq<Track>, i: nat): (r: nat)
    requires i <= |tracks|
    ensures i <= r <= |tracks|
    ensures r < |tracks| ==> !tracks[r].active
    ensures forall j :: i <= j < r ==> tracks[j].active
    decreases |tracks| - i
  {
    if i == |tracks| || !tracks[i].active then i else LowestIdle(tracks, i + 1)
  }

  function Claim(d: Desk, i: nat, played: nat, kind: Kind, vm: nat): Desk
    requires i < |d.tracks| == |d.gens|
  {
    Desk(d.tracks[i := Track(true, played, kind, vm, d.gens[i])], d.gens, d.activeCount + 1)
  }

  function PlayOutcome(d: Desk, t: Table, h: nat, starts: bool): Outcome {
    if Resolve(t.objs, h).None? then BadObject
    else if LowestIdle(d.tracks, 0) == |d.tracks| || !starts then Rejected
    else Done
  }

  function PlayDesk(d: Desk, t: Table, h: nat, kind: Kind, vm: nat, starts: bool): Desk
    requires |d.tracks| == |d.gens|
  {
    if PlayOutcome(d, t, h, starts) == Done then Claim(d, LowestIdle(d.tracks, 0), h, kind, vm) else d
  }

  function PlayTable(d: Desk, t: Table, h: nat, starts: bool): Table {
    if PlayOutcome(d, t, h, starts) == Done then RefHandle(t, h) else t
  }

  function Release(d: Desk, i: nat): Desk
    requires i < |d.tracks| == |d.gens|
  {
    if d.tracks[i].active then
      Desk(d.tracks[i := IDLE], d.gens[i := BumpGeneration(d.gens[i])], d.activeCount - 1)
    else d
  }

  /** The table after stop_track: an active voice with an object gives its reference back. */
  function ReleaseTable(d: Desk, t: Table, i: nat): (t': Table)
    requires i < |d.tracks| && |t.objs| == |t.gens|
    ensures |t'.objs| == |t.objs| && |t'.gens| == |t.gens|
  {
    if d.tracks[i].active && d.tracks[i].played != HANDLE_NONE then UnrefHandle(t, d.tracks[i].played) else t
  }

  datatype Both = Both(d: Desk, t: Table)

  predicate Shaped(b: Both) {
    |b.d.tracks| == |b.d.gens| && |b.t.objs| == |b.t.gens|
  }

  function StopTrack(b: Both, i: nat): (b': Both)
    requires Shaped(b) && i < |b.d.tracks|
    ensures Shaped(b') && |b'.d.tracks| == |b.d.tracks| && |b'.t.objs| == |b.t.objs|
  {
    Both(Release(b.d, i), ReleaseTable(b.d, b.t, i))
  }

  /** Which tracks a sweep stops: finished one-shots (`done` is the sink's report), or a machine's voices. */
  datatype Selection = Finished(done: seq<bool>) | OwnedByVm(vm: nat)

  /** Stopping a track, over its fields: an idle one stays as it is; an active one is idle with its generation moved on,
      and the object it played, if its handle is still good, has one reference less or is freed. Nothing else changes. */
  lemma StopFields(b: Both, i: nat)
    requires Shaped(b) && i < |b.d.tracks|
    ensures var k, b' := b.d.tracks[i], StopTrack(b, i);
            && (forall j :: 0 <= j < |b.d.tracks| && j != i ==>
                  b'.d.tracks[j] == b.d.tracks[j] && b'.d.gens[j] == b.d.gens[j])
            && if !k.active then b' == b
               else
                 && !b'.d.tracks[i].active && b'.d.gens[i] == BumpGeneration(b.d.gens[i])
                 && b'.d.activeCount == b.d.activeCount - 1
                 && if k.played == HANDLE_NONE || Resolve(b.t.objs, k.played) == None then b'.t == b.t
                    else
                      var s := Resolve(b.t.objs, k.played).value;
                      && (forall r :: 0 <= r < |b.t.objs| && r != s ==>
                            b'.t.objs[r] == b.t.objs[r] && b'.t.gens[r] == b.t.gens[r])
                      && if b.t.objs[s].refcount <= 1 then
                           !b'.t.objs[s].inUse && b'.t.gens[s] == BumpGeneration(b.t.gens[s])
                         else
                           && b'.t.objs[s] == b.t.objs[s].(refcount := b.t.objs[s].refcount - 1)
                           && b'.t.gens[s] == b.t.gens[s]
  {
    RefFields(b.t, b.d.tracks[i].played);
  }

  predicate Selected(sel: Selection, k: Track, i: nat) {
    && k.active
    && match sel
       case Finished(done) => k.kind == Sfx && i < |done| && done[i]
       case OwnedByVm(vm) => k.ownerVm == vm
  }

  function StopStep(b: Both, sel: Selection, i: nat): (b': Both)
    requires Shaped(b) && i < |b.d.tracks|
    ensures Shaped(b') && |b'.d.tracks| == |b.d.tracks| && |b'.t.objs| == |b.t.objs|
  {
    if Selected(sel, b.d.tracks[i], i) then StopTrack(b, i) else b
  }

  /** Effect of stopping every selected track from `i` on. */
  function StopWhere(b: Both, sel: Selection, i: nat): (b': Both)
    requires Shaped(b) && i <= |b.d.tracks|
    ensures Shaped(b') && |b'.d.tracks| == |b.d.tracks| && |b'.t.objs| == |b.t.objs|
    decreases |b.d.tracks| - i
  {
    if i == |b.d.tracks| then b else StopWhere(StopStep(b, sel, i), sel, i + 1)
  }

  // ---- who holds references ----

  function CountPlaying(tracks: seq<Track>, h: nat): nat {
    if tracks == [] then 0
    else (if tracks[0].active && tracks[0].played == h then 1 else 0) + CountPlaying(tracks[1..], h)
  }

  function CountActive(tracks: seq<Track>): nat {
    if tracks == [] then 0 else (if tracks[0].active then 1 else 0) + CountActive(tracks[1..])
  }

  function Plays(k: Track, h: nat): nat {
    if k.active && k.played == h then 1 else 0
  }

  lemma {:induction false} CountPlayingUpdate(tracks: seq<Track>, i: nat, k: Track, h: nat)
    requires i < |tracks|
    ensures CountPlaying(tracks[i := k], h) == CountPlaying(tracks, h) - Plays(tracks[i], h) + Plays(k, h)
  {
    if i == 0 {
      assert tracks[i := k][1..] == tracks[1..];
    } else {
      assert tracks[i := k][1..] == tracks[1..][i - 1 := k];
      CountPlayingUpdate(tracks[1..], i - 1, k, h);
    }
  }

  lemma {:induction false} CountActiveUpdate(tracks: seq<Track>, i: nat, k: Track)
    requires i < |tracks|
    ensures CountActive(tracks[i := k]) ==
            CountActive(tracks) - (if tracks[i].active then 1 else 0) + (if k.active then 1 else 0)
  {
    if i == 0 {
      assert tracks[i := k][1..] == tracks[1..];
    } else {
      assert tracks[i := k][1..] == tracks[1..][i - 1 := k];
      CountActiveUpdate(tracks[1..], i - 1, k);
    }
  }

  lemma {:induction false} NobodyPlays(tracks: seq<Track>, h: nat)
    ensures CountPlaying(tracks, h) == 0 <==> forall i :: 0 <= i < |tracks| ==> Plays(tracks[i], h) == 0
  {
    if tracks != [] {
      NobodyPlays(tracks[1..], h);
      assert forall i :: 1 <= i < |tracks| ==> tracks[i] == tracks[1..][i - 1];
    }
  }

  /** The pool and the arbiter together with, per slot, the machines that hold references, each as often as it holds
      one. The creator starts with one; a reference has no identity, so its creation reference is the last it drops. */
  datatype System = System(b: Both, holders: seq<multiset<nat>>)

  function HandleOf(t: Table, s: nat): nat
    requires s < |t.gens|
  {
    PackHandle(s, t.gens[s])
  }

  ghost predicate SlotAccounted(sys: System, s: nat)
    requires Shaped(sys.b) && s < |sys.b.t.objs| == |sys.holders|
  {
    var o := sys.b.t.objs[s];
    if o.inUse then
      && o.generation == sys.b.t.gens[s]
      && o.refcount == |sys.holders[s]| + CountPlaying(sys.b.d.tracks, HandleOf(sys.b.t, s)) >= 1
    else
      sys.holders[s] == multiset{}
  }

  ghost predicate VoiceLive(t: Table, k: Track) {
    k.active && k.played != HANDLE_NONE ==> Resolve(t.objs, k.played).Some?
  }

  /** Every object's count is the machines' references plus the voices playing it, and every voice plays a live object. */
  ghost predicate Accounted(sys: System) {
    && Shaped(sys.b) && |sys.b.t.objs| == |sys.holders| <= 0xFFFF
    && (forall s :: 0 <= s < |sys.holders| ==> SlotAccounted(sys, s))
    && (forall i :: 0 <= i < |sys.b.d.tracks| ==> VoiceLive(sys.b.t, sys.b.d.tracks[i]))
    && sys.b.d.activeCount == CountActive(sys.b.d.tracks)
  }

  // ---- single references ----

  /** Two live handles are equal only if they name the same slot. */
  lemma HandlesDistinct(t: Table, r: nat, s: nat)
    requires r < |t.gens| <= 0xFFFF && s < |t.gens|
    ensures HandleOf(t, r) == HandleOf(t, s) <==> r == s
  {
    var h, k := HandleOf(t, r), HandleOf(t, s);
    assert h % 0x1_0000 == r + 1 && k % 0x1_0000 == s + 1;
  }

  /** A voice on a live object plays exactly the current handle of one live slot. */
  lemma VoiceSlot(sys: System, i: nat) returns (s: nat)
    requires Accounted(sys) && i < |sys.b.d.tracks|
    requires sys.b.d.tracks[i].active && sys.b.d.tracks[i].played != HANDLE_NONE
    ensures s < |sys.holders| && sys.b.t.objs[s].inUse
    ensures Resolve(sys.b.t.objs, sys.b.d.tracks[i].played) == Some(s)
    ensures sys.b.d.tracks[i].played == HandleOf(sys.b.t, s)
  {
    assert VoiceLive(sys.b.t, sys.b.d.tracks[i]);
    s := Resolve(sys.b.t.objs, sys.b.d.tracks[i].played).value;
    ResolvedHandleIsPacked(sys.b.t.objs, sys.b.d.tracks[i].played);
    assert SlotAccounted(sys, s);
  }

  /** `sys'` has one reference less on slot `s`, a machine's or a voice's, and the count follows. */
  ghost predicate OneLess(sys: System, sys': System, s: nat)
    requires Accounted(sys)
  {
    && Shaped(sys'.b) && |sys'.holders| == |sys.holders| && s < |sys.holders| && sys.b.t.objs[s].inUse
    && |sys'.b.d.tracks| == |sys.b.d.tracks|
    && sys'.b.t == DropRef(sys.b.t, s)
    && (forall r :: 0 <= r < |sys.holders| ==>
          |sys'.holders[r]| + CountPlaying(sys'.b.d.tracks, HandleOf(sys.b.t, r)) ==
          |sys.holders[r]| + CountPlaying(sys.b.d.tracks, HandleOf(sys.b.t, r)) - (if r == s then 1 else 0))
    && (forall r :: 0 <= r < |sys.holders| && r != s ==> sys'.holders[r] == sys.holders[r])
    && (forall i :: 0 <= i < |sys'.b.d.tracks| ==> sys'.b.d.tracks[i] == sys.b.d.tracks[i] || !sys'.b.d.tracks[i].active)
    && sys'.b.d.activeCount == CountActive(sys'.b.d.tracks)
  }

  lemma OneLessSlot(sys: System, sys': System, s: nat, r: nat)
    requires Accounted(sys) && OneLess(sys, sys', s) && r < |sys.holders|
    ensures SlotAccounted(sys', r)
  {
    assert SlotAccounted(sys, r) && SlotAccounted(sys, s);
  }

  lemma OneLessVoice(sys: System, sys': System, s: nat, i: nat)
    requires Accounted(sys) && OneLess(sys, sys', s) && i < |sys'.b.d.tracks|
    ensures VoiceLive(sys'.b.t, sys'.b.d.tracks[i])
  {
    var k := sys'.b.d.tracks[i];
    if k.active && k.played != HANDLE_NONE {
      var r := VoiceSlot(sys, i);
      assert SlotAccounted(sys, s);
      if r == s {
        NobodyPlays(sys'.b.d.tracks, k.played);
        assert Plays(k, k.played) == 1;
      }
    }
  }

  lemma OneLessKeeps(sys: System, sys': System, s: nat)
    requires Accounted(sys) && OneLess(sys, sys', s)
    ensures Accounted(sys')
  {
    forall r | 0 <= r < |sys'.holders|
      ensures SlotAccounted(sys', r)
    {
      OneLessSlot(sys, sys', s, r);
    }
    forall i | 0 <= i < |sys'.b.d.tracks|
      ensures VoiceLive(sys'.b.t, sys'.b.d.tracks[i])
    {
      OneLessVoice(sys, sys', s, i);
    }
  }

  lemma StopTrackKeeps(sys: System, i: nat)
    requires Accounted(sys) && i < |sys.b.d.tracks|
    ensures Accounted(System(StopTrack(sys.b, i), sys.holders))
  {
    var k, sys' := sys.b.d.tracks[i], System(StopTrack(sys.b, i), sys.holders);
    if k.active {
      CountActiveUpdate(sys.b.d.tracks, i, IDLE);
      forall h {
        CountPlayingUpdate(sys.b.d.tracks, i, IDLE, h);
      }
      if k.played != HANDLE_NONE {
        var s := VoiceSlot(sys, i);
        forall r | 0 <= r < |sys.holders|
          ensures HandleOf(sys.b.t, r) == k.played <==> r == s
        {
          HandlesDistinct(sys.b.t, r, s);
        }
        OneLessKeeps(sys, sys', s);
      } else {
        ExternalStopKeeps(sys, sys', i);
      }
    }
  }

  lemma ExternalStopKeeps(sys: System, sys': System, i: nat)
    requires Accounted(sys) && i < |sys.b.d.tracks| && sys.b.d.tracks[i].played == HANDLE_NONE
    requires sys.b.d.tracks[i].active && sys' == System(StopTrack(sys.b, i), sys.holders)
    ensures Accounted(sys')
  {
    CountActiveUpdate(sys.b.d.tracks, i, IDLE);
    forall s | 0 <= s < |sys'.holders|
      ensures SlotAccounted(sys', s)
    {
      assert SlotAccounted(sys, s);
      CountPlayingUpdate(sys.b.d.tracks, i, IDLE, HandleOf(sys.b.t, s));
    }
    forall j | 0 <= j < |sys'.b.d.tracks|
      ensures VoiceLive(sys'.b.t, sys'.b.d.tracks[j])
    {
      assert VoiceLive(sys.b.t, sys.b.d.tracks[j]);
    }
  }

  lemma {:induction false} StopWhereKeeps(sys: System, sel: Selection, i: nat)
    requires Accounted(sys) && i <= |sys.b.d.tracks|
    ensures Accounted(System(StopWhere(sys.b, sel, i), sys.holders))
    decreases |sys.b.d.tracks| - i
  {
    if i < |sys.b.d.tracks| {
      if Selected(sel, sys.b.d.tracks[i], i) {
        StopTrackKeeps(sys, i);
      }
      StopWhereKeeps(System(StopStep(sys.b, sel, i), sys.holders), sel, i + 1);
    }
  }

  /** A machine drops a reference it holds. */
  lemma DropHeldKeeps(sys: System, s: nat, vm: nat)
    requires Accounted(sys) && s < |sys.holders| && sys.b.t.objs[s].inUse && vm in sys.holders[s]
    ensures Accounted(System(Both(sys.b.d, DropRef(sys.b.t, s)), sys.holders[s := sys.holders[s] - multiset{vm}]))
  {
    OneLessKeeps(sys, System(Both(sys.b.d, DropRef(sys.b.t, s)), sys.holders[s := sys.holders[s] - multiset{vm}]), s);
  }

  /** A machine takes a reference on a live object. */
  lemma AddHeldKeeps(sys: System, s: nat, vm: nat)
    requires Accounted(sys) && s < |sys.holders| && sys.b.t.objs[s].inUse
    ensures Accounted(System(Both(sys.b.d, AddRef(sys.b.t, s)), sys.holders[s := sys.holders[s] + multiset{vm}]))
  {
    var sys' := System(Both(sys.b.d, AddRef(sys.b.t, s)), sys.holders[s := sys.holders[s] + multiset{vm}]);
    forall r | 0 <= r < |sys'.holders|
      ensures SlotAccounted(sys', r)
    {
      assert SlotAccounted(sys, r);
    }
    forall i | 0 <= i < |sys'.b.d.tracks|
      ensures VoiceLive(sys'.b.t, sys'.b.d.tracks[i])
    {
      assert VoiceLive(sys.b.t, sys.b.d.tracks[i]);
    }
  }

  /** An idle track becomes a voice on a live object, which gains a reference. */
  lemma ClaimKeeps(sys: System, i: nat, h: nat, kind: Kind, vm: nat)
    requires Accounted(sys) && i < |sys.b.d.tracks| && !sys.b.d.tracks[i].active
    requires h == HANDLE_NONE || Resolve(sys.b.t.objs, h).Some?
    ensures Accounted(System(Both(Claim(sys.b.d, i, h, kind, vm), RefHandle(sys.b.t, h)), sys.holders))
  {
    var sys' := System(Both(Claim(sys.b.d, i, h, kind, vm), RefHandle(sys.b.t, h)), sys.holders);
    CountActiveUpdate(sys.b.d.tracks, i, sys'.b.d.tracks[i]);
    forall s | 0 <= s < |sys'.holders|
      ensures SlotAccounted(sys', s)
    {
      ClaimSlot(sys, sys', i, h, s);
    }
    forall j | 0 <= j < |sys'.b.d.tracks|
      ensures VoiceLive(sys'.b.t, sys'.b.d.tracks[j])
    {
      assert VoiceLive(sys.b.t, sys.b.d.tracks[j]);
    }
  }

  lemma ClaimSlot(sys: System, sys': System, i: nat, h: nat, s: nat)
    requires Accounted(sys) && i < |sys.b.d.tracks| && !sys.b.d.tracks[i].active
    requires h == HANDLE_NONE || Resolve(sys.b.t.objs, h).Some?
    requires exists kind, vm ::
               sys' == System(Both(Claim(sys.b.d, i, h, kind, vm), RefHandle(sys.b.t, h)), sys.holders)
    requires s < |sys.holders|
    ensures SlotAccounted(sys', s)
  {
    assert SlotAccounted(sys, s);
    CountPlayingUpdate(sys.b.d.tracks, i, sys'.b.d.tracks[i], HandleOf(sys.b.t, s));
    if h != HANDLE_NONE {
      var r := Resolve(sys.b.t.objs, h).value;
      assert SlotAccounted(sys, r);
      ResolvedHandleIsPacked(sys.b.t.objs, h);
      HandlesDistinct(sys.b.t, s, r);
    }
  }

  /** A fresh object appears in a slot that was not in use: the creator's reference, no voices. */
  lemma AllocKeeps(sys: System, s: nat, o: Object, vm: nat)
    requires Accounted(sys) && s < |sys.holders| && !sys.b.t.objs[s].inUse
    requires o.inUse && o.refcount == 1 && o.generation == sys.b.t.gens[s]
    ensures Accounted(System(Both(sys.b.d, sys.b.t.(objs := sys.b.t.objs[s := o])), sys.holders[s := multiset{vm}]))
  {
    var sys' := System(Both(sys.b.d, sys.b.t.(objs := sys.b.t.objs[s := o])), sys.holders[s := multiset{vm}]);
    forall i | 0 <= i < |sys.b.d.tracks|
      ensures VoiceLive(sys'.b.t, sys.b.d.tracks[i]) && Plays(sys.b.d.tracks[i], HandleOf(sys.b.t, s)) == 0
    {
      assert VoiceLive(sys.b.t, sys.b.d.tracks[i]);
      PackedHandleResolves(sys.b.t.objs, s, sys.b.t.gens[s]);
    }
    NobodyPlays(sys.b.d.tracks, HandleOf(sys.b.t, s));
    forall r | 0 <= r < |sys'.holders|
      ensures SlotAccounted(sys', r)
    {
      assert SlotAccounted(sys, r);
    }
  }

  // ---- the pool's sweep of a dying machine ----

  /** The references left once the machine has lost one on each object it created: its own, if it has any there. */
  function SweptHolders(t: Table, holders: seq<multiset<nat>>, vm: nat): (hs: seq<multiset<nat>>)
    requires |holders| == |t.objs|
    ensures |hs| == |holders|
  {
    seq(|holders|, s requires 0 <= s < |holders| =>
      if OwnedBy(t, s, vm) then holders[s] - multiset{vm} else holders[s])
  }

  function SweepSystem(sys: System, vm: nat): System
    requires Shaped(sys.b) && |sys.holders| == |sys.b.t.objs|
  {
    System(Both(sys.b.d, Sweep(sys.b.t, vm, 0)), SweptHolders(sys.b.t, sys.holders, vm))
  }

  /** The machine still has a reference of its own, the creation reference, on every live object it created. */
  ghost predicate CreationRefsHeld(sys: System, vm: nat)
    requires |sys.holders| == |sys.b.t.objs|
  {
    forall s :: 0 <= s < |sys.holders| ==> HasCreationRef(sys, vm, s)
  }

  predicate HasCreationRef(sys: System, vm: nat, s: nat)
    requires s < |sys.holders| == |sys.b.t.objs|
  {
    OwnedBy(sys.b.t, s, vm) ==> vm in sys.holders[s]
  }

  /** The references on slot s that are not the machine's: other machines' and voices'. */
  function Owed(sys: System, vm: nat, s: nat): nat
    requires Shaped(sys.b) && s < |sys.holders| == |sys.b.t.objs|
  {
    var others := sys.holders[s][vm := 0];
    |others| + CountPlaying(sys.b.d.tracks, HandleOf(sys.b.t, s))
  }

  /** The table `t` still covers what was owed to others on slot s: its count suffices, or the object was freed and
      nobody else had a reference. */
  ghost predicate Spared(sys: System, t: Table, vm: nat, s: nat)
    requires Shaped(sys.b) && s < |sys.holders| == |sys.b.t.objs| == |t.objs|
  {
    sys.b.t.objs[s].inUse ==> if t.objs[s].inUse then t.objs[s].refcount >= Owed(sys, vm, s) else Owed(sys, vm, s) == 0
  }

  lemma SweptSlot(sys: System, vm: nat, s: nat)
    requires Accounted(sys) && s < |sys.holders|
    requires HasCreationRef(sys, vm, s)
    ensures SlotAccounted(SweepSystem(sys, vm), s)
  {
    assert SlotAccounted(sys, s);
    SweepSlot(sys.b.t, vm, 0, s);
  }

  lemma SweptVoice(sys: System, vm: nat, i: nat, s: nat)
    requires Accounted(sys) && i < |sys.b.d.tracks| && s < |sys.holders|
    requires sys.b.d.tracks[i].active && sys.b.d.tracks[i].played == HandleOf(sys.b.t, s)
    ensures VoiceLive(Sweep(sys.b.t, vm, 0), sys.b.d.tracks[i]) <==>
            !(OwnedBy(sys.b.t, s, vm) && sys.b.t.objs[s].refcount == 1)
  {
    PackedHandleResolves(sys.b.t.objs, s, sys.b.t.gens[s]);
    PackedHandleResolves(Sweep(sys.b.t, vm, 0).objs, s, sys.b.t.gens[s]);
    var r := VoiceSlot(sys, i);
    assert SlotAccounted(sys, s);
    SweepSlot(sys.b.t, vm, 0, s);
  }

  ghost predicate OthersSpared(sys: System, t: Table, vm: nat)
    requires Shaped(sys.b) && |sys.holders| == |sys.b.t.objs| == |t.objs|
  {
    forall s :: 0 <= s < |sys.holders| ==> Spared(sys, t, vm, s)
  }

  lemma OwedIs(sys: System, vm: nat, s: nat)
    requires Accounted(sys) && s < |sys.holders| && sys.b.t.objs[s].inUse
    ensures sys.b.t.objs[s].refcount == Owed(sys, vm, s) + sys.holders[s][vm]
  {
    assert SlotAccounted(sys, s);
    assert sys.holders[s] == sys.holders[s][vm := 0][vm := sys.holders[s][vm]];
  }

  lemma SparedIff(sys: System, vm: nat, s: nat)
    requires Accounted(sys) && s < |sys.holders|
    ensures Spared(sys, Sweep(sys.b.t, vm, 0), vm, s) <==> HasCreationRef(sys, vm, s)
  {
    SweepSlot(sys.b.t, vm, 0, s);
    if sys.b.t.objs[s].inUse {
      assert SlotAccounted(sys, s);
      OwedIs(sys, vm, s);
    }
  }

  /** The sweep of a dying machine takes no other machine's and no voice's reference, on any object, exactly if the
      machine still has its creation reference on every live object it created. */
  lemma SweepSparesOthersIff(sys: System, vm: nat)
    requires Accounted(sys)
    ensures OthersSpared(sys, Sweep(sys.b.t, vm, 0), vm) <==> CreationRefsHeld(sys, vm)
  {
    var t := Sweep(sys.b.t, vm, 0);
    forall s | 0 <= s < |sys.holders|
      ensures Spared(sys, t, vm, s) <==> HasCreationRef(sys, vm, s)
    {
      SparedIff(sys, vm, s);
    }
  }

  /** It frees an object that another machine holds exactly if it is an object of the dying machine, which has dropped
      its own reference, and the other machine's is the only one left. */
  lemma SweepFreesHeldIff(sys: System, vm: nat, m: nat, s: nat)
    requires Accounted(sys) && s < |sys.holders| && m != vm && m in sys.holders[s]
    ensures sys.b.t.objs[s].inUse
    ensures !Sweep(sys.b.t, vm, 0).objs[s].inUse <==>
            && OwnedBy(sys.b.t, s, vm) && sys.holders[s] == multiset{m}
            && CountPlaying(sys.b.d.tracks, HandleOf(sys.b.t, s)) == 0
  {
    assert SlotAccounted(sys, s);
    SweepSlot(sys.b.t, vm, 0, s);
    var rest := sys.holders[s] - multiset{m};
    assert sys.holders[s] == rest + multiset{m};
  }

  /** The table `t` holds no reference of the machine's on slot s any more: if the object lives on, its count is no
      more than what is owed to others. */
  ghost predicate NoneLeft(sys: System, t: Table, vm: nat, s: nat)
    requires Shaped(sys.b) && s < |sys.holders| == |sys.b.t.objs| == |t.objs|
  {
    sys.b.t.objs[s].inUse && t.objs[s].inUse ==> t.objs[s].refcount <= Owed(sys, vm, s)
  }

  /** How many references the sweep takes from slot s. */
  function Taken(sys: System, vm: nat, s: nat): nat
    requires s < |sys.b.t.objs|
  {
    if OwnedBy(sys.b.t, s, vm) then 1 else 0
  }

  lemma NoneLeftIff(sys: System, vm: nat, s: nat)
    requires Accounted(sys) && s < |sys.holders|
    ensures NoneLeft(sys, Sweep(sys.b.t, vm, 0), vm, s) <==> sys.holders[s][vm] <= Taken(sys, vm, s)
  {
    SweepSlot(sys.b.t, vm, 0, s);
    assert SlotAccounted(sys, s);
    if sys.b.t.objs[s].inUse {
      OwedIs(sys, vm, s);
    }
  }

  /** "Drop all references held by a dying VM": no count the sweep leaves still contains a reference of the machine's
      exactly if the machine held at most one on each object it created and none on any other. */
  lemma SweepDropsAllIff(sys: System, vm: nat)
    requires Accounted(sys)
    ensures (forall s :: 0 <= s < |sys.holders| ==> NoneLeft(sys, Sweep(sys.b.t, vm, 0), vm, s)) <==>
            forall s :: 0 <= s < |sys.holders| ==> sys.holders[s][vm] <= Taken(sys, vm, s)
  {
    var t := Sweep(sys.b.t, vm, 0);
    forall s | 0 <= s < |sys.holders|
      ensures NoneLeft(sys, t, vm, s) <==> sys.holders[s][vm] <= Taken(sys, vm, s)
    {
      NoneLeftIff(sys, vm, s);
    }
  }

  /** What the pool promises of a sweep, both halves: each live object's count becomes exactly what is owed to others,
      and the object is freed only if that is nothing. */
  ghost predicate LeavesExactly(sys: System, t: Table, vm: nat, s: nat)
    requires Shaped(sys.b) && s < |sys.holders| == |sys.b.t.objs| == |t.objs|
  {
    sys.b.t.objs[s].inUse ==> if t.objs[s].inUse then t.objs[s].refcount == Owed(sys, vm, s) else Owed(sys, vm, s) == 0
  }

  /** It holds exactly if the machine held just its creation references: one on each live object it created and none on
      any other. */
  lemma SweepIsExactIff(sys: System, vm: nat)
    requires Accounted(sys)
    ensures (forall s :: 0 <= s < |sys.holders| ==> LeavesExactly(sys, Sweep(sys.b.t, vm, 0), vm, s)) <==>
            forall s :: 0 <= s < |sys.holders| ==> sys.holders[s][vm] == Taken(sys, vm, s)
  {
    var t := Sweep(sys.b.t, vm, 0);
    forall s | 0 <= s < |sys.holders|
      ensures LeavesExactly(sys, t, vm, s) <==> sys.holders[s][vm] == Taken(sys, vm, s)
    {
      NoneLeftIff(sys, vm, s);
      SparedIff(sys, vm, s);
      assert SlotAccounted(sys, s);
    }
  }

  /** The sweep keeps the books exactly under the same condition. */
  lemma SweepKeepsBooksIff(sys: System, vm: nat)
    requires Accounted(sys)
    ensures Accounted(SweepSystem(sys, vm)) <==> CreationRefsHeld(sys, vm)
  {
    if CreationRefsHeld(sys, vm) {
      SweepKeepsBooks(sys, vm);
    } else {
      var s :| 0 <= s < |sys.holders| && !HasCreationRef(sys, vm, s);
      SweepBreaksBooks(sys, vm, s);
    }
  }

  lemma SweepKeepsBooks(sys: System, vm: nat)
    requires Accounted(sys) && CreationRefsHeld(sys, vm)
    ensures Accounted(SweepSystem(sys, vm))
  {
    forall s | 0 <= s < |sys.holders|
      ensures SlotAccounted(SweepSystem(sys, vm), s)
    {
      SweptSlot(sys, vm, s);
    }
    forall i | 0 <= i < |sys.b.d.tracks|
      ensures VoiceLive(Sweep(sys.b.t, vm, 0), sys.b.d.tracks[i])
    {
      var k := sys.b.d.tracks[i];
      if k.active && k.played != HANDLE_NONE {
        var s := VoiceSlot(sys, i);
        SweptVoice(sys, vm, i, s);
        assert SlotAccounted(sys, s) && HasCreationRef(sys, vm, s);
        NobodyPlays(sys.b.d.tracks, k.played);
        assert Plays(k, k.played) == 1;
      }
    }
  }

  lemma SweepBreaksBooks(sys: System, vm: nat, s: nat)
    requires Accounted(sys) && s < |sys.holders| && OwnedBy(sys.b.t, s, vm) && vm !in sys.holders[s]
    ensures !Accounted(SweepSystem(sys, vm))
  {
    var h := HandleOf(sys.b.t, s);
    assert SlotAccounted(sys, s);
    SweepSlot(sys.b.t, vm, 0, s);
    assert SweepSystem(sys, vm).holders[s] == sys.holders[s];
    if sys.b.t.objs[s].refcount == 1 && sys.holders[s] == multiset{} {
      NobodyPlays(sys.b.d.tracks, h);
      var i :| 0 <= i < |sys.b.d.tracks| && Plays(sys.b.d.tracks[i], h) != 0;
      SweptVoice(sys, vm, i, s);
      PackedHandleResolves(sys.b.t.objs, s, sys.b.t.gens[s]);
    } else {
      assert !SlotAccounted(SweepSystem(sys, vm), s);
    }
  }

  /** The sweep frees an object under a playing voice exactly when that voice's reference is the only one left. */
  lemma SweepCutsVoiceIff(sys: System, vm: nat, i: nat, s: nat)
    requires Accounted(sys) && i < |sys.b.d.tracks| && s < |sys.holders|
    requires sys.b.d.tracks[i].active && sys.b.d.tracks[i].played == HandleOf(sys.b.t, s)
    ensures !VoiceLive(Sweep(sys.b.t, vm, 0), sys.b.d.tracks[i]) <==>
            OwnedBy(sys.b.t, s, vm) && sys.holders[s] == multiset{} && CountPlaying(sys.b.d.tracks, HandleOf(sys.b.t, s)) == 1
  {
    SweptVoice(sys, vm, i, s);
    PackedHandleResolves(sys.b.t.objs, s, sys.b.t.gens[s]);
    var r := VoiceSlot(sys, i);
    assert SlotAccounted(sys, s);
    NobodyPlays(sys.b.d.tracks, HandleOf(sys.b.t, s));
    assert Plays(sys.b.d.tracks[i], HandleOf(sys.b.t, s)) == 1;
  }

  // ---- whole runs ----

  /** One request to the audio service. `fits`, `starts` and `done` are what the pool's free space and the playback
      sink answer; `size` to `nblocks` are the new object's fields. */
  datatype Op =
    | Create(size: nat, head: nat, nblocks: nat, vm: nat, fits: bool)
    | Hold(h: nat, vm: nat)
    | Drop(h: nat, vm: nat)
    | Play(h: nat, kind: Kind, vm: nat, starts: bool)
    | PlayExternal(vm: nat, starts: bool)
    | Stop(v: nat)
    | Reap(done: seq<bool>)
    | SweepVoices(vm: nat)
    | SweepPool(vm: nat)

  function Apply(sys: System, op: Op): (sys': System)
    requires Shaped(sys.b) && |sys.holders| == |sys.b.t.objs|
    ensures Shaped(sys'.b) && |sys'.holders| == |sys'.b.t.objs| == |sys.holders|
    ensures |sys'.b.d.tracks| == |sys.b.d.tracks|
  {
    var d, t := sys.b.d, sys.b.t;
    match op
    case Create(size, head, nblocks, vm, fits) =>
      var s := LowestFree(t.objs, 0);
      if !fits || s == NO_BLOCK then sys
      else
        var o := Object(head, size, nblocks, 1, t.gens[s], vm, true, 0);
        System(Both(d, t.(objs := t.objs[s := o])), sys.holders[s := multiset{vm}])
    case Hold(h, vm) =>
      (match Resolve(t.objs, h)
       case None => sys
       case Some(s) => System(Both(d, AddRef(t, s)), sys.holders[s := sys.holders[s] + multiset{vm}]))
    case Drop(h, vm) =>
      (match Resolve(t.objs, h)
       case None => sys
       case Some(s) => System(Both(d, DropRef(t, s)), sys.holders[s := sys.holders[s] - multiset{vm}]))
    case Play(h, kind, vm, starts) =>
      System(Both(PlayDesk(d, t, h, kind, vm, starts), PlayTable(d, t, h, starts)), sys.holders)
    case PlayExternal(vm, starts) =>
      var i := LowestIdle(d.tracks, 0);
      if i == |d.tracks| || !starts then sys
      else System(Both(Claim(d, i, HANDLE_NONE, Music, vm), t), sys.holders)
    case Stop(v) =>
      (match ResolveVoice(d.tracks, v)
       case None => sys
       case Some(i) => System(StopTrack(sys.b, i), sys.holders))
    case Reap(done) => System(StopWhere(sys.b, Finished(done), 0), sys.holders)
    case SweepVoices(vm) => System(StopWhere(sys.b, OwnedByVm(vm), 0), sys.holders)
    case SweepPool(vm) => SweepSystem(sys, vm)
  }

  /** A machine drops only references it holds itself, and when it dies it still has its creation references. */
  ghost predicate Disciplined(sys: System, op: Op)
    requires |sys.holders| == |sys.b.t.objs|
  {
    match op
    case Drop(h, vm) => var r := Resolve(sys.b.t.objs, h); r.Some? ==> vm in sys.holders[r.value]
    case SweepPool(vm) => CreationRefsHeld(sys, vm)
    case _ => true
  }

  lemma StepKeepsBooks(sys: System, op: Op)
    requires Accounted(sys) && Disciplined(sys, op)
    ensures Accounted(Apply(sys, op))
  {
    var d, t := sys.b.d, sys.b.t;
    match op {
      case Create(size, head, nblocks, vm, fits) =>
        var s := LowestFree(t.objs, 0);
        if fits && s != NO_BLOCK {
          LowestFreeSlotIsFree(t.objs, 0);
          AllocKeeps(sys, s, Object(head, size, nblocks, 1, t.gens[s], vm, true, 0), vm);
        }
      case Hold(h, vm) =>
        if Resolve(t.objs, h).Some? {
          AddHeldKeeps(sys, Resolve(t.objs, h).value, vm);
        }
      case Drop(h, vm) =>
        if Resolve(t.objs, h).Some? {
          DropHeldKeeps(sys, Resolve(t.objs, h).value, vm);
        }
      case Play(h, kind, vm, starts) =>
        if PlayOutcome(d, t, h, starts) == Done {
          ClaimKeeps(sys, LowestIdle(d.tracks, 0), h, kind, vm);
        }
      case PlayExternal(vm, starts) =>
        if LowestIdle(d.tracks, 0) < |d.tracks| && starts {
          ClaimKeeps(sys, LowestIdle(d.tracks, 0), HANDLE_NONE, Music, vm);
        }
      case Stop(v) =>
        if ResolveVoice(d.tracks, v).Some? {
          StopTrackKeeps(sys, ResolveVoice(d.tracks, v).value);
        }
      case Reap(done) => StopWhereKeeps(sys, Finished(done), 0);
      case SweepVoices(vm) => StopWhereKeeps(sys, OwnedByVm(vm), 0);
      case SweepPool(vm) => SweepKeepsBooks(sys, vm);
    }
  }

  /** Whether machine `vm` itself makes the request. */
  predicate MadeBy(op: Op, vm: nat) {
    match op
    case Create(_, _, _, who, _) => who == vm
    case Hold(_, who) => who == vm
    case Drop(_, who) => who == vm
    case SweepPool(who) => who == vm
    case _ => false
  }

  /** Nobody else's request changes what a machine is recorded to hold. */
  lemma OnlyOwnRequestsCount(sys: System, op: Op, vm: nat, s: nat)
    requires Accounted(sys) && s < |sys.holders| && !MadeBy(op, vm)
    ensures Apply(sys, op).holders[s][vm] == sys.holders[s][vm]
  {
    if op.Create? {
      LowestFreeSlotIsFree(sys.b.t.objs, 0);
      assert SlotAccounted(sys, s);
    }
  }

  lemma {:induction false} LowestFreeSlotIsFree(objs: seq<Object>, s: nat)
    requires s <= |objs|
    ensures LowestFree(objs, s) != NO_BLOCK ==> !objs[LowestFree(objs, s)].inUse
    decreases |objs| - s
  {
    if s < |objs| && objs[s].inUse {
      LowestFreeSlotIsFree(objs, s + 1);
    }
  }

  ghost predicate DisciplinedRun(sys: System, ops: seq<Op>)
    requires Shaped(sys.b) && |sys.holders| == |sys.b.t.objs|
    decreases |ops|
  {
    ops == [] || (Disciplined(sys, ops[0]) && DisciplinedRun(Apply(sys, ops[0]), ops[1..]))
  }

  ghost function Run(sys: System, ops: seq<Op>): (sys': System)
    requires Shaped(sys.b) && |sys.holders| == |sys.b.t.objs|
    ensures Shaped(sys'.b) && |sys'.holders| == |sys'.b.t.objs| == |sys.holders|
    decreases |ops|
  {
    if ops == [] then sys else Run(Apply(sys, ops[0]), ops[1..])
  }

  /** A pool and an arbiter straight from init. */
  ghost predicate Initial(sys: System) {
    && Shaped(sys.b) && |sys.holders| == |sys.b.t.objs| <= 0xFFFF && sys.b.d.activeCount == 0
    && (forall s :: 0 <= s < |sys.holders| ==> !sys.b.t.objs[s].inUse && sys.holders[s] == multiset{})
    && (forall i :: 0 <= i < |sys.b.d.tracks| ==> !sys.b.d.tracks[i].active)
  }

  lemma {:induction false} NoneActive(tracks: seq<Track>)
    requires forall i :: 0 <= i < |tracks| ==> !tracks[i].active
    ensures CountActive(tracks) == 0
  {
    if tracks != [] {
      NoneActive(tracks[1..]);
    }
  }

  lemma {:induction false} RunKeepsBooks(sys: System, ops: seq<Op>)
    requires Accounted(sys) && DisciplinedRun(sys, ops)
    ensures Accounted(Run(sys, ops))
    decreases |ops|
  {
    if ops != [] {
      StepKeepsBooks(sys, ops[0]);
      RunKeepsBooks(Apply(sys, ops[0]), ops[1..]);
    }
  }

  /** Over every disciplined history since init, each object's count is what machines and voices hold, so an object stays
      alive while a machine holds it or a voice plays it. */
  lemma EveryRunKeepsBooks(sys: System, ops: seq<Op>)
    requires Initial(sys) && DisciplinedRun(sys, ops)
    ensures Accounted(Run(sys, ops))
    ensures forall s, vm :: 0 <= s < |sys.holders| && vm in Run(sys, ops).holders[s] ==> Run(sys, ops).b.t.objs[s].inUse
    ensures var b := Run(sys, ops).b;
            forall i :: 0 <= i < |b.d.tracks| && b.d.tracks[i].active && b.d.tracks[i].played != HANDLE_NONE ==>
              Resolve(b.t.objs, b.d.tracks[i].played).Some?
  {
    NoneActive(sys.b.d.tracks);
    assert Accounted(sys);
    RunKeepsBooks(sys, ops);
    var e := Run(sys, ops);
    forall s, vm | 0 <= s < |sys.holders| && vm in e.holders[s]
      ensures e.b.t.objs[s].inUse
    {
      assert SlotAccounted(e, s);
    }
    forall i | 0 <= i < |e.b.d.tracks| && e.b.d.tracks[i].active && e.b.d.tracks[i].played != HANDLE_NONE
      ensures Resolve(e.b.t.objs, e.b.d.tracks[i].played).Some?
    {
      assert VoiceLive(e.b.t, e.b.d.tracks[i]);
    }
  }

  // ---- stale handles over whole runs ----

  /** A live object in slot s carries the slot's generation. */
  predicate Stamped(t: Table, s: nat)
    requires s < |t.objs| == |t.gens|
  {
    t.objs[s].inUse ==> t.objs[s].generation == t.gens[s]
  }

  /** From `t` to `t'` the object in slot s is kept, or freed once with the slot's generation bumped; nothing else
      happens to the slot. */
  ghost predicate FreedAtMostOnce(t: Table, t': Table, s: nat) {
    && |t.objs| == |t.gens| == |t'.objs| == |t'.gens| && s < |t.objs|
    && (t'.objs[s].inUse ==> t.objs[s].inUse && t'.objs[s].generation == t.objs[s].generation)
    && t'.gens[s] == if t.objs[s].inUse && !t'.objs[s].inUse then BumpGeneration(t.gens[s]) else t.gens[s]
  }

  lemma {:induction false} StopWhereFrees(b: Both, sel: Selection, i: nat, s: nat)
    requires Shaped(b) && i <= |b.d.tracks| && s < |b.t.objs|
    ensures FreedAtMostOnce(b.t, StopWhere(b, sel, i).t, s)
    decreases |b.d.tracks| - i
  {
    if i < |b.d.tracks| {
      StopWhereFrees(StopStep(b, sel, i), sel, i + 1, s);
    }
  }

  function Frees(sys: System, op: Op, s: nat): nat
    requires Shaped(sys.b) && |sys.holders| == |sys.b.t.objs| && s < |sys.holders|
  {
    if sys.b.t.objs[s].inUse && !Apply(sys, op).b.t.objs[s].inUse then 1 else 0
  }

  lemma StepFrees(sys: System, op: Op, s: nat)
    requires Shaped(sys.b) && |sys.holders| == |sys.b.t.objs| && s < |sys.holders| && !op.Create?
    ensures FreedAtMostOnce(sys.b.t, Apply(sys, op).b.t, s)
  {
    match op {
      case Reap(done) => StopWhereFrees(sys.b, Finished(done), 0, s);
      case SweepVoices(vm) => StopWhereFrees(sys.b, OwnedByVm(vm), 0, s);
      case SweepPool(vm) => SweepSlot(sys.b.t, vm, 0, s);
      case _ =>
    }
  }

  /** Every request, allowed to its machine or not: a slot's generation moves on exactly when its object is freed, and
      the object in it carries that generation. */
  lemma StepGeneration(sys: System, op: Op, s: nat)
    requires Shaped(sys.b) && |sys.holders| == |sys.b.t.objs| && s < |sys.holders| && Stamped(sys.b.t, s)
    ensures Apply(sys, op).b.t.gens[s] == GenerationAfter(sys.b.t.gens[s], Frees(sys, op, s))
    ensures Stamped(Apply(sys, op).b.t, s)
  {
    if op.Create? {
      LowestFreeSlotIsFree(sys.b.t.objs, 0);
    } else {
      StepFrees(sys, op, s);
    }
    assert GenerationAfter(sys.b.t.gens[s], 1) == BumpGeneration(GenerationAfter(sys.b.t.gens[s], 0));
  }

  /** How often a run frees slot `s`. */
  ghost function RunFrees(sys: System, ops: seq<Op>, s: nat): nat
    requires Shaped(sys.b) && |sys.holders| == |sys.b.t.objs| && s < |sys.holders|
    decreases |ops|
  {
    if ops == [] then 0 else Frees(sys, ops[0], s) + RunFrees(Apply(sys, ops[0]), ops[1..], s)
  }

  lemma {:induction false} GenerationAfterAdds(g: nat, j: nat, k: nat)
    ensures GenerationAfter(GenerationAfter(g, j), k) == GenerationAfter(g, j + k)
  {
    if k != 0 {
      GenerationAfterAdds(g, j, k - 1);
    }
  }

  lemma {:induction false} RunGeneration(sys: System, ops: seq<Op>, s: nat)
    requires Shaped(sys.b) && |sys.holders| == |sys.b.t.objs| && s < |sys.holders| && Stamped(sys.b.t, s)
    ensures Run(sys, ops).b.t.gens[s] == GenerationAfter(sys.b.t.gens[s], RunFrees(sys, ops, s))
    ensures Stamped(Run(sys, ops).b.t, s)
    decreases |ops|
  {
    if ops != [] {
      StepGeneration(sys, ops[0], s);
      RunGeneration(Apply(sys, ops[0]), ops[1..], s);
      GenerationAfterAdds(sys.b.t.gens[s], Frees(sys, ops[0], s), RunFrees(Apply(sys, ops[0]), ops[1..], s));
    }
  }

  /** A handle that was good before a run, of any requests by anybody, is good after it exactly when its slot is live and
      was freed a multiple of 65535 times on the way: in particular not after 1 to 65534 frees. */
  lemma StaleHandleOverRun(sys: System, ops: seq<Op>, h: nat, s: nat)
    requires Shaped(sys.b) && |sys.holders| == |sys.b.t.objs| <= 0xFFFF
    requires Resolve(sys.b.t.objs, h) == Some(s) && Stamped(sys.b.t, s) && 1 <= sys.b.t.gens[s] < GEN_RANGE
    ensures Resolve(Run(sys, ops).b.t.objs, h).Some? <==>
            Run(sys, ops).b.t.objs[s].inUse && RunFrees(sys, ops, s) % 0xFFFF == 0
    ensures Resolve(Run(sys, ops).b.t.objs, h).Some? ==> Resolve(Run(sys, ops).b.t.objs, h) == Some(s)
  {
    var sys' := Run(sys, ops);
    RunGeneration(sys, ops, s);
    StaleHandleCollision(sys.b.t.gens[s], RunFrees(sys, ops, s));
    ResolvedHandleIsPacked(sys.b.t.objs, h);
    PackedHandleResolves(sys'.b.t.objs, s, sys.b.t.gens[s]);
  }

  /** Whatever has been requested since init, slots are stamped and generations are in range, so that is so of every
      handle the pool ever gave out. */
  lemma StaleHandleSinceInit(sys: System, past: seq<Op>, ops: seq<Op>, h: nat, s: nat)
    requires Initial(sys) && s < |sys.holders| && sys.b.t.gens[s] == 1
    requires Resolve(Run(sys, past).b.t.objs, h) == Some(s)
    ensures var now := Run(sys, past);
            Resolve(Run(now, ops).b.t.objs, h).Some? <==>
            Run(now, ops).b.t.objs[s].inUse && RunFrees(now, ops, s) % 0xFFFF == 0
  {
    RunGeneration(sys, past, s);
    StaleHandleCollision(1, RunFrees(sys, past, s));
    StaleHandleOverRun(Run(sys, past), ops, h, s);
  }

  // ---- voice handles over whole runs ----

  /** An active track carries its slot's generation. */
  predicate VoiceStamped(d: Desk, i: nat)
    requires i < |d.tracks| == |d.gens|
  {
    d.tracks[i].active ==> d.tracks[i].generation == d.gens[i]
  }

  /** The effect of a play request in the tracks' fields. */
  lemma PlayFields(d: Desk, t: Table, h: nat, kind: Kind, vm: nat, starts: bool)
    requires |d.tracks| == |d.gens|
    ensures var r, d', i := PlayOutcome(d, t, h, starts), PlayDesk(d, t, h, kind, vm, starts), LowestIdle(d.tracks, 0);
            && (r == BadObject <==> Resolve(t.objs, h) == None)
            && (r == Done <==> Resolve(t.objs, h) != None && starts && exists j :: 0 <= j < |d.tracks| && !d.tracks[j].active)
            && (r == BadObject || r == Rejected || r == Done) && (r != Done ==> d' == d)
            && (r == Done ==>
                  && i < |d.tracks| && !d.tracks[i].active && (forall j :: 0 <= j < i ==> d.tracks[j].active)
                  && d' == Desk(d.tracks[i := Track(true, h, kind, vm, d.gens[i])], d.gens, d.activeCount + 1))
  {
  }

  /** A voice handle made from a track and a generation names that track exactly while it is active in that generation. */
  lemma PackedVoiceResolves(tracks: seq<Track>, i: nat, gen: nat)
    requires i < |tracks| <= 0xFFFF
    ensures PackHandle(i, gen) != VOICE_NONE
    ensures ResolveVoice(tracks, PackHandle(i, gen)) ==
            if tracks[i].active && tracks[i].generation == gen then Some(i) else None
  {
    var h := PackHandle(i, gen);
    assert h % 0x1_0000 == i + 1 && h / 0x1_0000 == gen;
  }

  lemma ResolvedVoiceIsPacked(tracks: seq<Track>, v: nat)
    requires ResolveVoice(tracks, v).Some?
    ensures var i := ResolveVoice(tracks, v).value; v == PackHandle(i, tracks[i].generation)
  {
  }

  /** From `d` to `d'` track i stays as it is, is stopped with its generation moved on, or is claimed in its generation. */
  ghost predicate StoppedAtMostOnce(d: Desk, d': Desk, i: nat) {
    && |d.tracks| == |d.gens| == |d'.tracks| == |d'.gens| && i < |d.tracks|
    && (d.tracks[i].active && d'.tracks[i].active ==> d'.tracks[i] == d.tracks[i])
    && (!d.tracks[i].active && d'.tracks[i].active ==> d'.tracks[i].generation == d.gens[i])
    && d'.gens[i] == if d.tracks[i].active && !d'.tracks[i].active then BumpGeneration(d.gens[i]) else d.gens[i]
  }

  lemma StepStops(sys: System, op: Op, i: nat)
    requires Shaped(sys.b) && |sys.holders| == |sys.b.t.objs| && i < |sys.b.d.tracks|
    ensures StoppedAtMostOnce(sys.b.d, Apply(sys, op).b.d, i)
  {
    match op {
      case Reap(done) => StopWhereTrack(sys.b, Finished(done), 0, i);
      case SweepVoices(vm) => StopWhereTrack(sys.b, OwnedByVm(vm), 0, i);
      case _ =>
    }
  }

  function Stops(sys: System, op: Op, i: nat): nat
    requires Shaped(sys.b) && |sys.holders| == |sys.b.t.objs| && i < |sys.b.d.tracks|
  {
    if sys.b.d.tracks[i].active && !Apply(sys, op).b.d.tracks[i].active then 1 else 0
  }

  /** How often a run stops track i. */
  ghost function RunStops(sys: System, ops: seq<Op>, i: nat): nat
    requires Shaped(sys.b) && |sys.holders| == |sys.b.t.objs| && i < |sys.b.d.tracks|
    decreases |ops|
  {
    if ops == [] then 0 else Stops(sys, ops[0], i) + RunStops(Apply(sys, ops[0]), ops[1..], i)
  }

  lemma {:induction false} RunVoices(sys: System, ops: seq<Op>, i: nat)
    requires Shaped(sys.b) && |sys.holders| == |sys.b.t.objs| && i < |sys.b.d.tracks| && VoiceStamped(sys.b.d, i)
    ensures |Run(sys, ops).b.d.tracks| == |sys.b.d.tracks| && VoiceStamped(Run(sys, ops).b.d, i)
    ensures Run(sys, ops).b.d.gens[i] == GenerationAfter(sys.b.d.gens[i], RunStops(sys, ops, i))
    decreases |ops|
  {
    if ops != [] {
      var sys', k := Apply(sys, ops[0]), Stops(sys, ops[0], i);
      StepStops(sys, ops[0], i);
      assert GenerationAfter(sys.b.d.gens[i], 1) == BumpGeneration(GenerationAfter(sys.b.d.gens[i], 0));
      RunVoices(sys', ops[1..], i);
      GenerationAfterAdds(sys.b.d.gens[i], k, RunStops(sys', ops[1..], i));
    }
  }

  /** A voice handle that was good before a run, of any requests by anybody, is good after it exactly when its track is
      active and was stopped a multiple of 65535 times on the way. */
  lemma VoiceHandleOverRun(sys: System, ops: seq<Op>, v: nat, i: nat)
    requires Shaped(sys.b) && |sys.holders| == |sys.b.t.objs| && |sys.b.d.tracks| <= 0xFFFF
    requires ResolveVoice(sys.b.d.tracks, v) == Some(i) && VoiceStamped(sys.b.d, i) && 1 <= sys.b.d.gens[i] < GEN_RANGE
    ensures |Run(sys, ops).b.d.tracks| == |sys.b.d.tracks|
    ensures ResolveVoice(Run(sys, ops).b.d.tracks, v).Some? <==>
            Run(sys, ops).b.d.tracks[i].active && RunStops(sys, ops, i) % 0xFFFF == 0
  {
    RunVoices(sys, ops, i);
    StaleHandleCollision(sys.b.d.gens[i], RunStops(sys, ops, i));
    ResolvedVoiceIsPacked(sys.b.d.tracks, v);
    PackedVoiceResolves(Run(sys, ops).b.d.tracks, i, sys.b.d.gens[i]);
  }

  // ---- creation ----

  /** The change audio_pool_alloc makes to the table, in the new descriptor's fields, is the Create step; the books of
      whole runs are so about what it does. */
  lemma CreateIsAlloc(sys: System, t': Table, slot: nat, size: nat, head: nat, nblocks: nat, vm: nat)
    requires Shaped(sys.b) && |sys.holders| == |sys.b.t.objs| <= 0xFFFF
    requires slot < |sys.b.t.objs| && !sys.b.t.objs[slot].inUse && forall s :: 0 <= s < slot ==> sys.b.t.objs[s].inUse
    requires t' == Table(sys.b.t.objs[slot := Object(head, size, nblocks, 1, sys.b.t.gens[slot], vm, true, 0)], sys.b.t.gens)
    ensures Apply(sys, Create(size, head, nblocks, vm, true)) == System(Both(sys.b.d, t'), sys.holders[slot := multiset{vm}])
  {
    LowestFreeIs(sys.b.t.objs, 0, slot);
  }

  // ---- held objects over whole runs ----

  /** No allowed request of anybody else frees an object while a machine holds it: its handle stays good and its count
      still covers the machine's references. */
  lemma OthersCannotFree(sys: System, op: Op, vm: nat, s: nat)
    requires Accounted(sys) && Disciplined(sys, op) && !MadeBy(op, vm) && s < |sys.holders| && vm in sys.holders[s]
    ensures var t := Apply(sys, op).b.t;
            && Resolve(t.objs, HandleOf(sys.b.t, s)) == Some(s) && HandleOf(t, s) == HandleOf(sys.b.t, s)
            && t.objs[s].refcount >= sys.holders[s][vm]
    ensures Apply(sys, op).holders[s][vm] == sys.holders[s][vm]
  {
    var sys' := Apply(sys, op);
    StepKeepsBooks(sys, op);
    OnlyOwnRequestsCount(sys, op, vm, s);
    assert SlotAccounted(sys, s) && SlotAccounted(sys', s);
    StepGeneration(sys, op, s);
    OwedIs(sys', vm, s);
    PackedHandleResolves(sys'.b.t.objs, s, sys.b.t.gens[s]);
  }

  /** Nor does any allowed history of others' requests. */
  lemma {:induction false} HeldObjectStays(sys: System, ops: seq<Op>, vm: nat, s: nat)
    requires Accounted(sys) && DisciplinedRun(sys, ops) && s < |sys.holders| && vm in sys.holders[s]
    requires forall i :: 0 <= i < |ops| ==> !MadeBy(ops[i], vm)
    ensures Resolve(Run(sys, ops).b.t.objs, HandleOf(sys.b.t, s)) == Some(s)
    ensures Run(sys, ops).b.t.objs[s].refcount >= sys.holders[s][vm]
    decreases |ops|
  {
    if ops == [] {
      assert SlotAccounted(sys, s);
      OwedIs(sys, vm, s);
      PackedHandleResolves(sys.b.t.objs, s, sys.b.t.gens[s]);
    } else {
      StepKeepsBooks(sys, ops[0]);
      OthersCannotFree(sys, ops[0], vm, s);
      HeldObjectStays(Apply(sys, ops[0]), ops[1..], vm, s);
    }
  }

  /** The state of a one-slot pool with one track: the object's descriptor, the track, the slot's generation and the
      machines that hold references. */
  function Tiny(o: Object, k: Track, gen: nat, held: multiset<nat>): System {
    System(Both(Desk([k], [1], if k.active then 1 else 0), Table([o], [gen])), [held])
  }

  const TINY_OBJECT := Object(0, 10, 1, 1, 1, 1, true, 0)
  const TINY_VOICE := Track(true, PackHandle(0, 1), Sfx, 2, 1)
  const TINY_START := Tiny(FRESH, IDLE, 1, multiset{})

  /** The state after machine 1 has created the object: `refs` references, the track, and who holds them. */
  function Created(refs: int, k: Track, held: multiset<nat>): System {
    Tiny(TINY_OBJECT.(refcount := refs), k, 1, held)
  }

  /** An allowed request leads from one state to the next. */
  ghost predicate Leads(sys: System, op: Op, sys': System)
    requires Shaped(sys.b) && |sys.holders| == |sys.b.t.objs|
  {
    Disciplined(sys, op) && Apply(sys, op) == sys'
  }

  lemma TinyResolves(refs: int)
    ensures Resolve([TINY_OBJECT.(refcount := refs)], PackHandle(0, 1)) == Some(0)
  {
    PackedHandleResolves([TINY_OBJECT.(refcount := refs)], 0, 1);
  }

  lemma TinyCreate()
    ensures Initial(TINY_START) && Leads(TINY_START, Create(10, 0, 1, 1, true), Created(1, IDLE, multiset{1}))
  {
  }

  lemma TinyPlay()
    ensures Leads(Created(1, IDLE, multiset{1}), Play(PackHandle(0, 1), Sfx, 2, true), Created(2, TINY_VOICE, multiset{1}))
  {
    TinyResolves(1);
  }

  lemma TinyHold()
    ensures Leads(Created(1, IDLE, multiset{1}), Hold(PackHandle(0, 1), 2), Created(2, IDLE, multiset{1, 2}))
  {
    TinyResolves(1);
    assert multiset{1} + multiset{2} == multiset{1, 2};
    assert AddRef(Table([TINY_OBJECT.(refcount := 1)], [1]), 0) == Table([TINY_OBJECT.(refcount := 2)], [1]);
  }

  lemma TinyDrop(k: Track, held: multiset<nat>, left: multiset<nat>)
    requires 1 in held && left == held - multiset{1}
    ensures Leads(Created(2, k, held), Drop(PackHandle(0, 1), 1), Created(1, k, left))
  {
    TinyResolves(2);
    assert DropRef(Table([TINY_OBJECT.(refcount := 2)], [1]), 0) == Table([TINY_OBJECT.(refcount := 1)], [1]);
  }

  /** The sweep of machine 1 after it has dropped its reference is out of order, and frees the object. */
  lemma TinySweep(k: Track, held: multiset<nat>)
    requires 1 !in held
    ensures !Disciplined(Created(1, k, held), SweepPool(1))
    ensures Apply(Created(1, k, held), SweepPool(1)) == Tiny(FREED, k, 2, held)
    ensures Resolve([FREED], PackHandle(0, 1)) == None
  {
    var s := Created(1, k, held);
    assert !HasCreationRef(s, 1, 0);
    assert Sweep(s.b.t, 1, 0) == Table([FREED], [2]);
    assert held - multiset{1} == held;
    assert SweptHolders(s.b.t, s.holders, 1) == [held];
    PackedHandleResolves([FREED], 0, 1);
  }

  /** The discipline is needed. Machine 1 creates an object, machine 2 plays it, machine 1 drops its reference and then
      dies: the sweep takes the voice's reference and frees the object while it plays. Only the sweep is out of order. */
  lemma SweepAfterDropCutsAVoice()
    ensures var s1, s2, s3 := Created(1, IDLE, multiset{1}), Created(2, TINY_VOICE, multiset{1}), Created(1, TINY_VOICE, multiset{});
            && Initial(TINY_START) && Leads(TINY_START, Create(10, 0, 1, 1, true), s1)
            && Leads(s1, Play(PackHandle(0, 1), Sfx, 2, true), s2) && Leads(s2, Drop(PackHandle(0, 1), 1), s3)
            && !Disciplined(s3, SweepPool(1)) && Apply(s3, SweepPool(1)) == Tiny(FREED, TINY_VOICE, 2, multiset{})
    ensures TINY_VOICE.active && TINY_VOICE.ownerVm == 2 && TINY_VOICE.played == PackHandle(0, 1)
    ensures Resolve([FREED], PackHandle(0, 1)) == None
  {
    TinyCreate();
    TinyPlay();
    TinyDrop(TINY_VOICE, multiset{1}, multiset{});
    TinySweep(TINY_VOICE, multiset{});
  }

  /** The same without a voice: machine 2 takes a reference instead, and loses the object while it still holds it. */
  lemma SweepAfterDropFreesAHeldObject()
    ensures var s1, s2, s3 := Created(1, IDLE, multiset{1}), Created(2, IDLE, multiset{1, 2}), Created(1, IDLE, multiset{2});
            && Initial(TINY_START) && Leads(TINY_START, Create(10, 0, 1, 1, true), s1)
            && Leads(s1, Hold(PackHandle(0, 1), 2), s2) && Leads(s2, Drop(PackHandle(0, 1), 1), s3)
            && !Disciplined(s3, SweepPool(1)) && Apply(s3, SweepPool(1)) == Tiny(FREED, IDLE, 2, multiset{2})
    ensures Resolve([FREED], PackHandle(0, 1)) == None
  {
    TinyCreate();
    TinyHold();
    assert multiset{1, 2} - multiset{1} == multiset{2};
    TinyDrop(IDLE, multiset{1, 2}, multiset{2});
    TinySweep(IDLE, multiset{2});
  }

  /** The other failure: a machine's reference on an object it did not create outlives it. Machine 1 creates, machine 2
      takes a reference and dies, all as allowed; the count stays 2 although only machine 1 is owed one. */
  lemma SweepLeavesAReference()
    ensures var s1, s2 := Created(1, IDLE, multiset{1}), Created(2, IDLE, multiset{1, 2});
            && Initial(TINY_START) && Leads(TINY_START, Create(10, 0, 1, 1, true), s1)
            && Leads(s1, Hold(PackHandle(0, 1), 2), s2) && Disciplined(s2, SweepPool(2))
            && Apply(s2, SweepPool(2)).b.t == s2.b.t && s2.b.t.objs[0].refcount == 2 && Owed(s2, 2, 0) == 1
            && !NoneLeft(s2, s2.b.t, 2, 0)
  {
    TinyCreate();
    TinyHold();
    TinySweepOther(multiset{1, 2});
    TinyOwed();
  }

  lemma TinySweepOther(held: multiset<nat>)
    ensures Disciplined(Created(2, IDLE, held), SweepPool(2))
    ensures Apply(Created(2, IDLE, held), SweepPool(2)).b.t == Created(2, IDLE, held).b.t
  {
    var s := Created(2, IDLE, held);
    assert HasCreationRef(s, 2, 0);
    assert Sweep(s.b.t, 2, 0) == s.b.t;
  }

  lemma TinyOwed()
    ensures Owed(Created(2, IDLE, multiset{1, 2}), 2, 0) == 1
  {
    assert multiset{1, 2}[2 := 0] == multiset{1};
    NobodyPlays([IDLE], PackHandle(0, 1));
  }

  // ---- the arbiter ----

  class Arbiter {
    const pool: Pool
    const tracks: array<Track>
    const gens: array<nat>
    var activeCount: int

    ghost predicate Shape() {
      && tracks.Length == gens.Length
      && gens != pool.owner && gens != pool.next && gens != pool.gens
      && pool.Shape()
    }

    function View(): Desk
      reads this, tracks, gens
    {
      Desk(tracks[..], gens[..], activeCount)
    }

    function Books(): Both
      reads this, tracks, gens, pool.objects, pool.gens
    {
      Both(View(), pool.Descriptors())
    }

    ghost predicate Valid()
      reads this, tracks, gens, pool, pool.owner, pool.next, pool.used, pool.used.words, pool.objects, pool.gens
    {
      Shape() && pool.Valid()
    }

    constructor Init(pool: Pool, trackCount: nat)
      requires pool.Valid()
      ensures Valid() && this.pool == pool && fresh(tracks) && fresh(gens)
      ensures activeCount == 0 && tracks.Length == trackCount
      ensures forall i :: 0 <= i < trackCount ==> !tracks[i].active && gens[i] == 1
    {
      this.pool := pool;
      tracks := new Track[trackCount](_ => IDLE);
      gens := new nat[trackCount](_ => 1);
      activeCount := 0;
    }

    method FindFreeTrack() returns (i: nat)
      requires tracks.Length == gens.Length
      ensures i == LowestIdle(tracks[..], 0)
    {
      i := 0;
      while i < tracks.Length && tracks[i].active
        invariant i <= tracks.Length
        invariant LowestIdle(tracks[..], i) == LowestIdle(tracks[..], 0)
      {
        i := i + 1;
      }
    }

    /** The reference of a voice about to start, given back if the sink declines. */
    method TakeReference(h: nat, starts: bool)
      requires Valid() && Resolve(pool.objects[..], h).Some?
      modifies pool.owner, pool.next, pool.used, pool.used.words, pool.objects, pool.gens, pool`freeBlocks, pool`chains
      ensures Valid() && View() == old(View())
      ensures pool.Descriptors() == if starts then RefHandle(old(pool.Descriptors()), h) else old(pool.Descriptors())
      ensures pool.chains == old(pool.chains) && pool.Map() == old(pool.Map())
    {
      RefThenUnref(pool.Descriptors(), pool.chains, pool.bs, h);
      var taken := pool.Ref(h);
      if !starts {
        var back, freed := pool.Unref(h);
      }
    }

    /** audio_arbiter_play. `starts` is what sink.start answers if it is asked; a refusal gives the reference back and
        leaves everything as it was. */
    method Play(h: nat, kind: Kind, vm: nat, starts: bool) returns (r: Outcome, v: nat)
      requires Valid()
      modifies this`activeCount, tracks
      modifies pool.owner, pool.next, pool.used, pool.used.words, pool.objects, pool.gens, pool`freeBlocks, pool`chains
      ensures Valid()
      ensures r == PlayOutcome(old(View()), old(pool.Descriptors()), h, starts)
      ensures View() == PlayDesk(old(View()), old(pool.Descriptors()), h, kind, vm, starts)
      ensures pool.Descriptors() == PlayTable(old(View()), old(pool.Descriptors()), h, starts)
      ensures pool.chains == old(pool.chains) && pool.Map() == old(pool.Map())
      ensures r == BadObject <==> Resolve(old(pool.objects[..]), h) == None
      ensures r == Done <==> Resolve(old(pool.objects[..]), h) != None && starts &&
                             exists j :: 0 <= j < tracks.Length && !old(tracks[..])[j].active
      ensures r == BadObject || r == Rejected || r == Done
      ensures r != Done ==> v == VOICE_NONE && tracks[..] == old(tracks[..]) && activeCount == old(activeCount)
      ensures r == Done ==>
                var i := LowestIdle(old(View()).tracks, 0);
                && i < tracks.Length && v == PackHandle(i, gens[i])
                && !old(tracks[..])[i].active && (forall j :: 0 <= j < i ==> old(tracks[..])[j].active)
                && tracks[..] == old(tracks[..])[i := Track(true, h, kind, vm, gens[i])]
                && activeCount == old(activeCount) + 1
      ensures gens[..] == old(gens[..])
    {
      PlayFields(View(), pool.Descriptors(), h, kind, vm, starts);
      r, v := PlayVoice(h, kind, vm, starts);
    }

    method PlayVoice(h: nat, kind: Kind, vm: nat, starts: bool) returns (r: Outcome, v: nat)
      requires Valid()
      modifies this`activeCount, tracks
      modifies pool.owner, pool.next, pool.used, pool.used.words, pool.objects, pool.gens, pool`freeBlocks, pool`chains
      ensures Valid()
      ensures r == PlayOutcome(old(View()), old(pool.Descriptors()), h, starts)
      ensures View() == PlayDesk(old(View()), old(pool.Descriptors()), h, kind, vm, starts)
      ensures pool.Descriptors() == PlayTable(old(View()), old(pool.Descriptors()), h, starts)
      ensures pool.chains == old(pool.chains) && pool.Map() == old(pool.Map())
      ensures r == Done ==>
                var i := LowestIdle(old(View()).tracks, 0); i < tracks.Length && v == PackHandle(i, gens[i])
      ensures r != Done ==> v == VOICE_NONE
    {
      v := VOICE_NONE;
      if Resolve(pool.objects[..], h).None? {
        return BadObject, v;
      }
      var track := FindFreeTrack();
      if track >= tracks.Length {
        return Rejected, v;
      }
      TakeReference(h, starts);
      if !starts {
        return Rejected, v;
      }
      v := ClaimTrack(track, h, kind, vm);
      r := Done;
    }

    /** The track's fields once the sink has started it, and the voice's handle. */
    method ClaimTrack(track: nat, h: nat, kind: Kind, vm: nat) returns (v: nat)
      requires Valid() && track < tracks.Length
      modifies this`activeCount, tracks
      ensures Valid() && View() == Claim(old(View()), track, h, kind, vm) && v == PackHandle(track, gens[track])
    {
      tracks[track] := Track(true, h, kind, vm, gens[track]);
      activeCount := activeCount + 1;
      v := PackHandle(track, gens[track]);
    }

    /** audio_arbiter_play_external: a voice without a pool object. */
    method PlayExternal(vm: nat, starts: bool) returns (r: Outcome, v: nat)
      requires Valid()
      modifies this`activeCount, tracks
      ensures Valid()
      ensures var i := LowestIdle(old(View()).tracks, 0);
              if i == tracks.Length || !starts then
                r == Rejected && v == VOICE_NONE && View() == old(View())
              else
                r == Done && v == PackHandle(i, gens[i]) && View() == Claim(old(View()), i, HANDLE_NONE, Music, vm)
      ensures r == Done <==> starts && exists j :: 0 <= j < tracks.Length && !old(tracks[..])[j].active
      ensures r == Done ==>
                var i := LowestIdle(old(View()).tracks, 0);
                i < tracks.Length && tracks[..] == old(tracks[..])[i := Track(true, HANDLE_NONE, Music, vm, gens[i])]
    {
      var track := FindFreeTrack();
      if track >= tracks.Length || !starts {
        return Rejected, VOICE_NONE;
      }
      tracks[track] := Track(true, HANDLE_NONE, Music, vm, gens[track]);
      activeCount := activeCount + 1;
      r, v := Done, PackHandle(track, gens[track]);
    }

    /** stop_track. */
    method StopTrackAt(i: nat)
      requires Valid() && i < tracks.Length
      modifies this`activeCount, tracks, gens
      modifies pool.owner, pool.next, pool.used, pool.used.words, pool.objects, pool.gens, pool`freeBlocks, pool`chains
      ensures Valid() && Books() == StopTrack(old(Books()), i)
    {
      if !tracks[i].active {
        return;
      }
      if tracks[i].played != HANDLE_NONE {
        var r, freed := pool.Unref(tracks[i].played);
      }
      ClearTrack(i);
    }

    /** The rest of stop_track: the track is idle and its generation moved on. */
    method ClearTrack(i: nat)
      requires Valid() && i < tracks.Length && tracks[i].active
      modifies this`activeCount, tracks, gens
      ensures Valid() && View() == Release(old(View()), i)
      ensures pool.Descriptors() == old(pool.Descriptors())
    {
      gens[i] := BumpGeneration(gens[i]);
      tracks[i] := IDLE;
      activeCount := activeCount - 1;
    }

    /** audio_arbiter_stop and audio_arbiter_voice_finished. */
    method Stop(v: nat) returns (r: Outcome)
      requires Valid()
      modifies this`activeCount, tracks, gens
      modifies pool.owner, pool.next, pool.used, pool.used.words, pool.objects, pool.gens, pool`freeBlocks, pool`chains
      ensures Valid()
      ensures match ResolveVoice(old(tracks[..]), v)
              case None => r == BadVoice && Books() == old(Books())
              case Some(i) =>
                && r == Done && Books() == StopTrack(old(Books()), i) && i < tracks.Length
                && !tracks[i].active && gens[i] == BumpGeneration(old(gens[..])[i])
                && (forall j :: 0 <= j < tracks.Length && j != i ==>
                      tracks[j] == old(tracks[..])[j] && gens[j] == old(gens[..])[j])
    {
      match ResolveVoice(tracks[..], v) {
        case None => r := BadVoice;
        case Some(i) =>
          StopFields(Books(), i);
          StopTrackAt(i);
          r := Done;
      }
    }

    /** The loop of audio_arbiter_reap and audio_arbiter_sweep_vm, which differ in the tracks they select. */
    method StopSelected(sel: Selection) returns (stopped: nat)
      requires Valid()
      modifies this`activeCount, tracks, gens
      modifies pool.owner, pool.next, pool.used, pool.used.words, pool.objects, pool.gens, pool`freeBlocks, pool`chains
      ensures Valid() && Books() == StopWhere(old(Books()), sel, 0)
      ensures forall j :: 0 <= j < tracks.Length ==>
                if Selected(sel, old(tracks[..])[j], j) then
                  !tracks[j].active && gens[j] == BumpGeneration(old(gens[..])[j])
                else tracks[j] == old(tracks[..])[j] && gens[j] == old(gens[..])[j]
      ensures activeCount == old(activeCount) - stopped
    {
      ghost var b := Books();
      stopped := StopFrom(sel);
      forall j | 0 <= j < tracks.Length
        ensures if Selected(sel, b.d.tracks[j], j) then
                  !tracks[j].active && gens[j] == BumpGeneration(b.d.gens[j])
                else tracks[j] == b.d.tracks[j] && gens[j] == b.d.gens[j]
      {
        StopWhereTrack(b, sel, 0, j);
        assert tracks[j] == View().tracks[j] && gens[j] == View().gens[j];
      }
    }

    method StopFrom(sel: Selection) returns (stopped: nat)
      requires Valid()
      modifies this`activeCount, tracks, gens
      modifies pool.owner, pool.next, pool.used, pool.used.words, pool.objects, pool.gens, pool`freeBlocks, pool`chains
      ensures Valid() && Books() == StopWhere(old(Books()), sel, 0)
      ensures activeCount == old(activeCount) - stopped
    {
      stopped := 0;
      var i := 0;
      ghost var b0 := Books();
      while i < tracks.Length
        invariant i <= tracks.Length && Valid()
        invariant StopWhere(Books(), sel, i) == StopWhere(b0, sel, 0)
        invariant activeCount == b0.d.activeCount - stopped
      {
        stopped := StopOne(sel, i, stopped);
        i := i + 1;
      }
    }

    /** One turn of that loop. */
    method StopOne(sel: Selection, i: nat, stopped: nat) returns (stopped': nat)
      requires Valid() && i < tracks.Length
      modifies this`activeCount, tracks, gens
      modifies pool.owner, pool.next, pool.used, pool.used.words, pool.objects, pool.gens, pool`freeBlocks, pool`chains
      ensures Valid() && Books() == StopStep(old(Books()), sel, i)
      ensures activeCount - old(activeCount) == stopped - stopped'
    {
      stopped' := stopped;
      if Selected(sel, tracks[i], i) {
        StopTrackAt(i);
        stopped' := stopped + 1;
      }
    }

    /** audio_arbiter_reap: frees the one-shot voices the sink reports done, never music. */
    method Reap(done: seq<bool>) returns (reaped: nat)
      requires Valid()
      modifies this`activeCount, tracks, gens
      modifies pool.owner, pool.next, pool.used, pool.used.words, pool.objects, pool.gens, pool`freeBlocks, pool`chains
      ensures Valid() && Books() == StopWhere(old(Books()), Finished(done), 0)
      ensures forall j :: 0 <= j < tracks.Length ==>
                if old(tracks[..])[j].active && old(tracks[..])[j].kind == Sfx && j < |done| && done[j] then
                  !tracks[j].active && gens[j] == BumpGeneration(old(gens[..])[j])
                else tracks[j] == old(tracks[..])[j] && gens[j] == old(gens[..])[j]
      ensures activeCount == old(activeCount) - reaped
    {
      reaped := StopSelected(Finished(done));
    }

    /** audio_arbiter_sweep_vm: stops every voice of a dying machine. */
    method SweepVm(vm: nat) returns (stopped: nat)
      requires Valid()
      modifies this`activeCount, tracks, gens
      modifies pool.owner, pool.next, pool.used, pool.used.words, pool.objects, pool.gens, pool`freeBlocks, pool`chains
      ensures Valid() && Books() == StopWhere(old(Books()), OwnedByVm(vm), 0)
      ensures forall j :: 0 <= j < tracks.Length ==>
                if old(tracks[..])[j].active && old(tracks[..])[j].ownerVm == vm then
                  !tracks[j].active && gens[j] == BumpGeneration(old(gens[..])[j])
                else tracks[j] == old(tracks[..])[j] && gens[j] == old(gens[..])[j]
      ensures activeCount == old(activeCount) - stopped
    {
      stopped := StopSelected(OwnedByVm(vm));
    }
  }

  /** A selected sweep stops each selected track once and touches no other, whatever order the loop takes. */
  lemma {:induction false} StopWhereTrack(b: Both, sel: Selection, i: nat, j: nat)
    requires Shaped(b) && i <= |b.d.tracks| && j < |b.d.tracks|
    ensures var d := StopWhere(b, sel, i).d;
            if i <= j && Selected(sel, b.d.tracks[j], j) then
              d.tracks[j] == IDLE && d.gens[j] == BumpGeneration(b.d.gens[j])
            else
              d.tracks[j] == b.d.tracks[j] && d.gens[j] == b.d.gens[j]
    decreases |b.d.tracks| - i
  {
    if i < |b.d.tracks| {
      StopWhereTrack(StopStep(b, sel, i), sel, i + 1, j);
    }
  }

  /** Taking a reference on a live object and giving it back changes nothing. */
  lemma RefThenUnref(t: Table, chains: seq<seq<nat>>, bs: nat, h: nat)
    requires bs >= 1 && TableOk(t, chains, bs) && Resolve(t.objs, h).Some?
    ensures UnrefHandle(RefHandle(t, h), h) == t
    ensures !LastRef(RefHandle(t, h).objs, h)
  {
    var s := Resolve(t.objs, h).value;
    assert SlotOk(t.objs[s], t.gens[s], chains[s], bs);
    assert Resolve(AddRef(t, s).objs, h) == Some(s);
    assert t.objs[s := AddRef(t, s).objs[s]][s := t.objs[s]] == t.objs;
  }

  /** audio_arbiter_init: refuses 0 tracks and serves at most MAX_TRACKS. */
  method InitArbiter(pool: Pool, trackCount: nat) returns (a: Arbiter?)
    requires pool.Valid()
    ensures a == null <==> trackCount == 0
    ensures a != null ==>
              && fresh(a) && a.Valid() && a.pool == pool && a.activeCount == 0
              && a.tracks.Length == (if trackCount > MAX_TRACKS then MAX_TRACKS else trackCount)
              && forall i :: 0 <= i < a.tracks.Length ==> !a.tracks[i].active && a.gens[i] == 1
  {
    if trackCount == 0 {
      return null;
    }
    var n := if trackCount > MAX_TRACKS then MAX_TRACKS else trackCount;
    a := new Arbiter.Init(pool, n);
  }
}
