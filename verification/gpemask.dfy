/**
 The four-step masking protocol of a general purpose event (GPE) register.

 One thread at a time holds the event lock and runs API operations. Beside it, any number of
 interrupts and deferred work items run dispatch_gpe, async_run_gpe_handler and restore_gpe on any
 event at any time. Every read and write of the hardware may fail. An 8-bit mask is the set of the
 events whose bits it has; an API operation that counts users is a toggle of the masks and a call.
 */
module GpeMask {
  datatype Option<T> = None | Some(value: T)

  type Event = nat

  type Mask = set<Event>

  datatype Actor = ApiThread | Worker(id: nat)

  /** The register: three software masks, the enable register and the spinlock's holder. */
  datatype Register = Register(masked: Mask, current: Mask, runtime: Mask, enable: Mask, spinlock: Option<Actor>)

  // ---- set_gpe_state, step by step

  datatype Goal = On | OnIfCurrent | Off

  datatype At = Test | Current | Lock | Read | Write(seen: Mask) | Unlock(ok: bool)

  datatype Call = Call(event: Event, goal: Goal, at: At)

  datatype Progress = Running(call: Call) | Done(ok: bool)

  ghost predicate CallStep(r: Register, r': Register, who: Actor, c: Call, next: Progress) {
    match c.at
    case Test =>
      r' == r && next == if c.goal != Off && c.event in r.masked then Done(true)
                         else Running(c.(at := if c.goal == OnIfCurrent then Current else Lock))
    case Current => r' == r && next == if c.event !in r.current then Done(true) else Running(c.(at := Lock))
    case Lock => r.spinlock == None && r' == r.(spinlock := Some(who)) && next == Running(c.(at := Read))
    case Read => r' == r && (next == Running(c.(at := Write(r.enable))) || next == Running(c.(at := Unlock(false))))
    case Write(seen) =>
      || (r' == r.(enable := if c.goal == Off then seen - {c.event} else seen + {c.event})
          && next == Running(c.(at := Unlock(true))))
      || (r' == r && next == Running(c.(at := Unlock(false))))
    case Unlock(ok) => r' == r.(spinlock := None) && next == Done(ok)
  }

  // ---- Interrupts and work items

  datatype Work =
    | Disabling(call: Call)   // dispatch_gpe switches the event off first
    | Blocking(event: Event)      // about to set block_interrupts
    | Handling(event: Event)
    | Reenabling(call: Call)  // clearing an edge event failed: switched back on
    | Queued(event: Event)        // waiting as a work item
    | Restoring(call: Call)   // restore_gpe
    | Unblocking(event: Event)    // about to clear block_interrupts

  // ---- The API thread

  datatype Api =
    | Idle
    | Calling(call: Call)             // enable, disable, suspend, resume, finish handling, second half of unmask
    | MaskStart(event: Event)
    | MaskWait(event: Event)              // waiting for work completion the first time
    | MaskOff(call: Call)
    | MaskFlush(event: Event, off: bool)  // waiting the second time; `off`: the disabling write went through
    | UnmaskStart(event: Event)
    | UnmaskDecide(event: Event)
    | ApplyAll(value: Mask)            // gpe_block_apply_action, about to store current_mask
    | ApplyWrite(value: Mask)          // about to write the enable register

  /** `sealed` records the events whose masking has returned and that were not unmasked since. */
  datatype State = State(r: Register, api: Api, work: map<nat, Work>, blocked: Mask, sealed: Mask)

  ghost predicate ApiStep(s: State, s': State) {
    match s.api
    case Idle => IdleStep(s, s')
    case Calling(c) =>
      exists next :: CallStep(s.r, s'.r, ApiThread, c, next)
                     && s' == s.(r := s'.r, api := if next.Running? then Calling(next.call) else Idle)
    case MaskStart(e) =>
      s' == if e in s.r.masked then s.(api := Idle)
            else s.(api := MaskWait(e), r := s.r.(masked := s.r.masked + {e}))
    case MaskWait(e) => s.work == map[] && s' == s.(api := MaskOff(Call(e, Off, Test)))
    case MaskOff(c) =>
      exists next :: CallStep(s.r, s'.r, ApiThread, c, next)
                     && s' == s.(r := s'.r, api := if next.Running? then MaskOff(next.call)
                                 else MaskFlush(c.event, next.ok))
    case MaskFlush(e, off) =>
      s.work == map[] && s' == s.(api := Idle, sealed := if off then s.sealed + {e} else s.sealed)
    case UnmaskStart(e) =>
      s' == if e !in s.r.masked then s.(api := Idle)
            else s.(api := UnmaskDecide(e), r := s.r.(masked := s.r.masked - {e}), sealed := s.sealed - {e})
    case UnmaskDecide(e) =>
      || s' == s.(api := Idle)  // no users, or interrupts blocked
      || (e !in s.blocked && s' == s.(api := Calling(Call(e, OnIfCurrent, Test))))
    case ApplyAll(v) => s' == s.(api := ApplyWrite(v), r := s.r.(current := v))
    case ApplyWrite(v) => s' == s.(api := Idle) || s' == s.(api := Idle, r := s.r.(enable := v))
  }

  /** An API operation begins, or toggles an event's bit in the masks. */
  ghost predicate IdleStep(s: State, s': State) {
    || (s' == s.(api := s'.api) && match s'.api
                                   case Calling(c) => c.at == Test
                                   case MaskStart(_) => true
                                   case UnmaskStart(_) => true
                                   case ApplyAll(v) => v == {} || v == s.r.runtime - s.r.masked
                                   case _ => false)
    || (exists e, on :: s' == s.(r := Toggled(s.r, e, on)))
  }

  /** gp_event_toggle_masks. */
  function Toggled(r: Register, e: Event, on: bool): Register {
    var m := if on then r.runtime + {e} else r.runtime - {e};
    r.(runtime := m, current := m)
  }

  /** A step of worker `w`, which ends in `after` (none: it has finished). */
  ghost predicate WorkStep(s: State, s': State, w: nat, after: Option<Work>) {
    && s'.api == s.api && s'.sealed == s.sealed
    && s'.work == (if after.Some? then s.work[w := after.value] else s.work - {w})
    && if w !in s.work then  // an interrupt arrives
         s'.r == s.r && s'.blocked == s.blocked && after.Some? && after.value.Disabling?
         && after.value.call.goal == Off && after.value.call.at == Test
       else if IsCall(s.work[w]) then
         s'.blocked == s.blocked && CallWorkStep(s.r, s'.r, w, s.work[w], after)
       else
         s'.r == s.r && PlainWorkStep(s.blocked, s'.blocked, s.work[w], after)
  }

  ghost predicate IsCall(x: Work) {
    x.Disabling? || x.Reenabling? || x.Restoring?
  }

  ghost predicate CallWorkStep(r: Register, r': Register, w: nat, x: Work, after: Option<Work>)
    requires IsCall(x)
  {
    exists next :: CallStep(r, r', Worker(w), x.call, next) && after == AfterCall(x, next)
  }

  ghost function AfterCall(x: Work, next: Progress): Option<Work>
    requires IsCall(x)
  {
    match next
    case Running(c) =>
      Some(if x.Disabling? then Disabling(c) else if x.Reenabling? then Reenabling(c) else Restoring(c))
    case Done(ok) =>
      if x.Disabling? && ok then Some(Blocking(x.call.event))
      else if x.Restoring? then Some(Unblocking(x.call.event))
      else None
  }

  ghost predicate PlainWorkStep(blocked: Mask, blocked': Mask, x: Work, after: Option<Work>) {
    match x
    case Blocking(e) => blocked' == blocked + {e} && after == Some(Handling(e))
    case Handling(e) =>
      blocked' == blocked &&
      (after == None || after == Some(Queued(e)) || after == Some(Reenabling(Call(e, OnIfCurrent, Test)))
       || after == Some(Restoring(Call(e, OnIfCurrent, Test))))
    case Queued(e) => blocked' == blocked && (after == None || after == Some(Restoring(Call(e, OnIfCurrent, Test))))
    case Unblocking(e) => blocked' == blocked - {e} && after == None
    case _ => false
  }

  ghost predicate Step(s: State, s': State) {
    ApiStep(s, s') || exists w, after :: WorkStep(s, s', w, after)
  }

  /** Nothing masked through this protocol yet; enable register and masks arbitrary. */
  ghost predicate Init(s: State) {
    s.api == Idle && s.work == map[] && s.sealed == {} && s.r.spinlock == None
  }

  ghost predicate Run(run: seq<State>) {
    run != [] && Init(run[0]) && forall k :: 0 <= k < |run| - 1 ==> Step(run[k], run[k + 1])
  }

  // ---- The invariant, for one event `e`

  /** No call past its mask test may still switch `e` on. */
  ghost predicate Guarded(s: State, e: Event) {
    || e in s.sealed
    || (s.api.MaskOff? && s.api.call.event == e)
    || (s.api.MaskFlush? && s.api.event == e)
  }

  /** `e` is off in the enable register and in every copy of it somebody will write back. */
  ghost predicate Cleared(s: State, e: Event) {
    || e in s.sealed
    || (s.api.MaskOff? && s.api.call.event == e && s.api.call.at == Unlock(true))
    || (s.api.MaskFlush? && s.api.event == e && s.api.off)
  }

  ghost predicate CallOk(r: Register, guarded: bool, cleared: bool, e: Event, who: Actor, c: Call) {
    && (c.at.Read? || c.at.Write? || c.at.Unlock? ==> r.spinlock == Some(who))
    && (c.at.Current? ==> c.goal == OnIfCurrent)
    && (c.at.Write? && cleared ==> e !in c.at.seen)
    && (c.goal != Off && c.at != Test && guarded ==> c.event != e)
  }

  ghost predicate WorkerOk(s: State, e: Event, w: nat, x: Work) {
    IsCall(x) ==> CallOk(s.r, Guarded(s, e), Cleared(s, e), e, Worker(w), x.call)
  }

  ghost predicate ApiOk(s: State, e: Event) {
    match s.api
    case Calling(c) => CallOk(s.r, Guarded(s, e), Cleared(s, e), e, ApiThread, c)
    case MaskOff(c) => c.goal == Off && CallOk(s.r, Guarded(s, e), Cleared(s, e), e, ApiThread, c)
    case ApplyAll(v) => e in s.sealed ==> e !in v
    case ApplyWrite(v) => e in s.sealed ==> e !in v
    case _ => true
  }

  ghost predicate RegisterOk(s: State, e: Event) {
    && (Guarded(s, e) || s.api == MaskWait(e) ==> e in s.r.masked)
    && (Cleared(s, e) ==> e !in s.r.enable)
  }

  ghost predicate Inv(s: State, e: Event) {
    && RegisterOk(s, e)
    && ApiOk(s, e)
    && (forall w :: w in s.work ==> WorkerOk(s, e, w, s.work[w]))
  }

  // ---- Every step keeps it

  /** The spinlock did not move, or `who` took it, or `who` gave it back. */
  ghost predicate OnlyMoves(who: Actor, before: Option<Actor>, after: Option<Actor>) {
    after == before || (before == None && after == Some(who)) || (before == Some(who) && after == None)
  }

  /** A step of set_gpe_state leaves the masks alone and never switches a cleared event on. */
  lemma CallKeeps(r: Register, r': Register, who: Actor, c: Call, next: Progress, e: Event, guarded: bool,
                  cleared: bool)
    requires CallStep(r, r', who, c, next) && CallOk(r, guarded, cleared, e, who, c)
    requires (guarded ==> e in r.masked) && (cleared ==> guarded && e !in r.enable)
    ensures r' == r.(enable := r'.enable, spinlock := r'.spinlock) && OnlyMoves(who, r.spinlock, r'.spinlock)
    ensures cleared ==> e !in r'.enable
    ensures next.Running? ==>
              CallOk(r', guarded, cleared, e, who, next.call) && next.call.event == c.event && next.call.goal == c.goal
  {}

  lemma OtherWorkers(s: State, s': State, who: Actor, e: Event)
    requires forall w :: w in s.work ==> WorkerOk(s, e, w, s.work[w])
    requires (Guarded(s', e) ==> Guarded(s, e)) && (Cleared(s', e) ==> Cleared(s, e))
    requires OnlyMoves(who, s.r.spinlock, s'.r.spinlock)
    ensures forall w :: w in s.work && Worker(w) != who ==> WorkerOk(s', e, w, s.work[w])
  {
    forall w | w in s.work && Worker(w) != who ensures WorkerOk(s', e, w, s.work[w]) {
      assert WorkerOk(s, e, w, s.work[w]);
    }
  }

  lemma WorkKeeps(s: State, s': State, w: nat, after: Option<Work>, e: Event)
    requires Inv(s, e) && WorkStep(s, s', w, after)
    ensures Inv(s', e)
  {
    if w in s.work && IsCall(s.work[w]) {
      var x := s.work[w];
      assert WorkerOk(s, e, w, x);
      var next :| CallStep(s.r, s'.r, Worker(w), x.call, next) && after == AfterCall(x, next);
      CallKeeps(s.r, s'.r, Worker(w), x.call, next, e, Guarded(s, e), Cleared(s, e));
    }
    OtherWorkers(s, s', Worker(w), e);
  }

  lemma ApiKeeps(s: State, s': State, e: Event)
    requires Inv(s, e) && ApiStep(s, s')
    ensures Inv(s', e)
  {
    match s.api
    case Calling(c) =>
      var next :| CallStep(s.r, s'.r, ApiThread, c, next)
                  && s' == s.(r := s'.r, api := if next.Running? then Calling(next.call) else Idle);
      CallKeeps(s.r, s'.r, ApiThread, c, next, e, Guarded(s, e), Cleared(s, e));
      OtherWorkers(s, s', ApiThread, e);
    case MaskOff(c) => MaskOffKeeps(s, s', c, e);
    case MaskFlush(_, _) =>
    case MaskWait(_) =>
    case _ => OtherWorkers(s, s', ApiThread, e);
  }

  lemma MaskOffKeeps(s: State, s': State, c: Call, e: Event)
    requires Inv(s, e) && ApiStep(s, s') && s.api == MaskOff(c)
    ensures Inv(s', e)
  {
    var next :| CallStep(s.r, s'.r, ApiThread, c, next)
                && s' == s.(r := s'.r, api := if next.Running? then MaskOff(next.call)
                            else MaskFlush(c.event, next.ok));
    CallKeeps(s.r, s'.r, ApiThread, c, next, e, Guarded(s, e), Cleared(s, e));
    if next == Running(c.(at := Unlock(true))) {
      // the disabling write: nobody else is inside the spinlock with an older copy of the register
      forall w | w in s'.work ensures WorkerOk(s', e, w, s'.work[w]) {
        assert WorkerOk(s, e, w, s.work[w]);
      }
    } else {
      OtherWorkers(s, s', ApiThread, e);
    }
  }

  lemma {:induction false} RunInv(run: seq<State>, k: nat, e: Event)
    requires Run(run) && k < |run|
    ensures Inv(run[k], e)
  {
    if k > 0 {
      RunInv(run, k - 1, e);
      var s, s' := run[k - 1], run[k];
      assert Step(run[k - 1], run[k - 1 + 1]);
      if ApiStep(s, s') {
        ApiKeeps(s, s', e);
      } else {
        var w, after :| WorkStep(s, s', w, after);
        WorkKeeps(s, s', w, after, e);
      }
    }
  }

  // ---- The main result

  /** The API thread's step clears `e` in masked_mask. */
  ghost predicate Unmasks(s: State, s': State, e: Event) {
    s.api == UnmaskStart(e) && s'.api == UnmaskDecide(e)
  }

  lemma {:induction false} StaysSealed(run: seq<State>, i: nat, j: nat, e: Event)
    requires Run(run) && i <= j < |run| && e in run[i].sealed
    requires forall k :: i <= k < j ==> !Unmasks(run[k], run[k + 1], e)
    ensures e in run[j].sealed
    decreases j - i
  {
    if i < j {
      assert Step(run[i], run[i + 1]) && !Unmasks(run[i], run[i + 1], e);
      StaysSealed(run, i + 1, j, e);
    }
  }

  /**
   Whatever interrupts and work items do meanwhile: once masking `e` has returned, its disabling
   write having reached the hardware, the hardware enable bit of `e` is clear in every later state
   until `e` is unmasked.
   */
  lemma MaskedStaysOff(run: seq<State>, i: nat, j: nat, e: Event)
    requires Run(run) && i < j < |run|
    requires run[i].api == MaskFlush(e, true) && run[i + 1].api == Idle
    requires forall k :: i < k < j ==> !Unmasks(run[k], run[k + 1], e)
    ensures e !in run[j].r.enable
  {
    assert Step(run[i], run[i + 1]);
    assert e in run[i + 1].sealed;
    StaysSealed(run, i + 1, j, e);
    RunInv(run, j, e);
  }

  /**
   The write has to succeed: masking reports success even when it does not. In this run, with no
   interrupt at all, it fails, masking returns, and the event is still enabled.
   */
  lemma FailedWriteLeavesEnabled() returns (run: seq<State>)
    ensures Run(run) && |run| >= 2
    ensures run[|run| - 2].api == MaskFlush(0, false)
    ensures var s := run[|run| - 1]; s.api == Idle && 0 in s.r.masked && 0 in s.r.enable
  {
    var c := Call(0, Off, Lock);
    run := MaskingStarts();
    var s := run[|run| - 1];
    var r := s.r.(spinlock := Some(ApiThread));
    run := ThenCall(run, r, c, Running(c.(at := Read)));
    run := ThenCall(run, r, c.(at := Read), Running(c.(at := Write({0}))));
    run := ThenCall(run, r, c.(at := Write({0})), Running(c.(at := Unlock(false))));
    run := ThenCall(run, s.r, c.(at := Unlock(false)), Done(false));
    run := Then(run, s.(api := Idle));
  }

  lemma MaskingStarts() returns (run: seq<State>)
    ensures Run(run)
    ensures run[|run| - 1] == State(Register({0}, {0}, {0}, {0}, None), MaskOff(Call(0, Off, Lock)), map[], {}, {})
  {
    var c := Call(0, Off, Test);
    var s0 := State(Register({}, {0}, {0}, {0}, None), Idle, map[], {}, {});
    var s2 := s0.(api := MaskWait(0), r := s0.r.(masked := {0}));
    assert {} + {0} == {0};
    run := Then([s0], s0.(api := MaskStart(0)));
    run := Then(run, s2);
    run := Then(run, s2.(api := MaskOff(c)));
    run := ThenCall(run, s2.r, c, Running(c.(at := Lock)));
  }

  lemma Then(run: seq<State>, s': State) returns (longer: seq<State>)
    requires Run(run) && Step(run[|run| - 1], s')
    ensures Run(longer) && |longer| == |run| + 1 && longer[|longer| - 2] == run[|run| - 1] && longer[|longer| - 1] == s'
  {
    longer := run + [s'];
    assert Step(longer[|run| - 1], longer[|run|]);
  }

  lemma ThenCall(run: seq<State>, r': Register, c: Call, next: Progress) returns (longer: seq<State>)
    requires Run(run) && run[|run| - 1].api == MaskOff(c) && CallStep(run[|run| - 1].r, r', ApiThread, c, next)
    ensures Run(longer) && |longer| == |run| + 1
    ensures longer[|longer| - 1] == run[|run| - 1].(r := r', api := if next.Running? then MaskOff(next.call)
                                                    else MaskFlush(c.event, next.ok))
  {
    longer := Then(run, run[|run| - 1].(r := r', api := if next.Running? then MaskOff(next.call)
                                        else MaskFlush(c.event, next.ok)));
  }

  // ---- What the API operations achieve when nothing else happens and no access fails

  /** Consecutive steps of the API thread. */
  ghost predicate ApiRun(run: seq<State>) {
    run != [] && forall k :: 0 <= k < |run| - 1 ==> ApiStep(run[k], run[k + 1])
  }

  lemma ApiThen(run: seq<State>, s': State) returns (longer: seq<State>)
    requires ApiRun(run) && ApiStep(run[|run| - 1], s')
    ensures ApiRun(longer) && longer[0] == run[0] && longer[|longer| - 1] == s'
  {
    longer := run + [s'];
  }

  ghost function Doing(s: State, masking: bool, c: Call): State {
    s.(api := if masking then MaskOff(c) else Calling(c))
  }

  /** The call of an operation takes a step. */
  lemma CallThen(run: seq<State>, masking: bool, c: Call, r': Register, next: Call) returns (longer: seq<State>)
    requires ApiRun(run) && run[|run| - 1].api == (if masking then MaskOff(c) else Calling(c))
    requires CallStep(run[|run| - 1].r, r', ApiThread, c, Running(next))
    ensures ApiRun(longer) && longer[0] == run[0]
    ensures longer[|longer| - 1] == Doing(run[|run| - 1].(r := r'), masking, next)
  {
    longer := ApiThen(run, Doing(run[|run| - 1].(r := r'), masking, next));
  }

  /** The locked read and write of set_gpe_state, up to the release of the spinlock. */
  lemma CallWrites(run: seq<State>, masking: bool, c: Call) returns (longer: seq<State>)
    requires ApiRun(run) && c.at == Lock && run[|run| - 1].r.spinlock == None
    requires run[|run| - 1].api == if masking then MaskOff(c) else Calling(c)
    ensures ApiRun(longer) && longer[0] == run[0]
    ensures var s := run[|run| - 1];
            var enable := if c.goal == Off then s.r.enable - {c.event} else s.r.enable + {c.event};
            longer[|longer| - 1] == Doing(s.(r := s.r.(enable := enable, spinlock := Some(ApiThread))), masking,
                                          c.(at := Unlock(true)))
  {
    var s := run[|run| - 1];
    var r := s.r.(spinlock := Some(ApiThread));
    longer := CallThen(run, masking, c, r, c.(at := Read));
    longer := CallThen(longer, masking, c.(at := Read), r, c.(at := Write(s.r.enable)));
    var enable := if c.goal == Off then s.r.enable - {c.event} else s.r.enable + {c.event};
    longer := CallThen(longer, masking, c.(at := Write(s.r.enable)), r.(enable := enable), c.(at := Unlock(true)));
  }

  /** Masking an event switches it off, and no other. */
  lemma Masks(s: State, e: Event) returns (run: seq<State>)
    requires s.api == Idle && s.work == map[] && s.r.spinlock == None && e !in s.r.masked
    ensures ApiRun(run) && run[0] == s
    ensures run[|run| - 1] == s.(sealed := s.sealed + {e},
                                 r := s.r.(masked := s.r.masked + {e}, enable := s.r.enable - {e}))
  {
    var c := Call(e, Off, Test);
    var m := s.(r := s.r.(masked := s.r.masked + {e}));
    run := ApiThen([s], s.(api := MaskStart(e)));
    run := ApiThen(run, m.(api := MaskWait(e)));
    run := ApiThen(run, Doing(m, true, c));
    run := CallThen(run, true, c, m.r, c.(at := Lock));
    run := CallWrites(run, true, c.(at := Lock));
    var w := m.(r := m.r.(enable := m.r.enable - {e}));
    assert CallStep(run[|run| - 1].r, w.r, ApiThread, c.(at := Unlock(true)), Done(true));
    run := ApiThen(run, w.(api := MaskFlush(e, true)));
    run := ApiThen(run, w.(api := Idle, sealed := s.sealed + {e}));
  }

  /** Unmasking a current event whose interrupts are not blocked switches it on again, and no other. */
  lemma UnmasksAgain(s: State, e: Event) returns (run: seq<State>)
    requires s.api == Idle && s.r.spinlock == None && e in s.r.masked && e in s.r.current && e !in s.blocked
    ensures ApiRun(run) && run[0] == s
    ensures run[|run| - 1] == s.(sealed := s.sealed - {e},
                                 r := s.r.(masked := s.r.masked - {e}, enable := s.r.enable + {e}))
  {
    var c := Call(e, OnIfCurrent, Test);
    var m := s.(r := s.r.(masked := s.r.masked - {e}), sealed := s.sealed - {e});
    run := ApiThen([s], s.(api := UnmaskStart(e)));
    run := ApiThen(run, m.(api := UnmaskDecide(e)));
    run := ApiThen(run, Doing(m, false, c));
    run := CallThen(run, false, c, m.r, c.(at := Current));
    run := CallThen(run, false, c.(at := Current), m.r, c.(at := Lock));
    run := CallWrites(run, false, c.(at := Lock));
    var w := m.(r := m.r.(enable := m.r.enable + {e}));
    assert CallStep(run[|run| - 1].r, w.r, ApiThread, c.(at := Unlock(true)), Done(true));
    run := ApiThen(run, w.(api := Idle));
  }
}
