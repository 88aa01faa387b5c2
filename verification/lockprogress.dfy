/**
 That the global lock is obtained and handed over: what the steps of the acquire, the release and the
 interrupt handler lead to.
 */
module LockProgress {
  import opened GlobalLock

  // ---- Taking and giving back the free lock

  /** In every run, the swap of an unchanged free word takes the lock, and two steps later the acquire has returned. */
  lemma SwapTakesLock(run: seq<State>, w: bv32, k: nat, a: State, b: State, c: State)
    requires Run(run, w) && k < |run| && run[k].os.OsSwap? && run[k].os.v == run[k].word && !Owned(run[k].word)
    requires OsStep(run[k], a) && OsStep(a, b) && OsStep(b, c)
    ensures a.owner == OsOwns && a.word == Upper(w) | 2
    ensures c.os == OsOwning && c.owner == OsOwns && c.spinlock == Nobody && !c.flag && c.word == Upper(w) | 2
  {
    RunInv(run, w, k);
  }

  /** In every run, the swap of an unchanged word on release leaves the lock free, and tells firmware if it waits. */
  lemma SwapGivesLock(run: seq<State>, w: bv32, k: nat, a: State)
    requires Run(run, w) && k < |run| && run[k].os.OsReleaseSwap? && run[k].os.v == run[k].word && OsStep(run[k], a)
    ensures a.owner == NoOne && a.word == Upper(w) && a.spinlock == run[k].spinlock
    ensures if run[k].word & 1 == 0 then a.os == OsIdle
            else exists b :: OsStep(a, b) && b.os == OsIdle && b.fwRelease && b.word == Upper(w)
  {
    RunInv(run, w, k);
    if run[k].word & 1 != 0 {
      assert OsStep(a, a.(fwRelease := true, os := OsIdle));
    }
  }

  /** Consecutive steps of the operating system. */
  ghost predicate OsRun(run: seq<State>) {
    run != [] && forall k :: 0 <= k < |run| - 1 ==> OsStep(run[k], run[k + 1])
  }

  /** A free lock is taken at the first attempt, if nobody gets in between. */
  lemma FirstAttemptSucceeds(run: seq<State>, w: bv32)
    requires OsRun(run) && |run| == 7 && Inv(run[0], w) && run[0].os == OsIdle && !Owned(run[0].word)
    ensures run[6] == run[0].(os := OsOwning, owner := OsOwns, word := Upper(w) | 2, attempts := 1)
  {
    assert OsStep(run[0], run[0 + 1]) && OsStep(run[1], run[1 + 1]) && OsStep(run[2], run[2 + 1]);
    assert run[3].os == OsSwap(1, run[0].word);
    assert OsStep(run[3], run[3 + 1]) && OsStep(run[4], run[4 + 1]) && OsStep(run[5], run[5 + 1]);
  }

  /** Such steps exist. */
  lemma FirstAttempt(s: State, w: bv32) returns (run: seq<State>)
    requires Inv(s, w) && s.os == OsIdle && !Owned(s.word) && s.spinlock == Nobody
    ensures OsRun(run) && |run| == 7 && run[0] == s
  {
    var a := s.(os := OsLock(0), attempts := 0);
    var b := a.(spinlock := OsHolds, os := OsRead(1), attempts := 1);
    var c := b.(os := OsSwap(1, s.word));
    var d := c.(word := Claimed(s.word), owner := OsOwns, os := OsWon);
    var e := d.(flag := false, os := OsUnlock(true));
    run := [s, a, b, c, d, e, e.(spinlock := Nobody, os := OsOwning)];
  }

  /** A release that nobody gets in between gives the lock back, with the upper bits as they were. */
  lemma ReleaseSucceeds(run: seq<State>, w: bv32)
    requires OsRun(run) && |run| == 4 && Inv(run[0], w) && run[0].os == OsOwning
    ensures run[3] == run[0].(os := if Pending(run[0].word) then OsNotify else OsIdle, owner := NoOne, word := Upper(w))
  {
    assert OsStep(run[0], run[0 + 1]) && OsStep(run[1], run[1 + 1]) && OsStep(run[2], run[2 + 1]);
  }

  // ---- Waiting ends

  ghost function Stage(fw: Fw, word: bv32): nat {
    match fw
    case FwOwning => 5
    case FwReleasing => 4
    case FwReleaseSwap(v) => if v != word then 3 else 2
    case FwNotify => 1
    case _ => 0
  }

  ghost function Phase(irq: Irq): nat {
    match irq
    case IrqIdle => 0
    case IrqUnlock => 1
    case IrqSignalled => 2
    case IrqTest => 3
    case IrqEntered => 4
  }

  /** How far the waiting operating system is from its wake-up. */
  ghost function Distance(s: State): nat {
    if s.events > 0 then 0 else 20 * Stage(s.fw, s.word) + (if s.release then 10 else 0) + Phase(s.irq)
  }

  /** The steps that hand the lock over: firmware's release, the interrupt handler, and the wake-up itself. */
  ghost predicate HandoverStep(s: State, s': State) {
    OsStep(s, s') || IrqStep(s, s') || (FwStep(s, s') && (FwHasLock(s.fw) || s.fw.FwNotify?))
  }

  lemma ReleaseAdvances(s: State, w: bv32) returns (s': State)
    requires Inv(s, w) && s.os.OsWaiting? && s.events == 0 && (FwHasLock(s.fw) || s.fw.FwNotify?)
    ensures FwStep(s, s') && s'.os == s.os && Distance(s') < Distance(s)
  {
    s' := match s.fw
      case FwOwning => s.(fw := FwReleasing)
      case FwReleasing => s.(fw := FwReleaseSwap(s.word))
      case FwReleaseSwap(v) =>
        if s.word != v then s.(fw := FwReleaseSwap(s.word))
        else s.(word := Released(v), owner := NoOne, fw := if Pending(v) then FwNotify else FwIdle)
      case _ => s.(release := true, fw := FwIdle);
  }

  lemma HandlerAdvances(s: State, w: bv32) returns (s': State)
    requires Inv(s, w) && s.os.OsWaiting? && s.events == 0 && !FwHasLock(s.fw) && !s.fw.FwNotify?
    ensures IrqStep(s, s') && s'.os == s.os && Distance(s') < Distance(s)
  {
    s' := match s.irq
      case IrqIdle => s.(release := false, irq := IrqEntered)
      case IrqEntered => s.(spinlock := IrqHolds, irq := IrqTest)
      case IrqTest => s.(events := s.events + 1, irq := IrqSignalled)
      case IrqSignalled => s.(flag := false, irq := IrqUnlock)
      case IrqUnlock => s.(spinlock := Nobody, irq := IrqIdle);
  }

  /** Steps that hand the lock over, until the operating system is awake. */
  ghost predicate Handover(run: seq<State>) {
    && run != [] && (forall k :: 0 <= k < |run| - 1 ==> HandoverStep(run[k], run[k + 1]))
    && run[|run| - 1].os.OsLock?
  }

  /** From every state in which the operating system waits, the release of the owner and its interrupt wake it up. */
  lemma {:induction false} WaiterWakes(s: State, w: bv32) returns (run: seq<State>)
    requires Inv(s, w) && s.os.OsWaiting?
    ensures Handover(run) && run[0] == s && |run| <= Distance(s) + 2
    decreases Distance(s)
  {
    if s.events > 0 {
      var s' := s.(events := s.events - 1, os := OsLock(s.os.spins));
      run := [s, s'];
    } else {
      var s': State;
      if FwHasLock(s.fw) || s.fw.FwNotify? {
        s' := ReleaseAdvances(s, w);
      } else {
        s' := HandlerAdvances(s, w);
      }
      StepKeeps(s, s', w);
      var rest := WaiterWakes(s', w);
      run := [s] + rest;
      forall k | 0 <= k < |run| - 1 ensures HandoverStep(run[k], run[k + 1]) {
        assert k > 0 ==> HandoverStep(rest[k - 1], rest[k - 1 + 1]);
      }
    }
  }

  /** Every wait in every run can end within 116 such steps. */
  lemma EveryWaitCanEnd(run: seq<State>, w: bv32, k: nat) returns (rest: seq<State>)
    requires Run(run, w) && k < |run| && run[k].os.OsWaiting?
    ensures Handover(rest) && rest[0] == run[k] && |rest| <= 116
  {
    RunInv(run, w, k);
    rest := WaiterWakes(run[k], w);
  }
}
