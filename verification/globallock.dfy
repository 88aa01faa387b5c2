/**
 The ACPI global lock shared with firmware (section 5.2.10.1 of the ACPI specification): the
 operating system's acquire and release, the firmware's symmetric ones, and the interrupt that
 announces a release, under every interleaving of their atomic steps.
 */
module GlobalLock {
  const GLOBAL_LOCK_PENDING: bv32 := 1
  const GLOBAL_LOCK_OWNED: bv32 := 2
  const GLOBAL_LOCK_MASK: bv32 := 3
  const MAX_SPINS: nat := 0xFFFF

  predicate Owned(w: bv32) { w & GLOBAL_LOCK_OWNED != 0 }
  predicate Pending(w: bv32) { w & GLOBAL_LOCK_PENDING != 0 }

  /** The bits that do not belong to the lock. */
  function Upper(w: bv32): bv32 { w & !GLOBAL_LOCK_MASK }

  /** The value try_acquire computes from the value it read. */
  function Claimed(v: bv32): bv32 {
    Upper(v) | GLOBAL_LOCK_OWNED | (if Owned(v) then GLOBAL_LOCK_PENDING else 0)
  }

  /** The value do_release computes from the value it read. */
  function Released(v: bv32): bv32 { Upper(v) }

  lemma ClaimedBits(v: bv32)
    ensures Owned(Claimed(v)) && (Pending(Claimed(v)) <==> Owned(v)) && Upper(Claimed(v)) == Upper(v)
  {}

  lemma ReleasedBits(v: bv32)
    ensures !Owned(Released(v)) && !Pending(Released(v)) && Upper(Released(v)) == Upper(v)
  {}

  // ---- State

  /** The operating system inside uacpi_acquire_global_lock_from_firmware or the release. */
  datatype Os =
    | OsIdle
    | OsLock(spins: nat)            // about to take the spinlock
    | OsRead(spins: nat)            // attempt number `spins`: about to read the word
    | OsSwap(spins: nat, v: bv32)   // about to compare-and-swap
    | OsFailed(spins: nat)          // firmware owns the lock; about to set global_lock_pending
    | OsFlagged(spins: nat)         // about to drop the spinlock
    | OsWaiting(spins: nat)         // in uacpi_kernel_wait_for_event
    | OsWon                         // about to clear global_lock_pending
    | OsGaveUp                      // about to clear global_lock_pending after the last attempt
    | OsUnlock(won: bool)           // about to drop the spinlock
    | OsOwning
    | OsReleasing
    | OsReleaseSwap(v: bv32)
    | OsNotify                      // about to write GBL_RLS

  datatype Fw =
    | FwIdle | FwRead | FwSwap(v: bv32) | FwWaiting | FwOwning | FwReleasing | FwReleaseSwap(v: bv32) | FwNotify

  /** The interrupt handler handle_global_lock. */
  datatype Irq = IrqIdle | IrqEntered | IrqTest | IrqSignalled | IrqUnlock

  datatype Holder = Nobody | OsHolds | IrqHolds
  datatype Owner = NoOne | OsOwns | FwOwns

  datatype State = State(
    word: bv32,           // facs->global_lock
    spinlock: Holder,     // global_lock_spinlock
    flag: bool,           // global_lock_pending
    events: nat,          // counter of global_lock_event
    release: bool,        // a release interrupt is outstanding
    fwRelease: bool,      // firmware has been told of a release
    os: Os, fw: Fw, irq: Irq,
    owner: Owner,         // who won the last claim and has not released since
    attempts: nat)        // how often the current or last acquire has tried, counted without a limit

  // ---- Steps

  ghost predicate OsStep(s: State, s': State) {
    match s.os
    case OsIdle => s' == s.(os := OsLock(0), attempts := 0)
    case OsLock(n) =>
      s.spinlock == Nobody && s' == s.(spinlock := OsHolds, os := OsRead((n + 1) % 0x10000), attempts := s.attempts + 1)
    case OsRead(n) => s' == s.(os := OsSwap(n, s.word))
    case OsSwap(n, v) =>
      if s.word != v then s' == s.(os := OsSwap(n, s.word))
      else if !Owned(v) then s' == s.(word := Claimed(v), owner := OsOwns, os := OsWon)
      else if n == MAX_SPINS then s' == s.(word := Claimed(v), os := OsGaveUp)
      else s' == s.(word := Claimed(v), os := OsFailed(n))
    case OsFailed(n) => s' == s.(flag := true, os := OsFlagged(n))
    case OsFlagged(n) => s' == s.(spinlock := Nobody, os := OsWaiting(n))
    case OsWaiting(n) => s.events > 0 && s' == s.(events := s.events - 1, os := OsLock(n))
    case OsWon => s' == s.(flag := false, os := OsUnlock(true))
    case OsGaveUp => s' == s.(flag := false, os := OsUnlock(false))
    case OsUnlock(won) => s' == s.(spinlock := Nobody, os := if won then OsOwning else OsIdle)
    case OsOwning => s' == s.(os := OsReleasing)
    case OsReleasing => s' == s.(os := OsReleaseSwap(s.word))
    case OsReleaseSwap(v) =>
      if s.word != v then s' == s.(os := OsReleaseSwap(s.word))
      else s' == s.(word := Released(v), owner := NoOne, os := if Pending(v) then OsNotify else OsIdle)
    case OsNotify => s' == s.(fwRelease := true, os := OsIdle)
  }

  ghost predicate FwStep(s: State, s': State) {
    match s.fw
    case FwIdle => s' == s.(fw := FwRead)
    case FwRead => s' == s.(fw := FwSwap(s.word))
    case FwSwap(v) =>
      if s.word != v then s' == s.(fw := FwSwap(s.word))
      else if !Owned(v) then s' == s.(word := Claimed(v), owner := FwOwns, fw := FwOwning)
      else s' == s.(word := Claimed(v), fw := FwWaiting)
    case FwWaiting => s.fwRelease && s' == s.(fwRelease := false, fw := FwRead)
    case FwOwning => s' == s.(fw := FwReleasing)
    case FwReleasing => s' == s.(fw := FwReleaseSwap(s.word))
    case FwReleaseSwap(v) =>
      if s.word != v then s' == s.(fw := FwReleaseSwap(s.word))
      else s' == s.(word := Released(v), owner := NoOne, fw := if Pending(v) then FwNotify else FwIdle)
    case FwNotify => s' == s.(release := true, fw := FwIdle)
  }

  ghost predicate IrqStep(s: State, s': State) {
    match s.irq
    case IrqIdle => s.release && s' == s.(release := false, irq := IrqEntered)
    case IrqEntered => s.spinlock == Nobody && s' == s.(spinlock := IrqHolds, irq := IrqTest)
    case IrqTest => if s.flag then s' == s.(events := s.events + 1, irq := IrqSignalled) else s' == s.(irq := IrqUnlock)
    case IrqSignalled => s' == s.(flag := false, irq := IrqUnlock)
    case IrqUnlock => s' == s.(spinlock := Nobody, irq := IrqIdle)
  }

  ghost predicate Step(s: State, s': State) {
    OsStep(s, s') || FwStep(s, s') || IrqStep(s, s')
  }

  ghost predicate Init(s: State, w: bv32) {
    !Owned(w) && s == State(w, Nobody, false, 0, false, false, OsIdle, FwIdle, IrqIdle, NoOne, 0)
  }

  ghost predicate Run(run: seq<State>, w: bv32) {
    && run != [] && Init(run[0], w)
    && (forall k :: 0 <= k < |run| - 1 ==> Step(run[k], run[k + 1]))
  }

  // ---- The invariant

  ghost predicate OsHasLock(os: Os) {
    os.OsWon? || (os.OsUnlock? && os.won) || os.OsOwning? || os.OsReleasing? || os.OsReleaseSwap?
  }

  ghost predicate FwHasLock(fw: Fw) {
    fw.FwOwning? || fw.FwReleasing? || fw.FwReleaseSwap?
  }

  ghost predicate OsHasSpinlock(os: Os) {
    os.OsRead? || os.OsSwap? || os.OsFailed? || os.OsFlagged? || os.OsWon? || os.OsGaveUp? || os.OsUnlock?
  }

  ghost predicate IrqHasSpinlock(irq: Irq) {
    irq.IrqTest? || irq.IrqSignalled? || irq.IrqUnlock?
  }

  ghost predicate Ownership(s: State, w: bv32) {
    && Upper(s.word) == Upper(w)
    && (Owned(s.word) <==> s.owner != NoOne)
    && (OsHasLock(s.os) <==> s.owner == OsOwns)
    && (FwHasLock(s.fw) <==> s.owner == FwOwns)
  }

  ghost predicate Locking(s: State) {
    && (s.spinlock == OsHolds <==> OsHasSpinlock(s.os))
    && (s.spinlock == IrqHolds <==> IrqHasSpinlock(s.irq))
  }

  /** How the flag and the event counter go together. */
  ghost predicate Signalling(s: State) {
    match s.os
    case OsFlagged(_) => s.flag && s.events == 0
    case OsWaiting(_) =>
      || (s.flag && s.events == 0 && !s.irq.IrqSignalled?)
      || (s.events == 1 && (s.flag <==> s.irq.IrqSignalled?))
    case OsLock(_) => s.events == 0 && (s.flag <==> s.irq.IrqSignalled?)
    case _ => !s.flag && s.events == 0 && !s.irq.IrqSignalled?
  }

  /** A release is on its way to the waiting operating system, or firmware still owns the lock and will announce it. */
  ghost predicate OsWillWake(s: State) {
    || (s.owner == FwOwns && Pending(s.word))
    || s.fw.FwNotify? || s.release
    || s.irq.IrqEntered? || s.irq.IrqTest?
    || s.events > 0
  }

  ghost predicate FwWillWake(s: State) {
    || (s.owner == OsOwns && Pending(s.word))
    || s.os.OsNotify? || s.fwRelease
  }

  ghost predicate Wakeups(s: State) {
    && (s.os.OsFailed? || s.os.OsFlagged? || s.os.OsWaiting? ==> OsWillWake(s))
    && (s.fw.FwWaiting? ==> FwWillWake(s))
  }

  /** The 16-bit counter has not wrapped: it is the number of attempts, and the last one is number 65535. */
  ghost predicate Attempts(os: Os, attempts: nat) {
    match os
    case OsLock(n) => attempts == n < MAX_SPINS
    case OsRead(n) => 0 < attempts == n <= MAX_SPINS
    case OsSwap(n, _) => 0 < attempts == n <= MAX_SPINS
    case OsFailed(n) => 0 < attempts == n < MAX_SPINS
    case OsFlagged(n) => 0 < attempts == n < MAX_SPINS
    case OsWaiting(n) => 0 < attempts == n < MAX_SPINS
    case OsGaveUp => attempts == MAX_SPINS
    case OsUnlock(won) => attempts <= MAX_SPINS && (!won ==> attempts == MAX_SPINS)
    case _ => attempts <= MAX_SPINS
  }

  ghost predicate Inv(s: State, w: bv32) {
    Ownership(s, w) && Locking(s) && Signalling(s) && Wakeups(s) && Attempts(s.os, s.attempts)
  }

  // ---- Every step keeps it

  lemma OsStarts(s: State, s': State, w: bv32)
    requires Inv(s, w) && OsStep(s, s') && s.os.OsIdle?
    ensures Inv(s', w)
  {}

  lemma OsLocks(s: State, s': State, w: bv32)
    requires Inv(s, w) && OsStep(s, s') && s.os.OsLock?
    ensures Inv(s', w)
  {}

  lemma OsReadsWord(s: State, s': State, w: bv32)
    requires Inv(s, w) && OsStep(s, s') && s.os.OsRead?
    ensures Inv(s', w)
  {}

  lemma OsRetries(s: State, s': State, w: bv32)
    requires Inv(s, w) && OsStep(s, s') && s.os.OsSwap? && s.word != s.os.v
    ensures Inv(s', w)
  {}

  lemma OsWins(s: State, s': State, w: bv32)
    requires Inv(s, w) && OsStep(s, s') && s.os.OsSwap? && s.word == s.os.v && !Owned(s.word)
    ensures Inv(s', w)
  {
    ClaimedBits(s.word);
  }

  lemma OsLoses(s: State, s': State, w: bv32)
    requires Inv(s, w) && OsStep(s, s') && s.os.OsSwap? && s.word == s.os.v && Owned(s.word) && s.os.spins < MAX_SPINS
    ensures Inv(s', w)
  {
    ClaimedBits(s.word);
  }

  lemma OsLosesLast(s: State, s': State, w: bv32)
    requires Inv(s, w) && OsStep(s, s') && s.os.OsSwap? && s.word == s.os.v && Owned(s.word) && s.os.spins == MAX_SPINS
    ensures Inv(s', w)
  {
    ClaimedBits(s.word);
  }

  lemma OsFlags(s: State, s': State, w: bv32)
    requires Inv(s, w) && OsStep(s, s') && s.os.OsFailed?
    ensures Inv(s', w)
  {}

  lemma OsUnlocksToWait(s: State, s': State, w: bv32)
    requires Inv(s, w) && OsStep(s, s') && s.os.OsFlagged?
    ensures Inv(s', w)
  {}

  lemma OsWakes(s: State, s': State, w: bv32)
    requires Inv(s, w) && OsStep(s, s') && (s.os.OsWaiting?)
    ensures Inv(s', w)
  {}

  lemma OsClearsFlag(s: State, s': State, w: bv32)
    requires Inv(s, w) && OsStep(s, s') && s.os.OsWon?
    ensures Inv(s', w)
  {}

  lemma OsClearsLast(s: State, s': State, w: bv32)
    requires Inv(s, w) && OsStep(s, s') && s.os.OsGaveUp?
    ensures Inv(s', w)
  {}

  lemma OsLeavesOwning(s: State, s': State, w: bv32)
    requires Inv(s, w) && OsStep(s, s') && s.os == OsUnlock(true)
    ensures Inv(s', w)
  {}

  lemma OsLeavesEmpty(s: State, s': State, w: bv32)
    requires Inv(s, w) && OsStep(s, s') && s.os == OsUnlock(false)
    ensures Inv(s', w)
  {}

  lemma OsBeginsRelease(s: State, s': State, w: bv32)
    requires Inv(s, w) && OsStep(s, s') && s.os.OsOwning?
    ensures Inv(s', w)
  {}

  lemma OsReads(s: State, s': State, w: bv32)
    requires Inv(s, w) && OsStep(s, s') && s.os.OsReleasing?
    ensures Inv(s', w)
  {}

  lemma OsReleaseRetries(s: State, s': State, w: bv32)
    requires Inv(s, w) && OsStep(s, s') && s.os.OsReleaseSwap? && s.word != s.os.v
    ensures Inv(s', w)
  {}

  lemma OsReleases(s: State, s': State, w: bv32)
    requires Inv(s, w) && OsStep(s, s') && s.os.OsReleaseSwap? && s.word == s.os.v
    ensures Inv(s', w)
  {
    ReleasedBits(s.word);
  }

  lemma OsNotifies(s: State, s': State, w: bv32)
    requires Inv(s, w) && OsStep(s, s') && (s.os.OsNotify?)
    ensures Inv(s', w)
  {}

  lemma FwStarts(s: State, s': State, w: bv32)
    requires Inv(s, w) && FwStep(s, s') && s.fw.FwIdle?
    ensures Inv(s', w)
  {}

  lemma FwReadsWord(s: State, s': State, w: bv32)
    requires Inv(s, w) && FwStep(s, s') && s.fw.FwRead?
    ensures Inv(s', w)
  {}

  lemma FwRetries(s: State, s': State, w: bv32)
    requires Inv(s, w) && FwStep(s, s') && s.fw.FwSwap? && s.word != s.fw.v
    ensures Inv(s', w)
  {}

  lemma FwWins(s: State, s': State, w: bv32)
    requires Inv(s, w) && FwStep(s, s') && s.fw.FwSwap? && s.word == s.fw.v && !Owned(s.word)
    ensures Inv(s', w)
  {
    ClaimedBits(s.word);
  }

  lemma FwLoses(s: State, s': State, w: bv32)
    requires Inv(s, w) && FwStep(s, s') && s.fw.FwSwap? && s.word == s.fw.v && Owned(s.word)
    ensures Inv(s', w)
  {
    ClaimedBits(s.word);
  }

  lemma FwWakes(s: State, s': State, w: bv32)
    requires Inv(s, w) && FwStep(s, s') && (s.fw.FwWaiting?)
    ensures Inv(s', w)
  {}

  lemma FwBeginsRelease(s: State, s': State, w: bv32)
    requires Inv(s, w) && FwStep(s, s') && s.fw.FwOwning?
    ensures Inv(s', w)
  {}

  lemma FwReads(s: State, s': State, w: bv32)
    requires Inv(s, w) && FwStep(s, s') && s.fw.FwReleasing?
    ensures Inv(s', w)
  {}

  lemma FwReleaseRetries(s: State, s': State, w: bv32)
    requires Inv(s, w) && FwStep(s, s') && s.fw.FwReleaseSwap? && s.word != s.fw.v
    ensures Inv(s', w)
  {}

  lemma FwReleases(s: State, s': State, w: bv32)
    requires Inv(s, w) && FwStep(s, s') && s.fw.FwReleaseSwap? && s.word == s.fw.v
    ensures Inv(s', w)
  {
    ReleasedBits(s.word);
  }

  lemma FwNotifies(s: State, s': State, w: bv32)
    requires Inv(s, w) && FwStep(s, s') && (s.fw.FwNotify?)
    ensures Inv(s', w)
  {}

  lemma IrqEnters(s: State, s': State, w: bv32)
    requires Inv(s, w) && IrqStep(s, s') && (s.irq.IrqIdle? || s.irq.IrqEntered?)
    ensures Inv(s', w)
  {}

  lemma IrqTests(s: State, s': State, w: bv32)
    requires Inv(s, w) && IrqStep(s, s') && (s.irq.IrqTest?)
    ensures Inv(s', w)
  {}

  lemma IrqLeaves(s: State, s': State, w: bv32)
    requires Inv(s, w) && IrqStep(s, s') && (s.irq.IrqSignalled? || s.irq.IrqUnlock?)
    ensures Inv(s', w)
  {}

  lemma OsAcquireKeeps(s: State, s': State, w: bv32)
    requires Inv(s, w) && OsStep(s, s') && (s.os.OsIdle? || s.os.OsLock? || s.os.OsRead? || s.os.OsSwap?)
    ensures Inv(s', w)
  {
    if s.os.OsIdle? {
      OsStarts(s, s', w);
    } else if s.os.OsLock? {
      OsLocks(s, s', w);
    } else if s.os.OsRead? {
      OsReadsWord(s, s', w);
    } else if s.word != s.os.v {
      OsRetries(s, s', w);
    } else if !Owned(s.word) {
      OsWins(s, s', w);
    } else if s.os.spins == MAX_SPINS {
      OsLosesLast(s, s', w);
    } else {
      OsLoses(s, s', w);
    }
  }

  lemma OsWaitKeeps(s: State, s': State, w: bv32)
    requires Inv(s, w) && OsStep(s, s')
    requires s.os.OsFailed? || s.os.OsFlagged? || s.os.OsWaiting? || s.os.OsWon? || s.os.OsGaveUp? || s.os.OsUnlock?
    ensures Inv(s', w)
  {
    if s.os.OsFailed? {
      OsFlags(s, s', w);
    } else if s.os.OsFlagged? {
      OsUnlocksToWait(s, s', w);
    } else if s.os.OsWaiting? {
      OsWakes(s, s', w);
    } else if s.os.OsWon? {
      OsClearsFlag(s, s', w);
    } else if s.os.OsGaveUp? {
      OsClearsLast(s, s', w);
    } else if s.os.won {
      OsLeavesOwning(s, s', w);
    } else {
      OsLeavesEmpty(s, s', w);
    }
  }

  lemma OsReleaseKeeps(s: State, s': State, w: bv32)
    requires Inv(s, w) && OsStep(s, s')
    requires s.os.OsOwning? || s.os.OsReleasing? || s.os.OsReleaseSwap? || s.os.OsNotify?
    ensures Inv(s', w)
  {
    if s.os.OsOwning? {
      OsBeginsRelease(s, s', w);
    } else if s.os.OsReleasing? {
      OsReads(s, s', w);
    } else if s.os.OsNotify? {
      OsNotifies(s, s', w);
    } else if s.word != s.os.v {
      OsReleaseRetries(s, s', w);
    } else {
      OsReleases(s, s', w);
    }
  }

  lemma FwAcquireKeeps(s: State, s': State, w: bv32)
    requires Inv(s, w) && FwStep(s, s') && (s.fw.FwIdle? || s.fw.FwRead? || s.fw.FwSwap? || s.fw.FwWaiting?)
    ensures Inv(s', w)
  {
    if s.fw.FwIdle? {
      FwStarts(s, s', w);
    } else if s.fw.FwRead? {
      FwReadsWord(s, s', w);
    } else if s.fw.FwWaiting? {
      FwWakes(s, s', w);
    } else if s.word != s.fw.v {
      FwRetries(s, s', w);
    } else if Owned(s.word) {
      FwLoses(s, s', w);
    } else {
      FwWins(s, s', w);
    }
  }

  lemma FwReleaseKeeps(s: State, s': State, w: bv32)
    requires Inv(s, w) && FwStep(s, s')
    requires (s.fw.FwOwning? || s.fw.FwReleasing? || s.fw.FwReleaseSwap? || s.fw.FwNotify?)
    ensures Inv(s', w)
  {
    if s.fw.FwOwning? {
      FwBeginsRelease(s, s', w);
    } else if s.fw.FwReleasing? {
      FwReads(s, s', w);
    } else if s.fw.FwNotify? {
      FwNotifies(s, s', w);
    } else if s.word != s.fw.v {
      FwReleaseRetries(s, s', w);
    } else {
      FwReleases(s, s', w);
    }
  }

  lemma IrqKeeps(s: State, s': State, w: bv32)
    requires Inv(s, w) && IrqStep(s, s')
    ensures Inv(s', w)
  {
    if s.irq.IrqIdle? || s.irq.IrqEntered? {
      IrqEnters(s, s', w);
    } else if s.irq.IrqTest? {
      IrqTests(s, s', w);
    } else {
      IrqLeaves(s, s', w);
    }
  }

  lemma StepKeeps(s: State, s': State, w: bv32)
    requires Inv(s, w) && Step(s, s')
    ensures Inv(s', w)
  {
    if OsStep(s, s') {
      if s.os.OsIdle? || s.os.OsLock? || s.os.OsRead? || s.os.OsSwap? {
        OsAcquireKeeps(s, s', w);
      } else if s.os.OsOwning? || s.os.OsReleasing? || s.os.OsReleaseSwap? || s.os.OsNotify? {
        OsReleaseKeeps(s, s', w);
      } else {
        OsWaitKeeps(s, s', w);
      }
    } else if FwStep(s, s') {
      if s.fw.FwIdle? || s.fw.FwRead? || s.fw.FwSwap? || s.fw.FwWaiting? {
        FwAcquireKeeps(s, s', w);
      } else {
        FwReleaseKeeps(s, s', w);
      }
    } else {
      IrqKeeps(s, s', w);
    }
  }

  lemma {:induction false} RunInv(run: seq<State>, w: bv32, k: nat)
    requires Run(run, w) && k < |run|
    ensures Inv(run[k], w)
  {
    if k > 0 {
      RunInv(run, w, k - 1);
      assert Step(run[k - 1], run[k - 1 + 1]);
      StepKeeps(run[k - 1], run[k], w);
    }
  }

  /**
   In every state of every run: operating system and firmware never own the lock together; the
   bits above the lock never change; whoever waits has a wake-up coming; and an acquire makes at
   most 65535 attempts and gives up only after that many.
   */
  lemma GlobalLockSafe(run: seq<State>, w: bv32, k: nat)
    requires Run(run, w) && k < |run|
    ensures !(OsHasLock(run[k].os) && FwHasLock(run[k].fw))
    ensures OsHasLock(run[k].os) || FwHasLock(run[k].fw) <==> Owned(run[k].word)
    ensures Upper(run[k].word) == Upper(w)
    ensures run[k].os.OsWaiting? ==> OsWillWake(run[k])
    ensures run[k].fw.FwWaiting? ==> FwWillWake(run[k])
    ensures run[k].attempts <= 65535
    ensures run[k].os.OsGaveUp? || run[k].os == OsUnlock(false) ==> run[k].attempts == 65535
  {
    RunInv(run, w, k);
  }

  /**
   A release notification is never spurious for a waiter: whenever the operating system waits and
   the handler reaches its test, the handler signals the event.
   */
  lemma NotificationReachesWaiter(run: seq<State>, w: bv32, k: nat, s': State)
    requires Run(run, w) && k < |run| && run[k].os.OsWaiting? && run[k].irq.IrqTest? && run[k].events == 0
    requires IrqStep(run[k], s')
    ensures s'.events == 1
  {
    RunInv(run, w, k);
  }
}
