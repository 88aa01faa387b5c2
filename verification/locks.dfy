/**
 The recursive lock: any number of threads acquiring and releasing it, every interleaving of
 their steps, with the native mutex free to fail.
 */
module RecursiveLock {
  datatype Option<T> = None | Some(value: T)

  /** Where a thread stands inside uacpi_recursive_lock_acquire or _release. */
  datatype Pc =
    | Outside      // in neither function
    | Test         // about to compare the owner with itself
    | Deeper       // about to increment the depth
    | Native       // about to acquire the native mutex
    | SetOwner     // about to store itself as the owner
    | SetDepth     // about to set the depth to 1
    | Decrement    // about to decrement the depth
    | ClearOwner   // about to store no owner
    | Drop         // about to release the native mutex

  /** `held` counts the acquires of the thread that it has not released yet. */
  datatype Thread = Thread(pc: Pc, held: nat)

  datatype State = State(mutex: Option<nat>, owner: Option<nat>, depth: int, threads: map<nat, Thread>) {
    function With(t: nat, pc: Pc, held: nat): State {
      this.(threads := threads[t := Thread(pc, held)])
    }
  }

  /** One step of thread `t`. A thread releases only what it has acquired. */
  ghost predicate StepOf(s: State, s': State, t: nat) {
    t in s.threads && var h := s.threads[t].held;
    match s.threads[t].pc
    case Outside => s' == s.With(t, Test, h) || (h > 0 && s' == s.With(t, Decrement, h))
    case Test => s' == s.With(t, if s.owner == Some(t) then Deeper else Native, h)
    case Deeper => s' == s.With(t, Outside, h + 1).(depth := s.depth + 1)
    case Native =>
      || (s.mutex == None && s' == s.With(t, SetOwner, h).(mutex := Some(t)))
      || s' == s.With(t, Outside, h)  // the native mutex reported an error
    case SetOwner => s' == s.With(t, SetDepth, h).(owner := Some(t))
    case SetDepth => s' == s.With(t, Outside, h + 1).(depth := 1)
    case Decrement =>
      h > 0 && s' == s.With(t, if s.depth > 1 then Outside else ClearOwner, h - 1).(depth := s.depth - 1)
    case ClearOwner => s' == s.With(t, Drop, h).(owner := None)
    case Drop => s' == s.With(t, Outside, h).(mutex := None)
  }

  ghost predicate Step(s: State, s': State) {
    exists t :: StepOf(s, s', t)
  }

  ghost predicate Init(s: State) {
    && s.mutex == None && s.owner == None && s.depth == 0
    && (forall t :: t in s.threads ==> s.threads[t] == Thread(Outside, 0))
  }

  ghost predicate Run(run: seq<State>) {
    && run != [] && Init(run[0])
    && (forall k :: 0 <= k < |run| - 1 ==> Step(run[k], run[k + 1]))
  }

  /** What the lock's fields say about thread `t`. */
  ghost predicate ThreadOk(s: State, t: nat, x: Thread) {
    match x.pc
    case Outside => Level(s, t, x.held)
    case Test => Level(s, t, x.held)
    case Deeper => x.held > 0 && Level(s, t, x.held)
    case Decrement => x.held > 0 && Level(s, t, x.held)
    case Native => x.held == 0 && Level(s, t, 0)
    case SetOwner => x.held == 0 && s.mutex == Some(t) && s.owner == None
    case SetDepth => x.held == 0 && s.mutex == Some(t) && s.owner == Some(t)
    case ClearOwner => x.held == 0 && s.mutex == Some(t) && s.owner == Some(t) && s.depth == 0
    case Drop => x.held == 0 && s.mutex == Some(t) && s.owner == None
  }

  /** The thread holds nothing, or it is holder and owner and the depth is its count. */
  ghost predicate Level(s: State, t: nat, held: nat) {
    if held == 0 then s.mutex != Some(t) && s.owner != Some(t)
    else s.mutex == Some(t) && s.owner == Some(t) && s.depth == held
  }

  ghost predicate Inv(s: State) {
    && (forall t :: t in s.threads ==> ThreadOk(s, t, s.threads[t]))
    && (s.owner.Some? ==> s.mutex == s.owner)
    && (s.mutex.Some? ==> s.mutex.value in s.threads)
  }

  lemma StepInv(s: State, s': State, t: nat)
    requires Inv(s) && StepOf(s, s', t)
    ensures Inv(s')
  {
    assert ThreadOk(s, t, s.threads[t]);
    forall u | u in s'.threads ensures ThreadOk(s', u, s'.threads[u]) {
      if u != t {
        OthersKeep(s, s', t, u);
      } else {
        SelfKeeps(s, s', t);
      }
    }
    LinkKeeps(s, s', t);
  }

  lemma SelfKeeps(s: State, s': State, t: nat)
    requires Inv(s) && StepOf(s, s', t) && ThreadOk(s, t, s.threads[t])
    ensures ThreadOk(s', t, s'.threads[t])
  {}

  lemma OthersKeep(s: State, s': State, t: nat, u: nat)
    requires Inv(s) && StepOf(s, s', t) && ThreadOk(s, t, s.threads[t])
    requires u in s.threads && u != t && ThreadOk(s, u, s.threads[u])
    ensures u in s'.threads && ThreadOk(s', u, s'.threads[u])
  {}

  lemma LinkKeeps(s: State, s': State, t: nat)
    requires Inv(s) && StepOf(s, s', t) && ThreadOk(s, t, s.threads[t])
    ensures s'.owner.Some? ==> s'.mutex == s'.owner
    ensures s'.mutex.Some? ==> s'.mutex.value in s'.threads
  {}

  lemma {:induction false} RunInv(run: seq<State>, k: nat)
    requires Run(run) && k < |run|
    ensures Inv(run[k])
  {
    if k > 0 {
      RunInv(run, k - 1);
      assert Step(run[k - 1], run[k - 1 + 1]);
      var t :| StepOf(run[k - 1], run[k], t);
      StepInv(run[k - 1], run[k], t);
    }
  }

  /**
   In every state of every run at most one thread holds the lock; it is the recorded owner and
   the holder of the native mutex, and the depth is the number of its unmatched acquires.
   */
  lemma RecursiveLockSafe(run: seq<State>, k: nat, t: nat, u: nat)
    requires Run(run) && k < |run|
    requires t in run[k].threads && u in run[k].threads && run[k].threads[t].held > 0
    ensures run[k].threads[u].held > 0 ==> t == u
    ensures run[k].owner == Some(t) && run[k].mutex == Some(t) && run[k].depth == run[k].threads[t].held
  {
    RunInv(run, k);
    assert ThreadOk(run[k], t, run[k].threads[t]) && ThreadOk(run[k], u, run[k].threads[u]);
  }

  // ---- What the lock does for a thread that nobody gets in between

  /** Consecutive steps of thread `t`. */
  ghost predicate RunOf(run: seq<State>, t: nat) {
    run != [] && forall k :: 0 <= k < |run| - 1 ==> StepOf(run[k], run[k + 1], t)
  }

  /** One more step. */
  lemma Then(run: seq<State>, t: nat, s': State) returns (longer: seq<State>)
    requires RunOf(run, t) && StepOf(run[|run| - 1], s', t)
    ensures RunOf(longer, t) && longer[0] == run[0] && longer[|longer| - 1] == s'
  {
    longer := run + [s'];
  }

  /** A thread can take the free lock. */
  lemma Acquires(s: State, t: nat) returns (run: seq<State>)
    requires Inv(s) && t in s.threads && s.threads[t] == Thread(Outside, 0) && s.mutex == None
    ensures RunOf(run, t) && run[0] == s
    ensures run[|run| - 1] == s.With(t, Outside, 1).(mutex := Some(t), owner := Some(t), depth := 1)
  {
    var a := s.With(t, Test, 0);
    var b := a.With(t, Native, 0);
    var c := b.With(t, SetOwner, 0).(mutex := Some(t));
    var d := c.With(t, SetDepth, 0).(owner := Some(t));
    var e := d.With(t, Outside, 1).(depth := 1);
    run := Then([s], t, a);
    run := Then(run, t, b);
    run := Then(run, t, c);
    run := Then(run, t, d);
    run := Then(run, t, e);
    assert e.threads == s.With(t, Outside, 1).threads;
  }

  /** It can take it again, any number of times. */
  lemma AcquiresAgain(s: State, t: nat) returns (run: seq<State>)
    requires Inv(s) && t in s.threads && s.threads[t].pc == Outside && s.threads[t].held > 0
    ensures RunOf(run, t) && run[0] == s
    ensures run[|run| - 1] == s.With(t, Outside, s.threads[t].held + 1).(depth := s.threads[t].held + 1)
  {
    assert ThreadOk(s, t, s.threads[t]);
    var h := s.threads[t].held;
    var a := s.With(t, Test, h);
    var b := a.With(t, Deeper, h);
    var c := b.With(t, Outside, h + 1).(depth := s.depth + 1);
    run := Then([s], t, a);
    run := Then(run, t, b);
    run := Then(run, t, c);
    assert c.threads == s.With(t, Outside, h + 1).threads;
  }

  /** Its release undoes its last acquire, and the first acquire's release frees the lock. */
  lemma Releases(s: State, t: nat) returns (run: seq<State>)
    requires Inv(s) && t in s.threads && s.threads[t].pc == Outside && s.threads[t].held > 0
    ensures RunOf(run, t) && run[0] == s
    ensures var h := s.threads[t].held - 1;
            run[|run| - 1] == s.With(t, Outside, h).(mutex := if h == 0 then None else Some(t),
                                                     owner := if h == 0 then None else Some(t), depth := h)
  {
    assert ThreadOk(s, t, s.threads[t]);
    var h := s.threads[t].held;
    var a := s.With(t, Decrement, h);
    var b := a.With(t, if h > 1 then Outside else ClearOwner, h - 1).(depth := s.depth - 1);
    run := Then([s], t, a);
    run := Then(run, t, b);
    if h > 1 {
      assert b.threads == s.With(t, Outside, h - 1).threads;
    } else {
      var c := b.With(t, Drop, 0).(owner := None);
      var d := c.With(t, Outside, 0).(mutex := None);
      run := Then(run, t, c);
      run := Then(run, t, d);
      assert d.threads == s.With(t, Outside, 0).threads;
    }
  }

  // Whenever an owner is recorded, it holds the native mutex.
  lemma OwnerHoldsMutex(run: seq<State>, k: nat)
    requires Run(run) && k < |run| && run[k].owner.Some?
    ensures run[k].mutex == run[k].owner
  {
    RunInv(run, k);
  }
}

/**
 The reader/writer lock built from two native mutexes and a reader count: any number of threads,
 every interleaving, and native acquires that may fail at any of the four places.
 */
module ReaderWriterLock {
  datatype Option<T> = None | Some(value: T)

  datatype Pc =
    | Idle
    | ReadEnter       // uacpi_rw_lock_read: about to acquire read_mutex
    | Count           // about to increment num_readers
    | First           // first reader: about to acquire write_mutex
    | Undo            // that acquire failed: about to reset num_readers
    | ReadLeave(ok: bool)  // about to release read_mutex and return
    | Reading
    | UnreadEnter     // uacpi_rw_unlock_read: about to acquire read_mutex
    | Uncount         // about to decrement num_readers
    | Last            // last reader: about to release write_mutex
    | UnreadLeave     // about to release read_mutex
    | WriteEnter      // uacpi_rw_lock_write: about to acquire write_mutex
    | Writing

  /** Who holds write_mutex: a writer, or the readers together. */
  datatype Holder = Free | Writer(t: nat) | Readers

  datatype State = State(readMutex: Option<nat>, writeMutex: Holder, numReaders: int, pc: map<nat, Pc>) {
    function With(t: nat, p: Pc): State {
      this.(pc := pc[t := p])
    }
  }

  ghost predicate StepOf(s: State, s': State, t: nat) {
    t in s.pc &&
    match s.pc[t]
    case Idle => s' == s.With(t, ReadEnter) || s' == s.With(t, WriteEnter)
    case ReadEnter =>
      || (s.readMutex == None && s' == s.With(t, Count).(readMutex := Some(t)))
      || s' == s.With(t, Idle)
    case Count =>
      s' == s.With(t, if s.numReaders == 0 then First else ReadLeave(true)).(numReaders := s.numReaders + 1)
    case First =>
      || (s.writeMutex == Free && s' == s.With(t, ReadLeave(true)).(writeMutex := Readers))
      || s' == s.With(t, Undo)
    case Undo => s' == s.With(t, ReadLeave(false)).(numReaders := 0)
    case ReadLeave(ok) => s' == s.With(t, if ok then Reading else Idle).(readMutex := None)
    case Reading => s' == s.With(t, UnreadEnter)
    case UnreadEnter =>
      || (s.readMutex == None && s' == s.With(t, Uncount).(readMutex := Some(t)))
      || s' == s.With(t, Reading)
    case Uncount =>
      s' == s.With(t, if s.numReaders == 1 then Last else UnreadLeave).(numReaders := s.numReaders - 1)
    case Last => s' == s.With(t, UnreadLeave).(writeMutex := Free)
    case UnreadLeave => s' == s.With(t, Idle).(readMutex := None)
    case WriteEnter =>
      || (s.writeMutex == Free && s' == s.With(t, Writing).(writeMutex := Writer(t)))
      || s' == s.With(t, Idle)
    case Writing => s' == s.With(t, Idle).(writeMutex := Free)
  }

  ghost predicate Step(s: State, s': State) {
    exists t :: StepOf(s, s', t)
  }

  ghost predicate Init(s: State) {
    s.readMutex == None && s.writeMutex == Free && s.numReaders == 0 && forall t :: t in s.pc ==> s.pc[t] == Idle
  }

  ghost predicate Run(run: seq<State>) {
    && run != [] && Init(run[0])
    && (forall k :: 0 <= k < |run| - 1 ==> Step(run[k], run[k + 1]))
  }

  // ---- The invariant

  /** The thread has been granted the read lock and has not given it back. */
  ghost predicate Active(p: Pc) {
    p == ReadLeave(true) || p.Reading? || p.UnreadEnter? || p.Uncount?
  }

  /** The thread is included in num_readers. */
  ghost predicate Counted(p: Pc) {
    Active(p) || p.First? || p.Undo?
  }

  ghost predicate HoldsReadMutex(p: Pc) {
    p.Count? || p.First? || p.Undo? || p.ReadLeave? || p.Uncount? || p.Last? || p.UnreadLeave?
  }

  ghost function CountedThreads(pc: map<nat, Pc>): set<nat> {
    set t | t in pc && Counted(pc[t])
  }

  ghost predicate ThreadOk(s: State, t: nat, p: Pc) {
    && (HoldsReadMutex(p) <==> s.readMutex == Some(t))
    && (p.Writing? <==> s.writeMutex == Writer(t))
    && (Active(p) ==> s.writeMutex == Readers)
    && (p.First? || p.Undo? ==> s.numReaders == 1 && s.writeMutex != Readers)
    && (p.Last? ==> s.numReaders == 0 && s.writeMutex == Readers)
  }

  ghost predicate Inv(s: State) {
    && (forall t :: t in s.pc ==> ThreadOk(s, t, s.pc[t]))
    && s.numReaders == |CountedThreads(s.pc)|
    && (s.writeMutex == Readers ==>
          s.numReaders > 0 || (s.readMutex.Some? && s.readMutex.value in s.pc && s.pc[s.readMutex.value].Last?))
  }

  lemma CountedAfter(pc: map<nat, Pc>, t: nat, p: Pc)
    requires t in pc
    ensures var before, after := CountedThreads(pc), CountedThreads(pc[t := p]);
            && (Counted(p) && Counted(pc[t]) ==> |after| == |before|)
            && (Counted(p) && !Counted(pc[t]) ==> |after| == |before| + 1)
            && (!Counted(p) && Counted(pc[t]) ==> |after| == |before| - 1)
            && (!Counted(p) && !Counted(pc[t]) ==> |after| == |before|)
  {
    var before, after := CountedThreads(pc), CountedThreads(pc[t := p]);
    if Counted(p) {
      assert after == before + {t};
    } else {
      assert after == before - {t};
    }
  }

  lemma CountedOne(s: State, t: nat)
    requires Inv(s) && t in s.pc && Counted(s.pc[t])
    ensures s.numReaders > 0
  {
    assert t in CountedThreads(s.pc);
  }

  lemma SomeCounted(s: State) returns (u: nat)
    requires Inv(s) && s.numReaders > 0
    ensures u in s.pc && Counted(s.pc[u]) && ThreadOk(s, u, s.pc[u])
  {
    u :| u in CountedThreads(s.pc);
  }

  // ---- Every step keeps it

  lemma CountKeeps(s: State, s': State, t: nat)
    requires Inv(s) && StepOf(s, s', t)
    ensures s'.numReaders == |CountedThreads(s'.pc)|
  {
    assert ThreadOk(s, t, s.pc[t]);
    CountedAfter(s.pc, t, s'.pc[t]);
    assert s'.pc == s.pc[t := s'.pc[t]];
  }

  lemma SelfKeeps(s: State, s': State, t: nat)
    requires Inv(s) && StepOf(s, s', t)
    ensures ThreadOk(s', t, s'.pc[t])
  {
    assert ThreadOk(s, t, s.pc[t]);
    if s.pc[t].Count? && s.numReaders > 0 {
      var u := SomeCounted(s);
    }
  }

  lemma OthersKeep(s: State, s': State, t: nat, u: nat)
    requires Inv(s) && StepOf(s, s', t) && u in s.pc && u != t
    ensures u in s'.pc && ThreadOk(s', u, s'.pc[u])
  {
    assert ThreadOk(s, t, s.pc[t]) && ThreadOk(s, u, s.pc[u]);
    if Active(s.pc[u]) {
      CountedOne(s, u);
    }
  }

  lemma HolderKeeps(s: State, s': State, t: nat)
    requires Inv(s) && StepOf(s, s', t)
    ensures s'.writeMutex == Readers ==>
              s'.numReaders > 0
              || (s'.readMutex.Some? && s'.readMutex.value in s'.pc && s'.pc[s'.readMutex.value].Last?)
  {
    assert ThreadOk(s, t, s.pc[t]);
    if s.pc[t].Uncount? {
      CountedOne(s, t);
    }
  }

  lemma StepInv(s: State, s': State, t: nat)
    requires Inv(s) && StepOf(s, s', t)
    ensures Inv(s')
  {
    CountKeeps(s, s', t);
    HolderKeeps(s, s', t);
    forall u | u in s'.pc ensures ThreadOk(s', u, s'.pc[u]) {
      if u == t {
        SelfKeeps(s, s', t);
      } else {
        OthersKeep(s, s', t, u);
      }
    }
  }

  lemma {:induction false} RunInv(run: seq<State>, k: nat)
    requires Run(run) && k < |run|
    ensures Inv(run[k])
  {
    if k == 0 {
      assert CountedThreads(run[0].pc) == {};
    } else {
      RunInv(run, k - 1);
      assert Step(run[k - 1], run[k - 1 + 1]);
      var t :| StepOf(run[k - 1], run[k], t);
      StepInv(run[k - 1], run[k], t);
    }
  }

  /** No writer is inside together with a reader or with another writer. */
  lemma WriterExcludesAll(run: seq<State>, k: nat, w: nat, u: nat)
    requires Run(run) && k < |run| && w in run[k].pc && u in run[k].pc && w != u
    requires run[k].pc[w].Writing?
    ensures !run[k].pc[u].Writing? && !Active(run[k].pc[u])
  {
    RunInv(run, k);
    assert ThreadOk(run[k], w, run[k].pc[w]) && ThreadOk(run[k], u, run[k].pc[u]);
  }

  ghost function ActiveThreads(pc: map<nat, Pc>): set<nat> {
    set t | t in pc && Active(pc[t])
  }

  /**
   num_readers is the number of threads holding the read lock, plus one exactly while a would-be
   first reader still waits for, or has just been refused, the write mutex. In particular it is
   that number whenever nobody holds read_mutex.
   */
  lemma NumReadersCounts(run: seq<State>, k: nat)
    requires Run(run) && k < |run|
    ensures var s := run[k];
            var opening := s.readMutex.Some? && s.readMutex.value in s.pc
                           && (s.pc[s.readMutex.value].First? || s.pc[s.readMutex.value].Undo?);
            s.numReaders == |ActiveThreads(s.pc)| + if opening then 1 else 0
  {
    RunInv(run, k);
    var s := run[k];
    var holder := if s.readMutex.Some? then {s.readMutex.value} else {};
    forall t | t in CountedThreads(s.pc) && t !in ActiveThreads(s.pc) ensures t in holder {
      assert ThreadOk(s, t, s.pc[t]);
    }
    if s.readMutex.Some? && s.readMutex.value in s.pc
       && (s.pc[s.readMutex.value].First? || s.pc[s.readMutex.value].Undo?) {
      assert CountedThreads(s.pc) == ActiveThreads(s.pc) + holder;
    } else {
      assert CountedThreads(s.pc) == ActiveThreads(s.pc);
    }
  }

  // ---- What the lock does for a thread that nobody gets in between

  /** Consecutive steps of thread `t`. */
  ghost predicate RunOf(run: seq<State>, t: nat) {
    run != [] && forall k :: 0 <= k < |run| - 1 ==> StepOf(run[k], run[k + 1], t)
  }

  /** One more step. */
  lemma Then(run: seq<State>, t: nat, s': State) returns (longer: seq<State>)
    requires RunOf(run, t) && StepOf(run[|run| - 1], s', t)
    ensures RunOf(longer, t) && longer[0] == run[0] && longer[|longer| - 1] == s'
  {
    longer := run + [s'];
  }

  lemma NoReadersWhenFree(s: State)
    requires Inv(s) && s.readMutex == None
    ensures s.writeMutex != Readers ==> s.numReaders == 0
    ensures s.writeMutex == Readers ==> s.numReaders > 0
  {
    if s.numReaders > 0 {
      var u := SomeCounted(s);
    }
  }

  /** A reader gets in when there is no writer, beside any number of other readers. */
  lemma ReaderEnters(s: State, t: nat) returns (run: seq<State>)
    requires Inv(s) && t in s.pc && s.pc[t] == Idle && s.readMutex == None && !s.writeMutex.Writer?
    ensures RunOf(run, t) && run[0] == s
    ensures run[|run| - 1] == s.With(t, Reading).(numReaders := s.numReaders + 1, writeMutex := Readers)
  {
    NoReadersWhenFree(s);
    var a := s.With(t, ReadEnter);
    var b := a.With(t, Count).(readMutex := Some(t));
    var c := b.With(t, if s.numReaders == 0 then First else ReadLeave(true)).(numReaders := s.numReaders + 1);
    run := Then([s], t, a);
    run := Then(run, t, b);
    run := Then(run, t, c);
    var d := c;
    if s.numReaders == 0 {
      d := c.With(t, ReadLeave(true)).(writeMutex := Readers);
      run := Then(run, t, d);
    }
    var e := d.With(t, Reading).(readMutex := None);
    run := Then(run, t, e);
    assert e.pc == s.With(t, Reading).pc;
  }

  /** The last reader to leave lets writers in again. */
  lemma ReaderLeaves(s: State, t: nat) returns (run: seq<State>)
    requires Inv(s) && t in s.pc && s.pc[t] == Reading && s.readMutex == None
    ensures RunOf(run, t) && run[0] == s
    ensures run[|run| - 1] == s.With(t, Idle).(numReaders := s.numReaders - 1,
                                               writeMutex := if s.numReaders == 1 then Free else Readers)
  {
    assert ThreadOk(s, t, s.pc[t]);
    var a := s.With(t, UnreadEnter);
    var b := a.With(t, Uncount).(readMutex := Some(t));
    var c := b.With(t, if s.numReaders == 1 then Last else UnreadLeave).(numReaders := s.numReaders - 1);
    run := Then([s], t, a);
    run := Then(run, t, b);
    run := Then(run, t, c);
    var d := c;
    if s.numReaders == 1 {
      d := c.With(t, UnreadLeave).(writeMutex := Free);
      run := Then(run, t, d);
    }
    var e := d.With(t, Idle).(readMutex := None);
    run := Then(run, t, e);
    assert e.pc == s.With(t, Idle).pc;
  }

  /** A writer gets in when there is nobody, and out again. */
  lemma WriterEnters(s: State, t: nat) returns (run: seq<State>)
    requires Inv(s) && t in s.pc && s.pc[t] == Idle && s.writeMutex == Free
    ensures RunOf(run, t) && run[0] == s && run[|run| - 1] == s.With(t, Writing).(writeMutex := Writer(t))
    ensures StepOf(run[|run| - 1], s, t)
  {
    var a := s.With(t, WriteEnter);
    var b := a.With(t, Writing).(writeMutex := Writer(t));
    run := Then([s], t, a);
    run := Then(run, t, b);
    assert b.pc == s.With(t, Writing).pc;
    assert b.With(t, Idle).pc == s.pc;
  }
}
