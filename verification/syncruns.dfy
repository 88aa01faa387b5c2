/**
 Any number of activations over the same mutexes, interleaved step by step: in no reachable state
 do they wait for each other in a circle, provided that no two mutexes have the same level.
 */
module SyncRuns {
  import opened SyncLevel

  datatype Wish = Nothing | Wants(m: Mutex)

  /** One activation: the mutexes it holds, its current level and the mutex it waits for. */
  datatype Activation = Activation(held: seq<Mutex>, current: nat, wish: Wish)

  datatype System = System(ms: Mutexes, acts: map<Thread, Activation>)

  /**
   The steps of an activation. The system may run others between Ask, which passes the level test
   and begins to wait, and Take, NoRoom or TimeOut, which end the wait.
   */
  datatype Event =
    | Ask(t: Thread, m: Mutex)
    | Take(t: Thread)
    | NoRoom(t: Thread)
    | TimeOut(t: Thread)
    | Again(t: Thread, m: Mutex)
    | Undo(t: Thread, m: Mutex, at: nat)

  ghost predicate Does(s: System, e: Event, s': System) {
    && e.t in s.acts
    && var a := s.acts[e.t];
       match e
       case Ask(t, m) =>
         && a.wish == Nothing && m in s.ms.level && a.current <= s.ms.Level(m) && !s.ms.OwnedBy(m, t)
         && s' == s.(acts := s.acts[t := a.(wish := Wants(m))])
       case Take(t) =>
         && a.wish.Wants? && a.wish.m !in s.ms.owner
         && s' == System(s.ms.(owner := s.ms.owner[a.wish.m := t], depth := s.ms.depth[a.wish.m := 1]),
                         s.acts[t := Activation(a.held + [a.wish.m], s.ms.Level(a.wish.m), Nothing)])
       case NoRoom(t) =>
         && a.wish.Wants? && a.wish.m !in s.ms.owner
         && s' == System(s.ms.(depth := s.ms.depth[a.wish.m := 0]), s.acts[t := a.(wish := Nothing)])
       case TimeOut(t) =>
         a.wish.Wants? && s' == s.(acts := s.acts[t := a.(wish := Nothing)])
       case Again(t, m) =>
         && a.wish == Nothing && a.current <= s.ms.Level(m) && s.ms.OwnedBy(m, t) && m in s.ms.depth
            && s.ms.depth[m] != MAX_DEPTH
         && s' == s.(ms := s.ms.(depth := s.ms.depth[m := s.ms.depth[m] + 1]))
       case Undo(t, m, at) =>
         && a.wish == Nothing && s.ms.OwnedBy(m, t) && s.ms.Level(m) == a.current
         && s'.acts.Keys == s.acts.Keys && s'.acts[t].wish == Nothing
            && s' == s.(ms := s'.ms, acts := s.acts[t := s'.acts[t]])
         && Undone(a.held, a.current, s.ms, m, at, s'.acts[t].held, s'.acts[t].current, s'.ms)
  }

  /** Nobody holds or waits for anything. */
  ghost predicate Init(s: System) {
    && s.ms.owner == map[]
    && (forall t :: t in s.acts ==> s.acts[t].held == [] && s.acts[t].wish == Nothing)
  }

  ghost predicate Steps(run: seq<System>, es: seq<Event>) {
    |run| == |es| + 1 && forall k :: 0 <= k < |es| ==> Does(run[k], es[k], run[k + 1])
  }

  // ---- The discipline of all

  ghost predicate ActOk(s: System, t: Thread)
    requires t in s.acts
  {
    var a := s.acts[t];
    && Disciplined(a.held, s.ms, t, a.current)
    && (a.wish.Wants? ==> a.wish.m in s.ms.level && a.current <= s.ms.Level(a.wish.m) && !s.ms.OwnedBy(a.wish.m, t))
  }

  ghost predicate Inv(s: System) {
    forall t {:trigger ActOk(s, t)} :: t in s.acts ==> ActOk(s, t)
  }

  /** The mutex a step is about. */
  ghost function About(s: System, e: Event): Mutex
    requires e.t in s.acts && (e.Take? || e.NoRoom? || e.TimeOut? ==> s.acts[e.t].wish.Wants?)
  {
    if e.Ask? || e.Again? || e.Undo? then e.m else s.acts[e.t].wish.m
  }

  lemma OwnStep(s: System, e: Event, s': System)
    requires Inv(s) && Does(s, e, s')
    ensures e.t in s'.acts && ActOk(s', e.t)
  {
    assert ActOk(s, e.t);
    var a := s.acts[e.t];
    match e
    case Ask(t, m) =>
    case Take(t) => Pushed(a.held, s.ms, s'.ms, t, a.current, a.wish.m);
    case NoRoom(t) => Deepened(a.held, s.ms, s'.ms, t, a.current, a.wish.m, 0);
    case TimeOut(t) =>
    case Again(t, m) => Deepened(a.held, s.ms, s'.ms, t, a.current, m, s.ms.depth[m] + 1);
    case Undo(t, m, at) =>
      if s.ms.depth[m] > 1 {
        Deepened(a.held, s.ms, s'.ms, t, a.current, m, s.ms.depth[m] - 1);
      } else {
        TakenOut(a.held, s.ms, s'.ms, t, a.current, at);
      }
  }

  lemma OtherStep(s: System, e: Event, s': System, u: Thread)
    requires Inv(s) && Does(s, e, s') && u in s.acts && u != e.t
    ensures u in s'.acts && ActOk(s', u)
  {
    assert ActOk(s, u) && ActOk(s, e.t);
    if s'.ms != s.ms {
      OthersKeep(s.acts[u].held, s.ms, s'.ms, u, s.acts[u].current, About(s, e));
    }
  }

  lemma StepInv(s: System, e: Event, s': System)
    requires Inv(s) && Does(s, e, s')
    ensures Inv(s') && s'.ms.level == s.ms.level && s'.acts.Keys == s.acts.Keys
  {
    forall t | t in s'.acts ensures ActOk(s', t) {
      if t == e.t {
        OwnStep(s, e, s');
      } else {
        OtherStep(s, e, s', t);
      }
    }
  }

  lemma {:induction false} RunInv(run: seq<System>, es: seq<Event>, k: nat)
    requires Steps(run, es) && Init(run[0]) && k < |run|
    ensures Inv(run[k]) && run[k].ms.level == run[0].ms.level && run[k].acts.Keys == run[0].acts.Keys
  {
    if k == 0 {
      forall t | t in run[0].acts ensures ActOk(run[0], t) {}
    } else {
      RunInv(run, es, k - 1);
      assert Does(run[k - 1], es[k - 1], run[k - 1 + 1]);
      StepInv(run[k - 1], es[k - 1], run[k]);
    }
  }

  // ---- Deadlock

  /** Each of the threads waits for a mutex that the next one owns, and the last for one of the first. */
  ghost predicate Deadlocked(s: System, ts: seq<Thread>) {
    && ts != []
    && forall i :: 0 <= i < |ts| ==> WaitsFor(s, ts[i], ts[if i + 1 < |ts| then i + 1 else 0])
  }

  ghost predicate WaitsFor(s: System, t: Thread, u: Thread) {
    t in s.acts && u in s.acts && s.acts[t].wish.Wants? && s.ms.OwnedBy(s.acts[t].wish.m, u)
  }

  ghost function WaiterOf(s: System, t: Thread): Waiter
    requires t in s.acts && s.acts[t].wish.Wants?
  {
    Waiter(s.acts[t].held, s.acts[t].current, s.acts[t].wish.m)
  }

  lemma WaitsForHeld(s: System, t: Thread, u: Thread)
    requires Inv(s) && WaitsFor(s, t, u)
    ensures s.acts[t].wish.m in s.acts[u].held && WaiterOf(s, t).Admitted(s.ms.level) && s.acts[t].wish.m in s.ms.level
  {
    assert ActOk(s, t) && ActOk(s, u);
    assert Listed(s.acts[u].held, s.acts[t].wish.m);
  }

  lemma DistinctNeverDeadlock(s: System, ts: seq<Thread>)
    requires Inv(s) && DistinctLevels(s.ms.level)
    ensures !Deadlocked(s, ts)
  {
    if Deadlocked(s, ts) {
      forall i | 0 <= i < |ts| ensures ts[i] in s.acts && s.acts[ts[i]].wish.Wants? {
        assert WaitsFor(s, ts[i], ts[if i + 1 < |ts| then i + 1 else 0]);
      }
      var ws := seq(|ts|, i requires 0 <= i < |ts| => WaiterOf(s, ts[i]));
      forall i | 0 <= i < |ws|
        ensures ws[i].Admitted(s.ms.level) && ws[i].wanted in s.ms.level
        ensures ws[i].wanted in ws[if i + 1 < |ws| then i + 1 else 0].held
      {
        WaitsForHeld(s, ts[i], ts[if i + 1 < |ts| then i + 1 else 0]);
      }
      NoWaitCycle(ws, s.ms.level);
    }
  }

  /** With pairwise distinct levels no reachable state of any number of activations is a deadlock. */
  lemma NeverDeadlocked(run: seq<System>, es: seq<Event>, k: nat, ts: seq<Thread>)
    requires Steps(run, es) && Init(run[0]) && k < |run| && DistinctLevels(run[0].ms.level)
    ensures !Deadlocked(run[k], ts)
  {
    RunInv(run, es, k);
    DistinctNeverDeadlock(run[k], ts);
  }

  /** Two threads, each holding one of two mutexes of the same level and asking for the other. */
  ghost function DeadlockEvents(a: Mutex, b: Mutex): seq<Event> {
    [Ask(0, a), Take(0), Ask(1, b), Take(1), Ask(0, b), Ask(1, a)]
  }

  ghost function Free(level: map<Mutex, nat>): System {
    System(Mutexes(level, map[], map[]), map[0 := Activation([], 0, Nothing), 1 := Activation([], 0, Nothing)])
  }

  ghost function Asked(s: System, t: Thread, m: Mutex): System {
    if t in s.acts then s.(acts := s.acts[t := s.acts[t].(wish := Wants(m))]) else s
  }

  ghost function Took(s: System, t: Thread, m: Mutex): System {
    if t in s.acts then
      System(s.ms.(owner := s.ms.owner[m := t], depth := s.ms.depth[m := 1]),
             s.acts[t := Activation(s.acts[t].held + [m], s.ms.Level(m), Nothing)])
    else s
  }

  ghost function DeadlockRun(level: map<Mutex, nat>, a: Mutex, b: Mutex): seq<System> {
    var s0 := Free(level);
    var s1 := Asked(s0, 0, a);
    var s2 := Took(s1, 0, a);
    var s3 := Asked(s2, 1, b);
    var s4 := Took(s3, 1, b);
    var s5 := Asked(s4, 0, b);
    [s0, s1, s2, s3, s4, s5, Asked(s5, 1, a)]
  }

  /** Two mutexes of one level are enough: a run of two activations into a deadlock. */
  lemma EqualLevelsDeadlock(level: map<Mutex, nat>, a: Mutex, b: Mutex)
    requires a in level && b in level && a != b && level[a] == level[b]
    ensures var run := DeadlockRun(level, a, b);
            Steps(run, DeadlockEvents(a, b)) && Init(run[0]) && run[0].ms.level == level && Deadlocked(run[6], [0, 1])
  {
    var run, es := DeadlockRun(level, a, b), DeadlockEvents(a, b);
    assert Does(run[0], es[0], run[1]);
    assert Does(run[1], es[1], run[2]);
    assert Does(run[2], es[2], run[3]);
    assert Does(run[3], es[3], run[4]);
    assert Does(run[4], es[4], run[5]);
    assert Does(run[5], es[5], run[6]);
    assert WaitsFor(run[6], 0, 1) && WaitsFor(run[6], 1, 0);
    assert [0, 1][0] == 0 && [0, 1][1] == 1;
  }

  ghost predicate ReachesDeadlock(level: map<Mutex, nat>, run: seq<System>, es: seq<Event>, ts: seq<Thread>) {
    Steps(run, es) && Init(run[0]) && run[0].ms.level == level && Deadlocked(run[|es|], ts)
  }

  /** The SyncLevel rules exclude every deadlock exactly if no two mutexes share a level. */
  lemma DeadlockIff(level: map<Mutex, nat>)
    ensures (exists run, es, ts :: ReachesDeadlock(level, run, es, ts)) <==> !DistinctLevels(level)
  {
    if DistinctLevels(level) {
      forall run: seq<System>, es, ts ensures !ReachesDeadlock(level, run, es, ts) {
        if Steps(run, es) && Init(run[0]) && run[0].ms.level == level {
          NeverDeadlocked(run, es, |es|, ts);
        }
      }
    } else {
      var a: Mutex, b: Mutex :| LevelOf(level, a) == LevelOf(level, b) && a in level && b in level && a != b;
      EqualLevelsDeadlock(level, a, b);
      assert ReachesDeadlock(level, DeadlockRun(level, a, b), DeadlockEvents(a, b), [0, 1]);
    }
  }

  // ---- The operations make these steps

  ghost function With(s: System, t: Thread, a: Activation, ms: Mutexes): System {
    System(ms, s.acts[t := a])
  }

  /** An acquire is at most two steps: it begins to wait, and its wait ends. */
  lemma AcquireRuns(s: System, t: Thread, m: Mutex, status: Status, held': seq<Mutex>, current': nat, ms': Mutexes)
      returns (run: seq<System>, es: seq<Event>)
    requires t in s.acts && s.acts[t].wish == Nothing && m in s.ms.level
    requires Acquired(t, s.acts[t].held, s.acts[t].current, s.ms, m, status, held', current', ms')
    ensures Steps(run, es) && run[0] == s && run[|es|] == With(s, t, Activation(held', current', Nothing), ms')
  {
    var a := s.acts[t];
    var end := With(s, t, Activation(held', current', Nothing), ms');
    if s.ms.OwnedBy(m, t) && status == Ok {
      run, es := [s, end], [Again(t, m)];
      assert s.acts[t := a] == s.acts;
    } else if s.ms.OwnedBy(m, t) || status == Ignored {
      run, es := [s], [];
      assert s.acts[t := a] == s.acts;
    } else {
      var waiting := s.(acts := s.acts[t := a.(wish := Wants(m))]);
      run, es := [s, waiting, end],
                 [Ask(t, m), if status == Ok then Take(t) else if status == OutOfMemory then NoRoom(t) else TimeOut(t)];
      assert Does(s, es[0], waiting);
      AskedEnds(s, t, m, status, held', current', ms');
      assert Does(waiting, es[1], end);
    }
  }

  lemma AskedEnds(s: System, t: Thread, m: Mutex, status: Status, held': seq<Mutex>, current': nat, ms': Mutexes)
    requires t in s.acts && s.acts[t].wish == Nothing && !s.ms.OwnedBy(m, t) && s.acts[t].current <= s.ms.Level(m)
    requires Acquired(t, s.acts[t].held, s.acts[t].current, s.ms, m, status, held', current', ms')
    ensures var waiting := s.(acts := s.acts[t := s.acts[t].(wish := Wants(m))]);
            var e := if status == Ok then Take(t) else if status == OutOfMemory then NoRoom(t) else TimeOut(t);
            Does(waiting, e, With(s, t, Activation(held', current', Nothing), ms'))
  {
    var waiting := s.(acts := s.acts[t := s.acts[t].(wish := Wants(m))]);
    var a' := Activation(held', current', Nothing);
    assert waiting.acts[t := a'] == s.acts[t := a'];
  }

  /** A release of an owned mutex of the current level is one step. */
  lemma ReleaseRuns(s: System, t: Thread, m: Mutex, at: nat, held': seq<Mutex>, current': nat, ms': Mutexes)
    requires t in s.acts && s.acts[t].wish == Nothing && s.ms.OwnedBy(m, t) && s.ms.Level(m) == s.acts[t].current
    requires Undone(s.acts[t].held, s.acts[t].current, s.ms, m, at, held', current', ms')
    ensures Does(s, Undo(t, m, at), With(s, t, Activation(held', current', Nothing), ms'))
  {}
}
