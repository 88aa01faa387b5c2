/**
 Any number of allocators working on the curtain at once, every interleaving of their steps:
 lock a thread, look at its head, unlink the head, unlock, move on.
 */
module CurtainSteps {
  import C = Curtain

  /** A page frame, by its address. */
  type Frame = int

  /** Where one call of allocate_page stands; `i` counts the threads it has probed. */
  datatype Proc =
    | Probing(denoter: nat, i: nat)
    | Holding(denoter: nat, i: nat)
    | Unlinking(denoter: nat, i: nat, node: Frame)
    | Unlocking(denoter: nat, i: nat, node: Frame)
    | Returned(node: Frame)
    | ReturnedZero

  datatype Option<T> = None | Some(value: T)

  /** `out` lists the frames in the order they were unlinked. */
  datatype State = State(threads: seq<seq<Frame>>, locks: seq<Option<nat>>, procs: map<nat, Proc>, out: seq<Frame>)

  /** What the thread becomes when its head is set to the link stored in `node`. */
  function After(s: seq<Frame>, node: Frame): seq<Frame> {
    if s == [] then [] else if s[0] == node then s[1..] else After(s[1..], node)
  }

  function Grab(s: State, p: Proc): (g: nat)
    requires |s.threads| > 0 && (p.Probing? || p.Holding? || p.Unlinking? || p.Unlocking?)
    ensures g < |s.threads|
  {
    C.Probe(p.i, p.denoter, |s.threads|)
  }

  // ---- Steps of allocator `a`

  ghost predicate Start(s: State, s': State, a: nat, denoter: nat) {
    a !in s.procs && s' == s.(procs := s.procs[a := Probing(denoter, 0)])
  }

  ghost predicate Lock(s: State, s': State, a: nat) {
    && a in s.procs && s.procs[a].Probing? && s.procs[a].i < |s.threads| == |s.locks|
    && var p := s.procs[a];
       var g := Grab(s, p);
       s.locks[g] == None
       && s' == s.(locks := s.locks[g := Some(a)], procs := s.procs[a := Holding(p.denoter, p.i)])
  }

  ghost predicate GiveUp(s: State, s': State, a: nat) {
    && a in s.procs && s.procs[a].Probing? && s.procs[a].i == |s.threads|
    && s' == s.(procs := s.procs[a := ReturnedZero])
  }

  ghost predicate Look(s: State, s': State, a: nat) {
    && a in s.procs && s.procs[a].Holding? && 0 < |s.threads| == |s.locks|
    && var p := s.procs[a];
       var g := Grab(s, p);
       if s.threads[g] == []
       then s' == s.(locks := s.locks[g := None], procs := s.procs[a := Probing(p.denoter, p.i + 1)])
       else s' == s.(procs := s.procs[a := Unlinking(p.denoter, p.i, s.threads[g][0])])
  }

  ghost predicate Unlink(s: State, s': State, a: nat) {
    && a in s.procs && s.procs[a].Unlinking? && 0 < |s.threads|
    && var p := s.procs[a];
       var g := Grab(s, p);
       s' == s.(threads := s.threads[g := After(s.threads[g], p.node)],
                procs := s.procs[a := Unlocking(p.denoter, p.i, p.node)],
                out := s.out + [p.node])
  }

  ghost predicate Unlock(s: State, s': State, a: nat) {
    && a in s.procs && s.procs[a].Unlocking? && 0 < |s.threads| == |s.locks|
    && var p := s.procs[a];
       s' == s.(locks := s.locks[Grab(s, p) := None], procs := s.procs[a := Returned(p.node)])
  }

  ghost predicate StepBy(s: State, s': State, a: nat, denoter: nat) {
    Start(s, s', a, denoter) || Lock(s, s', a) || GiveUp(s, s', a) || Look(s, s', a) || Unlink(s, s', a)
      || Unlock(s, s', a)
  }

  ghost predicate Step(s: State, s': State) {
    exists a: nat, denoter: nat :: StepBy(s, s', a, denoter)
  }

  ghost predicate Init(s: State, initial: seq<seq<Frame>>) {
    && s.threads == initial && |s.locks| == |initial| && s.out == [] && s.procs == map[]
    && (forall g :: 0 <= g < |s.locks| ==> s.locks[g] == None)
    && AllDistinct(Flat(initial))
  }

  ghost predicate Run(run: seq<State>, initial: seq<seq<Frame>>) {
    && run != [] && Init(run[0], initial)
    && (forall k :: 0 <= k < |run| - 1 ==> Step(run[k], run[k + 1]))
  }

  // ---- Counting frames

  ghost function Flat(threads: seq<seq<Frame>>): multiset<Frame> {
    if threads == [] then multiset{} else multiset(threads[0]) + Flat(threads[1..])
  }

  ghost predicate AllDistinct(m: multiset<Frame>) {
    forall x :: m[x] <= 1
  }

  lemma {:induction false} FlatUpdate(threads: seq<seq<Frame>>, g: nat, t: seq<Frame>)
    requires g < |threads|
    ensures Flat(threads[g := t]) + multiset(threads[g]) == Flat(threads) + multiset(t)
  {
    if g == 0 {
      assert threads[g := t][1..] == threads[1..];
    } else {
      FlatUpdate(threads[1..], g - 1, t);
      assert threads[g := t][1..] == threads[1..][g - 1 := t];
      assert threads[g := t][0] == threads[0];
      var rest := Flat(threads[1..][g - 1 := t]);
      calc {
        Flat(threads[g := t]) + multiset(threads[g]);
        multiset(threads[0]) + (rest + multiset(threads[g]));
        multiset(threads[0]) + (Flat(threads[1..]) + multiset(t));
        Flat(threads) + multiset(t);
      }
    }
  }

  // ---- The invariant

  /** Allocator `a` is between locking and unlocking its thread. */
  ghost predicate Critical(p: Proc) {
    p.Holding? || p.Unlinking? || p.Unlocking?
  }

  ghost predicate ProcOk(s: State, a: nat, p: Proc) {
    && (Critical(p) ==> 0 < |s.threads| == |s.locks| && p.i < |s.threads| && s.locks[Grab(s, p)] == Some(a))
    && (p.Unlinking? ==> s.threads[Grab(s, p)] != [] && s.threads[Grab(s, p)][0] == p.node)
    && ((p.Probing? || Critical(p)) ==> p.i <= |s.threads| && Emptied(s.threads, p.denoter, p.i))
    && (p.ReturnedZero? ==> forall g :: 0 <= g < |s.threads| ==> s.threads[g] == [])
    && ((p.Returned? || p.Unlocking?) ==> p.node in s.out)
  }

  /** The first `i` threads of the probe are empty. */
  ghost predicate Emptied(threads: seq<seq<Frame>>, denoter: nat, i: nat) {
    |threads| > 0 ==> forall j: nat :: j < i ==> threads[C.Probe(j, denoter, |threads|)] == []
  }

  ghost predicate Inv(s: State, initial: seq<seq<Frame>>) {
    && |s.threads| == |s.locks| == |initial|
    && (forall a :: a in s.procs ==> ProcOk(s, a, s.procs[a]))
    && Flat(s.threads) + multiset(s.out) == Flat(initial)
  }

  /** A thread's lock admits one allocator at a time. */
  lemma OneHolder(s: State, initial: seq<seq<Frame>>, a: nat, b: nat)
    requires Inv(s, initial) && a in s.procs && b in s.procs && Critical(s.procs[a]) && Critical(s.procs[b])
    requires Grab(s, s.procs[a]) == Grab(s, s.procs[b])
    ensures a == b
  {
    assert ProcOk(s, a, s.procs[a]) && ProcOk(s, b, s.procs[b]);
  }

  lemma KeepOthers(s: State, s': State, a: nat, b: nat)
    requires b in s.procs && b != a && ProcOk(s, b, s.procs[b])
    requires s'.threads == s.threads && |s.locks| == |s'.locks| == |s.threads|
    requires forall g :: 0 <= g < |s.locks| && s.locks[g] == Some(b) ==> s'.locks[g] == Some(b)
    requires s'.out == s.out
    ensures ProcOk(s', b, s.procs[b])
  {}

  lemma LockInv(s: State, s': State, initial: seq<seq<Frame>>, a: nat)
    requires Inv(s, initial) && (Lock(s, s', a) || GiveUp(s, s', a) || Look(s, s', a) || Unlock(s, s', a))
    ensures Inv(s', initial)
  {
    assert ProcOk(s, a, s.procs[a]);
    forall b | b in s'.procs ensures ProcOk(s', b, s'.procs[b]) {
      if b != a {
        KeepOthers(s, s', a, b);
      } else if GiveUp(s, s', a) {
        AllProbed(s.threads, s.procs[a].denoter);
      } else if Look(s, s', a) {
        OneMoreEmpty(s.threads, s.procs[a].denoter, s.procs[a].i);
      }
    }
  }

  lemma OneMoreEmpty(threads: seq<seq<Frame>>, denoter: nat, i: nat)
    requires |threads| > 0 && Emptied(threads, denoter, i)
    ensures threads[C.Probe(i, denoter, |threads|)] == [] ==> Emptied(threads, denoter, i + 1)
  {}

  lemma AllProbed(threads: seq<seq<Frame>>, denoter: nat)
    requires Emptied(threads, denoter, |threads|)
    ensures forall g :: 0 <= g < |threads| ==> threads[g] == []
  {
    forall g | 0 <= g < |threads| ensures threads[g] == [] {
      var j := C.ProbeReaches(|threads|, denoter, g);
    }
  }

  lemma UnlinkInv(s: State, s': State, initial: seq<seq<Frame>>, a: nat)
    requires Inv(s, initial) && Unlink(s, s', a)
    ensures Inv(s', initial)
  {
    var p := s.procs[a];
    var g := Grab(s, p);
    assert ProcOk(s, a, p);
    assert After(s.threads[g], p.node) == s.threads[g][1..];
    UnlinkConserves(s.threads, g, s.out);
    forall b | b in s'.procs ensures ProcOk(s', b, s'.procs[b]) {
      if b != a {
        UnlinkKeeps(s, s', a, b);
      } else {
        EmptiedStays(s.threads, s'.threads, p.denoter, p.i);
      }
    }
  }

  // A frame that leaves the front of a thread appears at the end of `out`.
  lemma UnlinkConserves(threads: seq<seq<Frame>>, g: nat, out: seq<Frame>)
    requires g < |threads| && threads[g] != []
    ensures Flat(threads[g := threads[g][1..]]) + multiset(out + [threads[g][0]]) == Flat(threads) + multiset(out)
  {
    var t := threads[g];
    FlatUpdate(threads, g, t[1..]);
    assert t == [t[0]] + t[1..];
    Cancel(Flat(threads[g := t[1..]]), multiset{t[0]}, multiset(t[1..]), Flat(threads));
    assert multiset(out + [t[0]]) == multiset(out) + multiset{t[0]};
  }

  lemma Cancel(a: multiset<Frame>, h: multiset<Frame>, r: multiset<Frame>, b: multiset<Frame>)
    requires a + (h + r) == b + r
    ensures a + h == b
  {
    forall x ensures (a + h)[x] == b[x] {
      assert (a + (h + r))[x] == (b + r)[x];
    }
  }

  lemma UnlinkKeeps(s: State, s': State, a: nat, b: nat)
    requires |s.threads| == |s.locks| && Unlink(s, s', a) && ProcOk(s, a, s.procs[a])
    requires b in s.procs && b != a && ProcOk(s, b, s.procs[b])
    ensures ProcOk(s', b, s.procs[b])
  {
    var p := s.procs[b];
    assert forall h :: 0 <= h < |s.threads| && s.threads[h] == [] ==> s'.threads[h] == [];
    if p.Probing? || Critical(p) {
      EmptiedStays(s.threads, s'.threads, p.denoter, p.i);
    }
  }

  lemma EmptiedStays(threads: seq<seq<Frame>>, threads': seq<seq<Frame>>, denoter: nat, i: nat)
    requires Emptied(threads, denoter, i) && |threads'| == |threads|
    requires forall h :: 0 <= h < |threads| && threads[h] == [] ==> threads'[h] == []
    ensures Emptied(threads', denoter, i)
  {}

  lemma StepInv(s: State, s': State, initial: seq<seq<Frame>>)
    requires Inv(s, initial) && Step(s, s')
    ensures Inv(s', initial)
  {
    var a: nat, denoter: nat :| StepBy(s, s', a, denoter);
    if Start(s, s', a, denoter) {
      forall b | b in s'.procs ensures ProcOk(s', b, s'.procs[b]) {
        if b != a {
          KeepOthers(s, s', a, b);
        }
      }
    } else if Unlink(s, s', a) {
      UnlinkInv(s, s', initial, a);
    } else {
      LockInv(s, s', initial, a);
    }
  }

  lemma {:induction false} RunInv(run: seq<State>, initial: seq<seq<Frame>>, k: nat)
    requires Run(run, initial) && k < |run|
    ensures Inv(run[k], initial)
  {
    if k > 0 {
      RunInv(run, initial, k - 1);
      assert Step(run[k - 1], run[k - 1 + 1]);
      StepInv(run[k - 1], run[k], initial);
    }
  }

  /**
   In every state of every run the free frames and the frames handed out make up the initial
   frames, nothing is handed out twice, and a call that returns zero finds every thread empty.
   */
  lemma NoFrameTwice(run: seq<State>, initial: seq<seq<Frame>>, k: nat)
    requires Run(run, initial) && k < |run|
    ensures Flat(run[k].threads) + multiset(run[k].out) == Flat(initial)
    ensures forall i, j :: 0 <= i < j < |run[k].out| ==> run[k].out[i] != run[k].out[j]
    ensures forall x :: x in run[k].out ==> x !in Flat(run[k].threads)
    ensures forall a :: a in run[k].procs && run[k].procs[a].Returned? ==> run[k].procs[a].node in run[k].out
    ensures forall a :: a in run[k].procs && run[k].procs[a].ReturnedZero? ==>
              forall g :: 0 <= g < |run[k].threads| ==> run[k].threads[g] == []
  {
    RunInv(run, initial, k);
    var s := run[k];
    forall a | a in s.procs ensures ProcOk(s, a, s.procs[a]) {}
    PartsDistinct(Flat(s.threads), multiset(s.out), Flat(initial));
    DistinctSeq(s.out);
  }

  lemma PartsDistinct(a: multiset<Frame>, b: multiset<Frame>, m: multiset<Frame>)
    requires a + b == m && AllDistinct(m)
    ensures AllDistinct(b) && forall x :: x in b ==> x !in a
  {
    forall x ensures a[x] + b[x] <= 1 {
      assert (a + b)[x] == m[x];
    }
  }

  lemma DistinctSeq(s: seq<Frame>)
    requires AllDistinct(multiset(s))
    ensures forall i, j :: 0 <= i < j < |s| ==> s[i] != s[j]
  {
    forall i, j | 0 <= i < j < |s| ensures s[i] != s[j] {
      var x := s[i];
      assert multiset(s)[x] <= 1;
      Twice(s, i, j);
    }
  }

  lemma Twice(s: seq<Frame>, i: nat, j: nat)
    requires i < j < |s|
    ensures s[i] == s[j] ==> multiset(s)[s[i]] >= 2
  {
    assert s == s[..j] + s[j..];
    assert s[i] in s[..j] && s[j] in s[j..];
  }

  // ---- Progress

  /** A step of a call that is under way. */
  ghost predicate Proceeds(s: State, s': State, a: nat) {
    Lock(s, s', a) || GiveUp(s, s', a) || Look(s, s', a) || Unlink(s, s', a) || Unlock(s, s', a)
  }

  /** A lock is held by a call that is between locking and unlocking that thread. */
  ghost predicate Attended(s: State) {
    |s.threads| == |s.locks|
    && forall g :: 0 <= g < |s.locks| && s.locks[g].Some? ==>
         var a := s.locks[g].value;
         a in s.procs && Critical(s.procs[a]) && Grab(s, s.procs[a]) == g
  }

  lemma {:induction false} RunAttended(run: seq<State>, initial: seq<seq<Frame>>, k: nat)
    requires Run(run, initial) && k < |run|
    ensures Attended(run[k])
  {
    if k > 0 {
      RunAttended(run, initial, k - 1);
      RunInv(run, initial, k - 1);
      assert Step(run[k - 1], run[k - 1 + 1]);
      StepAttended(run[k - 1], run[k], initial);
    }
  }

  lemma StepAttended(s: State, s': State, initial: seq<seq<Frame>>)
    requires Inv(s, initial) && Attended(s) && Step(s, s')
    ensures Attended(s')
  {
    var a: nat, denoter: nat :| StepBy(s, s', a, denoter);
    AttendedStays(s, s', initial, a, denoter);
  }

  lemma AttendedStays(s: State, s': State, initial: seq<seq<Frame>>, a: nat, denoter: nat)
    requires Inv(s, initial) && Attended(s) && StepBy(s, s', a, denoter)
    ensures Attended(s')
  {
    assert a in s.procs ==> ProcOk(s, a, s.procs[a]);
  }

  /** In every run some call that is under way can proceed, if there is one. */
  lemma NeverStuck(run: seq<State>, initial: seq<seq<Frame>>, k: nat, a: nat) returns (b: nat, s': State)
    requires Run(run, initial) && k < |run| && a in run[k].procs
    requires !run[k].procs[a].Returned? && !run[k].procs[a].ReturnedZero?
    ensures Proceeds(run[k], s', b)
  {
    RunInv(run, initial, k);
    RunAttended(run, initial, k);
    var s := run[k];
    var p := s.procs[a];
    assert ProcOk(s, a, p);
    if p.Probing? && p.i == |s.threads| {
      b, s' := a, s.(procs := s.procs[a := ReturnedZero]);
    } else if p.Probing? && s.locks[Grab(s, p)] == None {
      var g := Grab(s, p);
      b, s' := a, s.(locks := s.locks[g := Some(a)], procs := s.procs[a := Holding(p.denoter, p.i)]);
    } else {
      b := if p.Probing? then s.locks[Grab(s, p)].value else a;
      s' := InsideProceeds(s, initial, b);
    }
  }

  lemma InsideProceeds(s: State, initial: seq<seq<Frame>>, b: nat) returns (s': State)
    requires Inv(s, initial) && b in s.procs && Critical(s.procs[b])
    ensures Proceeds(s, s', b)
  {
    var p := s.procs[b];
    assert ProcOk(s, b, p);
    var g := Grab(s, p);
    match p
    case Holding(d, i) =>
      s' := if s.threads[g] == [] then s.(locks := s.locks[g := None], procs := s.procs[b := Probing(d, i + 1)])
            else s.(procs := s.procs[b := Unlinking(d, i, s.threads[g][0])]);
    case Unlinking(d, i, node) =>
      s' := s.(threads := s.threads[g := After(s.threads[g], node)], procs := s.procs[b := Unlocking(d, i, node)],
               out := s.out + [node]);
    case Unlocking(_, _, node) =>
      s' := s.(locks := s.locks[g := None], procs := s.procs[b := Returned(node)]);
  }

  /** Consecutive steps of call `a`. */
  ghost predicate RunOf(run: seq<State>, a: nat) {
    run != [] && forall k :: 0 <= k < |run| - 1 ==> Proceeds(run[k], run[k + 1], a)
  }

  lemma Prefixed(s: State, s': State, rest: seq<State>, a: nat)
    requires Proceeds(s, s', a) && RunOf(rest, a) && rest[0] == s'
    ensures RunOf([s] + rest, a)
  {
    var run := [s] + rest;
    forall k | 0 <= k < |run| - 1 ensures Proceeds(run[k], run[k + 1], a) {
      assert k > 0 ==> Proceeds(rest[k - 1], rest[k - 1 + 1], a);
    }
  }

  /** The threads in the order of the probe. */
  ghost function Line(threads: seq<seq<Frame>>, denoter: nat): (line: seq<seq<Frame>>)
    ensures |line| == |threads|
  {
    seq(|threads|, j requires 0 <= j < |threads| => threads[C.Probe(j, denoter, |threads|)])
  }

  ghost predicate AllEmpty(line: seq<seq<Frame>>, i: nat) {
    forall j :: i <= j < |line| ==> line[j] == []
  }

  /** The thread that a probe from `i` on ends at: the first one that is not empty. */
  ghost predicate FirstFull(line: seq<seq<Frame>>, i: nat, j: nat) {
    i <= j < |line| && line[j] != [] && forall h :: i <= h < j ==> line[h] == []
  }

  /** The head of thread `g` was unlinked and returned, and nothing else happened. */
  ghost predicate HandsOut(s: State, e: State, a: nat, g: nat) {
    && g < |s.threads| && s.threads[g] != [] && a in e.procs
    && e.procs[a] == Returned(s.threads[g][0]) && e.threads == s.threads[g := s.threads[g][1..]]
    && e.out == s.out + [s.threads[g][0]]
  }

  lemma TakesHead(s: State, held: State, a: nat, g: nat) returns (run: seq<State>)
    requires a in s.procs && s.procs[a].Probing? && s.procs[a].i < |s.threads| == |s.locks| && g == Grab(s, s.procs[a])
    requires s.threads[g] != [] && s.locks[g] == None && Lock(s, held, a)
    ensures RunOf(run, a) && run[0] == s && HandsOut(s, run[|run| - 1], a, g) && run[|run| - 1].locks == s.locks
  {
    var p, node := s.procs[a], s.threads[g][0];
    var b := held.(procs := held.procs[a := Unlinking(p.denoter, p.i, node)]);
    var c := b.(threads := s.threads[g := After(s.threads[g], node)],
                procs := b.procs[a := Unlocking(p.denoter, p.i, node)], out := s.out + [node]);
    var d := c.(locks := c.locks[g := None], procs := c.procs[a := Returned(node)]);
    assert Look(held, b, a) && Unlink(b, c, a) && Unlock(c, d, a);
    run := [s, held, b, c, d];
    assert d.locks == s.locks;
  }

  /** What a call that nobody gets in between ends with, when it has probed `i` threads. */
  ghost predicate Completed(s: State, e: State, a: nat, denoter: nat, i: nat) {
    && a in e.procs && e.locks == s.locks
    && if AllEmpty(Line(s.threads, denoter), i)
       then e.procs[a] == ReturnedZero && e.threads == s.threads && e.out == s.out
       else exists j :: FirstFull(Line(s.threads, denoter), i, j)
                        && HandsOut(s, e, a, C.Probe(j, denoter, |s.threads|))
  }

  /** An empty thread is passed in two steps. */
  lemma PassesEmpty(s: State, a: nat) returns (held: State, next: State)
    requires a in s.procs && s.procs[a].Probing? && s.procs[a].i < |s.threads| == |s.locks|
    requires s.threads[Grab(s, s.procs[a])] == [] && s.locks[Grab(s, s.procs[a])] == None
    ensures Lock(s, held, a) && Look(held, next, a)
    ensures next == s.(procs := s.procs[a := Probing(s.procs[a].denoter, s.procs[a].i + 1)])
  {
    var p, g := s.procs[a], Grab(s, s.procs[a]);
    held := s.(locks := s.locks[g := Some(a)], procs := s.procs[a := Holding(p.denoter, p.i)]);
    next := held.(locks := held.locks[g := None], procs := held.procs[a := Probing(p.denoter, p.i + 1)]);
    assert next.locks == s.locks && next.procs == s.procs[a := Probing(p.denoter, p.i + 1)];
  }

  lemma FullLater(line: seq<seq<Frame>>, i: nat)
    requires i < |line| && line[i] == []
    ensures AllEmpty(line, i) <==> AllEmpty(line, i + 1)
    ensures forall j :: FirstFull(line, i + 1, j) ==> FirstFull(line, i, j)
  {}

  lemma CompletedBefore(s: State, next: State, e: State, a: nat, denoter: nat, i: nat)
    requires i < |s.threads| && Line(s.threads, denoter)[i] == []
    requires next.threads == s.threads && next.locks == s.locks && next.out == s.out
    requires Completed(next, e, a, denoter, i + 1)
    ensures Completed(s, e, a, denoter, i)
  {
    var line := Line(s.threads, denoter);
    FullLater(line, i);
    if !AllEmpty(line, i) {
      var j :| FirstFull(line, i + 1, j) && HandsOut(next, e, a, C.Probe(j, denoter, |s.threads|));
      assert FirstFull(line, i, j) && HandsOut(s, e, a, C.Probe(j, denoter, |s.threads|));
    }
  }

  /**
   A call that nobody gets in between hands out the head of the first thread that is not empty, and
   zero only if all of those it has yet to probe are empty.
   */
  lemma {:induction false} CallCompletes(s: State, a: nat) returns (run: seq<State>)
    requires a in s.procs && s.procs[a].Probing? && s.procs[a].i <= |s.threads| == |s.locks|
    requires forall g :: 0 <= g < |s.locks| ==> s.locks[g] == None
    ensures RunOf(run, a) && run[0] == s
    ensures Completed(s, run[|run| - 1], a, s.procs[a].denoter, s.procs[a].i)
    decreases |s.threads| - s.procs[a].i
  {
    var p := s.procs[a];
    if p.i == |s.threads| {
      run := [s, s.(procs := s.procs[a := ReturnedZero])];
    } else if s.threads[Grab(s, p)] == [] {
      var held, next := PassesEmpty(s, a);
      var rest := CallCompletes(next, a);
      Prefixed(held, next, rest, a);
      Prefixed(s, held, [held] + rest, a);
      run := [s] + ([held] + rest);
      CompletedBefore(s, next, rest[|rest| - 1], a, p.denoter, p.i);
    } else {
      var g := Grab(s, p);
      var held := s.(locks := s.locks[g := Some(a)], procs := s.procs[a := Holding(p.denoter, p.i)]);
      run := TakesHead(s, held, a, g);
      assert FirstFull(Line(s.threads, p.denoter), p.i, p.i);
    }
  }
}
