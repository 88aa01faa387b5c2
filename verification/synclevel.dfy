/**
 The SyncLevel discipline of AML mutexes: one method activation acquiring and releasing, the list
 of what it holds, and why no set of activations can wait for each other in a circle.
 */
module SyncLevel {
  import opened HeldArray

  const MAX_DEPTH := 0xFFFF

  datatype Status = Ok | Ignored | Denied | TimedOut | OutOfMemory | InvalidArgument

  type Mutex = nat

  type Thread = nat

  function LevelOf(level: map<Mutex, nat>, m: Mutex): nat {
    if m in level then level[m] else 0
  }

  /** The fields of all mutexes: the fixed level, and owner and depth of those that are owned. */
  datatype Mutexes = Mutexes(level: map<Mutex, nat>, owner: map<Mutex, Thread>, depth: map<Mutex, nat>) {
    function Level(m: Mutex): nat {
      LevelOf(level, m)
    }

    predicate OwnedBy(m: Mutex, t: Thread) {
      m in owner && owner[m] == t
    }
  }

  // ---- The list of held mutexes

  /** No mutex occurs twice, the levels never decrease, and a non-empty list ends at the current level. */
  ghost predicate Ordered(s: seq<Mutex>, level: map<Mutex, nat>, current: nat) {
    && (forall i, j :: 0 <= i < j < |s| ==> s[i] != s[j] && LevelOf(level, s[i]) <= LevelOf(level, s[j]))
    && (s != [] ==> LevelOf(level, s[|s| - 1]) == current)
  }

  lemma OrderedAppend(s: seq<Mutex>, level: map<Mutex, nat>, current: nat, m: Mutex)
    requires Ordered(s, level, current) && current <= LevelOf(level, m) && m !in s
    ensures Ordered(s + [m], level, LevelOf(level, m))
  {}

  /** The level the current one falls back to: that of the last entry, or 0. */
  ghost function LastOf(s: seq<Mutex>, level: map<Mutex, nat>): nat {
    if s == [] then 0 else LevelOf(level, s[|s| - 1])
  }

  ghost function Removed(s: seq<Mutex>, i: nat): seq<Mutex>
    requires i < |s|
  {
    s[..i] + s[i + 1..]
  }

  lemma OrderedRemove(s: seq<Mutex>, level: map<Mutex, nat>, current: nat, i: nat)
    requires Ordered(s, level, current) && i < |s|
    ensures var r := Removed(s, i); Ordered(r, level, LastOf(r, level))
    ensures s[i] !in Removed(s, i) && forall m :: m in Removed(s, i) ==> m in s
  {
    var r := Removed(s, i);
    assert forall j :: 0 <= j < |r| ==> r[j] == s[if j < i then j else j + 1];
  }

  /** The list holds exactly the mutexes the thread owns. */
  ghost predicate Owned(s: seq<Mutex>, ms: Mutexes, t: Thread) {
    && (forall i :: 0 <= i < |s| ==> ms.OwnedBy(s[i], t) && s[i] in ms.depth && ms.depth[s[i]] > 0)
    && (forall m {:trigger Listed(s, m)} :: ms.OwnedBy(m, t) ==> Listed(s, m))
  }

  ghost predicate Listed(s: seq<Mutex>, m: Mutex) {
    m in s
  }

  /** The list of one activation, its current level, and the state of the mutexes. */
  ghost predicate Disciplined(s: seq<Mutex>, ms: Mutexes, t: Thread, current: nat) {
    Ordered(s, ms.level, current) && Owned(s, ms, t)
  }

  lemma Pushed(s: seq<Mutex>, ms: Mutexes, ms': Mutexes, t: Thread, current: nat, m: Mutex)
    requires Disciplined(s, ms, t, current) && current <= ms.Level(m) && !ms.OwnedBy(m, t)
    requires ms' == ms.(owner := ms.owner[m := t], depth := ms.depth[m := 1])
    ensures Disciplined(s + [m], ms', t, ms.Level(m))
  {
    assert m !in s;
    OrderedAppend(s, ms.level, current, m);
    forall k | ms'.OwnedBy(k, t) ensures Listed(s + [m], k) {
      assert k != m ==> Listed(s, k);
    }
  }

  lemma Deepened(s: seq<Mutex>, ms: Mutexes, ms': Mutexes, t: Thread, current: nat, m: Mutex, d: nat)
    requires Disciplined(s, ms, t, current) && (d > 0 || m !in s)
    requires ms' == ms.(depth := ms.depth[m := d])
    ensures Disciplined(s, ms', t, current)
  {
    forall k | ms'.OwnedBy(k, t) ensures Listed(s, k) {
      assert ms.OwnedBy(k, t);
    }
  }

  lemma TakenOut(s: seq<Mutex>, ms: Mutexes, ms': Mutexes, t: Thread, current: nat, i: nat)
    requires Disciplined(s, ms, t, current) && i < |s|
    requires ms' == ms.(owner := ms.owner - {s[i]}, depth := ms.depth[s[i] := 0])
    ensures var r := Removed(s, i); Disciplined(r, ms', t, LastOf(r, ms.level))
  {
    OrderedRemove(s, ms.level, current, i);
    var r := Removed(s, i);
    forall j | 0 <= j < |r| ensures ms'.OwnedBy(r[j], t) && r[j] in ms'.depth && ms'.depth[r[j]] > 0 {
      assert r[j] in r;
    }
    forall m | ms'.OwnedBy(m, t) ensures Listed(r, m) {
      assert Listed(s, m);
      var j :| 0 <= j < |s| && s[j] == m;
      assert r[if j < i then j else j - 1] == m;
    }
  }

  // ---- What an activation does, and what it leaves to the others

  /** What an acquire of `m` by `t` makes of its list `s`, its current level and the mutexes. */
  ghost predicate Acquired(t: Thread, s: seq<Mutex>, current: nat, ms: Mutexes, m: Mutex, status: Status,
                           s': seq<Mutex>, current': nat, ms': Mutexes)
  {
    if current > ms.Level(m) then
      status == Ignored && s' == s && current' == current && ms' == ms
    else if ms.OwnedBy(m, t) then
      && m in ms.depth && s' == s && current' == current
      && if ms.depth[m] == MAX_DEPTH then status == Denied && ms' == ms
         else status == Ok && ms' == ms.(depth := ms.depth[m := ms.depth[m] + 1])
    else if status == Ok then
      && m !in ms.owner && s' == s + [m] && current' == ms.Level(m)
      && ms' == ms.(owner := ms.owner[m := t], depth := ms.depth[m := 1])
    else if status == OutOfMemory then
      m !in ms.owner && s' == s && current' == current && ms' == ms.(depth := ms.depth[m := 0])
    else
      status == TimedOut && s' == s && current' == current && ms' == ms
  }

  /** What releasing a held mutex of the current level does; `at` is where it stood in the list. */
  ghost predicate Undone(s: seq<Mutex>, current: nat, ms: Mutexes, m: Mutex, at: nat,
                         s': seq<Mutex>, current': nat, ms': Mutexes)
  {
    && m in ms.depth && ms.depth[m] > 0
    && if ms.depth[m] > 1 then s' == s && current' == current && ms' == ms.(depth := ms.depth[m := ms.depth[m] - 1])
       else
         && at < |s| && s[at] == m && s' == Removed(s, at) && current' == LastOf(s', ms.level)
         && ms' == ms.(owner := ms.owner - {m}, depth := ms.depth[m := 0])
  }

  /** Only `m` has changed, and it was not `u`'s before or after. */
  ghost predicate ChangedFor(ms: Mutexes, ms': Mutexes, m: Mutex, u: Thread) {
    && ms'.level == ms.level && !ms.OwnedBy(m, u) && !ms'.OwnedBy(m, u)
    && (forall k :: k != m ==> (ms'.OwnedBy(k, u) <==> ms.OwnedBy(k, u)))
    && (forall k :: k != m && k in ms.depth ==> k in ms'.depth && ms'.depth[k] == ms.depth[k])
  }

  /** What one activation does with a mutex leaves the discipline of every other one alone. */
  lemma OthersKeep(s: seq<Mutex>, ms: Mutexes, ms': Mutexes, u: Thread, current: nat, m: Mutex)
    requires Disciplined(s, ms, u, current) && ChangedFor(ms, ms', m, u)
    ensures Disciplined(s, ms', u, current)
  {
    forall i | 0 <= i < |s| ensures ms'.OwnedBy(s[i], u) && s[i] in ms'.depth && ms'.depth[s[i]] > 0 {
      assert ms.OwnedBy(s[i], u);
    }
    forall k | ms'.OwnedBy(k, u) ensures Listed(s, k) {
      assert ms.OwnedBy(k, u);
    }
  }

  lemma AcquireForOthers(t: Thread, s: seq<Mutex>, current: nat, ms: Mutexes, m: Mutex, status: Status,
                         s': seq<Mutex>, current': nat, ms': Mutexes, u: Thread, su: seq<Mutex>, cu: nat)
    requires Acquired(t, s, current, ms, m, status, s', current', ms') && t != u && Disciplined(su, ms, u, cu)
    ensures Disciplined(su, ms', u, cu)
  {
    if ms' != ms {
      OthersKeep(su, ms, ms', u, cu, m);
    }
  }

  lemma ReleaseForOthers(t: Thread, s: seq<Mutex>, current: nat, ms: Mutexes, m: Mutex, at: nat,
                         s': seq<Mutex>, current': nat, ms': Mutexes, u: Thread, su: seq<Mutex>, cu: nat)
    requires ms.OwnedBy(m, t) && Undone(s, current, ms, m, at, s', current', ms') && t != u
    requires Disciplined(su, ms, u, cu)
    ensures Disciplined(su, ms', u, cu)
  {
    OthersKeep(su, ms, ms', u, cu, m);
  }

  // ---- The mutexes, shared by all activations

  class Table {
    var ms: Mutexes

    constructor (level: map<Mutex, nat>)
      ensures ms == Mutexes(level, map[], map[])
    {
      ms := Mutexes(level, map[], map[]);
    }

    /**
     uacpi_acquire_aml_mutex. `granted` says whether the native mutex is obtained in time; it never
     is while somebody else has it.
     */
    method Acquire(m: Mutex, t: Thread, granted: bool) returns (status: Status)
      requires ms.OwnedBy(m, t) ==> m in ms.depth
      modifies this
      ensures old(ms).OwnedBy(m, t) ==> status == if old(ms).depth[m] == 65535 then Denied else Ok
      ensures !old(ms).OwnedBy(m, t) ==> status == if granted && m !in old(ms).owner then Ok else TimedOut
      ensures status != Ok ==> ms == old(ms)
      ensures status == Ok ==> ms == old(ms).(owner := old(ms).owner[m := t],
                depth := old(ms).depth[m := if old(ms).OwnedBy(m, t) then old(ms).depth[m] + 1 else 1])
    {
      if ms.OwnedBy(m, t) {
        if ms.depth[m] == MAX_DEPTH {
          return Denied;
        }
        ms := ms.(depth := ms.depth[m := ms.depth[m] + 1]);
        assert ms.owner == old(ms).owner[m := t];
        return Ok;
      }
      if !granted || m in ms.owner {
        return TimedOut;
      }
      ms := ms.(owner := ms.owner[m := t], depth := ms.depth[m := 1]);
      status := Ok;
    }

    /** uacpi_release_aml_mutex. */
    method Release(m: Mutex)
      requires m in ms.owner && m in ms.depth && ms.depth[m] > 0
      modifies this
      ensures ms == old(ms).(depth := old(ms).depth[m := old(ms).depth[m] - 1],
                             owner := if old(ms).depth[m] > 1 then old(ms).owner else old(ms).owner - {m})
    {
      var before := ms.depth[m];
      ms := ms.(depth := ms.depth[m := before - 1]);
      if before > 1 {
        return;
      }
      ms := ms.(owner := ms.owner - {m});
    }
  }

  // ---- One activation

  class Context {
    const thread: Thread
    const table: Table
    const held: Held<Mutex>
    var syncLevel: nat

    ghost predicate Valid()
      reads this, table, held, held.fixed, held.dynamic
    {
      held.Valid() && Disciplined(held.contents, table.ms, thread, syncLevel)
    }

    constructor (thread: Thread, table: Table, syncLevel: nat)
      requires forall m :: m in table.ms.owner ==> table.ms.owner[m] != thread
      ensures Valid() && held.contents == [] && this.thread == thread && this.table == table
      ensures this.syncLevel == syncLevel
      ensures fresh(held) && fresh(held.fixed) && fresh(held.dynamic)
    {
      this.thread, this.table, this.syncLevel := thread, table, syncLevel;
      held := new Held();
    }

    /** The mutex is already owned: it only gets deeper. */
    method AcquireAgain(m: Mutex, granted: bool) returns (status: Status)
      requires Valid() && table.ms.OwnedBy(m, thread)
      ensures m in old(table.ms).depth
      modifies table
      ensures Valid() && table.ms.level == old(table.ms.level) && table.ms.owner == old(table.ms.owner)
      ensures status == if old(table.ms).depth[m] == MAX_DEPTH then Denied else Ok
      ensures status == Ok ==> table.ms.depth == old(table.ms).depth[m := old(table.ms).depth[m] + 1]
      ensures status != Ok ==> table.ms == old(table.ms)
    {
      ghost var s, before := held.contents, table.ms;
      assert Listed(s, m);
      status := table.Acquire(m, thread, granted);
      if status == Ok {
        assert table.ms.owner == before.owner;
        Deepened(s, before, table.ms, thread, syncLevel, m, before.depth[m] + 1);
      }
    }

    /** Acquires and lists a mutex; if there is no room for it in the list it is given back. */
    method AcquireAndPush(m: Mutex, granted: bool, room: bool) returns (status: Status)
      requires held.Valid() && !table.ms.OwnedBy(m, thread)
      modifies this`syncLevel, table, held, held.fixed, held.dynamic
      ensures held.Valid() && (held.dynamic == old(held.dynamic) || fresh(held.dynamic))
      ensures status == Ok || status == TimedOut || status == OutOfMemory
      ensures granted && room && m !in old(table.ms).owner ==> status == Ok
      ensures status == Ok ==>
                && m !in old(table.ms).owner && held.contents == old(held.contents) + [m]
                   && syncLevel == table.ms.Level(m)
                && table.ms == old(table.ms).(owner := old(table.ms).owner[m := thread],
                                              depth := old(table.ms).depth[m := 1])
      ensures status != Ok ==> held.contents == old(held.contents) && syncLevel == old(syncLevel)
      ensures status == TimedOut ==> table.ms == old(table.ms)
      ensures status == OutOfMemory ==>
                m !in old(table.ms).owner && table.ms == old(table.ms).(depth := old(table.ms).depth[m := 0])
    {
      status := table.Acquire(m, thread, granted);
      if status != Ok {
        return;
      }
      var ok := held.Push(m, room);
      if !ok {
        table.Release(m);
        assert table.ms.owner == old(table.ms.owner);
        return OutOfMemory;
      }
      syncLevel := table.ms.Level(m);
    }

    /** The mutex is not owned by this thread. */
    method AcquireNew(m: Mutex, granted: bool, room: bool) returns (status: Status)
      requires Valid() && !table.ms.OwnedBy(m, thread) && syncLevel <= table.ms.Level(m)
      modifies this`syncLevel, table, held, held.fixed, held.dynamic
      ensures Valid() && (held.dynamic == old(held.dynamic) || fresh(held.dynamic))
      ensures granted && room && m !in old(table.ms).owner ==> status == Ok
      ensures Acquired(thread, old(held.contents), old(syncLevel), old(table.ms), m, status, held.contents, syncLevel,
                       table.ms)
    {
      ghost var s, before, level := held.contents, table.ms, syncLevel;
      status := AcquireAndPush(m, granted, room);
      if status == Ok {
        Pushed(s, before, table.ms, thread, level, m);
      } else if status == OutOfMemory {
        assert m !in s;
        Deepened(s, before, table.ms, thread, level, m, 0);
      }
    }

    /**
     handle_mutex_ctl, AcquireOp. A mutex below the current level is ignored; one already owned only
     gets deeper; otherwise it becomes the last entry and the current level becomes its level.
     */
    method Acquire(m: Mutex, granted: bool, room: bool) returns (status: Status)
      requires Valid()
      modifies this`syncLevel, table, held, held.fixed, held.dynamic
      ensures Valid() && (held.dynamic == old(held.dynamic) || fresh(held.dynamic))
      ensures Acquired(thread, old(held.contents), old(syncLevel), old(table.ms), m, status, held.contents, syncLevel,
                       table.ms)
      ensures old(syncLevel) <= old(table.ms).Level(m) && granted && room && m !in old(table.ms).owner ==> status == Ok
    {
      if syncLevel > table.ms.Level(m) {
        return Ignored;
      }
      if table.ms.OwnedBy(m, thread) {
        assert Listed(held.contents, m);
        status := AcquireAgain(m, granted);
      } else {
        status := AcquireNew(m, granted, room);
      }
    }

    /** Searches the list from its end. */
    method FindBackwards(m: Mutex) returns (i: nat)
      requires held.Valid() && m in held.contents
      ensures i < held.size && held.contents[i] == m
    {
      i := held.size;
      ghost var s := held.contents;
      while true
        invariant 0 < i <= held.size && (forall k :: i <= k < held.size ==> s[k] != m) && held.Valid()
        invariant held.contents == s
        decreases i
      {
        i := i - 1;
        var item := held.At(i);
        if item == m {
          break;
        }
        assert i > 0 by {
          var j :| 0 <= j < |s| && s[j] == m;
        }
      }
    }

    /** The last release of a held mutex: out of the list, where it stood at `at`, and back to the system. */
    method TakeOut(m: Mutex) returns (ghost at: nat)
      requires held.Valid() && m in held.contents && m in table.ms.owner
      modifies this`syncLevel, table, held`size, held`contents, held.fixed, held.dynamic
      ensures held.Valid() && at < |old(held.contents)| && old(held.contents)[at] == m
      ensures held.contents == Removed(old(held.contents), at)
      ensures table.ms == old(table.ms).(owner := old(table.ms).owner - {m}, depth := old(table.ms).depth[m := 0])
      ensures syncLevel == LastOf(held.contents, table.ms.level)
    {
      at := RemoveFromList(m);
      table.ms := table.ms.(depth := table.ms.depth[m := 1]);
      table.Release(m);
      syncLevel := 0;
      if held.size > 0 {
        var item := held.At(held.size - 1);
        syncLevel := table.ms.Level(item);
      }
    }

    method RemoveFromList(m: Mutex) returns (ghost at: nat)
      requires held.Valid() && m in held.contents
      modifies held`size, held`contents, held.fixed, held.dynamic
      ensures held.Valid() && at < |old(held.contents)| && old(held.contents)[at] == m
      ensures held.contents == Removed(old(held.contents), at)
    {
      var item := held.At(held.size - 1);
      if item == m {
        at := held.size - 1;
        held.Pop();
        return;
      }
      var i := FindBackwards(m);
      held.RemoveIdx(i);
      at := i;
    }

    /** One of several acquires is undone. */
    method ReleaseInner(m: Mutex)
      requires Valid() && m in held.contents && m in table.ms.depth && table.ms.depth[m] > 1
      modifies table
      ensures Valid() && table.ms == old(table.ms).(depth := old(table.ms).depth[m := old(table.ms).depth[m] - 1])
    {
      ghost var s, before := held.contents, table.ms;
      table.Release(m);
      Deepened(s, before, table.ms, thread, syncLevel, m, before.depth[m] - 1);
    }

    /** The list is not empty when the thread owns something, and it ends at the current level. */
    lemma LastLevel(m: Mutex)
      requires Valid() && table.ms.OwnedBy(m, thread)
      ensures m in held.contents && held.size > 0 && table.ms.Level(held.contents[held.size - 1]) == syncLevel
      ensures m in table.ms.depth && table.ms.depth[m] > 0
    {
      assert Listed(held.contents, m);
    }

    method ReleaseHeld(m: Mutex) returns (ghost at: nat)
      requires Valid() && m in held.contents
      modifies this`syncLevel, table, held`size, held`contents, held.fixed, held.dynamic
      ensures Valid()
      ensures Undone(old(held.contents), old(syncLevel), old(table.ms), m, at, held.contents, syncLevel, table.ms)
    {
      at := 0;
      if table.ms.depth[m] > 1 {
        ReleaseInner(m);
      } else {
        ghost var s, before, level := held.contents, table.ms, syncLevel;
        at := TakeOut(m);
        TakenOut(s, before, table.ms, thread, level, at);
      }
    }

    /**
     handle_mutex_ctl, ReleaseOp. Only a mutex of the current level is released; the last release
     takes it out of the list, wherever it stands, and the level falls back to the new last entry.
     */
    method Release(m: Mutex) returns (status: Status, ghost at: nat)
      requires Valid()
      modifies this`syncLevel, table, held`size, held`contents, held.fixed, held.dynamic
      ensures Valid()
      ensures status == if old(table.ms).OwnedBy(m, thread) && old(table.ms).Level(m) == old(syncLevel) then Ok
              else Ignored
      ensures status == Ignored ==>
                held.contents == old(held.contents) && syncLevel == old(syncLevel) && table.ms == old(table.ms)
      ensures status == Ok ==> Undone(old(held.contents), old(syncLevel), old(table.ms), m, at, held.contents,
                                      syncLevel, table.ms)
    {
      at := 0;
      if !table.ms.OwnedBy(m, thread) {
        return Ignored, at;
      }
      LastLevel(m);
      var last := held.At(held.size - 1);
      if table.ms.Level(last) != table.ms.Level(m) {
        return Ignored, at;
      }
      at := ReleaseHeld(m);
      status := Ok;
    }
  }

  datatype Op = AcquireOp(m: Mutex, granted: bool, room: bool) | ReleaseOp(m: Mutex)

  /** Any run of acquires and releases of one activation keeps the discipline. */
  method RunOps(c: Context, ops: seq<Op>)
    requires c.Valid()
    modifies c`syncLevel, c.table, c.held, c.held.fixed, c.held.dynamic
    ensures c.Valid()
  {
    for k := 0 to |ops|
      invariant c.Valid() && (c.held.dynamic == old(c.held.dynamic) || fresh(c.held.dynamic))
    {
      match ops[k]
      case AcquireOp(m, granted, room) => var _ := c.Acquire(m, granted, room);
      case ReleaseOp(m) => var _, _ := c.Release(m);
    }
  }

  /**
   Acquiring a mutex and releasing it again leaves the list and the owners as they were, and the current level too,
   unless nothing else is held: then it becomes zero, even if the activation began above that.
   */
  method AcquireThenRelease(c: Context, m: Mutex, granted: bool, room: bool) returns (status: Status)
    requires c.Valid() && !c.table.ms.OwnedBy(m, c.thread)
    modifies c`syncLevel, c.table, c.held, c.held.fixed, c.held.dynamic
    ensures c.Valid() && c.held.contents == old(c.held.contents) && c.table.ms.owner == old(c.table.ms.owner)
    ensures status == Ok ==> c.syncLevel == if c.held.contents == [] then 0 else old(c.syncLevel)
    ensures status != Ok ==> c.syncLevel == old(c.syncLevel)
    ensures granted && room && old(c.syncLevel) <= old(c.table.ms).Level(m) && m !in old(c.table.ms).owner ==>
            status == Ok
  {
    ghost var s, current, ms := c.held.contents, c.syncLevel, c.table.ms;
    status := c.Acquire(m, granted, room);
    if status == Ok {
      ghost var s1, current1, ms1 := c.held.contents, c.syncLevel, c.table.ms;
      var _, at := c.Release(m);
      AcquireUndone(c.thread, s, current, ms, m, at, c.held.contents, c.syncLevel, c.table.ms);
    }
  }

  lemma AcquireUndone(t: Thread, s: seq<Mutex>, current: nat, ms: Mutexes, m: Mutex, at: nat, s': seq<Mutex>,
                      current': nat, ms': Mutexes)
    requires Disciplined(s, ms, t, current) && !ms.OwnedBy(m, t) && m !in ms.owner
    requires Undone(s + [m], ms.Level(m), ms.(owner := ms.owner[m := t], depth := ms.depth[m := 1]), m, at, s',
                    current', ms')
    ensures s' == s && ms'.owner == ms.owner && current' == if s == [] then 0 else current
  {
    assert m !in s;
    assert at == |s|;
    assert ms.owner[m := t] - {m} == ms.owner;
  }

  /** Two activations of different threads over the same mutexes, each with a list of its own. */
  ghost predicate Beside(c: Context, d: Context)
    reads c, d, c.held, d.held
  {
    && c != d && c.table == d.table && c.thread != d.thread && c.held != d.held
    && {c.held.fixed, c.held.dynamic} !! {d.held.fixed, d.held.dynamic}
  }

  /** An operation of one activation keeps the discipline of another. */
  method ActBeside(c: Context, d: Context, op: Op)
    requires c.Valid() && d.Valid() && Beside(c, d)
    modifies c`syncLevel, c.table, c.held, c.held.fixed, c.held.dynamic
    ensures c.Valid() && d.Valid() && Beside(c, d)
  {
    ghost var s, current, ms := c.held.contents, c.syncLevel, c.table.ms;
    match op
    case AcquireOp(m, granted, room) =>
      var status := c.Acquire(m, granted, room);
      AcquireForOthers(c.thread, s, current, ms, m, status, c.held.contents, c.syncLevel, c.table.ms,
                       d.thread, d.held.contents, d.syncLevel);
    case ReleaseOp(m) =>
      var status, at := c.Release(m);
      if status == Ok {
        ReleaseForOthers(c.thread, s, current, ms, m, at, c.held.contents, c.syncLevel, c.table.ms,
                         d.thread, d.held.contents, d.syncLevel);
      }
  }

  // ---- Activations that wait

  /** An activation that passed the level test and waits for a mutex it does not own. */
  datatype Waiter = Waiter(held: seq<Mutex>, current: nat, wanted: Mutex) {
    ghost predicate Admitted(level: map<Mutex, nat>) {
      Ordered(held, level, current) && wanted !in held && (held != [] ==> current <= LevelOf(level, wanted))
    }
  }

  /** A context that is about to wait in Acquire is such a waiter. */
  lemma WaitingContext(c: Context, m: Mutex)
    requires c.Valid() && c.syncLevel <= c.table.ms.Level(m) && !c.table.ms.OwnedBy(m, c.thread)
    ensures Waiter(c.held.contents, c.syncLevel, m).Admitted(c.table.ms.level)
  {}

  /** Each waits for a mutex the next one holds, and the last for one the first holds. */
  ghost predicate WaitCycle(ws: seq<Waiter>) {
    ws != [] && forall i :: 0 <= i < |ws| ==> ws[i].wanted in ws[if i + 1 < |ws| then i + 1 else 0].held
  }

  ghost predicate DistinctLevels(level: map<Mutex, nat>) {
    forall a: Mutex, b: Mutex :: LevelOf(level, a) == LevelOf(level, b) && a in level && b in level ==> a == b
  }

  lemma WaitsUpwards(w: Waiter, level: map<Mutex, nat>, m: Mutex)
    requires w.Admitted(level) && DistinctLevels(level) && m in w.held && m in level && w.wanted in level
    ensures LevelOf(level, m) < LevelOf(level, w.wanted)
  {
    var i :| 0 <= i < |w.held| && w.held[i] == m;
    assert LevelOf(level, w.held[i]) <= LevelOf(level, w.held[|w.held| - 1]);
  }

  lemma {:induction false} LevelsRise(ws: seq<Waiter>, level: map<Mutex, nat>, k: nat)
    requires WaitCycle(ws) && DistinctLevels(level) && k < |ws|
    requires forall i :: 0 <= i < |ws| ==> ws[i].Admitted(level) && ws[i].wanted in level
    ensures LevelOf(level, ws[0].wanted) + k <= LevelOf(level, ws[k].wanted)
  {
    if k > 0 {
      LevelsRise(ws, level, k - 1);
      WaitsUpwards(ws[k], level, ws[k - 1].wanted);
    }
  }

  /** With pairwise distinct levels no set of activations, however many, forms a wait cycle. */
  lemma NoWaitCycle(ws: seq<Waiter>, level: map<Mutex, nat>)
    requires DistinctLevels(level)
    requires forall i :: 0 <= i < |ws| ==> ws[i].Admitted(level) && ws[i].wanted in level
    ensures !WaitCycle(ws)
  {
    if WaitCycle(ws) {
      LevelsRise(ws, level, |ws| - 1);
      WaitsUpwards(ws[0], level, ws[|ws| - 1].wanted);
    }
  }
}
