/**
 The "curtain" page-frame allocator: an array of threads, one per 2 MiB of physical memory,
 each a singly linked list of free page frames whose links live inside the free frames.
 */
module Curtain {
  import opened PhysMem

  const THREAD_ADDRESS_RANGE: nat := 2097152

  /** The thread that a frame hangs from. */
  function ThreadOf(f: bv64): nat {
    (f as nat) / THREAD_ADDRESS_RANGE
  }

  /** Following `next` links from `head` visits exactly the frames of `s` and then NULL. */
  ghost predicate IsList(m: Memory, head: bv64, s: seq<bv64>)
    decreases |s|
  {
    if s == [] then head == 0
    else head == s[0] && head != 0 && IsList(m, Read(m, head), s[1..])
  }

  ghost predicate Distinct(s: seq<bv64>) {
    forall i, j :: 0 <= i < j < |s| ==> s[i] != s[j]
  }

  ghost predicate AllFrames(s: seq<bv64>) {
    forall k :: 0 <= k < |s| ==> IsFrame(s[k])
  }

  /** Thread `g` holds distinct page frames, all of its own range. */
  ghost predicate WellHungThread(t: seq<bv64>, tid: bv64 -> nat, g: nat) {
    && Distinct(t)
    && AllFrames(t)
    && (forall k :: 0 <= k < |t| ==> tid(t[k]) == g)
  }

  ghost predicate WellHung(threads: seq<seq<bv64>>, tid: bv64 -> nat) {
    forall g :: 0 <= g < |threads| ==> WellHungThread(threads[g], tid, g)
  }

  ghost function Frames(threads: seq<seq<bv64>>): set<bv64> {
    set g, k | 0 <= g < |threads| && 0 <= k < |threads[g]| :: threads[g][k]
  }

  /** The frames of `s` that hang from thread `g`, in order. */
  ghost function OnThread(s: seq<bv64>, tid: bv64 -> nat, g: nat): seq<bv64> {
    if s == [] then [] else (if tid(s[0]) == g then [s[0]] else []) + OnThread(s[1..], tid, g)
  }

  /** The list left by putting the pages, first to last, at the head of an empty one. */
  ghost function HungUp(pages: seq<bv64>): seq<bv64> {
    if pages == [] then [] else [pages[|pages| - 1]] + HungUp(pages[..|pages| - 1])
  }

  // ---- Lists

  // A list is untouched by a write to a word that is not one of its nodes.
  lemma {:induction false} ListFrame(m: Memory, m': Memory, head: bv64, s: seq<bv64>)
    requires IsList(m, head, s)
    requires forall k :: 0 <= k < |s| ==> Read(m', s[k]) == Read(m, s[k])
    ensures IsList(m', head, s)
    decreases |s|
  {
    if s != [] {
      assert Read(m', s[0]) == Read(m, s[0]);
      forall k | 0 <= k < |s[1..]| ensures Read(m', s[1..][k]) == Read(m, s[1..][k]) {
        assert s[1..][k] == s[k + 1];
      }
      ListFrame(m, m', Read(m, head), s[1..]);
    }
  }

  lemma FrameBase(f: bv64)
    requires IsFrame(f)
    ensures FrameOf(f) == f
  {}

  // Linking `node` in front of a list that does not contain it.
  lemma ListPush(m: Memory, head: bv64, s: seq<bv64>, node: bv64)
    requires IsList(m, head, s) && node !in s && node != 0
    ensures IsList(Write(m, node, head), node, [node] + s)
  {
    ListFrame(m, Write(m, node, head), head, s);
    assert ([node] + s)[1..] == s;
  }

  lemma ListWriteElsewhere(m: Memory, head: bv64, s: seq<bv64>, a: bv64, v: bv64)
    requires IsList(m, head, s) && a !in s
    ensures IsList(Write(m, a, v), head, s)
  {
    ListFrame(m, Write(m, a, v), head, s);
  }

  // Zeroing a frame that is not on a list leaves the list alone.
  lemma ListZeroElsewhere(m: Memory, head: bv64, s: seq<bv64>, f: bv64)
    requires IsList(m, head, s) && AllFrames(s) && f !in s
    ensures IsList(ZeroFrame(m, f), head, s)
  {
    var m' := ZeroFrame(m, f);
    forall k | 0 <= k < |s| ensures Read(m', s[k]) == Read(m, s[k]) {
      FrameBase(s[k]);
      ReadZeroed(m, f, s[k]);
    }
    ListFrame(m, m', head, s);
  }

  // ---- The circular probe

  /** The thread examined at step `i` of a circular probe of `n` threads. */
  function Probe(i: nat, denoter: nat, n: nat): (g: nat)
    requires n > 0
    ensures g < n
  {
    (i + denoter) % n
  }

  // A circular probe that starts anywhere reaches every thread.
  lemma ProbeReaches(n: nat, start: nat, g: nat) returns (i: nat)
    requires g < n
    ensures i < n && Probe(i, start, n) == g
  {
    var r := start % n;
    i := if g >= r then g - r else g - r + n;
    ModAdd(if g >= r then start / n else start / n + 1, n, g);
    assert (start / n + 1) * n == (start / n) * n + n;
  }

  lemma ModAdd(q: nat, n: nat, g: nat)
    requires g < n
    ensures (q * n + g) % n == g
  {
    var x := q * n + g;
    var d := x / n - q;
    assert d * n == g - x % n by {
      assert x == (x / n) * n + x % n;
      assert d * n == (x / n) * n - q * n;
    }
    if d > 0 {
      TimesAtLeast(d, n);
    } else if d < 0 {
      TimesAtLeast(-d, n);
    }
  }

  lemma TimesAtLeast(d: int, n: int)
    requires d >= 1 && n >= 0
    ensures d * n >= n && (-d) * n <= -n
  {
    var e := d - 1;
    assert e * n >= 0;
    assert d * n == e * n + n;
  }

  // ---- Hanging

  lemma {:induction false} OnThreadSound(s: seq<bv64>, tid: bv64 -> nat, g: nat)
    ensures forall x :: x in OnThread(s, tid, g) <==> x in s && tid(x) == g
  {
    if s != [] {
      OnThreadSound(s[1..], tid, g);
      assert s == [s[0]] + s[1..];
    }
  }

  lemma {:induction false} OnThreadDistinct(s: seq<bv64>, tid: bv64 -> nat, g: nat)
    requires Distinct(s)
    ensures Distinct(OnThread(s, tid, g))
  {
    if s != [] {
      OnThreadDistinct(s[1..], tid, g);
      OnThreadSound(s[1..], tid, g);
    }
  }

  lemma {:induction false} OnThreadAppend(s: seq<bv64>, x: bv64, tid: bv64 -> nat, g: nat)
    ensures OnThread(s + [x], tid, g) == OnThread(s, tid, g) + (if tid(x) == g then [x] else [])
  {
    if s == [] {
      assert s + [x] == [x];
      assert [x][1..] == [];
    } else {
      OnThreadAppend(s[1..], x, tid, g);
      assert (s + [x])[1..] == s[1..] + [x];
    }
  }

  /** The page hung last comes first. */
  lemma {:induction false} HungOrder(pages: seq<bv64>, k: nat)
    requires k < |pages|
    ensures |HungUp(pages)| == |pages| && HungUp(pages)[k] == pages[|pages| - 1 - k]
  {
    var earlier := pages[..|pages| - 1];
    if k > 0 {
      HungOrder(earlier, k - 1);
    } else {
      HungSame(earlier);
    }
  }

  lemma HungOneMore(pages: seq<bv64>, x: bv64)
    ensures HungUp(pages + [x]) == [x] + HungUp(pages)
  {
    assert (pages + [x])[..|pages|] == pages;
  }

  // A thread built by hanging `pages` holds exactly the pages of its own range.
  lemma HungThread(pages: seq<bv64>, tid: bv64 -> nat, g: nat)
    requires Distinct(pages) && AllFrames(pages)
    ensures WellHungThread(HungUp(OnThread(pages, tid, g)), tid, g)
    ensures forall x :: x in HungUp(OnThread(pages, tid, g)) <==> x in pages && tid(x) == g
  {
    var s := OnThread(pages, tid, g);
    var t := HungUp(s);
    OnThreadDistinct(pages, tid, g);
    OnThreadSound(pages, tid, g);
    HungSame(s);
    if s != [] { HungOrder(s, 0); }
    forall k | 0 <= k < |t| ensures t[k] == s[|s| - 1 - k] && t[k] in s && IsFrame(t[k]) {
      HungOrder(s, k);
      assert t[k] in s;
      assert t[k] in pages;
    }
  }

  lemma {:induction false} HungSame(pages: seq<bv64>)
    ensures |HungUp(pages)| == |pages|
    ensures forall x :: x in HungUp(pages) <==> x in pages
  {
    if pages != [] {
      var earlier := pages[..|pages| - 1];
      HungSame(earlier);
      assert pages == earlier + [pages[|pages| - 1]];
    }
  }

  /**
   Hanging loses no frame, duplicates none and puts each on the thread of its 2 MiB range.
   */
  lemma HangingPartitions(pages: seq<bv64>, tid: bv64 -> nat, threads: seq<seq<bv64>>)
    requires Distinct(pages) && AllFrames(pages)
    requires forall k :: 0 <= k < |pages| ==> tid(pages[k]) < |threads|
    requires forall g :: 0 <= g < |threads| ==> threads[g] == HungUp(OnThread(pages, tid, g))
    ensures WellHung(threads, tid)
    ensures forall x :: x in Frames(threads) <==> x in pages
  {
    forall g | 0 <= g < |threads|
      ensures WellHungThread(threads[g], tid, g)
      ensures forall x :: x in threads[g] <==> x in pages && tid(x) == g
    {
      HungThread(pages, tid, g);
    }
    forall x | x in pages ensures x in Frames(threads) {
      assert x in threads[tid(x)];
    }
    forall x | x in Frames(threads) ensures x in pages {
      var g, k :| 0 <= g < |threads| && 0 <= k < |threads[g]| && threads[g][k] == x;
      assert x in threads[g];
    }
  }

  /**
   Where hanging stands with `popFrame` next: the first `done` pages of `list` are on their
   threads, newest first, and the rest are still linked from `popFrame`.
   */
  ghost predicate Hanging(m: Memory, popFrame: bv64, frame: seq<bv64>, threads: seq<seq<bv64>>,
                          tid: bv64 -> nat, list: seq<bv64>, done: nat)
  {
    && done <= |list|
    && IsList(m, popFrame, list[done..])
    && HungSoFar(m, frame, threads, tid, list[..done])
  }

  ghost predicate HungSoFar(m: Memory, frame: seq<bv64>, threads: seq<seq<bv64>>, tid: bv64 -> nat, done: seq<bv64>) {
    && |frame| == |threads|
    && (forall g :: 0 <= g < |threads| ==>
          threads[g] == HungUp(OnThread(done, tid, g)) && IsList(m, frame[g], threads[g]))
  }

  lemma HangingStep(m: Memory, popFrame: bv64, frame: seq<bv64>, threads: seq<seq<bv64>>,
                    tid: bv64 -> nat, list: seq<bv64>, done: nat)
    requires Hanging(m, popFrame, frame, threads, tid, list, done)
    requires Distinct(list) && AllFrames(list) && popFrame != 0
    requires forall k :: 0 <= k < |list| ==> tid(list[k]) < |frame|
    ensures done < |list| && popFrame == list[done] && tid(popFrame) < |frame|
    ensures var idx := tid(popFrame);
            Hanging(Write(m, popFrame, frame[idx]), Read(m, popFrame), frame[idx := popFrame],
                    threads[idx := [popFrame] + threads[idx]], tid, list, done + 1)
  {
    assert list[done..][0] == popFrame == list[done];
    assert list[done..][1..] == list[done + 1..];
    assert list[..done + 1] == list[..done] + [popFrame];
    HangOne(m, frame, threads, tid, list[..done], popFrame);
    ListWriteElsewhere(m, Read(m, popFrame), list[done + 1..], popFrame, frame[tid(popFrame)]);
  }

  // One page moves to the front of its thread.
  lemma HangOne(m: Memory, frame: seq<bv64>, threads: seq<seq<bv64>>, tid: bv64 -> nat, done: seq<bv64>, node: bv64)
    requires HungSoFar(m, frame, threads, tid, done)
    requires Distinct(done) && AllFrames(done) && node !in done && node != 0 && tid(node) < |frame|
    ensures var idx := tid(node);
            HungSoFar(Write(m, node, frame[idx]), frame[idx := node],
                      threads[idx := [node] + threads[idx]], tid, done + [node])
  {
    var idx := tid(node);
    var m' := Write(m, node, frame[idx]);
    var threads' := threads[idx := [node] + threads[idx]];
    forall g | 0 <= g < |threads|
      ensures threads'[g] == HungUp(OnThread(done + [node], tid, g))
      ensures IsList(m', frame[idx := node][g], threads'[g])
    {
      HungThread(done, tid, g);
      OnThreadAppend(done, node, tid, g);
      if g == idx {
        HungOneMore(OnThread(done, tid, g), node);
        ListPush(m, frame[g], threads[g], node);
      } else {
        assert OnThread(done, tid, g) + [] == OnThread(done, tid, g);
        ListWriteElsewhere(m, frame[g], threads[g], node, frame[idx]);
      }
    }
  }

  // ---- Allocation

  lemma PoppedThread(t: seq<bv64>, tid: bv64 -> nat, g: nat)
    requires WellHungThread(t, tid, g) && t != []
    ensures WellHungThread(t[1..], tid, g) && t[0] !in t[1..]
  {}

  lemma OtherThread(t: seq<bv64>, tid: bv64 -> nat, g: nat, f: bv64)
    requires WellHungThread(t, tid, g) && tid(f) != g
    ensures f !in t
  {}

  // Popping a thread removes exactly its first frame from the free set.
  lemma PopRemoves(threads: seq<seq<bv64>>, tid: bv64 -> nat, grab: nat)
    requires WellHung(threads, tid)
    requires grab < |threads| && threads[grab] != []
    ensures WellHung(threads[grab := threads[grab][1..]], tid)
    ensures Frames(threads[grab := threads[grab][1..]]) == Frames(threads) - {threads[grab][0]}
    ensures threads[grab][0] in Frames(threads)
  {
    var f := threads[grab][0];
    var after := threads[grab := threads[grab][1..]];
    PoppedThread(threads[grab], tid, grab);
    forall x | x in Frames(after) ensures x in Frames(threads) && x != f {
      var g, k :| 0 <= g < |after| && 0 <= k < |after[g]| && after[g][k] == x;
      if g == grab {
        assert x == threads[g][k + 1];
      } else {
        OtherThread(threads[g], tid, g, f);
        assert x == threads[g][k];
      }
    }
    forall x | x in Frames(threads) && x != f ensures x in Frames(after) {
      OthersStayFree(threads, grab, x);
    }
  }

  lemma OthersStayFree(threads: seq<seq<bv64>>, grab: nat, x: bv64)
    requires grab < |threads| && threads[grab] != []
    requires x in Frames(threads) && x != threads[grab][0]
    ensures x in Frames(threads[grab := threads[grab][1..]])
  {
    var after := threads[grab := threads[grab][1..]];
    var g, k :| 0 <= g < |threads| && 0 <= k < |threads[g]| && threads[g][k] == x;
    assert x == after[g][if g == grab then k - 1 else k];
  }

  // After a pop and the zeroing of the popped frame, every thread is still a list.
  lemma PopKeepsLists(m: Memory, frame: seq<bv64>, threads: seq<seq<bv64>>, tid: bv64 -> nat, grab: nat, g: nat)
    requires |frame| == |threads| && grab < |frame| && g < |frame| && threads[grab] != []
    requires WellHung(threads, tid)
    requires IsList(m, frame[g], threads[g]) && IsList(m, frame[grab], threads[grab])
    ensures IsList(ZeroFrame(m, frame[grab]), frame[grab := Read(m, frame[grab])][g],
                   threads[grab := threads[grab][1..]][g])
  {
    var f := frame[grab];
    if g == grab {
      PoppedThread(threads[g], tid, g);
      ListZeroElsewhere(m, Read(m, f), threads[g][1..], f);
    } else {
      assert tid(threads[grab][0]) == grab;
      OtherThread(threads[g], tid, g, f);
      ListZeroElsewhere(m, frame[g], threads[g], f);
    }
  }

  lemma NotListed(threads: seq<seq<bv64>>, tid: bv64 -> nat, g: nat, a: bv64)
    requires WellHung(threads, tid) && g < |threads| && FrameOf(a) !in Frames(threads)
    ensures a !in threads[g]
  {
    forall k | 0 <= k < |threads[g]| ensures threads[g][k] != a {
      FrameBase(threads[g][k]);
      assert threads[g][k] in Frames(threads);
    }
  }

  class Curtain {
    var mem: Memory
    var frame: seq<bv64>
    ghost var threads: seq<seq<bv64>>
    ghost const range: bv64 -> nat  // ThreadOf, fixed when the frame array is created

    ghost predicate Valid()
      reads this
    {
      && |threads| == |frame|
      && WellHung(threads, range)
      && (forall g :: 0 <= g < |frame| ==> IsList(mem, frame[g], threads[g]))
    }

    /** The frames that are still free. */
    ghost function Free(): set<bv64>
      reads this
    {
      Frames(threads)
    }

    // The frame array as fill_free_lists leaves it before hanging: every thread is NULL.
    constructor (m: Memory, frameLen: nat)
      ensures mem == m && frame == seq(frameLen, _ => 0)
      ensures forall f :: range(f) == ThreadOf(f)
    {
      range := ThreadOf;
      mem := m;
      frame := seq(frameLen, _ => 0);
      threads := seq(frameLen, _ => []);
    }

    // One round of the hanging loop; yields the node that was linked after `popFrame`.
    method MoveToThread(popFrame: bv64, ghost list: seq<bv64>, ghost done: nat) returns (next: bv64)
      requires Hanging(mem, popFrame, frame, threads, range, list, done)
      requires Distinct(list) && AllFrames(list) && popFrame != 0
      requires forall k :: 0 <= k < |list| ==> range(list[k]) == ThreadOf(list[k]) < |frame|
      modifies this
      ensures |frame| == old(|frame|)
      ensures Hanging(mem, next, frame, threads, range, list, done + 1)
      ensures popFrame in list && forall a :: a != popFrame ==> Read(mem, a) == old(Read(mem, a))
    {
      HangingStep(mem, popFrame, frame, threads, range, list, done);
      var idx := ThreadOf(popFrame);
      next := Read(mem, popFrame);
      threads := threads[idx := [popFrame] + threads[idx]];
      if frame[idx] == 0 {
        mem := Write(mem, popFrame, 0);
        frame := frame[idx := popFrame];
      } else {
        mem := Write(mem, popFrame, frame[idx]);
        frame := frame[idx := popFrame];
      }
    }

    /**
     Moves every node of the page list `pages` to the front of its thread.
     */
    method Hang(pages: bv64, ghost list: seq<bv64>)
      requires forall g :: 0 <= g < |frame| ==> frame[g] == 0
      requires IsList(mem, pages, list) && Distinct(list) && AllFrames(list)
      requires forall k :: 0 <= k < |list| ==> range(list[k]) == ThreadOf(list[k]) < |frame|
      modifies this
      ensures |threads| == |frame| == old(|frame|)
      ensures forall g :: 0 <= g < |threads| ==> threads[g] == HungUp(OnThread(list, range, g))
      ensures Valid()
      ensures forall x :: x in Free() <==> x in list
      ensures forall a :: a !in list ==> Read(mem, a) == old(Read(mem, a))
    {
      threads := seq(|frame|, _ => []);
      var popFrame := pages;
      ghost var done := 0;
      assert list[0..] == list;
      while popFrame != 0
        invariant |frame| == old(|frame|)
        invariant Hanging(mem, popFrame, frame, threads, range, list, done)
        invariant forall a :: a !in list ==> Read(mem, a) == old(Read(mem, a))
        decreases |list| - done
      {
        popFrame := MoveToThread(popFrame, list, done);
        done := done + 1;
      }
      assert list[..done] == list;
      HangingPartitions(list, range, threads);
    }

    /**
     Takes the first frame found by a circular probe that starts at thread `denoter`,
     and zeroes it. The result is 0 exactly when no thread holds a frame.
     */
    method AllocatePage(denoter: nat) returns (f: bv64)
      requires Valid()
      modifies this
      ensures Valid()
      ensures |frame| == old(|frame|)
      ensures f == 0 <==> old(Free()) == {}
      ensures f == 0 ==> mem == old(mem) && threads == old(threads) && frame == old(frame)
      ensures f != 0 ==> f in old(Free()) && IsFrame(f)
      ensures f != 0 ==> Free() == old(Free()) - {f}
      ensures f != 0 ==> mem == ZeroFrame(old(mem), f)
    {
      var i := 0;
      while i < |frame|
        invariant 0 <= i <= |frame|
        invariant Valid() && mem == old(mem) && threads == old(threads) && frame == old(frame)
        invariant forall j :: 0 <= j < i ==> threads[Probe(j, denoter, |frame|)] == []
      {
        var grab := Probe(i, denoter, |frame|);
        if frame[grab] != 0 {
          f := Pop(grab);
          return;
        }
        assert threads[grab] == [];
        i := i + 1;
      }
      f := 0;
      forall g | 0 <= g < |threads| ensures threads[g] == [] {
        var j := ProbeReaches(|frame|, denoter, g);
      }
      assert Free() == {};
    }

    // The body of the probe once a non-empty thread is found.
    method Pop(grab: nat) returns (f: bv64)
      requires Valid()
      requires grab < |frame| && frame[grab] != 0
      modifies this
      ensures Valid()
      ensures |frame| == old(|frame|)
      ensures f != 0 && f in old(Free()) && IsFrame(f)
      ensures Free() == old(Free()) - {f}
      ensures mem == ZeroFrame(old(mem), f)
    {
      f := frame[grab];
      PopRemoves(threads, range, grab);
      frame := frame[grab := Read(mem, f)];
      mem := ZeroFrame(mem, f);
      threads := threads[grab := threads[grab][1..]];
      forall g | 0 <= g < |frame| ensures IsList(mem, frame[g], threads[g]) {
        PopKeepsLists(old(mem), old(frame), old(threads), range, grab, g);
      }
    }

    /**
     A store of one word through the direct map. It leaves the allocator intact
     unless it hits a frame that is free.
     */
    method Store(a: bv64, v: bv64)
      modifies this
      ensures mem == Write(old(mem), a, v)
      ensures frame == old(frame) && threads == old(threads)
      ensures old(Valid()) && FrameOf(a) !in Free() ==> Valid()
    {
      mem := Write(mem, a, v);
      if old(Valid()) && FrameOf(a) !in Free() {
        forall g | 0 <= g < |frame| ensures IsList(mem, frame[g], threads[g]) {
          NotListed(threads, range, g, a);
          ListWriteElsewhere(old(mem), frame[g], threads[g], a, v);
        }
      }
    }
  }
}
