/**
 Which handler governs a node: that of the nearest ancestor that has one. The downward walk that
 skips the children of such ancestors reaches exactly the nodes they do not govern.
 */
module Governors {
  import opened Namespace
  import Walk

  /** For every node of `f` its nearest ancestor in `has`; `above` is the one of the list's parent. */
  ghost function Govern(f: Forest, above: Option<Node>, has: set<Node>): map<Node, Option<Node>>
    ensures Govern(f, above, has).Keys == Nodes(f)
  {
    match f
    case Nil => map[]
    case Cons(n, k, r) => map[n := above] + Govern(k, if n in has then Some(n) else above, has) + Govern(r, above, has)
  }

  /** No node occurs twice. */
  ghost predicate Simple(f: Forest) {
    match f
    case Nil => true
    case Cons(n, k, r) => n !in Nodes(k) && n !in Nodes(r) && Nodes(k) !! Nodes(r) && Simple(k) && Simple(r)
  }

  /** The nodes a walk calls, in its order, when it passes over those in `hidden` and does not go below either set. */
  ghost function Reached(f: Forest, has: set<Node>, hidden: set<Node>): seq<Node> {
    match f
    case Nil => []
    case Cons(n, k, r) =>
      (if n in hidden then [] else [n]) + (if n in has + hidden then [] else Reached(k, has, hidden))
        + Reached(r, has, hidden)
  }

  /** Neither `n` nor a node above it is in `hidden`. */
  ghost predicate Visible(f: Forest, hidden: set<Node>, n: Node) {
    match f
    case Nil => true
    case Cons(m, k, r) =>
      if n == m then n !in hidden else if n in Nodes(k) then m !in hidden && Visible(k, hidden, n)
      else Visible(r, hidden, n)
  }

  /** Hiding takes away exactly the nodes that are not visible. */
  lemma {:induction false} ReachedVisible(f: Forest, has: set<Node>, hidden: set<Node>, n: Node)
    requires Simple(f)
    ensures n in Reached(f, has, hidden) <==> n in Reached(f, has, {}) && Visible(f, hidden, n)
  {
    if f.Cons? {
      ReachedVisible(f.kids, has, hidden, n);
      ReachedVisible(f.rest, has, hidden, n);
      ReachedWithin(f.kids, has, {}, n);
      ReachedWithin(f.rest, has, {}, n);
      ReachedWithin(f.kids, has, hidden, n);
      ReachedWithin(f.rest, has, hidden, n);
    }
  }

  lemma {:induction false} AllVisible(f: Forest, n: Node)
    ensures Visible(f, {}, n)
  {
    if f.Cons? {
      AllVisible(f.kids, n);
      AllVisible(f.rest, n);
    }
  }

  lemma {:induction false} ReachedWithin(f: Forest, has: set<Node>, hidden: set<Node>, n: Node)
    ensures n in Reached(f, has, hidden) ==> n in Nodes(f)
  {
    if f.Cons? {
      ReachedWithin(f.kids, has, hidden, n);
      ReachedWithin(f.rest, has, hidden, n);
    }
  }

  /** Below a list whose parent is governed by `above`, the walk reaches what `above` governs. */
  lemma {:induction false} ReachedGoverned(f: Forest, above: Option<Node>, has: set<Node>, n: Node)
    requires Simple(f) && n in Nodes(f) && (above.Some? ==> above.value !in Nodes(f))
    ensures Govern(f, above, has)[n] == above <==> n in Reached(f, has, {})
    ensures Govern(f, above, has)[n] == above || (Govern(f, above, has)[n].Some?
                                                  && Govern(f, above, has)[n].value in Nodes(f))
  {
    var k, r := f.kids, f.rest;
    ReachedWithin(k, has, {}, n);
    ReachedWithin(r, has, {}, n);
    if n == f.head {
    } else if n in Nodes(k) {
      var inner := if f.head in has then Some(f.head) else above;
      ReachedGoverned(k, inner, has, n);
    } else {
      ReachedGoverned(r, above, has, n);
    }
  }

  /** One more node in `has` governs what it governs; everything else stays as it was. */
  lemma {:induction false} GovernAdd(f: Forest, above: Option<Node>, above': Option<Node>, has: set<Node>, d: Node,
                                     n: Node)
    requires n in Nodes(f) && (above' == above || above' == Some(d))
    ensures Govern(f, above', has + {d})[n] == Some(d) || Govern(f, above', has + {d})[n] == Govern(f, above, has)[n]
  {
    var k, r := f.kids, f.rest;
    if n in Nodes(k) {
      GovernAdd(k, if f.head in has then Some(f.head) else above, if f.head in has + {d} then Some(f.head)
                else above', has, d, n);
    }
    if n in Nodes(r) {
      GovernAdd(r, above, above', has, d, n);
    }
  }

  ghost function KidsOf(f: Forest, d: Node): Forest {
    match f
    case Nil => Nil
    case Cons(n, k, r) => if n == d then k else if d in Nodes(k) then KidsOf(k, d) else KidsOf(r, d)
  }

  lemma {:induction false} KidsWithin(f: Forest, d: Node)
    ensures Nodes(KidsOf(f, d)) <= Nodes(f)
  {
    if f.Cons? {
      KidsWithin(f.kids, d);
      KidsWithin(f.rest, d);
    }
  }

  /** The children of `d` are a list of their own, linked below it. */
  lemma {:induction false} KidsLinked(f: Forest, top: Node, d: Node)
    requires Linked(f, top) && d in Nodes(f)
    ensures Linked(KidsOf(f, d), d) && d.child == First(KidsOf(f, d))
  {
    if d == f.head {
    } else if d in Nodes(f.kids) {
      KidsLinked(f.kids, f.head, d);
    } else {
      KidsLinked(f.rest, top, d);
    }
  }

  lemma {:induction false} KidsSimple(f: Forest, d: Node)
    requires Simple(f)
    ensures Simple(KidsOf(f, d))
  {
    if f.Cons? {
      KidsSimple(f.kids, d);
      KidsSimple(f.rest, d);
    }
  }

  ghost function Height(f: Forest): nat {
    match f
    case Nil => 0
    case Cons(_, k, r) => if Height(k) + 1 < Height(r) then Height(r) else Height(k) + 1
  }

  lemma {:induction false} KidsLower(f: Forest, d: Node)
    ensures Height(KidsOf(f, d)) <= Height(f)
  {
    if f.Cons? {
      KidsLower(f.kids, d);
      KidsLower(f.rest, d);
    }
  }

  /** In the whole tree, a walk from `d` that skips below nodes in `has` reaches exactly what `d` governs. */
  lemma {:induction false} WalkReaches(f: Forest, above: Option<Node>, has: set<Node>, d: Node, n: Node)
    requires Simple(f) && n in Nodes(f) && d in Nodes(f) && d in has && (above.Some? ==> above.value !in Nodes(f))
    ensures Govern(f, above, has)[n] == Some(d) <==> n in Reached(KidsOf(f, d), has, {})
  {
    var k, r := f.kids, f.rest;
    KidsWithin(k, d);
    KidsWithin(r, d);
    ReachedWithin(KidsOf(f, d), has, {}, n);
    var inner := if f.head in has then Some(f.head) else above;
    if n in Nodes(k) {
      ReachedGoverned(k, inner, has, n);
      if d in Nodes(k) {
        WalkReaches(k, inner, has, d, n);
      }
    } else if n in Nodes(r) {
      ReachedGoverned(r, above, has, n);
      if d in Nodes(r) {
        WalkReaches(r, above, has, d, n);
      }
    }
  }

  lemma {:induction false} LinkedSimple(f: Forest, top: Node)
    requires Linked(f, top)
    ensures Simple(f)
  {
    if f.Cons? {
      LinkedSimple(f.kids, f.head);
      LinkedSimple(f.rest, top);
    }
  }

  ghost function Level(f: Forest, n: Node): (l: nat)
    requires n in Nodes(f)
    ensures l > 0
  {
    if n == f.head then 1 else if n in Nodes(f.kids) then 1 + Level(f.kids, n) else Level(f.rest, n)
  }

  /** What governs a node follows from its parent. */
  lemma {:induction false} GovernedFromParent(f: Forest, top: Node, above: Option<Node>, has: set<Node>, n: Node)
    requires Linked(f, top) && n in Nodes(f) && top !in Nodes(f)
    ensures n.parent == top || (n.parent in Nodes(f) && Level(f, n.parent) < Level(f, n))
    ensures Govern(f, above, has)[n] ==
            if n.parent == top then above else if n.parent in has then Some(n.parent)
            else Govern(f, above, has)[n.parent]
  {
    var k, r := f.kids, f.rest;
    if n in Nodes(k) {
      GovernedFromParent(k, f.head, if f.head in has then Some(f.head) else above, has, n);
    } else if n in Nodes(r) {
      GovernedFromParent(r, top, above, has, n);
    }
  }

  // ---- The namespace walk does this

  ghost function NodesOf(calls: seq<Walk.Event>): (ns: seq<Node>)
    ensures |ns| == |calls|
  {
    seq(|calls|, i requires 0 <= i < |calls| => calls[i].node)
  }

  lemma NodesOfAppend(a: seq<Walk.Event>, b: seq<Walk.Event>, c: seq<Walk.Event>)
    ensures NodesOf(a + b + c) == NodesOf(a) + NodesOf(b) + NodesOf(c)
  {}

  /** A walk over nodes of all types without a depth limit: `hidden` are the nodes it passes over. */
  ghost predicate Everywhere(q: Walk.Query, f: Forest, depth: nat, hidden: set<Node>)
    reads Nodes(f)
  {
    && q.down && !q.up && depth <= q.maxDepth && depth + Height(f) <= q.maxDepth + 1
    && (forall n :: n in Nodes(f) ==> n.kind.Some? && n.kind.value in q.kinds)
    && (forall n :: n in Nodes(f) ==> (n in hidden <==> Walk.Hidden(q, n)))
  }

  lemma EverywhereBelow(q: Walk.Query, f: Forest, depth: nat, hidden: set<Node>)
    requires Everywhere(q, f, depth, hidden) && f.Cons?
    ensures Everywhere(q, f.rest, depth, hidden)
    ensures f.kids.Cons? ==> depth != q.maxDepth && Everywhere(q, f.kids, depth + 1, hidden)
  {
    if f.kids.Cons? {
      assert Height(f.kids) >= 1;
    }
  }

  lemma PreOrderStep(q: Walk.Query, f: Forest, has: set<Node>, hidden: set<Node>, depth: nat, m: bool)
    requires Everywhere(q, f, depth, hidden) && f.Cons?
    ensures Walk.PreOrder(q, has, f, depth, m) ==
            (if f.head in hidden then [] else [Walk.Event(false, f.head, depth)])
            + (if f.head in has + hidden || f.kids.Nil? then [] else Walk.PreOrder(q, has, f.kids, depth + 1, true))
            + Walk.PreOrder(q, has, f.rest, depth, true)
  {
    assert f.head in Nodes(f);
    EverywhereBelow(q, f, depth, hidden);
    assert f.kids.Nil? ==> Walk.PreOrder(q, has, f.kids, depth + 1, true) == [];
  }

  lemma {:induction false} PreOrderReaches(q: Walk.Query, f: Forest, has: set<Node>, hidden: set<Node>, depth: nat,
                                           m: bool)
    requires Everywhere(q, f, depth, hidden)
    ensures NodesOf(Walk.PreOrder(q, has, f, depth, m)) == Reached(f, has, hidden)
  {
    if f.Cons? {
      EverywhereBelow(q, f, depth, hidden);
      PreOrderStep(q, f, has, hidden, depth, m);
      var a := if f.head in hidden then [] else [Walk.Event(false, f.head, depth)];
      var b := if f.head in has + hidden || f.kids.Nil? then [] else Walk.PreOrder(q, has, f.kids, depth + 1, true);
      var c := Walk.PreOrder(q, has, f.rest, depth, true);
      NodesOfAppend(a, b, c);
      assert NodesOf(a) == if f.head in hidden then [] else [f.head];
      assert NodesOf(b) == if f.head in has + hidden then [] else Reached(f.kids, has, hidden) by {
        if f.kids.Cons? {
          PreOrderReaches(q, f.kids, has, hidden, depth + 1, true);
        }
      }
      assert NodesOf(c) == Reached(f.rest, has, hidden) by {
        PreOrderReaches(q, f.rest, has, hidden, depth, true);
      }
    }
  }

  lemma {:induction false} NoPostOrder(q: Walk.Query, f: Forest, has: set<Node>, depth: nat, m: bool)
    requires !q.up
    ensures Walk.PostOrder(q, has, f, depth, m) == []
  {
    if f.Cons? {
      NoPostOrder(q, f.kids, has, depth + 1, Walk.Typed(q, f.head, m));
      NoPostOrder(q, f.rest, has, depth, Walk.Typed(q, f.head, Walk.MatchBelow(q, has, f, depth, m)));
    }
  }

  lemma {:induction false} OneDirection(calls: seq<Walk.Event>)
    requires Walk.Only(calls, true) == []
    ensures Walk.Only(calls, false) == calls
  {
    if calls != [] {
      OneDirection(calls[..|calls| - 1]);
    }
  }

  /** The calls of the namespace walk are made for exactly these nodes, in this order. */
  lemma WalkCallsReached(q: Walk.Query, f: Forest, has: set<Node>, hidden: set<Node>, calls: seq<Walk.Event>)
    requires Everywhere(q, f, 1, hidden) && Walk.InOrder(q, has, f, calls)
    ensures NodesOf(calls) == Reached(f, has, hidden)
  {
    PreOrderReaches(q, f, has, hidden, 1, false);
    NoPostOrder(q, f, has, 1, false);
    OneDirection(calls);
  }
}
