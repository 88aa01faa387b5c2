/** Uninstalling a namespace node, and the loop that takes the whole namespace apart. */
module Teardown {
  import opened Namespace

  datatype Status = Ok | Denied | InternalError

  // ---- uacpi_namespace_node_uninstall

  /** The node before `node` in the list, found by following next. */
  method FindPrevious(first: Node?, node: Node, ghost s: seq<Node>) returns (prev: Node?, ghost at: nat)
    requires Chain(first, s, null) && Distinct(s) && first != node
    ensures prev == null <==> node !in s
    ensures prev != null ==> at + 1 < |s| && prev == s[at] && s[at + 1] == node
  {
    prev, at := first, 0;
    while prev != null && prev.next != node
      invariant at <= |s| && prev == After(s, null, at) && Chain(first, s, null)
      invariant forall i :: 0 <= i <= at && i < |s| ==> s[i] != node
      decreases |s| - at
    {
      assert Link(s, null, at);
      prev, at := prev.next, at + 1;
    }
    assert prev != null ==> Link(s, null, at);
  }

  /**
   A node is taken out of its parent's list of children only when it is not dangling and has no
   children of its own; then it loses its object and becomes dangling, and its siblings stay in order.
   */
  method Uninstall(node: Node, ghost s: seq<Node>, ghost at: nat) returns (status: Status)
    requires node.parent != null ==> Chain(node.parent.child, s, null) && Distinct(s) && node.parent !in s
    requires node in s ==> node.parent != null && at < |s| && s[at] == node
    modifies node`dangling, node`kind, Members(s)`next
    modifies if node.parent == null then {} else {node.parent}`child
    ensures old(node.dangling) ==> status == InternalError && node.kind == old(node.kind)
    ensures !old(node.dangling) && old(node.child) != null ==> status == Denied && node.kind == old(node.kind)
    ensures !old(node.dangling) && old(node.child) == null ==>
            node.kind == None && status == if node in s then Ok else InternalError
    ensures status != Ok ==> node.dangling == old(node.dangling) && unchanged(Members(s)`next)
                             && (node.parent != null ==> node.parent.child == old(node.parent.child))
    ensures status == Ok ==> node.dangling && Chain(node.parent.child, s[..at] + s[at + 1..], null)
  {
    if node.dangling {
      return InternalError;
    }
    if node.child != null {
      return Denied;
    }
    node.kind := None;
    if node.parent == null {
      return InternalError;
    }
    if node.parent.child == node {
      node.parent.child := node.next;
    } else {
      ghost var j;
      var prev;
      prev, j := FindPrevious(node.parent.child, node, s);
      if prev == null {
        return InternalError;
      }
      prev.next := node.next;
    }
    node.dangling := true;
    status := Ok;
    ghost var s' := s[..at] + s[at + 1..];
    assert old(Link(s, null, at));
    forall i | 0 <= i < |s'| ensures Link(s', null, i) {
      assert old(Link(s, null, if i < at then i else i + 1));
    }
  }

  // ---- uacpi_deinitialize_namespace

  /** Children already dealt with: they belong to `owner`, are childless and not dangling. */
  ghost predicate Bare(flat: seq<Node>, owner: Node)
    reads Members(flat)`parent, Members(flat)`child, Members(flat)`dangling
  {
    forall i :: 0 <= i < |flat| ==> flat[i].parent == owner && flat[i].child == null && !flat[i].dangling
  }

  ghost predicate Alive(f: Forest)
    reads Nodes(f)`dangling
  {
    forall n :: n in Nodes(f) ==> !n.dangling
  }

  lemma FirstOfChain(first: Node?, flat: seq<Node>)
    requires Chain(first, flat, null) && first != null
    ensures flat != [] && flat[0] == first
  {}

  lemma ChainOfRest(first: Node?, flat: seq<Node>)
    requires flat != [] && Chain(first, flat[..0] + flat[1..], null)
    ensures Chain(first, flat[1..], null)
  {
    assert flat[..0] + flat[1..] == flat[1..];
  }

  lemma BareRest(flat: seq<Node>, owner: Node)
    requires Bare(flat, owner) && Distinct(flat) && flat != [] && owner !in flat
    ensures Bare(flat[1..], owner) && Distinct(flat[1..])
    ensures flat[0] !in Members(flat[1..]) && owner !in flat[1..] && Members(flat[1..]) <= Members(flat)
  {
    assert forall i :: 0 <= i < |flat[1..]| ==> flat[1..][i] == flat[i + 1];
  }

  /** Removes the first child of `current`; it is childless, so the removal is not refused. */
  method WipeFirst(current: Node, ghost flat: seq<Node>, ghost node: Node)
    requires current.child == node && Chain(current.child, flat, null) && Distinct(flat) && current !in flat
    requires node.parent == current && node.child == null && !node.dangling && flat != [] && flat[0] == node
    modifies current`child, Members(flat)`next, node`dangling, node`kind
    ensures node.dangling && node.kind == None && Chain(current.child, flat[..0] + flat[1..], null)
  {
    var status := Uninstall(current.child, flat, 0);
    assert status == Ok;
  }

  /** The first `k` children are gone, the others wait. */
  ghost predicate WipedUpTo(current: Node, flat: seq<Node>, k: nat)
    reads current, Members(flat)
  {
    && k <= |flat| && Chain(current.child, flat[k..], null) && Bare(flat[k..], current)
    && (forall i :: 0 <= i < k ==> flat[i].dangling && flat[i].kind == None)
  }

  ghost function First1(l: seq<Node>): seq<Node> {
    if l == [] then [] else [l[0]]
  }

  /** One round: `left` are the children still there. */
  method WipeNext(current: Node, ghost left: seq<Node>)
    requires current.child != null && Chain(current.child, left, null) && Distinct(left) && current !in left
    requires Bare(left, current)
    modifies current`child, Members(left)`next, Members(First1(left))`dangling, Members(First1(left))`kind
    ensures left != [] && left[0].dangling && left[0].kind == None
    ensures Chain(current.child, left[1..], null) && Bare(left[1..], current)
  {
    FirstOfChain(current.child, left);
    BareRest(left, current);
    assert left[0] in Members(First1(left));
    WipeFirst(current, left, left[0]);
    ChainOfRest(current.child, left);
  }

  /** Removes the children of `current`, first to last; every removal succeeds. */
  method Wipe(current: Node, ghost flat: seq<Node>)
    requires Chain(current.child, flat, null) && Distinct(flat) && current !in flat && Bare(flat, current)
    modifies current`child, Members(flat)`dangling, Members(flat)`kind, Members(flat)`next
    ensures current.child == null
    ensures forall n :: n in flat ==> n.dangling && n.kind == None
  {
    ghost var k := 0;
    assert flat[0..] == flat;
    while current.child != null
      invariant WipedUpTo(current, flat, k)
      decreases |flat| - k
    {
      ghost var left := flat[k..];
      LeftOver(flat, current, k);
      FirstOfChain(current.child, left);
      WipeNext(current, left);
      k := k + 1;
    }
  }

  lemma LeftOver(flat: seq<Node>, current: Node, k: nat)
    requires Distinct(flat) && current !in flat && k <= |flat|
    ensures Distinct(flat[k..]) && current !in flat[k..] && Members(flat[k..]) <= Members(flat)
    ensures Members(First1(flat[k..])) <= Members(flat)
    ensures k < |flat| ==> flat[k..][0] == flat[k] && flat[k..][1..] == flat[k + 1..]
    ensures forall i :: 0 <= i < k < |flat| ==> flat[i] != flat[k]
  {
    assert forall i :: 0 <= i < |flat[k..]| ==> flat[k..][i] == flat[k + i];
  }

  /** The levels above the current one: `on` is the child of `owner` whose subtree is being worked on. */
  datatype Stack = Bottom(root: Node) | Push(below: Stack, owner: Node, flat: seq<Node>, on: Node, rest: Forest)

  ghost function StackNodes(s: Stack): set<Node> {
    match s
    case Bottom(_) => {}
    case Push(b, _, flat, on, rest) => StackNodes(b) + Members(flat) + {on} + Nodes(rest)
  }

  ghost function Current(s: Stack): Node {
    match s
    case Bottom(r) => r
    case Push(_, _, _, on, _) => on
  }

  ghost function Root(s: Stack): Node {
    match s
    case Bottom(r) => r
    case Push(b, _, _, _, _) => Root(b)
  }

  /** The nodes whose child pointer the levels above depend on. */
  ghost function Parents(s: Stack): set<Node> {
    match s
    case Bottom(_) => {}
    case Push(b, owner, flat, _, rest) => Parents(b) + {owner} + Members(flat) + Nodes(rest)
  }

  ghost predicate StackOk(s: Stack)
    reads StackNodes(s)`next, StackNodes(s)`parent, StackNodes(s)`dangling, Parents(s)`child
  {
    match s
    case Bottom(_) => true
    case Push(b, owner, flat, on, rest) =>
      && StackOk(b) && owner == Current(b)
      && Chain(owner.child, flat + [on], First(rest)) && Bare(flat, owner) && on.parent == owner && !on.dangling
      && Linked(rest, owner) && Alive(rest)
      && Distinct(flat) && on !in flat && on !in Nodes(rest) && Members(flat) !! Nodes(rest)
      && StackNodes(b) !! Members(flat) + {on} + Nodes(rest) && Root(b) !in Members(flat) + {on} + Nodes(rest)
  }

  /** The current level: the children of the current node are `flat`, dealt with, and then `rest`. */
  ghost predicate LevelOk(s: Stack, flat: seq<Node>, rest: Forest)
    reads StackNodes(s)`next, StackNodes(s)`parent, StackNodes(s)`dangling, Parents(s)`child
    reads Members(flat), Nodes(rest), Current(s)`child
  {
    && StackOk(s)
    && Chain(Current(s).child, flat, First(rest)) && Bare(flat, Current(s)) && Linked(rest, Current(s)) && Alive(rest)
    && Distinct(flat) && Members(flat) !! Nodes(rest)
    && StackNodes(s) !! Members(flat) + Nodes(rest) && Root(s) !in Members(flat) + Nodes(rest)
       && Root(s) !in StackNodes(s)
  }

  ghost function StackRounds(s: Stack): nat {
    match s
    case Bottom(_) => 0
    case Push(b, _, _, _, rest) => 1 + 2 * Count(rest) + StackRounds(b)
  }

  // ---- The moves of the loop

  /** The next child has no children: it joins those dealt with. */
  lemma SkipLeaf(s: Stack, flat: seq<Node>, rest: Forest)
    requires LevelOk(s, flat, rest) && rest.Cons? && rest.kids.Nil?
    ensures LevelOk(s, flat + [rest.head], rest.rest)
    ensures Members(flat + [rest.head]) + Nodes(rest.rest) == Members(flat) + Nodes(rest)
  {
    ExtendChain(Current(s).child, flat, rest.head, First(rest.rest));
    assert Members(flat + [rest.head]) == Members(flat) + {rest.head};
  }

  lemma ExtendChain(first: Node?, flat: seq<Node>, n: Node, tail: Node?)
    requires Chain(first, flat, n) && n.next == tail
    ensures Chain(first, flat + [n], tail)
  {
    var longer := flat + [n];
    forall i | 0 <= i < |longer| ensures Link(longer, tail, i) {
      if i < |flat| {
        assert Link(flat, n, i);
      }
    }
  }

  /** The next child has children: its level is worked on first. */
  lemma Descend(s: Stack, flat: seq<Node>, rest: Forest)
    requires LevelOk(s, flat, rest) && rest.Cons? && rest.kids.Cons?
    ensures LevelOk(Push(s, Current(s), flat, rest.head, rest.rest), [], rest.kids)
  {
    ExtendChain(Current(s).child, flat, rest.head, First(rest.rest));
    assert rest.head !in flat by {
      assert rest.head in Nodes(rest);
    }
  }

  /** With nothing of its subtree left, the child being worked on counts as dealt with one level up. */
  lemma Ascend(s: Stack)
    requires s.Push? && StackOk(s) && s.on.child == null && Root(s) !in StackNodes(s)
    ensures LevelOk(s.below, s.flat + [s.on], s.rest)
    ensures Members(s.flat + [s.on]) == Members(s.flat) + {s.on}
  {
    assert Members(s.flat + [s.on]) == Members(s.flat) + {s.on};
  }

  lemma {:induction false} ParentsWithin(s: Stack)
    requires StackOk(s) && Root(s) !in StackNodes(s)
    ensures Parents(s) <= StackNodes(s) + {Root(s)} && Current(s) !in Parents(s)
    ensures Current(s) in StackNodes(s) + {Root(s)}
  {
    if s.Push? {
      ParentsWithin(s.below);
    }
  }

  /** Everything of the current level was dealt with: its nodes are removed. */
  method CloseLevel(current: Node, ghost s: Stack, ghost flat: seq<Node>, ghost all: set<Node>)
    requires LevelOk(s, flat, Nil) && current == Current(s) && StackNodes(s) + {Root(s)} <= all
    modifies current`child, Members(flat)
    ensures StackOk(s) && current.child == null
    ensures forall n :: n in flat ==> n.dangling && n.kind == None
  {
    ParentsWithin(s);
    Wipe(current, flat);
    assert forall n :: n in all && n in StackNodes(s) ==>
           n.next == old(n.next) && n.parent == old(n.parent) && n.dangling == old(n.dangling);
    assert forall n :: n in all && n in Parents(s) ==> n.child == old(n.child);
  }

  /** The ghost state of the loop: the level worked on and the nodes removed so far, in order. */
  datatype Work = Work(s: Stack, flat: seq<Node>, rest: Forest, log: seq<Node>)

  /** What has been removed and what is still there make up all the nodes, none twice. */
  ghost predicate Accounted(w: Work, all: set<Node>) {
    && Distinct(w.log) && Members(w.log) !! StackNodes(w.s) + Members(w.flat) + Nodes(w.rest)
    && Members(w.log) + StackNodes(w.s) + Members(w.flat) + Nodes(w.rest) == all
  }

  ghost predicate Gone(log: seq<Node>)
    reads Members(log)`dangling, Members(log)`kind
  {
    forall i :: 0 <= i < |log| ==> log[i].dangling && log[i].kind == None
  }

  lemma LogGrows(w: Work, all: set<Node>)
    requires Accounted(w, all) && w.rest.Nil? && Distinct(w.flat) && StackNodes(w.s) !! Members(w.flat)
    ensures Distinct(w.log + w.flat) && Members(w.log + w.flat) == Members(w.log) + Members(w.flat)
    ensures Members(w.log + w.flat) !! StackNodes(w.s) && Members(w.log + w.flat) + StackNodes(w.s) == all
  {
    assert forall i, j :: 0 <= i < |w.log| && 0 <= j < |w.flat| ==>
           w.log[i] in Members(w.log) && w.flat[j] in Members(w.flat);
  }

  // ---- The order of removal

  ghost function Heads(f: Forest): seq<Node> {
    if f.Nil? then [] else [f.head] + Heads(f.rest)
  }

  /** What is removed below the trees of the forest, tree by tree, and then their own nodes. */
  ghost function Inner(f: Forest): seq<Node> {
    if f.Nil? then [] else (Inner(f.kids) + Heads(f.kids)) + Inner(f.rest)
  }

  ghost function Removed(f: Forest): seq<Node> {
    Inner(f) + Heads(f)
  }

  ghost function StackRest(s: Stack): seq<Node> {
    match s
    case Bottom(_) => []
    case Push(b, _, flat, on, rest) => Inner(rest) + (flat + [on] + Heads(rest)) + StackRest(b)
  }

  /** What is still to be removed, in order. */
  ghost function Remaining(w: Work): seq<Node> {
    Inner(w.rest) + (w.flat + Heads(w.rest)) + StackRest(w.s)
  }

  /** One node forward: down to its children, or past a leaf. */
  ghost function Forward(w: Work): Work
    requires w.rest.Cons?
  {
    if w.rest.kids.Cons? then
      w.(s := Push(w.s, Current(w.s), w.flat, w.rest.head, w.rest.rest), flat := [], rest := w.rest.kids)
    else w.(flat := w.flat + [w.rest.head], rest := w.rest.rest)
  }

  lemma ForwardRemaining(w: Work)
    requires w.rest.Cons?
    ensures Remaining(Forward(w)) == Remaining(w)
  {
    var r := w.rest;
    assert w.flat + ([r.head] + Heads(r.rest)) == w.flat + [r.head] + Heads(r.rest);
    assert [] + Heads(r.kids) == Heads(r.kids);
    assert r.kids.Nil? ==> Inner(r) == Inner(r.rest);
  }

  /** The nodes removed and those still to be removed are `plan`. */
  ghost predicate OnPlan(w: Work, depth: nat, plan: seq<Node>) {
    plan == if depth > 0 then w.log + Remaining(w) else w.log
  }

  lemma PlanStarts(root: Node, f: Forest)
    ensures OnPlan(Work(Bottom(root), [], f, []), 1, Removed(f))
  {
    var w := Work(Bottom(root), [], f, []);
    assert w.log + Remaining(w) == Removed(f);
  }

  lemma PopRemaining(w: Work)
    requires w.rest.Nil?
    ensures Popped(w).log + Remaining(Popped(w)) == w.log + Remaining(w)
    ensures w.s.Bottom? ==> Popped(w).log == w.log + Remaining(w)
  {
    assert Remaining(w) == w.flat + StackRest(w.s);
    assert Popped(w).log + Remaining(Popped(w)) == w.log + w.flat + Remaining(Popped(w));
  }

  /** `a` comes before `b`. */
  ghost predicate Before(log: seq<Node>, a: Node, b: Node) {
    exists i, j :: 0 <= i < j < |log| && log[i] == a && log[j] == b
  }

  /** Every node of the forest comes after all the nodes below it. */
  ghost predicate BelowFirst(log: seq<Node>, f: Forest) {
    f.Cons? ==>
      && (forall n :: n in Nodes(f.kids) ==> Before(log, n, f.head))
      && BelowFirst(log, f.kids) && BelowFirst(log, f.rest)
  }

  lemma {:induction false} BelowFirstWithin(pre: seq<Node>, log: seq<Node>, post: seq<Node>, f: Forest)
    requires BelowFirst(log, f)
    ensures BelowFirst(pre + log + post, f)
    decreases f
  {
    if f.Cons? {
      var longer := pre + log + post;
      forall n | n in Nodes(f.kids) ensures Before(longer, n, f.head) {
        var i, j :| 0 <= i < j < |log| && log[i] == n && log[j] == f.head;
        assert longer[|pre| + i] == n && longer[|pre| + j] == f.head;
      }
      BelowFirstWithin(pre, log, post, f.kids);
      BelowFirstWithin(pre, log, post, f.rest);
    }
  }

  lemma {:induction false} RemovedAll(f: Forest)
    ensures forall n :: n in Nodes(f) ==> n in Removed(f)
  {
    if f.Cons? {
      RemovedAll(f.kids);
      RemovedAll(f.rest);
    }
  }

  /** A node that is in the one part comes before one that is in the other. */
  lemma BeforeAcross(a: seq<Node>, b: seq<Node>, n: Node, m: Node)
    requires n in a && m in b
    ensures Before(a + b, n, m)
  {
    var i :| 0 <= i < |a| && a[i] == n;
    var j :| 0 <= j < |b| && b[j] == m;
    assert (a + b)[i] == n && (a + b)[|a| + j] == m;
  }

  /** No node outlives the nodes below it. */
  lemma {:induction false} RemovedBottomUp(f: Forest)
    ensures BelowFirst(Removed(f), f)
  {
    if f.Cons? {
      var kids, log := Removed(f.kids), Removed(f);
      RemovedBottomUp(f.kids);
      assert log == [] + kids + (Inner(f.rest) + Heads(f));
      BelowFirstWithin([], kids, Inner(f.rest) + Heads(f), f.kids);
      RemovedBottomUp(f.rest);
      RestWithin(f);
      RemovedAll(f.kids);
      assert log == kids + (Inner(f.rest) + Heads(f));
      forall n | n in Nodes(f.kids) ensures Before(log, n, f.head) {
        BeforeAcross(kids, Inner(f.rest) + Heads(f), n, f.head);
      }
    }
  }

  /** The rest of the forest keeps its order although the first node is removed in between. */
  lemma RestWithin(f: Forest)
    requires f.Cons? && BelowFirst(Removed(f.rest), f.rest)
    ensures BelowFirst(Removed(f), f.rest)
  {
    var a, b := Inner(f.rest), Heads(f.rest);
    InsertedWithin(a, [f.head], b, f.rest);
    assert Removed(f) == Removed(f.kids) + (a + [f.head] + b) + [];
    BelowFirstWithin(Removed(f.kids), a + [f.head] + b, [], f.rest);
  }

  lemma {:induction false} InsertedWithin(a: seq<Node>, x: seq<Node>, b: seq<Node>, f: Forest)
    requires BelowFirst(a + b, f)
    ensures BelowFirst(a + x + b, f)
    decreases f
  {
    if f.Cons? {
      forall n | n in Nodes(f.kids) ensures Before(a + x + b, n, f.head) {
        var i, j :| 0 <= i < j < |a + b| && (a + b)[i] == n && (a + b)[j] == f.head;
        var i', j' := if i < |a| then i else i + |x|, if j < |a| then j else j + |x|;
        assert (a + x + b)[i'] == n && (a + x + b)[j'] == f.head;
      }
      InsertedWithin(a, x, b, f.kids);
      InsertedWithin(a, x, b, f.rest);
    }
  }

  /** Where the work goes on after a level is closed. */
  ghost function Popped(w: Work): Work {
    if w.s.Push? then Work(w.s.below, w.s.flat + [w.s.on], w.s.rest, w.log + w.flat)
    else w.(flat := [], log := w.log + w.flat)
  }

  lemma GoneMore(log: seq<Node>, flat: seq<Node>)
    requires Gone(log) && forall n :: n in flat ==> n.dangling && n.kind == None
    ensures Gone(log + flat)
  {}

  /** Closes a level and accounts for it. */
  method CloseAndAccount(current: Node, ghost w: Work, ghost all: set<Node>)
    requires LevelOk(w.s, w.flat, w.rest) && w.rest.Nil? && current == Current(w.s)
    requires Accounted(w, all) && Gone(w.log) && current in all + {Root(w.s)}
    modifies current`child, Members(w.flat)
    ensures current.child == null && Gone(Popped(w).log) && Accounted(Popped(w), all)
    ensures w.s.Push? ==> LevelOk(Popped(w).s, Popped(w).flat, Popped(w).rest)
  {
    LogGrows(w, all);
    assert Members(w.log) !! Members(w.flat);
    CloseLevel(current, w.s, w.flat, all + {Root(w.s)});
    if w.s.Push? {
      Ascend(w.s);
    }
    GoneMore(w.log, w.flat);
  }

  /** How many rounds the loop can still make. */
  ghost function Rounds(w: Work): nat {
    StackRounds(w.s) + 2 * Count(w.rest)
  }

  ghost function Depth(s: Stack): nat {
    match s
    case Bottom(_) => 0
    case Push(b, _, _, _, _) => 1 + Depth(b)
  }

  /** The loop's variables agree with the ghost state. */
  ghost predicate Standing(w: Work, all: set<Node>, root: Node, current: Node?, next: Node?, depth: nat)
    reads StackNodes(w.s)`next, StackNodes(w.s)`parent, StackNodes(w.s)`dangling, Parents(w.s)`child
    reads Members(w.flat), Nodes(w.rest), Current(w.s)`child, Members(w.log)`dangling, Members(w.log)`kind
  {
    && LevelOk(w.s, w.flat, w.rest) && Accounted(w, all) && Gone(w.log) && Root(w.s) == root
    && current == Current(w.s) && depth == 1 + Depth(w.s)
    && next == if w.flat == [] then null else w.flat[|w.flat| - 1]
  }

  lemma StepForward(w: Work, all: set<Node>, root: Node, current: Node, next: Node?, depth: nat) returns (w': Work)
    requires Standing(w, all, root, current, next, depth) && w.rest.Cons?
    ensures Rounds(w') < Rounds(w) && w' == Forward(w)
    ensures if w.rest.kids.Cons? then Standing(w', all, root, w.rest.head, null, depth + 1)
            else Standing(w', all, root, current, w.rest.head, depth)
  {
    if w.rest.kids.Cons? {
      Descend(w.s, w.flat, w.rest);
    } else {
      SkipLeaf(w.s, w.flat, w.rest);
    }
    w' := Forward(w);
  }

  lemma NextChild(w: Work, all: set<Node>, root: Node, current: Node, next: Node?, depth: nat)
    requires Standing(w, all, root, current, next, depth)
    ensures (if next == null then current.child else next.next) == First(w.rest)
    ensures w.rest.Cons? ==> w.rest.head.child == First(w.rest.kids)
  {
    assert w.flat != [] ==> Link(w.flat, First(w.rest), |w.flat| - 1);
  }

  /** The last child of a level is behind: the level is removed and the work goes on one level up. */
  method RoundUp(root: Node, current: Node, next: Node?, depth: nat, ghost w: Work, ghost all: set<Node>)
      returns (current': Node?, depth': nat, ghost w': Work)
    requires Standing(w, all, root, current, next, depth) && w.rest.Nil? && current in all + {root}
    modifies current`child, Members(w.flat)
    ensures depth' == depth - 1 && OnPlan(w', depth', w.log + Remaining(w))
    ensures depth' > 0 ==> Standing(w', all, root, current', current, depth') && Rounds(w') < Rounds(w)
    ensures depth' == 0 ==> root.child == null && Distinct(w'.log) && Members(w'.log) == all && Gone(w'.log)
  {
    CloseAndAccount(current, w, all);
    PopRemaining(w);
    current', depth', w' := current.parent, depth - 1, Popped(w);
  }

  /** Everything is removed, and the root has no children left. */
  ghost predicate TakenApart(root: Node, all: set<Node>, log: seq<Node>)
    reads root`child, Members(log)`dangling, Members(log)`kind
  {
    root.child == null && Distinct(log) && Members(log) == all && Gone(log)
  }

  /** One round of the loop. */
  method Round(root: Node, current: Node, next: Node?, depth: nat, ghost w: Work, ghost all: set<Node>)
      returns (current': Node?, next': Node?, depth': nat, ghost w': Work)
    requires Standing(w, all, root, current, next, depth)
    modifies root`child, all
    ensures if depth' > 0 then Standing(w', all, root, current', next', depth') && Rounds(w') < Rounds(w)
            else TakenApart(root, all, w'.log)
    ensures OnPlan(w', depth', w.log + Remaining(w))
  {
    NextChild(w, all, root, current, next, depth);
    var node := if next == null then current.child else next.next;
    if node == null {
      ParentsWithin(w.s);
      current', depth', w' := RoundUp(root, current, next, depth, w, all);
      next' := current;
    } else {
      ForwardRemaining(w);
      w' := StepForward(w, all, root, current, next, depth);
      if node.child != null {
        current', next', depth' := node, null, depth + 1;
      } else {
        current', next', depth' := current, node, depth;
      }
    }
  }

  lemma Starts(root: Node, f: Forest)
    requires root.child == First(f) && root !in Nodes(f) && Linked(f, root) && Alive(f)
    ensures Standing(Work(Bottom(root), [], f, []), Nodes(f), root, root, null, 1)
  {}

  /** The loop. */
  method TakeApart(root: Node, ghost f: Forest) returns (ghost log: seq<Node>)
    requires root.child == First(f) && root !in Nodes(f) && Linked(f, root) && Alive(f)
    modifies root`child, Nodes(f)
    ensures TakenApart(root, Nodes(f), log) && log == Removed(f)
  {
    var current: Node?, next: Node?, depth: nat := root, null, 1;
    ghost var all, w, plan := Nodes(f), Work(Bottom(root), [], f, []), Removed(f);
    Starts(root, f);
    PlanStarts(root, f);
    while depth > 0
      invariant if depth > 0 then Standing(w, all, root, current, next, depth) else TakenApart(root, all, w.log)
      invariant OnPlan(w, depth, plan)
      decreases if depth > 0 then 1 + Rounds(w) else 0
    {
      current, next, depth, w := Round(root, current, next, depth, w, all);
    }
    log := w.log;
  }

  /**
   The teardown of a whole namespace with no dangling node: it terminates, every uninstall is
   of a childless node and succeeds, every node below the root is uninstalled exactly once (`log`),
   loses its object, and goes after all the nodes below it; the root is left without children.
   */
  method Deinitialize(root: Node, ghost f: Forest) returns (ghost log: seq<Node>)
    requires root.parent == null && root.child == First(f) && root !in Nodes(f) && Linked(f, root) && Alive(f)
    modifies root`child, root`kind, Nodes(f)
    ensures root.child == null && root.kind == None
    ensures Distinct(log) && Members(log) == Nodes(f)
    ensures forall n :: n in Nodes(f) ==> n.dangling && n.kind == None
    ensures log == Removed(f) && BelowFirst(log, f)
  {
    log := TakeApart(root, f);
    root.kind := None;
    RemovedBottomUp(f);
  }
}
