/**
 The stackless walk over a namespace subtree: child, next and parent pointers and a depth counter
 instead of recursion. Callbacks are an arbitrary function of everything called so far; they do not
 change the tree.
 */
module Walk {
  import opened Namespace

  datatype Decision = Continue | NextPeer | Break | Other

  datatype Status = Ok | InvalidArgument

  /** A callback on the way down or on the way up. */
  datatype Event = Event(up: bool, node: Node, depth: nat)

  datatype Query = Query(decide: seq<Event> -> Decision, down: bool, up: bool,
                         kinds: set<Kind>, maxDepth: nat, permanentOnly: bool)

  /** `matches` survives from node to node: a node without an object leaves it as it was. */
  datatype State = State(calls: seq<Event>, matches: bool, halted: Option<Status>)

  // ---- The recursive reference

  function Matches(q: Query, n: Node, s: State): bool
    reads n
  {
    if n.kind.Some? then n.kind.value in q.kinds else s.matches
  }

  /** Tests one node's type and temporary flag and makes its callback, if there is one to make. */
  function Call(q: Query, n: Node, depth: nat, up: bool, s: State): (State, Decision)
    reads n
  {
    var t := s.(matches := Matches(q, n, s));
    if !t.matches then (t, Continue)
    else if q.permanentOnly && n.temporary then (t, NextPeer)
    else if (if up then q.up else q.down) then
      var calls := t.calls + [Event(up, n, depth)];
      (t.(calls := calls), q.decide(calls))
    else (t, Continue)
  }

  ghost function Ascend(q: Query, n: Node, depth: nat, s: State): State
    reads n
  {
    if s.halted.Some? then s
    else
      var (t, d) := Call(q, n, depth, true, s);
      if d == Break then t.(halted := Some(Ok)) else t
  }

  /** Visits every tree of the forest in order: the node, its children, the node again. */
  ghost function Visit(q: Query, f: Forest, depth: nat, s: State): State
    reads Nodes(f)
  {
    if f.Nil? || s.halted.Some? then s
    else
      var (t, d) := Call(q, f.head, depth, false, s);
      if d == Break then t.(halted := Some(Ok))
      else if d == Other then t.(halted := Some(InvalidArgument))
      else
        var below := if d == Continue && depth != q.maxDepth then Visit(q, f.kids, depth + 1, t) else t;
        Visit(q, f.rest, depth, Ascend(q, f.head, depth, below))
  }

  // ---- The walk, relative to the path that led to the current node

  /** The ancestors of the current node, each as the sibling list that starts at it. */
  datatype Path = Start(owner: Node) | Step(above: Path, cell: Forest)

  ghost function PathNodes(p: Path): set<Node> {
    match p
    case Start(_) => {}
    case Step(a, c) => PathNodes(a) + Nodes(c)
  }

  ghost function Depth(p: Path): nat {
    match p
    case Start(_) => 0
    case Step(a, _) => 1 + Depth(a)
  }

  ghost function Owner(p: Path): Node {
    match p
    case Start(o) => o
    case Step(a, c) => if c.Cons? then c.head else Owner(a)
  }

  ghost predicate PathOk(p: Path)
    reads PathNodes(p)
  {
    match p
    case Start(_) => true
    case Step(a, c) => c.Cons? && Linked(c, Owner(a)) && PathOk(a)
  }

  /** What is still to do above the current sibling list once it is finished. */
  ghost function Unwind(q: Query, p: Path, s: State): State
    reads PathNodes(p)
  {
    match p
    case Start(_) => s
    case Step(a, c) =>
      if c.Nil? then s else Unwind(q, a, Visit(q, c.rest, Depth(p), Ascend(q, c.head, Depth(p), s)))
  }

  /** How many rounds the loop can still make above the current sibling list. */
  ghost function Above(p: Path): nat {
    match p
    case Start(_) => 0
    case Step(a, c) => if c.Nil? then 0 else 1 + 2 * Count(c.rest) + Above(a)
  }

  /** The result of the whole walk, seen from the middle of it. */
  ghost function Outcome(q: Query, p: Path, cell: Forest, up: bool, s: State): State
    requires cell.Cons?
    reads PathNodes(p), Nodes(cell)
  {
    var depth := 1 + Depth(p);
    Unwind(q, p, if up then Visit(q, cell.rest, depth, Ascend(q, cell.head, depth, s)) else Visit(q, cell, depth, s))
  }

  lemma {:induction false} HaltedUnwinds(q: Query, p: Path, s: State)
    requires s.halted.Some?
    ensures Unwind(q, p, s) == s
  {
    if p.Step? && p.cell.Cons? {
      HaltedUnwinds(q, p.above, s);
    }
  }

  // ---- The moves of the loop keep the outcome

  ghost predicate At(p: Path, cell: Forest)
    reads PathNodes(p), Nodes(cell)
  {
    cell.Cons? && PathOk(p) && Linked(cell, Owner(p))
  }

  lemma MoveToPeer(q: Query, p: Path, cell: Forest, s: State, t: State, d: Decision)
    requires At(p, cell) && s.halted == None && cell.rest.Cons?
    requires Call(q, cell.head, 1 + Depth(p), true, s) == (t, d) && d != Break
    ensures Outcome(q, p, cell.rest, false, t) == Outcome(q, p, cell, true, s)
  {}

  lemma MoveToParent(q: Query, p: Path, cell: Forest, s: State, t: State, d: Decision)
    requires At(p, cell) && s.halted == None && cell.rest.Nil?
    requires Call(q, cell.head, 1 + Depth(p), true, s) == (t, d) && d != Break
    ensures p.Start? ==> t == Outcome(q, p, cell, true, s)
    ensures p.Step? ==> p.cell.Cons? && Outcome(q, p.above, p.cell, true, t) == Outcome(q, p, cell, true, s)
  {}

  lemma MoveToChild(q: Query, p: Path, cell: Forest, s: State, t: State)
    requires At(p, cell) && s.halted == None && cell.kids.Cons? && q.maxDepth != 1 + Depth(p)
    requires Call(q, cell.head, 1 + Depth(p), false, s) == (t, Continue)
    ensures Outcome(q, Step(p, cell), cell.kids, false, t) == Outcome(q, p, cell, false, s)
  {}

  lemma TurnAround(q: Query, p: Path, cell: Forest, s: State, t: State, d: Decision)
    requires At(p, cell) && s.halted == None
    requires Call(q, cell.head, 1 + Depth(p), false, s) == (t, d)
    requires d == NextPeer || (d == Continue && (q.maxDepth == 1 + Depth(p) || cell.kids.Nil?))
    ensures Outcome(q, p, cell, true, t) == Outcome(q, p, cell, false, s)
  {
    var depth := 1 + Depth(p);
    assert cell.kids.Nil? ==> Visit(q, cell.kids, depth + 1, t) == t;
    assert Visit(q, cell, depth, s) == Visit(q, cell.rest, depth, Ascend(q, cell.head, depth, t));
  }

  lemma StopHere(q: Query, p: Path, cell: Forest, up: bool, s: State, t: State, d: Decision)
    requires At(p, cell) && s.halted == None
    requires Call(q, cell.head, 1 + Depth(p), up, s) == (t, d) && (d == Break || (d == Other && !up))
    ensures Outcome(q, p, cell, up, s) == t.(halted := Some(if d == Break then Ok else InvalidArgument))
  {
    HaltedUnwinds(q, p, t.(halted := Some(if d == Break then Ok else InvalidArgument)));
  }

  /** How many rounds the loop can still make. */
  ghost function Rounds(p: Path, cell: Forest, up: bool): nat {
    if cell.Nil? then 0 else 1 + Above(p) + if up then 1 + 2 * Count(cell.rest) else 2 * Count(cell)
  }

  /** Where the loop stands: the current node, the path above it and the direction. */
  datatype Cursor = Cursor(p: Path, cell: Forest, up: bool)

  /** The loop's variables agree with the ghost cursor, and the outcome from here is `end`. */
  ghost predicate Standing(q: Query, node: Node?, depth: nat, c: Cursor, s: State, end: State)
    reads PathNodes(c.p), Nodes(c.cell)
  {
    && At(c.p, c.cell) && node == c.cell.head && depth == 1 + Depth(c.p)
    && Outcome(q, c.p, c.cell, c.up, s) == end
  }

  lemma StepUp(q: Query, node: Node, depth: nat, d: Decision, c: Cursor, s: State, t: State, end: State)
      returns (c': Cursor)
    requires Standing(q, node, depth, c, s, end) && c.up && s.halted == None
    requires Call(q, node, depth, true, s) == (t, d) && d != Break
    ensures Rounds(c'.p, c'.cell, c'.up) < Rounds(c.p, c.cell, c.up) || depth == 1
    ensures if node.next != null then Standing(q, node.next, depth, c', t, end) && !c'.up
            && Rounds(c'.p, c'.cell, c'.up) < Rounds(c.p, c.cell, c.up)
            else if depth == 1 then t == end
            else Standing(q, node.parent, depth - 1, c', t, end) && c'.up
  {
    if node.next != null {
      MoveToPeer(q, c.p, c.cell, s, t, d);
      c' := Cursor(c.p, c.cell.rest, false);
    } else {
      MoveToParent(q, c.p, c.cell, s, t, d);
      c' := if c.p.Step? then Cursor(c.p.above, c.p.cell, true) else c;
    }
  }

  lemma StepDown(q: Query, node: Node, depth: nat, d: Decision, c: Cursor, s: State, t: State, end: State)
      returns (c': Cursor)
    requires Standing(q, node, depth, c, s, end) && !c.up && s.halted == None
    requires Call(q, node, depth, false, s) == (t, d) && (d == Continue || d == NextPeer)
    ensures Rounds(c'.p, c'.cell, c'.up) < Rounds(c.p, c.cell, c.up)
    ensures if d == Continue && depth != q.maxDepth && node.child != null
            then Standing(q, node.child, depth + 1, c', t, end) && !c'.up
            else Standing(q, node, depth, c', t, end) && c'.up
  {
    if d == Continue && depth != q.maxDepth && node.child != null {
      MoveToChild(q, c.p, c.cell, s, t);
      c' := Cursor(Step(c.p, c.cell), c.cell.kids, false);
    } else {
      TurnAround(q, c.p, c.cell, s, t, d);
      c' := Cursor(c.p, c.cell, true);
    }
  }

  /** The loop, from a non-empty list of children. */
  method Loop(start: Node, q: Query, ghost f: Forest) returns (status: Status, calls: seq<Event>)
    requires start.child == First(f) && f.Cons? && Linked(f, start)
    ensures var end := Visit(q, f, 1, State([], false, None));
            calls == end.calls && status == if end.halted.Some? then end.halted.value else Ok
  {
    status := Ok;
    var node, depth, walkingUp, s := start.child, 1, false, State([], false, None);
    ghost var c, end := Cursor(Start(start), f, false), Visit(q, f, 1, s);
    while depth > 0
      invariant s.halted == None && end == Visit(q, f, 1, State([], false, None))
      invariant depth > 0 ==> Standing(q, node, depth, c, s, end) && c.up == walkingUp
      invariant depth == 0 ==> s == end
      decreases if depth == 0 then 0 else Rounds(c.p, c.cell, c.up)
    {
      var (t, decision) := Call(q, node, depth, walkingUp, s);
      if decision == Break || (decision == Other && !walkingUp) {
        StopHere(q, c.p, c.cell, walkingUp, s, t, decision);
        return if decision == Break then Ok else InvalidArgument, t.calls;
      }
      if walkingUp {
        c := StepUp(q, node, depth, decision, c, s, t, end);
        if node.next != null {
          node, walkingUp := node.next, false;
        } else {
          node, depth := node.parent, depth - 1;
        }
      } else {
        c := StepDown(q, node, depth, decision, c, s, t, end);
        if decision == Continue && depth != q.maxDepth && node.child != null {
          node, depth := node.child, depth + 1;
        } else {
          walkingUp := true;
        }
      }
      s := t;
    }
    calls := s.calls;
  }

  // ---- Stopping

  /** The last callback lets the walk go on: it did not break it off, nor answer nonsense on the way down. */
  predicate GoesOn(q: Query, calls: seq<Event>)
    requires calls != []
  {
    var d := q.decide(calls);
    d != Break && (d == Other ==> calls[|calls| - 1].up)
  }

  /** Every callback after the first `from` but the last let the walk go on, and the last one says how it ended. */
  ghost predicate Obeyed(q: Query, from: nat, calls: seq<Event>, halted: Option<Status>) {
    && (forall k :: from < k < |calls| ==> GoesOn(q, calls[..k]))
    && halted == if |calls| <= from || GoesOn(q, calls) then None
                 else Some(if q.decide(calls) == Break then Ok else InvalidArgument)
  }

  lemma CallObeyed(q: Query, n: Node, depth: nat, up: bool, from: nat, s: State)
    requires s.halted == None && from <= |s.calls| && Obeyed(q, from, s.calls, None)
    ensures var (t, d) := Call(q, n, depth, up, s);
            && from <= |t.calls|
            && Obeyed(q, from, t.calls, if d == Break then Some(Ok)
                                        else if d == Other && !up then Some(InvalidArgument) else None)
  {
    var (t, d) := Call(q, n, depth, up, s);
    forall k | from < k < |t.calls| ensures GoesOn(q, t.calls[..k]) {
      assert t.calls[..k] == s.calls[..k];
      assert k == |s.calls| ==> s.calls[..k] == s.calls;
    }
  }

  lemma AscendObeyed(q: Query, n: Node, depth: nat, from: nat, s: State)
    requires from <= |s.calls| && Obeyed(q, from, s.calls, s.halted)
    ensures var t := Ascend(q, n, depth, s); from <= |t.calls| && Obeyed(q, from, t.calls, t.halted)
  {
    if s.halted == None {
      CallObeyed(q, n, depth, true, from, s);
      var (t, d) := Call(q, n, depth, true, s);
      assert t.halted == None;
    }
  }

  /** The walk ends at the first callback that stops it, with the status that callback asks for. */
  lemma {:induction false} VisitObeys(q: Query, f: Forest, depth: nat, from: nat, s: State)
    requires from <= |s.calls| && Obeyed(q, from, s.calls, s.halted)
    ensures var t := Visit(q, f, depth, s); from <= |t.calls| && Obeyed(q, from, t.calls, t.halted)
    decreases f
  {
    if f.Cons? && s.halted == None {
      CallObeyed(q, f.head, depth, false, from, s);
      var (t, d) := Call(q, f.head, depth, false, s);
      assert t.halted == None;
      if d != Break && d != Other {
        var below := Below(q, f, depth, s);
        if d == Continue && depth != q.maxDepth {
          VisitObeys(q, f.kids, depth + 1, from, t);
        }
        AscendObeyed(q, f.head, depth, from, below);
        VisitObeys(q, f.rest, depth, from, Ascend(q, f.head, depth, below));
      }
    }
  }

  // ---- Pre-order and post-order

  /** The callbacks made in one direction. */
  ghost function Only(calls: seq<Event>, up: bool): seq<Event> {
    if calls == [] then []
    else
      var last := calls[|calls| - 1];
      Only(calls[..|calls| - 1], up) + if last.up == up then [last] else []
  }

  /** Callbacks that never stop the walk and skip the children of exactly the nodes in `skipped`. */
  function Skipping(skipped: set<Node>): seq<Event> -> Decision {
    (calls: seq<Event>) =>
      if calls != [] && !calls[|calls| - 1].up && calls[|calls| - 1].node in skipped then NextPeer else Continue
  }

  /** The match that testing `n` leaves when the test before it left `m`. */
  ghost predicate Typed(q: Query, n: Node, m: bool)
    reads n
  {
    if n.kind.Some? then n.kind.value in q.kinds else m
  }

  ghost predicate Hidden(q: Query, n: Node)
    reads n
  {
    q.permanentOnly && n.temporary
  }

  /** The node's children are visited: depth allows it and neither pruning nor NEXT_PEER forbids it. */
  ghost predicate Opens(q: Query, skipped: set<Node>, n: Node, depth: nat, m: bool)
    reads n
  {
    depth != q.maxDepth && !Closed(q, skipped, n, m)
  }

  ghost predicate Closed(q: Query, skipped: set<Node>, n: Node, m: bool)
    reads n
  {
    Typed(q, n, m) && (Hidden(q, n) || (q.down && n in skipped))
  }

  ghost function Called(q: Query, n: Node, depth: nat, up: bool, m: bool): seq<Event>
    reads n
  {
    if Typed(q, n, m) && !Hidden(q, n) && (if up then q.up else q.down) then [Event(up, n, depth)] else []
  }

  /** The match left behind by the test of the first node on the way down and by its children. */
  ghost function MatchBelow(q: Query, skipped: set<Node>, f: Forest, depth: nat, m: bool): bool
    requires f.Cons?
    reads Nodes(f)
    decreases f, 0
  {
    if Opens(q, skipped, f.head, depth, m) then MatchAfter(q, skipped, f.kids, depth + 1, Typed(q, f.head, m))
    else Typed(q, f.head, m)
  }

  /** The match left behind by the visit of all trees. */
  ghost function MatchAfter(q: Query, skipped: set<Node>, f: Forest, depth: nat, m: bool): bool
    reads Nodes(f)
    decreases f, 1
  {
    if f.Nil? then m
    else MatchAfter(q, skipped, f.rest, depth, Typed(q, f.head, MatchBelow(q, skipped, f, depth, m)))
  }

  /** `m` is the match left behind by whatever was tested before the first node. */
  ghost function PreOrder(q: Query, skipped: set<Node>, f: Forest, depth: nat, m: bool): seq<Event>
    reads Nodes(f)
  {
    if f.Nil? then []
    else
      var below := MatchBelow(q, skipped, f, depth, m);
      Called(q, f.head, depth, false, m)
      + (if Opens(q, skipped, f.head, depth, m) then PreOrder(q, skipped, f.kids, depth + 1, Typed(q, f.head, m))
         else [])
      + PreOrder(q, skipped, f.rest, depth, Typed(q, f.head, below))
  }

  ghost function PostOrder(q: Query, skipped: set<Node>, f: Forest, depth: nat, m: bool): seq<Event>
    reads Nodes(f)
  {
    if f.Nil? then []
    else
      var below := MatchBelow(q, skipped, f, depth, m);
      (if Opens(q, skipped, f.head, depth, m) then PostOrder(q, skipped, f.kids, depth + 1, Typed(q, f.head, m))
       else [])
      + Called(q, f.head, depth, true, below)
      + PostOrder(q, skipped, f.rest, depth, Typed(q, f.head, below))
  }

  ghost function Order(q: Query, skipped: set<Node>, f: Forest, depth: nat, up: bool, m: bool): seq<Event>
    reads Nodes(f)
  {
    if up then PostOrder(q, skipped, f, depth, m) else PreOrder(q, skipped, f, depth, m)
  }

  /** The part of the order that belongs to the children of the first node. */
  ghost function KidsOrder(q: Query, skipped: set<Node>, f: Forest, depth: nat, up: bool, m: bool): seq<Event>
    requires f.Cons?
    reads Nodes(f)
  {
    if Opens(q, skipped, f.head, depth, m) then Order(q, skipped, f.kids, depth + 1, up, Typed(q, f.head, m)) else []
  }

  lemma Padding(a: seq<Event>, b: seq<Event>, c: seq<Event>)
    ensures [] + a + b + c == a + b + c && a + b + [] + c == a + b + c
  {}

  lemma OrderCons(q: Query, skipped: set<Node>, f: Forest, depth: nat, up: bool, m: bool)
    requires f.Cons?
    ensures var below := MatchBelow(q, skipped, f, depth, m);
            Order(q, skipped, f, depth, up, m) ==
            (if up then [] else Called(q, f.head, depth, false, m)) + KidsOrder(q, skipped, f, depth, up, m)
            + (if up then Called(q, f.head, depth, true, below) else [])
            + Order(q, skipped, f.rest, depth, up, Typed(q, f.head, below))
  {
    var below := MatchBelow(q, skipped, f, depth, m);
    var kids := KidsOrder(q, skipped, f, depth, up, m);
    Padding(if up then kids else Called(q, f.head, depth, false, m), if up then Called(q, f.head, depth, true, below)
            else kids,
            Order(q, skipped, f.rest, depth, up, Typed(q, f.head, below)));
  }

  lemma OnlyLast(calls: seq<Event>, e: Event, up: bool)
    ensures Only(calls + [e], up) == Only(calls, up) + if e.up == up then [e] else []
  {
    assert (calls + [e])[..|calls|] == calls;
  }

  /** A call neither halts the walk nor changes anything but the match and the list of calls. */
  lemma CallDecides(q: Query, skipped: set<Node>, n: Node, depth: nat, going: bool, s: State)
    requires q.decide == Skipping(skipped)
    ensures var (t, d) := Call(q, n, depth, going, s);
            && t == State(s.calls + Called(q, n, depth, going, s.matches), Typed(q, n, s.matches), s.halted)
            && d != Break && d != Other
            && (!going ==> (d == Continue <==> !Closed(q, skipped, n, s.matches)))
  {
    var called := Called(q, n, depth, going, s.matches);
    assert called == [] ==> s.calls + called == s.calls;
  }

  lemma CalledOnly(q: Query, n: Node, depth: nat, going: bool, m: bool, calls: seq<Event>, up: bool)
    ensures Only(calls + Called(q, n, depth, going, m), up)
            == Only(calls, up) + if going == up then Called(q, n, depth, going, m) else []
  {
    var called := Called(q, n, depth, going, m);
    if called == [] {
      assert calls + called == calls;
    } else {
      OnlyLast(calls, called[0], up);
    }
  }

  lemma Regroup(s: seq<Event>, a: seq<Event>, b: seq<Event>, c: seq<Event>, d: seq<Event>)
    ensures s + (a + b + c + d) == s + a + b + c + d
  {}

  lemma AscendAdds(q: Query, skipped: set<Node>, n: Node, depth: nat, s: State, up: bool)
    requires q.decide == Skipping(skipped) && s.halted == None
    ensures var t := Ascend(q, n, depth, s);
            && t.halted == None && t.matches == Typed(q, n, s.matches)
            && Only(t.calls, up) == Only(s.calls, up) + (if up then Called(q, n, depth, true, s.matches) else [])
  {
    CallDecides(q, skipped, n, depth, true, s);
    CalledOnly(q, n, depth, true, s.matches, s.calls, up);
  }

  /** The state after a node's own descending callback and its children. */
  ghost function Below(q: Query, f: Forest, depth: nat, s: State): State
    requires f.Cons?
    reads Nodes(f)
  {
    var (t, d) := Call(q, f.head, depth, false, s);
    if d == Continue && depth != q.maxDepth then Visit(q, f.kids, depth + 1, t) else t
  }

  lemma VisitCons(q: Query, skipped: set<Node>, f: Forest, depth: nat, s: State)
    requires q.decide == Skipping(skipped) && f.Cons? && s.halted == None
    ensures Visit(q, f, depth, s) == Visit(q, f.rest, depth, Ascend(q, f.head, depth, Below(q, f, depth, s)))
  {
    CallDecides(q, skipped, f.head, depth, false, s);
  }

  /**
   When no callback stops the walk, the descending callbacks are exactly the pre-order and the
   ascending ones exactly the post-order of the subtree, after type filter, depth limit, NEXT_PEER
   and the pruning of temporary nodes. A node without an object counts as matching the filter if
   the node tested before it did.
   */
  lemma {:induction false} VisitOrders(q: Query, skipped: set<Node>, f: Forest, depth: nat, s: State, up: bool)
    requires q.decide == Skipping(skipped) && s.halted == None
    ensures var t := Visit(q, f, depth, s);
            && t.halted == None && t.matches == MatchAfter(q, skipped, f, depth, s.matches)
            && Only(t.calls, up) == Only(s.calls, up) + Order(q, skipped, f, depth, up, s.matches)
    decreases f, 1
  {
    if f.Cons? {
      OrderCons(q, skipped, f, depth, up, s.matches);
      VisitCons(q, skipped, f, depth, s);
      var below := Below(q, f, depth, s);
      BelowOrders(q, skipped, f, depth, s, up);
      AscendAdds(q, skipped, f.head, depth, below, up);
      VisitOrders(q, skipped, f.rest, depth, Ascend(q, f.head, depth, below), up);
      Regroup(Only(s.calls, up), if up then [] else Called(q, f.head, depth, false, s.matches),
              KidsOrder(q, skipped, f, depth, up, s.matches),
              if up then Called(q, f.head, depth, true, below.matches) else [],
              Order(q, skipped, f.rest, depth, up, Typed(q, f.head, below.matches)));
    }
  }

  lemma {:induction false} BelowOrders(q: Query, skipped: set<Node>, f: Forest, depth: nat, s: State, up: bool)
    requires q.decide == Skipping(skipped) && f.Cons? && s.halted == None
    ensures var t := Below(q, f, depth, s);
            && t.halted == None && t.matches == MatchBelow(q, skipped, f, depth, s.matches)
            && Only(t.calls, up) == Only(s.calls, up) + (if up then [] else Called(q, f.head, depth, false, s.matches))
                                    + KidsOrder(q, skipped, f, depth, up, s.matches)
    decreases f, 0
  {
    CallDecides(q, skipped, f.head, depth, false, s);
    CalledOnly(q, f.head, depth, false, s.matches, s.calls, up);
    var (t, d) := Call(q, f.head, depth, false, s);
    if d == Continue && depth != q.maxDepth {
      VisitOrders(q, skipped, f.kids, depth + 1, t, up);
    }
  }

  ghost predicate AllHaveObjects(f: Forest)
    reads Nodes(f)
  {
    forall n :: n in Nodes(f) ==> n.kind.Some?
  }

  /** Where every node has an object, nothing depends on what was tested before. */
  lemma {:induction false} ObjectsDecide(q: Query, skipped: set<Node>, f: Forest, depth: nat, up: bool, m: bool,
                                         m': bool)
    requires AllHaveObjects(f)
    ensures Order(q, skipped, f, depth, up, m) == Order(q, skipped, f, depth, up, m')
  {
    if f.Cons? {
      OrderCons(q, skipped, f, depth, up, m);
      OrderCons(q, skipped, f, depth, up, m');
    }
  }

  /** ... but a node `b` without an object is called or not according to the node before it. */
  lemma NoObjectInherits(q: Query, a: Node, b: Node)
    requires a.kind.Some? && a.kind.value in q.kinds && b.kind == None && !Hidden(q, a) && !Hidden(q, b) && q.down
    ensures PreOrder(q, {}, Cons(a, Nil, Cons(b, Nil, Nil)), 1, false) == [Event(false, a, 1), Event(false, b, 1)]
    ensures PreOrder(q, {}, Cons(b, Nil, Cons(a, Nil, Nil)), 1, false) == [Event(false, a, 1)]
  {
    var first, second := Cons(a, Nil, Nil), Cons(b, Nil, Nil);
    assert MatchBelow(q, {}, Cons(a, Nil, second), 1, false);
    assert PreOrder(q, {}, second, 1, true) == [Event(false, b, 1)];
    assert !MatchBelow(q, {}, Cons(b, Nil, first), 1, false);
    assert PreOrder(q, {}, first, 1, false) == [Event(false, a, 1)];
  }

  /** The calls are the pre-order on the way down and the post-order on the way up. */
  ghost predicate InOrder(q: Query, skipped: set<Node>, f: Forest, calls: seq<Event>)
    reads Nodes(f)
  {
    && Only(calls, false) == PreOrder(q, skipped, f, 1, false)
    && Only(calls, true) == PostOrder(q, skipped, f, 1, false)
  }

  lemma VisitInOrder(q: Query, skipped: set<Node>, f: Forest)
    requires q.decide == Skipping(skipped)
    ensures var end := Visit(q, f, 1, State([], false, None));
            end.halted == None && InOrder(q, skipped, f, end.calls)
  {
    VisitOrders(q, skipped, f, 1, State([], false, None), false);
    VisitOrders(q, skipped, f, 1, State([], false, None), true);
  }

  /**
   uacpi_namespace_do_for_each_child on the children `f` of `start`: it terminates, and the calls
   it makes, with what they decided, are those of the recursive visit. Callbacks that only ever
   skip the children of some nodes are called in pre-order and post-order. Any other callback ends
   the walk, the first time it breaks it off or, on the way down, gives no decision.
   */
  method ForEachChild(start: Node?, q: Query, ghost f: Forest) returns (status: Status, calls: seq<Event>)
    requires start != null ==> start.child == First(f) && Linked(f, start)
    ensures (!q.down && !q.up) || start == null || q.maxDepth == 0 ==> status == InvalidArgument && calls == []
    ensures (q.down || q.up) && start != null && q.maxDepth != 0 ==>
              var end := Visit(q, f, 1, State([], false, None));
              calls == end.calls && status == if end.halted.Some? then end.halted.value else Ok
    ensures (q.down || q.up) && start != null && q.maxDepth != 0 ==>
              forall skipped :: q.decide == Skipping(skipped) ==> status == Ok && InOrder(q, skipped, f, calls)
    ensures forall k :: 0 < k < |calls| ==> GoesOn(q, calls[..k])
    ensures (q.down || q.up) && start != null && q.maxDepth != 0 ==>
              (status == Ok <==> calls == [] || GoesOn(q, calls) || q.decide(calls) == Break)
  {
    if !q.down && !q.up {
      return InvalidArgument, [];
    }
    if start == null || q.maxDepth == 0 {
      return InvalidArgument, [];
    }
    if start.child == null {
      return Ok, [];
    }
    status, calls := Loop(start, q, f);
    VisitObeys(q, f, 1, 0, State([], false, None));
    forall skipped | q.decide == Skipping(skipped) ensures status == Ok && InOrder(q, skipped, f, calls) {
      VisitInOrder(q, skipped, f);
    }
  }
}
