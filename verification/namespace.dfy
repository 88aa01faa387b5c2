/**
 The nodes of the ACPI namespace and the shape their child, next and parent pointers must have.
 */
module Namespace {
  datatype Option<T> = None | Some(value: T)

  /** The four characters of a name segment. */
  type Name = s: string | |s| == 4 witness "____"

  /** The type of the object attached to a node: a bit of a 32-bit type mask. */
  type Kind = k: nat | k < 32

  class Node {
    const name: Name
    var temporary: bool
    var dangling: bool
    var kind: Option<Kind>  // none: no object attached
    var parent: Node?
    var child: Node?
    var next: Node?

    constructor (name: Name)
      ensures this.name == name && !temporary && !dangling && kind == None
      ensures parent == null && child == null && next == null
    {
      this.name := name;
      temporary, dangling, kind := false, false, None;
      parent, child, next := null, null, null;
    }
  }

  /** A list of sibling nodes, each with the list of its children. */
  datatype Forest = Nil | Cons(head: Node, kids: Forest, rest: Forest)

  ghost function Nodes(f: Forest): set<Node> {
    match f
    case Nil => {}
    case Cons(n, k, r) => {n} + Nodes(k) + Nodes(r)
  }

  ghost function First(f: Forest): Node? {
    match f
    case Nil => null
    case Cons(n, _, _) => n
  }

  /** The pointers of the nodes of `f` spell out `f` below `parent`, and no node occurs twice. */
  ghost predicate Linked(f: Forest, parent: Node)
    reads Nodes(f)`next, Nodes(f)`parent, Nodes(f)`child
  {
    match f
    case Nil => true
    case Cons(n, k, r) =>
      && n.child == First(k) && n.next == First(r) && n.parent == parent
      && n !in Nodes(k) && n !in Nodes(r) && Nodes(k) !! Nodes(r)
      && Linked(k, n) && Linked(r, parent)
  }

  ghost function Count(f: Forest): nat {
    match f
    case Nil => 0
    case Cons(_, k, r) => 1 + Count(k) + Count(r)
  }

  ghost function Members(s: seq<Node>): set<Node> {
    set n | n in s
  }

  ghost predicate Distinct(s: seq<Node>) {
    forall i, j :: 0 <= i < j < |s| ==> s[i] != s[j]
  }

  ghost function After(s: seq<Node>, tail: Node?, i: nat): Node?
    requires i <= |s|
  {
    if i < |s| then s[i] else tail
  }

  ghost predicate Link(s: seq<Node>, tail: Node?, i: nat)
    requires i < |s|
    reads {s[i]}`next
  {
    s[i].next == After(s, tail, i + 1)
  }

  /** Following next from `first` runs through `s` and arrives at `tail`. */
  ghost predicate Chain(first: Node?, s: seq<Node>, tail: Node?)
    reads Members(s)`next
  {
    first == After(s, tail, 0) && forall i :: 0 <= i < |s| ==> Link(s, tail, i)
  }
}
