/**
 Finding nodes by name: what a lookup in a namespace tree means, on a flat description of the tree,
 and the search through a list of children that all lookups share.
 */
module Lookup {
  import opened Namespace

  /** A tree: the children of every node in order, its parent and its depth. */
  datatype Shape = Shape(root: Node, kids: map<Node, seq<Node>>, parent: map<Node, Node>, depth: map<Node, nat>) {
    ghost predicate Valid() {
      root in kids && root !in parent && root in depth && depth[root] == 0
        && forall n {:trigger Placed(n)} :: n in kids ==> Placed(n)
    }

    /** A node, its children and its parent agree. */
    ghost predicate Placed(n: Node)
      requires n in kids
    {
      && n in depth
      && (forall i :: 0 <= i < |kids[n]| ==> Under(kids[n][i], n))
      && (n != root ==> n in parent && parent[n] in kids && n in kids[parent[n]] && Under(n, parent[n]))
    }

    ghost predicate Under(k: Node, n: Node)
      requires n in kids
    {
      k in kids && k in parent && parent[k] == n && k in depth && n in depth && depth[k] == depth[n] + 1
    }

    /** The pointers of the nodes are those of the tree. */
    ghost predicate Describes()
      requires Valid()
      reads kids.Keys, set n, k | n in kids && k in kids[n] :: k
    {
      forall n {:trigger Points(n)} :: n in kids ==> Points(n)
    }

    ghost predicate Points(n: Node)
      requires n in kids
      reads n, Members(kids[n])
    {
      Chain(n.child, kids[n], null) && (n.parent == if n == root then null else if n in parent then parent[n] else null)
    }
  }

  /** What holds of every node of a valid tree. */
  lemma Place(t: Shape, n: Node)
    requires t.Valid() && n in t.kids
    ensures t.Placed(n)
  {}

  ghost function Rank(t: Shape, n: Node): nat
    requires t.Valid() && n in t.kids
  {
    Place(t, n);
    t.depth[n]
  }

  /** The parent of a node; null for the root. */
  ghost function Up(t: Shape, n: Node): (m: Node?)
    requires t.Valid() && n in t.kids
    ensures m == null <==> n == t.root
    ensures m != null ==> m in t.kids && n in t.kids[m] && Rank(t, n) == Rank(t, m) + 1
  {
    Place(t, n);
    if n == t.root then null else t.parent[n]
  }

  lemma UpPointer(t: Shape, n: Node)
    requires t.Valid() && t.Describes() && n in t.kids
    ensures n.parent == Up(t, n) && Chain(n.child, t.kids[n], null)
  {
    assert t.Points(n);
    Place(t, n);
  }

  /** What a resolver reports; `Denied` is for a temporary node where only permanent ones may be found. */
  datatype Outcome = Found(node: Node) | NotFound | Invalid | Denied

  /** The first node of the list with this name. */
  function Named(s: seq<Node>, name: Name): Node? {
    if s == [] then null else if s[0].name == name then s[0] else Named(s[1..], name)
  }

  lemma {:induction false} NamedIsFirst(s: seq<Node>, name: Name, i: nat)
    requires i < |s| && s[i].name == name && forall j :: 0 <= j < i ==> s[j].name != name
    ensures Named(s, name) == s[i]
  {
    if i > 0 {
      NamedIsFirst(s[1..], name, i - 1);
    }
  }

  lemma {:induction false} NamedNone(s: seq<Node>, name: Name)
    requires forall j :: 0 <= j < |s| ==> s[j].name != name
    ensures Named(s, name) == null
  {
    if s != [] {
      NamedNone(s[1..], name);
    }
  }

  lemma {:induction false} NamedIn(s: seq<Node>, name: Name)
    ensures var n := Named(s, name); n != null ==> n in s && n.name == name
  {
    if s != [] {
      NamedIn(s[1..], name);
    }
  }

  /** uacpi_namespace_node_find_sub_node. */
  method FindSubNode(parent: Node, name: Name, ghost s: seq<Node>) returns (node: Node?)
    requires Chain(parent.child, s, null)
    ensures node == Named(s, name)
  {
    node := parent.child;
    ghost var i := 0;
    while node != null
      invariant i <= |s| && node == After(s, null, i) && Chain(parent.child, s, null)
      invariant forall j :: 0 <= j < i ==> s[j].name != name
      decreases |s| - i
    {
      if node.name == name {
        NamedIsFirst(s, name, i);
        return;
      }
      assert Link(s, null, i);
      node, i := node.next, i + 1;
    }
    NamedNone(s, name);
  }

  // ---- What a name means in a tree

  ghost function Sub(t: Shape, n: Node, name: Name): Node?
    requires t.Valid() && n in t.kids
  {
    Named(t.kids[n], name)
  }

  lemma SubInTree(t: Shape, n: Node, name: Name)
    requires t.Valid() && n in t.kids
    ensures var k := Sub(t, n, name); k != null ==> k in t.kids && k in t.kids[n] && k.name == name
  {
    NamedIn(t.kids[n], name);
    Place(t, n);
  }

  /** Down from `n`, one child per name. */
  ghost function Descend(t: Shape, n: Node, names: seq<Name>): Outcome
    requires t.Valid() && n in t.kids
    decreases |names|
  {
    if names == [] then Found(n)
    else
      SubInTree(t, n, names[0]);
      var k := Sub(t, n, names[0]);
      if k == null then NotFound else Descend(t, k, names[1..])
  }

  /** The child of that name of `n` or of its nearest ancestor that has one. */
  ghost function SearchUp(t: Shape, n: Node, name: Name): Outcome
    requires t.Valid() && n in t.kids
    decreases Rank(t, n)
  {
    var k := Sub(t, n, name);
    if k != null then Found(k) else if n == t.root then NotFound else SearchUp(t, Up(t, n), name)
  }

  /** `k` parents up; null above the root. */
  ghost function Climb(t: Shape, n: Node, k: nat): (m: Node?)
    requires t.Valid() && n in t.kids
    ensures m != null ==> m in t.kids
    decreases k
  {
    if k == 0 then n else if n == t.root then null else Climb(t, Up(t, n), k - 1)
  }

  lemma {:induction false} ClimbStep(t: Shape, n: Node, k: nat)
    requires t.Valid() && n in t.kids
    ensures var m := Climb(t, n, k); Climb(t, n, k + 1) == if m == null then null else Up(t, m)
    decreases k
  {
    if k > 0 && n != t.root {
      ClimbStep(t, Up(t, n), k - 1);
    }
  }

  lemma {:induction false} ClimbFails(t: Shape, n: Node, k: nat, more: nat)
    requires t.Valid() && n in t.kids && Climb(t, n, k) == null && k <= more
    ensures Climb(t, n, more) == null
    decreases k
  {
    if n != t.root {
      ClimbFails(t, Up(t, n), k - 1, more - 1);
    }
  }

  /** The search succeeds at `k` parents up: nobody nearer has a child of that name. */
  ghost predicate Nearest(t: Shape, n: Node, name: Name, k: nat, found: Node)
    requires t.Valid() && n in t.kids
  {
    && Climb(t, n, k) != null && Sub(t, Climb(t, n, k), name) == found
    && forall j: nat :: j < k ==> Climb(t, n, j) != null && Sub(t, Climb(t, n, j), name) == null
  }

  /** The search finds the child of the nearest ancestor that has one, and nothing exactly if none has. */
  lemma {:induction false} SearchUpNearest(t: Shape, n: Node, name: Name) returns (k: nat)
    requires t.Valid() && n in t.kids
    ensures SearchUp(t, n, name).Found? ==> Nearest(t, n, name, k, SearchUp(t, n, name).node)
    ensures !SearchUp(t, n, name).Found? ==>
              SearchUp(t, n, name) == NotFound
              && forall j: nat :: Climb(t, n, j) != null ==> Sub(t, Climb(t, n, j), name) == null
    decreases Rank(t, n)
  {
    assert Climb(t, n, 0) == n;
    if Sub(t, n, name) != null {
      k := 0;
    } else if n == t.root {
      k := 0;
      assert forall j: nat :: Climb(t, n, j) != null ==> j == 0;
    } else {
      var up := Up(t, n);
      var j := SearchUpNearest(t, up, name);
      k := j + 1;
      assert forall i: nat :: i > 0 ==> Climb(t, n, i) == Climb(t, up, i - 1);
    }
  }

  // ---- The prefix of a path or NameString: a backslash, or carets

  /** How many carets the text starts with. */
  ghost function Carets(text: string): nat
    ensures Carets(text) <= |text|
  {
    if text != [] && text[0] == '^' then 1 + Carets(text[1..]) else 0
  }

  lemma {:induction false} CaretsAt(text: string, k: nat)
    requires k <= |text| && (forall i :: 0 <= i < k ==> text[i] == '^') && (k < |text| ==> text[k] != '^')
    ensures Carets(text) == k
  {
    if k > 0 {
      CaretsAt(text[1..], k - 1);
    }
  }

  ghost function PrefixLength(text: string): nat
    ensures PrefixLength(text) <= |text|
  {
    if text != [] && text[0] == '\\' then 1 else Carets(text)
  }

  /** The node the prefix leads to from `scope`; null above the root or for a backslash after carets. */
  ghost function Base(t: Shape, scope: Node, text: string): (m: Node?)
    requires t.Valid() && scope in t.kids
    ensures m != null ==> m in t.kids
  {
    var k := Carets(text);
    if text != [] && text[0] == '\\' then t.root
    else if 0 < k < |text| && text[k] == '\\' then null
    else Climb(t, scope, k)
  }

  lemma {:induction false} CaretsMore(text: string, k: nat)
    requires k <= |text| && forall i :: 0 <= i < k ==> text[i] == '^'
    ensures Carets(text) >= k
  {
    if k > 0 {
      CaretsMore(text[1..], k - 1);
    }
  }

  /** The loop over prefix characters that both resolvers begin with. */
  method FollowPrefix(ghost t: Shape, root: Node, scope: Node, text: string) returns (base: Node?, length: nat)
    requires t.Valid() && t.Describes() && root == t.root && scope in t.kids
    ensures base == Base(t, scope, text)
    ensures base != null ==> length == PrefixLength(text)
  {
    var cur: Node := scope;
    length := 0;
    while length < |text| && text[length] == '^'
      invariant length <= |text| && cur in t.kids && Climb(t, scope, length) == cur && t.Describes()
      invariant forall i :: 0 <= i < length ==> text[i] == '^'
    {
      ClimbStep(t, scope, length);
      UpPointer(t, cur);
      if cur == root {
        CaretsMore(text, length + 1);
        ClimbFails(t, scope, length + 1, Carets(text));
        return null, length;
      }
      cur := cur.parent;
      length := length + 1;
    }
    CaretsAt(text, length);
    if length < |text| && text[length] == '\\' {
      if length > 0 {
        return null, length;
      }
      return root, 1;
    }
    base := cur;
  }
}
