/** Printing the absolute path of a node, and finding the node again from it. */
module AbsolutePath {
  import opened Namespace
  import opened Lookup
  import opened AmlNames
  import Agreement
  import PathResolver

  /** The names on the way from the root down to `n`. */
  ghost function NamesTo(t: Shape, n: Node): seq<Name>
    requires t.Valid() && n in t.kids
    decreases Rank(t, n)
  {
    if n == t.root then [] else NamesTo(t, Up(t, n)) + [n.name]
  }

  lemma {:induction false} NamesToLength(t: Shape, n: Node)
    requires t.Valid() && n in t.kids
    ensures |NamesTo(t, n)| == Rank(t, n)
    decreases Rank(t, n)
  {
    if n != t.root {
      NamesToLength(t, Up(t, n));
    }
  }

  lemma {:induction false} JoinedLast(names: seq<Name>, name: Name)
    ensures Joined(names + [name]) == if names == [] then name else Joined(names) + "." + name
  {
    var longer := names + [name];
    if names == [] {
      assert longer == [name];
    } else {
      assert longer[1..] == names[1..] + [name];
      JoinedLast(names[1..], name);
    }
  }

  function JoinedLength(d: nat): nat {
    if d == 0 then 0 else 5 * d - 1
  }

  // ---- uacpi_namespace_node_depth and uacpi_namespace_node_generate_absolute_path

  method NodeDepth(ghost t: Shape, node: Node) returns (depth: nat)
    requires t.Valid() && t.Describes() && node in t.kids
    ensures depth == Rank(t, node)
  {
    var n := node;
    depth := 0;
    UpPointer(t, n);
    while n.parent != null
      invariant n in t.kids && t.Describes() && depth + Rank(t, n) == Rank(t, node) && n.parent == Up(t, n)
      decreases Rank(t, n)
    {
      depth := depth + 1;
      n := n.parent;
      UpPointer(t, n);
    }
  }

  /** The buffer from `offset` on holds the last part of the path, and there is room for exactly the first. */
  ghost predicate Printed(t: Shape, node: Node, n: Node, path: seq<char>, offset: nat)
    requires t.Valid() && node in t.kids && n in t.kids
  {
    && offset == 1 + JoinedLength(Rank(t, n)) && offset < |path| && path[0] == '\\'
    && Joined(NamesTo(t, n)) + path[offset..] == Joined(NamesTo(t, node)) + "\0"
  }

  lemma PrintStep(t: Shape, node: Node, n: Node, path: seq<char>, path': seq<char>, offset: nat)
    requires t.Valid() && node in t.kids && n in t.kids && n != t.root && Printed(t, node, n, path, offset)
    requires var m := Up(t, n);
             var piece := (if m == t.root then "" else ".") + n.name;
             offset >= |piece| && |path'| == |path| && path'[0] == path[0]
             && path'[offset - |piece|..] == piece + path[offset..]
    ensures Printed(t, node, Up(t, n), path', offset - if Up(t, n) == t.root then 4 else 5)
  {
    var m := Up(t, n);
    JoinedLast(NamesTo(t, m), n.name);
    NamesToLength(t, m);
    var piece := (if m == t.root then "" else ".") + n.name;
    Regroup(Joined(NamesTo(t, m)), piece, path[offset..]);
  }

  lemma Regroup(a: string, b: string, c: string)
    ensures a + (b + c) == a + b + c
  {}

  lemma AllPrinted(t: Shape, node: Node, path: seq<char>, offset: nat)
    requires t.Valid() && node in t.kids && Printed(t, node, t.root, path, offset)
    ensures path == "\\" + Joined(NamesTo(t, node)) + "\0"
  {
    assert path == [path[0]] + path[1..];
    assert "" + path[1..] == path[1..];
  }

  lemma NothingPrinted(t: Shape, node: Node, path: seq<char>)
    requires t.Valid() && node in t.kids && |path| == 2 + JoinedLength(Rank(t, node)) && path[0] == '\\'
    requires path[|path| - 1] == '\0'
    ensures Printed(t, node, node, path, |path| - 1)
  {
    assert path[|path| - 1..] == "\0";
  }

  lemma Room(t: Shape, n: Node)
    requires t.Valid() && n in t.kids && n != t.root
    ensures JoinedLength(Rank(t, n)) >= if Up(t, n) == t.root then 4 else 9
  {
    var m := Up(t, n);
    assert m != t.root ==> Up(t, m) != null;
  }

  /** Copies a segment, and a dot if asked, in front of `offset`. */
  method PutBefore(path: array<char>, offset: nat, name: Name, dot: bool) returns (offset': nat)
    requires (if dot then 5 else 4) < offset <= path.Length
    modifies path
    ensures offset' == offset - (if dot then 5 else 4) && path[0] == old(path[0])
    ensures path[offset'..] == (if dot then "." else "") + name + old(path[offset..])
  {
    offset' := offset - 4;
    forall i | 0 <= i < 4 {
      path[offset' + i] := name[i];
    }
    if dot {
      offset' := offset' - 1;
      path[offset'] := '.';
    }
  }

  /**
   The size is computed from the depth alone: the root takes one byte, a segment four, and all but the first a
   dot.
   */
  method NewBuffer(d: nat) returns (path: array<char>)
    ensures fresh(path) && path.Length == 2 + JoinedLength(d) && path[0] == '\\' && path[path.Length - 1] == '\0'
  {
    var depth := d + 1;
    var size := 1 + (depth - 1) * 4;
    size := size + if depth > 2 then depth - 2 else 0;
    size := size + 1;
    path := new char[size](_ => ' ');
    path[0] := '\\';
    path[size - 1] := '\0';
  }

  /** The path, with its terminator, fills the buffer exactly. */
  method Generate(ghost t: Shape, root: Node, node: Node) returns (path: array<char>)
    requires t.Valid() && t.Describes() && root == t.root && node in t.kids
    ensures fresh(path) && path[..] == "\\" + Joined(NamesTo(t, node)) + "\0"
  {
    var d := NodeDepth(t, node);
    path := NewBuffer(d);
    NothingPrinted(t, node, path[..]);
    var offset: nat, n := path.Length - 1, node;
    while n != root
      invariant t.Describes() && n in t.kids && fresh(path) && Printed(t, node, n, path[..], offset)
      decreases Rank(t, n)
    {
      ghost var before, from := path[..], offset;
      UpPointer(t, n);
      Room(t, n);
      offset := PutBefore(path, offset, n.name, n.parent != root);
      assert path[..][offset..] == path[offset..];
      PrintStep(t, node, n, before, path[..], from);
      n := n.parent;
    }
    AllPrinted(t, node, path[..], offset);
  }

  // ---- Back from the path to the node

  ghost predicate UniqueNames(t: Shape)
    requires t.Valid()
  {
    && (forall n :: n in t.kids && n != t.root ==> ValidName(n.name))
    && (forall n, i, j :: n in t.kids && 0 <= i < j < |t.kids[n]| ==> t.kids[n][i].name != t.kids[n][j].name)
  }

  lemma FindsItself(t: Shape, n: Node)
    requires t.Valid() && UniqueNames(t) && n in t.kids && n != t.root
    ensures Sub(t, Up(t, n), n.name) == n
  {
    var s := t.kids[Up(t, n)];
    var i :| 0 <= i < |s| && s[i] == n;
    NamedIsFirst(s, n.name, i);
  }

  lemma {:induction false} DescendLast(t: Shape, n: Node, names: seq<Name>, name: Name)
    requires t.Valid() && n in t.kids && Descend(t, n, names).Found?
    ensures var m := Descend(t, n, names).node;
            && m in t.kids
            && (Sub(t, m, name) != null ==> Descend(t, n, names + [name]) == Found(Sub(t, m, name)))
    decreases |names|
  {
    var longer := names + [name];
    if names == [] {
      SubInTree(t, n, name);
      assert longer[1..] == [];
    } else {
      SubInTree(t, n, names[0]);
      assert longer[1..] == names[1..] + [name];
      DescendLast(t, Sub(t, n, names[0]), names[1..], name);
    }
  }

  lemma {:induction false} NamesLead(t: Shape, n: Node)
    requires t.Valid() && UniqueNames(t) && n in t.kids
    ensures Descend(t, t.root, NamesTo(t, n)) == Found(n)
    ensures forall i :: 0 <= i < |NamesTo(t, n)| ==> ValidName(NamesTo(t, n)[i])
    decreases Rank(t, n)
  {
    if n != t.root {
      var m := Up(t, n);
      NamesLead(t, m);
      FindsItself(t, n);
      DescendLast(t, t.root, NamesTo(t, m), n.name);
    }
  }

  /** From every scope, the absolute path of a node means that node. */
  lemma PathMeansNode(t: Shape, scope: Node, n: Node, search: bool)
    requires t.Valid() && UniqueNames(t) && scope in t.kids && n in t.kids
    ensures PathResolver.Meaning(t, scope, "\\" + Joined(NamesTo(t, n)), search) == Found(n)
  {
    NamesLead(t, n);
    Agreement.SegmentsOfJoined(NamesTo(t, n));
    var path := "\\" + Joined(NamesTo(t, n));
    assert path[1..] == Joined(NamesTo(t, n));
  }

  /** Printing a node's path and resolving it, from any scope, gives the node back. */
  method PrintThenResolve(ghost t: Shape, root: Node, scope: Node, node: Node, search: bool) returns (r: Outcome)
    requires t.Valid() && t.Describes() && UniqueNames(t) && root == t.root && scope in t.kids && node in t.kids
    ensures r == Found(node)
  {
    var buffer := Generate(t, root, node);
    var path := buffer[..buffer.Length - 1];
    assert path == "\\" + Joined(NamesTo(t, node));
    PathMeansNode(t, scope, node, search);
    r := PathResolver.Resolve(t, root, scope, path, search, false);
  }
}
