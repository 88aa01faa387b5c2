/** Resolving a path string such as \AAAA.BBBB or ^CCCC. */
module PathResolver {
  import opened Namespace
  import opened Lookup

  // ---- The segments of a path

  /** How many characters the next segment takes: at most four, none of them a dot. */
  function Lead(s: string, k: nat): nat
    ensures Lead(s, k) <= k && Lead(s, k) <= |s|
  {
    if k == 0 || s == [] || s[0] == '.' then 0 else 1 + Lead(s[1..], k - 1)
  }

  /** The first `taken` characters and underscores up to `length`. */
  ghost function Padded(s: string, taken: nat, length: nat): string
    requires taken <= length && taken <= |s|
  {
    s[..taken] + seq(length - taken, _ => '_')
  }

  /** A short segment is padded with underscores. */
  ghost function SegmentName(s: string): Name {
    Padded(s, Lead(s, 4), 4)
  }

  ghost function AfterDot(s: string): string {
    if s != [] && s[0] == '.' then s[1..] else s
  }

  ghost function Segments(s: string): seq<Name>
    decreases |s|
  {
    if s == [] then []
    else
      var rest := AfterDot(s);
      [SegmentName(rest)] + Segments(rest[Lead(rest, 4)..])
  }

  /** The loop of segment_to_name. */
  method CopySegment(path: string, cursor: nat) returns (text: Name, cursor': nat)
    requires cursor <= |path|
    ensures text == SegmentName(path[cursor..]) && cursor' == cursor + Lead(path[cursor..], 4)
  {
    var copied := "";
    cursor' := cursor;
    ghost var s := path[cursor..];
    for offset := 0 to 4
      invariant cursor <= cursor' <= |path| && Copying(s, cursor' - cursor, offset, copied)
    {
      CopyStep(s, cursor' - cursor, offset, copied);
      if |path| - cursor' < 1 || path[cursor'] == '.' {
        copied := copied + ['_'];
      } else {
        assert s[cursor' - cursor] == path[cursor'];
        copied := copied + [path[cursor']];
        cursor' := cursor' + 1;
      }
    }
    text := copied;
  }

  /** segment_to_name: copies up to four characters, none of them a dot, and pads the name with underscores. */
  method SegmentToName(path: string, cursor: nat) returns (name: Name, cursor': nat)
    requires cursor <= |path|
    ensures name == SegmentName(path[cursor..]) && cursor' == cursor + Lead(path[cursor..], 4)
    ensures cursor' >= cursor && Spelled(path, cursor, name, cursor' - cursor)
  {
    name, cursor' := CopySegment(path, cursor);
    SegmentSpelled(path, cursor, name, cursor' - cursor);
  }

  /** The name consists of the `length` characters from the cursor on and underscores. */
  ghost predicate Spelled(path: string, cursor: nat, name: Name, length: nat) {
    && length <= 4 && cursor + length <= |path|
    && (forall i :: 0 <= i < length ==> name[i] == path[cursor + i] && path[cursor + i] != '.')
    && (forall i :: length <= i < 4 ==> name[i] == '_')
    && (length == 4 || cursor + length == |path| || path[cursor + length] == '.')
  }

  lemma SegmentSpelled(path: string, cursor: nat, name: Name, length: nat)
    requires cursor <= |path| && name == SegmentName(path[cursor..]) && length == Lead(path[cursor..], 4)
    ensures Spelled(path, cursor, name, length)
  {
    var s := path[cursor..];
    forall i | 0 <= i < length ensures name[i] == path[cursor + i] && path[cursor + i] != '.' {
      LeadAll(s, 4, i);
    }
    LeadAll(s, 4, length);
  }

  /** After `offset` rounds, `taken` characters of the segment are copied and the rest is padding. */
  ghost predicate Copying(s: string, taken: nat, offset: nat, text: string) {
    && taken == (if offset < Lead(s, 4) then offset else Lead(s, 4))
    && text == Padded(s, taken, offset)
  }

  lemma CopyStep(s: string, taken: nat, offset: nat, text: string)
    requires offset < 4 && Copying(s, taken, offset, text)
    ensures if taken == |s| || s[taken] == '.' then Copying(s, taken, offset + 1, text + ['_'])
            else Copying(s, taken + 1, offset + 1, text + [s[taken]])
  {
    LeadAll(s, 4, taken);
    if taken == |s| || s[taken] == '.' {
      PaddedMore(s, taken, offset);
    } else {
      PaddedNext(s, taken);
    }
  }

  lemma PaddedMore(s: string, taken: nat, length: nat)
    requires taken <= length && taken <= |s|
    ensures Padded(s, taken, length + 1) == Padded(s, taken, length) + ['_']
  {}

  lemma PaddedNext(s: string, taken: nat)
    requires taken < |s|
    ensures Padded(s, taken + 1, taken + 1) == Padded(s, taken, taken) + [s[taken]]
  {}

  /** The segment ends at the first dot or the end of the text, or is full. */
  lemma {:induction false} LeadAll(s: string, k: nat, i: nat)
    ensures i < Lead(s, k) ==> s[i] != '.'
    ensures i == Lead(s, k) < k ==> i == |s| || s[i] == '.'
  {
    if k > 0 && s != [] && s[0] != '.' && i > 0 {
      LeadAll(s[1..], k - 1, i - 1);
    }
  }

  // ---- uacpi_namespace_node_resolve

  /** The meaning of a path; only a lone segment without prefix is looked for in the ancestors as well. */
  ghost function Meaning(t: Shape, scope: Node, path: string, search: bool): Outcome
    requires t.Valid() && scope in t.kids
  {
    var base := Base(t, scope, path);
    if base == null then Invalid
    else
      var names := Segments(path[PrefixLength(path)..]);
      if search && PrefixLength(path) == 0 && |names| == 1 then SearchUp(t, base, names[0]) else Descend(t, base, names)
  }

  /** A backslash makes the scope irrelevant, and the search too. */
  lemma RootedMeans(t: Shape, scope: Node, path: string, search: bool)
    requires t.Valid() && scope in t.kids
    ensures Meaning(t, scope, "\\" + path, search) == Descend(t, t.root, Segments(path))
  {
    assert ("\\" + path)[1..] == path;
  }

  /** A caret is one parent up: nothing above the root, no backslash behind it, and no search either. */
  lemma CaretMeans(t: Shape, scope: Node, path: string, search: bool)
    requires t.Valid() && scope in t.kids
    ensures Meaning(t, scope, "^" + path, search) ==
            if scope == t.root || (path != [] && path[0] == '\\') then Invalid
            else Meaning(t, Up(t, scope), path, false)
  {
    var longer := "^" + path;
    assert longer[1..] == path;
    var k := Carets(path);
    if path == [] || path[0] != '\\' {
      assert longer[k + 1..] == path[k..];
      assert k < |path| ==> longer[k + 1] == path[k];
      if scope != t.root {
        assert Climb(t, scope, k + 1) == Climb(t, Up(t, scope), k);
      }
    }
  }

  /** The loop through the ancestors once the scope itself has no such child. */
  method SearchAncestors(ghost t: Shape, scope: Node, name: Name) returns (r: Outcome)
    requires t.Valid() && t.Describes() && scope in t.kids && Sub(t, scope, name) == null
    ensures r == SearchUp(t, scope, name)
  {
    UpPointer(t, scope);
    var parent := scope.parent;
    ghost var below := scope;
    while parent != null
      invariant t.Describes() && below in t.kids && parent == Up(t, below) && Sub(t, below, name) == null
      invariant SearchUp(t, scope, name) == SearchUp(t, below, name)
      decreases Rank(t, below)
    {
      UpPointer(t, parent);
      var node := FindSubNode(parent, name, t.kids[parent]);
      if node != null {
        return Found(node);
      }
      below := parent;
      parent := parent.parent;
    }
    r := NotFound;
  }

  lemma DescendCons(t: Shape, n: Node, name: Name, rest: seq<Name>)
    requires t.Valid() && n in t.kids
    ensures var k := Sub(t, n, name);
            && (k == null ==> Descend(t, n, [name] + rest) == NotFound)
            && (k != null ==> k in t.kids && Descend(t, n, [name] + rest) == Descend(t, k, rest))
  {
    SubInTree(t, n, name);
    assert ([name] + rest)[1..] == rest;
  }

  /** Skips a dot, takes the next segment and looks it up in the current node. */
  method OneSegment(ghost t: Shape, cur: Node, path: string, cursor: nat) returns (node: Node?, name: Name, next: nat)
    requires t.Valid() && t.Describes() && cur in t.kids && cursor < |path|
    ensures cursor < next <= |path| && Segments(path[cursor..]) == [name] + Segments(path[next..])
    ensures node == Sub(t, cur, name)
  {
    ghost var rest := AfterDot(path[cursor..]);
    var start := if path[cursor] == '.' then cursor + 1 else cursor;
    assert path[start..] == rest;
    name, next := SegmentToName(path, start);
    assert path[next..] == rest[Lead(rest, 4)..];
    UpPointer(t, cur);
    node := FindSubNode(cur, name, t.kids[cur]);
  }

  method Resolve(ghost t: Shape, root: Node, scope: Node, path: string, search: bool, permanentOnly: bool)
      returns (r: Outcome)
    requires t.Valid() && t.Describes() && root == t.root && scope in t.kids
    ensures var m := Meaning(t, scope, path, search);
            r == if m.Found? && permanentOnly && m.node.temporary then Denied else m
  {
    var base, length := FollowPrefix(t, root, scope, path);
    if base == null {
      return Invalid;
    }
    r := ResolveSegments(t, base, path, length, search && length == 0);
    if r.Found? && r.node.temporary && permanentOnly {
      return Denied;
    }
  }

  /** The loop over the segments after the prefix. */
  method ResolveSegments(ghost t: Shape, base: Node, path: string, length: nat, search: bool) returns (r: Outcome)
    requires t.Valid() && t.Describes() && base in t.kids && length <= |path|
    ensures var names := Segments(path[length..]);
            r == if search && |names| == 1 then SearchUp(t, base, names[0]) else Descend(t, base, names)
  {
    var cur, cursor, single := base, length, search;
    ghost var names := Segments(path[length..]);
    while cursor != |path|
      invariant t.Describes() && cur in t.kids && length <= cursor <= |path|
      invariant Descend(t, cur, Segments(path[cursor..])) == Descend(t, base, names)
      invariant cursor == length ==> cur == base && single == search
      invariant cursor != length ==> single == (search && |names| == 1)
      invariant cursor != length && single ==> cursor == |path| && Sub(t, base, names[0]) == cur
      decreases |path| - cursor
    {
      var node, name, next := OneSegment(t, cur, path, cursor);
      ghost var rest := Segments(path[next..]);
      assert rest == [] <==> next == |path|;
      DescendCons(t, cur, name, rest);
      if next != |path| {
        single := false;
      }
      if node == null {
        if !single {
          return NotFound;
        }
        r := SearchAncestors(t, base, name);
        return;
      }
      cur, cursor := node, next;
    }
    r := Found(cur);
  }
}
