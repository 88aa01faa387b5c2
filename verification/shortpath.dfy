/**
 Paths with short segments: trailing underscores of a name may be left out of a path, because the
 resolver pads every segment to four characters.
 */
module ShortPath {
  import opened Namespace
  import opened Lookup
  import opened AmlNames
  import opened Agreement
  import PathResolver

  /** `short` is `name` without some of its trailing underscores. */
  ghost predicate Shortens(short: string, name: Name) {
    && |short| <= 4 && (forall i :: 0 <= i < |short| ==> short[i] == name[i] && short[i] != '.')
    && (forall i :: |short| <= i < 4 ==> name[i] == '_')
  }

  ghost predicate AllShorten(shorts: seq<string>, names: seq<Name>) {
    |shorts| == |names| && forall i :: 0 <= i < |shorts| ==> Shortens(shorts[i], names[i])
  }

  ghost function Dotted(shorts: seq<string>): string {
    if shorts == [] then "" else shorts[0] + if |shorts| == 1 then "" else "." + Dotted(shorts[1..])
  }

  /** Reading a short segment gives the whole name. */
  lemma ReadsWhole(short: string, name: Name, rest: string)
    requires Shortens(short, name) && (rest == "" || rest[0] == '.')
    ensures PathResolver.Lead(short + rest, 4) == |short| && PathResolver.SegmentName(short + rest) == name
  {
    var s := short + rest;
    LeadIs(s, 4, |short|);
    assert s[..|short|] == short;
  }

  lemma {:induction false} LeadIs(s: string, k: nat, n: nat)
    requires n <= k && n <= |s| && (forall i :: 0 <= i < n ==> s[i] != '.') && (n < k ==> n == |s| || s[n] == '.')
    ensures PathResolver.Lead(s, k) == n
  {
    if n > 0 {
      LeadIs(s[1..], k - 1, n - 1);
    }
  }

  lemma OneMoreSegment(short: string, name: Name, rest: string)
    requires Shortens(short, name) && (rest == "" || rest[0] == '.')
    ensures PathResolver.Segments("." + (short + rest)) == [name] + PathResolver.Segments(rest)
    ensures short != "" ==> PathResolver.Segments(short + rest) == [name] + PathResolver.Segments(rest)
  {
    var text := short + rest;
    ReadsWhole(short, name, rest);
    assert PathResolver.AfterDot("." + text) == text && text[|short|..] == rest;
    assert short != "" ==> PathResolver.AfterDot(text) == text;
  }

  /** Behind a dot every short segment, even an empty one, is read as its name. */
  lemma {:induction false} DottedSegments(shorts: seq<string>, names: seq<Name>)
    requires shorts != [] && AllShorten(shorts, names)
    ensures PathResolver.Segments("." + Dotted(shorts)) == names
  {
    var rest := if |shorts| == 1 then "" else "." + Dotted(shorts[1..]);
    assert Dotted(shorts) == shorts[0] + rest;
    OneMoreSegment(shorts[0], names[0], rest);
    if |shorts| > 1 {
      DottedSegments(shorts[1..], names[1..]);
    }
  }

  /** At the start of a path an empty segment is lost; everything else is read as written. */
  lemma ShortSegments(shorts: seq<string>, names: seq<Name>)
    requires AllShorten(shorts, names)
    ensures PathResolver.Segments(Dotted(shorts)) == if shorts != [] && shorts[0] == "" then names[1..] else names
  {
    if shorts != [] {
      var rest := if |shorts| == 1 then "" else "." + Dotted(shorts[1..]);
      var text := shorts[0] + rest;
      assert Dotted(shorts) == text;
      if |shorts| > 1 {
        DottedSegments(shorts[1..], names[1..]);
      }
      if shorts[0] == "" {
        assert text == rest;
      } else {
        OneMoreSegment(shorts[0], names[0], rest);
      }
    }
  }

  /** The shortened path has the same segments exactly if its first segment is not empty. */
  lemma SameSegments(shorts: seq<string>, names: seq<Name>)
    requires AllShorten(shorts, names)
    ensures PathResolver.Segments(Dotted(shorts)) == names <==> shorts == [] || shorts[0] != ""
  {
    ShortSegments(shorts, names);
  }

  ghost function ShortPath(ns: NameString, shorts: seq<string>): string {
    ns.Prefix() + Dotted(shorts)
  }

  lemma ShortStart(ns: NameString, shorts: seq<string>)
    requires ns.Valid() && AllShorten(shorts, ns.names) && (shorts == [] || shorts[0] != "")
    ensures EndsPrefix(Dotted(shorts))
  {
    if shorts != [] {
      assert Dotted(shorts)[0] == shorts[0][0] == ns.names[0][0];
      assert ValidName(ns.names[0]) && ValidNameChar(ns.names[0][0]);
    }
  }

  /** In every tree and from every scope, a path with short segments means what the full path means. */
  lemma ShortPathMeans(t: Shape, scope: Node, ns: NameString, shorts: seq<string>, search: bool)
    requires t.Valid() && scope in t.kids && ns.Valid()
    requires AllShorten(shorts, ns.names) && (shorts == [] || shorts[0] != "")
    ensures PathResolver.Meaning(t, scope, ShortPath(ns, shorts), search) ==
            PathResolver.Meaning(t, scope, ns.Path(), search)
  {
    var tail := Dotted(shorts);
    ShortStart(ns, shorts);
    PrefixRead(t, scope, ns, tail);
    assert ShortPath(ns, shorts)[|ns.Prefix()|..] == tail;
    ShortSegments(shorts, ns.names);
    PathDenotes(t, scope, ns, search);
  }

  /** A lone name of four underscores cannot be shortened to nothing: the empty path is the scope itself. */
  lemma EmptyPathIsScope(t: Shape, scope: Node)
    requires t.Valid() && scope in t.kids
    ensures Shortens("", "____") && PathResolver.Meaning(t, scope, "", true) == Found(scope)
  {
    assert Climb(t, scope, 0) == scope;
  }

  function StateName(state: nat): Name
    requires state <= 5
  {
    "_S" + [('0' as int + state) as char] + "_"
  }

  /** get_slp_type_for_state looks below the root for "_S0" to "_S5" and finds the child named _S0_ to _S5_. */
  method FindSleepState(ghost t: Shape, root: Node, state: nat) returns (r: Outcome)
    requires t.Valid() && t.Describes() && root == t.root && state <= 5
    ensures var node := Sub(t, root, StateName(state)); r == if node == null then NotFound else Found(node)
  {
    var path := "_S0";
    path := path[2 := (path[2] as int + state) as char];
    r := PathResolver.Resolve(t, root, root, path, true, false);
    SleepPath(t, state, path);
  }

  lemma SleepPath(t: Shape, state: nat, path: string)
    requires t.Valid() && state <= 5 && path == StateName(state)[..3]
    ensures var node := Sub(t, t.root, StateName(state));
            PathResolver.Meaning(t, t.root, path, true) == if node == null then NotFound else Found(node)
  {
    var ns := NameString(false, 0, Single, [StateName(state)]);
    assert ns.Valid() && AllShorten([path], ns.names);
    ShortPathMeans(t, t.root, ns, [path], true);
    assert ShortPath(ns, [path]) == path;
    PathDenotes(t, t.root, ns, true);
  }
}
