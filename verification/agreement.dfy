/**
 The two resolvers agree: resolving a NameString from its bytes, and turning it into a path and
 resolving that with a search through the ancestors.
 */
module Agreement {
  import opened Namespace
  import opened Lookup
  import opened AmlNames
  import PathResolver

  /** A NameString of the grammar: a root or carets, then a NamePath. */
  datatype NameString = NameString(rooted: bool, carets: nat, form: Form, names: seq<Name>) {
    ghost predicate Valid() {
      && (rooted ==> carets == 0)
      && (match form
          case Null => |names| == 0
          case Single => |names| == 1
          case Dual => |names| == 2
          case Multi => 1 <= |names| < 256)
      && (forall i :: 0 <= i < |names| ==> ValidName(names[i]))
    }

    ghost function Prefix(): string {
      if rooted then "\\" else seq(carets, _ => '^')
    }

    ghost function Lead(): string
      requires Valid()
    {
      match form
      case Null => [NULL_NAME]
      case Single => ""
      case Dual => [DUAL_NAME_PREFIX]
      case Multi => [MULTI_NAME_PREFIX, |names| as char]
    }

    ghost function Bytes(): string
      requires Valid()
    {
      Prefix() + (Lead() + Concat(names))
    }

    ghost function Path(): string {
      Prefix() + Joined(names)
    }

    ghost predicate Prefixed() {
      rooted || carets > 0
    }
  }

  ghost function Concat(names: seq<Name>): string {
    if names == [] then "" else names[0] + Concat(names[1..])
  }

  lemma {:induction false} ConcatLength(names: seq<Name>)
    ensures |Concat(names)| == 4 * |names|
  {
    if names != [] {
      ConcatLength(names[1..]);
    }
  }

  // ---- The prefix, in front of either rest

  ghost predicate EndsPrefix(tail: string) {
    tail == [] || (tail[0] != '^' && tail[0] != '\\')
  }

  lemma PrefixRead(t: Shape, scope: Node, ns: NameString, tail: string)
    requires t.Valid() && scope in t.kids && ns.Valid() && EndsPrefix(tail)
    ensures var text := ns.Prefix() + tail;
            && PrefixLength(text) == RawPrefix(text) == |ns.Prefix()|
            && Base(t, scope, text) == if ns.rooted then t.root else Climb(t, scope, ns.carets)
  {
    var text := ns.Prefix() + tail;
    CaretsAt(text, if ns.rooted then 0 else ns.carets);
  }

  // ---- The bytes

  lemma {:induction false} NamesRead(text: string, start: nat, names: seq<Name>, rest: string)
    requires start <= |text| && text[start..] == Concat(names) + rest
    ensures start + 4 * |names| <= |text| && Names(text, start, |names|) == names
    decreases |names|
  {
    ConcatLength(names);
    if names != [] {
      assert text[start..start + 4] == names[0] by {
        assert text[start..][..4] == text[start..start + 4];
      }
      assert text[start + 4..] == Concat(names[1..]) + rest by {
        assert text[start..][4..] == text[start + 4..];
      }
      NamesRead(text, start + 4, names[1..], rest);
    }
  }

  ghost predicate Bytes(s: string) {
    forall i :: 0 <= i < |s| ==> s[i] as int < 256
  }

  lemma LeadRead(ns: NameString, text: string, p: nat)
    requires ns.Valid() && Bytes(text) && p + |ns.Lead()| + 4 * |ns.names| <= |text|
    requires forall i :: 0 <= i < |ns.Lead()| ==> text[p + i] == ns.Lead()[i]
    requires ns.form == Single ==> ValidNameChar(text[p])
    ensures ParseHeader(text, p) == Header(ns.form, |ns.names|, p + |ns.Lead()|)
  {
    match ns.form
    case Null => assert ns.Lead()[0] == NULL_NAME;
    case Single =>
    case Dual => assert ns.Lead()[0] == DUAL_NAME_PREFIX;
    case Multi => assert ns.Lead()[0] == MULTI_NAME_PREFIX && ns.Lead()[1] == |ns.names| as char;
  }

  lemma Parts(ns: NameString, rest: string)
    requires ns.Valid()
    ensures var text, p, start := ns.Bytes() + rest, |ns.Prefix()|, |ns.Prefix()| + |ns.Lead()|;
            && start + 4 * |ns.names| == |ns.Bytes()| <= |text|
            && text[p..start] == ns.Lead() && text[start..] == Concat(ns.names) + rest
  {
    ConcatLength(ns.names);
    Slices(ns.Prefix(), ns.Lead(), Concat(ns.names), rest);
    assert ns.Bytes() == ns.Prefix() + (ns.Lead() + Concat(ns.names));
  }

  lemma Slices(a: string, b: string, c: string, d: string)
    ensures var text := a + (b + c) + d;
            text[|a|..|a| + |b|] == b && text[|a| + |b|..] == c + d && text == a + (b + c + d)
  {}

  lemma HeaderRead(ns: NameString, rest: string)
    requires ns.Valid() && Bytes(ns.Bytes() + rest)
    ensures var text, p := ns.Bytes() + rest, |ns.Prefix()|;
            && ParseHeader(text, p) == Header(ns.form, |ns.names|, p + |ns.Lead()|)
            && Names(text, p + |ns.Lead()|, |ns.names|) == ns.names
            && p + |ns.Lead()| + 4 * |ns.names| == |ns.Bytes()|
  {
    var text, p := ns.Bytes() + rest, |ns.Prefix()|;
    var start := p + |ns.Lead()|;
    Parts(ns, rest);
    NamesRead(text, start, ns.names, rest);
    FirstByte(ns, text, start, rest);
    forall i | 0 <= i < |ns.Lead()| ensures text[p + i] == ns.Lead()[i] {
      assert text[p..start][i] == text[p + i];
    }
    LeadRead(ns, text, p);
  }

  lemma FirstByte(ns: NameString, text: string, start: nat, rest: string)
    requires ns.Valid() && start <= |text| && text[start..] == Concat(ns.names) + rest
    ensures ns.names != [] ==> start < |text| && ValidNameChar(text[start])
  {
    if ns.names != [] {
      ConcatLength(ns.names);
      assert text[start..][0] == ns.names[0][0];
      assert ValidName(ns.names[0]);
    }
  }

  lemma {:induction false} ValidDescend(t: Shape, n: Node, names: seq<Name>)
    requires t.Valid() && n in t.kids && forall i :: 0 <= i < |names| ==> ValidName(names[i])
    ensures CheckedDescend(t, n, names) == Descend(t, n, names)
    decreases |names|
  {
    if names != [] {
      SubInTree(t, n, names[0]);
      if Sub(t, n, names[0]) != null {
        ValidDescend(t, Sub(t, n, names[0]), names[1..]);
      }
    }
  }

  // ---- The path

  lemma {:induction false} LeadFull(s: string, k: nat)
    requires k <= |s| && forall i :: 0 <= i < k ==> s[i] != '.'
    ensures PathResolver.Lead(s, k) == k
  {
    if k > 0 {
      LeadFull(s[1..], k - 1);
    }
  }

  lemma SegmentFirst(name: Name, rest: string)
    requires ValidName(name)
    ensures PathResolver.Segments(name + rest) == [name] + PathResolver.Segments(rest)
    ensures PathResolver.Segments("." + (name + rest)) == [name] + PathResolver.Segments(rest)
  {
    var s := name + rest;
    assert forall i :: 0 <= i < 4 ==> s[i] == name[i] && ValidNameChar(name[i]);
    LeadFull(s, 4);
    assert s[..4] == name && s[4..] == rest;
    assert PathResolver.SegmentName(s) == name;
    assert PathResolver.AfterDot(s) == s && PathResolver.AfterDot("." + s) == s;
  }

  /** Joined segments, and joined segments behind a dot, read back as the same segments. */
  lemma {:induction false} SegmentsOfJoined(names: seq<Name>)
    requires forall i :: 0 <= i < |names| ==> ValidName(names[i])
    ensures PathResolver.Segments(Joined(names)) == names
    ensures names != [] ==> PathResolver.Segments("." + Joined(names)) == names
  {
    if names != [] {
      var rest := if |names| == 1 then "" else "." + Joined(names[1..]);
      assert Joined(names) == names[0] + rest;
      SegmentFirst(names[0], rest);
      SegmentsOfJoined(names[1..]);
    }
  }

  // ---- The main result

  /** The meaning of a valid NameString, read off its parts. */
  ghost function Denotes(t: Shape, scope: Node, ns: NameString, search: bool): Outcome
    requires t.Valid() && scope in t.kids
  {
    var base := if ns.rooted then t.root else Climb(t, scope, ns.carets);
    if base == null then Invalid
    else if search && !ns.Prefixed() && |ns.names| == 1 then SearchUp(t, base, ns.names[0])
    else Descend(t, base, ns.names)
  }

  lemma PathDenotes(t: Shape, scope: Node, ns: NameString, search: bool)
    requires t.Valid() && scope in t.kids && ns.Valid()
    ensures PathResolver.Meaning(t, scope, ns.Path(), search) == Denotes(t, scope, ns, search)
  {
    var tail := Joined(ns.names);
    assert EndsPrefix(tail) by {
      if ns.names != [] {
        assert tail[0] == ns.names[0][0] && ValidNameChar(ns.names[0][0]);
      }
    }
    PrefixRead(t, scope, ns, tail);
    SegmentsOfJoined(ns.names);
    assert ns.Path()[|ns.Prefix()|..] == tail;
  }

  lemma TailEndsPrefix(ns: NameString, rest: string)
    requires ns.Valid()
    ensures EndsPrefix(ns.Lead() + Concat(ns.names) + rest)
  {
    if ns.form == Single {
      var tail := ns.Lead() + Concat(ns.names) + rest;
      assert tail[0] == ns.names[0][0] && ValidNameChar(ns.names[0][0]);
    }
  }

  lemma BytesPrefix(t: Shape, scope: Node, ns: NameString, rest: string)
    requires t.Valid() && scope in t.kids && ns.Valid()
    ensures var text := ns.Bytes() + rest;
            && PrefixLength(text) == RawPrefix(text) == |ns.Prefix()| <= |text| && text[..|ns.Prefix()|] == ns.Prefix()
            && Base(t, scope, text) == if ns.rooted then t.root else Climb(t, scope, ns.carets)
  {
    Slices(ns.Prefix(), ns.Lead(), Concat(ns.names), rest);
    assert ns.Bytes() == ns.Prefix() + (ns.Lead() + Concat(ns.names));
    TailEndsPrefix(ns, rest);
    PrefixRead(t, scope, ns, ns.Lead() + Concat(ns.names) + rest);
  }

  lemma BytesDenote(t: Shape, scope: Node, ns: NameString, rest: string)
    requires t.Valid() && scope in t.kids && ns.Valid() && Bytes(ns.Bytes() + rest)
    ensures AmlNames.Meaning(t, scope, ns.Bytes() + rest) ==
            if ns.form == Null && !ns.Prefixed() then Invalid else Denotes(t, scope, ns, ns.form == Single)
  {
    BytesPrefix(t, scope, ns, rest);
    HeaderRead(ns, rest);
    var base := Base(t, scope, ns.Bytes() + rest);
    if base != null {
      ValidDescend(t, base, ns.names);
      assert ns.form == Single ==> Names(ns.Bytes() + rest, |ns.Prefix()|, 1)[0] == ns.names[0];
    }
  }

  /** The one form on which the search differs: a lone segment written with a MultiNamePrefix. */
  ghost predicate LoneMulti(ns: NameString) {
    ns.form == Multi && |ns.names| == 1 && !ns.Prefixed()
  }

  /**
   The resolvers give the same outcome for every valid NameString, except a NullName without prefix
   (an error in AML, the scope itself as a path) and a MultiNamePath of a single segment without
   prefix, which AML looks up in the scope only: there they agree exactly when the scope has such a
   child or no ancestor has one either.
   */
  lemma ResolversAgree(t: Shape, scope: Node, ns: NameString, rest: string)
    requires t.Valid() && scope in t.kids && ns.Valid() && Bytes(ns.Bytes() + rest)
    ensures AmlNames.Meaning(t, scope, ns.Bytes() + rest) == PathResolver.Meaning(t, scope, ns.Path(), true) <==>
            && (ns.form == Null ==> ns.Prefixed())
            && (LoneMulti(ns) ==> Sub(t, scope, ns.names[0]) != null || SearchUp(t, scope, ns.names[0]) == NotFound)
  {
    PathDenotes(t, scope, ns, true);
    BytesDenote(t, scope, ns, rest);
    if LoneMulti(ns) {
      var name := ns.names[0];
      assert ns.names == [name];
      SubInTree(t, scope, name);
      assert Descend(t, scope, ns.names) == if Sub(t, scope, name) == null then NotFound
             else Found(Sub(t, scope, name));
    }
  }

  /** A root with two children. */
  ghost function TwoChildren(root: Node, a: Node, b: Node): Shape {
    Shape(root, map[root := [a, b], a := [], b := []], map[a := root, b := root], map[root := 0, a := 1, b := 1])
  }

  lemma TwoChildrenTree(root: Node, a: Node, b: Node)
    requires root != a && root != b && a != b
    ensures TwoChildren(root, a, b).Valid() && Up(TwoChildren(root, a, b), b) == root
    ensures Sub(TwoChildren(root, a, b), root, a.name) == a && Sub(TwoChildren(root, a, b), b, a.name) == null
  {
    var t := TwoChildren(root, a, b);
    assert t.Placed(root) && t.Placed(a) && t.Placed(b);
  }

  /** From a sibling of a node, the bytes of its name as a one-segment MultiNamePath are not found; the path is. */
  lemma LoneMultiDiffers(root: Node, a: Node, scope: Node)
    requires root != a && root != scope && a != scope && ValidName(a.name)
    ensures TwoChildren(root, a, scope).Valid()
    ensures var ns := NameString(false, 0, Multi, [a.name]);
            forall rest :: ns.Valid() && Bytes(ns.Bytes() + rest) ==>
              && AmlNames.Meaning(TwoChildren(root, a, scope), scope, ns.Bytes() + rest) == NotFound
              && PathResolver.Meaning(TwoChildren(root, a, scope), scope, ns.Path(), true) == Found(a)
    ensures NameString(false, 0, Multi, [a.name]).Valid()
  {
    var t, ns := TwoChildren(root, a, scope), NameString(false, 0, Multi, [a.name]);
    TwoChildrenTree(root, a, scope);
    forall rest | Bytes(ns.Bytes() + rest)
      ensures AmlNames.Meaning(t, scope, ns.Bytes() + rest) == NotFound
      ensures PathResolver.Meaning(t, scope, ns.Path(), true) == Found(a)
    {
      PathDenotes(t, scope, ns, true);
      BytesDenote(t, scope, ns, rest);
      FoundAbove(t, scope, a.name);
    }
  }

  lemma FoundAbove(t: Shape, n: Node, name: Name)
    requires t.Valid() && n in t.kids && Sub(t, n, name) == null && n != t.root && Sub(t, Up(t, n), name) != null
    ensures Descend(t, n, [name]) == NotFound && SearchUp(t, n, name) == Found(Sub(t, Up(t, n), name))
  {}

  /** Both ways from the same place in the code, for every form on which they agree. */
  method ResolveBothWays(ghost t: Shape, root: Node, scope: Node, code: string, offset: nat, ghost ns: NameString,
                         ghost rest: string)
      returns (direct: Outcome, offset': nat, viaPath: Outcome)
    requires t.Valid() && t.Describes() && root == t.root && scope in t.kids && offset <= |code| && Bytes(code)
    requires ns.Valid() && code[offset..] == ns.Bytes() + rest && (ns.form == Null ==> ns.Prefixed()) && !LoneMulti(ns)
    ensures direct == viaPath
    ensures direct != Invalid ==> offset' == offset + |ns.Bytes()|
  {
    direct, offset' := AmlNames.Resolve(t, root, scope, code, offset);
    var path, size := ToPath(code, offset);
    PrintedPath(t, scope, ns, rest);
    viaPath := PathResolver.Resolve(t, root, scope, path.value, true, false);
    ResolversAgree(t, scope, ns, rest);
  }

  /** name_string_to_path prints a valid NameString as its path. */
  lemma PrintedPath(t: Shape, scope: Node, ns: NameString, rest: string)
    requires t.Valid() && scope in t.kids && ns.Valid() && Bytes(ns.Bytes() + rest)
    ensures var text := ns.Bytes() + rest;
            var h := ParseHeader(text, RawPrefix(text));
            && h == ParseHeader(text, PrefixLength(text)) && h.Header? && h.start + 4 * h.count == |ns.Bytes()|
            && text[..RawPrefix(text)] + Joined(Names(text, h.start, h.count)) == ns.Path()
  {
    BytesPrefix(t, scope, ns, rest);
    HeaderRead(ns, rest);
  }
}
