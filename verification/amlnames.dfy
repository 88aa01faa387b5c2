/** NameStrings in AML bytecode (section 20.2.2 of the ACPI specification): resolving and printing them. */
module AmlNames {
  import opened Namespace
  import opened Lookup

  const DUAL_NAME_PREFIX := '.'   // 0x2E
  const MULTI_NAME_PREFIX := '/'  // 0x2F
  const NULL_NAME := '\0'

  predicate ValidNameChar(c: char) {
    c == '_' || 'A' <= c <= 'Z' || '0' <= c <= '9'
  }

  predicate ValidName(n: Name) {
    forall i :: 0 <= i < 4 ==> ValidNameChar(n[i])
  }

  // ---- The form of a NameString

  datatype Form = Null | Single | Dual | Multi

  datatype Header = Bad | Header(form: Form, count: nat, start: nat)

  /** What follows the prefix: the form, the number of segments and where they start. */
  function ParseHeader(text: string, p: nat): (h: Header)
    requires p <= |text| && forall i :: 0 <= i < |text| ==> text[i] as int < 256
    ensures h.Header? ==> p <= h.start && h.start + 4 * h.count <= |text|
  {
    if p == |text| then Bad
    else
      var h := if text[p] == DUAL_NAME_PREFIX then Header(Dual, 2, p + 1)
               else if text[p] == MULTI_NAME_PREFIX then
                 if p + 1 == |text| || text[p + 1] as int == 0 then Bad else Header(Multi, text[p + 1] as int, p + 2)
               else if text[p] == NULL_NAME then Header(Null, 0, p + 1)
               else Header(Single, 1, p);
      if h.Header? && 4 * h.count > |text| - h.start then Bad else h
  }

  ghost function Names(text: string, start: nat, n: nat): seq<Name>
    requires start + 4 * n <= |text|
    decreases n
  {
    if n == 0 then [] else [text[start..start + 4]] + Names(text, start + 4, n - 1)
  }

  // ---- resolve_name_string, for an existing node

  /** Down from `n`; a segment is checked when it is reached. */
  ghost function CheckedDescend(t: Shape, n: Node, names: seq<Name>): Outcome
    requires t.Valid() && n in t.kids
    decreases |names|
  {
    if names == [] then Found(n)
    else if !ValidName(names[0]) then Invalid
    else
      SubInTree(t, n, names[0]);
      var k := Sub(t, n, names[0]);
      if k == null then NotFound else CheckedDescend(t, k, names[1..])
  }

  ghost function Meaning(t: Shape, scope: Node, text: string): Outcome
    requires t.Valid() && scope in t.kids && forall i :: 0 <= i < |text| ==> text[i] as int < 256
  {
    var base, p := Base(t, scope, text), PrefixLength(text);
    if base == null then Invalid
    else
      match ParseHeader(text, p)
      case Bad => Invalid
      case Header(form, count, start) =>
        if form == Null then (if p == 0 then Invalid else Found(base))
        else if form == Single && p == 0 then
          var name := text[start..start + 4];
          if ValidName(name) then SearchUp(t, base, name) else Invalid
        else CheckedDescend(t, base, Names(text, start, count))
  }

  /** The loop upwards; it stops at the root. */
  method SearchUpwards(ghost t: Shape, root: Node, scope: Node, name: Name) returns (r: Outcome)
    requires t.Valid() && t.Describes() && root == t.root && scope in t.kids
    ensures r == SearchUp(t, scope, name)
  {
    UpPointer(t, scope);
    var parent := scope;
    var cur := FindSubNode(parent, name, t.kids[parent]);
    while cur == null && parent != root
      invariant t.Describes() && parent in t.kids && cur == Sub(t, parent, name)
      invariant SearchUp(t, scope, name) == SearchUp(t, parent, name)
      decreases Rank(t, parent)
    {
      UpPointer(t, parent);
      parent := parent.parent;
      UpPointer(t, parent);
      cur := FindSubNode(parent, name, t.kids[parent]);
    }
    r := if cur == null then NotFound else Found(cur);
  }

  /** The loop over the segments. */
  method ResolveNames(ghost t: Shape, base: Node, text: string, start: nat, count: nat) returns (r: Outcome)
    requires t.Valid() && t.Describes() && base in t.kids && start + 4 * count <= |text|
    ensures r == CheckedDescend(t, base, Names(text, start, count))
  {
    var cur, cursor: nat, left: nat := base, start, count;
    while left != 0
      invariant t.Describes() && cur in t.kids && cursor + 4 * left <= |text|
      invariant CheckedDescend(t, cur, Names(text, cursor, left)) == CheckedDescend(t, base, Names(text, start, count))
    {
      var name: Name := text[cursor..cursor + 4];
      assert Names(text, cursor, left)[1..] == Names(text, cursor + 4, left - 1);
      if !ValidName(name) {
        return Invalid;
      }
      UpPointer(t, cur);
      SubInTree(t, cur, name);
      var node := FindSubNode(cur, name, t.kids[cur]);
      if node == null {
        return NotFound;
      }
      cur, cursor, left := node, cursor + 4, left - 1;
    }
    r := Found(cur);
  }

  /**
   Resolves the NameString at `offset` in the code. Found or not found, the offset ends just past
   the NameString; on a malformed one it stays.
   */
  method Resolve(ghost t: Shape, root: Node, scope: Node, code: string, offset: nat) returns (r: Outcome, offset': nat)
    requires t.Valid() && t.Describes() && root == t.root && scope in t.kids && offset <= |code|
    requires forall i :: 0 <= i < |code| ==> code[i] as int < 256
    ensures r == Meaning(t, scope, code[offset..])
    ensures r == Invalid ==> offset' == offset
    ensures r != Invalid ==> var h := ParseHeader(code[offset..], PrefixLength(code[offset..]));
                             h.Header? && offset' == offset + h.start + 4 * h.count
  {
    var text := code[offset..];
    offset' := offset;
    var base, p := FollowPrefix(t, root, scope, text);
    if base == null {
      return Invalid, offset;
    }
    var h := ParseHeader(text, p);
    if h.Bad? {
      return Invalid, offset;
    }
    if h.form == Null {
      if p == 0 {
        return Invalid, offset;
      }
      r := Found(base);
    } else if h.form == Single && p == 0 {
      var name: Name := text[h.start..h.start + 4];
      if !ValidName(name) {
        return Invalid, offset;
      }
      r := SearchUpwards(t, root, base, name);
      SearchUpOutcome(t, base, name);
    } else {
      r := ResolveNames(t, base, text, h.start, h.count);
    }
    if r != Invalid {
      offset' := offset + h.start + 4 * h.count;
    }
  }

  lemma {:induction false} SearchUpOutcome(t: Shape, n: Node, name: Name)
    requires t.Valid() && n in t.kids
    ensures SearchUp(t, n, name) != Invalid
    decreases Rank(t, n)
  {
    if n != t.root && Sub(t, n, name) == null {
      SearchUpOutcome(t, Up(t, n), name);
    }
  }

  // ---- name_string_to_path

  /** The prefix as the printer takes it: carets and at most one backslash. */
  ghost function RawPrefix(text: string): nat
    ensures RawPrefix(text) <= |text|
  {
    var k := Carets(text);
    if k < |text| && text[k] == '\\' then k + 1 else k
  }

  ghost function Joined(names: seq<Name>): string {
    if names == [] then "" else if |names| == 1 then names[0] else names[0] + "." + Joined(names[1..])
  }

  lemma {:induction false} JoinedStep(done: string, name: Name, rest: seq<Name>)
    ensures (done + name + if rest == [] then "" else ".") + Joined(rest) == done + Joined([name] + rest)
  {
    assert ([name] + rest)[1..] == rest;
    if rest == [] {
      assert [name] + rest == [name];
    }
  }

  /** Copies the segments behind the prefix, with a dot between two of them. */
  method JoinNames(text: string, start: nat, count: nat, prefix: string) returns (out: string)
    requires start + 4 * count <= |text|
    ensures out == prefix + Joined(Names(text, start, count))
    ensures |out| == |prefix| + if count > 0 then 4 * count + (count - 1) else 0
  {
    out := prefix;
    var cursor: nat, left: nat := start, count;
    while left > 0
      invariant cursor + 4 * left <= |text|
      invariant out + Joined(Names(text, cursor, left)) == prefix + Joined(Names(text, start, count))
      invariant |out| + (if left > 0 then 4 * left + (left - 1) else 0) == |prefix| + if count > 0
                then 4 * count + (count - 1) else 0
    {
      JoinedStep(out, text[cursor..cursor + 4], Names(text, cursor + 4, left - 1));
      out := out + text[cursor..cursor + 4];
      cursor, left := cursor + 4, left - 1;
      out := out + if left > 0 then "." else "";
    }
  }

  /** Turns the NameString at `offset` into a path that fills a buffer of `size` bytes up to its terminator. */
  method ToPath(code: string, offset: nat) returns (path: Option<string>, size: nat)
    requires offset <= |code| && forall i :: 0 <= i < |code| ==> code[i] as int < 256
    ensures var text := code[offset..];
            var h := ParseHeader(text, RawPrefix(text));
            path == if h.Bad? then None else Some(text[..RawPrefix(text)] + Joined(Names(text, h.start, h.count)))
    ensures path.Some? ==> |path.value| + 1 == size
  {
    var text := code[offset..];
    var prefix := 0;
    while prefix < |text| && text[prefix] == '^'
      invariant prefix <= |text| && forall i :: 0 <= i < prefix ==> text[i] == '^'
    {
      prefix := prefix + 1;
    }
    CaretsAt(text, prefix);
    if prefix < |text| && text[prefix] == '\\' {
      prefix := prefix + 1;
    }
    var h := ParseHeader(text, prefix);
    if h.Bad? {
      return None, 0;
    }
    size := (if h.count > 0 then 4 * h.count + (h.count - 1) else 0) + prefix + 1;
    var out := JoinNames(text, h.start, h.count, text[..prefix]);
    path := Some(out);
  }
}
