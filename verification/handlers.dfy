/**
 Address space handlers and operation regions: every region caches the handler it uses, every
 handler lists its regions and counts references.
 */
module Handlers {
  import opened Namespace
  import opened Governors
  import Walk

  type Space = nat

  type Handler = nat

  datatype Region = Region(space: Space, handler: Option<Handler>)

  /**
   The handlers of every device (last installed first), each handler's space, its regions (last
   attached first) and its reference count, and the regions.
   */
  datatype State = State(devices: map<Node, seq<Handler>>, spaceOf: map<Handler, Space>,
                         lists: map<Handler, seq<Node>>, refs: map<Handler, nat>, regions: map<Node, Region>)

  // ---- Who governs a region

  /** find_handler. */
  function FindHandler(handlers: seq<Handler>, spaceOf: map<Handler, Space>, space: Space): Option<Handler> {
    if handlers == [] then None
    else if handlers[0] in spaceOf && spaceOf[handlers[0]] == space then Some(handlers[0])
    else FindHandler(handlers[1..], spaceOf, space)
  }

  function HandlerAt(s: State, d: Node, space: Space): Option<Handler> {
    if d in s.devices then FindHandler(s.devices[d], s.spaceOf, space) else None
  }

  /** The devices that have a handler for the space. */
  function Having(s: State, space: Space): set<Node> {
    set d | d in s.devices && HandlerAt(s, d, space).Some?
  }

  /** The namespace: the root, the trees below it, their nodes and the temporary ones among them. */
  datatype Tree = Tree(root: Node, below: Forest, nodes: set<Node>, temporary: set<Node>) {
    ghost predicate Valid() {
      Simple(below) && root !in Nodes(below) && nodes == Nodes(below)
    }
  }

  /** The nearest ancestor of `n` among `has`. */
  ghost function NearestIn(t: Tree, has: set<Node>, n: Node): Option<Node> {
    var governors := Govern(t.below, if t.root in has then Some(t.root) else None, has);
    if n in governors then governors[n] else None
  }

  /** The nearest ancestor of `n` with a handler for the space. */
  ghost function Nearest(t: Tree, s: State, n: Node, space: Space): Option<Node> {
    NearestIn(t, Having(s, space), n)
  }

  /** The trees below `d`. */
  ghost function BelowOf(t: Tree, d: Node): Forest {
    if d == t.root then t.below else KidsOf(t.below, d)
  }

  /** The nodes that a walk from `d` calls when it passes over those in `hidden`. */
  ghost function WalkFrom(t: Tree, has: set<Node>, d: Node, hidden: set<Node>): seq<Node> {
    Reached(BelowOf(t, d), has, hidden)
  }

  /** It calls the nodes whose nearest device is `d`, unless something between the two is hidden. */
  lemma WalkFromExact(t: Tree, has: set<Node>, d: Node, hidden: set<Node>, n: Node)
    requires t.Valid() && n in Nodes(t.below) && d in has && (d == t.root || d in Nodes(t.below))
    ensures n in WalkFrom(t, has, d, hidden) <==> NearestIn(t, has, n) == Some(d) && Visible(BelowOf(t, d), hidden, n)
  {
    var above := if t.root in has then Some(t.root) else None;
    if d == t.root {
      ReachedGoverned(t.below, above, has, n);
    } else {
      WalkReaches(t.below, above, has, d, n);
      KidsSimple(t.below, d);
    }
    ReachedVisible(BelowOf(t, d), has, hidden, n);
  }

  lemma NearestAdd(t: Tree, has: set<Node>, d: Node, n: Node)
    requires n in Nodes(t.below)
    ensures NearestIn(t, has + {d}, n) == Some(d) || NearestIn(t, has + {d}, n) == NearestIn(t, has, n)
  {
    GovernAdd(t.below, if t.root in has then Some(t.root) else None, if t.root in has + {d} then Some(t.root)
              else None, has, d, n);
  }

  // ---- The invariant

  ghost predicate Once<T>(l: seq<T>) {
    forall i, j :: 0 <= i < j < |l| ==> l[i] != l[j]
  }

  /** Each handler's list holds exactly its regions once, and its count is one more than their number. */
  ghost predicate Listed(s: State) {
    && s.lists.Keys == s.spaceOf.Keys == s.refs.Keys
    && (forall h {:trigger ListOk(s, h)} :: h in s.lists ==> ListOk(s, h))
    && (forall n {:trigger Lists(s, n)} :: n in s.regions && s.regions[n].handler.Some? ==> Lists(s, n))
  }

  ghost predicate ListOk(s: State, h: Handler)
    requires h in s.lists && h in s.refs
  {
    && Once(s.lists[h]) && s.refs[h] == 1 + |s.lists[h]|
    && (forall n :: n in s.lists[h] ==> n in s.regions && s.regions[n].handler == Some(h))
  }

  ghost predicate Lists(s: State, n: Node)
    requires n in s.regions && s.regions[n].handler.Some?
  {
    var h := s.regions[n].handler.value;
    h in s.lists && n in s.lists[h] && h in s.spaceOf && s.spaceOf[h] == s.regions[n].space
  }

  // ---- Attaching and detaching one region

  function Without<T(==)>(l: seq<T>, n: T): seq<T> {
    if l == [] then [] else if l[0] == n then l[1..] else [l[0]] + Without(l[1..], n)
  }

  lemma {:induction false} WithoutOnce<T>(l: seq<T>, n: T)
    requires Once(l) && n in l
    ensures Once(Without(l, n)) && |Without(l, n)| == |l| - 1
  {
    if l[0] != n {
      WithoutOnce(l[1..], n);
      var w := Without(l[1..], n);
      forall i, j | 0 <= i < j < |[l[0]] + w| ensures ([l[0]] + w)[i] != ([l[0]] + w)[j] {
        WithoutMember(l[1..], n, w[j - 1]);
      }
    }
  }

  lemma {:induction false} WithoutMember<T>(l: seq<T>, n: T, m: T)
    requires Once(l) && n in l
    ensures m in Without(l, n) <==> m in l && m != n
  {
    if l[0] != n {
      WithoutMember(l[1..], n, m);
    }
  }

  /** `w` is `l` with its one occurrence of `n` taken out and everything else left in order. */
  ghost predicate TakenOut<T>(l: seq<T>, n: T, w: seq<T>) {
    exists i :: 0 <= i < |l| && l[i] == n && w == l[..i] + l[i + 1..]
  }

  lemma {:induction false} WithoutTakesOut<T>(l: seq<T>, n: T)
    requires n in l
    ensures TakenOut(l, n, Without(l, n))
  {
    if l[0] == n {
      assert Without(l, n) == l[..0] + l[0 + 1..];
    } else {
      WithoutTakesOut(l[1..], n);
      var r := l[1..];
      var i :| 0 <= i < |r| && r[i] == n && Without(r, n) == r[..i] + r[i + 1..];
      assert l[i + 1] == n && [l[0]] + (r[..i] + r[i + 1..]) == l[..i + 1] + l[i + 1 + 1..];
    }
  }

  /** Region `n` left the handler it used, and nothing else has changed. */
  ghost predicate OnlyDetached(s: State, n: Node, s': State)
    requires n in s.regions
  {
    && s'.devices == s.devices && s'.spaceOf == s.spaceOf
    && s'.lists.Keys == s.lists.Keys && s'.refs.Keys == s.refs.Keys
    && (forall m :: m in s.regions && m != n ==> m in s'.regions && s'.regions[m] == s.regions[m])
    && (forall h :: h in s.lists && s.regions[n].handler != Some(h) ==> s'.lists[h] == s.lists[h])
    && (forall h :: h in s.refs && s.regions[n].handler != Some(h) ==> s'.refs[h] == s.refs[h])
    && (s.regions[n].handler.Some? ==>
          var h := s.regions[n].handler.value;
          && h in s.lists && h in s.refs && TakenOut(s.lists[h], n, s'.lists[h]) && s'.refs[h] + 1 == s.refs[h])
  }

  /** region_uninstall_handler. */
  function Detached(s: State, n: Node): State
    requires Listed(s) && n in s.regions && s.regions[n].handler.Some?
  {
    var h := s.regions[n].handler.value;
    assert Lists(s, n) && ListOk(s, h);
    s.(lists := s.lists[h := Without(s.lists[h], n)], refs := s.refs[h := s.refs[h] - 1],
       regions := s.regions[n := s.regions[n].(handler := None)])
  }

  /** region_install_handler. */
  function Attached(s: State, n: Node, h: Handler): State
    requires Listed(s) && n in s.regions && h in s.spaceOf
  {
    s.(lists := s.lists[h := [n] + s.lists[h]], refs := s.refs[h := s.refs[h] + 1],
       regions := s.regions[n := s.regions[n].(handler := Some(h))])
  }

  lemma DetachKeeps(s: State, n: Node)
    requires Listed(s) && n in s.regions && s.regions[n].handler.Some?
    ensures Listed(Detached(s, n))
  {
    var h, s' := s.regions[n].handler.value, Detached(s, n);
    assert Lists(s, n);
    var l, w := s.lists[h], Without(s.lists[h], n);
    assert ListOk(s, h);
    WithoutOnce(l, n);
    forall g | g in s'.lists ensures ListOk(s', g) {
      assert ListOk(s, g);
      if g == h {
        assert s'.lists[g] == w;
        forall m | m in w ensures m in s'.regions && s'.regions[m].handler == Some(g) {
          WithoutMember(l, n, m);
        }
      } else {
        assert s'.lists[g] == s.lists[g];
      }
    }
    forall m | m in s'.regions && s'.regions[m].handler.Some? ensures Lists(s', m) {
      assert Lists(s, m);
      WithoutMember(l, n, m);
    }
  }

  /** Region `n`, which used no handler, now heads the list of `h`, and nothing else has changed. */
  ghost predicate OnlyAttached(s: State, n: Node, h: Handler, s': State)
    requires n in s.regions
  {
    && s'.devices == s.devices && s'.spaceOf == s.spaceOf
    && s'.lists.Keys == s.lists.Keys && s'.refs.Keys == s.refs.Keys
    && s'.regions == s.regions[n := Region(s.regions[n].space, Some(h))]
    && h in s.lists && h in s.refs && s'.lists[h] == [n] + s.lists[h] && s'.refs[h] == s.refs[h] + 1
    && (forall g :: g in s.lists && g != h ==> s'.lists[g] == s.lists[g])
    && (forall g :: g in s.refs && g != h ==> s'.refs[g] == s.refs[g])
  }

  lemma DetachedOnly(s: State, n: Node)
    requires Listed(s) && n in s.regions && s.regions[n].handler.Some?
    ensures OnlyDetached(s, n, Detached(s, n))
  {
    var h := s.regions[n].handler.value;
    assert Lists(s, n) && ListOk(s, h);
    WithoutTakesOut(s.lists[h], n);
  }

  lemma AttachKeeps(s: State, n: Node, h: Handler)
    requires Listed(s) && n in s.regions && h in s.spaceOf && s.regions[n].handler == None
    requires s.spaceOf[h] == s.regions[n].space
    ensures Listed(Attached(s, n, h))
  {
    var s' := Attached(s, n, h);
    forall g | g in s'.lists ensures ListOk(s', g) {
      assert ListOk(s, g);
    }
    forall m | m in s'.regions && s'.regions[m].handler.Some? ensures Lists(s', m) {
      if m != n {
        assert Lists(s, m);
      }
    }
  }

  // ---- The cached handler

  /** Every handler belongs to one device, which has at most one for each space. */
  ghost predicate Placed(s: State) {
    && (forall d {:trigger DeviceOk(s, d)} :: d in s.devices ==> DeviceOk(s, d))
    && (forall d, e {:trigger Apart(s, d, e)} :: d in s.devices && e in s.devices && d != e ==> Apart(s, d, e))
  }

  ghost predicate DeviceOk(s: State, d: Node)
    requires d in s.devices
  {
    && (forall h :: h in s.devices[d] ==> h in s.spaceOf)
    && OneEach(s.devices[d], s.spaceOf)
  }

  ghost predicate OneEach(l: seq<Handler>, spaceOf: map<Handler, Space>) {
    forall i, j :: 0 <= i < j < |l| && l[i] in spaceOf && l[j] in spaceOf ==> spaceOf[l[i]] != spaceOf[l[j]]
  }

  ghost predicate Apart(s: State, d: Node, e: Node)
    requires d in s.devices && e in s.devices
  {
    forall h :: h in s.devices[d] ==> h !in s.devices[e]
  }

  /** A region's handler is the one its nearest ancestor has for the region's space. */
  ghost predicate CachedAt(t: Tree, s: State, n: Node)
    requires n in s.regions
  {
    s.regions[n].handler.Some? ==>
      var d := Nearest(t, s, n, s.regions[n].space);
      d.Some? && HandlerAt(s, d.value, s.regions[n].space) == s.regions[n].handler
  }

  ghost predicate Right(t: Tree, s: State) {
    forall n {:trigger CachedAt(t, s, n)} :: n in s.regions ==> CachedAt(t, s, n)
  }

  // ---- A device gets or loses a handler

  lemma {:induction false} FindMember(l: seq<Handler>, spaceOf: map<Handler, Space>, space: Space)
    ensures var r := FindHandler(l, spaceOf, space);
            && (r.Some? ==> r.value in l && r.value in spaceOf && spaceOf[r.value] == space)
            && (r.None? ==> forall h :: h in l && h in spaceOf ==> spaceOf[h] != space)
  {
    if l != [] {
      FindMember(l[1..], spaceOf, space);
    }
  }

  /** Only the spaces of the listed handlers matter. */
  lemma {:induction false} FindSame(l: seq<Handler>, a: map<Handler, Space>, b: map<Handler, Space>, space: Space)
    requires forall h :: h in l ==> (h in a <==> h in b) && (h in a ==> a[h] == b[h])
    ensures FindHandler(l, a, space) == FindHandler(l, b, space)
  {
    if l != [] {
      FindSame(l[1..], a, b, space);
    }
  }

  /** A new handler is linked in front of the device's others. */
  function Added(s: State, d: Node, h: Handler, space: Space): State
    requires d in s.devices
  {
    s.(devices := s.devices[d := [h] + s.devices[d]], spaceOf := s.spaceOf[h := space],
       lists := s.lists[h := []], refs := s.refs[h := 1])
  }

  lemma AddedAt(s: State, d: Node, h: Handler, space: Space, e: Node, sp: Space)
    requires Placed(s) && d in s.devices && h !in s.spaceOf
    ensures HandlerAt(Added(s, d, h, space), e, sp) == if e == d && sp == space then Some(h) else HandlerAt(s, e, sp)
  {
    var s' := Added(s, d, h, space);
    if e in s.devices {
      var l := s.devices[e];
      assert DeviceOk(s, e);
      FindSame(l, s.spaceOf, s'.spaceOf, sp);
      if e == d {
        assert ([h] + l)[1..] == l;
      }
    }
  }

  lemma AddedHaving(s: State, d: Node, h: Handler, space: Space, sp: Space)
    requires Placed(s) && d in s.devices && h !in s.spaceOf
    ensures Having(Added(s, d, h, space), sp) == if sp == space then Having(s, sp) + {d} else Having(s, sp)
  {
    var s' := Added(s, d, h, space);
    forall e ensures e in Having(s', sp) <==> e in (if sp == space then Having(s, sp) + {d} else Having(s, sp)) {
      AddedAt(s, d, h, space, e, sp);
    }
  }

  lemma AddedPlaced(s: State, d: Node, h: Handler, space: Space)
    requires Placed(s) && d in s.devices && h !in s.spaceOf && HandlerAt(s, d, space) == None
    ensures Placed(Added(s, d, h, space))
  {
    var s' := Added(s, d, h, space);
    forall e | e in s'.devices ensures DeviceOk(s', e) {
      assert DeviceOk(s, e);
      if e == d {
        FindMember(s.devices[d], s.spaceOf, space);
        OneMore(s.devices[d], s.spaceOf, h, space);
      }
    }
    forall e, g | e in s'.devices && g in s'.devices && e != g ensures Apart(s', e, g) {
      assert Apart(s, e, g) && DeviceOk(s, e) && DeviceOk(s, g);
    }
  }

  lemma OneMore(l: seq<Handler>, spaceOf: map<Handler, Space>, h: Handler, space: Space)
    requires OneEach(l, spaceOf) && h !in spaceOf && forall g :: g in l ==> g in spaceOf && spaceOf[g] != space
    ensures OneEach([h] + l, spaceOf[h := space])
  {
    var l' := [h] + l;
    forall i, j | 0 <= i < j < |l'| ensures spaceOf[h := space][l'[i]] != spaceOf[h := space][l'[j]] {
      assert l'[j] == l[j - 1] && l[j - 1] in l;
      if i > 0 {
        assert l'[i] == l[i - 1] && l[i - 1] in l;
      }
    }
  }

  lemma AddedListed(s: State, d: Node, h: Handler, space: Space)
    requires Listed(s) && d in s.devices && h !in s.spaceOf
    ensures Listed(Added(s, d, h, space))
  {
    var s' := Added(s, d, h, space);
    forall g | g in s'.lists ensures ListOk(s', g) {
      if g != h {
        assert ListOk(s, g);
      }
    }
    forall n | n in s'.regions && s'.regions[n].handler.Some? ensures Lists(s', n) {
      assert Lists(s, n);
    }
  }

  /** A region stays right unless the new handler's device is now its nearest one. */
  lemma AddedCachedAt(t: Tree, s: State, d: Node, h: Handler, space: Space, n: Node)
    requires Placed(s) && d in s.devices && h !in s.spaceOf && n in s.regions && n in Nodes(t.below)
    requires CachedAt(t, s, n)
    requires s.regions[n].space == space ==> NearestIn(t, Having(s, space) + {d}, n) != Some(d)
    ensures CachedAt(t, Added(s, d, h, space), n)
  {
    var sp := s.regions[n].space;
    AddedHaving(s, d, h, space, sp);
    if sp == space {
      NearestAdd(t, Having(s, sp), d, n);
    }
    var e := Nearest(t, s, n, sp);
    if e.Some? {
      AddedAt(s, d, h, space, e.value, sp);
    }
  }

  lemma {:induction false} FindWithout(l: seq<Handler>, spaceOf: map<Handler, Space>, h: Handler, sp: Space)
    requires h in l && OneEach(l, spaceOf) && forall g :: g in l ==> g in spaceOf
    ensures FindHandler(Without(l, h), spaceOf - {h}, sp) == if sp == spaceOf[h] then None
            else FindHandler(l, spaceOf, sp)
    ensures FindHandler(l, spaceOf, spaceOf[h]) == Some(h) && h !in Without(l, h)
    ensures OneEach(Without(l, h), spaceOf - {h}) && forall g :: g in Without(l, h) ==> g in l
  {
    var r := l[1..];
    if l[0] == h {
      forall g | g in r ensures g != h && spaceOf[g] != spaceOf[h] {
        var i :| 0 <= i < |r| && r[i] == g;
        assert l[i + 1] == g && spaceOf[l[0]] != spaceOf[l[i + 1]];
      }
      FindSame(r, spaceOf, spaceOf - {h}, sp);
      FindMember(r, spaceOf, sp);
    } else {
      FindWithout(r, spaceOf, h, sp);
      var w := Without(r, h);
      var i :| 0 < i < |l| && l[i] == h;
      assert spaceOf[l[0]] != spaceOf[l[i]];
      assert ([l[0]] + w)[1..] == w;
      FrontDiffers(l, w, spaceOf, h);
    }
  }

  lemma FrontDiffers(l: seq<Handler>, w: seq<Handler>, spaceOf: map<Handler, Space>, h: Handler)
    requires l != [] && OneEach(l, spaceOf) && (forall g :: g in l ==> g in spaceOf)
    requires OneEach(w, spaceOf - {h}) && forall g :: g in w ==> g in l[1..]
    ensures OneEach([l[0]] + w, spaceOf - {h})
  {
    var l' := [l[0]] + w;
    forall i, j | 0 <= i < j < |l'| && l'[i] in spaceOf - {h} && l'[j] in spaceOf - {h}
      ensures (spaceOf - {h})[l'[i]] != (spaceOf - {h})[l'[j]]
    {
      assert l'[j] == w[j - 1] && w[j - 1] in w;
      if i == 0 {
        var k :| 0 <= k < |l[1..]| && l[1..][k] == w[j - 1];
        assert l[k + 1] == w[j - 1];
      } else {
        assert l'[i] == w[i - 1];
      }
    }
  }

  /** A handler without regions is unlinked from its device and freed. */
  function Dropped(s: State, d: Node, h: Handler): State
    requires d in s.devices
  {
    s.(devices := s.devices[d := Without(s.devices[d], h)], spaceOf := s.spaceOf - {h}, lists := s.lists - {h},
       refs := s.refs - {h})
  }

  lemma DroppedAt(s: State, d: Node, h: Handler, e: Node, sp: Space)
    requires Placed(s) && d in s.devices && h in s.devices[d]
    ensures h in s.spaceOf && HandlerAt(s, d, s.spaceOf[h]) == Some(h)
    ensures HandlerAt(Dropped(s, d, h), e, sp) == if e == d && sp == s.spaceOf[h] then None else HandlerAt(s, e, sp)
  {
    assert DeviceOk(s, d);
    FindWithout(s.devices[d], s.spaceOf, h, sp);
    if e != d && e in s.devices {
      assert Apart(s, d, e) && DeviceOk(s, e);
      FindSame(s.devices[e], s.spaceOf, s.spaceOf - {h}, sp);
    }
  }

  lemma DroppedHaving(s: State, d: Node, h: Handler, sp: Space)
    requires Placed(s) && d in s.devices && h in s.devices[d] && h in s.spaceOf
    ensures Having(s, sp) == if sp == s.spaceOf[h] then Having(Dropped(s, d, h), sp) + {d}
            else Having(Dropped(s, d, h), sp)
  {
    var s' := Dropped(s, d, h);
    forall e
      ensures e in Having(s, sp) <==> e in (if sp == s.spaceOf[h] then Having(s', sp) + {d} else Having(s', sp))
    {
      DroppedAt(s, d, h, e, sp);
    }
  }

  lemma DroppedPlaced(s: State, d: Node, h: Handler)
    requires Placed(s) && d in s.devices && h in s.devices[d]
    ensures Placed(Dropped(s, d, h))
  {
    var s' := Dropped(s, d, h);
    assert DeviceOk(s, d);
    FindWithout(s.devices[d], s.spaceOf, h, 0);
    forall e | e in s'.devices ensures DeviceOk(s', e) {
      assert DeviceOk(s, e);
      if e != d {
        assert Apart(s, d, e);
      }
    }
    forall e, g | e in s'.devices && g in s'.devices && e != g ensures Apart(s', e, g) {
      assert Apart(s, e, g);
    }
  }

  lemma DroppedListed(s: State, d: Node, h: Handler)
    requires Listed(s) && d in s.devices && h in s.lists && s.lists[h] == []
    ensures Listed(Dropped(s, d, h))
  {
    var s' := Dropped(s, d, h);
    forall g | g in s'.lists ensures ListOk(s', g) {
      assert ListOk(s, g);
    }
    forall n | n in s'.regions && s'.regions[n].handler.Some? ensures Lists(s', n) {
      assert Lists(s, n);
    }
  }

  lemma DroppedRight(t: Tree, s: State, d: Node, h: Handler)
    requires Inv(t, s) && Right(t, s) && d in s.devices && h in s.devices[d] && h in s.lists && s.lists[h] == []
    ensures Right(t, Dropped(s, d, h))
  {
    var s' := Dropped(s, d, h);
    forall n | n in s'.regions ensures CachedAt(t, s', n) {
      assert CachedAt(t, s, n);
      var sp := s.regions[n].space;
      if s.regions[n].handler.Some? {
        assert Lists(s, n);
        var e := Nearest(t, s, n, sp).value;
        DroppedAt(s, d, h, e, sp);
        DroppedHaving(s, d, h, sp);
        NearestAdd(t, Having(s', sp), d, n);
      }
    }
  }

  // ---- The walk callbacks

  /** do_install_or_uninstall_handler, installing `h`: a region of the space changes over to it. */
  function Rehomed(s: State, n: Node, h: Handler): State
    requires Listed(s) && n in s.regions && h in s.spaceOf && s.spaceOf[h] == s.regions[n].space
  {
    if s.regions[n].handler.Some? then
      DetachKeeps(s, n);
      Attached(Detached(s, n), n, h)
    else Attached(s, n, h)
  }

  /** Only lists, counts and cached handlers differ. */
  ghost predicate SameDevices(s: State, s': State) {
    && s'.devices == s.devices && s'.spaceOf == s.spaceOf && s'.regions.Keys == s.regions.Keys
    && (forall n :: n in s.regions ==> s'.regions[n].space == s.regions[n].space)
  }

  lemma SamePlaced(s: State, s': State)
    requires Placed(s) && SameDevices(s, s')
    ensures Placed(s')
  {
    forall d | d in s'.devices ensures DeviceOk(s', d) {
      assert DeviceOk(s, d);
    }
    forall d, e | d in s'.devices && e in s'.devices && d != e ensures Apart(s', d, e) {
      assert Apart(s, d, e);
    }
  }

  lemma SameHaving(s: State, s': State, space: Space)
    requires SameDevices(s, s')
    ensures Having(s', space) == Having(s, space) && forall d :: HandlerAt(s', d, space) == HandlerAt(s, d, space)
  {}

  lemma RehomeKeeps(s: State, n: Node, h: Handler)
    requires Listed(s) && n in s.regions && h in s.spaceOf && s.spaceOf[h] == s.regions[n].space
    ensures Listed(Rehomed(s, n, h)) && SameDevices(s, Rehomed(s, n, h))
    ensures Rehomed(s, n, h).regions == s.regions[n := s.regions[n].(handler := Some(h))]
  {
    if s.regions[n].handler.Some? {
      DetachKeeps(s, n);
      AttachKeeps(Detached(s, n), n, h);
    } else {
      AttachKeeps(s, n, h);
    }
  }

  /** The same devices and the same cached handler: as right as before. */
  lemma SameCachedAt(t: Tree, s: State, s': State, n: Node)
    requires SameDevices(s, s') && n in s.regions && s'.regions[n].handler == s.regions[n].handler
    ensures CachedAt(t, s', n) <==> CachedAt(t, s, n)
  {
    SameHaving(s, s', s.regions[n].space);
  }

  // ---- What an install leaves

  /** `s'` differs from `s` in that the regions of the space among `order` use `h`. */
  ghost predicate Moved(s: State, order: seq<Node>, space: Space, h: Handler, s': State) {
    && SameDevices(s, s')
    && (forall n :: n in s.regions ==> s'.regions[n].handler == HandlerAfter(s, order, space, h, n))
  }

  ghost function HandlerAfter(s: State, order: seq<Node>, space: Space, h: Handler, n: Node): Option<Handler>
    requires n in s.regions
  {
    if n in order && s.regions[n].space == space then Some(h) else s.regions[n].handler
  }

  lemma InstallStep(s0: State, s: State, order: seq<Node>, i: nat, space: Space, h: Handler, s': State)
    requires i < |order| && Moved(s0, order[..i], space, h, s) && SameDevices(s, s')
    requires var n := order[i];
             s'.regions == if n in s.regions && s.regions[n].space == space
                           then s.regions[n := s.regions[n].(handler := Some(h))] else s.regions
    ensures Moved(s0, order[..i + 1], space, h, s')
  {
    assert order[..i + 1] == order[..i] + [order[i]];
  }

  /** Every region of the space with `d` as its nearest device uses `h`. */
  ghost predicate Serves(t: Tree, s: State, d: Node, space: Space, h: Handler) {
    forall n :: n in s.regions && s.regions[n].space == space && Nearest(t, s, n, space) == Some(d) ==>
      s.regions[n].handler == Some(h)
  }

  /**
   A region that will have `d` as its nearest device once `d` has a handler for the space, but that
   is temporary or below a temporary node, so that the walk from `d` does not come to it.
   */
  ghost predicate Unseen(t: Tree, s: State, d: Node, space: Space, n: Node) {
    && n in s.regions && s.regions[n].space == space
    && NearestIn(t, Having(s, space) + {d}, n) == Some(d) && !Visible(BelowOf(t, d), t.temporary, n)
  }

  ghost predicate Installed(t: Tree, s: State, d: Node, space: Space, h: Handler, s': State)
    requires d in s.devices
  {
    Moved(Added(s, d, h, space), WalkFrom(t, Having(s, space) + {d}, d, t.temporary), space, h, s')
  }

  ghost predicate Fresh(t: Tree, s: State, d: Node, space: Space, h: Handler) {
    Inv(t, s) && d in s.devices && h !in s.spaceOf && HandlerAt(s, d, space) == None
  }

  lemma InstalledRegion(t: Tree, s: State, d: Node, space: Space, h: Handler, s': State, n: Node)
    requires Fresh(t, s, d, space, h) && Installed(t, s, d, space, h, s') && n in s.regions
    requires s.regions[n].space == space
    ensures Nearest(t, s', n, space) == NearestIn(t, Having(s, space) + {d}, n) && HandlerAt(s', d, space) == Some(h)
    ensures Nearest(t, s', n, space) == Some(d) ==>
              s'.regions[n].handler == if Unseen(t, s, d, space, n) then s.regions[n].handler else Some(h)
    ensures Nearest(t, s', n, space) != Some(d) ==> s'.regions[n].handler == s.regions[n].handler
    ensures s.regions[n].handler != Some(h)
  {
    var added := Added(s, d, h, space);
    AddedHaving(s, d, h, space, space);
    AddedAt(s, d, h, space, d, space);
    SameHaving(added, s', space);
    WalkFromExact(t, Having(s, space) + {d}, d, t.temporary, n);
    if s.regions[n].handler.Some? {
      assert Lists(s, n);
    }
  }

  /** `d` has `h` for the space; all other devices and spaces keep the handlers they had. */
  ghost predicate OneHandlerMore(s: State, d: Node, space: Space, h: Handler, s': State) {
    && HandlerAt(s', d, space) == Some(h) && s'.spaceOf == s.spaceOf[h := space]
    && (forall e, sp :: e in s.devices && (e != d || sp != space) ==> HandlerAt(s', e, sp) == HandlerAt(s, e, sp))
    && s'.devices.Keys == s.devices.Keys && s'.regions.Keys == s.regions.Keys
  }

  lemma InstalledFrame(t: Tree, s: State, d: Node, space: Space, h: Handler, s': State)
    requires Fresh(t, s, d, space, h) && Installed(t, s, d, space, h, s')
    ensures OneHandlerMore(s, d, space, h, s')
    ensures forall n :: n in s.regions ==>
              s'.regions[n] == if s.regions[n].space == space && Nearest(t, s', n, space) == Some(d)
                                  && Visible(BelowOf(t, d), t.temporary, n)
                               then Region(space, Some(h)) else s.regions[n]
  {
    var added := Added(s, d, h, space);
    forall e, sp ensures HandlerAt(s', e, sp) == if e == d && sp == space then Some(h) else HandlerAt(s, e, sp) {
      AddedAt(s, d, h, space, e, sp);
      SameHaving(added, s', sp);
    }
    forall n | n in s.regions
      ensures s'.regions[n] == if s.regions[n].space == space && Nearest(t, s', n, space) == Some(d)
                                  && Visible(BelowOf(t, d), t.temporary, n)
                               then Region(space, Some(h)) else s.regions[n]
    {
      if s.regions[n].space == space {
        InstalledRegion(t, s, d, space, h, s', n);
      }
    }
  }

  /** The new handler serves all the regions it should exactly if none of them is out of the walk's sight. */
  lemma InstallServes(t: Tree, s: State, d: Node, space: Space, h: Handler, s': State)
    requires Fresh(t, s, d, space, h) && Installed(t, s, d, space, h, s')
    ensures Serves(t, s', d, space, h) <==> forall n :: !Unseen(t, s, d, space, n)
  {
    forall n | n in s.regions && s.regions[n].space == space
      ensures Unseen(t, s, d, space, n) <==> Nearest(t, s', n, space) == Some(d) && s'.regions[n].handler != Some(h)
    {
      InstalledRegion(t, s, d, space, h, s', n);
    }
  }

  lemma InstalledCachedAt(t: Tree, s: State, d: Node, space: Space, h: Handler, s': State, n: Node)
    requires Fresh(t, s, d, space, h) && Installed(t, s, d, space, h, s') && n in s.regions && CachedAt(t, s, n)
    ensures CachedAt(t, s', n) <==> (Unseen(t, s, d, space, n) ==> s.regions[n].handler == None)
  {
    var added := Added(s, d, h, space);
    if s.regions[n].space == space {
      InstalledRegion(t, s, d, space, h, s', n);
    }
    if s.regions[n].space != space || Nearest(t, s', n, space) != Some(d) {
      AddedCachedAt(t, s, d, h, space, n);
      SameCachedAt(t, added, s', n);
    }
  }

  /**
   An install leaves every cached handler right exactly if no region that already has a handler is
   out of the walk's sight.
   */
  lemma InstallRight(t: Tree, s: State, d: Node, space: Space, h: Handler, s': State)
    requires Fresh(t, s, d, space, h) && Installed(t, s, d, space, h, s') && Right(t, s)
    ensures Right(t, s') <==> forall n :: Unseen(t, s, d, space, n) ==> s.regions[n].handler == None
  {
    forall n | n in s.regions
      ensures CachedAt(t, s', n) <==> (Unseen(t, s, d, space, n) ==> s.regions[n].handler == None)
    {
      assert CachedAt(t, s, n);
      InstalledCachedAt(t, s, d, space, h, s', n);
    }
  }

  /** The nearest device of `n` in a chain of three nodes. */
  lemma NearestInChain(root: Node, d: Node, n: Node, has: set<Node>)
    requires root != d && d != n && n != root
    ensures NearestIn(Chain(root, d, n), has, n) == if d in has then Some(d) else if root in has then Some(root)
            else None
  {
    var above := if root in has then Some(root) else None;
    assert Govern(Cons(n, Nil, Nil), if d in has then Some(d) else above, has)[n] == if d in has then Some(d)
           else above;
  }

  /**
   A tree where it is not: a temporary region `n` of device `d` uses the handler `g` of the root; the
   walk that installs `h` on `d` passes over the region, which goes on using `g`.
   */
  lemma TemporaryRegionGoesStale(root: Node, d: Node, n: Node, space: Space, g: Handler, h: Handler, s': State)
    requires root != d && d != n && n != root && g != h
    ensures var t, s := Chain(root, d, n), ChainState(root, d, n, space, g);
            && Fresh(t, s, d, space, h) && Right(t, s)
            && (Installed(t, s, d, space, h, s') ==> !Right(t, s') && !Serves(t, s', d, space, h))
  {
    var t, s := Chain(root, d, n), ChainState(root, d, n, space, g);
    ChainValid(root, d, n, space, g);
    ChainRight(root, d, n, space, g);
    if Installed(t, s, d, space, h, s') {
      InstallServes(t, s, d, space, h, s');
      InstallRight(t, s, d, space, h, s');
    }
  }

  ghost function Chain(root: Node, d: Node, n: Node): Tree {
    Tree(root, Cons(d, Cons(n, Nil, Nil), Nil), {d, n}, {n})
  }

  ghost function ChainState(root: Node, d: Node, n: Node, space: Space, g: Handler): State {
    State(map[root := [g], d := []], map[g := space], map[g := [n]], map[g := 2], map[n := Region(space, Some(g))])
  }

  lemma ChainValid(root: Node, d: Node, n: Node, space: Space, g: Handler)
    requires root != d && d != n && n != root
    ensures Inv(Chain(root, d, n), ChainState(root, d, n, space, g))
  {
    var t, s := Chain(root, d, n), ChainState(root, d, n, space, g);
    assert Simple(Cons(n, Nil, Nil));
    assert Lists(s, n) && ListOk(s, g) && DeviceOk(s, root) && DeviceOk(s, d) && Apart(s, root, d) && Apart(s, d, root);
  }

  lemma ChainRight(root: Node, d: Node, n: Node, space: Space, g: Handler)
    requires root != d && d != n && n != root
    ensures var t, s := Chain(root, d, n), ChainState(root, d, n, space, g);
            Right(t, s) && Unseen(t, s, d, space, n) && HandlerAt(s, d, space) == None
  {
    var t, s := Chain(root, d, n), ChainState(root, d, n, space, g);
    assert Having(s, space) == {root};
    NearestInChain(root, d, n, {root});
    NearestInChain(root, d, n, {root} + {d});
    assert KidsOf(t.below, d) == Cons(n, Nil, Nil);
  }

  // ---- What an uninstall leaves

  /** `s'` differs from `s` in that the regions among `order` no longer use `h`. */
  ghost predicate Left(s: State, order: seq<Node>, h: Handler, s': State) {
    && SameDevices(s, s')
    && (forall n :: n in s.regions ==> s'.regions[n].handler == HandlerLeft(s, order, h, n))
  }

  ghost function HandlerLeft(s: State, order: seq<Node>, h: Handler, n: Node): Option<Handler>
    requires n in s.regions
  {
    if n in order && s.regions[n].handler == Some(h) then None else s.regions[n].handler
  }

  lemma UninstallStep(s0: State, s: State, order: seq<Node>, i: nat, h: Handler, s': State)
    requires i < |order| && Left(s0, order[..i], h, s) && SameDevices(s, s')
    requires var n := order[i];
             s'.regions == if n in s.regions && s.regions[n].handler == Some(h)
                           then s.regions[n := s.regions[n].(handler := None)] else s.regions
    ensures Left(s0, order[..i + 1], h, s')
  {
    assert order[..i + 1] == order[..i] + [order[i]];
  }

  /** Everybody who uses `h` has `d` as the nearest device. */
  ghost predicate AllNear(t: Tree, s: State, d: Node, h: Handler) {
    forall n :: n in s.regions && s.regions[n].handler == Some(h) ==> Nearest(t, s, n, s.regions[n].space) == Some(d)
  }

  /** Whoever uses a handler of `d` has `d` as its nearest device, if the cache is right. */
  lemma RightIsNear(t: Tree, s: State, d: Node, h: Handler)
    requires Inv(t, s) && Right(t, s) && d in s.devices && h in s.devices[d]
    ensures AllNear(t, s, d, h)
  {
    forall n | n in s.regions && s.regions[n].handler == Some(h)
      ensures Nearest(t, s, n, s.regions[n].space) == Some(d)
    {
      assert CachedAt(t, s, n);
      var e := Nearest(t, s, n, s.regions[n].space).value;
      FindMember(s.devices[e], s.spaceOf, s.regions[n].space);
      assert e != d ==> Apart(s, e, d);
    }
  }

  /** After the walk nobody uses the handler exactly if all its users had `d` as their nearest device. */
  lemma NobodyUses(t: Tree, s: State, d: Node, h: Handler, s': State)
    requires Inv(t, s) && d in s.devices && h in s.devices[d] && h in s.spaceOf && Listed(s')
    requires Left(s, WalkFrom(t, Having(s, s.spaceOf[h]), d, {}), h, s')
    ensures h in s'.lists && (s'.lists[h] == [] <==> AllNear(t, s, d, h))
  {
    var space := s.spaceOf[h];
    assert ListOk(s', h);
    DroppedAt(s, d, h, d, space);
    forall n | n in s.regions && s.regions[n].handler == Some(h)
      ensures n in s'.lists[h] <==> Nearest(t, s, n, s.regions[n].space) != Some(d)
    {
      assert Lists(s, n);
      AllVisible(BelowOf(t, d), n);
      WalkFromExact(t, Having(s, space), d, {}, n);
      assert s'.regions[n].handler.Some? ==> Lists(s', n);
    }
    if s'.lists[h] != [] {
      assert s'.lists[h][0] in s'.lists[h];
    }
  }

  /** Exactly the users whose nearest device is `d` have lost the handler. */
  lemma LeftRegions(t: Tree, s: State, d: Node, h: Handler, s': State)
    requires Inv(t, s) && d in s.devices && h in s.devices[d] && h in s.spaceOf
    requires Left(s, WalkFrom(t, Having(s, s.spaceOf[h]), d, {}), h, s')
    ensures forall n :: n in s.regions ==>
              s'.regions[n] == if s.regions[n].handler == Some(h) && Nearest(t, s, n, s.spaceOf[h]) == Some(d)
                               then Region(s.spaceOf[h], None) else s.regions[n]
  {
    var space := s.spaceOf[h];
    DroppedAt(s, d, h, d, space);
    forall n | n in s.regions
      ensures s'.regions[n] == if s.regions[n].handler == Some(h) && Nearest(t, s, n, space) == Some(d)
                               then Region(space, None) else s.regions[n]
    {
      if s.regions[n].handler == Some(h) {
        assert Lists(s, n);
        AllVisible(BelowOf(t, d), n);
        WalkFromExact(t, Having(s, space), d, {}, n);
      }
    }
  }

  lemma LeftRight(t: Tree, s: State, order: seq<Node>, h: Handler, s': State)
    requires Right(t, s) && Left(s, order, h, s')
    ensures Right(t, s')
  {
    forall n | n in s'.regions ensures CachedAt(t, s', n) {
      assert CachedAt(t, s, n);
      if s'.regions[n].handler.Some? {
        SameCachedAt(t, s, s', n);
      }
    }
  }

  /** What governs the children of `p`. */
  ghost function FromUp(t: Tree, has: set<Node>, p: Node): Option<Node> {
    if p in has then Some(p) else if p == t.root then None else NearestIn(t, has, p)
  }

  lemma NearestFromUp(t: Tree, has: set<Node>, n: Node)
    requires t.Valid() && Linked(t.below, t.root) && n in Nodes(t.below)
    ensures n.parent != null
    ensures (n.parent == t.root || (n.parent in Nodes(t.below) && Level(t.below, n.parent) < Level(t.below, n)))
    ensures NearestIn(t, has, n) == FromUp(t, has, n.parent)
  {
    GovernedFromParent(t.below, t.root, if t.root in has then Some(t.root) else None, has, n);
  }

  /** A new region without a handler changes nothing for the others. */
  lemma NewRegion(t: Tree, s: State, n: Node, space: Space)
    requires Inv(t, s) && n !in s.regions && n !in s.devices && n in Nodes(t.below)
    ensures var s' := s.(regions := s.regions[n := Region(space, None)]); Inv(t, s') && (Right(t, s) ==> Right(t, s'))
  {
    var s' := s.(regions := s.regions[n := Region(space, None)]);
    forall g | g in s'.lists ensures ListOk(s', g) {
      assert ListOk(s, g);
    }
    forall m | m in s'.regions && s'.regions[m].handler.Some? ensures Lists(s', m) {
      assert Lists(s, m);
    }
    DevicesOnly(s, s');
    if Right(t, s) {
      forall m | m in s'.regions ensures CachedAt(t, s', m) {
        assert m != n ==> CachedAt(t, s, m);
        assert forall sp :: Having(s', sp) == Having(s, sp);
      }
    }
  }

  /** A region without a handler can go. */
  lemma RegionGone(t: Tree, s: State, n: Node)
    requires Inv(t, s) && n in s.regions && s.regions[n].handler == None
    ensures var s' := s.(regions := s.regions - {n}); Inv(t, s') && (Right(t, s) ==> Right(t, s'))
  {
    var s' := s.(regions := s.regions - {n});
    forall g | g in s'.lists ensures ListOk(s', g) {
      assert ListOk(s, g);
    }
    forall m | m in s'.regions && s'.regions[m].handler.Some? ensures Lists(s', m) {
      assert Lists(s, m);
    }
    DevicesOnly(s, s');
    if Right(t, s) {
      forall m | m in s'.regions ensures CachedAt(t, s', m) {
        assert CachedAt(t, s, m);
        assert forall sp :: Having(s', sp) == Having(s, sp);
      }
    }
  }

  /** A region takes the handler of its nearest device. */
  lemma AttachRight(t: Tree, s: State, n: Node, h: Handler)
    requires Inv(t, s) && Right(t, s) && n in s.regions && h in s.spaceOf
    requires var d := Nearest(t, s, n, s.regions[n].space);
             d.Some? && HandlerAt(s, d.value, s.regions[n].space) == Some(h)
    ensures Right(t, Attached(s, n, h))
  {
    var s' := Attached(s, n, h);
    forall m | m in s'.regions ensures CachedAt(t, s', m) {
      SameHaving(s, s', s.regions[m].space);
      assert CachedAt(t, s, m);
    }
  }

  lemma SameInv(t: Tree, s: State, s': State)
    requires Inv(t, s) && SameDevices(s, s') && Listed(s')
    ensures Inv(t, s')
  {
    SamePlaced(s, s');
  }

  lemma DevicesOnly(s: State, s': State)
    requires Placed(s) && s'.devices == s.devices && s'.spaceOf == s.spaceOf
    ensures Placed(s')
  {
    forall d | d in s'.devices ensures DeviceOk(s', d) {
      assert DeviceOk(s, d);
    }
    forall d, e | d in s'.devices && e in s'.devices && d != e ensures Apart(s', d, e) {
      assert Apart(s, d, e);
    }
  }

  // ---- The operations

  datatype Status = Ok | InvalidArgument | AlreadyExists | OutOfMemory | NoHandler | NotFound

  const ANY_KIND: set<Kind> := set k: Kind | 0 <= k < 32
  const MAX_DEPTH_ANY := 0xFFFF_FFFF

  /** Regions and devices are nodes of the tree, lists and counts are right, a device has one handler for each space. */
  ghost predicate Inv(t: Tree, s: State) {
    && t.Valid() && Listed(s) && Placed(s)
    && (forall n :: n in s.regions ==> n in Nodes(t.below) && n !in s.devices)
    && (forall d :: d in s.devices ==> d == t.root || d in Nodes(t.below))
  }

  /**
   When the cache is right, for every region and every handler: a cached handler is the one of
   the region's nearest device, a handler's list holds exactly the regions that use it, each once,
   and its reference count is one more than their number.
   */
  lemma CacheIsRight(t: Tree, s: State, h: Handler, n: Node)
    requires Inv(t, s) && Right(t, s) && n in s.regions
    ensures s.regions[n].handler.Some? ==>
              var d := Nearest(t, s, n, s.regions[n].space);
              d.Some? && HandlerAt(s, d.value, s.regions[n].space) == s.regions[n].handler
    ensures h in s.spaceOf ==> h in s.lists && (n in s.lists[h] <==> s.regions[n].handler == Some(h))
    ensures h in s.spaceOf ==> Once(s.lists[h]) && h in s.refs && s.refs[h] == 1 + |s.lists[h]|
  {
    assert CachedAt(t, s, n);
    if h in s.spaceOf {
      assert ListOk(s, h);
    }
    if s.regions[n].handler.Some? {
      assert Lists(s, n);
    }
  }

  /** The pointers spell out the tree, and every node has an object. */
  ghost predicate Shaped(t: Tree)
    reads t.root, Nodes(t.below)
  {
    && Linked(t.below, t.root) && t.root.child == First(t.below) && t.root.parent == null
    && Walk.AllHaveObjects(t.below) && Height(t.below) <= MAX_DEPTH_ANY
    && t.temporary == set n | n in Nodes(t.below) && n.temporary
  }

  /** do_install_or_uninstall_handler as a decision: not below a device with a handler of its own. */
  function Answer(s: State, n: Node, space: Space): Walk.Decision {
    if n in s.regions then Walk.Continue
    else if HandlerAt(s, n, space).Some? then Walk.NextPeer
    else Walk.Continue
  }

  /** What the callback decides at call `i` is what the walk was told before it began. */
  lemma AnswerKept(t: Tree, s0: State, s: State, space: Space, calls: seq<Walk.Event>, i: nat, decision: Walk.Decision)
    requires Inv(t, s0) && SameDevices(s0, s) && i < |calls| && !calls[i].up
    requires decision == Answer(s, calls[i].node, space)
    ensures Walk.Skipping(Having(s0, space))(calls[..i + 1]) == decision
  {
    SameHaving(s0, s, space);
    var last := calls[..i + 1][i];
  }

  /** The children of a device have the same shape as the whole tree. */
  lemma BelowShaped(t: Tree, d: Node, q: Walk.Query, hidden: set<Node>)
    requires Shaped(t) && (d == t.root || d in Nodes(t.below)) && hidden == if q.permanentOnly then t.temporary else {}
    requires q.down && !q.up && q.kinds == ANY_KIND && q.maxDepth == MAX_DEPTH_ANY
    ensures d.child == First(BelowOf(t, d)) && Linked(BelowOf(t, d), d) && Nodes(BelowOf(t, d)) <= Nodes(t.below)
    ensures Everywhere(q, BelowOf(t, d), 1, hidden)
  {
    if d != t.root {
      KidsLinked(t.below, t.root, d);
      KidsWithin(t.below, d);
      KidsLower(t.below, d);
    }
  }

  lemma CallsBelow(q: Walk.Query, f: Forest, has: set<Node>, hidden: set<Node>, calls: seq<Walk.Event>)
    requires Everywhere(q, f, 1, hidden) && Walk.InOrder(q, has, f, calls)
    ensures NodesOf(calls) == Reached(f, has, hidden) && forall i :: 0 <= i < |calls| ==> !calls[i].up
  {
    WalkCallsReached(q, f, has, hidden, calls);
    NoPostOrder(q, f, has, 1, false);
    NoneUp(calls);
  }

  lemma {:induction false} NoneUp(calls: seq<Walk.Event>)
    requires Walk.Only(calls, true) == []
    ensures forall i :: 0 <= i < |calls| ==> !calls[i].up
  {
    if calls != [] {
      NoneUp(calls[..|calls| - 1]);
    }
  }

  /** A region that uses `h` belongs to its space. */
  lemma SpaceFollows(s: State, n: Node, h: Handler)
    requires Listed(s) && h in s.spaceOf
    ensures n in s.regions && s.regions[n].handler == Some(h) ==> s.regions[n].space == s.spaceOf[h]
  {
    if n in s.regions && s.regions[n].handler == Some(h) {
      assert Lists(s, n);
    }
  }

  /** A handler that regions still use is unlinked from its device but not freed. */
  function Orphaned(s: State, d: Node, h: Handler): State
    requires d in s.devices && h in s.refs && s.refs[h] > 0
  {
    s.(devices := s.devices[d := Without(s.devices[d], h)], refs := s.refs[h := s.refs[h] - 1])
  }

  /** The regions that use the handler are its only references. */
  ghost predicate KeptAlive(s: State, h: Handler) {
    && h in s.lists && h in s.refs && s.refs[h] == |s.lists[h]| > 0
    && (forall n :: n in s.regions ==> (s.regions[n].handler == Some(h) <==> n in s.lists[h]))
  }

  lemma OrphanAt(s: State, d: Node, h: Handler)
    requires Listed(s) && Placed(s) && d in s.devices && h in s.devices[d] && h in s.lists && s.lists[h] != []
    ensures h in s.spaceOf && h in s.refs && s.refs[h] > 0
    ensures HandlerAt(Orphaned(s, d, h), d, s.spaceOf[h]) == None && KeptAlive(Orphaned(s, d, h), h)
  {
    assert ListOk(s, h) && DeviceOk(s, d);
    var l, w, space := s.devices[d], Without(s.devices[d], h), s.spaceOf[h];
    FindWithout(l, s.spaceOf, h, space);
    FindMember(w, s.spaceOf - {h}, space);
    FindMember(w, s.spaceOf, space);
    forall n | n in s.regions && s.regions[n].handler == Some(h) ensures n in s.lists[h] {
      assert Lists(s, n);
    }
  }

  /** `d` has no handler for the space any more; all other devices and spaces keep theirs. */
  ghost predicate OneHandlerLess(s: State, d: Node, space: Space, s': State) {
    && HandlerAt(s', d, space) == None && s'.devices.Keys == s.devices.Keys
    && (forall e, sp :: e in s.devices && (e != d || sp != space) ==> HandlerAt(s', e, sp) == HandlerAt(s, e, sp))
    && (forall g :: g in s.spaceOf && HandlerAt(s, d, space) != Some(g) ==>
        g in s'.spaceOf && s'.spaceOf[g] == s.spaceOf[g])
  }

  lemma LessOf(s: State, left: State, d: Node, space: Space, s': State)
    requires SameDevices(s, left) && OneHandlerLess(left, d, space, s')
    ensures OneHandlerLess(s, d, space, s')
  {
    forall e, sp | e in s.devices ensures HandlerAt(left, e, sp) == HandlerAt(s, e, sp) {
      SameHaving(s, left, sp);
    }
  }

  lemma LessOne(s: State, d: Node, h: Handler)
    requires Listed(s) && Placed(s) && d in s.devices && h in s.devices[d] && h in s.lists
    ensures h in s.spaceOf && OneHandlerLess(s, d, s.spaceOf[h], Dropped(s, d, h))
    ensures s.lists[h] != [] ==> h in s.refs && s.refs[h] > 0 && OneHandlerLess(s, d, s.spaceOf[h], Orphaned(s, d, h))
  {
    assert ListOk(s, h) && DeviceOk(s, d);
    forall e, sp ensures HandlerAt(Dropped(s, d, h), e, sp) ==
                         if e == d && sp == s.spaceOf[h] then None else HandlerAt(s, e, sp)
    {
      DroppedAt(s, d, h, e, sp);
    }
    var w := Without(s.devices[d], h);
    FindWithout(s.devices[d], s.spaceOf, h, 0);
    forall sp ensures FindHandler(w, s.spaceOf, sp) == FindHandler(w, s.spaceOf - {h}, sp) {
      FindSame(w, s.spaceOf, s.spaceOf - {h}, sp);
    }
    forall e, sp ensures s.lists[h] != [] ==>
                           HandlerAt(Orphaned(s, d, h), e, sp) ==
                           if e == d && sp == s.spaceOf[h] then None else HandlerAt(s, e, sp)
    {
      DroppedAt(s, d, h, e, sp);
    }
  }

  lemma NothingUnseen(t: Tree, s: State, d: Node, space: Space)
    requires t.temporary == {}
    ensures forall n :: !Unseen(t, s, d, space, n)
  {
    forall n ensures !Unseen(t, s, d, space, n) {
      AllVisible(BelowOf(t, d), n);
    }
  }

  /** uacpi_namespace_do_for_each_child with a callback that skips the nodes in `has`. */
  method WalkBelow(d: Node, has: set<Node>, permanentOnly: bool, ghost t: Tree) returns (calls: seq<Walk.Event>)
    requires t.Valid() && Shaped(t) && (d == t.root || d in Nodes(t.below))
    ensures NodesOf(calls) == WalkFrom(t, has, d, if permanentOnly then t.temporary else {})
    ensures forall i :: 0 <= i < |calls| ==> !calls[i].up
  {
    var q := Walk.Query(Walk.Skipping(has), true, false, ANY_KIND, MAX_DEPTH_ANY, permanentOnly);
    ghost var kids, hidden := BelowOf(t, d), if permanentOnly then t.temporary else {};
    BelowShaped(t, d, q, hidden);
    calls := CallInOrder(d, q, has, hidden, kids, t.nodes);
  }

  method CallInOrder(start: Node, q: Walk.Query, has: set<Node>, ghost hidden: set<Node>, ghost f: Forest,
                     ghost all: set<Node>)
    returns (calls: seq<Walk.Event>)
    requires start.child == First(f) && Linked(f, start) && Nodes(f) <= all
    requires Everywhere(q, f, 1, hidden) && q.decide == Walk.Skipping(has)
    ensures NodesOf(calls) == Reached(f, has, hidden) && forall i :: 0 <= i < |calls| ==> !calls[i].up
  {
    var status;
    status, calls := Walk.ForEachChild(start, q, f);
    CallsBelow(q, f, has, hidden, calls);
  }

  class OpRegions {
    const root: Node
    ghost const tree: Tree
    var s: State

    ghost predicate Valid()
      reads this
    {
      tree.root == root && Inv(tree, s)
    }

    constructor (root: Node, devices: set<Node>, ghost t: Tree)
      requires t.Valid() && t.root == root && forall d :: d in devices ==> d == root || d in Nodes(t.below)
      ensures tree == t && Valid() && Right(t, s) && s.regions == map[] && s.devices.Keys == devices
    {
      this.root, tree := root, t;
      s := State(map d | d in devices :: [], map[], map[], map[], map[]);
    }

    /** do_install_or_uninstall_handler, installing `h`. */
    method InstallCallback(n: Node, space: Space, h: Handler) returns (decision: Walk.Decision)
      requires Valid() && h in s.spaceOf && s.spaceOf[h] == space
      modifies this
      ensures Valid() && SameDevices(old(s), s) && decision == Answer(old(s), n, space)
      ensures s.regions == if n in old(s).regions && old(s).regions[n].space == space
                           then old(s).regions[n := old(s).regions[n].(handler := Some(h))] else old(s).regions
    {
      ghost var before := s;
      if n in s.regions {
        if s.regions[n].space == space {
          RehomeKeeps(s, n, h);
          s := Rehomed(s, n, h);
          SameInv(tree, before, s);
        }
        return Walk.Continue;
      }
      decision := if HandlerAt(s, n, space).Some? then Walk.NextPeer else Walk.Continue;
    }

    /** The callbacks of the walk below `d`, just after `h` was linked to it. */
    method InstallCallbacks(calls: seq<Walk.Event>, space: Space, h: Handler)
      requires Valid() && h in s.spaceOf && s.spaceOf[h] == space && forall i :: 0 <= i < |calls| ==> !calls[i].up
      modifies this
      ensures Valid() && Moved(old(s), NodesOf(calls), space, h, s)
    {
      ghost var s0, order := s, NodesOf(calls);
      for i := 0 to |calls|
        invariant Valid() && Moved(s0, order[..i], space, h, s)
      {
        ghost var before := s;
        var decision := InstallCallback(calls[i].node, space, h);
        AnswerKept(tree, s0, before, space, calls, i, decision);
        InstallStep(s0, before, order, i, space, h, s);
      }
      assert order[..|calls|] == order;
    }

    /**
     uacpi_install_address_space_handler: every region of the space that now has `d` as its nearest
     device changes over to the new handler `h`, unless it is temporary or below a temporary node.
     The handler serves all its regions, and the cache stays right, exactly if no such region exists
     (and, for the cache, has a handler).
     */
    method InstallHandler(d: Node, space: Space, h: Handler, memory: bool) returns (status: Status)
      requires Valid() && Shaped(tree) && h !in s.spaceOf
      modifies this
      ensures Valid()
      ensures status == if d !in old(s).devices then InvalidArgument
              else if HandlerAt(old(s), d, space).Some? then AlreadyExists
                        else if memory then Ok else OutOfMemory
      ensures status != Ok ==> s == old(s)
      ensures status == Ok ==> Installed(tree, old(s), d, space, h, s)
      ensures status == Ok ==> OneHandlerMore(old(s), d, space, h, s)
      ensures status == Ok ==> forall n :: n in old(s).regions ==>
                s.regions[n] == if old(s).regions[n].space == space && Nearest(tree, s, n, space) == Some(d)
                                   && Visible(BelowOf(tree, d), tree.temporary, n)
                                then Region(space, Some(h)) else old(s).regions[n]
      ensures status == Ok ==>
                (Serves(tree, s, d, space, h) <==> forall n :: !Unseen(tree, old(s), d, space, n))
      ensures status == Ok && Right(tree, old(s)) ==>
                (Right(tree, s) <==>
                 forall n :: Unseen(tree, old(s), d, space, n) ==> old(s).regions[n].handler == None)
    {
      if d !in s.devices {
        return InvalidArgument;
      }
      if HandlerAt(s, d, space).Some? {
        return AlreadyExists;
      }
      if !memory {
        return OutOfMemory;
      }
      LinkAndWalk(d, space, h);
      InstalledFrame(tree, old(s), d, space, h, s);
      InstallServes(tree, old(s), d, space, h, s);
      if Right(tree, old(s)) {
        InstallRight(tree, old(s), d, space, h, s);
      }
      status := Ok;
    }

    method LinkAndWalk(d: Node, space: Space, h: Handler)
      requires Valid() && Fresh(tree, s, d, space, h) && Shaped(tree)
      modifies this
      ensures Valid() && Installed(tree, old(s), d, space, h, s)
    {
      AddedListed(s, d, h, space);
      AddedPlaced(s, d, h, space);
      AddedHaving(s, d, h, space, space);
      s := Added(s, d, h, space);
      var calls := WalkBelow(d, Having(s, space), true, tree);
      InstallCallbacks(calls, space, h);
    }

    /** do_install_or_uninstall_handler, uninstalling `h`. */
    method UninstallCallback(n: Node, space: Space, h: Handler) returns (decision: Walk.Decision)
      requires Valid() && h in s.spaceOf && s.spaceOf[h] == space
      modifies this
      ensures Valid() && SameDevices(old(s), s) && decision == Answer(old(s), n, space)
      ensures s.regions == if n in old(s).regions && old(s).regions[n].handler == Some(h)
                           then old(s).regions[n := old(s).regions[n].(handler := None)] else old(s).regions
      ensures if n in old(s).regions && old(s).regions[n].handler == Some(h) then OnlyDetached(old(s), n, s)
              else s == old(s)
    {
      ghost var before := s;
      if n in s.regions {
        SpaceFollows(s, n, h);
        if s.regions[n].space == space && s.regions[n].handler == Some(h) {
          DetachKeeps(s, n);
          DetachedOnly(s, n);
          s := Detached(s, n);
          SameInv(tree, before, s);
        }
        return Walk.Continue;
      }
      decision := if HandlerAt(s, n, space).Some? then Walk.NextPeer else Walk.Continue;
    }

    method UninstallCallbacks(calls: seq<Walk.Event>, space: Space, h: Handler)
      requires Valid() && h in s.spaceOf && s.spaceOf[h] == space && forall i :: 0 <= i < |calls| ==> !calls[i].up
      modifies this
      ensures Valid() && Left(old(s), NodesOf(calls), h, s)
    {
      ghost var s0, order := s, NodesOf(calls);
      for i := 0 to |calls|
        invariant Valid() && Left(s0, order[..i], h, s)
      {
        ghost var before := s;
        var decision := UninstallCallback(calls[i].node, space, h);
        AnswerKept(tree, s0, before, space, calls, i, decision);
        UninstallStep(s0, before, order, i, h, s);
      }
      assert order[..|calls|] == order;
    }

    /**
     uacpi_uninstall_address_space_handler: the regions the walk comes to lose the handler, the device
     loses it, and it is freed exactly if all its users had `d` as their nearest device, as they do
     when the cache is right. Otherwise the regions left behind keep it alive.
     */
    method UninstallHandler(d: Node, space: Space) returns (status: Status)
      requires Valid() && Shaped(tree)
      modifies this
      ensures status == if d !in old(s).devices then InvalidArgument
              else if HandlerAt(old(s), d, space).None? then NoHandler else Ok
      ensures status != Ok ==> s == old(s)
      ensures status == Ok ==>
                var h := HandlerAt(old(s), d, space).value;
                && OneHandlerLess(old(s), d, space, s) && s.regions.Keys == old(s).regions.Keys
                && (forall n :: n in old(s).regions ==>
                      s.regions[n] ==
                      if old(s).regions[n].handler == Some(h) && Nearest(tree, old(s), n, space) == Some(d)
                                      then Region(space, None) else old(s).regions[n])
                && (h !in s.spaceOf <==> AllNear(tree, old(s), d, h))
                && (h !in s.spaceOf ==> Valid())
                && (h in s.spaceOf ==> KeptAlive(s, h))
      ensures Right(tree, old(s)) ==> Valid() && Right(tree, s)
    {
      if d !in s.devices {
        return InvalidArgument;
      }
      var found := HandlerAt(s, d, space);
      if found.None? {
        return NoHandler;
      }
      var h := found.value;
      FindMember(s.devices[d], s.spaceOf, space);
      if Right(tree, s) {
        RightIsNear(tree, s, d, h);
      }
      ReleaseUsers(d, h, space);
      ghost var left := s;
      Drop(d, h);
      LessOf(old(s), left, d, space, s);
      status := Ok;
    }

    /** The walk of an uninstall: exactly the users whose nearest device is `d` lose the handler. */
    method ReleaseUsers(d: Node, h: Handler, space: Space)
      requires Valid() && Shaped(tree) && d in s.devices && h in s.devices[d] && h in s.spaceOf && s.spaceOf[h] == space
      modifies this
      ensures Valid() && SameDevices(old(s), s) && h in s.lists && (s.lists[h] == [] <==> AllNear(tree, old(s), d, h))
      ensures forall n :: n in old(s).regions ==>
                s.regions[n] == if old(s).regions[n].handler == Some(h) && Nearest(tree, old(s), n, space) == Some(d)
                                then Region(space, None) else old(s).regions[n]
      ensures Right(tree, old(s)) ==> Right(tree, s)
    {
      ghost var s0 := s;
      var calls := WalkBelow(d, Having(s, space), false, tree);
      UninstallCallbacks(calls, space, h);
      NobodyUses(tree, s0, d, h, s);
      LeftRegions(tree, s0, d, h, s);
      if Right(tree, s0) {
        LeftRight(tree, s0, WalkFrom(tree, Having(s0, space), d, {}), h, s);
      }
    }

    /** Unlinks the handler and gives up the device's reference, which is the last one if no region uses it. */
    method Drop(d: Node, h: Handler)
      requires Valid() && d in s.devices && h in s.devices[d] && h in s.lists
      modifies this
      ensures h in old(s).spaceOf && OneHandlerLess(old(s), d, old(s).spaceOf[h], s) && s.regions == old(s).regions
      ensures old(s).lists[h] == [] ==>
                Valid() && s == Dropped(old(s), d, h) && (Right(tree, old(s)) ==> Right(tree, s))
      ensures old(s).lists[h] != [] ==> h in s.spaceOf && KeptAlive(s, h)
    {
      assert ListOk(s, h);
      DroppedAt(s, d, h, d, s.spaceOf[h]);
      LessOne(s, d, h);
      if s.refs[h] == 1 {
        DroppedListed(s, d, h);
        DroppedPlaced(s, d, h);
        if Right(tree, s) {
          DroppedRight(tree, s, d, h);
        }
        s := Dropped(s, d, h);
      } else {
        OrphanAt(s, d, h);
        s := Orphaned(s, d, h);
      }
    }

    /** The loop through the ancestors of a region's node. */
    method FindNearest(n: Node, space: Space) returns (h: Option<Handler>, ghost d: Option<Node>)
      requires Valid() && n in Nodes(tree.below) && Shaped(tree)
      ensures d == Nearest(tree, s, n, space) && h == if d.Some? then HandlerAt(s, d.value, space) else None
      ensures d.Some? ==> h.Some?
    {
      ghost var has := Having(s, space);
      NearestFromUp(tree, has, n);
      var parent := n.parent;
      while parent != null
        invariant Valid() && Linked(tree.below, root) && root.parent == null && has == Having(s, space)
        invariant parent != null ==>
                  (parent == root || parent in Nodes(tree.below))
                  && NearestIn(tree, has, n) == FromUp(tree, has, parent)
        invariant parent == null ==> NearestIn(tree, has, n) == None
        decreases if parent == null then 0 else if parent == root then 1 else 1 + Level(tree.below, parent)
      {
        h := HandlerAt(s, parent, space);
        if h.Some? {
          d := Some(parent);
          return;
        }
        if parent != root {
          NearestFromUp(tree, has, parent);
        }
        parent := parent.parent;
      }
      h, d := None, None;
    }

    /** uacpi_initialize_opregion_node: a new region takes the handler of its nearest device that has one. */
    method InitializeRegion(n: Node, space: Space) returns (status: Status)
      requires Valid() && n in Nodes(tree.below) && n !in s.regions && n !in s.devices && Shaped(tree)
      modifies this
      ensures Valid() && n in s.regions && s.regions[n].space == space
      ensures var bare := old(s).(regions := old(s).regions[n := Region(space, None)]);
              if s.regions[n].handler == None then s == bare else OnlyAttached(bare, n, s.regions[n].handler.value, s)
      ensures Right(tree, old(s)) ==> Right(tree, s)
      ensures status == if Nearest(tree, s, n, space).Some? then Ok else NotFound
      ensures s.regions[n].handler == if status == Ok then HandlerAt(s, Nearest(tree, s, n, space).value, space)
              else None
    {
      NewRegion(tree, s, n, space);
      s := s.(regions := s.regions[n := Region(space, None)]);
      var h;
      ghost var d;
      h, d := FindNearest(n, space);
      if h.None? {
        return NotFound;
      }
      ghost var before := s;
      TakeHandler(n, h.value, d.value);
      SameHaving(before, s, space);
      status := Ok;
    }

    /** region_install_handler for a region without one. */
    method TakeHandler(n: Node, h: Handler, ghost d: Node)
      requires Valid() && n in s.regions && s.regions[n].handler == None
      requires Nearest(tree, s, n, s.regions[n].space) == Some(d)
      requires HandlerAt(s, d, s.regions[n].space) == Some(h)
      modifies this
      ensures Valid() && SameDevices(old(s), s) && OnlyAttached(old(s), n, h, s)
      ensures Right(tree, old(s)) ==> Right(tree, s)
    {
      FindMember(s.devices[d], s.spaceOf, s.regions[n].space);
      ghost var before := s;
      AttachKeeps(s, n, h);
      if Right(tree, s) {
        AttachRight(tree, s, n, h);
      }
      s := Attached(s, n, h);
      SameInv(tree, before, s);
    }

    /** uacpi_opregion_uninstall_handler followed by the end of the region. */
    method DeleteRegion(n: Node)
      requires Valid() && n in s.regions
      modifies this
      ensures Valid() && s.regions.Keys == old(s).regions.Keys - {n} && OnlyDetached(old(s), n, s)
      ensures Right(tree, old(s)) ==> Right(tree, s)
    {
      ghost var before := s;
      if s.regions[n].handler.Some? {
        DetachKeeps(s, n);
        DetachedOnly(s, n);
        s := Detached(s, n);
        SameInv(tree, before, s);
        if Right(tree, before) {
          LeftRight(tree, before, [n], before.regions[n].handler.value, s);
        }
      }
      RegionGone(tree, s, n);
      s := s.(regions := s.regions - {n});
    }
  }

  // ---- Any sequence of operations

  datatype Op = Install(d: Node, space: Space, h: Handler, memory: bool) | Uninstall(d: Node, space: Space)
              | Initialize(n: Node, space: Space) | Delete(n: Node)

  /** The cache is right and, no node being temporary, will stay so. */
  ghost predicate Steady(o: OpRegions)
    reads o, o.tree.root, Nodes(o.tree.below)
  {
    o.Valid() && Right(o.tree, o.s) && Shaped(o.tree) && o.tree.temporary == {}
  }

  method Perform(o: OpRegions, op: Op)
    requires Steady(o) && (op.Initialize? ==> op.n in Nodes(o.tree.below))
    modifies o
    ensures Steady(o)
  {
    match op
    case Install(d, space, h, memory) =>
      if h !in o.s.spaceOf {
        NothingUnseen(o.tree, o.s, d, space);
        var _ := o.InstallHandler(d, space, h, memory);
      }
    case Uninstall(d, space) =>
      var _ := o.UninstallHandler(d, space);
    case Initialize(n, space) =>
      if n !in o.s.regions && n !in o.s.devices {
        var _ := o.InitializeRegion(n, space);
      }
    case Delete(n) =>
      if n in o.s.regions {
        o.DeleteRegion(n);
      }
  }

  /** Where no node is temporary, every sequence of operations keeps the cache right. */
  method PerformAll(o: OpRegions, ops: seq<Op>)
    requires Steady(o) && forall i :: 0 <= i < |ops| && ops[i].Initialize? ==> ops[i].n in Nodes(o.tree.below)
    modifies o
    ensures Steady(o)
  {
    for i := 0 to |ops|
      invariant Steady(o)
    {
      Perform(o, ops[i]);
    }
  }
}
