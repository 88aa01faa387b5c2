/**
 The terminal's parser state and what control sequences, escape sequences and control characters mean:
 which calls they make to the backend and how they change margins, modes and character sets.
 */
module Commands {
  import opened Utf8
  import opened Text
  import opened Picture

  const MAX_ESC_VALUES := 16
  const OSC_BUFFER := 256
  const UINT32_MAX := 0xFFFF_FFFF
  const ESC := '\U{1B}'

  /** Where the parser stands in an escape sequence. */
  datatype Parser = Parser(escape: bool, controlSequence: bool, offset: nat, discardNext: bool, decPrivate: bool,
                           csiUnhandled: bool, osc: bool, oscEscape: bool, oscBuf: seq<Byte>, oscCount: nat)
  {
    ghost predicate Ok() {
      && |oscBuf| == OSC_BUFFER && oscCount <= OSC_BUFFER
      && (!escape ==> !osc && !controlSequence) && !(osc && controlSequence)
    }

    /** Back to plain characters. */
    function Ended(): Parser {
      this.(controlSequence := false, escape := false)
    }
  }

  /** The numbers of a control sequence; `open` (rrr) says that the last one may still grow. */
  datatype Numbers = Numbers(values: seq<nat>, count: nat, open: bool) {
    ghost predicate Ok() {
      && |values| == MAX_ESC_VALUES && count <= MAX_ESC_VALUES && (open ==> count < MAX_ESC_VALUES)
      && (forall i :: 0 <= i < MAX_ESC_VALUES ==> values[i] <= UINT32_MAX)
    }
  }

  function NoNumbers(): (n: Numbers)
    ensures n.Ok()
  {
    Numbers(seq(MAX_ESC_VALUES, _ => 0), 0, false)
  }

  /** A number after one more digit: one already above a tenth of the largest value ignores it. */
  function AddDigit(v: nat, digit: nat): nat
    requires digit <= 9
  {
    if v > UINT32_MAX / 10 then v
    else if v * 10 > UINT32_MAX - digit then UINT32_MAX
    else v * 10 + digit
  }

  ghost predicate AreDigits(ds: seq<nat>) {
    forall i :: 0 <= i < |ds| ==> ds[i] <= 9
  }

  /** The number the digits spell, and the one the terminal makes of them. */
  ghost function Value(ds: seq<nat>): nat {
    if ds == [] then 0 else Value(ds[..|ds| - 1]) * 10 + ds[|ds| - 1]
  }

  ghost function ReadAs(ds: seq<nat>): nat
    requires AreDigits(ds)
  {
    if ds == [] then 0 else AddDigit(ReadAs(ds[..|ds| - 1]), ds[|ds| - 1])
  }

  /** The digits are read as the number they spell exactly if it fits 32 bits; otherwise as a smaller one that does. */
  lemma {:induction false} NumberRead(ds: seq<nat>)
    requires AreDigits(ds)
    ensures ReadAs(ds) <= UINT32_MAX && (ReadAs(ds) == Value(ds) <==> Value(ds) <= UINT32_MAX)
    ensures Value(ds) > UINT32_MAX ==> ReadAs(ds) > UINT32_MAX / 10
  {
    if ds != [] {
      NumberRead(ds[..|ds| - 1]);
    }
  }

  /** An overlong number does not become the largest one: 4294967300 is read as 429496730. */
  lemma LongNumberIsCut(ds: seq<nat>)
    requires AreDigits(ds) && Value(ds) == 429496730
    ensures ReadAs(ds + [0]) == 429496730 && Value(ds + [0]) == 4294967300
  {
    NumberRead(ds);
    assert (ds + [0])[..|ds|] == ds;
  }

  datatype Charsets = Charsets(select: nat, sets: seq<nat>, current: nat, savedSets: seq<nat>, savedCurrent: nat) {
    ghost predicate Ok() {
      select <= 2 && |sets| == 2 && current < 2 && |savedSets| == 2 && savedCurrent < 2
    }
  }

  /** Whether the backend wraps at the right edge and scrolls at the bottom. */
  datatype Flow = Flow(scroll: bool, wrap: bool)

  /** Margins, modes and the saved cursor. */
  datatype Screen = Screen(tabSize: nat, top: nat, bottom: nat, savedCursor: Cell, originMode: bool,
                           savedOriginMode: bool, insertMode: bool)
  {
    ghost predicate Ok(cols: nat, rows: nat) {
      tabSize > 0 && top < bottom <= rows && savedCursor.x < cols && savedCursor.y < rows
    }
  }

  const FRESH_CHARSETS := Charsets(0, [0, 1], 0, [0, 1], 0)

  function FreshScreen(rows: nat): Screen {
    Screen(8, 0, rows, Cell(0, 0), false, false, false)
  }

  function Clamp(v: int, low: int, high: int): int {
    if v < low then low else if v > high then high else v
  }

  function Min(a: nat, b: nat): nat {
    if a < b then a else b
  }

  // ---- Collecting the numbers of a control sequence

  predicate IsDigit(c: Byte) {
    '0' <= c <= '9'
  }

  /** A digit extends the open number; a seventeenth number is ignored. */
  ghost function WithDigit(n: Numbers, c: Byte): Numbers
    requires n.Ok() && IsDigit(c)
  {
    if n.count == MAX_ESC_VALUES then n
    else n.(open := true, values := n.values[n.count := AddDigit(n.values[n.count], c as int - '0' as int)])
  }

  /** A separator closes the open number or records an omitted one as zero. */
  ghost function Separated(n: Numbers): Numbers
    requires n.Ok()
  {
    if n.open then n.(count := n.count + 1, open := false)
    else if n.count == MAX_ESC_VALUES then n
    else n.(values := n.values[n.count := 0], count := n.count + 1)
  }

  ghost function Closed(n: Numbers): Numbers {
    if n.open then n.(count := n.count + 1, open := false) else n
  }

  predicate ZeroDefault(c: Byte) {
    c == 'J' || c == 'K' || c == 'q' || c == 'm' || c == 'c' || c == ']'
  }

  function OrDefault(x: nat, c: Byte): nat {
    if x == 0 && !ZeroDefault(c) then 1 else x
  }

  ghost function ArgumentAt(n: Numbers, i: nat, c: Byte): nat
    requires n.Ok() && i < MAX_ESC_VALUES
  {
    OrDefault(if i < n.count then n.values[i] else 0, c)
  }

  /** Numbers not given get the default of the final byte; where that is one, so do given zeroes. */
  ghost function Arguments(n: Numbers, c: Byte): (v: seq<nat>)
    requires n.Ok()
    ensures |v| == MAX_ESC_VALUES
  {
    seq(MAX_ESC_VALUES, i requires 0 <= i < MAX_ESC_VALUES => ArgumentAt(n, i, c))
  }

  // ---- Moving the cursor

  predicate IsMove(c: Byte) {
    || c == 'A' || c == 'B' || c == 'C' || c == 'D' || c == 'E' || c == 'F' || c == 'a' || c == 'e'
    || c == 'd' || c == 'G' || c == '`' || c == 'H' || c == 'f'
  }

  /** Where a cursor command goes: the requested place, brought back into the screen or, in origin mode, the margins. */
  ghost function Target(c: Byte, at: Cell, v: seq<nat>, s: Screen, cols: nat, rows: nat): Cell
    requires |v| == MAX_ESC_VALUES && s.Ok(cols, rows) && at.x < cols && at.y < rows && v[0] >= 1 && v[1] >= 1
  {
    var first, last := if s.originMode then s.top else 0, if s.originMode then s.bottom - 1 else rows - 1;
    if c == 'A' || c == 'F' then Cell(if c == 'F' then 0 else at.x, Clamp(at.y - v[0], first, rows - 1))
    else if c == 'B' || c == 'E' || c == 'e' then Cell(if c == 'E' then 0 else at.x, Clamp(at.y + v[0], 0, last))
    else if c == 'C' || c == 'a' then Cell(Clamp(at.x + v[0], 0, cols - 1), at.y)
    else if c == 'D' then Cell(Clamp(at.x - v[0], 0, cols - 1), at.y)
    else if c == 'd' then Cell(at.x, Clamp(first + v[0] - 1, first, last))
    else if c == 'G' || c == '`' then Cell(Clamp(v[0] - 1, 0, cols - 1), at.y)
    else Cell(Clamp(v[1] - 1, 0, cols - 1), Clamp(first + v[0] - 1, first, last))
  }

  /** The cursor position command counts rows and columns from one and goes exactly there, if it is on the screen. */
  lemma PositionExact(c: Byte, at: Cell, v: seq<nat>, s: Screen, cols: nat, rows: nat)
    requires |v| == MAX_ESC_VALUES && s.Ok(cols, rows) && at.x < cols && at.y < rows && (c == 'H' || c == 'f')
    requires 1 <= v[0] && 1 <= v[1] <= cols && (if s.originMode then s.top + v[0] <= s.bottom else v[0] <= rows)
    ensures Target(c, at, v, s, cols, rows) == Cell(v[1] - 1, v[0] - 1 + if s.originMode then s.top else 0)
  {}

  /** Up undoes down and left undoes right, as long as neither meets an edge. */
  lemma MovesUndo(at: Cell, v: seq<nat>, s: Screen, cols: nat, rows: nat)
    requires |v| == MAX_ESC_VALUES && s.Ok(cols, rows) && at.x < cols && at.y < rows && v[0] >= 1 && v[1] >= 1
    ensures at.y + v[0] < rows && !s.originMode ==>
              Target('B', at, v, s, cols, rows) == Cell(at.x, at.y + v[0])
              && Target('A', Cell(at.x, at.y + v[0]), v, s, cols, rows) == at
    ensures at.x + v[0] < cols ==>
              Target('C', at, v, s, cols, rows) == Cell(at.x + v[0], at.y)
              && Target('D', Cell(at.x + v[0], at.y), v, s, cols, rows) == at
  {}

  /** In origin mode no command that names a row leaves the margins, and none ever leaves the screen. */
  lemma TargetInside(c: Byte, at: Cell, v: seq<nat>, s: Screen, cols: nat, rows: nat)
    requires |v| == MAX_ESC_VALUES && s.Ok(cols, rows) && at.x < cols && at.y < rows && v[0] >= 1 && v[1] >= 1
    requires IsMove(c)
    ensures IsInside(Target(c, at, v, s, cols, rows), cols, rows)
    ensures s.originMode && (c == 'H' || c == 'f' || c == 'd') ==> s.top <= Target(c, at, v, s, cols, rows).y < s.bottom
  {}

  // ---- Control characters

  /** A line feed scrolls on the bottom margin and stays on the last row. */
  ghost function LineFeed(at: Cell, x: nat, s: Screen, rows: nat): seq<Call> {
    if at.y == s.bottom - 1 then [ScrollUp(s.top, s.bottom), Goto(x, at.y)]
    else if at.y + 1 < rows then [Goto(x, at.y + 1)]
    else []
  }

  ghost function ControlCalls(c: Byte, at: Cell, s: Screen, cols: nat, rows: nat): seq<Call>
    requires s.Ok(cols, rows) && IsInside(at, cols, rows)
  {
    if c == '\U{08}' then if at.x > 0 then [Goto(at.x - 1, at.y)] else []
    else if c == '\t' then [Goto(Clamp((at.x / s.tabSize + 1) * s.tabSize, 0, cols - 1), at.y)]
    else if c == '\U{0B}' || c == '\U{0C}' || c == '\n' then LineFeed(at, at.x, s, rows)
    else if c == '\r' then [Goto(0, at.y)]
    else []
  }

  ghost function ControlSets(k: Charsets, c: Byte): Charsets {
    if c == '\U{0E}' then k.(current := 1) else if c == '\U{0F}' then k.(current := 0) else k
  }

  /** A tab goes to the next multiple of the tab size, or to the last column. */
  lemma TabStops(at: Cell, s: Screen, cols: nat, rows: nat)
    requires s.Ok(cols, rows) && IsInside(at, cols, rows)
    ensures var calls := ControlCalls('\t', at, s, cols, rows);
            && |calls| == 1 && calls[0].Goto? && calls[0].y == at.y && calls[0].x < cols
            && (calls[0].x == cols - 1 || (at.x < calls[0].x <= at.x + s.tabSize && calls[0].x % s.tabSize == 0))
  {
    var t, q := s.tabSize, at.x / s.tabSize;
    assert at.x == q * t + at.x % t;
    assert (q + 1) * t == q * t + t;
    MultipleOf(q + 1, t);
  }

  lemma MultipleOf(q: nat, t: nat)
    requires t > 0
    ensures q * t % t == 0
  {
    var x := q * t;
    var d, m := x / t, x % t;
    assert (q - d) * t == m;
    SmallMultiple(q - d, t, m);
  }

  lemma SmallMultiple(k: int, t: nat, m: nat)
    requires m < t
    ensures k * t == m ==> m == 0
  {
    if k >= 1 {
      assert k * t >= t;
    } else if k <= -1 {
      assert k * t <= -1 * t;
    }
  }

  // ---- Commands

  /** What the backend reports while a byte is handled: the cursor, again, and once more for every repetition. */
  datatype Reports = Reports(at: Cell, here: Cell, again: seq<Cell>) {
    ghost predicate Inside(cols: nat, rows: nat) {
      && IsInside(at, cols, rows) && IsInside(here, cols, rows)
      && (forall i :: 0 <= i < |again| ==> IsInside(again[i], cols, rows))
    }
  }

  const NO_REPORTS := Reports(Cell(0, 0), Cell(0, 0), [])

  /** CSI b: room for one character in insert mode, then the character, once for every report of the cursor. */
  ghost function Repeats(again: seq<Cell>, insert: bool, code: nat, cols: nat): seq<Call> {
    if again == [] then []
    else Repeats(again[..|again| - 1], insert, code, cols) + RepeatOnce(again[|again| - 1], insert, code, cols)
  }

  ghost function RepeatOnce(at: Cell, insert: bool, code: nat, cols: nat): seq<Call> {
    (if insert then ShiftsRight(at.x + 1, at.y, 1, cols) else []) + [Put(code, 1)]
  }

  /** The state that a byte outside UTF-8 sequences works on. */
  datatype Shot = Shot(p: Parser, n: Numbers, k: Charsets, s: Screen, f: Flow, calls: seq<Call>, history: History,
                       graphic: bool, last: nat)
  {
    ghost predicate Ok(cols: nat, rows: nat) {
      p.Ok() && n.Ok() && k.Ok() && s.Ok(cols, rows)
    }

    ghost function Plus(more: seq<Call>): Shot {
      this.(calls := calls + more)
    }

    ghost function Last(): seq<nat> {
      if graphic then [last] else []
    }

    ghost function Over(): Shot {
      this.(p := p.(escape := false))
    }

    ghost function Unselected(): Shot {
      this.(k := k.(select := 0))
    }

    /** Between sequences again; a private sequence is remembered as one. */
    ghost function Cancelled(): Shot {
      this.(p := p.(discardNext := false, escape := false, controlSequence := false, osc := false, oscEscape := false),
            k := k.(select := 0), graphic := false)
    }

    ghost function Next(): Shot {
      this.(p := p.(offset := p.offset + 1))
    }
  }

  ghost function EditCalls(c: Byte, r: Reports, v: seq<nat>, cols: nat, rows: nat): seq<Call>
    requires |v| == MAX_ESC_VALUES && r.Inside(cols, rows)
  {
    if c == 'J' then
      if v[0] == 0 then EraseBelow(r.at, cols, rows) else if v[0] == 1 then EraseAbove(r.at, cols)
      else if v[0] == 2 || v[0] == 3 then [Clear(false)] else []
    else if c == 'K' then EraseRow(v[0], r.at, cols)
    else if c == '@' then if v[0] == 0 then [] else Insert(r.at, Min(v[0], cols - r.at.x), cols)
    else if c == 'P' then Delete(r.at, r.here, Min(v[0], cols - r.at.x), cols)
    else if c == 'X' then Overwrite(r.here, v[0], cols, r.at)
    else []
  }

  /** CSI M, L, S and T. */
  ghost function ScrollCalls(c: Byte, at: Cell, v: seq<nat>, s: Screen): seq<Call>
    requires |v| == MAX_ESC_VALUES && s.top < s.bottom
  {
    if (c == 'M' || c == 'L') && !(s.top <= at.y < s.bottom) then []
    else if c == 'M' then Times(ScrollUp(at.y, s.bottom), Min(v[0], s.bottom - at.y))
    else if c == 'L' then Times(ScrollDown(at.y, s.bottom), Min(v[0], s.bottom - at.y))
    else if c == 'S' then Times(ScrollUp(s.top, s.bottom), Min(v[0], s.bottom - s.top))
    else if c == 'T' then Times(ScrollDown(s.top, s.bottom), Min(v[0], s.bottom - s.top))
    else []
  }

  predicate IsEdit(c: Byte) {
    c == 'J' || c == 'K' || c == '@' || c == 'P' || c == 'X'
  }

  predicate IsScroll(c: Byte) {
    c == 'M' || c == 'L' || c == 'S' || c == 'T'
  }

  /** The requested margins leave at least two rows, inside the screen. */
  predicate MarginsFit(top: nat, bottom: nat, rows: nat) {
    top + 1 < bottom <= rows
  }

  /** CSI r: the requested margins if they fit, else the whole screen. */
  ghost function WithMargins(s: Screen, v: seq<nat>, count: nat, rows: nat): Screen
    requires |v| == MAX_ESC_VALUES && v[0] >= 1
  {
    var top, bottom := if count > 0 then v[0] - 1 else 0, if count > 1 then v[1] else rows;
    if MarginsFit(top, bottom, rows) then s.(top := top, bottom := bottom) else s.(top := 0, bottom := rows)
  }

  ghost predicate ArgumentsFit(c: Byte, v: seq<nat>) {
    |v| == MAX_ESC_VALUES && (!ZeroDefault(c) ==> forall i :: 0 <= i < MAX_ESC_VALUES ==> v[i] >= 1)
  }

  /** CSI b gets a report for every repetition, of which there are at most as many as columns. */
  ghost predicate Enough(c: Byte, r: Reports, v: seq<nat>, cols: nat, rows: nat) {
    r.Inside(cols, rows) && (c == 'b' && |v| > 0 ==> |r.again| == Min(v[0], cols))
  }

  /**
   The calls that a final byte with arguments `v`, `count` of which were given, makes to the backend; `last` holds
   the character that can be repeated, if there is one.
   */
  ghost function CommandCalls(c: Byte, r: Reports, v: seq<nat>, count: nat, s: Screen, last: seq<nat>, cols: nat,
                              rows: nat)
    : seq<Call>
    requires ArgumentsFit(c, v) && s.Ok(cols, rows) && Enough(c, r, v, cols, rows)
  {
    if IsMove(c) then
      var t := Target(c, r.at, v, s, cols, rows);
      [Goto(t.x, t.y)]
    else if IsEdit(c) then EditCalls(c, r, v, cols, rows)
    else if IsScroll(c) then ScrollCalls(c, r.at, v, s)
    else if c == 'b' then if last == [] then [] else Repeats(r.again, s.insertMode, last[0], cols)
    else if c == 'u' then [Goto(s.savedCursor.x, s.savedCursor.y)]
    else if c == 'r' then [Goto(0, if s.originMode then WithMargins(s, v, count, rows).top else 0)]
    else []
  }

  ghost function CommandScreen(c: Byte, r: Reports, v: seq<nat>, count: nat, s: Screen, rows: nat): Screen
    requires ArgumentsFit(c, v)
  {
    if c == 's' then s.(savedCursor := r.here)
    else if c == 'r' then WithMargins(s, v, count, rows)
    else if (c == 'h' || c == 'l') && count > 0 && v[0] == 4 then s.(insertMode := c == 'h')
    else s
  }

  // ---- Private modes

  /** What ESC 7 saves: the part of it that the model has. */
  datatype Modes = Modes(originMode: bool, sets: seq<nat>, current: nat)

  /** How many calls there were when modes were last saved, and what they were then. */
  datatype History = History(since: nat, last: Modes) {
    ghost predicate Since(earlier: History) {
      since >= earlier.since && (since == earlier.since ==> last == earlier.last)
    }
  }

  ghost function ModesOf(a: Shot): Modes {
    Modes(a.s.originMode, a.k.sets, a.k.current)
  }

  ghost function SavedShot(a: Shot): Shot {
    a.(s := a.s.(savedOriginMode := a.s.originMode), k := a.k.(savedSets := a.k.sets, savedCurrent := a.k.current),
       calls := a.calls + [Save], history := History(|a.calls| + 1, ModesOf(a)))
  }

  ghost function RestoredShot(a: Shot): Shot {
    a.(s := a.s.(originMode := a.s.savedOriginMode), k := a.k.(sets := a.k.savedSets, current := a.k.savedCurrent),
       calls := a.calls + [Restore])
  }

  /** One private mode is switched on or off. */
  ghost function PrivateOne(a: Shot, v: nat, on: bool): Shot {
    if v == 6 then a.(s := a.s.(originMode := on)).Plus([Goto(0, if on then a.s.top else 0)])
    else if v == 7 then a.(f := a.f.(wrap := on))
    else if v == 1049 then if on then SavedShot(a).Plus([Clear(true)]) else RestoredShot(a.Plus([Clear(true)]))
    else a
  }

  ghost function PrivateAll(a: Shot, vs: seq<nat>, on: bool): Shot {
    if vs == [] then a else PrivateOne(PrivateAll(a, vs[..|vs| - 1], on), vs[|vs| - 1], on)
  }

  /** Only these modes differ from `a`, and the last call goes to the top of the screen or the margins. */
  ghost predicate ModesSet(a: Shot, vs: seq<nat>, on: bool, b: Shot) {
    && b == a.(s := b.s, f := b.f, calls := b.calls)
    && b.s == a.s.(originMode := if 6 in vs then on else a.s.originMode)
    && b.f == a.f.(wrap := if 7 in vs then on else a.f.wrap)
    && (if 6 in vs then b.calls != [] && b.calls[|b.calls| - 1] == Goto(0, if on then a.s.top else 0)
        else b.calls == a.calls)
  }

  lemma OneModeMore(a: Shot, vs: seq<nat>, v: nat, on: bool, b: Shot)
    requires ModesSet(a, vs, on, b) && v != 1049
    ensures ModesSet(a, vs + [v], on, PrivateOne(b, v, on))
  {
    assert forall x :: x in vs + [v] <==> x in vs || x == v;
  }

  /** Without saving or restoring, the modes named are set, and only they. */
  lemma {:induction false} PrivateModes(a: Shot, vs: seq<nat>, on: bool)
    requires 1049 !in vs
    ensures ModesSet(a, vs, on, PrivateAll(a, vs, on))
  {
    if vs != [] {
      var less, v := vs[..|vs| - 1], vs[|vs| - 1];
      assert vs == less + [v];
      PrivateModes(a, less, on);
      OneModeMore(a, less, v, on, PrivateAll(a, less, on));
    }
  }

  /** Leaving the alternate screen brings back the modes from when it was entered. */
  lemma AlternateScreen(a: Shot, vs: seq<nat>, on: bool)
    requires 1049 !in vs
    ensures var entered := PrivateAll(a, [1049], true);
            ModesOf(PrivateAll(PrivateAll(entered, vs, on), [1049], false)) == ModesOf(a)
  {
    var entered := PrivateAll(a, [1049], true);
    PrivateAllOne(a, 1049, true);
    PrivateModes(entered, vs, on);
    PrivateAllOne(PrivateAll(entered, vs, on), 1049, false);
  }

  lemma PrivateAllOne(a: Shot, v: nat, on: bool)
    ensures PrivateAll(a, [v], on) == PrivateOne(a, v, on)
  {
    assert PrivateAll(a, [v][..0], on) == a;
  }

  // ---- What a byte of a control sequence does

  /** Command `c` with arguments `v`, of which `count` were given, ends the sequence. */
  ghost predicate CommandWith(a: Shot, c: Byte, r: Reports, v: seq<nat>, count: nat, b: Shot, cols: nat, rows: nat) {
    && ArgumentsFit(c, v) && a.s.Ok(cols, rows) && Enough(c, r, v, cols, rows)
    && b == a.(p := a.p.Ended(), n := b.n, s := CommandScreen(c, r, v, count, a.s, rows),
               calls := a.calls + CommandCalls(c, r, v, count, a.s, a.Last(), cols, rows))
  }

  ghost function PrivateStart(a: Shot, n: Numbers): Shot {
    a.(p := a.p.(decPrivate := false).Ended(), n := n)
  }

  /** Private modes do not touch the parser. */
  lemma {:induction false} PrivateEnds(a: Shot, vs: seq<nat>, on: bool)
    ensures var start := a.(p := a.p.(decPrivate := false));
            PrivateAll(start, vs, on).(p := start.p.Ended()) == PrivateAll(PrivateStart(a, a.n), vs, on)
            && PrivateAll(start, vs, on).p == start.p
  {
    if vs != [] {
      PrivateEnds(a, vs[..|vs| - 1], on);
    }
  }

  /** What a byte does to a control sequence whose numbers, in `a.n`, are complete. */
  ghost predicate Completed(a: Shot, c: Byte, r: Reports, b: Shot, cols: nat, rows: nat)
    requires a.n.count <= |a.n.values|
  {
    if a.p.decPrivate then
      if ' ' <= c <= '/' then b == a.(p := a.p.(decPrivate := false, csiUnhandled := true))
      else b == if c == 'h' || c == 'l' then PrivateAll(PrivateStart(a, a.n), a.n.values[..a.n.count], c == 'h')
                else PrivateStart(a, a.n)
    else if c == ESC then b == a.(p := a.p.(csiUnhandled := false, controlSequence := false, offset := 0))
    else if a.p.csiUnhandled then
      b == a.(p := if '@' <= c <= '~' then a.p.(csiUnhandled := false).Ended() else a.p)
    else if '@' <= c <= '~' then CommandWith(a, c, r, a.n.values, a.n.count, b, cols, rows)
    else b == a.(p := a.p.(csiUnhandled := true))
  }

  /** One byte of a control sequence; `a` already counts it. */
  ghost predicate CsiStep(a: Shot, c: Byte, r: Reports, b: Shot, cols: nat, rows: nat)
    requires a.Ok(cols, rows)
  {
    if a.p.offset == 2 && c == '[' then b == a.(p := a.p.(discardNext := true).Ended())
    else if a.p.offset == 2 && c == '?' then b == a.(p := a.p.(decPrivate := true))
    else if c < ' ' && c != ESC then
      && IsInside(r.at, cols, rows)
      && b == a.(k := ControlSets(a.k, c), calls := a.calls + ControlCalls(c, r.at, a.s, cols, rows))
    else if IsDigit(c) then b == a.(n := WithDigit(a.n, c))
    else if c == ';' then b == a.(n := Separated(a.n))
    else Completed(a.(n := WithDefaults(Closed(a.n), c)), c, r, b, cols, rows)
  }

  ghost function WithDefaults(n: Numbers, c: Byte): Numbers
    requires n.Ok()
  {
    n.(values := Arguments(n, c))
  }

  // ---- Escape sequences

  ghost function LineCalls(c: Byte, at: Cell, s: Screen, rows: nat): seq<Call> {
    if c == 'D' then LineFeed(at, at.x, s, rows)
    else if c == 'E' then if at.y + 1 == rows && at.y != s.bottom - 1 then [Goto(0, at.y)] else LineFeed(at, 0, s, rows)
    else if c == 'M' then
      if at.y == s.top then [ScrollDown(s.top, s.bottom), Goto(at.x, at.y)]
      else if at.y > 0 then [Goto(at.x, at.y - 1)]
      else []
    else []
  }

  /** Reverse line feed undoes line feed, except where one of them scrolls. */
  lemma LineFeedUndone(at: Cell, s: Screen, cols: nat, rows: nat)
    requires s.Ok(cols, rows) && IsInside(at, cols, rows) && at.y + 1 < rows && at.y != s.bottom - 1
    requires at.y + 1 != s.top
    ensures LineCalls('D', at, s, rows) == [Goto(at.x, at.y + 1)]
    ensures LineCalls('M', Cell(at.x, at.y + 1), s, rows) == [Goto(at.x, at.y)]
  {}

  ghost function OscAfter(p: Parser, c: Byte): Parser
    requires p.Ok()
  {
    if p.oscEscape then p.(osc := false, oscEscape := false, escape := p.escape && c != '\\')
    else if c == ESC then p.(oscEscape := true)
    else if c == '\U{07}' then p.(osc := false, oscEscape := false, escape := false)
    else if p.oscCount < OSC_BUFFER then p.(oscBuf := p.oscBuf[p.oscCount := c], oscCount := p.oscCount + 1)
    else p
  }

  /** The byte after ESC; `a` already counts it. */
  ghost predicate SimpleStep(a: Shot, c: Byte, r: Reports, b: Shot, cols: nat, rows: nat)
    requires a.Ok(cols, rows)
  {
    if c == ESC then b == a.(p := a.p.(offset := 0))
    else if c == ']' then b == a.(p := a.p.(oscEscape := false, osc := true, oscCount := 0))
    else if c == '[' then b == a.(n := NoNumbers(), p := a.p.(csiUnhandled := false, controlSequence := true))
    else if c == '7' then b == SavedShot(a.Over())
    else if c == '8' then b == RestoredShot(a.Over())
    else if c == 'c' then
      && b.s == FreshScreen(rows) && b.f == Flow(true, true) && b.k == FRESH_CHARSETS && !b.graphic
      && b.calls == a.calls + [Clear(true)] + [Save] && b.n == a.n.(open := false, count := 0)
      && !b.p.escape && !b.p.discardNext && !b.p.decPrivate && !b.p.csiUnhandled
    else if c == '(' then b == a.Over().(k := a.k.(select := 1))
    else if c == ')' then b == a.Over().(k := a.k.(select := 2))
    else IsInside(r.at, cols, rows) && b == a.Over().Plus(LineCalls(c, r.at, a.s, rows))
  }

  /** Any byte after ESC. An operating system command that ESC aborts goes on as a new escape sequence. */
  ghost predicate EscapeStep(a: Shot, c: Byte, r: Reports, b: Shot, cols: nat, rows: nat)
    requires a.Ok(cols, rows)
  {
    if a.p.controlSequence then CsiStep(a, c, r, b, cols, rows)
    else if !a.p.osc then SimpleStep(a, c, r, b, cols, rows)
    else if a.p.oscEscape && c != '\\' then
      SimpleStep(a.(p := a.p.(osc := false, oscEscape := false, offset := 1)), c, r, b, cols, rows)
    else b == a.(p := OscAfter(a.p, c))
  }

  // ---- Text

  predicate IsControl(c: Byte) {
    c < ' ' || c == '\U{7F}'
  }

  predicate Cancels(p: Parser, c: Byte) {
    p.discardNext || c == '\U{18}' || c == '\U{1A}'
  }

  /** In insert mode the rest of the row makes room. */
  ghost function RoomCalls(s: Screen, at: Cell, count: nat, cols: nat): seq<Call>
    requires at.x < cols
  {
    if s.insertMode && count > 0 then
      ShiftsRight(at.x + Min(count, cols - at.x), at.y, Min(count, cols - at.x), cols)
    else []
  }

  ghost function TextPuts(text: seq<nat>): (calls: seq<Call>)
    ensures |calls| == |text|
  {
    seq(|text|, i requires 0 <= i < |text| => Put(text[i], 1))
  }

  /** The character set that the byte after ESC ( or ESC ) names. */
  ghost function Selected(k: Charsets, c: Byte): Charsets
    requires k.Ok() && k.select != 0
  {
    k.(select := 0, sets := if c == 'B' then k.sets[k.select - 1 := 0]
                            else if c == '0' then k.sets[k.select - 1 := 1]
                            else k.sets)
  }

  /** A byte outside every sequence. */
  ghost predicate PlainStep(a: Shot, c: Byte, r: Reports, b: Shot, cols: nat, rows: nat)
    requires a.Ok(cols, rows)
  {
    if IsLead(c) then b == a.Unselected()
    else if a.k.select != 0 && !IsControl(c) then b == a.(k := Selected(a.k, c))
    else if c == ESC then b == a.Unselected().(p := a.p.(offset := 0, escape := true))
    else if IsControl(c) then ControlStep(a.Unselected(), c, r, b, cols, rows)
    else TextStep(a.Unselected(), PlainText(a.k.sets[a.k.current] == 1, c), r, b, cols, rows)
  }

  ghost predicate ControlStep(a: Shot, c: Byte, r: Reports, b: Shot, cols: nat, rows: nat)
    requires a.s.Ok(cols, rows)
  {
    && IsInside(r.at, cols, rows)
    && b == a.(k := ControlSets(a.k, c), graphic := false, calls := a.calls + ControlCalls(c, r.at, a.s, cols, rows))
  }

  /** Printing text whose first character counts as the last one printed. */
  ghost predicate TextStep(a: Shot, text: seq<nat>, r: Reports, b: Shot, cols: nat, rows: nat) {
    && IsInside(r.at, cols, rows) && text != []
    && b == a.(graphic := true, last := text[0], calls := a.calls + RoomCalls(a.s, r.at, |text|, cols) + TextPuts(text))
  }

  ghost predicate ContinueStep(a: Shot, text: seq<nat>, r: Reports, b: Shot, cols: nat, rows: nat) {
    if text == [] then b == a else TextStep(a, text, r, b, cols, rows)
  }

  /** A sequence that is cut short prints a replacement, which CSI b does not repeat, unless it has printed one. */
  ghost function CutText(u: Pending): seq<nat> {
    if u.codePoint <= 0x10FFFF then [REPLACEMENT] else []
  }

  ghost function CutCalls(u: Pending, s: Screen, at: Cell, cols: nat): seq<Call>
    requires at.x < cols
  {
    if u.codePoint <= 0x10FFFF then RoomCalls(s, at, 1, cols) + [Put(REPLACEMENT, 1)] else []
  }

  ghost predicate InterruptStep(a: Shot, u: Pending, c: Byte, r: Reports, b: Shot, cols: nat, rows: nat)
    requires a.Ok(cols, rows)
  {
    IsInside(r.here, cols, rows) && PlainStep(a.Plus(CutCalls(u, a.s, r.here, cols)), c, r, b, cols, rows)
  }

  /** What any byte does in any state. */
  ghost predicate ByteStep(a: Shot, u: Pending, c: Byte, g: Glyph, r: Reports, b: Shot, cols: nat, rows: nat)
    requires a.Ok(cols, rows) && u.remaining <= 3
  {
    if Cancels(a.p, c) then b == a.Cancelled()
    else if a.p.escape then EscapeStep(a.Next(), c, r, b, cols, rows)
    else if u.remaining == 0 then PlainStep(a, c, r, b, cols, rows)
    else if IsContinuation(c) then ContinueStep(a, Prints(u, c, g), r, b, cols, rows)
    else InterruptStep(a, u, c, r, b, cols, rows)
  }

  /** The UTF-8 sequence being read after a byte. */
  ghost predicate PendingAfter(p: Parser, u: Pending, c: Byte, v: Pending)
    requires u.remaining <= 3
  {
    if Cancels(p, c) || p.escape then v.remaining == 0
    else if u.remaining != 0 && IsContinuation(c) then v == Step(u, c)
    else if IsLead(c) then v == Lead(c)
    else v.remaining == 0
  }

  /** The byte ends a pending sequence before its time, unless it is ignored altogether. */
  ghost predicate Interrupts(p: Parser, u: Pending, c: Byte) {
    !p.escape && u.remaining != 0 && !IsContinuation(c)
  }

  /** The text printed for one byte. */
  ghost function TextOf(p: Parser, u: Pending, k: Charsets, c: Byte, g: Glyph): seq<nat>
    requires u.remaining <= 3 && k.Ok()
  {
    if Cancels(p, c) then []
    else if !p.escape && u.remaining != 0 && IsContinuation(c) then Prints(u, c, g)
    else (if Interrupts(p, u, c) then CutText(u) else []) + SettledText(p, k, c)
  }

  /** The text of a byte that does not belong to a pending sequence. */
  ghost function SettledText(p: Parser, k: Charsets, c: Byte): seq<nat>
    requires k.Ok()
  {
    if p.escape || IsLead(c) || (k.select != 0 && !IsControl(c)) then [] else PlainText(k.sets[k.current] == 1, c)
  }

  // ---- Whole parameter lists

  /** Digit lists separated by semicolons; an empty one is an omitted number. */
  ghost predicate AreParameters(ps: seq<seq<nat>>) {
    1 <= |ps| <= MAX_ESC_VALUES && forall i :: 0 <= i < |ps| ==> AreDigits(ps[i])
  }

  /** What a command makes of parameter `i`. */
  ghost function Argument(ps: seq<seq<nat>>, i: nat, c: Byte): nat
    requires AreParameters(ps)
  {
    OrDefault(if i < |ps| then ReadAs(ps[i]) else 0, c)
  }

  ghost function AllArguments(ps: seq<seq<nat>>, c: Byte): (v: seq<nat>)
    requires AreParameters(ps)
    ensures |v| == MAX_ESC_VALUES
  {
    seq(MAX_ESC_VALUES, i requires 0 <= i < MAX_ESC_VALUES => Argument(ps, i, c))
  }

  /** An omitted last number is not counted. */
  ghost function GivenCount(ps: seq<seq<nat>>): nat
    requires AreParameters(ps)
  {
    if ps[|ps| - 1] == [] then |ps| - 1 else |ps|
  }

  /** The numbers collected from the first `j` parameters, with their separators, and the digits `ds` of the next. */
  ghost predicate Holds(n: Numbers, ps: seq<seq<nat>>, j: nat, ds: seq<nat>)
    requires AreParameters(ps) && AreDigits(ds) && j < |ps|
  {
    && n.Ok() && n.count == j && n.open == (ds != []) && n.values[j] == ReadAs(ds)
    && (forall i :: 0 <= i < j ==> n.values[i] == ReadAs(ps[i]))
    && (forall i :: j < i < MAX_ESC_VALUES ==> n.values[i] == 0)
  }

  lemma HoldsNothing(ps: seq<seq<nat>>)
    requires AreParameters(ps)
    ensures Holds(NoNumbers(), ps, 0, [])
  {}

  lemma HoldsDigit(n: Numbers, ps: seq<seq<nat>>, j: nat, ds: seq<nat>, d: nat)
    requires AreParameters(ps) && AreDigits(ds) && j < |ps| && Holds(n, ps, j, ds) && d <= 9
    ensures AreDigits(ds + [d]) && Holds(WithDigit(n, ('0' as int + d) as char), ps, j, ds + [d])
  {
    NumberRead(ds + [d]);
    assert (ds + [d])[..|ds|] == ds;
  }

  lemma HoldsSeparator(n: Numbers, ps: seq<seq<nat>>, j: nat)
    requires AreParameters(ps) && j + 1 < |ps| && Holds(n, ps, j, ps[j])
    ensures Holds(Separated(n), ps, j + 1, [])
  {}

  lemma HoldsAll(n: Numbers, ps: seq<seq<nat>>, c: Byte)
    requires AreParameters(ps) && Holds(n, ps, |ps| - 1, ps[|ps| - 1])
    ensures Closed(n).Ok() && Closed(n).count == GivenCount(ps) && Arguments(Closed(n), c) == AllArguments(ps, c)
  {
    var m := Closed(n);
    forall i | 0 <= i < MAX_ESC_VALUES ensures Arguments(m, c)[i] == AllArguments(ps, c)[i] {}
  }
}
