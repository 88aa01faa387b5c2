/**
 What the terminal's commands do to the screen: the calls of each command, drawn.
 */
module Effects {
  import opened Utf8
  import opened Text
  import opened Picture
  import opened Commands

  // ---- Moving

  /** Away from the edges, and outside origin mode, every cursor command goes exactly where it says. */
  lemma MovesGo(at: Cell, v: seq<nat>, s: Screen, cols: nat, rows: nat)
    requires |v| == MAX_ESC_VALUES && s.Ok(cols, rows) && IsInside(at, cols, rows) && v[0] >= 1 && v[1] >= 1
    requires !s.originMode
    ensures v[0] <= at.y ==> Target('A', at, v, s, cols, rows) == Cell(at.x, at.y - v[0])
    ensures v[0] <= at.y ==> Target('F', at, v, s, cols, rows) == Cell(0, at.y - v[0])
    ensures at.y + v[0] < rows ==> Target('B', at, v, s, cols, rows) == Cell(at.x, at.y + v[0])
    ensures at.y + v[0] < rows ==> Target('e', at, v, s, cols, rows) == Cell(at.x, at.y + v[0])
    ensures at.y + v[0] < rows ==> Target('E', at, v, s, cols, rows) == Cell(0, at.y + v[0])
    ensures at.x + v[0] < cols ==> Target('C', at, v, s, cols, rows) == Cell(at.x + v[0], at.y)
    ensures at.x + v[0] < cols ==> Target('a', at, v, s, cols, rows) == Cell(at.x + v[0], at.y)
    ensures v[0] <= at.x ==> Target('D', at, v, s, cols, rows) == Cell(at.x - v[0], at.y)
    ensures v[0] <= rows ==> Target('d', at, v, s, cols, rows) == Cell(at.x, v[0] - 1)
    ensures v[0] <= cols ==> Target('G', at, v, s, cols, rows) == Cell(v[0] - 1, at.y)
    ensures v[0] <= cols ==> Target('`', at, v, s, cols, rows) == Cell(v[0] - 1, at.y)
    ensures v[0] <= rows && v[1] <= cols ==> Target('H', at, v, s, cols, rows) == Cell(v[1] - 1, v[0] - 1)
    ensures v[0] <= rows && v[1] <= cols ==> Target('f', at, v, s, cols, rows) == Cell(v[1] - 1, v[0] - 1)
  {}

  /** Beyond an edge they stop there. */
  lemma MovesStop(at: Cell, v: seq<nat>, s: Screen, cols: nat, rows: nat)
    requires |v| == MAX_ESC_VALUES && s.Ok(cols, rows) && IsInside(at, cols, rows) && v[0] >= 1 && v[1] >= 1
    ensures v[0] >= at.y ==> Target('A', at, v, s, cols, rows).y == if s.originMode then s.top else 0
    ensures at.y + v[0] >= rows ==>
              Target('B', at, v, s, cols, rows).y == if s.originMode then s.bottom - 1 else rows - 1
    ensures at.x + v[0] >= cols ==> Target('C', at, v, s, cols, rows) == Cell(cols - 1, at.y)
    ensures v[0] >= at.x ==> Target('D', at, v, s, cols, rows) == Cell(0, at.y)
    ensures v[0] >= rows ==>
              Target('d', at, v, s, cols, rows) == Cell(at.x, if s.originMode then s.bottom - 1 else rows - 1)
    ensures v[0] >= cols ==> Target('G', at, v, s, cols, rows) == Cell(cols - 1, at.y)
  {}

  /** The cursor saved by CSI s is where CSI u goes, whatever happens to margins and modes in between. */
  lemma SavedCursorReturns(r: Reports, later: Reports, v: seq<nat>, s: Screen, m: Screen, last: seq<nat>, cols: nat,
                           rows: nat)
    requires ArgumentsFit('s', v) && ArgumentsFit('u', v) && r.Inside(cols, rows) && later.Inside(cols, rows)
    requires m.Ok(cols, rows) && m.savedCursor == CommandScreen('s', r, v, 0, s, rows).savedCursor
    ensures CommandCalls('u', later, v, 0, m, last, cols, rows) == [Goto(r.here.x, r.here.y)]
    ensures CommandScreen('s', r, v, 0, s, rows) == s.(savedCursor := r.here)
  {}

  /** A number that is left out is zero for the commands that choose by it, and one for those that count. */
  lemma OmittedNumber(c: Byte)
    requires '@' <= c <= '~'
    ensures AllArguments([[]], c)[0] ==
            if c == 'J' || c == 'K' || c == 'm' || c == 'c' || c == 'q' || c == ']' then 0 else 1
    ensures GivenCount([[]]) == 0
  {
    var ps: seq<seq<nat>> := [[]];
    assert ps[0] == [];
  }

  // ---- Margins and modes

  /** CSI 4 h and CSI 4 l switch insert mode; no other mode does, nor an omitted one. */
  lemma InsertModeSwitched(r: Reports, v: seq<nat>, count: nat, s: Screen, rows: nat)
    requires ArgumentsFit('h', v) && ArgumentsFit('l', v)
    ensures CommandScreen('h', r, v, count, s, rows) == if v[0] == 4 && count > 0 then s.(insertMode := true) else s
    ensures CommandScreen('l', r, v, count, s, rows) == if v[0] == 4 && count > 0 then s.(insertMode := false) else s
  {}

  /** CSI top ; bottom r takes rows counted from one, both inside the margins, if there are at least two. */
  lemma MarginsTaken(r: Reports, v: seq<nat>, count: nat, s: Screen, rows: nat)
    requires ArgumentsFit('r', v) && rows > 0
    ensures var t := CommandScreen('r', r, v, count, s, rows);
            && t == s.(top := t.top, bottom := t.bottom) && t.top < t.bottom <= rows
            && (count >= 2 && v[0] < v[1] <= rows ==> t.top == v[0] - 1 && t.bottom == v[1])
            && (count == 1 && v[0] < rows ==> t.top == v[0] - 1 && t.bottom == rows)
            && (count == 0 || (count >= 2 && !(v[0] < v[1] <= rows)) ==> t.top == 0 && t.bottom == rows)
  {}

  // ---- Erasing, inserting and deleting

  ghost function Drawn(c: Byte, v: View, here: Cell, args: seq<nat>, s: Screen, cols: nat, rows: nat): View
    requires ArgumentsFit(c, args) && s.Ok(cols, rows) && IsInside(v.at, cols, rows) && IsInside(here, cols, rows)
    requires c != 'b'
  {
    DrawAll(v, CommandCalls(c, Reports(v.at, here, []), args, 0, s, [], cols, rows), cols)
  }

  /** CSI J and CSI K blank what they name and nothing else, and leave the cursor where it was. */
  lemma Erases(v: View, here: Cell, args: seq<nat>, s: Screen, cols: nat, rows: nat, c: Cell)
    requires ArgumentsFit('J', args) && s.Ok(cols, rows)
    requires IsInside(v.at, cols, rows) && IsInside(here, cols, rows) && IsInside(c, cols, rows)
    ensures var w, below, above := Drawn('J', v, here, args, s, cols, rows),
                                   c.y > v.at.y || (c.y == v.at.y && c.x >= v.at.x),
                                   c.y < v.at.y || (c.y == v.at.y && c.x <= v.at.x);
            && w.at == v.at
            && w.look(c) == if (args[0] == 0 && below) || (args[0] == 1 && above) || args[0] == 2 || args[0] == 3
                            then BLANK else v.look(c)
    ensures var w := Drawn('K', v, here, args, s, cols, rows);
            && w.at == v.at
            && w.look(c) == if c.y == v.at.y && (   (args[0] == 0 && c.x >= v.at.x) || (args[0] == 1 && c.x <= v.at.x)
                                                 || args[0] == 2)
                            then BLANK else v.look(c)
  {
    if args[0] == 0 {
      BelowIsErased(v, cols, rows, c);
    } else if args[0] == 1 {
      AboveIsErased(v, cols, c);
    } else {
      DrawOne(v, Clear(false), cols);
    }
    if args[0] <= 2 {
      RowIsErased(v, args[0], cols, c);
    }
  }

  /** CSI @ and CSI P move the rest of the row by the number asked for, if it goes that far; CSI X blanks in place. */
  lemma Edits(v: View, args: seq<nat>, s: Screen, cols: nat, rows: nat, c: Cell)
    requires ArgumentsFit('@', args) && s.Ok(cols, rows) && IsInside(v.at, cols, rows) && IsInside(c, cols, rows)
    ensures var n := Min(args[0], cols - v.at.x);
            var w := Drawn('@', v, v.at, args, s, cols, rows);
            && w.at == v.at
            && w.look(c) == if c.y != v.at.y || c.x < v.at.x then v.look(c)
                            else if c.x < v.at.x + n then BLANK else v.look(Cell(c.x - n, c.y))
    ensures var n := Min(args[0], cols - v.at.x);
            var w := Drawn('P', v, Cell(cols - n, v.at.y), args, s, cols, rows);
            && w.at == v.at
            && w.look(c) == if c.y != v.at.y || c.x < v.at.x then v.look(c)
                            else if c.x + n < cols then v.look(Cell(c.x + n, c.y)) else BLANK
    ensures var w := Drawn('X', v, v.at, args, s, cols, rows);
            && w.at == v.at
            && w.look(c) == if c.y == v.at.y && v.at.x <= c.x < v.at.x + args[0] then BLANK else v.look(c)
  {
    var n := Min(args[0], cols - v.at.x);
    BlanksInserted(v, n, cols, c);
    CharactersDeleted(v, n, cols, c);
    Overwritten(v, args[0], cols, c);
  }

  /** CSI P takes out the blanks that CSI @ put in; what was pushed over the end of the row stays lost. */
  lemma DeleteUndoesInsert(v: View, args: seq<nat>, s: Screen, cols: nat, rows: nat, c: Cell)
    requires ArgumentsFit('@', args) && s.Ok(cols, rows) && IsInside(v.at, cols, rows) && IsInside(c, cols, rows)
    requires v.at.x + args[0] <= cols
    ensures var w := Drawn('@', v, v.at, args, s, cols, rows);
            && w.at == v.at
            && var x := Drawn('P', w, Cell(cols - args[0], v.at.y), args, s, cols, rows);
            x.look(c) == if c.y == v.at.y && c.x >= v.at.x && c.x + args[0] >= cols then BLANK else v.look(c)
  {
    Edits(v, args, s, cols, rows, c);
    var w := Drawn('@', v, v.at, args, s, cols, rows);
    Edits(w, args, s, cols, rows, c);
    if c.x + args[0] < cols {
      Edits(v, args, s, cols, rows, Cell(c.x + args[0], c.y));
    }
  }

  // ---- Scrolling

  /** CSI S and CSI T scroll between the margins. */
  lemma RegionScrolls(v: View, args: seq<nat>, s: Screen, cols: nat, rows: nat, c: Cell)
    requires ArgumentsFit('S', args) && s.Ok(cols, rows) && IsInside(v.at, cols, rows)
    ensures var w := Drawn('S', v, v.at, args, s, cols, rows);
            w.at == v.at && w.look(c) == RolledUp(v.look, s.top, s.bottom, args[0], c)
    ensures var w := Drawn('T', v, v.at, args, s, cols, rows);
            w.at == v.at && w.look(c) == RolledDown(v.look, s.top, s.bottom, args[0], c)
  {
    ScrolledUp(v, s.top, s.bottom, Min(args[0], s.bottom - s.top), cols, c);
    ScrolledDown(v, s.top, s.bottom, Min(args[0], s.bottom - s.top), cols, c);
  }

  /** CSI M and CSI L scroll from the cursor's row to the bottom margin, if the cursor is between the margins. */
  lemma RowsScroll(v: View, args: seq<nat>, s: Screen, cols: nat, rows: nat, c: Cell)
    requires ArgumentsFit('M', args) && s.Ok(cols, rows) && IsInside(v.at, cols, rows)
    ensures var w := Drawn('M', v, v.at, args, s, cols, rows);
            && w.at == v.at
            && w.look(c) == if s.top <= v.at.y < s.bottom then RolledUp(v.look, v.at.y, s.bottom, args[0], c)
               else v.look(c)
    ensures var w := Drawn('L', v, v.at, args, s, cols, rows);
            && w.at == v.at
            && w.look(c) == if s.top <= v.at.y < s.bottom then RolledDown(v.look, v.at.y, s.bottom, args[0], c)
               else v.look(c)
  {
    if s.top <= v.at.y < s.bottom {
      ScrolledUp(v, v.at.y, s.bottom, Min(args[0], s.bottom - v.at.y), cols, c);
      ScrolledDown(v, v.at.y, s.bottom, Min(args[0], s.bottom - v.at.y), cols, c);
    }
  }

  /** The rows from `top` to below `bottom` moved `n` up; blank rows come in at the bottom. */
  ghost function RolledUp(look: Look, top: nat, bottom: nat, n: nat, c: Cell): nat {
    if !(top <= c.y < bottom) then look(c) else if c.y + n < bottom then look(Cell(c.x, c.y + n)) else BLANK
  }

  ghost function RolledDown(look: Look, top: nat, bottom: nat, n: nat, c: Cell): nat {
    if !(top <= c.y < bottom) then look(c) else if c.y < top + n then BLANK else look(Cell(c.x, c.y - n))
  }

  /** A line feed goes down a row; on the bottom margin the margins scroll, on the last row nothing happens. */
  lemma LineFeeds(v: View, s: Screen, cols: nat, rows: nat, c: Cell)
    requires s.Ok(cols, rows) && IsInside(v.at, cols, rows)
    ensures var w := DrawAll(v, ControlCalls('\n', v.at, s, cols, rows), cols);
            && w.at == Cell(v.at.x, if v.at.y == s.bottom - 1 || v.at.y == rows - 1 then v.at.y else v.at.y + 1)
            && w.look(c) == if v.at.y == s.bottom - 1 then RolledUp(v.look, s.top, s.bottom, 1, c) else v.look(c)
    ensures ControlCalls('\n', v.at, s, cols, rows) == LineCalls('D', v.at, s, rows)
    ensures var w := DrawAll(v, LineCalls('M', v.at, s, rows), cols);
            && w.at == Cell(v.at.x, if v.at.y == s.top || v.at.y == 0 then v.at.y else v.at.y - 1)
            && w.look(c) == if v.at.y == s.top then RolledDown(v.look, s.top, s.bottom, 1, c) else v.look(c)
    ensures DrawAll(v, LineCalls('E', v.at, s, rows), cols).at ==
            Cell(0, DrawAll(v, LineCalls('D', v.at, s, rows), cols).at.y)
    ensures DrawAll(v, ControlCalls('\r', v.at, s, cols, rows), cols).at == Cell(0, v.at.y)
    ensures v.at.x > 0 ==> DrawAll(v, ControlCalls('\U{08}', v.at, s, cols, rows), cols).at == Cell(v.at.x - 1, v.at.y)
  {
    DrawnTwice(v, ScrollUp(s.top, s.bottom), v.at.x, v.at.y, cols);
    DrawnTwice(v, ScrollUp(s.top, s.bottom), 0, v.at.y, cols);
    DrawnTwice(v, ScrollDown(s.top, s.bottom), v.at.x, v.at.y, cols);
    DrawOne(v, Goto(v.at.x, v.at.y + 1), cols);
    DrawOne(v, Goto(0, v.at.y + 1), cols);
    DrawOne(v, Goto(0, v.at.y), cols);
    if v.at.y > 0 {
      DrawOne(v, Goto(v.at.x, v.at.y - 1), cols);
    }
    if v.at.x > 0 {
      DrawOne(v, Goto(v.at.x - 1, v.at.y), cols);
    }
  }

  lemma DrawnTwice(v: View, call: Call, x: nat, y: nat, cols: nat)
    ensures DrawAll(v, [call, Goto(x, y)], cols) == Draw(v, call, cols).(at := Cell(x, y))
  {
    assert [call, Goto(x, y)] == [call] + [Goto(x, y)];
    WentTo(v, [call], x, y, cols);
    DrawOne(v, call, cols);
  }

  // ---- Text

  /** A character goes where the cursor is; in insert mode the rest of the row moves one to the right first. */
  lemma TextAppears(v: View, code: nat, s: Screen, cols: nat, c: Cell)
    requires v.at.x < cols && c.x < cols
    ensures var w := DrawAll(v, RoomCalls(s, v.at, 1, cols) + TextPuts([code]), cols);
            && w.at == Cell(v.at.x + 1, v.at.y) && w.within == v.within
            && w.look(c) == if c == v.at then code
                            else if s.insertMode && c.y == v.at.y && c.x > v.at.x then v.look(Cell(c.x - 1, c.y))
                            else v.look(c)
  {
    var room := RoomCalls(s, v.at, 1, cols);
    DrawBoth(v, room, TextPuts([code]), cols);
    if s.insertMode {
      ShiftedRight(v, v.at.x + 1, v.at.y, 1, cols, c);
    }
    assert TextPuts([code]) == [Put(code, 1)];
    DrawOne(DrawAll(v, room, cols), Put(code, 1), cols);
  }

  /** Outside insert mode CSI b puts the last character again, once for every repetition. */
  lemma {:induction false} RepeatsPut(again: seq<Cell>, code: nat, cols: nat)
    ensures Repeats(again, false, code, cols) == Times(Put(code, 1), |again|)
  {
    if again != [] {
      RepeatsPut(again[..|again| - 1], code, cols);
      assert RepeatOnce(again[|again| - 1], false, code, cols) == [Put(code, 1)];
    }
  }
}
