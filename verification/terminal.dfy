/**
 The terminal's byte-stream parser: escape sequences, control sequences, operating system commands
 and UTF-8, one byte at a time. The backend may report any cursor inside the grid; every call that is
 made to it, except for colours, is recorded.
 */
module Terminal {
  import opened Utf8
  import opened Text
  import opened Picture
  import opened Commands

  class Context {
    const cols: nat
    const rows: nat
    var p: Parser
    var n: Numbers
    var u: Pending       // the UTF-8 sequence being read
    var k: Charsets
    var s: Screen
    var f: Flow
    var lastPrinted: nat
    var lastWasGraphic: bool
    ghost var calls: seq<Call>    // every call to the backend
    ghost var printed: seq<nat>   // the text printed outside control sequences
    ghost var history: History    // what was saved last

    /** The bounds that hold after every byte. */
    ghost predicate Bounded()
      reads this
    {
      && cols > 0 && rows > 0 && p.Ok() && n.Ok() && k.Ok() && s.Ok(cols, rows)
      && Clean(calls, history.since, cols, rows)
      && u.remaining <= 3 && (u.remaining != 0 ==> !p.escape && k.select == 0)
    }

    /** What was saved last is still there. */
    ghost predicate Valid()
      reads this
    {
      Bounded() && history.last == Modes(s.savedOriginMode, k.savedSets, k.savedCurrent)
    }

    ghost function Now(): Shot
      reads this
    {
      Shot(p, n, k, s, f, calls, history, lastWasGraphic, lastPrinted)
    }

    /** Between sequences. */
    predicate AtRest()
      reads this
    {
      !p.escape && !p.discardNext && u.remaining == 0 && k.select == 0
    }

    constructor (cols: nat, rows: nat)
      requires cols > 0 && rows > 0
      ensures Valid() && this.cols == cols && this.rows == rows && calls == [] && printed == [] && AtRest()
      ensures s == FreshScreen(rows) && k == FRESH_CHARSETS && !p.decPrivate
    {
      this.cols, this.rows := cols, rows;
      p := Parser(false, false, 0, false, false, false, false, false, seq(OSC_BUFFER, _ => '\0'), 0);
      n, u, k, s, f := NoNumbers(), Pending(0, 0), FRESH_CHARSETS, FreshScreen(rows), Flow(true, true);
      lastPrinted, lastWasGraphic := 0x20, false;
      calls, printed, history := [], [], History(0, Modes(false, [0, 1], 0));
    }

    /** flanterm_context_reinit. */
    method Reinit()
      requires Valid()
      modifies `p, `n, `u, `k, `s, `f, `lastWasGraphic, `lastPrinted
      ensures Bounded() && AtRest() && !p.decPrivate && !p.csiUnhandled && !p.osc && !p.controlSequence
      ensures s == FreshScreen(rows) && f == Flow(true, true) && k == FRESH_CHARSETS && !lastWasGraphic
      ensures n == old(n).(open := false, count := 0)
    {
      p := p.(escape := false, controlSequence := false, osc := false, oscEscape := false,
              discardNext := false, decPrivate := false, csiUnhandled := false, offset := 0);
      n := n.(open := false, count := 0);
      u, k, s, f := u.(remaining := 0), FRESH_CHARSETS, FreshScreen(rows), Flow(true, true);
      lastPrinted, lastWasGraphic := 0x20, false;
    }

    // ---- The backend

    /** Any cursor inside the grid. */
    method GetCursor() returns (c: Cell)
      requires cols > 0 && rows > 0
      ensures IsInside(c, cols, rows)
    {
      var x: nat :| x < cols;
      var y: nat :| y < rows;
      c := Cell(x, y);
    }

    ghost method Record(call: Call)
      requires CallInside(call, cols, rows) && !call.Save? && Clean(calls, history.since, cols, rows)
      modifies `calls
      ensures calls == old(calls) + [call] && Clean(calls, history.since, cols, rows)
    {
      calls := calls + [call];
    }

    method SetCursor(x: nat, y: nat)
      requires x < cols && y < rows && Clean(calls, history.since, cols, rows)
      modifies `calls
      ensures calls == old(calls) + [Goto(x, y)] && Clean(calls, history.since, cols, rows)
    {
      Record(Goto(x, y));
    }

    method MoveCharacter(newX: nat, newY: nat, oldX: nat, oldY: nat)
      requires newX < cols && newY < rows && oldX < cols && oldY < rows && Clean(calls, history.since, cols, rows)
      modifies `calls
      ensures calls == old(calls) + [Copy(Cell(newX, newY), Cell(oldX, oldY))]
      ensures Clean(calls, history.since, cols, rows)
    {
      Record(Copy(Cell(newX, newY), Cell(oldX, oldY)));
    }

    /** The cursor goes to (x, y) and `count` blanks are put there. */
    method FillFrom(x: nat, y: nat, count: nat)
      requires x < cols && y < rows && Clean(calls, history.since, cols, rows)
      modifies `calls
      ensures calls == old(calls) + Fill(x, y, count) && Clean(calls, history.since, cols, rows)
    {
      SetCursor(x, y);
      Record(Put(BLANK, count));
    }

    /** Scrolls `count` times, up or down. */
    method Scroll(up: bool, top: nat, bottom: nat, count: nat)
      requires top < bottom <= rows && Clean(calls, history.since, cols, rows)
      modifies `calls
      ensures Clean(calls, history.since, cols, rows)
      ensures calls == old(calls) + Times(if up then ScrollUp(top, bottom) else ScrollDown(top, bottom), count)
    {
      ghost var call := if up then ScrollUp(top, bottom) else ScrollDown(top, bottom);
      for i := 0 to count
        invariant Clean(calls, history.since, cols, rows) && calls == old(calls) + Times(call, i)
      {
        Record(call);
      }
    }

    method Print(text: seq<nat>)
      requires Clean(calls, history.since, cols, rows)
      modifies `calls, `printed
      ensures printed == old(printed) + text && calls == old(calls) + TextPuts(text)
      ensures Clean(calls, history.since, cols, rows)
    {
      printed := printed + text;
      calls := calls + TextPuts(text);
    }

    // ---- Operating system commands

    /** osc_parse; the result says whether the byte was consumed. */
    method OscParse(c: Byte) returns (consumed: bool)
      requires Valid() && p.osc
      modifies `p
      ensures Valid() && consumed == (!old(p).oscEscape || c == '\\') && p == OscAfter(old(p), c)
    {
      if p.oscEscape {
        if c == '\\' {
          p := p.(osc := false, oscEscape := false, escape := false);
          return true;
        }
        p := p.(oscEscape := false, osc := false);
        return false;
      }
      if c == ESC {
        p := p.(oscEscape := true);
      } else if c == '\U{07}' {
        p := p.(oscEscape := false, osc := false, escape := false);
      } else if p.oscCount < OSC_BUFFER {
        p := p.(oscBuf := p.oscBuf[p.oscCount := c], oscCount := p.oscCount + 1);
      }
      consumed := true;
    }

    /** A byte of an operating system command; one that aborts it is the first of a new escape sequence. */
    method OscByte(c: Byte) returns (consumed: bool)
      requires Valid() && p.osc && u.remaining == 0
      modifies `p
      ensures Valid() && (consumed <==> !(old(p).oscEscape && c != '\\'))
      ensures p == if consumed then OscAfter(old(p), c) else old(p).(osc := false, oscEscape := false, offset := 1)
    {
      consumed := OscParse(c);
      if !consumed {
        p := p.(offset := 1);
      }
    }

    // ---- Control characters

    /** A line feed: scrolls at the bottom margin, otherwise goes down unless on the last row. */
    method NextLine(at: Cell, x: nat)
      requires Valid() && IsInside(at, cols, rows) && x < cols
      modifies `calls
      ensures Valid() && calls == old(calls) + LineFeed(at, x, s, rows)
    {
      if at.y == s.bottom - 1 {
        Record(ScrollUp(s.top, s.bottom));
        SetCursor(x, at.y);
      } else if at.y < rows - 1 {
        SetCursor(x, at.y + 1);
      }
    }

    /** execute_c0; `at` is the cursor that the backend reports. */
    method ExecuteC0(c: Byte) returns (ghost at: Cell)
      requires Valid()
      modifies `k, `calls
      ensures Valid() && IsInside(at, cols, rows) && calls == old(calls) + ControlCalls(c, at, s, cols, rows)
      ensures k == ControlSets(old(k), c)
    {
      var here := GetCursor();
      at := here;
      if c == '\U{08}' {
        if here.x > 0 {
          SetCursor(here.x - 1, here.y);
        }
      } else if c == '\t' {
        var x := (here.x / s.tabSize + 1) * s.tabSize;
        if x >= cols {
          x := cols - 1;
        }
        SetCursor(x, here.y);
      } else if c == '\U{0B}' || c == '\U{0C}' || c == '\n' {
        NextLine(here, here.x);
      } else if c == '\r' {
        SetCursor(0, here.y);
      } else if c == '\U{0E}' {
        k := k.(current := 1);
      } else if c == '\U{0F}' {
        k := k.(current := 0);
      }
    }

    // ---- Control sequences: collecting the numbers

    method Digit(c: Byte)
      requires Valid() && IsDigit(c)
      modifies `n
      ensures Valid() && n == WithDigit(old(n), c)
    {
      if n.count == MAX_ESC_VALUES {
        return;
      }
      n := n.(open := true);
      var v := n.values[n.count];
      if v > UINT32_MAX / 10 {
        assert n.values[n.count := v] == n.values;
        return;
      }
      var digit := c as int - '0' as int;
      v := v * 10;
      n := n.(values := n.values[n.count := if v > UINT32_MAX - digit then UINT32_MAX else v + digit]);
    }

    /** Closes an open number, or records an omitted one; true if the byte was a separator and is used up. */
    method Separator(c: Byte) returns (consumed: bool)
      requires Valid()
      modifies `n
      ensures Valid() && consumed == (c == ';') && n == if c == ';' then Separated(old(n)) else Closed(old(n))
    {
      if n.open {
        n := n.(count := n.count + 1, open := false);
        return c == ';';
      }
      if c == ';' {
        if n.count < MAX_ESC_VALUES {
          n := n.(values := n.values[n.count := 0], count := n.count + 1);
        }
        return true;
      }
      consumed := false;
    }

    /** Omitted numbers get the default of the final byte; where that is 1, so do explicit zeroes. */
    method FillDefaults(c: Byte)
      requires Valid()
      modifies `n
      ensures Valid() && n == old(n).(values := Arguments(old(n), c)) && ArgumentsFit(c, n.values)
    {
      var default := if ZeroDefault(c) then 0 else 1;
      var values := n.values;
      for i := n.count to MAX_ESC_VALUES
        invariant |values| == MAX_ESC_VALUES && (forall j :: 0 <= j < n.count ==> values[j] == n.values[j])
        invariant forall j :: n.count <= j < i ==> values[j] == default
      {
        values := values[i := default];
      }
      if default != 0 {
        ghost var filled := values;
        for i := 0 to n.count
          invariant |values| == MAX_ESC_VALUES
          invariant forall j :: 0 <= j < i ==> values[j] == if filled[j] == 0 then 1 else filled[j]
          invariant forall j :: i <= j < MAX_ESC_VALUES ==> values[j] == filled[j]
        {
          if values[i] == 0 {
            values := values[i := default];
          }
        }
      }
      assert values == Arguments(n, c);
      n := n.(values := values);
    }

    // ---- Control sequences: moving the cursor

    /** The value of the first number, cut to at most `limit`; the cut is stored back. */
    method AtMost(limit: nat) returns (v: nat)
      requires Valid()
      modifies `n
      ensures Valid() && n == old(n).(values := n.values) && n.values[0] == v == Min(old(n).values[0], limit)
    {
      if n.values[0] > limit {
        n := n.(values := n.values[0 := limit]);
      }
      v := n.values[0];
    }

    /** CSI A, F: up, not above the top margin in origin mode. */
    method CursorUp(at: Cell, x: nat)
      requires Valid() && at.y < rows && x < cols
      modifies `n, `calls
      ensures Valid() && n == old(n).(values := n.values)
      ensures calls == old(calls)
                       + [Goto(x, Clamp(at.y - old(n).values[0], if s.originMode then s.top else 0, rows - 1))]
    {
      var v := AtMost(at.y);
      var y := at.y - v;
      var minY := if s.originMode then s.top else 0;
      SetCursor(x, if y < minY then minY else y);
    }

    /** CSI B, E, e: down, not below the bottom margin in origin mode. */
    method CursorDown(at: Cell, x: nat)
      requires Valid() && at.y < rows && x < cols
      modifies `n, `calls
      ensures Valid() && n == old(n).(values := n.values)
      ensures calls == old(calls)
                       + [Goto(x, Clamp(at.y + old(n).values[0], 0, if s.originMode then s.bottom - 1 else rows - 1))]
    {
      var v := AtMost(rows - 1 - at.y);
      var y := at.y + v;
      var maxY := if s.originMode then s.bottom else rows;
      SetCursor(x, if y >= maxY then maxY - 1 else y);
    }

    /** A one-based row or column as a zero-based one below `limit`. */
    static function ZeroBased(v: nat, limit: nat): nat
      requires limit > 0
    {
      var w := if v != 0 then v - 1 else 0;
      if w >= limit then limit - 1 else w
    }

    /** CSI d and the row of CSI H, f: counted from the top margin in origin mode. */
    method AbsoluteRow(v: nat) returns (y: nat)
      requires Valid() && v >= 1
      ensures var first, last := if s.originMode then s.top else 0, if s.originMode then s.bottom - 1 else rows - 1;
              y == Clamp(first + v - 1, first, last)
    {
      var maxRow := if s.originMode then s.bottom - s.top else rows;
      y := ZeroBased(v, maxRow) + if s.originMode then s.top else 0;
    }

    /** The calls of one move. */
    ghost function MoveCalls(c: Byte, at: Cell, v: seq<nat>): seq<Call>
      requires s.Ok(cols, rows) && IsInside(at, cols, rows) && |v| == MAX_ESC_VALUES && v[0] >= 1 && v[1] >= 1
      reads `s
    {
      [Goto(Target(c, at, v, s, cols, rows).x, Target(c, at, v, s, cols, rows).y)]
    }

    /** The commands that move relative to the cursor; false if `c` is not one of them. */
    method RelativeMove(c: Byte, at: Cell) returns (handled: bool)
      requires Valid() && IsInside(at, cols, rows) && (!ZeroDefault(c) ==> n.values[0] >= 1 && n.values[1] >= 1)
      modifies `n, `calls
      ensures Valid() && n == old(n).(values := n.values)
      ensures !handled ==> n == old(n) && calls == old(calls)
      ensures handled ==> !ZeroDefault(c) && calls == old(calls) + MoveCalls(c, at, old(n).values)
      ensures handled <==> c == 'A' || c == 'F' || c == 'B' || c == 'E' || c == 'e' || c == 'C' || c == 'a' || c == 'D'
    {
      handled := true;
      if c == 'A' || c == 'F' {
        CursorUp(at, if c == 'F' then 0 else at.x);
      } else if c == 'B' || c == 'E' || c == 'e' {
        CursorDown(at, if c == 'E' then 0 else at.x);
      } else if c == 'C' || c == 'a' {
        var v := AtMost(cols - 1 - at.x);
        SetCursor(at.x + v, at.y);
      } else if c == 'D' {
        var v := AtMost(at.x);
        SetCursor(at.x - v, at.y);
      } else {
        handled := false;
      }
    }

    /** The commands that name a row or a column; false if `c` is not one of them. */
    method AbsoluteMove(c: Byte, at: Cell) returns (handled: bool)
      requires Valid() && IsInside(at, cols, rows) && (!ZeroDefault(c) ==> n.values[0] >= 1 && n.values[1] >= 1)
      modifies `calls
      ensures Valid()
      ensures !handled ==> calls == old(calls)
      ensures handled ==> !ZeroDefault(c) && calls == old(calls) + MoveCalls(c, at, n.values)
      ensures handled <==> c == 'd' || c == 'G' || c == '`' || c == 'H' || c == 'f'
    {
      handled := true;
      if c == 'd' {
        var y := AbsoluteRow(n.values[0]);
        SetCursor(at.x, y);
      } else if c == 'G' || c == '`' {
        SetCursor(ZeroBased(n.values[0], cols), at.y);
      } else if c == 'H' || c == 'f' {
        var y := AbsoluteRow(n.values[0]);
        SetCursor(ZeroBased(n.values[1], cols), y);
      } else {
        handled := false;
      }
    }

    /** Every command that moves the cursor. */
    method Move(c: Byte, at: Cell)
      requires Valid() && IsInside(at, cols, rows) && IsMove(c) && n.values[0] >= 1 && n.values[1] >= 1
      modifies `n, `calls
      ensures Valid() && calls == old(calls) + MoveCalls(c, at, old(n).values)
    {
      var handled := RelativeMove(c, at);
      if !handled {
        handled := AbsoluteMove(c, at);
      }
    }

    // ---- Control sequences: editing

    /** Blanks whole rows. */
    method FillRows(first: nat, end: nat)
      requires first <= end <= rows && cols > 0 && Clean(calls, history.since, cols, rows)
      modifies `calls
      ensures calls == old(calls) + RowFills(first, end, cols) && Clean(calls, history.since, cols, rows)
    {
      for y := first to end
        invariant Clean(calls, history.since, cols, rows) && calls == old(calls) + RowFills(first, y, cols)
      {
        FillFrom(0, y, cols);
      }
    }

    /** CSI 0 J. */
    method EraseToEnd(at: Cell)
      requires Valid() && IsInside(at, cols, rows)
      modifies `calls
      ensures Valid() && calls == old(calls) + EraseBelow(at, cols, rows)
    {
      FillFrom(at.x, at.y, cols - at.x);
      FillRows(at.y + 1, rows);
      SetCursor(at.x, at.y);
    }

    /** CSI 1 J. */
    method EraseFromStart(at: Cell)
      requires Valid() && IsInside(at, cols, rows)
      modifies `calls
      ensures Valid() && calls == old(calls) + EraseAbove(at, cols)
    {
      FillRows(0, at.y);
      FillFrom(0, at.y, at.x + 1);
      SetCursor(at.x, at.y);
    }

    /** CSI J: below, above, or everything. */
    method EraseDisplay(at: Cell)
      requires Valid() && IsInside(at, cols, rows)
      modifies `calls
      ensures Valid() && calls == old(calls) + EditCalls('J', Reports(at, at, []), n.values, cols, rows)
    {
      if n.values[0] == 0 {
        EraseToEnd(at);
      } else if n.values[0] == 1 {
        EraseFromStart(at);
      } else if n.values[0] == 2 || n.values[0] == 3 {
        Record(Clear(false));
      }
    }

    /** CSI K: to the end of the line, from its start, or all of it. */
    method EraseLine(at: Cell)
      requires Valid() && IsInside(at, cols, rows)
      modifies `calls
      ensures Valid() && calls == old(calls) + EraseRow(n.values[0], at, cols)
    {
      if n.values[0] == 0 {
        FillFrom(at.x, at.y, cols - at.x);
        SetCursor(at.x, at.y);
      } else if n.values[0] == 1 {
        FillFrom(0, at.y, at.x + 1);
        SetCursor(at.x, at.y);
      } else if n.values[0] == 2 {
        FillFrom(0, at.y, cols);
        SetCursor(at.x, at.y);
      }
    }

    /** Moves the rest of the row, from the right end, `count` columns to the right. */
    method ShiftRight(at: Cell, count: nat)
      requires IsInside(at, cols, rows) && 0 < count <= cols - at.x && Clean(calls, history.since, cols, rows)
      modifies `calls
      ensures Clean(calls, history.since, cols, rows)
      ensures calls == old(calls) + ShiftsRight(at.x + count, at.y, count, cols)
    {
      var i := cols - 1;
      while i >= at.x + count
        invariant at.x + count - 1 <= i < cols && Clean(calls, history.since, cols, rows)
        invariant calls == old(calls) + ShiftsRight(i + 1, at.y, count, cols)
        decreases i
      {
        MoveCharacter(i, at.y, i - count, at.y);
        i := i - 1;
      }
    }

    /** CSI @. */
    method InsertBlanks(at: Cell)
      requires Valid() && IsInside(at, cols, rows)
      modifies `calls
      ensures Valid() && calls == old(calls) + EditCalls('@', Reports(at, at, []), n.values, cols, rows)
    {
      var count := n.values[0];
      if count == 0 {
        return;
      }
      if count > cols - at.x {
        count := cols - at.x;
      }
      ShiftRight(at, count);
      FillFrom(at.x, at.y, count);
      SetCursor(at.x, at.y);
    }

    /** Moves the rest of the row, from the left end, over `count` columns. */
    method ShiftLeft(at: Cell, count: nat)
      requires IsInside(at, cols, rows) && count <= cols - at.x && Clean(calls, history.since, cols, rows)
      modifies `calls
      ensures calls == old(calls) + ShiftsLeft(at.x, at.y, count, cols) && Clean(calls, history.since, cols, rows)
    {
      for i := at.x + count to cols
        invariant Clean(calls, history.since, cols, rows) && calls == old(calls) + ShiftsLeft(at.x, at.y, count, i)
      {
        MoveCharacter(i - count, at.y, i, at.y);
      }
    }

    /** CSI P, which goes on as CSI X; `here` is the cursor reported then. */
    method DeleteCharacters(at: Cell) returns (ghost here: Cell)
      requires Valid() && IsInside(at, cols, rows) && n.values[0] >= 1
      modifies `n, `calls
      ensures Valid() && n == old(n).(values := n.values) && IsInside(here, cols, rows)
      ensures calls == old(calls) + Delete(at, here, Min(old(n).values[0], cols - at.x), cols)
    {
      var v := AtMost(cols - at.x);
      ShiftLeft(at, v);
      SetCursor(cols - v, at.y);
      here := EraseCharacters(at);
    }

    /** CSI X; `here` is the cursor that the backend reports. */
    method EraseCharacters(at: Cell) returns (ghost here: Cell)
      requires Valid() && IsInside(at, cols, rows)
      modifies `calls
      ensures Valid() && IsInside(here, cols, rows) && calls == old(calls) + Overwrite(here, n.values[0], cols, at)
    {
      var cursor := GetCursor();
      here := cursor;
      var remaining := cols - cursor.x;
      FillFrom(cursor.x, cursor.y, if n.values[0] > remaining then remaining else n.values[0]);
      SetCursor(at.x, at.y);
    }

    /** CSI b: repeats the last graphic character, making room for it in insert mode. */
    method Repeat() returns (ghost again: seq<Cell>)
      requires Valid() && lastWasGraphic
      modifies `calls
      ensures Valid() && |again| == Min(n.values[0], cols) && Reports(Cell(0, 0), Cell(0, 0), again).Inside(cols, rows)
      ensures calls == old(calls) + Repeats(again, s.insertMode, lastPrinted, cols)
    {
      again := [];
      var count := if n.values[0] > cols then cols else n.values[0];
      for i := 0 to count
        invariant Clean(calls, history.since, cols, rows)
        invariant |again| == i && (forall j :: 0 <= j < i ==> IsInside(again[j], cols, rows))
        invariant calls == old(calls) + Repeats(again, s.insertMode, lastPrinted, cols)
      {
        ghost var before := again;
        ghost var at := RepeatOne();
        again := again + [at];
        assert again[..i] == before;
      }
    }

    method RepeatOne() returns (ghost at: Cell)
      requires cols > 0 && rows > 0 && Clean(calls, history.since, cols, rows)
      modifies `calls
      ensures Clean(calls, history.since, cols, rows) && IsInside(at, cols, rows)
      ensures calls == old(calls) + RepeatOnce(at, s.insertMode, lastPrinted, cols)
    {
      var here := GetCursor();
      at := here;
      if s.insertMode {
        ShiftRight(here, 1);
      }
      Record(Put(lastPrinted, 1));
    }

    // ---- Control sequences: margins and modes

    /** CSI r: the margins become the requested ones if those fit, and the whole screen if they do not. */
    method SetMargins()
      requires Valid() && n.values[0] >= 1 && n.values[1] >= 1
      modifies `s, `calls
      ensures Valid() && s == WithMargins(old(s), n.values, n.count, rows)
      ensures var top, bottom := if n.count > 0 then n.values[0] - 1 else 0, if n.count > 1 then n.values[1] else rows;
              if top + 1 < bottom <= rows then s.top == top && s.bottom == bottom else s.top == 0 && s.bottom == rows
      ensures calls == old(calls) + [Goto(0, if s.originMode then s.top else 0)]
    {
      var top, bottom := 0, rows;
      if n.count > 0 {
        top := n.values[0] - 1;
      }
      if n.count > 1 {
        bottom := n.values[1];
      }
      if top >= rows || bottom > rows || top >= bottom - 1 {
        top, bottom := 0, rows;
      }
      s := s.(top := top, bottom := bottom);
      SetCursor(0, if s.originMode then s.top else 0);
    }

    /** save_state. */
    method SaveState()
      requires Bounded()
      modifies `s, `k, `calls, `history
      ensures Valid() && Now() == SavedShot(old(Now()))
    {
      calls := calls + [Save];
      s := s.(savedOriginMode := s.originMode);
      k := k.(savedSets := k.sets, savedCurrent := k.current);
      history := History(|calls|, ModesOf(Now()));
    }

    /** restore_state: the modes become those of the last save, whatever has been written since. */
    method RestoreState()
      requires Valid()
      modifies `s, `k, `calls
      ensures Valid() && Now() == RestoredShot(old(Now())) && ModesOf(Now()) == history.last
    {
      Record(Restore);
      s := s.(originMode := s.savedOriginMode);
      k := k.(sets := k.savedSets, current := k.savedCurrent);
    }

    /** One private mode. */
    method SetPrivate(v: nat, on: bool)
      requires Valid()
      modifies `s, `f, `k, `calls, `history
      ensures Valid() && Now() == PrivateOne(old(Now()), v, on) && history.Since(old(history)) && old(calls) <= calls
    {
      if v == 6 {
        s := s.(originMode := on);
        SetCursor(0, if on then s.top else 0);
      } else if v == 7 {
        f := f.(wrap := on);
      } else if v == 1049 {
        SwitchScreen(on);
      }
    }

    /** Entering the alternate screen saves the modes, leaving it restores them; both clear. */
    method SwitchScreen(on: bool)
      requires Valid()
      modifies `s, `k, `calls, `history
      ensures Valid() && history.Since(old(history))
      ensures Now() == if on then SavedShot(old(Now())).Plus([Clear(true)])
                       else RestoredShot(old(Now()).Plus([Clear(true)]))
    {
      if on {
        SaveState();
      }
      Record(Clear(true));
      if !on {
        RestoreState();
      }
    }

    /** All the private modes that were given, in order. */
    method SetModes(on: bool)
      requires Valid()
      modifies `s, `f, `k, `calls, `history
      ensures Valid() && history.Since(old(history)) && old(calls) <= calls
      ensures Now() == PrivateAll(old(Now()), n.values[..n.count], on)
    {
      for i := 0 to n.count
        invariant Valid() && history.Since(old(history)) && old(calls) <= calls
        invariant Now() == PrivateAll(old(Now()), n.values[..i], on)
      {
        assert n.values[..i + 1][..i] == n.values[..i];
        SetPrivate(n.values[i], on);
      }
    }

    /** dec_private_parse. */
    method DecPrivate(c: Byte)
      requires Valid()
      modifies `p, `s, `f, `k, `calls, `history
      ensures Valid() && history.Since(old(history)) && old(calls) <= calls
      ensures var start := old(Now()).(p := old(p).(decPrivate := false));
              Now() == if c == 'h' || c == 'l' then PrivateAll(start, n.values[..n.count], c == 'h') else start
    {
      p := p.(decPrivate := false);
      if n.count != 0 && (c == 'h' || c == 'l') {
        SetModes(c == 'h');
      }
    }

    /** CSI M, L scroll within margins narrowed to the cursor's row; the margins come back afterwards. */
    method ScrollFromRow(at: Cell, up: bool)
      requires Valid() && IsInside(at, cols, rows)
      modifies `s, `calls
      ensures Valid() && s == old(s)
      ensures calls == old(calls) + ScrollCalls(if up then 'M' else 'L', at, n.values, s)
    {
      if at.y < s.top || at.y >= s.bottom {
        return;
      }
      var top := s.top;
      s := s.(top := at.y);
      var maxCount := s.bottom - at.y;
      Scroll(up, s.top, s.bottom, if n.values[0] > maxCount then maxCount else n.values[0]);
      s := s.(top := top);
    }

    /** The commands that edit the screen. */
    method EditCommand(c: Byte, at: Cell) returns (ghost here: Cell)
      requires Valid() && IsInside(at, cols, rows) && ArgumentsFit(c, n.values) && IsEdit(c)
      modifies `n, `calls
      ensures Valid() && n == old(n).(values := n.values) && IsInside(here, cols, rows)
      ensures calls == old(calls) + EditCalls(c, Reports(at, here, []), old(n).values, cols, rows)
    {
      here := at;
      if c == 'J' {
        EraseDisplay(at);
      } else if c == 'K' {
        EraseLine(at);
      } else if c == '@' {
        InsertBlanks(at);
      } else if c == 'P' {
        here := DeleteCharacters(at);
      } else {
        here := EraseCharacters(at);
      }
    }

    method ScrollCommand(c: Byte, at: Cell)
      requires Valid() && IsInside(at, cols, rows) && IsScroll(c)
      modifies `s, `calls
      ensures Valid() && s == old(s) && calls == old(calls) + ScrollCalls(c, at, n.values, s)
    {
      if c == 'M' || c == 'L' {
        ScrollFromRow(at, c == 'M');
      } else {
        var region := s.bottom - s.top;
        Scroll(c == 'S', s.top, s.bottom, if n.values[0] > region then region else n.values[0]);
      }
    }

    /** The remaining commands. */
    method OtherCommand(c: Byte, at: Cell) returns (ghost r: Reports)
      requires Valid() && IsInside(at, cols, rows) && ArgumentsFit(c, n.values) && !IsMove(c) && !IsEdit(c)
      requires !IsScroll(c)
      modifies `s, `calls
      ensures Valid() && r.at == at && Enough(c, r, n.values, cols, rows)
      ensures s == CommandScreen(c, r, n.values, n.count, old(s), rows)
      ensures calls == old(calls) + CommandCalls(c, r, n.values, n.count, old(s), old(Now()).Last(), cols, rows)
    {
      r := Reports(at, at, []);
      if c == 's' {
        var here := GetCursor();
        r := Reports(at, here, []);
        s := s.(savedCursor := here);
      } else if c == 'u' {
        SetCursor(s.savedCursor.x, s.savedCursor.y);
      } else if c == 'r' {
        SetMargins();
      } else if c == 'b' {
        r := RepeatCommand(at);
      } else if (c == 'l' || c == 'h') && n.count > 0 && n.values[0] == 4 {
        s := s.(insertMode := c == 'h');
      }
    }

    method RepeatCommand(at: Cell) returns (ghost r: Reports)
      requires Valid() && IsInside(at, cols, rows) && ArgumentsFit('b', n.values)
      modifies `calls
      ensures Valid() && r.at == at && Enough('b', r, n.values, cols, rows)
      ensures calls == old(calls) + CommandCalls('b', r, n.values, n.count, old(s), old(Now()).Last(), cols, rows)
    {
      if lastWasGraphic {
        ghost var again := Repeat();
        r := Reports(at, at, again);
      } else {
        r := Reports(at, at, seq(Min(n.values[0], cols), _ => at));
      }
    }

    /** The command of final byte `c`, with all its effects; `at` is the cursor the backend reported. */
    method Dispatch(c: Byte, at: Cell) returns (ghost r: Reports)
      requires Valid() && ArgumentsFit(c, n.values) && IsInside(at, cols, rows)
      modifies `n, `s, `calls
      ensures Valid() && r.at == at && Enough(c, r, old(n).values, cols, rows)
      ensures s == CommandScreen(c, r, old(n).values, old(n).count, old(s), rows)
      ensures calls == old(calls) + CommandCalls(c, r, old(n).values, old(n).count, old(s), old(Now()).Last(), cols,
                                                 rows)
    {
      r := Reports(at, at, []);
      if IsMove(c) {
        Move(c, at);
      } else if IsEdit(c) {
        ghost var here := EditCommand(c, at);
        r := Reports(at, here, []);
      } else if IsScroll(c) {
        ScrollCommand(c, at);
      } else {
        r := OtherCommand(c, at);
      }
    }

    /** A final byte, or a byte that makes the sequence one to skip. ESC starts a new sequence instead. */
    method Final(c: Byte) returns (ghost r: Reports)
      requires Valid() && p.controlSequence && !p.csiUnhandled && ArgumentsFit(c, n.values)
      modifies `p, `n, `s, `f, `calls
      ensures Valid()
      ensures if c == ESC then Now() == old(Now()).(p := old(p).(controlSequence := false, offset := 0))
              else if '@' <= c <= '~' then CommandWith(old(Now()), c, r, old(n).values, old(n).count, Now(), cols, rows)
              else Now() == old(Now()).(p := old(p).(csiUnhandled := true))
    {
      var flow := f;
      var at := GetCursor();
      r := Reports(at, at, []);
      if c == ESC {
        p := p.(controlSequence := false, offset := 0);
        return;
      }
      if !('@' <= c <= '~') {
        p := p.(csiUnhandled := true);
        return;
      }
      f := Flow(false, true);
      if c == 'b' && lastWasGraphic {
        f := flow;
      }
      r := Dispatch(c, at);
      f := flow;
      p := p.Ended();
    }

    /** The byte after the numbers of a private sequence. */
    method PrivateFinal(c: Byte)
      requires Valid() && p.decPrivate && p.controlSequence
      modifies `p, `k, `s, `f, `calls, `history
      ensures Valid() && history.Since(old(history)) && old(calls) <= calls
      ensures Completed(old(Now()), c, NO_REPORTS, Now(), cols, rows)
    {
      if ' ' <= c <= '/' {
        p := p.(decPrivate := false, csiUnhandled := true);
        return;
      }
      DecPrivate(c);
      p := p.Ended();
      PrivateEnds(old(Now()), n.values[..n.count], c == 'h');
    }

    /** A byte after the numbers of a sequence that is being skipped. */
    method Skip(c: Byte)
      requires Valid() && !p.decPrivate && p.csiUnhandled && p.controlSequence
      modifies `p
      ensures Valid() && Completed(old(Now()), c, NO_REPORTS, Now(), cols, rows)
    {
      if c == ESC {
        p := p.(csiUnhandled := false, controlSequence := false, offset := 0);
      } else if '@' <= c <= '~' {
        p := p.(csiUnhandled := false).Ended();
      }
    }

    /** What the byte does once the numbers are complete. */
    method AfterNumbers(c: Byte) returns (ghost r: Reports)
      requires Valid() && p.controlSequence && ArgumentsFit(c, n.values)
      modifies `p, `n, `k, `s, `f, `calls, `history
      ensures Valid() && history.Since(old(history)) && old(calls) <= calls
      ensures Completed(old(Now()), c, r, Now(), cols, rows)
    {
      r := NO_REPORTS;
      if p.decPrivate {
        PrivateFinal(c);
      } else if p.csiUnhandled {
        Skip(c);
      } else {
        r := Final(c);
      }
    }

    /** The bytes that do not end a control sequence; false if `c` is not one of them. */
    method Collect(c: Byte) returns (consumed: bool, ghost r: Reports)
      requires Valid() && p.controlSequence
      modifies `p, `n, `k, `calls
      ensures Valid() && old(calls) <= calls && (consumed ==> CsiStep(old(Now()), c, r, Now(), cols, rows))
      ensures !consumed ==>
                && !(old(p).offset == 2 && (c == '[' || c == '?')) && !(c < ' ' && c != ESC) && !IsDigit(c) && c != ';'
                && Now() == old(Now()).(n := Closed(old(n)))
    {
      r := NO_REPORTS;
      if p.offset == 2 && c == '[' {
        p := p.(discardNext := true).Ended();
        return true, r;
      }
      if p.offset == 2 && c == '?' {
        p := p.(decPrivate := true);
        return true, r;
      }
      if c < ' ' && c != ESC {
        ghost var at := ExecuteC0(c);
        return true, Reports(at, at, []);
      }
      if '0' <= c <= '9' {
        Digit(c);
        return true, r;
      }
      consumed := Separator(c);
    }

    /** control_sequence_parse. */
    method ControlSequence(c: Byte) returns (ghost r: Reports)
      requires Valid() && p.controlSequence
      modifies `p, `n, `k, `s, `f, `calls, `history
      ensures Valid() && history.Since(old(history)) && old(calls) <= calls
      ensures CsiStep(old(Now()), c, r, Now(), cols, rows)
    {
      var consumed;
      consumed, r := Collect(c);
      if !consumed {
        FillDefaults(c);
        r := AfterNumbers(c);
      }
    }

    // ---- Escape sequences

    /** escape_parse. */
    method EscapeParse(c: Byte) returns (ghost r: Reports)
      requires Valid() && p.escape
      modifies `p, `n, `u, `k, `s, `f, `lastWasGraphic, `lastPrinted, `calls, `history
      ensures Valid() && history.Since(old(history)) && u.remaining == 0 && old(calls) <= calls
      ensures EscapeStep(old(Now()).Next(), c, r, Now(), cols, rows)
    {
      p := p.(offset := p.offset + 1);
      r := NO_REPORTS;
      if p.osc {
        var consumed := OscByte(c);
        if consumed {
          return;
        }
      }
      r := EscapeByte(c);
    }

    /** A byte of a control sequence, or the one after ESC. */
    method EscapeByte(c: Byte) returns (ghost r: Reports)
      requires Valid() && p.escape && !p.osc
      modifies `p, `n, `u, `k, `s, `f, `lastWasGraphic, `lastPrinted, `calls, `history
      ensures Valid() && history.Since(old(history)) && u.remaining == 0 && old(calls) <= calls
      ensures if old(p).controlSequence then CsiStep(old(Now()), c, r, Now(), cols, rows)
              else SimpleStep(old(Now()), c, r, Now(), cols, rows)
    {
      if p.controlSequence {
        r := ControlSequence(c);
      } else {
        r := AfterEscape(c);
      }
    }

    /** The byte after ESC. */
    method AfterEscape(c: Byte) returns (ghost r: Reports)
      requires Valid() && p.escape && !p.osc && !p.controlSequence
      modifies `p, `n, `u, `k, `s, `f, `lastWasGraphic, `lastPrinted, `calls, `history
      ensures Valid() && history.Since(old(history)) && u.remaining == 0 && old(calls) <= calls
      ensures SimpleStep(old(Now()), c, r, Now(), cols, rows)
    {
      r := NO_REPORTS;
      if c == ESC {
        p := p.(offset := 0);
      } else if c == ']' {
        p := p.(oscEscape := false, osc := true, oscCount := 0);
      } else if c == '[' {
        n := NoNumbers();
        p := p.(csiUnhandled := false, controlSequence := true);
      } else {
        r := SimpleEscape(c);
        p := p.(escape := false);
      }
    }

    /** The two-byte sequences. */
    method SimpleEscape(c: Byte) returns (ghost r: Reports)
      requires Valid() && p.escape && !p.osc && !p.controlSequence && c != ESC && c != ']' && c != '['
      modifies `p, `n, `u, `k, `s, `f, `lastWasGraphic, `lastPrinted, `calls, `history
      ensures Valid() && !p.osc && !p.controlSequence && u.remaining == 0 && history.Since(old(history))
      ensures old(calls) <= calls
      ensures SimpleStep(old(Now()), c, r, Now().Over(), cols, rows) && (c != 'c' ==> p == old(p))
    {
      r := NO_REPORTS;
      if c == '7' {
        SaveState();
      } else if c == '8' {
        RestoreState();
      } else if c == 'c' {
        Reinit();
        Record(Clear(true));
        SaveState();
      } else if c == '(' || c == ')' {
        k := k.(select := c as int - '\'' as int);
      } else {
        ghost var at := LineEscape(c);
        r := Reports(at, at, []);
      }
    }

    /** ESC D, E and M. */
    method LineEscape(c: Byte) returns (ghost at: Cell)
      requires Valid()
      modifies `calls
      ensures Valid() && IsInside(at, cols, rows) && calls == old(calls) + LineCalls(c, at, s, rows)
    {
      var here := GetCursor();
      at := here;
      if c == 'D' {
        NextLine(here, here.x);
      } else if c == 'E' {
        if here.y != s.bottom - 1 && here.y >= rows - 1 {
          SetCursor(0, here.y);
        } else {
          NextLine(here, 0);
        }
      } else if c == 'M' {
        if here.y == s.top {
          Record(ScrollDown(s.top, s.bottom));
          SetCursor(here.x, here.y);
        } else if here.y > 0 {
          SetCursor(here.x, here.y - 1);
        }
      }
    }

    // ---- One byte

    /** insert_shift. */
    method InsertShift(count: nat) returns (ghost at: Cell)
      requires Valid()
      modifies `calls
      ensures Valid() && IsInside(at, cols, rows) && calls == old(calls) + RoomCalls(s, at, count, cols)
    {
      var here := GetCursor();
      at := here;
      if s.insertMode && count > 0 {
        ShiftRight(here, if count > cols - here.x then cols - here.x else count);
      }
    }

    /** Makes room for some text and prints it; `code` is remembered as the character printed. */
    method ShowText(text: seq<nat>) returns (ghost r: Reports)
      requires Valid() && text != []
      modifies `lastWasGraphic, `lastPrinted, `calls, `printed
      ensures Valid() && printed == old(printed) + text && TextStep(old(Now()), text, r, Now(), cols, rows)
    {
      ghost var at := InsertShift(|text|);
      lastPrinted, lastWasGraphic := text[0], true;
      Print(text);
      r := Reports(at, at, []);
    }

    /** A continuation byte of a UTF-8 sequence; `g` is what the font has for the code point it completes. */
    method Continuation(c: Byte, g: Glyph) returns (surrogate: bool, ghost r: Reports)
      requires Valid() && u.remaining > 0 && IsContinuation(c)
      modifies `u, `lastWasGraphic, `lastPrinted, `calls, `printed
      ensures Valid() && u == Step(old(u), c)
      ensures surrogate <==> u.remaining == 0 && IsSurrogate(u.codePoint)
      ensures printed == old(printed) + if surrogate then [] else Prints(old(u), c, g)
      ensures if surrogate || Prints(old(u), c, g) == [] then Now() == old(Now())
              else TextStep(old(Now()), Prints(old(u), c, g), r, Now(), cols, rows)
    {
      r := NO_REPORTS;
      u := Continue(u, c);
      if u.codePoint > 0x10FFFF {
        return false, r;
      }
      if Bad(u) {
        r := ShowText([REPLACEMENT]);
        u := u.(codePoint := UINT64_MAX);
        return false, r;
      }
      if u.remaining != 0 {
        return false, r;
      }
      if 0xD800 <= u.codePoint <= 0xDFFF {
        return true, r;
      }
      if GlyphText(g) != [] {
        r := ShowText(GlyphText(g));
      }
      surrogate := false;
    }

    /** A surrogate's last byte is printed like any other byte that is not a character. */
    method Surrogate(c: Byte) returns (ghost r: Reports)
      requires Valid() && u.remaining == 0 && !p.escape && k.select == 0 && IsContinuation(c)
      modifies `p, `u, `k, `lastWasGraphic, `lastPrinted, `calls, `printed
      ensures Valid() && u == old(u) && printed == old(printed) + [REPLACEMENT] && old(calls) <= calls
      ensures TextStep(old(Now()), [REPLACEMENT], r, Now(), cols, rows)
    {
      r := Unescaped(c);
    }

    /** A continuation byte. */
    method ContinueSequence(c: Byte, g: Glyph) returns (ghost r: Reports)
      requires Valid() && u.remaining > 0 && !p.escape && !p.discardNext && IsContinuation(c)
      modifies this
      ensures Valid() && history == old(history) && u == Step(old(u), c) && old(calls) <= calls
      ensures printed == old(printed) + Prints(old(u), c, g)
      ensures ContinueStep(old(Now()), Prints(old(u), c, g), r, Now(), cols, rows)
    {
      var surrogate;
      surrogate, r := Continuation(c, g);
      if surrogate {
        r := Surrogate(c);
      }
    }

    /** Any other byte while continuation bytes are still missing. */
    method InterruptSequence(c: Byte) returns (ghost r: Reports)
      requires Valid() && u.remaining > 0 && !p.escape && !p.discardNext && !IsContinuation(c)
      modifies this
      ensures Valid() && history == old(history) && old(calls) <= calls
      ensures u == if IsLead(c) then Lead(c) else Pending(0, 0)
      ensures printed == old(printed) + CutText(old(u)) + SettledText(old(p), old(k), c)
      ensures InterruptStep(old(Now()), old(u), c, r, Now(), cols, rows)
    {
      ghost var at := Abandon();
      r := Unescaped(c);
      r := Reports(r.at, at, []);
    }

    /** The sequence is given up; a replacement is printed for it unless there already was one. */
    method Abandon() returns (ghost at: Cell)
      requires Valid() && u.remaining > 0 && !p.escape
      modifies `u, `calls, `printed
      ensures Valid() && IsInside(at, cols, rows) && u == Pending(0, 0)
      ensures printed == old(printed) + CutText(old(u)) && Now() == old(Now()).Plus(CutCalls(old(u), s, at, cols))
    {
      var errored := u.codePoint > 0x10FFFF;
      u := Pending(0, 0);
      at := Cell(0, 0);
      if !errored {
        at := InsertShift(1);
        Print([REPLACEMENT]);
      }
    }

    /** CAN, SUB and the byte after CSI [ end every sequence; whether it was a private one is not forgotten. */
    method Cancel()
      requires Valid()
      modifies `p, `u, `k, `lastWasGraphic
      ensures Valid() && AtRest() && Now() == old(Now()).Cancelled()
    {
      p := p.(discardNext := false, escape := false, controlSequence := false, osc := false, oscEscape := false);
      u := u.(remaining := 0);
      k := k.(select := 0);
      lastWasGraphic := false;
    }

    /** A byte outside escape sequences that does not continue a character. */
    method Unescaped(c: Byte) returns (ghost r: Reports)
      requires Valid() && u.remaining == 0 && !p.escape
      modifies `p, `u, `k, `lastWasGraphic, `lastPrinted, `calls, `printed
      ensures Valid() && printed == old(printed) + SettledText(old(p), old(k), c)
      ensures PlainStep(old(Now()), c, r, Now(), cols, rows) && old(calls) <= calls
      ensures u == if IsLead(c) then Lead(c) else old(u)
    {
      r := NO_REPORTS;
      if IsLead(c) {
        k := k.(select := 0);
        u := Lead(c);
        return;
      }
      var selected := SelectCharset(c);
      if !selected {
        r := Plain(c);
      }
    }

    /** A byte while continuation bytes are missing. */
    method Multibyte(c: Byte, g: Glyph) returns (ghost r: Reports)
      requires Valid() && !Cancels(p, c) && !p.escape && u.remaining != 0
      modifies this
      ensures Valid() && history == old(history) && old(calls) <= calls
      ensures printed == old(printed) + TextOf(old(p), old(u), old(k), c, g)
      ensures ByteStep(old(Now()), old(u), c, g, r, Now(), cols, rows)
      ensures PendingAfter(old(p), old(u), c, u)
    {
      if IsContinuation(c) {
        r := ContinueSequence(c, g);
      } else {
        r := InterruptSequence(c);
      }
    }

    /** A byte outside multibyte sequences. */
    method Single(c: Byte, ghost g: Glyph) returns (ghost r: Reports)
      requires Valid() && !Cancels(p, c) && u.remaining == 0
      modifies this
      ensures Valid() && history.Since(old(history)) && old(calls) <= calls
      ensures printed == old(printed) + TextOf(old(p), old(u), old(k), c, g)
      ensures ByteStep(old(Now()), old(u), c, g, r, Now(), cols, rows)
      ensures PendingAfter(old(p), old(u), c, u)
    {
      if p.escape {
        r := EscapeParse(c);
      } else {
        r := Unescaped(c);
      }
    }

    /** flanterm_putchar: what a byte prints and does, in every state. */
    method Putchar(c: Byte, g: Glyph) returns (ghost r: Reports)
      requires Valid()
      modifies this
      ensures Valid() && history.Since(old(history)) && old(calls) <= calls
      ensures printed == old(printed) + TextOf(old(p), old(u), old(k), c, g)
      ensures ByteStep(old(Now()), old(u), c, g, r, Now(), cols, rows)
      ensures PendingAfter(old(p), old(u), c, u)
    {
      if p.discardNext || c == '\U{18}' || c == '\U{1A}' {
        Cancel();
        r := NO_REPORTS;
      } else if !p.escape && u.remaining != 0 {
        r := Multibyte(c, g);
      } else {
        r := Single(c, g);
      }
    }

    /** The byte after ESC ( or ESC ) names the character set; true if it was taken as that name. */
    method SelectCharset(c: Byte) returns (selected: bool)
      requires Valid()
      modifies `k
      ensures Valid() && (selected <==> old(k).select != 0 && !IsControl(c))
      ensures k == if selected then Selected(old(k), c) else old(k).(select := 0)
    {
      if k.select == 0 {
        return false;
      }
      if c <= '\U{1F}' || c == '\U{7F}' {
        k := k.(select := 0);
        return false;
      }
      var i := k.select - 1;
      if c == 'B' {
        k := k.(sets := k.sets[i := 0]);
      } else if c == '0' {
        k := k.(sets := k.sets[i := 1]);
      }
      k := k.(select := 0);
      selected := true;
    }

    /** A byte outside every sequence. */
    method Plain(c: Byte) returns (ghost r: Reports)
      requires Valid() && !p.escape && u.remaining == 0 && k.select == 0 && !IsLead(c)
      modifies `p, `k, `lastWasGraphic, `lastPrinted, `calls, `printed
      ensures Valid() && PlainStep(old(Now()), c, r, Now(), cols, rows)
      ensures printed == old(printed) + PlainText(old(k).sets[old(k).current] == 1, c)
    {
      if (c <= '\U{1F}' && c != ESC) || c == '\U{7F}' {
        lastWasGraphic := false;
      }
      if c == ESC {
        p := p.(offset := 0, escape := true);
        r := NO_REPORTS;
        return;
      }
      if c < ' ' || c == '\U{7F}' {
        ghost var at := ExecuteC0(c);
        r := Reports(at, at, []);
        return;
      }
      r := ShowText(PlainText(k.sets[k.current] == 1, c));
    }

    /**
     flanterm_write: whatever the bytes, and whatever in-grid cursors the backend reports, all bounds
     hold after each of them, and every coordinate ever given to the backend is inside the grid.
     */
    method Write(bytes: seq<Byte>, glyphs: seq<Glyph>)
      requires Valid() && |glyphs| == |bytes|
      modifies this
      ensures Valid() && history.Since(old(history))
      ensures n.count <= MAX_ESC_VALUES && (n.open ==> n.count < MAX_ESC_VALUES) && p.oscCount <= OSC_BUFFER
      ensures s.top < s.bottom <= rows && k.current < 2 && k.select <= 2
      ensures forall i :: 0 <= i < |calls| ==> CallInside(calls[i], cols, rows)
      ensures old(calls) <= calls
    {
      for i := 0 to |bytes|
        invariant Valid() && history.Since(old(history)) && old(calls) <= calls
      {
        ghost var _ := Putchar(bytes[i], glyphs[i]);
      }
    }
  }
}
