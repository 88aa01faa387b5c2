/**
 What the calls of the terminal make of the screen, as the framebuffer backend carries them out: a
 grid of characters and a cursor that may stand one column behind the end of a row.
 */
module Picture {
  const BLANK: nat := 0x20

  datatype Cell = Cell(x: nat, y: nat)

  /** The backend's operations. Scrolling moves the rows from `top` to below `bottom`. */
  datatype Call =
    | Goto(x: nat, y: nat)
    | Copy(to: Cell, from: Cell)
    | Put(code: nat, count: nat)
    | ScrollUp(top: nat, bottom: nat)
    | ScrollDown(top: nat, bottom: nat)
    | Clear(home: bool)
    | Save
    | Restore

  predicate IsInside(c: Cell, cols: nat, rows: nat) {
    c.x < cols && c.y < rows
  }

  /** Every coordinate of the call lies in the grid. */
  ghost predicate CallInside(call: Call, cols: nat, rows: nat) {
    match call
    case Goto(x, y) => x < cols && y < rows
    case Copy(to, from) => IsInside(to, cols, rows) && IsInside(from, cols, rows)
    case ScrollUp(top, bottom) => top < bottom <= rows
    case ScrollDown(top, bottom) => top < bottom <= rows
    case _ => true
  }

  ghost predicate AllInside(calls: seq<Call>, cols: nat, rows: nat) {
    forall i :: 0 <= i < |calls| ==> CallInside(calls[i], cols, rows)
  }

  /** Moreover, the state of the backend was last saved before call number `since`. */
  ghost predicate Clean(calls: seq<Call>, since: nat, cols: nat, rows: nat) {
    since <= |calls| && forall i :: 0 <= i < |calls| ==>
      CallInside(calls[i], cols, rows) && (calls[i].Save? ==> i < since)
  }

  // ---- The screen after a sequence of calls

  /** The characters, the cursor, the saved one, and whether nothing was written behind the end of a row. */
  datatype View = View(look: Look, at: Cell, saved: Cell, within: bool)

  type Look = Cell -> nat

  ghost function AfterCopy(look: Look, to: Cell, from: Cell): Look {
    (c: Cell) => look(if c == to then from else c)
  }

  ghost function AfterPut(look: Look, at: Cell, code: nat, count: nat): Look {
    (c: Cell) => if c.y == at.y && at.x <= c.x < at.x + count then code else look(c)
  }

  ghost function AfterScrollUp(look: Look, top: nat, bottom: nat): Look {
    (c: Cell) => UpAt(look, top, bottom, c)
  }

  ghost function UpAt(look: Look, top: nat, bottom: nat, c: Cell): nat {
    if !(top <= c.y < bottom) then look(c) else if c.y == bottom - 1 then BLANK else look(Cell(c.x, c.y + 1))
  }

  ghost function AfterScrollDown(look: Look, top: nat, bottom: nat): Look {
    (c: Cell) => DownAt(look, top, bottom, c)
  }

  ghost function DownAt(look: Look, top: nat, bottom: nat, c: Cell): nat {
    if !(top <= c.y < bottom) then look(c) else if c.y == top then BLANK else look(Cell(c.x, c.y - 1))
  }

  ghost function Draw(v: View, call: Call, cols: nat): View {
    match call
    case Goto(x, y) => v.(at := Cell(x, y))
    case Copy(to, from) => v.(look := AfterCopy(v.look, to, from))
    case Put(code, count) =>
      v.(look := AfterPut(v.look, v.at, code, count), at := Cell(v.at.x + count, v.at.y),
         within := v.within && v.at.x + count <= cols)
    case ScrollUp(top, bottom) => v.(look := AfterScrollUp(v.look, top, bottom))
    case ScrollDown(top, bottom) => v.(look := AfterScrollDown(v.look, top, bottom))
    case Clear(home) => v.(look := (c: Cell) => BLANK, at := if home then Cell(0, 0) else v.at)
    case Save => v.(saved := v.at)
    case Restore => v.(at := v.saved)
  }

  ghost function DrawAll(v: View, calls: seq<Call>, cols: nat): View
    decreases |calls|
  {
    if calls == [] then v else DrawAll(Draw(v, calls[0], cols), calls[1..], cols)
  }

  lemma {:induction false} DrawBoth(v: View, a: seq<Call>, b: seq<Call>, cols: nat)
    ensures DrawAll(v, a + b, cols) == DrawAll(DrawAll(v, a, cols), b, cols)
    decreases |a|
  {
    if a == [] {
      assert a + b == b;
    } else {
      assert (a + b)[1..] == a[1..] + b;
      DrawBoth(Draw(v, a[0], cols), a[1..], b, cols);
    }
  }

  lemma DrawOne(v: View, call: Call, cols: nat)
    ensures DrawAll(v, [call], cols) == Draw(v, call, cols)
  {
    assert DrawAll(Draw(v, call, cols), [], cols) == Draw(v, call, cols);
  }

  lemma {:induction false} SavedStays(v: View, calls: seq<Call>, cols: nat)
    requires Save !in calls
    ensures DrawAll(v, calls, cols).saved == v.saved
    decreases |calls|
  {
    if calls != [] {
      assert forall c :: c in calls[1..] ==> c in calls;
      SavedStays(Draw(v, calls[0], cols), calls[1..], cols);
    }
  }

  /** Whatever is drawn between saving and restoring, the cursor comes back, unless it is saved again. */
  lemma CursorRestored(v: View, calls: seq<Call>, cols: nat)
    requires Save !in calls
    ensures DrawAll(v, [Save] + calls + [Restore], cols).at == v.at
  {
    var w := Draw(v, Save, cols);
    DrawBoth(v, [Save] + calls, [Restore], cols);
    DrawBoth(v, [Save], calls, cols);
    DrawOne(v, Save, cols);
    SavedStays(w, calls, cols);
    DrawOne(DrawAll(w, calls, cols), Restore, cols);
  }

  /** Go to (x, y) and put `count` blanks. */
  ghost function Fill(x: nat, y: nat, count: nat): seq<Call> {
    [Goto(x, y)] + [Put(BLANK, count)]
  }

  lemma Filled(v: View, x: nat, y: nat, count: nat, cols: nat, c: Cell)
    requires x + count <= cols
    ensures var w := DrawAll(v, Fill(x, y, count), cols);
            && w.look(c) == (if c.y == y && x <= c.x < x + count then BLANK else v.look(c))
            && w.at == Cell(x + count, y) && w.within == v.within
  {
    DrawBoth(v, [Goto(x, y)], [Put(BLANK, count)], cols);
    DrawOne(v, Goto(x, y), cols);
    DrawOne(Draw(v, Goto(x, y), cols), Put(BLANK, count), cols);
  }

  lemma WentTo(v: View, calls: seq<Call>, x: nat, y: nat, cols: nat)
    ensures DrawAll(v, calls + [Goto(x, y)], cols) == DrawAll(v, calls, cols).(at := Cell(x, y))
  {
    DrawBoth(v, calls, [Goto(x, y)], cols);
    DrawOne(DrawAll(v, calls, cols), Goto(x, y), cols);
  }

  // ---- Erasing

  /** Whole rows from `first` to below `end`, top to bottom. */
  ghost function RowFills(first: nat, end: nat, cols: nat): seq<Call>
    decreases end
  {
    if end <= first then [] else RowFills(first, end - 1, cols) + Fill(0, end - 1, cols)
  }

  lemma {:induction false} RowsFilled(v: View, first: nat, end: nat, cols: nat, c: Cell)
    requires c.x < cols
    ensures var w := DrawAll(v, RowFills(first, end, cols), cols);
            w.look(c) == (if first <= c.y < end then BLANK else v.look(c)) && w.within == v.within
    decreases end
  {
    if first < end {
      RowsFilled(v, first, end - 1, cols, c);
      DrawBoth(v, RowFills(first, end - 1, cols), Fill(0, end - 1, cols), cols);
      Filled(DrawAll(v, RowFills(first, end - 1, cols), cols), 0, end - 1, cols, cols, c);
    }
  }

  /** CSI 0 J and CSI 1 J. */
  ghost function EraseBelow(at: Cell, cols: nat, rows: nat): seq<Call>
    requires at.x < cols
  {
    Fill(at.x, at.y, cols - at.x) + RowFills(at.y + 1, rows, cols) + [Goto(at.x, at.y)]
  }

  ghost function EraseAbove(at: Cell, cols: nat): seq<Call> {
    RowFills(0, at.y, cols) + Fill(0, at.y, at.x + 1) + [Goto(at.x, at.y)]
  }

  /** Erasing below blanks exactly the cells from the cursor on, in reading order, and leaves the cursor alone. */
  lemma BelowIsErased(v: View, cols: nat, rows: nat, c: Cell)
    requires IsInside(v.at, cols, rows) && IsInside(c, cols, rows)
    ensures var w := DrawAll(v, EraseBelow(v.at, cols, rows), cols);
            && w.look(c) == (if c.y > v.at.y || (c.y == v.at.y && c.x >= v.at.x) then BLANK else v.look(c))
            && w.at == v.at && w.within == v.within
  {
    var at := v.at;
    var a, b := Fill(at.x, at.y, cols - at.x), RowFills(at.y + 1, rows, cols);
    WentTo(v, a + b, at.x, at.y, cols);
    DrawBoth(v, a, b, cols);
    Filled(v, at.x, at.y, cols - at.x, cols, c);
    RowsFilled(DrawAll(v, a, cols), at.y + 1, rows, cols, c);
  }

  /** Erasing above blanks exactly the cells up to and including the cursor's. */
  lemma AboveIsErased(v: View, cols: nat, c: Cell)
    requires v.at.x < cols && c.x < cols
    ensures var w := DrawAll(v, EraseAbove(v.at, cols), cols);
            && w.look(c) == (if c.y < v.at.y || (c.y == v.at.y && c.x <= v.at.x) then BLANK else v.look(c))
            && w.at == v.at && w.within == v.within
  {
    var at := v.at;
    var a, b := RowFills(0, at.y, cols), Fill(0, at.y, at.x + 1);
    WentTo(v, a + b, at.x, at.y, cols);
    DrawBoth(v, a, b, cols);
    RowsFilled(v, 0, at.y, cols, c);
    Filled(DrawAll(v, a, cols), 0, at.y, at.x + 1, cols, c);
  }

  /** CSI K: to the end of the row, from its start, or all of it. */
  ghost function EraseRow(mode: nat, at: Cell, cols: nat): seq<Call>
    requires at.x < cols
  {
    if mode == 0 then Fill(at.x, at.y, cols - at.x) + [Goto(at.x, at.y)]
    else if mode == 1 then Fill(0, at.y, at.x + 1) + [Goto(at.x, at.y)]
    else if mode == 2 then Fill(0, at.y, cols) + [Goto(at.x, at.y)]
    else []
  }

  lemma RowIsErased(v: View, mode: nat, cols: nat, c: Cell)
    requires v.at.x < cols && c.x < cols && mode <= 2
    ensures var w := DrawAll(v, EraseRow(mode, v.at, cols), cols);
            && w.look(c) == (if c.y == v.at.y && (mode == 0 ==> c.x >= v.at.x) && (mode == 1 ==> c.x <= v.at.x)
                             then BLANK else v.look(c))
            && w.at == v.at && w.within == v.within
  {
    var x, count := if mode == 0 then v.at.x else 0,
                    if mode == 0 then cols - v.at.x else if mode == 1 then v.at.x + 1 else cols;
    WentTo(v, Fill(x, v.at.y, count), v.at.x, v.at.y, cols);
    Filled(v, x, v.at.y, count, cols, c);
  }

  // ---- Inserting and deleting in a row

  /** Columns from the last one down to `low` of row `y` are filled from `count` columns to the left. */
  ghost function ShiftsRight(low: nat, y: nat, count: nat, cols: nat): seq<Call>
    requires count <= low
    decreases cols - low
  {
    if cols <= low then [] else ShiftsRight(low + 1, y, count, cols) + [Copy(Cell(low, y), Cell(low - count, y))]
  }

  /** Columns `x` to below `end - count` are filled from `count` columns to the right, left to right. */
  ghost function ShiftsLeft(x: nat, y: nat, count: nat, end: nat): seq<Call>
    decreases end
  {
    if end <= x + count then []
    else ShiftsLeft(x, y, count, end - 1) + [Copy(Cell(end - 1 - count, y), Cell(end - 1, y))]
  }

  lemma Copied(v: View, calls: seq<Call>, to: Cell, from: Cell, cols: nat, c: Cell)
    ensures var u, w := DrawAll(v, calls, cols), DrawAll(v, calls + [Copy(to, from)], cols);
            w.look(c) == u.look(if c == to then from else c) && w.at == u.at && w.within == u.within
  {
    DrawBoth(v, calls, [Copy(to, from)], cols);
    DrawOne(DrawAll(v, calls, cols), Copy(to, from), cols);
  }

  /** Right to left, no character is overwritten before it has been moved. */
  lemma {:induction false} ShiftedRight(v: View, low: nat, y: nat, count: nat, cols: nat, c: Cell)
    requires 0 < count <= low && c.x < cols
    ensures var w := DrawAll(v, ShiftsRight(low, y, count, cols), cols);
            && w.look(c) == v.look(if c.y == y && low <= c.x then Cell(c.x - count, y) else c)
            && w.at == v.at && w.within == v.within
    decreases cols - low
  {
    if low < cols {
      var to, from := Cell(low, y), Cell(low - count, y);
      ShiftedRight(v, low + 1, y, count, cols, if c == to then from else c);
      Copied(v, ShiftsRight(low + 1, y, count, cols), to, from, cols, c);
    }
  }

  /** Left to right neither. */
  lemma {:induction false} ShiftedLeft(v: View, x: nat, y: nat, count: nat, end: nat, cols: nat, c: Cell)
    requires 0 < count && end <= cols && c.x < cols
    ensures var w := DrawAll(v, ShiftsLeft(x, y, count, end), cols);
            && w.look(c) == v.look(if c.y == y && x <= c.x && c.x + count < end then Cell(c.x + count, y) else c)
            && w.at == v.at && w.within == v.within
    decreases end
  {
    if x + count < end {
      var to, from := Cell(end - 1 - count, y), Cell(end - 1, y);
      ShiftedLeft(v, x, y, count, end - 1, cols, if c == to then from else c);
      Copied(v, ShiftsLeft(x, y, count, end - 1), to, from, cols, c);
    }
  }

  /** CSI @: `count` blanks at the cursor. */
  ghost function Insert(at: Cell, count: nat, cols: nat): seq<Call> {
    ShiftsRight(at.x + count, at.y, count, cols) + Fill(at.x, at.y, count) + [Goto(at.x, at.y)]
  }

  /** The rest of the row moves right by the number of blanks. */
  lemma BlanksInserted(v: View, count: nat, cols: nat, c: Cell)
    requires 0 < count <= cols - v.at.x && c.x < cols
    ensures var w := DrawAll(v, Insert(v.at, count, cols), cols);
            && w.look(c) == (if c.y != v.at.y || c.x < v.at.x then v.look(c)
                             else if c.x < v.at.x + count then BLANK
                             else v.look(Cell(c.x - count, c.y)))
            && w.at == v.at && w.within == v.within
  {
    var at := v.at;
    var a, b := ShiftsRight(at.x + count, at.y, count, cols), Fill(at.x, at.y, count);
    WentTo(v, a + b, at.x, at.y, cols);
    DrawBoth(v, a, b, cols);
    ShiftedRight(v, at.x + count, at.y, count, cols, c);
    Filled(DrawAll(v, a, cols), at.x, at.y, count, cols, c);
  }

  /** CSI X where the backend reports the cursor at `here`: `count` blanks, up to the end of the row. */
  ghost function Overwrite(here: Cell, count: nat, cols: nat, back: Cell): seq<Call>
    requires here.x < cols
  {
    Fill(here.x, here.y, if count > cols - here.x then cols - here.x else count) + [Goto(back.x, back.y)]
  }

  lemma Overwritten(v: View, count: nat, cols: nat, c: Cell)
    requires v.at.x < cols && c.x < cols
    ensures var w := DrawAll(v, Overwrite(v.at, count, cols, v.at), cols);
            && w.look(c) == (if c.y == v.at.y && v.at.x <= c.x < v.at.x + count then BLANK else v.look(c))
            && w.at == v.at && w.within == v.within
  {
    var n := if count > cols - v.at.x then cols - v.at.x else count;
    WentTo(v, Fill(v.at.x, v.at.y, n), v.at.x, v.at.y, cols);
    Filled(v, v.at.x, v.at.y, n, cols, c);
  }

  /** CSI P: the rest of the row moves left over `count` characters. */
  ghost function Delete(at: Cell, here: Cell, count: nat, cols: nat): seq<Call>
    requires here.x < cols && count <= cols
  {
    ShiftsLeft(at.x, at.y, count, cols) + [Goto(cols - count, at.y)] + Overwrite(here, count, cols, at)
  }

  /** When the backend reports the cursor where it was put, the row closes up and ends in blanks. */
  lemma CharactersDeleted(v: View, count: nat, cols: nat, c: Cell)
    requires 0 < count <= cols - v.at.x && c.x < cols
    ensures var w := DrawAll(v, Delete(v.at, Cell(cols - count, v.at.y), count, cols), cols);
            && w.look(c) == (if c.y != v.at.y || c.x < v.at.x then v.look(c)
                             else if c.x + count < cols then v.look(Cell(c.x + count, c.y))
                             else BLANK)
            && w.at == v.at && w.within == v.within
  {
    var at, end := v.at, Cell(cols - count, v.at.y);
    var a := ShiftsLeft(at.x, at.y, count, cols);
    ShiftedLeft(v, at.x, at.y, count, cols, cols, c);
    WentTo(v, a, end.x, end.y, cols);
    DrawBoth(v, a + [Goto(end.x, end.y)], Overwrite(end, count, cols, at), cols);
    var u := DrawAll(v, a + [Goto(end.x, end.y)], cols);
    WentTo(u, Fill(end.x, end.y, count), at.x, at.y, cols);
    Filled(u, end.x, end.y, count, cols, c);
  }

  // ---- Scrolling

  ghost function Times(call: Call, n: nat): seq<Call> {
    if n == 0 then [] else Times(call, n - 1) + [call]
  }

  lemma TimesMore(v: View, call: Call, n: nat, cols: nat)
    requires n > 0
    ensures DrawAll(v, Times(call, n), cols) == Draw(DrawAll(v, Times(call, n - 1), cols), call, cols)
  {
    DrawBoth(v, Times(call, n - 1), [call], cols);
    DrawOne(DrawAll(v, Times(call, n - 1), cols), call, cols);
  }

  lemma OneScrollUp(u: View, top: nat, bottom: nat, cols: nat, c: Cell)
    requires top < bottom
    ensures var w := Draw(u, ScrollUp(top, bottom), cols);
            && w.at == u.at && w.within == u.within
            && w.look(c) == (if c.y == bottom - 1 then BLANK
                             else u.look(if top <= c.y < bottom - 1 then Cell(c.x, c.y + 1) else c))
  {}

  lemma OneScrollDown(u: View, top: nat, bottom: nat, cols: nat, c: Cell)
    requires top < bottom
    ensures var w := Draw(u, ScrollDown(top, bottom), cols);
            && w.at == u.at && w.within == u.within
            && w.look(c) == (if c.y == top then BLANK else u.look(if top < c.y < bottom then Cell(c.x, c.y - 1) else c))
  {}

  /** Scrolling up `n` times removes the `n` top rows between the margins. */
  lemma {:induction false} ScrolledUp(v: View, top: nat, bottom: nat, n: nat, cols: nat, c: Cell)
    requires top < bottom && n <= bottom - top
    ensures var w := DrawAll(v, Times(ScrollUp(top, bottom), n), cols);
            && w.look(c) == (if !(top <= c.y < bottom) then v.look(c)
                             else if c.y + n < bottom then v.look(Cell(c.x, c.y + n))
                             else BLANK)
            && w.at == v.at && w.within == v.within
    decreases n
  {
    if n > 0 {
      TimesMore(v, ScrollUp(top, bottom), n, cols);
      OneScrollUp(DrawAll(v, Times(ScrollUp(top, bottom), n - 1), cols), top, bottom, cols, c);
      ScrolledUp(v, top, bottom, n - 1, cols, if top <= c.y < bottom - 1 then Cell(c.x, c.y + 1) else c);
    }
  }

  /** Scrolling down `n` times opens `n` blank rows at the top margin. */
  lemma {:induction false} ScrolledDown(v: View, top: nat, bottom: nat, n: nat, cols: nat, c: Cell)
    requires top < bottom && n <= bottom - top
    ensures var w := DrawAll(v, Times(ScrollDown(top, bottom), n), cols);
            && w.look(c) == (if !(top <= c.y < bottom) then v.look(c)
                             else if c.y < top + n then BLANK
                             else v.look(Cell(c.x, c.y - n)))
            && w.at == v.at && w.within == v.within
    decreases n
  {
    if n > 0 {
      TimesMore(v, ScrollDown(top, bottom), n, cols);
      OneScrollDown(DrawAll(v, Times(ScrollDown(top, bottom), n - 1), cols), top, bottom, cols, c);
      ScrolledDown(v, top, bottom, n - 1, cols, if top < c.y < bottom then Cell(c.x, c.y - 1) else c);
    }
  }
}
