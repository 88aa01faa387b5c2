/**
 Whole sequences of bytes written to a terminal that is between sequences: UTF-8 characters, control
 sequences with their numbers, character sets, saving and restoring.
 */
module Sequences {
  import opened Utf8
  import opened Text
  import opened Picture
  import opened Commands
  import opened Effects
  import opened Terminal

  // ---- UTF-8

  /** The continuation bytes of one sequence. */
  method WriteRest(t: Context, rest: seq<Byte>, g: Glyph)
    requires t.Valid() && !t.p.discardNext && !t.p.escape && |rest| <= t.u.remaining && Continuations(rest)
    modifies t
    ensures t.Valid() && !t.p.escape && t.u == Decode(old(t.u), rest)
    ensures t.printed == old(t.printed) + PrintsAll(old(t.u), rest, g)
    decreases |rest|
  {
    if rest != [] {
      RestOf(t.u, rest, g);
      ghost var _ := t.Putchar(rest[0], g);
      WriteRest(t, rest[1..], g);
    }
  }

  /** One whole UTF-8 sequence written between other sequences; `g` is the glyph of its code point. */
  method WriteSequence(t: Context, lead: Byte, rest: seq<Byte>, g: Glyph)
    requires t.Valid() && t.AtRest() && IsSequence(lead, rest)
    modifies t
    ensures t.Valid() && !t.p.escape && t.u == Decode(Lead(lead), rest)
    ensures (exists cp :: Encodes(lead, rest, cp)) ==> t.printed == old(t.printed) + GlyphText(g)
    ensures !(exists cp :: Encodes(lead, rest, cp)) ==>
              t.printed == old(t.printed) + if TooLarge(lead, rest) then [] else [REPLACEMENT]
  {
    ghost var _ := t.Putchar(lead, g);
    WriteRest(t, rest, g);
    SequencePrints(lead, rest, g);
  }

  // ---- Control sequences

  /** ESC and the byte after it. */
  method PutEscape(t: Context, c: Byte) returns (ghost r: Reports)
    requires t.Valid() && t.AtRest() && !Cancels(t.p, c)
    modifies t
    ensures t.Valid() && t.u.remaining == 0 && t.printed == old(t.printed) && t.history.Since(old(t.history))
    ensures SimpleStep(old(t.Now()).(p := old(t.p).(escape := true, offset := 1)), c, r, t.Now(), t.cols, t.rows)
  {
    ghost var _ := t.Putchar(ESC, Unknown(0));
    r := t.Putchar(c, Unknown(0));
  }

  /** In a control sequence that was started in state `a`. */
  ghost predicate InControl(t: Context, a: Shot)
    reads t
  {
    && t.Valid() && t.u.remaining == 0 && t.p.offset >= 1 && !a.p.discardNext
    && t.Now() == a.(p := a.p.(escape := true, controlSequence := true, csiUnhandled := false, offset := t.p.offset),
                     n := t.n)
  }

  /** A byte other than a control character in a control sequence. */
  method PutInControl(t: Context, c: Byte) returns (ghost r: Reports)
    requires t.Valid() && t.p.escape && t.p.controlSequence && !t.p.discardNext && c >= ' '
    modifies t
    ensures t.Valid() && t.u.remaining == 0 && t.printed == old(t.printed)
    ensures CsiStep(old(t.Now()).Next(), c, r, t.Now(), t.cols, t.rows)
  {
    r := t.Putchar(c, Unknown(0));
  }

  /** ESC [ and, for a private sequence, a question mark. */
  method StartControl(t: Context, private: bool)
    requires t.Valid() && t.AtRest()
    modifies t
    ensures t.printed == old(t.printed) && t.n == NoNumbers() && (t.p.offset == 1 <==> !private)
    ensures InControl(t, old(t.Now()).(p := old(t.p).(decPrivate := private || old(t.p).decPrivate)))
  {
    ghost var _ := PutEscape(t, '[');
    if private {
      ghost var _ := PutInControl(t, '?');
    }
  }

  /** A digit or a semicolon. */
  method PutNumberByte(t: Context, ghost a: Shot, c: Byte)
    requires InControl(t, a) && (IsDigit(c) || c == ';')
    modifies t
    ensures InControl(t, a) && t.printed == old(t.printed) && t.p.offset == old(t.p).offset + 1
    ensures t.n == if c == ';' then Separated(old(t.n)) else WithDigit(old(t.n), c)
  {
    ghost var _ := PutInControl(t, c);
  }

  method WriteDigit(t: Context, ghost a: Shot, ghost ps: seq<seq<nat>>, ghost j: nat, ghost ds: seq<nat>, d: nat)
    requires AreParameters(ps) && j < |ps| && AreDigits(ds) && d <= 9 && InControl(t, a) && Holds(t.n, ps, j, ds)
    modifies t
    ensures InControl(t, a) && t.printed == old(t.printed) && t.p.offset == old(t.p).offset + 1
    ensures AreDigits(ds + [d]) && Holds(t.n, ps, j, ds + [d])
  {
    HoldsDigit(t.n, ps, j, ds, d);
    PutNumberByte(t, a, ('0' as int + d) as char);
  }

  method WriteDigits(t: Context, ghost a: Shot, ghost ps: seq<seq<nat>>, ghost j: nat, ds: seq<nat>)
    requires AreParameters(ps) && j < |ps| && ds == ps[j] && InControl(t, a) && Holds(t.n, ps, j, [])
    modifies t
    ensures InControl(t, a) && Holds(t.n, ps, j, ds) && t.printed == old(t.printed)
    ensures t.p.offset == old(t.p).offset + |ds|
  {
    ghost var done: seq<nat> := [];
    for i := 0 to |ds|
      invariant AreDigits(done) && InControl(t, a) && Holds(t.n, ps, j, done)
      invariant done == ds[..i] && t.printed == old(t.printed) && t.p.offset == old(t.p).offset + i
    {
      WriteDigit(t, a, ps, j, done, ds[i]);
      done := done + [ds[i]];
    }
    assert done == ds;
  }

  /** The numbers of a control sequence, with semicolons between them. */
  method WriteParameters(t: Context, ghost a: Shot, ps: seq<seq<nat>>)
    requires AreParameters(ps) && InControl(t, a) && t.n == NoNumbers()
    modifies t
    ensures InControl(t, a) && Holds(t.n, ps, |ps| - 1, ps[|ps| - 1]) && t.printed == old(t.printed)
    ensures t.p.offset >= old(t.p).offset && (t.p.offset == old(t.p).offset ==> ps == [[]])
  {
    HoldsNothing(ps);
    WriteDigits(t, a, ps, 0, ps[0]);
    for j := 1 to |ps|
      invariant InControl(t, a) && Holds(t.n, ps, j - 1, ps[j - 1]) && t.printed == old(t.printed)
      invariant t.p.offset >= old(t.p).offset + (j - 1) + |ps[0]|
    {
      HoldsSeparator(t.n, ps, j - 1);
      PutNumberByte(t, a, ';');
      WriteDigits(t, a, ps, j, ps[j]);
    }
  }

  /** The command `c` with parameters `ps` was carried out, and nothing else. */
  ghost predicate Commanded(a: Shot, ps: seq<seq<nat>>, c: Byte, r: Reports, b: Shot, cols: nat, rows: nat)
    requires AreParameters(ps)
  {
    var v, count := AllArguments(ps, c), GivenCount(ps);
    && ArgumentsFit(c, v) && a.s.Ok(cols, rows) && Enough(c, r, v, cols, rows) && !b.p.decPrivate
    && b == a.(p := b.p, n := b.n, s := CommandScreen(c, r, v, count, a.s, rows),
               calls := a.calls + CommandCalls(c, r, v, count, a.s, a.Last(), cols, rows))
  }

  /** The private modes `ps` were set or reset, and nothing else. */
  ghost predicate ModesSwitched(a: Shot, ps: seq<seq<nat>>, c: Byte, b: Shot)
    requires AreParameters(ps)
  {
    var modes := AllArguments(ps, c)[..GivenCount(ps)];
    && !b.p.decPrivate
    && b == (if c == 'h' || c == 'l' then PrivateAll(a, modes, c == 'h') else a).(p := b.p, n := b.n)
  }

  /** The final byte. */
  method Finish(t: Context, ghost a: Shot, ghost ps: seq<seq<nat>>, c: Byte) returns (ghost r: Reports)
    requires AreParameters(ps) && InControl(t, a) && Holds(t.n, ps, |ps| - 1, ps[|ps| - 1]) && a.k.select == 0
    requires '@' <= c <= '~' && !(c == '[' && t.p.offset == 1)
    modifies t
    ensures t.Valid() && t.AtRest() && t.printed == old(t.printed)
    ensures if a.p.decPrivate then ModesSwitched(a, ps, c, t.Now()) else Commanded(a, ps, c, r, t.Now(), t.cols, t.rows)
  {
    HoldsAll(t.n, ps, c);
    ghost var b := t.Now().Next();
    r := PutInControl(t, c);
    if a.p.decPrivate {
      PrivateFrame(a, PrivateStart(b, WithDefaults(Closed(b.n), c)), AllArguments(ps, c)[..GivenCount(ps)], c == 'h');
    }
  }

  /** Private modes neither read nor change the parser and its numbers. */
  lemma {:induction false} PrivateFrame(a: Shot, b: Shot, vs: seq<nat>, on: bool)
    requires b == a.(p := b.p, n := b.n)
    ensures PrivateAll(b, vs, on) == PrivateAll(a, vs, on).(p := b.p, n := b.n)
    ensures PrivateAll(a, vs, on).k.select == a.k.select
  {
    if vs != [] {
      PrivateFrame(a, b, vs[..|vs| - 1], on);
    }
  }

  /**
   ESC [, up to sixteen numbers of any length, and a final byte, between other sequences: the terminal is between
   sequences again, has printed nothing, and has carried out exactly the command with these numbers, unless it
   remembers a private sequence that was cancelled; then it takes the numbers for private modes.
   */
  method WriteControl(t: Context, private: bool, ps: seq<seq<nat>>, c: Byte) returns (ghost r: Reports)
    requires t.Valid() && t.AtRest() && AreParameters(ps)
    requires '@' <= c <= '~' && !(c == '[' && !private && ps == [[]])
    modifies t
    ensures t.Valid() && t.AtRest() && t.printed == old(t.printed)
    ensures !private && !old(t.p).decPrivate ==> Commanded(old(t.Now()), ps, c, r, t.Now(), t.cols, t.rows)
    ensures private || old(t.p).decPrivate ==> ModesSwitched(old(t.Now()), ps, c, t.Now())
  {
    ghost var start := t.Now();
    ghost var a := start.(p := t.p.(decPrivate := private || t.p.decPrivate));
    StartControl(t, private);
    WriteParameters(t, a, ps);
    r := Finish(t, a, ps, c);
    if a.p.decPrivate {
      PrivateFrame(start, a, AllArguments(ps, c)[..GivenCount(ps)], c == 'h');
    }
  }

  /** ESC [ row ; column H goes to that row and column, counted from one, if it is on the screen. */
  method WritePosition(t: Context, row: seq<nat>, column: seq<nat>)
    requires t.Valid() && t.AtRest() && !t.p.decPrivate && !t.s.originMode && AreParameters([row, column])
    requires 1 <= Value(row) <= Min(t.rows, UINT32_MAX) && 1 <= Value(column) <= Min(t.cols, UINT32_MAX)
    modifies t
    ensures t.Valid() && t.AtRest() && t.printed == old(t.printed) && t.s == old(t.s) && t.k == old(t.k)
    ensures t.calls == old(t.calls) + [Goto(Value(column) - 1, Value(row) - 1)]
  {
    ghost var ps := [row, column];
    assert ps[0] == row && ps[1] == column;
    NumberRead(row);
    NumberRead(column);
    ghost var r := WriteControl(t, false, [row, column], 'H');
    MovesGo(r.at, AllArguments(ps, 'H'), old(t.s), t.cols, t.rows);
  }

  /**
   A private sequence that CAN cancels is not forgotten: the next control sequence, here the cursor position
   command, is taken for a private one and does nothing. Only the one after it is read correctly.
   */
  method CancelThenPosition(t: Context, row: seq<nat>, column: seq<nat>)
    requires t.Valid() && t.AtRest() && AreParameters([row, column])
    modifies t
    ensures t.Valid() && t.AtRest() && !t.p.decPrivate && t.calls == old(t.calls) && t.s == old(t.s)
  {
    StartControl(t, true);
    ghost var _ := t.Putchar('\U{18}', Unknown(0));
    ghost var _ := WriteControl(t, false, [row, column], 'H');
  }

  /** A printable character. */
  method Type(t: Context, c: Byte) returns (ghost r: Reports)
    requires t.Valid() && t.AtRest() && ' ' <= c <= '~'
    modifies t
    ensures var text := PlainText(old(t.k).sets[old(t.k).current] == 1, c);
            && t.Valid() && t.AtRest() && t.printed == old(t.printed) + text && |text| == 1 && t.p == old(t.p)
            && TextStep(old(t.Now()), text, r, t.Now(), t.cols, t.rows)
  {
    r := t.Putchar(c, Unknown(0));
  }

  /** Typing a character and CSI n b puts it once and then n times more, up to a row's length. */
  method TypeAndRepeat(t: Context, c: Byte, n: seq<nat>)
    requires t.Valid() && t.AtRest() && !t.p.decPrivate && !t.s.insertMode && ' ' <= c <= '~' && AreDigits(n)
    modifies t
    ensures t.Valid() && t.AtRest()
    ensures var text := PlainText(old(t.k).sets[old(t.k).current] == 1, c);
            && t.printed == old(t.printed) + text && |text| == 1
            && t.calls == old(t.calls) + [Put(text[0], 1)]
               + Times(Put(text[0], 1), Min(OrDefault(ReadAs(n), 'b'), t.cols))
  {
    ghost var ps := [n];
    assert ps[0] == n;
    ghost var text := PlainText(t.k.sets[t.k.current] == 1, c);
    ghost var _ := Type(t, c);
    assert TextPuts(text) == [Put(text[0], 1)];
    ghost var r := WriteControl(t, false, [n], 'b');
    RepeatsPut(r.again, text[0], t.cols);
  }

  /** ESC ( or ESC ) and the name of a character set. */
  method Select(t: Context, slot: nat, graphics: bool)
    requires t.Valid() && t.AtRest() && slot < 2
    modifies t
    ensures t.Valid() && t.AtRest() && t.printed == old(t.printed)
    ensures t.Now() == old(t.Now()).(p := t.p, k := old(t.k).(sets := old(t.k).sets[slot := if graphics then 1 else 0]))
  {
    ghost var _ := PutEscape(t, if slot == 0 then '(' else ')');
    ghost var _ := t.Putchar(if graphics then '0' else 'B', Unknown(0));
  }

  /** SI makes G0 current and SO makes G1 current. */
  method Shift(t: Context, slot: nat)
    requires t.Valid() && t.AtRest() && slot < 2
    modifies t
    ensures t.Valid() && t.AtRest() && t.printed == old(t.printed) && t.calls == old(t.calls)
    ensures t.k == old(t.k).(current := slot) && t.s == old(t.s)
  {
    ghost var _ := t.Putchar(if slot == 0 then '\U{0F}' else '\U{0E}', Unknown(0));
  }

  /** ESC ( 0 and ESC ) 0 select the DEC graphics for G0 and G1, and ESC ( B and ESC ) B deselect them. */
  method SelectAndType(t: Context, slot: nat, graphics: bool, c: Byte)
    requires t.Valid() && t.AtRest() && slot < 2 && ' ' <= c <= '~'
    modifies t
    ensures t.Valid() && t.AtRest() && t.s == old(t.s)
    ensures t.printed == old(t.printed) + [if graphics && c in DEC_SPECIAL then DEC_SPECIAL[c] else c as int]
    ensures t.k.sets[1 - slot] == old(t.k).sets[1 - slot]
  {
    Shift(t, slot);
    Select(t, slot, graphics);
    ghost var _ := Type(t, c);
  }

  // ---- Sequences without an effect

  /**
   A control sequence with an intermediate byte, which no command here has, is skipped up to its final byte, whatever
   bytes from the first half of the code, controls and ESC aside, come before that.
   */
  method WriteUnknown(t: Context, ps: seq<seq<nat>>, intermediate: Byte, more: seq<Byte>, c: Byte)
    requires t.Valid() && t.AtRest() && !t.p.decPrivate && AreParameters(ps) && '@' <= c <= '~'
    requires ' ' <= intermediate <= '/' && forall i :: 0 <= i < |more| ==> ' ' <= more[i] <= '?'
    modifies t
    ensures t.Valid() && t.AtRest() && t.printed == old(t.printed) && t.Now() == old(t.Now()).(p := t.p, n := t.n)
  {
    ghost var a := t.Now();
    StartControl(t, false);
    WriteParameters(t, a, ps);
    ghost var _ := PutInControl(t, intermediate);
    for i := 0 to |more|
      invariant Skipping(t, a) && t.printed == old(t.printed)
    {
      SkipByte(t, a, more[i]);
    }
    SkipByte(t, a, c);
  }

  /** In a control sequence that was started in state `a` and is being skipped. */
  ghost predicate Skipping(t: Context, a: Shot)
    reads t
  {
    && t.Valid() && t.u.remaining == 0 && t.p.offset >= 2 && !a.p.discardNext && !a.p.decPrivate
    && t.Now() == a.(p := a.p.(escape := true, controlSequence := true, csiUnhandled := true, offset := t.p.offset),
                     n := t.n)
  }

  method SkipByte(t: Context, ghost a: Shot, c: Byte)
    requires Skipping(t, a) && ' ' <= c <= '~'
    modifies t
    ensures t.Valid() && t.printed == old(t.printed) && t.u.remaining == 0
    ensures c < '@' ==> Skipping(t, a)
    ensures c >= '@' ==> !t.p.escape && !t.p.discardNext && t.Now() == a.(p := t.p, n := t.n)
  {
    ghost var _ := PutInControl(t, c);
  }

  /** An operating system command, ended by BEL or ESC \, prints and draws nothing, however long it is. */
  method WriteOsc(t: Context, bytes: seq<Byte>, bell: bool)
    requires t.Valid() && t.AtRest()
    requires forall i :: 0 <= i < |bytes| ==> bytes[i] != ESC && bytes[i] != '\U{07}' && !Cancels(t.p, bytes[i])
    modifies t
    ensures t.Valid() && t.AtRest() && t.printed == old(t.printed) && t.Now() == old(t.Now()).(p := t.p)
  {
    ghost var a := t.Now();
    ghost var _ := PutEscape(t, ']');
    for i := 0 to |bytes|
      invariant InOsc(t, a) && !t.p.oscEscape && t.printed == old(t.printed)
    {
      PutInOsc(t, a, bytes[i]);
    }
    if bell {
      PutInOsc(t, a, '\U{07}');
    } else {
      PutInOsc(t, a, ESC);
      PutInOsc(t, a, '\\');
    }
  }

  ghost predicate InOsc(t: Context, a: Shot)
    reads t
  {
    && t.Valid() && t.u.remaining == 0 && t.p.escape && t.p.osc && !t.p.discardNext && t.Now() == a.(p := t.p)
  }

  method PutInOsc(t: Context, ghost a: Shot, c: Byte)
    requires InOsc(t, a) && !Cancels(t.p, c) && (t.p.oscEscape ==> c == '\\')
    modifies t
    ensures t.Valid() && t.u.remaining == 0 && !t.p.discardNext && t.Now() == a.(p := t.p)
    ensures t.printed == old(t.printed)
    ensures if old(t.p).oscEscape || c == '\U{07}' then !t.p.escape else InOsc(t, a) && t.p.oscEscape == (c == ESC)
  {
    ghost var _ := t.Putchar(c, Unknown(0));
  }

  // ---- Resetting

  /** ESC c: no margins, no modes, the default character sets, a cleared screen with the cursor at the top left. */
  method Reset(t: Context)
    requires t.Valid() && t.AtRest()
    modifies t
    ensures t.Valid() && t.AtRest() && !t.p.decPrivate && t.printed == old(t.printed)
    ensures t.s.top == 0 && t.s.bottom == t.rows && t.s.tabSize == 8 && !t.s.originMode && !t.s.insertMode
    ensures t.s.savedCursor == Cell(0, 0) && !t.s.savedOriginMode && t.f.wrap && t.f.scroll && !t.lastWasGraphic
    ensures t.k.sets == t.k.savedSets == [0, 1] && t.k.current == t.k.savedCurrent == 0
    ensures t.calls == old(t.calls) + [Clear(true), Save]
  {
    ghost var _ := PutEscape(t, 'c');
  }

  // ---- Saving and restoring

  /** ESC 7 or ESC 8. */
  method WriteEscape(t: Context, c: Byte)
    requires t.Valid() && t.AtRest() && (c == '7' || c == '8')
    modifies t
    ensures t.Valid() && t.AtRest() && t.printed == old(t.printed)
    ensures var b := if c == '7' then SavedShot(old(t.Now())) else RestoredShot(old(t.Now()));
            t.Now() == b.(p := t.p) && (c == '8' ==> ModesOf(t.Now()) == old(t.history).last)
  {
    ghost var _ := PutEscape(t, c);
  }

  /**
   ESC 7, any bytes, ESC 8: if the bytes end between sequences and nothing among them saved again, origin mode and
   character sets are what they were before, and so is the cursor on the screen.
   */
  method SaveWriteRestore(t: Context, bytes: seq<Byte>, glyphs: seq<Glyph>)
    returns (atRest: bool, ghost savedAgain: bool, ghost between: seq<Call>)
    requires t.Valid() && t.AtRest() && |glyphs| == |bytes|
    modifies t
    ensures t.Valid() && (atRest ==> t.AtRest() && t.calls == old(t.calls) + ([Save] + between + [Restore]))
    ensures atRest && !savedAgain ==> ModesOf(t.Now()) == ModesOf(old(t.Now()))
    ensures !savedAgain ==> Save !in between
    ensures forall v: View :: !savedAgain ==> DrawAll(v, [Save] + between + [Restore], t.cols).at == v.at
  {
    WriteEscape(t, '7');
    ghost var before, since := t.calls, t.history.since;
    t.Write(bytes, glyphs);
    atRest, savedAgain := t.AtRest(), t.history.since != since;
    between := t.calls[|before|..];
    if atRest {
      WriteEscape(t, '8');
    }
    forall v: View | !savedAgain ensures DrawAll(v, [Save] + between + [Restore], t.cols).at == v.at {
      CursorRestored(v, between, t.cols);
    }
  }
}
