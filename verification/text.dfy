/**
 What the terminal prints for text: one byte at a time, with a replacement character for what is
 not a character.
 */
module Text {
  import opened Utf8

  const REPLACEMENT: nat := 0xFE

  /** What the font has for a code point: a character of its own, or none for one of the given width. */
  datatype Glyph = Known(code: nat) | Unknown(width: nat)

  function Blanks(n: nat): seq<nat> {
    seq(n, _ => 0x20)
  }

  /** The text of a finished code point. */
  function GlyphText(g: Glyph): seq<nat> {
    match g
    case Known(code) => [code]
    case Unknown(width) => if width == 0 then [] else [REPLACEMENT] + Blanks(width - 1)
  }

  predicate IsSurrogate(cp: nat) {
    0xD800 <= cp <= 0xDFFF
  }

  /** What a continuation byte prints; `g` is what the font has for the code point it completes. */
  function Prints(u: Pending, c: Byte, g: Glyph): seq<nat>
    requires 0 < u.remaining <= 3 && IsContinuation(c)
  {
    var v := Continue(u, c);
    if v.codePoint > 0x10FFFF then []
    else if Bad(v) then [REPLACEMENT]
    else if v.remaining != 0 then []
    else if IsSurrogate(v.codePoint) then [REPLACEMENT]
    else GlyphText(g)
  }

  // ---- Whole sequences

  /** What the continuation bytes of one sequence print. */
  ghost function PrintsAll(u: Pending, bytes: seq<Byte>, g: Glyph): seq<nat>
    requires u.remaining <= 3 && |bytes| <= u.remaining && Continuations(bytes)
    decreases |bytes|
  {
    if bytes == [] then [] else Prints(u, bytes[0], g) + PrintsAll(Step(u, bytes[0]), bytes[1..], g)
  }

  lemma RestOf(u: Pending, bytes: seq<Byte>, g: Glyph)
    requires u.remaining <= 3 && bytes != [] && |bytes| <= u.remaining && Continuations(bytes)
    ensures Decode(u, bytes) == Decode(Step(u, bytes[0]), bytes[1..])
    ensures PrintsAll(u, bytes, g) == Prints(u, bytes[0], g) + PrintsAll(Step(u, bytes[0]), bytes[1..], g)
  {}

  /** A lead byte and the continuation bytes it asks for. */
  ghost predicate IsSequence(lead: Byte, rest: seq<Byte>) {
    IsLead(lead) && |rest| == Lead(lead).remaining && Continuations(rest)
  }

  /** The sequence encodes a code point that is not a surrogate (section 3 of RFC 3629). */
  ghost predicate Encodes(lead: Byte, rest: seq<Byte>, cp: nat) {
    0x80 <= cp <= 0x10FFFF && !IsSurrogate(cp) && Encode(cp) == [lead] + rest
  }

  /** The form that only code points above U+10FFFF would need. */
  ghost predicate TooLarge(lead: Byte, rest: seq<Byte>) {
    lead as int == 0xF4 && rest != [] && rest[0] as int >= 0x90
  }

  lemma Print1(u: Pending, a: Byte, g: Glyph)
    requires u.remaining == 1 && IsContinuation(a)
    ensures PrintsAll(u, [a], g) == Prints(u, a, g)
  {
    assert PrintsAll(Step(u, a), [], g) == [];
  }

  lemma Print2(u: Pending, a: Byte, b: Byte, g: Glyph)
    requires u.remaining == 2 && IsContinuation(a) && IsContinuation(b)
    ensures PrintsAll(u, [a, b], g) == Prints(u, a, g) + Prints(Step(u, a), b, g)
  {
    assert [a, b][1..] == [b];
    Print1(Step(u, a), b, g);
  }

  lemma Print3(u: Pending, a: Byte, b: Byte, c: Byte, g: Glyph)
    requires u.remaining == 3 && IsContinuation(a) && IsContinuation(b) && IsContinuation(c)
    ensures PrintsAll(u, [a, b, c], g) == Prints(u, a, g) + Prints(Step(u, a), b, g) + Prints(Step(Step(u, a), b), c, g)
  {
    assert [a, b, c][1..] == [b, c];
    Print2(Step(u, a), b, c, g);
  }

  /** What a whole sequence prints, in terms of what its bytes decode to. */
  ghost function Outcome(lead: Byte, rest: seq<Byte>, cp: nat, g: Glyph): seq<nat> {
    if TooLarge(lead, rest) then []
    else if cp > 0x10FFFF || IsSurrogate(cp) then [REPLACEMENT]
    else GlyphText(g)
  }

  lemma Outcome2(lead: Byte, x: Byte, g: Glyph)
    requires 0xC2 <= lead as int <= 0xDF && IsContinuation(x)
    ensures PrintsAll(Lead(lead), [x], g) == Outcome(lead, [x], Step(Lead(lead), x).codePoint, g)
  {
    Print1(Lead(lead), x, g);
  }

  lemma Outcome3(lead: Byte, x: Byte, y: Byte, g: Glyph)
    requires 0xE0 <= lead as int <= 0xEF && IsContinuation(x) && IsContinuation(y)
    ensures PrintsAll(Lead(lead), [x, y], g) == Outcome(lead, [x, y], Step(Step(Lead(lead), x), y).codePoint, g)
  {
    Print2(Lead(lead), x, y, g);
  }

  lemma Outcome4(lead: Byte, x: Byte, y: Byte, z: Byte, g: Glyph)
    requires 0xF0 <= lead as int <= 0xF4 && IsContinuation(x) && IsContinuation(y) && IsContinuation(z)
    ensures PrintsAll(Lead(lead), [x, y, z], g) == Outcome(lead, [x, y, z],
                                                           Step(Step(Step(Lead(lead), x), y), z).codePoint, g)
  {
    Print3(Lead(lead), x, y, z, g);
  }

  lemma SequenceOutcome(lead: Byte, rest: seq<Byte>, g: Glyph)
    requires IsSequence(lead, rest)
    ensures PrintsAll(Lead(lead), rest, g) == Outcome(lead, rest, Decode(Lead(lead), rest).codePoint, g)
  {
    if |rest| == 1 {
      assert rest == [rest[0]];
      Unfold1(Lead(lead), rest[0]);
      Outcome2(lead, rest[0], g);
    } else if |rest| == 2 {
      assert rest == [rest[0], rest[1]];
      Unfold2(Lead(lead), rest[0], rest[1]);
      Outcome3(lead, rest[0], rest[1], g);
    } else {
      assert rest == [rest[0], rest[1], rest[2]];
      Unfold3(Lead(lead), rest[0], rest[1], rest[2]);
      Outcome4(lead, rest[0], rest[1], rest[2], g);
    }
  }

  lemma TooLargeRejected(lead: Byte, rest: seq<Byte>)
    requires IsSequence(lead, rest) && TooLarge(lead, rest)
    ensures Decode(Lead(lead), rest).codePoint > 0x10FFFF
  {
    assert rest == [rest[0], rest[1], rest[2]];
    Unfold3(Lead(lead), rest[0], rest[1], rest[2]);
  }

  /** A sequence decodes to a code point that is not rejected exactly if it encodes it. */
  lemma DecodedIsEncoded(lead: Byte, rest: seq<Byte>, cp: nat)
    requires IsSequence(lead, rest)
    ensures var d := Decode(Lead(lead), rest).codePoint;
            Encodes(lead, rest, cp) <==> cp == d <= 0x10FFFF && !IsSurrogate(d)
  {
    AcceptedIsShortest(lead, rest);
    if Encodes(lead, rest, cp) {
      EncodedDecodes(cp);
      assert ([lead] + rest)[1..] == rest;
    }
  }

  /**
   A sequence that encodes a code point prints that code point's glyph. One that encodes nothing (an
   overlong form, a surrogate, a value above U+10FFFF) prints exactly one replacement character if
   and only if it does not start with F4 and a byte from 90 on; in that case it prints nothing.
   */
  lemma SequencePrints(lead: Byte, rest: seq<Byte>, g: Glyph)
    requires IsSequence(lead, rest)
    ensures (exists cp :: Encodes(lead, rest, cp)) ==> PrintsAll(Lead(lead), rest, g) == GlyphText(g)
    ensures !(exists cp :: Encodes(lead, rest, cp)) ==>
              (PrintsAll(Lead(lead), rest, g) == [REPLACEMENT] <==> !TooLarge(lead, rest))
    ensures TooLarge(lead, rest) ==> PrintsAll(Lead(lead), rest, g) == [] && !exists cp :: Encodes(lead, rest, cp)
  {
    SequenceOutcome(lead, rest, g);
    var d := Decode(Lead(lead), rest).codePoint;
    DecodedIsEncoded(lead, rest, d);
    forall cp | Encodes(lead, rest, cp) ensures cp == d <= 0x10FFFF && !IsSurrogate(d) {
      DecodedIsEncoded(lead, rest, cp);
    }
    if TooLarge(lead, rest) {
      TooLargeRejected(lead, rest);
    }
  }

  /** F4 90 80 80 would be U+110000: nothing is printed for it. */
  lemma AboveRangePrintsNothing(g: Glyph)
    ensures var rest: seq<Byte> := ['\U{90}', '\U{80}', '\U{80}'];
            IsSequence('\U{F4}', rest) && PrintsAll(Lead('\U{F4}'), rest, g) == []
  {
    var rest: seq<Byte> := ['\U{90}', '\U{80}', '\U{80}'];
    assert IsSequence('\U{F4}', rest);
    SequencePrints('\U{F4}', rest, g);
  }

  // ---- Other bytes

  /** The DEC special graphics characters. */
  const DEC_SPECIAL: map<char, nat> := map[
    '`' := 0x04, '0' := 0xDB, '-' := 0x18, ',' := 0x1B, '.' := 0x19, 'a' := 0xB1, 'f' := 0xF8, 'g' := 0xF1, 'h' := 0xB0,
    'j' := 0xD9, 'k' := 0xBF, 'l' := 0xDA, 'm' := 0xC0, 'n' := 0xC5, 'q' := 0xC4, 's' := 0x5F, 't' := 0xC3, 'u' := 0xB4,
    'v' := 0xC1, 'w' := 0xC2, 'x' := 0xB3, 'y' := 0xF3, 'z' := 0xF2, '~' := 0xFA, '_' := 0xFF, '+' := 0x1A, '{' := 0xE3,
      '}' := 0x9C]

  /** The text of a byte outside every sequence; `special` says that the DEC graphics are selected. */
  function PlainText(special: bool, c: Byte): seq<nat> {
    if c < ' ' || c == '\U{7F}' then []
    else if special && c in DEC_SPECIAL then [DEC_SPECIAL[c]]
    else if c < '\U{7F}' then [c as int]
    else [REPLACEMENT]
  }
}
