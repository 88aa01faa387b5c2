/** Decoding UTF-8 (section 4 of RFC 3629) byte by byte, as the terminal does. */
module Utf8 {
  /** A byte, as the character with that code. */
  type Byte = c: char | c as int < 256

  const UINT64_MAX := 0xFFFF_FFFF_FFFF_FFFF

  /** The bits read so far and how many continuation bytes are still expected. */
  datatype Pending = Pending(remaining: nat, codePoint: nat)

  function Weight(remaining: nat): nat {
    if remaining == 0 then 1 else if remaining == 1 then 64 else if remaining == 2 then 4096 else 262144
  }

  predicate IsLead(c: Byte) {
    0xC2 <= c as int <= 0xF4
  }

  predicate IsContinuation(c: Byte) {
    0x80 <= c as int < 0xC0
  }

  /** The state after a lead byte. */
  function Lead(c: Byte): Pending
    requires IsLead(c)
  {
    if c as int <= 0xDF then Pending(1, (c as int % 0x20) * 64)
    else if c as int <= 0xEF then Pending(2, (c as int % 0x10) * 4096)
    else Pending(3, (c as int % 0x08) * 262144)
  }

  /** The bits of a continuation byte are set; a code point already flagged as bad stays all ones. */
  function Continue(u: Pending, c: Byte): Pending
    requires 0 < u.remaining <= 3 && IsContinuation(c)
  {
    Pending(u.remaining - 1, if u.codePoint == UINT64_MAX then UINT64_MAX
            else u.codePoint + (c as int % 64) * Weight(u.remaining - 1))
  }

  /** Too large, or certain to be an overlong form. */
  predicate Bad(u: Pending) {
    u.codePoint > 0x10FFFF || (u.remaining == 1 && u.codePoint < 0x800) || (u.remaining == 2 && u.codePoint < 0x10000)
  }

  /** Flags a bad sequence, so that the rest of it is drained. */
  function Flagged(u: Pending): Pending {
    if u.codePoint <= 0x10FFFF && Bad(u) then u.(codePoint := UINT64_MAX) else u
  }

  function Step(u: Pending, c: Byte): Pending
    requires 0 < u.remaining <= 3 && IsContinuation(c)
  {
    Flagged(Continue(u, c))
  }

  // ---- Exactly the shortest forms are accepted

  ghost predicate Continuations(bytes: seq<Byte>) {
    forall i :: 0 <= i < |bytes| ==> IsContinuation(bytes[i])
  }

  ghost function Decode(u: Pending, bytes: seq<Byte>): Pending
    requires u.remaining <= 3 && |bytes| <= u.remaining && Continuations(bytes)
    decreases |bytes|
  {
    if bytes == [] then u else Decode(Step(u, bytes[0]), bytes[1..])
  }

  function Tail(bits: int): Byte
    requires 0 <= bits < 64
  {
    (0x80 + bits) as char
  }

  /** The table of section 3 of RFC 3629, without the one-byte forms. */
  function Encode(cp: nat): seq<Byte>
    requires 0x80 <= cp <= 0x10FFFF
  {
    if cp < 0x800 then [(0xC0 + cp / 64) as char, Tail(cp % 64)]
    else if cp < 0x10000 then [(0xE0 + cp / 4096) as char, Tail(cp / 64 % 64), Tail(cp % 64)]
    else [(0xF0 + cp / 262144) as char, Tail(cp / 4096 % 64), Tail(cp / 64 % 64), Tail(cp % 64)]
  }

  lemma Unfold1(u: Pending, a: Byte)
    requires u.remaining == 1 && IsContinuation(a)
    ensures Decode(u, [a]) == Step(u, a)
  {
    assert Decode(Step(u, a), []) == Step(u, a);
  }

  lemma Unfold2(u: Pending, a: Byte, b: Byte)
    requires u.remaining == 2 && IsContinuation(a) && IsContinuation(b)
    ensures Decode(u, [a, b]) == Step(Step(u, a), b)
  {
    assert [a, b][1..] == [b];
    Unfold1(Step(u, a), b);
  }

  lemma Unfold3(u: Pending, a: Byte, b: Byte, c: Byte)
    requires u.remaining == 3 && IsContinuation(a) && IsContinuation(b) && IsContinuation(c)
    ensures Decode(u, [a, b, c]) == Step(Step(Step(u, a), b), c)
  {
    assert [a, b, c][1..] == [b, c];
    Unfold2(Step(u, a), b, c);
  }

  /** The base-64 digits of a code point. */
  lemma Digits(cp: nat)
    ensures cp == cp / 64 * 64 + cp % 64 && cp / 64 == cp / 4096 * 64 + cp / 64 % 64
    ensures cp / 4096 == cp / 262144 * 64 + cp / 4096 % 64
  {}

  lemma TailDigit(c: Byte)
    requires IsContinuation(c)
    ensures c == Tail(c as int % 64)
  {}

  lemma Two(a: nat, b: nat)
    requires 2 <= a < 32 && b < 64
    ensures Step(Lead((0xC0 + a) as char), Tail(b)) == Pending(0, a * 64 + b)
  {}

  lemma Three(a: nat, b: nat, c: nat)
    requires a < 16 && b < 64 && c < 64
    ensures Step(Step(Lead((0xE0 + a) as char), Tail(b)), Tail(c)) ==
            Pending(0, if a * 4096 + b * 64 < 0x800 then UINT64_MAX else a * 4096 + b * 64 + c)
  {
    var u := Lead((0xE0 + a) as char);
    assert u == Pending(2, a * 4096);
    assert Step(u, Tail(b)) == Pending(1, if a * 4096 + b * 64 < 0x800 then UINT64_MAX else a * 4096 + b * 64);
  }

  ghost predicate Fits(a: nat, b: nat) {
    0x10000 <= a * 262144 + b * 4096 <= 0x10FFFF
  }

  lemma Four(a: nat, b: nat, c: nat, d: nat)
    requires a <= 4 && b < 64 && c < 64 && d < 64
    ensures var u := Step(Step(Step(Lead((0xF0 + a) as char), Tail(b)), Tail(c)), Tail(d));
            u.remaining == 0 && if Fits(a, b) then u.codePoint == a * 262144 + b * 4096 + c * 64 + d
              else u.codePoint > 0x10FFFF
  {
    var u := Lead((0xF0 + a) as char);
    assert u == Pending(3, a * 262144);
    var v := Step(u, Tail(b));
    assert v == Pending(2, if a * 262144 + b * 4096 < 0x10000 then UINT64_MAX else a * 262144 + b * 4096);
    var w := Step(v, Tail(c));
    assert w == Pending(1, if v.codePoint == UINT64_MAX then UINT64_MAX else v.codePoint + c * 64);
  }

  lemma EncodeOf2(a: nat, b: nat)
    requires 2 <= a < 32 && b < 64
    ensures Encode(a * 64 + b) == [(0xC0 + a) as char, Tail(b)]
  {}

  lemma EncodeOf3(a: nat, b: nat, c: nat)
    requires a < 16 && b < 64 && c < 64 && 0x800 <= a * 4096 + b * 64
    ensures Encode(a * 4096 + b * 64 + c) == [(0xE0 + a) as char, Tail(b), Tail(c)]
  {
    var cp := a * 4096 + b * 64 + c;
    assert cp / 4096 == a && cp / 64 == a * 64 + b;
  }

  lemma EncodeOf4(a: nat, b: nat, c: nat, d: nat)
    requires a <= 4 && b < 64 && c < 64 && d < 64 && Fits(a, b)
    ensures a * 262144 + b * 4096 + c * 64 + d <= 0x10FFFF
    ensures Encode(a * 262144 + b * 4096 + c * 64 + d) == [(0xF0 + a) as char, Tail(b), Tail(c), Tail(d)]
  {
    var cp := a * 262144 + b * 4096 + c * 64 + d;
    assert cp / 262144 == a && cp / 4096 == a * 64 + b && cp / 64 == a * 4096 + b * 64 + c;
  }

  /** `e` is a whole sequence and reads as `cp`. */
  ghost predicate Reads(e: seq<Byte>, cp: nat) {
    && e != [] && IsLead(e[0]) && Continuations(e[1..]) && |e| == 1 + Lead(e[0]).remaining
    && Decode(Lead(e[0]), e[1..]) == Pending(0, cp)
  }

  lemma Reads2(a: nat, b: nat)
    requires 2 <= a < 32 && b < 64
    ensures Reads([(0xC0 + a) as char, Tail(b)], a * 64 + b)
  {
    var e := [(0xC0 + a) as char, Tail(b)];
    assert e[1..] == [e[1]];
    Unfold1(Lead(e[0]), e[1]);
    Two(a, b);
  }

  lemma Reads3(a: nat, b: nat, c: nat)
    requires a < 16 && b < 64 && c < 64 && 0x800 <= a * 4096 + b * 64
    ensures Reads([(0xE0 + a) as char, Tail(b), Tail(c)], a * 4096 + b * 64 + c)
  {
    var e := [(0xE0 + a) as char, Tail(b), Tail(c)];
    assert e[1..] == [e[1], e[2]];
    Unfold2(Lead(e[0]), e[1], e[2]);
    Three(a, b, c);
  }

  lemma Reads4(a: nat, b: nat, c: nat, d: nat)
    requires a <= 4 && b < 64 && c < 64 && d < 64 && Fits(a, b)
    ensures Reads([(0xF0 + a) as char, Tail(b), Tail(c), Tail(d)], a * 262144 + b * 4096 + c * 64 + d)
  {
    var e := [(0xF0 + a) as char, Tail(b), Tail(c), Tail(d)];
    assert e[1..] == [e[1], e[2], e[3]];
    Unfold3(Lead(e[0]), e[1], e[2], e[3]);
    Four(a, b, c, d);
  }

  /** Every code point comes back from its encoding. */
  lemma EncodedDecodes(cp: nat)
    requires 0x80 <= cp <= 0x10FFFF
    ensures Reads(Encode(cp), cp)
  {
    Digits(cp);
    if cp < 0x800 {
      Reads2(cp / 64, cp % 64);
    } else if cp < 0x10000 {
      Reads3(cp / 4096, cp / 64 % 64, cp % 64);
    } else {
      Reads4(cp / 262144, cp / 4096 % 64, cp / 64 % 64, cp % 64);
    }
  }

  lemma Accepted2(lead: Byte, x: Byte)
    requires 0xC2 <= lead as int <= 0xDF && IsContinuation(x)
    ensures var u := Step(Lead(lead), x);
            u.remaining == 0 && 0x80 <= u.codePoint <= 0x10FFFF && Encode(u.codePoint) == [lead, x]
  {
    TailDigit(x);
    Two(lead as int - 0xC0, x as int % 64);
    EncodeOf2(lead as int - 0xC0, x as int % 64);
  }

  lemma Accepted3(lead: Byte, x: Byte, y: Byte)
    requires 0xE0 <= lead as int <= 0xEF && IsContinuation(x) && IsContinuation(y)
    ensures var u := Step(Step(Lead(lead), x), y);
            u.remaining == 0 && (u.codePoint <= 0x10FFFF ==> u.codePoint >= 0x80 && Encode(u.codePoint) == [lead, x, y])
  {
    var a, b, c := lead as int - 0xE0, x as int % 64, y as int % 64;
    TailDigit(x);
    TailDigit(y);
    Three(a, b, c);
    if a * 4096 + b * 64 >= 0x800 {
      EncodeOf3(a, b, c);
    }
  }

  lemma Accepted4(lead: Byte, x: Byte, y: Byte, z: Byte)
    requires 0xF0 <= lead as int <= 0xF4 && IsContinuation(x) && IsContinuation(y) && IsContinuation(z)
    ensures var u := Step(Step(Step(Lead(lead), x), y), z);
            u.remaining == 0 && (u.codePoint <= 0x10FFFF ==>
                                 u.codePoint >= 0x80 && Encode(u.codePoint) == [lead, x, y, z])
  {
    var a, b, c, d := lead as int - 0xF0, x as int % 64, y as int % 64, z as int % 64;
    TailDigit(x);
    TailDigit(y);
    TailDigit(z);
    Four(a, b, c, d);
    if Fits(a, b) {
      EncodeOf4(a, b, c, d);
    }
  }

  /** A sequence that is not flagged is the encoding of its code point: no overlong form gets through. */
  lemma AcceptedIsShortest(lead: Byte, rest: seq<Byte>)
    requires IsLead(lead) && |rest| == Lead(lead).remaining && Continuations(rest)
    ensures var u := Decode(Lead(lead), rest);
            u.remaining == 0 && (u.codePoint <= 0x10FFFF ==>
                                 u.codePoint >= 0x80 && [lead] + rest == Encode(u.codePoint))
  {
    if |rest| == 1 {
      assert rest == [rest[0]];
      Unfold1(Lead(lead), rest[0]);
      Accepted2(lead, rest[0]);
    } else if |rest| == 2 {
      assert rest == [rest[0], rest[1]];
      Unfold2(Lead(lead), rest[0], rest[1]);
      Accepted3(lead, rest[0], rest[1]);
    } else {
      assert rest == [rest[0], rest[1], rest[2]];
      Unfold3(Lead(lead), rest[0], rest[1], rest[2]);
      Accepted4(lead, rest[0], rest[1], rest[2]);
    }
  }
}
