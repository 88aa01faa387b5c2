/**
 Field units: a bit range of an operation region, reached through accesses of 1, 2, 4 or 8 bytes.
 The region is an array of bytes in which every access succeeds, and the 64-bit value an access
 moves is the array of its eight bytes.
 */
module FieldUnit {
  import opened Bits
  import opened BitCopy
  import opened BufferField

  datatype Rule = Preserve | WriteAsOnes | WriteAsZeroes | Reserved

  datatype Status = Ok | InvalidArgument

  datatype Field = Field(byteOffset: nat, bitOffset: nat, bitLength: nat, width: nat, rule: Rule) {
    /** As the field's declaration computes it: the bit offset is within the first access. */
    predicate Valid() {
      (width == 1 || width == 2 || width == 4 || width == 8) && bitOffset < 8 * width
    }

    /** The position of the field's first bit in the region. */
    function Start(): nat {
      8 * byteOffset + bitOffset
    }

    /** The first byte after the accesses that cover the field. */
    function End(): nat
      requires Valid()
    {
      byteOffset + Units(bitOffset + bitLength, width) * width
    }

    predicate Within(size: nat)
      requires Valid()
    {
      End() <= size && byteOffset + width <= size
    }
  }

  /** How many accesses of `width` bytes cover `bits` bits. */
  function Units(bits: nat, width: nat): nat
    requires width == 1 || width == 2 || width == 4 || width == 8
  {
    match width
    case 1 => (bits + 7) / 8
    case 2 => (bits + 15) / 16
    case 4 => (bits + 31) / 32
    case _ => (bits + 63) / 64
  }

  /** One access takes what is left of its unit, or what is left of the field. */
  lemma OneUnit(index: nat, left: nat, width: nat)
    requires width == 1 || width == 2 || width == 4 || width == 8
    requires index < 8 * width && 0 < index + left
    ensures var take := if left < 8 * width - index then left else 8 * width - index;
            Units(index + left, width) == 1 + Units(left - take, width)
  {}

  lemma NoUnits(bits: nat, width: nat)
    requires width == 1 || width == 2 || width == 4 || width == 8
    ensures Units(bits, width) == 0 <==> bits == 0
  {}

  // ---- Single accesses

  method ReadUnit(region: array<Byte>, at: nat, width: nat, out: array<Byte>)
    requires out != region && out.Length == 8 && width <= 8 && at + width <= region.Length
    modifies out
    ensures forall i :: 0 <= i < 8 * width ==> (BitOf(out[..], i) <==> BitOf(region[..], 8 * at + i))
  {
    MemCopyFrom(out, region, at, width);
    forall i | 0 <= i < 8 * width ensures BitOf(out[..], i) <==> BitOf(region[..], 8 * at + i) {
      BitAcross(region[..], at + i / 8, i % 8);
      assert 8 * (at + i / 8) + i % 8 == 8 * at + i;
    }
  }

  method MemCopyFrom(out: array<Byte>, region: array<Byte>, at: nat, width: nat)
    requires out != region && out.Length == 8 && width <= 8 && at + width <= region.Length
    modifies out
    ensures forall p :: 0 <= p < width ==> out[p] == region[at + p]
    ensures forall p :: width <= p < 8 ==> out[p] == 0
  {
    forall p | 0 <= p < 8 {
      out[p] := if p < width then region[at + p] else 0;
    }
  }

  /** Bit `i` of the region after a unit was written. */
  ghost predicate UnitBit(region: seq<Byte>, at: nat, width: nat, data: seq<Byte>, i: nat)
    requires |data| == 8 && width <= 8 && i < 8 * |region|
  {
    if 8 * at <= i < 8 * (at + width) then BitOf(data, i - 8 * at) else BitOf(region, i)
  }

  method WriteUnit(region: array<Byte>, at: nat, width: nat, data: array<Byte>)
    requires data != region && data.Length == 8 && width <= 8 && at + width <= region.Length
    modifies region
    ensures forall i :: 0 <= i < 8 * region.Length ==>
              (BitOf(region[..], i) <==> UnitBit(old(region[..]), at, width, data[..], i))
  {
    ghost var before := region[..];
    MemCopy(region, at, data, 0, width);
    forall i | 0 <= i < 8 * region.Length ensures BitOf(region[..], i) <==> UnitBit(before, at, width, data[..], i) {
      if 8 * at <= i < 8 * (at + width) {
        BitAcross(data[..], i / 8 - at, i % 8);
        assert 8 * (i / 8 - at) + i % 8 == i - 8 * at;
      }
    }
  }

  // ---- Reading

  lemma ReadRound(dst: seq<Byte>, before: seq<Byte>, first: seq<Byte>, region: seq<Byte>, out: seq<Byte>,
                  start: nat, done: nat, at: nat, index: nat, take: nat, width: nat)
    requires |out| == 8 && width <= 8 && |before| == |first| && start + done + take <= 8 * |region|
    requires index + take <= 8 * width && 8 * at + index == start + done
    requires forall i :: 0 <= i < 8 * width && 8 * at + i < 8 * |region| ==>
             (BitOf(out, i) <==> BitOf(region, 8 * at + i))
    requires done > 0 ==> IsCopy(before, first, 0, 8 * |first|, region, start, done)
    requires var from := if done < 8 * |first| then done else 8 * |first|;
             IsCopy(dst, before, from, 8 * |first| - from, out, index, take)
    ensures IsCopy(dst, first, 0, 8 * |first|, region, start, done + take)
  {
    forall i | 0 <= i < 8 * |first|
      ensures BitOf(dst, i) <==> Copied(first, 0, 8 * |first|, region, start, done + take, i)
    {
      var from := if done < 8 * |first| then done else 8 * |first|;
      assert BitOf(dst, i) <==> Copied(before, from, 8 * |first| - from, out, index, take, i);
      if i < from {
        assert BitOf(before, i) <==> Copied(first, 0, 8 * |first|, region, start, done, i);
      } else if i - from < take {
        var j := index + (i - from);
        assert BitOf(out, j) <==> BitOf(region, 8 * at + j);
        assert 8 * at + j == start + (i - 0);
      }
    }
  }

  /** `toDo` accesses of `width` bytes from byte `at` end at byte `end`. */
  ghost predicate Covers(at: nat, toDo: nat, width: nat, end: nat)
    decreases toDo
  {
    if toDo == 0 then at == end else at + width <= end && Covers(at + width, toDo - 1, width, end)
  }

  lemma {:induction false} CoversProduct(at: nat, toDo: nat, width: nat)
    ensures Covers(at, toDo, width, at + toDo * width)
    decreases toDo
  {
    if toDo > 0 {
      CoversProduct(at + width, toDo - 1, width);
      MulStep(toDo, width);
    }
  }

  /** Where an access loop stands: `done` bits moved, `left` to go, the next access at byte `at`. */
  ghost predicate Cursor(f: Field, end: nat, at: nat, index: nat, left: nat, done: nat, toDo: nat)
    requires f.Valid()
  {
    && done + left == f.bitLength && index < 8 * f.width
    && toDo == Units(index + left, f.width) && Covers(at, toDo, f.width, end)
    && (toDo > 0 ==> 8 * at + index == f.Start() + done)
  }

  function Take(f: Field, index: nat, left: nat): nat
    requires index < 8 * f.width
  {
    if left < 8 * f.width - index then left else 8 * f.width - index
  }

  lemma CursorMoves(f: Field, end: nat, at: nat, index: nat, left: nat, done: nat, toDo: nat)
    requires f.Valid() && Cursor(f, end, at, index, left, done, toDo) && toDo > 0
    ensures at + f.width <= end
    ensures Cursor(f, end, at + f.width, 0, left - Take(f, index, left), done + Take(f, index, left), toDo - 1)
  {
    UnitTaken(index, left, f.width);
  }

  lemma MulStep(n: nat, w: nat)
    requires n > 0
    ensures n * w == w + (n - 1) * w
  {}

  lemma UnitTaken(index: nat, left: nat, width: nat)
    requires width == 1 || width == 2 || width == 4 || width == 8
    requires index < 8 * width && Units(index + left, width) > 0
    ensures var take := if left < 8 * width - index then left else 8 * width - index;
            && Units(left - take, width) == Units(index + left, width) - 1
            && (Units(left - take, width) > 0 ==> take == 8 * width - index)
  {
    NoUnits(index + left, width);
    OneUnit(index, left, width);
    NoUnits(left - (if left < 8 * width - index then left else 8 * width - index), width);
  }

  lemma CursorEnds(f: Field, end: nat, at: nat, index: nat, left: nat, done: nat, toDo: nat)
    requires f.Valid() && Cursor(f, end, at, index, left, done, toDo)
    ensures toDo == 0 ==> done == f.bitLength && at == end
  {
    NoUnits(index + left, f.width);
  }

  function Min(a: nat, b: nat): nat {
    if a < b then a else b
  }

  /** The destination holds the first `done` bits of the field, the rest zero; nothing yet at the start. */
  ghost predicate ReadSoFar(dst: seq<Byte>, first: seq<Byte>, region: seq<Byte>, start: nat, done: nat, started: bool)
    requires start + done <= 8 * |region|
  {
    if started then IsCopy(dst, first, 0, 8 * |first|, region, start, done) else dst == first && done == 0
  }

  /** One access and one bit copy into what remains of the destination. */
  method ReadOne(region: array<Byte>, f: Field, at: nat, index: nat, left: nat, dst: array<Byte>, dstIndex: nat,
                 out: array<Byte>,
                 ghost first: seq<Byte>, ghost end: nat, ghost done: nat, ghost toDo: nat, ghost started: bool)
      returns (length: nat)
    requires dst != region && out != region && out != dst && out.Length == 8 && |first| == dst.Length
    requires f.Valid() && Cursor(f, end, at, index, left, done, toDo) && toDo > 0 && end <= region.Length
    requires f.Start() + f.bitLength <= 8 * region.Length
    requires dstIndex == Min(done, 8 * dst.Length)
    requires ReadSoFar(dst[..], first, region[..], f.Start(), done, started)
    modifies dst, out
    ensures length <= left && Cursor(f, end, at + f.width, 0, left - length, done + length, toDo - 1)
    ensures ReadSoFar(dst[..], first, region[..], f.Start(), done + length, true)
  {
    length := Take(f, index, left);
    CursorMoves(f, end, at, index, left, done, toDo);
    ReadUnit(region, at, f.width, out);
    ghost var before := dst[..];
    Copy(dst, dstIndex, 8 * dst.Length - dstIndex, out, index, length);
    ReadRound(dst[..], before, first, region[..], out[..], f.Start(), done, at, index, length, f.width);
  }

  /** do_read_misaligned_field_unit: the field's bits, zero-extended or truncated to the destination. */
  method ReadSlow(region: array<Byte>, f: Field, dst: array<Byte>)
    requires dst != region && f.Valid() && f.Within(region.Length) && f.bitOffset + f.bitLength > 0
    modifies dst
    ensures f.Start() + f.bitLength <= 8 * region.Length
    ensures IsCopy(dst[..], old(dst[..]), 0, 8 * dst.Length, region[..], f.Start(), f.bitLength)
  {
    var at: nat, left: nat, index: nat := f.byteOffset, f.bitLength, f.bitOffset;
    var dstIndex: nat, dstLength: nat := 0, 8 * dst.Length;
    var toDo := Units(f.bitOffset + f.bitLength, f.width);
    var out := new Byte[8];
    ghost var first, source, start, end := dst[..], region[..], f.Start(), f.End();
    ghost var done: nat, started := 0, false;
    CursorStarts(f);
    while toDo > 0
      invariant Cursor(f, end, at, index, left, done, toDo) && (started || toDo > 0) && region[..] == source
      invariant dstIndex == Min(done, 8 * dst.Length) && dstLength == 8 * dst.Length - dstIndex
      invariant ReadSoFar(dst[..], first, source, start, done, started)
      decreases toDo
    {
      var length := ReadOne(region, f, at, index, left, dst, dstIndex, out, first, end, done, toDo, started);
      var delta := Min(dstLength, length);
      dstIndex, dstLength := dstIndex + delta, dstLength - delta;
      at, left, index := at + f.width, left - length, 0;
      done, started := done + length, true;
      toDo := toDo - 1;
    }
    CursorEnds(f, end, at, index, left, done, toDo);
  }

  lemma CursorStarts(f: Field)
    requires f.Valid() && f.bitOffset + f.bitLength > 0
    ensures f.Start() + f.bitLength <= 8 * f.End()
    ensures var units := Units(f.bitOffset + f.bitLength, f.width);
            units > 0 && Cursor(f, f.End(), f.byteOffset, f.bitOffset, f.bitLength, 0, units)
  {
    NoUnits(f.bitOffset + f.bitLength, f.width);
    UnitsCover(f);
    CoversProduct(f.byteOffset, Units(f.bitOffset + f.bitLength, f.width), f.width);
  }

  lemma UnitsCover(f: Field)
    requires f.Valid()
    ensures f.Start() + f.bitLength <= 8 * f.End()
  {}

  /** The fast path's bytes: the unit's low bytes, zero-extended, with the tail cut off. */
  ghost function FastByte(out: seq<Byte>, length: nat, p: nat): Byte
    requires RoundUpToBytes(length) <= |out|
  {
    var count := RoundUpToBytes(length);
    if p >= count then 0 else if p == count - 1 && length % 8 != 0 then out[p] & Low(length % 8) else out[p]
  }

  lemma FastBit(out: seq<Byte>, length: nat, p: nat, k: nat)
    requires RoundUpToBytes(length) <= |out| && k < 8
    ensures Bit(FastByte(out, length, p), k) <==> 8 * p + k < length && Bit(out[p], k)
  {
    NoBit(k);
    if length % 8 != 0 && p == RoundUpToBytes(length) - 1 {
      TrimmedBit(out[p], length % 8, k);
    }
  }

  lemma FastCopies(dst: seq<Byte>, first: seq<Byte>, out: seq<Byte>, region: seq<Byte>, at: nat, length: nat)
    requires |dst| == |first| && RoundUpToBytes(length) <= |out| && at + RoundUpToBytes(length) <= |region|
    requires forall p :: 0 <= p < RoundUpToBytes(length) ==> out[p] == region[at + p]
    requires forall p :: 0 <= p < |dst| ==> dst[p] == FastByte(out, length, p)
    ensures IsCopy(dst, first, 0, 8 * |first|, region, 8 * at, length)
  {
    forall i | 0 <= i < 8 * |first|
      ensures BitOf(dst, i) <==> Copied(first, 0, 8 * |first|, region, 8 * at, length, i)
    {
      var p, k := i / 8, i % 8;
      FastBit(out, length, p, k);
      if i < length {
        BitAcross(region, at + p, k);
        assert 8 * (at + p) + k == 8 * at + (i - 0);
      }
    }
  }

  method FillFast(dst: array<Byte>, out: array<Byte>, length: nat)
    requires dst != out && RoundUpToBytes(length) <= out.Length
    modifies dst
    ensures forall p :: 0 <= p < dst.Length ==> dst[p] == FastByte(out[..], length, p)
  {
    var count := RoundUpToBytes(length);
    MemCopyZero(dst, 0, dst.Length, out, count);
    if dst.Length >= count {
      CutTail(dst, if count > 0 then count - 1 else 0, length);
    }
  }

  /** The single-access path, for a field that starts and ends within one access. */
  method ReadFast(region: array<Byte>, f: Field, dst: array<Byte>)
    requires dst != region && f.Valid() && f.Within(region.Length)
    requires f.bitOffset == 0 && RoundUpToBytes(f.bitLength) <= f.width
    modifies dst
    ensures IsCopy(dst[..], old(dst[..]), 0, 8 * dst.Length, region[..], f.Start(), f.bitLength)
  {
    ghost var first := dst[..];
    var out := new Byte[8];
    MemCopyFrom(out, region, f.byteOffset, f.width);
    FillFast(dst, out, f.bitLength);
    FastCopies(dst[..], first, out[..], region[..], f.byteOffset, f.bitLength);
  }

  /**
   uacpi_read_field_unit: whichever path is taken, the destination becomes the field's bits,
   zero-extended or truncated to its size.
   */
  method Read(region: array<Byte>, f: Field, dst: array<Byte>)
    requires dst != region && f.Valid() && f.Within(region.Length)
    modifies dst
    ensures f.Start() + f.bitLength <= 8 * region.Length
    ensures IsCopy(dst[..], old(dst[..]), 0, 8 * dst.Length, region[..], f.Start(), f.bitLength)
  {
    UnitsCover(f);
    if f.bitOffset == 0 && RoundUpToBytes(f.bitLength) <= f.width {
      ReadFast(region, f, dst);
      return;
    }
    ReadSlow(region, f, dst);
  }

  /** Where the single-access path applies to a field of at least one bit, the looped path reads the same bytes. */
  method ReadBothWays(region: array<Byte>, f: Field, a: array<Byte>, b: array<Byte>)
    requires a != region && b != region && a != b && a[..] == b[..] && f.Valid() && f.Within(region.Length)
    requires f.bitOffset == 0 && 0 < f.bitLength && RoundUpToBytes(f.bitLength) <= f.width
    modifies a, b
    ensures a[..] == b[..]
  {
    ghost var first := a[..];
    ReadFast(region, f, a);
    ReadSlow(region, f, b);
    CopyUnique(a[..], b[..], first, 0, 8 * |first|, region[..], f.Start(), f.bitLength);
  }

  // ---- Writing

  /** What a bit of a partly written access unit becomes outside the field. */
  ghost predicate Filler(rule: Rule, old_: bool) {
    rule == WriteAsOnes || (rule != WriteAsZeroes && old_)
  }

  /**
   Bit `i` of the region once the first `done` bits of the field are written, by accesses that end
   at byte `upto`: field bits are those of the source, zero past its end; other bits of the accessed
   units follow the update rule; everything else is as it was.
   */
  ghost predicate WrittenBit(region: seq<Byte>, f: Field, src: seq<Byte>, upto: nat, done: nat, i: nat)
    requires i < 8 * |region|
  {
    if f.Start() <= i < f.Start() + done then i - f.Start() < 8 * |src| && BitOf(src, i - f.Start())
    else if 8 * f.byteOffset <= i < 8 * upto then Filler(f.rule, BitOf(region, i))
    else BitOf(region, i)
  }

  ghost predicate IsWritten(region': seq<Byte>, region: seq<Byte>, f: Field, src: seq<Byte>, upto: nat, done: nat) {
    && |region'| == |region|
    && (forall i :: 0 <= i < 8 * |region| ==> (BitOf(region', i) <==> WrittenBit(region, f, src, upto, done, i)))
  }

  /** The value an access starts from: zero, or for a partial unit what the update rule says. */
  ghost predicate Prepared(data: seq<Byte>, rule: Rule, region: seq<Byte>, at: nat, width: nat)
    requires width <= 8 && at + width <= |region|
  {
    |data| == 8 && forall j :: 0 <= j < 8 * width ==> (BitOf(data, j) <==> Filler(rule, BitOf(region, 8 * at + j)))
  }

  lemma OnesBits(k: nat)
    requires k < 8
    ensures Bit(255, k) && !Bit(0, k)
  {}

  method Prepare(region: array<Byte>, rule: Rule, at: nat, width: nat, partial: bool, data: array<Byte>)
      returns (status: Status)
    requires data != region && data.Length == 8 && width <= 8 && at + width <= region.Length
    modifies data
    ensures status == Ok <==> !(partial && rule == Reserved)
    ensures status == Ok && partial ==> Prepared(data[..], rule, region[..], at, width)
  {
    forall p | 0 <= p < 8 {
      data[p] := 0;
    }
    if partial {
      match rule
      case Preserve => ReadUnit(region, at, width, data);
      case WriteAsOnes =>
        forall p | 0 <= p < 8 {
          data[p] := 255;
        }
        forall j | 0 <= j < 8 * width ensures BitOf(data[..], j) {
          OnesBits(j % 8);
        }
      case WriteAsZeroes =>
        forall j | 0 <= j < 8 * width ensures !BitOf(data[..], j) {
          OnesBits(j % 8);
        }
      case Reserved => return InvalidArgument;
    }
    status := Ok;
  }

  /** Bit `j` of the value written by one access, compared with the specification. */
  lemma WriteRoundBit(now: seq<Byte>, region: seq<Byte>, f: Field, src: seq<Byte>, data: seq<Byte>, base: seq<Byte>,
                      at: nat, index: nat, take: nat, done: nat, j: nat)
    requires |now| == |region| && |data| == |base| == 8 && at + f.width <= |region| && f.byteOffset <= at
    requires f.width <= 8 && j < 8 * f.width
    requires index + take <= 8 * f.width && 8 * at + index == f.Start() + done && (index == 0 || done == 0)
    requires BitOf(now, 8 * at + j) <==> WrittenBit(region, f, src, at, done, 8 * at + j)
    requires (index == 0 && take == 8 * f.width) || (BitOf(base, j) <==> Filler(f.rule, BitOf(now, 8 * at + j)))
    requires var from := Min(done, 8 * |src|); BitOf(data, j) <==>
             Copied(base, index, take, src, from, 8 * |src| - from, j)
    ensures BitOf(data, j) <==> WrittenBit(region, f, src, at + f.width, done + take, 8 * at + j)
  {
    if index <= j < index + take {
      assert done + (j - index) == 8 * at + j - f.Start();
    } else {
      assert !(f.Start() <= 8 * at + j < f.Start() + done + take);
    }
  }

  lemma WriteRound(next: seq<Byte>, now: seq<Byte>, region: seq<Byte>, f: Field, src: seq<Byte>, data: seq<Byte>,
                   base: seq<Byte>,
                   at: nat, index: nat, take: nat, done: nat)
    requires f.width <= 8 && |now| == |next| == |region| && |data| == |base| == 8 && at + f.width <= |region|
    requires f.byteOffset <= at
    requires index + take <= 8 * f.width && 8 * at + index == f.Start() + done && (index == 0 || done == 0)
    requires IsWritten(now, region, f, src, at, done)
    requires (index == 0 && take == 8 * f.width) || Prepared(base, f.rule, now, at, f.width)
    requires var from := Min(done, 8 * |src|); IsCopy(data, base, index, take, src, from, 8 * |src| - from)
    requires forall i :: 0 <= i < 8 * |region| ==> (BitOf(next, i) <==> UnitBit(now, at, f.width, data, i))
    ensures IsWritten(next, region, f, src, at + f.width, done + take)
  {
    forall i | 0 <= i < 8 * |region|
      ensures BitOf(next, i) <==> WrittenBit(region, f, src, at + f.width, done + take, i)
    {
      assert BitOf(next, i) <==> UnitBit(now, at, f.width, data, i);
      assert BitOf(now, i) <==> WrittenBit(region, f, src, at, done, i);
      if 8 * at <= i < 8 * (at + f.width) {
        assert i == 8 * at + (i - 8 * at);
        WriteRoundBit(now, region, f, src, data, base, at, index, take, done, i - 8 * at);
      }
    }
  }

  /** The write loop's position; only its first access can start inside a unit. */
  ghost predicate WriteCursor(f: Field, end: nat, at: nat, index: nat, left: nat, done: nat, toDo: nat)
    requires f.Valid()
  {
    && Cursor(f, end, at, index, left, done, toDo)
    && f.byteOffset <= at && (index == 0 || done == 0) && (done == 0 ==> at == f.byteOffset)
  }

  /** The first byte after the accesses of a write; a write of no bits accesses nothing. */
  function WriteEnd(f: Field): nat
    requires f.Valid()
  {
    if f.bitLength == 0 then f.byteOffset else f.End()
  }

  lemma WriteStarts(f: Field)
    requires f.Valid()
    ensures WriteCursor(f, f.End(), f.byteOffset, f.bitOffset, f.bitLength, 0,
                        Units(f.bitOffset + f.bitLength, f.width))
  {
    CoversProduct(f.byteOffset, Units(f.bitOffset + f.bitLength, f.width), f.width);
  }

  lemma WriteEnds(f: Field, at: nat, index: nat, done: nat, toDo: nat)
    requires f.Valid() && WriteCursor(f, f.End(), at, index, 0, done, toDo)
    ensures done == f.bitLength && at == WriteEnd(f)
  {
    NoUnits(index, f.width);
  }

  lemma WrittenNothing(region: seq<Byte>, f: Field, src: seq<Byte>)
    ensures IsWritten(region, region, f, src, f.byteOffset, 0)
  {}

  /** The prepared unit gets its bits of the source and is stored. */
  method StoreOne(region: array<Byte>, f: Field, at: nat, index: nat, length: nat, src: array<Byte>, srcIndex: nat,
                  data: array<Byte>, ghost first: seq<Byte>, ghost done: nat)
    requires data != region && src != region && data != src && data.Length == 8 && |first| == region.Length
    requires f.width <= 8 && at + f.width <= region.Length && f.byteOffset <= at
    requires index + length <= 8 * f.width && 8 * at + index == f.Start() + done && (index == 0 || done == 0)
    requires srcIndex == Min(done, 8 * src.Length) && IsWritten(region[..], first, f, src[..], at, done)
    requires (index == 0 && length == 8 * f.width) || Prepared(data[..], f.rule, region[..], at, f.width)
    modifies region, data
    ensures IsWritten(region[..], first, f, src[..], at + f.width, done + length)
  {
    ghost var base, now := data[..], region[..];
    Copy(data, index, length, src, srcIndex, 8 * src.Length - srcIndex);
    WriteUnit(region, at, f.width, data);
    WriteRound(region[..], now, first, f, src[..], data[..], base, at, index, length, done);
  }

  /** One round of the write loop. */
  method WriteOne(region: array<Byte>, f: Field, at: nat, index: nat, left: nat, src: array<Byte>, srcIndex: nat,
                  data: array<Byte>,
                  ghost first: seq<Byte>, ghost end: nat, ghost done: nat, ghost toDo: nat)
      returns (status: Status, length: nat)
    requires data != region && src != region && data != src && data.Length == 8 && |first| == region.Length
    requires f.Valid() && WriteCursor(f, end, at, index, left, done, toDo) && left > 0 && end <= region.Length
    requires srcIndex == Min(done, 8 * src.Length)
    requires IsWritten(region[..], first, f, src[..], at, done)
    modifies region, data
    ensures length == Take(f, index, left) <= left && toDo > 0
    ensures status == Ok <==> f.rule != Reserved || (index == 0 && length == 8 * f.width)
    ensures status == Ok ==> WriteCursor(f, end, at + f.width, 0, left - length, done + length, toDo - 1)
    ensures status == Ok ==> IsWritten(region[..], first, f, src[..], at + f.width, done + length)
    ensures status != Ok ==> region[..] == old(region[..])
  {
    NoUnits(index + left, f.width);
    length := Take(f, index, left);
    CursorMoves(f, end, at, index, left, done, toDo);
    status := Prepare(region, f.rule, at, f.width, index != 0 || length < 8 * f.width, data);
    if status != Ok {
      return;
    }
    StoreOne(region, f, at, index, length, src, srcIndex, data, first, done);
  }

  /** So many bits fill whole units of `width` bytes. */
  predicate Fills(bits: nat, width: nat)
    requires width > 0
  {
    bits == 0 || (8 * width <= bits && Fills(bits - 8 * width, width))
  }

  /** Every access of the write covers its whole unit. */
  predicate WholeUnits(f: Field)
    requires f.Valid()
  {
    f.bitLength == 0 || (f.bitOffset == 0 && Fills(f.bitLength, f.width))
  }

  /** So far every access was whole, as a reserved rule demands. */
  ghost predicate WholeSoFar(f: Field, index: nat, done: nat)
    requires f.Valid()
  {
    (done == 0 && index == f.bitOffset) || (done > 0 && index == 0 && f.bitOffset == 0 && Fills(done, f.width))
  }

  lemma WholeGoesOn(f: Field, index: nat, left: nat, done: nat)
    requires f.Valid() && WholeSoFar(f, index, done) && left > 0 && done + left == f.bitLength && index < 8 * f.width
    ensures index == 0 && Take(f, index, left) == 8 * f.width ==> WholeSoFar(f, 0, done + 8 * f.width)
    ensures !(index == 0 && Take(f, index, left) == 8 * f.width) ==> !WholeUnits(f)
  {
    Remainders(done, left, f.width);
  }

  lemma {:induction false} Remainders(done: nat, left: nat, width: nat)
    requires width > 0 && Fills(done, width)
    ensures Fills(done + 8 * width, width)
    ensures 0 < left < 8 * width ==> !Fills(done + left, width)
    decreases done
  {
    if done > 0 {
      Remainders(done - 8 * width, left, width);
    }
  }

  /** What a write does to the bits outside the field. */
  ghost predicate OutsideKept(region': seq<Byte>, region: seq<Byte>, f: Field)
    requires f.Valid() && |region'| == |region|
  {
    forall i :: 0 <= i < 8 * |region| && !(f.Start() <= i < f.Start() + f.bitLength) ==>
      if f.rule == WriteAsOnes && f.bitLength > 0 && 8 * f.byteOffset <= i < 8 * f.End() then BitOf(region', i)
      else if f.rule == WriteAsZeroes && f.bitLength > 0 && 8 * f.byteOffset <= i < 8 * f.End() then !BitOf(region', i)
      else BitOf(region', i) <==> BitOf(region, i)
  }

  lemma OutsideOf(region': seq<Byte>, region: seq<Byte>, f: Field, src: seq<Byte>, upto: nat, done: nat)
    requires f.Valid() && IsWritten(region', region, f, src, upto, done) && done <= f.bitLength
    requires (upto == WriteEnd(f) && done == f.bitLength) || f.rule == Reserved
    ensures OutsideKept(region', region, f)
  {
    forall i | 0 <= i < 8 * |region| && !(f.Start() <= i < f.Start() + f.bitLength)
      ensures if f.rule == WriteAsOnes && f.bitLength > 0 && 8 * f.byteOffset <= i < 8 * f.End() then BitOf(region', i)
              else if f.rule == WriteAsZeroes && f.bitLength > 0 && 8 * f.byteOffset <= i < 8 * f.End()
              then !BitOf(region', i)
              else BitOf(region', i) <==> BitOf(region, i)
    {
      assert BitOf(region', i) <==> WrittenBit(region, f, src, upto, done, i);
    }
  }

  /** Where the write loop stands: its variables, the bits moved and the accesses to go. */
  ghost predicate Writing(now: seq<Byte>, first: seq<Byte>, f: Field, src: seq<Byte>, at: nat, index: nat, left: nat,
                          srcIndex: nat, srcLength: nat, end: nat, done: nat, toDo: nat)
  {
    && f.Valid() && |first| == |now| && WriteCursor(f, end, at, index, left, done, toDo)
    && srcIndex == Min(done, 8 * |src|) && srcLength == 8 * |src| - srcIndex
    && IsWritten(now, first, f, src, at, done) && (f.rule == Reserved ==> WholeSoFar(f, index, done))
  }

  /** One round, and what its failure means. */
  method WriteNext(region: array<Byte>, f: Field, at: nat, index: nat, left: nat, src: array<Byte>, srcIndex: nat,
                   srcLength: nat, data: array<Byte>, ghost first: seq<Byte>, ghost end: nat, ghost done: nat,
                   ghost toDo: nat)
      returns (status: Status, at': nat, index': nat, left': nat, srcIndex': nat, srcLength': nat, ghost done': nat,
               ghost toDo': nat)
    requires data != region && src != region && data != src && data.Length == 8 && left > 0
    requires Writing(region[..], first, f, src[..], at, index, left, srcIndex, srcLength, end, done, toDo)
    requires end <= region.Length
    modifies region, data
    ensures status == Ok ==>
              toDo' < toDo
              && Writing(region[..], first, f, src[..], at', index', left', srcIndex', srcLength', end, done', toDo')
    ensures status != Ok ==>
              |first| == region.Length && f.rule == Reserved && !WholeUnits(f) && OutsideKept(region[..], first, f)
  {
    if f.rule == Reserved {
      WholeGoesOn(f, index, left, done);
    }
    at', index', left', srcIndex', srcLength', done', toDo' := at, index, left, srcIndex, srcLength, done, toDo;
    var length;
    status, length := WriteOne(region, f, at, index, left, src, srcIndex, data, first, end, done, toDo);
    if status != Ok {
      OutsideOf(region[..], first, f, src[..], at, done);
      return;
    }
    var delta := Min(srcLength, length);
    srcIndex', srcLength' := srcIndex + delta, srcLength - delta;
    at', left', index' := at + f.width, left - length, 0;
    done', toDo' := done + length, toDo - 1;
  }

  /** With nothing left, the write is complete. */
  lemma WriteFinishes(region': seq<Byte>, region: seq<Byte>, f: Field, src: seq<Byte>, at: nat, index: nat, done: nat,
                      toDo: nat)
    requires f.Valid() && WriteCursor(f, f.End(), at, index, 0, done, toDo)
    requires IsWritten(region', region, f, src, at, done) && (f.rule == Reserved ==> WholeSoFar(f, index, done))
    ensures IsWritten(region', region, f, src, WriteEnd(f), f.bitLength) && OutsideKept(region', region, f)
    ensures f.rule == Reserved ==> WholeUnits(f)
  {
    WriteEnds(f, at, index, done, toDo);
    if f.rule == Reserved {
      WholeAtEnd(f, index);
    }
    OutsideOf(region', region, f, src, at, done);
  }

  lemma WholeAtEnd(f: Field, index: nat)
    requires f.Valid() && WholeSoFar(f, index, f.bitLength)
    ensures WholeUnits(f)
  {}

  /**
   write_generic_field_unit: exactly the field's bits become the zero-extended source; under
   Preserve every other bit of the region is unchanged, under the other rules the rest of a partly
   covered access becomes ones or zeroes. A reserved rule fails exactly if some access is partial,
   and even then changes nothing outside the field.
   */
  method Write(region: array<Byte>, f: Field, src: array<Byte>) returns (status: Status)
    requires src != region && f.Valid() && f.Within(region.Length)
    modifies region
    ensures status == Ok ==> IsWritten(region[..], old(region[..]), f, src[..], WriteEnd(f), f.bitLength)
    ensures status == Ok <==> f.rule != Reserved || WholeUnits(f)
    ensures OutsideKept(region[..], old(region[..]), f)
  {
    var at: nat, left: nat, index: nat := f.byteOffset, f.bitLength, f.bitOffset;
    var srcIndex: nat, srcLength: nat := 0, 8 * src.Length;
    var data := new Byte[8];
    ghost var first, source, end := region[..], src[..], f.End();
    ghost var done: nat, toDo: nat := 0, Units(f.bitOffset + f.bitLength, f.width);
    WriteStarts(f);
    WrittenNothing(first, f, source);
    while left > 0
      invariant Writing(region[..], first, f, source, at, index, left, srcIndex, srcLength, end, done, toDo)
      invariant src[..] == source
      decreases toDo
    {
      status, at, index, left, srcIndex, srcLength, done, toDo :=
        WriteNext(region, f, at, index, left, src, srcIndex, srcLength, data, first, end, done, toDo);
      if status != Ok {
        return;
      }
    }
    WriteFinishes(region[..], first, f, source, at, index, done, toDo);
    status := Ok;
  }

  /** Reading back a field just written gives the written bits, cut to the field and zero-extended. */
  method WriteThenRead(region: array<Byte>, f: Field, src: array<Byte>, dst: array<Byte>)
    requires src != region && dst != region && dst != src && f.Valid() && f.Within(region.Length) && f.rule != Reserved
    modifies region, dst
    ensures forall i :: 0 <= i < 8 * dst.Length ==>
              (BitOf(dst[..], i) <==> i < f.bitLength && i < 8 * src.Length && BitOf(src[..], i))
  {
    ghost var first, upto := region[..], WriteEnd(f);
    var _ := Write(region, f, src);
    ghost var before, written := dst[..], region[..];
    Read(region, f, dst);
    forall i | 0 <= i < 8 * dst.Length
      ensures BitOf(dst[..], i) <==> i < f.bitLength && i < 8 * src.Length && BitOf(src[..], i)
    {
      assert BitOf(dst[..], i) <==> Copied(before, 0, 8 * dst.Length, written, f.Start(), f.bitLength, i);
      if i < f.bitLength {
        assert BitOf(written, f.Start() + (i - 0)) <==>
               WrittenBit(first, f, src[..], upto, f.bitLength, f.Start() + (i - 0));
      }
    }
  }
}
