/**
 Bits of bytes. Shift counts are at most 8 everywhere in bit_copy, so the shifts are written out
 for the nine counts.
 */
module Bits {
  type Byte = bv8

  /** The mask of the `n` lowest bits of a byte. */
  function Low(n: nat): Byte
    requires n <= 8
  {
    if n == 0 then 0 else if n == 1 then 1 else if n == 2 then 3 else if n == 3 then 7 else if n == 4 then 15
    else if n == 5 then 31 else if n == 6 then 63 else if n == 7 then 127 else 255
  }

  function Shl(b: Byte, n: nat): Byte
    requires n <= 8
  {
    if n == 0 then b else if n == 1 then b << 1 else if n == 2 then b << 2 else if n == 3 then b << 3
    else if n == 4 then b << 4 else if n == 5 then b << 5 else if n == 6 then b << 6 else if n == 7 then b << 7 else 0
  }

  function Shr(b: Byte, n: nat): Byte
    requires n <= 8
  {
    if n == 0 then b else if n == 1 then b >> 1 else if n == 2 then b >> 2 else if n == 3 then b >> 3
    else if n == 4 then b >> 4 else if n == 5 then b >> 5 else if n == 6 then b >> 6 else if n == 7 then b >> 7 else 0
  }

  predicate Bit(b: Byte, k: nat)
    requires k < 8
  {
    if k == 0 then b & 1 != 0 else if k == 1 then b & 2 != 0 else if k == 2 then b & 4 != 0
    else if k == 3 then b & 8 != 0 else if k == 4 then b & 16 != 0 else if k == 5 then b & 32 != 0
    else if k == 6 then b & 64 != 0 else b & 128 != 0
  }

  lemma LowBit(n: nat, k: nat)
    requires n <= 8 && k < 8
    ensures Bit(Low(n), k) <==> k < n
  {}

  lemma ShlBit(b: Byte, n: nat, k: nat)
    requires n <= 8 && k < 8
    ensures Bit(Shl(b, n), k) <==> n <= k && Bit(b, k - n)
  {}

  lemma ShrBit(b: Byte, n: nat, k: nat)
    requires n <= 8 && k < 8
    ensures Bit(Shr(b, n), k) <==> k + n < 8 && Bit(b, k + n)
  {}

  lemma AndBit(b: Byte, c: Byte, k: nat)
    requires k < 8
    ensures Bit(b & c, k) <==> Bit(b, k) && Bit(c, k)
  {}

  lemma OrBit(b: Byte, c: Byte, k: nat)
    requires k < 8
    ensures Bit(b | c, k) <==> Bit(b, k) || Bit(c, k)
  {
    if k < 4 {
      assert k == 0 || k == 1 || k == 2 || k == 3;
    }
  }

  lemma NoBit(k: nat)
    requires k < 8
    ensures !Bit(0, k)
  {}

  lemma SameByte(b: Byte, c: Byte)
    requires forall k :: 0 <= k < 8 ==> (Bit(b, k) <==> Bit(c, k))
    ensures b == c
  {
    assert Bit(b, 0) == Bit(c, 0) && Bit(b, 1) == Bit(c, 1) && Bit(b, 2) == Bit(c, 2) && Bit(b, 3) == Bit(c, 3);
    assert Bit(b, 4) == Bit(c, 4) && Bit(b, 5) == Bit(c, 5) && Bit(b, 6) == Bit(c, 6) && Bit(b, 7) == Bit(c, 7);
  }
}

/**
 Copying a span of bits between buffers. A span is a buffer, the index of its first bit and its
 length; bit `i` of a buffer is bit i % 8 of byte i / 8.
 */
module BitCopy {
  import opened Bits

  predicate BitOf(s: seq<Byte>, i: nat)
    requires i < 8 * |s|
  {
    Bit(s[i / 8], i % 8)
  }

  /**
   Bit `i` of the destination after the copy: inside the destination span the bits of the source
   span, zero past its end; outside as it was.
   */
  ghost predicate Copied(dst: seq<Byte>, di: nat, dn: nat, src: seq<Byte>, si: nat, sn: nat, i: nat)
    requires i < 8 * |dst| && si + sn <= 8 * |src|
  {
    if di <= i < di + dn then i - di < sn && BitOf(src, si + (i - di)) else BitOf(dst, i)
  }

  ghost predicate IsCopy(dst': seq<Byte>, dst: seq<Byte>, di: nat, dn: nat, src: seq<Byte>, si: nat, sn: nat)
    requires si + sn <= 8 * |src|
  {
    && |dst'| == |dst|
    && (forall i :: 0 <= i < 8 * |dst| ==> (BitOf(dst', i) <==> Copied(dst, di, dn, src, si, sn, i)))
  }

  /** The specification leaves no choice: two results with the same bits are the same bytes. */
  lemma CopyUnique(x: seq<Byte>, y: seq<Byte>, dst: seq<Byte>, di: nat, dn: nat, src: seq<Byte>, si: nat, sn: nat)
    requires si + sn <= 8 * |src|
    requires IsCopy(x, dst, di, dn, src, si, sn) && IsCopy(y, dst, di, dn, src, si, sn)
    ensures x == y
  {
    forall p | 0 <= p < |dst| ensures x[p] == y[p] {
      forall k | 0 <= k < 8 ensures Bit(x[p], k) <==> Bit(y[p], k) {
        assert BitOf(x, 8 * p + k) <==> BitOf(y, 8 * p + k);
      }
      SameByte(x[p], y[p]);
    }
  }

  // ---- One round of the loop: up to eight bits

  /** Eight bits starting at bit `shift` of `low` and running into `high`. */
  function Window(low: Byte, high: Byte, shift: nat): Byte
    requires 0 < shift < 8
  {
    Shr(low, shift) | Shl(high, 8 - shift)
  }

  lemma WindowBit(low: Byte, high: Byte, shift: nat, k: nat)
    requires 0 < shift < 8 && k < 8
    ensures Bit(Window(low, high, shift), k) <==> if shift + k < 8 then Bit(low, shift + k)
            else Bit(high, shift + k - 8)
  {
    ShrBit(low, shift, k);
    ShlBit(high, 8 - shift, k);
    JoinBit(Shr(low, shift), Shl(high, 8 - shift), k);
  }

  lemma JoinBit(b: Byte, c: Byte, k: nat)
    requires k < 8
    ensures Bit(b | c, k) <==> Bit(b, k) || Bit(c, k)
  {
    OrBit(b, c, k);
  }

  lemma TrimmedBit(b: Byte, count: nat, k: nat)
    requires count < 8 && k < 8
    ensures Bit(b & Low(count), k) <==> k < count && Bit(b, k)
  {
    LowBit(count, k);
    AndBit(b, Low(count), k);
  }

  /** The mask selects the bits of `bits` that replace those of `old`. */
  function Merged(old_: Byte, mask: Byte, bits: Byte): Byte {
    (old_ & !mask) | (bits & mask)
  }

  lemma MergedBit(old_: Byte, mask: Byte, bits: Byte, k: nat)
    requires k < 8
    ensures Bit(Merged(old_, mask, bits), k) <==> if Bit(mask, k) then Bit(bits, k) else Bit(old_, k)
  {
    assert k == 0 || k == 1 || k == 2 || k == 3 || k == 4 || k == 5 || k == 6 || k == 7;
  }

  /** The low half of the shifted destination mask and bits, merged into the first byte. */
  function PutLow(old_: Byte, bits: Byte, shift: nat, count: nat): Byte
    requires shift < 8
  {
    Merged(old_, Shl(Low(if count < 8 then count else 8), shift), Shl(bits, shift))
  }

  /** The high half, merged into the byte after it. */
  function PutHigh(old_: Byte, bits: Byte, shift: nat, count: nat): Byte
    requires 0 < shift < 8
  {
    Merged(old_, Shr(Low(if count < 8 then count else 8), 8 - shift), Shr(bits, 8 - shift))
  }

  lemma PutLowBit(old_: Byte, bits: Byte, shift: nat, count: nat, k: nat)
    requires shift < 8 && k < 8
    ensures Bit(PutLow(old_, bits, shift, count), k) <==>
            if shift <= k < shift + count then Bit(bits, k - shift) else Bit(old_, k)
  {
    var n := if count < 8 then count else 8;
    ShlBit(Low(n), shift, k);
    ShlBit(bits, shift, k);
    if shift <= k {
      LowBit(n, k - shift);
    }
    MergedBit(old_, Shl(Low(n), shift), Shl(bits, shift), k);
  }

  lemma ShrLowBit(n: nat, shift: nat, k: nat)
    requires n <= 8 && shift <= 8 && k < 8
    ensures Bit(Shr(Low(n), shift), k) <==> k + shift < n
  {
    ShrBit(Low(n), shift, k);
    if k + shift < 8 {
      LowBit(n, k + shift);
    }
  }

  lemma PutHighBit(old_: Byte, bits: Byte, shift: nat, count: nat, k: nat)
    requires 0 < shift < 8 && k < 8
    ensures Bit(PutHigh(old_, bits, shift, count), k) <==>
            if k < shift && k + 8 < shift + count then Bit(bits, k + 8 - shift) else Bit(old_, k)
  {
    var n := if count < 8 then count else 8;
    ShrLowBit(n, 8 - shift, k);
    ShrBit(bits, 8 - shift, k);
    MergedBit(old_, Shr(Low(n), 8 - shift), Shr(bits, 8 - shift), k);
  }

  lemma BitAcross(s: seq<Byte>, p: nat, k: nat)
    requires k < 16 && 8 * p + k < 8 * |s|
    ensures BitOf(s, 8 * p + k) == if k < 8 then Bit(s[p], k) else Bit(s[p + 1], k - 8)
  {
    assert (8 * p + k) / 8 == if k < 8 then p else p + 1;
  }

  method Gather(src: array<Byte>, p: nat, shift: nat, count: nat) returns (bits: Byte)
    requires shift < 8 && 8 * p + shift + count <= 8 * src.Length
    ensures forall k :: 0 <= k < 8 ==> (Bit(bits, k) <==> k < count && BitOf(src[..], 8 * p + shift + k))
  {
    bits := 0;
    if count > 0 {
      var low := src[p];
      bits := Shr(low, shift);
      if shift > 0 && count > 8 - shift {
        bits := bits | Shl(src[p + 1], 8 - shift);
        assert bits == Window(low, src[p + 1], shift);
      }
      ghost var wide := bits;
      assert forall k :: 0 <= k < 8 && k < count ==> (Bit(wide, k) <==> BitOf(src[..], 8 * p + shift + k)) by {
        forall k | 0 <= k < 8 && k < count ensures Bit(wide, k) <==> BitOf(src[..], 8 * p + shift + k) {
          BitAcross(src[..], p, shift + k);
          if shift > 0 && count > 8 - shift {
            WindowBit(low, src[p + 1], shift, k);
          } else {
            ShrBit(low, shift, k);
          }
        }
      }
      if count < 8 {
        bits := bits & Low(count);
        forall k | 0 <= k < 8 ensures Bit(bits, k) <==> k < count && Bit(wide, k) {
          TrimmedBit(wide, count, k);
        }
      }
    }
  }

  /** Bit `i` of the destination after up to eight bits were put at bit position `at`. */
  ghost predicate PutBit(before: seq<Byte>, at: nat, count: nat, bits: Byte, i: nat)
    requires i < 8 * |before|
  {
    if at <= i < at + count && i < at + 8 then Bit(bits, i - at) else BitOf(before, i)
  }

  ghost predicate IsPut(after: seq<Byte>, before: seq<Byte>, at: nat, count: nat, bits: Byte) {
    && |after| == |before|
    && (forall i :: 0 <= i < 8 * |before| ==> (BitOf(after, i) <==> PutBit(before, at, count, bits, i)))
  }

  ghost function Put(before: seq<Byte>, p: nat, shift: nat, count: nat, bits: Byte): seq<Byte>
    requires shift < 8 && 0 < count && 8 * p + shift + count <= 8 * |before|
  {
    var first := before[p := PutLow(before[p], bits, shift, count)];
    if shift > 0 && count > 8 - shift then first[p + 1 := PutHigh(before[p + 1], bits, shift, count)] else first
  }

  lemma PutAffects(before: seq<Byte>, p: nat, shift: nat, count: nat, bits: Byte, j: nat)
    requires shift < 8 && 0 < count && 8 * p + shift + count <= 8 * |before| && j < |before|
    ensures Put(before, p, shift, count, bits)[j] ==
            if j == p then PutLow(before[p], bits, shift, count)
            else if j == p + 1 && shift > 0 && count > 8 - shift then PutHigh(before[p + 1], bits, shift, count)
            else before[j]
  {}

  lemma PutIsPut(before: seq<Byte>, p: nat, shift: nat, count: nat, bits: Byte, i: nat)
    requires shift < 8 && 0 < count && 8 * p + shift + count <= 8 * |before| && i < 8 * |before|
    ensures BitOf(Put(before, p, shift, count, bits), i) <==> PutBit(before, 8 * p + shift, count, bits, i)
  {
    var j, k := i / 8, i % 8;
    PutAffects(before, p, shift, count, bits, j);
    if j == p {
      PutLowBit(before[p], bits, shift, count, k);
    } else if j == p + 1 && shift > 0 && count > 8 - shift {
      PutHighBit(before[p + 1], bits, shift, count, k);
    }
  }

  /** Stores the bits; the 16-bit mask and the shifted bits are handled as their two halves. */
  method Scatter(dst: array<Byte>, p: nat, shift: nat, count: nat, bits: Byte)
    requires shift < 8 && 0 < count && 8 * p + shift + count <= 8 * dst.Length
    modifies dst
    ensures IsPut(dst[..], old(dst[..]), 8 * p + shift, count, bits)
  {
    ghost var before := dst[..];
    dst[p] := PutLow(dst[p], bits, shift, count);
    if shift > 0 && count > 8 - shift {
      dst[p + 1] := PutHigh(dst[p + 1], bits, shift, count);
    }
    assert dst[..] == Put(before, p, shift, count, bits);
    PutEverywhere(before, dst[..], p, shift, count, bits);
  }

  lemma PutEverywhere(before: seq<Byte>, after: seq<Byte>, p: nat, shift: nat, count: nat, bits: Byte)
    requires shift < 8 && 0 < count && 8 * p + shift + count <= 8 * |before|
    requires after == Put(before, p, shift, count, bits)
    ensures IsPut(after, before, 8 * p + shift, count, bits)
  {
    forall i | 0 <= i < 8 * |before| ensures BitOf(after, i) <==> PutBit(before, 8 * p + shift, count, bits, i) {
      PutIsPut(before, p, shift, count, bits, i);
    }
  }

  // ---- The loop

  /** The next bits of the source, zero past its end. */
  ghost predicate Fetched(bits: Byte, src: seq<Byte>, si: nat, sn: nat, done: nat)
    requires si + sn <= 8 * |src|
  {
    forall k :: 0 <= k < 8 ==> (Bit(bits, k) <==> done + k < sn && BitOf(src, si + (done + k)))
  }

  function AfterRound(done: nat, dn: nat): nat {
    if done + 8 < dn then done + 8 else dn
  }

  lemma BitCopies(now: seq<Byte>, dst: seq<Byte>, di: nat, dn: nat, src: seq<Byte>, si: nat, sn: nat,
                  done: nat, bits: Byte, i: nat)
    requires di + dn <= 8 * |dst| && si + sn <= 8 * |src| && done < dn && i < 8 * |dst| == 8 * |now|
    requires BitOf(now, i) <==> Copied(dst, di, done, src, si, sn, i)
    requires Fetched(bits, src, si, sn, done)
    ensures PutBit(now, di + done, dn - done, bits, i) <==> Copied(dst, di, AfterRound(done, dn), src, si, sn, i)
  {
    if di + done <= i < di + AfterRound(done, dn) {
      var k := i - (di + done);
      assert Bit(bits, k) <==> done + k < sn && BitOf(src, si + (done + k));
      assert done + k == i - di;
    }
  }

  lemma RoundCopies(now: seq<Byte>, next: seq<Byte>, dst: seq<Byte>, di: nat, dn: nat, src: seq<Byte>, si: nat, sn: nat,
                    done: nat, bits: Byte)
    requires di + dn <= 8 * |dst| && si + sn <= 8 * |src| && done < dn
    requires IsCopy(now, dst, di, done, src, si, sn) && IsPut(next, now, di + done, dn - done, bits)
    requires Fetched(bits, src, si, sn, done)
    ensures IsCopy(next, dst, di, AfterRound(done, dn), src, si, sn)
  {
    forall i | 0 <= i < 8 * |dst| ensures BitOf(next, i) <==> Copied(dst, di, AfterRound(done, dn), src, si, sn, i) {
      BitCopies(now, dst, di, dn, src, si, sn, done, bits, i);
    }
  }

  /** Where the source stands after `done` bits: what is left of it, and its next byte while something is. */
  ghost predicate SourceAt(si: nat, sn: nat, done: nat, at: nat, shift: nat, count: nat) {
    shift < 8 && count == (if done < sn then sn - done else 0) && (count > 0 ==> 8 * at + shift == si + done)
  }

  /** The source's part of a round; past its end the bits are zero. */
  method NextBits(src: array<Byte>, at: nat, shift: nat, count: nat, ghost si: nat, ghost sn: nat, ghost done: nat)
      returns (bits: Byte, at': nat, count': nat)
    requires si + sn <= 8 * src.Length && SourceAt(si, sn, done, at, shift, count)
    ensures SourceAt(si, sn, done + 8, at', shift, count')
    ensures Fetched(bits, src[..], si, sn, done)
  {
    bits, at', count' := 0, at, count;
    if count == 0 {
      forall k | 0 <= k < 8 ensures !Bit(bits, k) {
        NoBit(k);
      }
    } else {
      bits := Gather(src, at, shift, count);
      forall k | 0 <= k < 8 ensures Bit(bits, k) <==> done + k < sn && BitOf(src[..], si + (done + k)) {
        assert 8 * at + shift + k == si + (done + k);
      }
      if count < 8 {
        count' := 0;
      } else {
        count' := count - 8;
        at' := at + 1;
      }
    }
  }

  /** One round of the loop: up to eight bits. */
  method CopyRound(dst: array<Byte>, dstAt: nat, dstShift: nat, dstCount: nat, src: array<Byte>, srcAt: nat,
                   srcShift: nat, srcCount: nat,
                   ghost before: seq<Byte>, ghost di: nat, ghost dn: nat, ghost si: nat, ghost sn: nat)
      returns (srcAt': nat, srcCount': nat)
    requires dst != src && di + dn <= 8 * dst.Length && si + sn <= 8 * src.Length && 0 < dstCount <= dn
    requires |before| == dst.Length
    requires dstShift < 8 && 8 * dstAt + dstShift == di + (dn - dstCount)
    requires SourceAt(si, sn, dn - dstCount, srcAt, srcShift, srcCount)
    requires IsCopy(dst[..], before, di, dn - dstCount, src[..], si, sn)
    modifies dst
    ensures SourceAt(si, sn, dn - dstCount + 8, srcAt', srcShift, srcCount')
    ensures IsCopy(dst[..], before, di, AfterRound(dn - dstCount, dn), src[..], si, sn)
  {
    ghost var now := dst[..];
    var bits: Byte;
    bits, srcAt', srcCount' := NextBits(src, srcAt, srcShift, srcCount, si, sn, dn - dstCount);
    Scatter(dst, dstAt, dstShift, dstCount, bits);
    RoundCopies(now, dst[..], before, di, dn, src[..], si, sn, dn - dstCount, bits);
  }

  /**
   bit_copy. Every access is inside the two spans' own bytes: the bounds hold for any buffers the
   spans fit into, also ones that end where the spans do.
   */
  method Copy(dst: array<Byte>, di: nat, dn: nat, src: array<Byte>, si: nat, sn: nat)
    requires dst != src && di + dn <= 8 * dst.Length && si + sn <= 8 * src.Length
    modifies dst
    ensures IsCopy(dst[..], old(dst[..]), di, dn, src[..], si, sn)
  {
    var dstAt, dstShift, dstCount := di / 8, di % 8, dn;
    var srcAt: nat, srcShift: nat, srcCount: nat := si / 8, si % 8, sn;
    ghost var before, source := dst[..], src[..];
    ghost var done := 0;
    while dstCount > 0
      invariant src[..] == source && done == dn - dstCount
      invariant dstCount > 0 ==> 8 * dstAt + dstShift == di + done
      invariant dstCount > 0 ==> SourceAt(si, sn, done, srcAt, srcShift, srcCount)
      invariant IsCopy(dst[..], before, di, done, source, si, sn)
    {
      srcAt, srcCount := CopyRound(dst, dstAt, dstShift, dstCount, src, srcAt, srcShift, srcCount, before, di, dn, si,
                                   sn);
      dstCount := if dstCount > 8 then dstCount - 8 else 0;
      dstAt := dstAt + 1;
      done := dn - dstCount;
    }
  }
}
