/** Fields of a buffer: a bit range read into, or written from, a byte buffer. */
module BufferField {
  import opened Bits
  import opened BitCopy

  function RoundUpToBytes(bits: nat): nat {
    (bits + 7) / 8
  }

  method MemCopy(dst: array<Byte>, di: nat, src: array<Byte>, si: nat, n: nat)
    requires dst != src && di + n <= dst.Length && si + n <= src.Length
    modifies dst
    ensures forall p :: 0 <= p < dst.Length ==> dst[p] == if di <= p < di + n then src[si + (p - di)] else old(dst[p])
  {
    forall k | 0 <= k < n {
      dst[di + k] := src[si + k];
    }
  }

  /** uacpi_memcpy_zerout: the source, cut or padded with zeroes to `n` bytes. */
  method MemCopyZero(dst: array<Byte>, di: nat, n: nat, src: array<Byte>, size: nat)
    requires dst != src && di + n <= dst.Length && size <= src.Length
    modifies dst
    ensures forall p :: 0 <= p < dst.Length ==>
              dst[p] == if di <= p < di + n then (if p - di < size then src[p - di] else 0) else old(dst[p])
  {
    var m := if size < n then size else n;
    MemCopy(dst, di, src, 0, m);
    forall k | m <= k < n {
      dst[di + k] := 0;
    }
  }

  /** cut_misaligned_tail: keeps the low bits of the last byte. */
  method CutTail(data: array<Byte>, at: nat, bits: nat)
    requires bits % 8 != 0 ==> at < data.Length
    modifies data
    ensures forall p :: 0 <= p < data.Length ==>
              data[p] == if p == at && bits % 8 != 0 then old(data[p]) & Low(bits % 8) else old(data[p])
  {
    var remainder := bits % 8;
    if remainder == 0 {
      return;
    }
    data[at] := data[at] & Low(remainder);
  }

  // ---- Reading

  /** Byte `p` of the destination after an aligned read. */
  ghost function ReadByte(dst: seq<Byte>, src: seq<Byte>, at: nat, length: nat, p: nat): Byte
    requires at + RoundUpToBytes(length) <= |src| && p < |dst|
  {
    var count := RoundUpToBytes(length);
    if p >= count then dst[p] else if p == count - 1 && length % 8 != 0 then src[at + p] & Low(length % 8)
    else src[at + p]
  }

  lemma ReadByteBit(dst: seq<Byte>, src: seq<Byte>, at: nat, length: nat, p: nat, k: nat)
    requires at + RoundUpToBytes(length) <= |src| && p < |dst| && k < 8
    ensures Bit(ReadByte(dst, src, at, length, p), k) <==>
            if p < RoundUpToBytes(length) then 8 * p + k < length && Bit(src[at + p], k) else Bit(dst[p], k)
  {
    if p == RoundUpToBytes(length) - 1 && length % 8 != 0 {
      TrimmedBit(src[at + p], length % 8, k);
    }
  }

  ghost predicate ReadByBytes(r: seq<Byte>, dst: seq<Byte>, src: seq<Byte>, at: nat, length: nat)
    requires at + RoundUpToBytes(length) <= |src|
  {
    && |r| == |dst|
    && (forall p, k :: 0 <= p < |dst| && 0 <= k < 8 ==>
          (Bit(r[p], k) <==> if p < RoundUpToBytes(length) then 8 * p + k < length && Bit(src[at + p], k)
           else Bit(dst[p], k)))
  }

  lemma ReadByBytesCopies(r: seq<Byte>, dst: seq<Byte>, src: seq<Byte>, at: nat, length: nat)
    requires at + RoundUpToBytes(length) <= |src| && ReadByBytes(r, dst, src, at, length)
    ensures IsCopy(r, dst, 0, 8 * RoundUpToBytes(length), src, 8 * at, length)
  {
    forall i | 0 <= i < 8 * |dst|
      ensures BitOf(r, i) <==> Copied(dst, 0, 8 * RoundUpToBytes(length), src, 8 * at, length, i)
    {
      var p, k := i / 8, i % 8;
      if i < length {
        BitAcross(src, at + p, k);
        assert 8 * (at + p) + k == 8 * at + (i - 0);
      }
    }
  }

  lemma ReadAlignedCopies(r: seq<Byte>, dst: seq<Byte>, src: seq<Byte>, at: nat, length: nat)
    requires at + RoundUpToBytes(length) <= |src| && |r| == |dst|
    requires forall p :: 0 <= p < |dst| ==> r[p] == ReadByte(dst, src, at, length, p)
    ensures IsCopy(r, dst, 0, 8 * RoundUpToBytes(length), src, 8 * at, length)
  {
    forall p, k | 0 <= p < |dst| && 0 <= k < 8
      ensures Bit(r[p], k) <==>
              if p < RoundUpToBytes(length) then 8 * p + k < length && Bit(src[at + p], k) else Bit(dst[p], k)
    {
      ReadByteBit(dst, src, at, length, p, k);
    }
    ReadByBytesCopies(r, dst, src, at, length);
  }

  method ReadAligned(backing: array<Byte>, at: nat, length: nat, dst: array<Byte>)
    requires dst != backing && 0 < length && at + RoundUpToBytes(length) <= backing.Length
    requires RoundUpToBytes(length) <= dst.Length
    modifies dst
    ensures IsCopy(dst[..], old(dst[..]), 0, 8 * RoundUpToBytes(length), backing[..], 8 * at, length)
  {
    var count := RoundUpToBytes(length);
    MemCopy(dst, 0, backing, at, count);
    CutTail(dst, count - 1, length);
    ReadAlignedCopies(dst[..], old(dst[..]), backing[..], at, length);
  }

  /** uacpi_read_buffer_field: both paths give the field's bits followed by zeroes. */
  method Read(backing: array<Byte>, index: nat, length: nat, dst: array<Byte>)
    requires dst != backing && 0 < length && index + length <= 8 * backing.Length
    requires RoundUpToBytes(length) <= dst.Length
    modifies dst
    ensures IsCopy(dst[..], old(dst[..]), 0, 8 * RoundUpToBytes(length), backing[..], index, length)
  {
    if index % 8 == 0 {
      ReadAligned(backing, index / 8, length, dst);
      return;
    }
    Copy(dst, 0, 8 * RoundUpToBytes(length), backing, index, length);
  }

  // ---- Writing

  /** The last byte of an aligned write: `tail` low bits new, the others as they were. */
  function Patched(fresh_: Byte, last: Byte, tail: nat): Byte
    requires 0 < tail < 8
  {
    Shr(Shl(fresh_, 8 - tail), 8 - tail) | Shl(Shr(last, tail), tail)
  }

  lemma KeepLow(b: Byte, tail: nat, k: nat)
    requires 0 < tail < 8 && k < 8
    ensures Bit(Shr(Shl(b, 8 - tail), 8 - tail), k) <==> k < tail && Bit(b, k)
  {
    ShrBit(Shl(b, 8 - tail), 8 - tail, k);
    if k < tail {
      ShlBit(b, 8 - tail, k + 8 - tail);
    }
  }

  lemma KeepHigh(b: Byte, tail: nat, k: nat)
    requires 0 < tail < 8 && k < 8
    ensures Bit(Shl(Shr(b, tail), tail), k) <==> tail <= k && Bit(b, k)
  {
    ShlBit(Shr(b, tail), tail, k);
    if tail <= k {
      ShrBit(b, tail, k - tail);
    }
  }

  lemma PatchedBit(fresh_: Byte, last: Byte, tail: nat, k: nat)
    requires 0 < tail < 8 && k < 8
    ensures Bit(Patched(fresh_, last, tail), k) <==> if k < tail then Bit(fresh_, k) else Bit(last, k)
  {
    KeepLow(fresh_, tail, k);
    KeepHigh(last, tail, k);
    JoinBit(Shr(Shl(fresh_, 8 - tail), 8 - tail), Shl(Shr(last, tail), tail), k);
  }

  /** Byte `p` of the backing buffer after an aligned write. */
  ghost function WrittenByte(dst: seq<Byte>, at: nat, length: nat, src: seq<Byte>, p: nat): Byte
    requires p < |dst|
  {
    var count := RoundUpToBytes(length);
    if p < at || p >= at + count then dst[p]
    else
      var byte: Byte := if p - at < |src| then src[p - at] else 0;
      if p == at + count - 1 && length % 8 != 0 then Patched(byte, dst[p], length % 8) else byte
  }

  lemma WrittenByteBit(dst: seq<Byte>, at: nat, length: nat, src: seq<Byte>, p: nat, k: nat)
    requires p < |dst| && k < 8
    ensures Bit(WrittenByte(dst, at, length, src, p), k) <==>
            if at <= p && 8 * (p - at) + k < length then p - at < |src| && Bit(src[p - at], k) else Bit(dst[p], k)
  {
    NoBit(k);
    if p == at + RoundUpToBytes(length) - 1 && length % 8 != 0 {
      PatchedBit(if p - at < |src| then src[p - at] else 0, dst[p], length % 8, k);
    }
  }

  lemma WrittenAlignedCopies(r: seq<Byte>, dst: seq<Byte>, at: nat, length: nat, src: seq<Byte>)
    requires |r| == |dst| && forall p :: 0 <= p < |dst| ==> r[p] == WrittenByte(dst, at, length, src, p)
    ensures IsCopy(r, dst, 8 * at, length, src, 0, 8 * |src|)
  {
    forall i | 0 <= i < 8 * |dst| ensures BitOf(r, i) <==> Copied(dst, 8 * at, length, src, 0, 8 * |src|, i) {
      var p, k := i / 8, i % 8;
      WrittenByteBit(dst, at, length, src, p, k);
      if at <= p && p - at < |src| {
        BitAcross(src, p - at, k);
        assert 8 * (p - at) + k == i - 8 * at;
      }
    }
  }

  method WriteAligned(backing: array<Byte>, at: nat, length: nat, src: array<Byte>)
    requires src != backing && 0 < length && at + RoundUpToBytes(length) <= backing.Length
    modifies backing
    ensures IsCopy(backing[..], old(backing[..]), 8 * at, length, src[..], 0, 8 * src.Length)
  {
    var count := RoundUpToBytes(length);
    var lastByte := backing[at + count - 1];
    var tail := length % 8;
    MemCopyZero(backing, at, count, src, src.Length);
    if tail > 0 {
      backing[at + count - 1] := Patched(backing[at + count - 1], lastByte, tail);
    }
    WrittenAlignedCopies(backing[..], old(backing[..]), at, length, src[..]);
  }

  /** uacpi_write_buffer_field: both paths store the source, zero-extended, and touch no other bit. */
  method Write(backing: array<Byte>, index: nat, length: nat, src: array<Byte>)
    requires src != backing && 0 < length && index + length <= 8 * backing.Length
    modifies backing
    ensures IsCopy(backing[..], old(backing[..]), index, length, src[..], 0, 8 * src.Length)
  {
    if index % 8 == 0 {
      WriteAligned(backing, index / 8, length, src);
      return;
    }
    Copy(backing, index, length, src, 0, 8 * src.Length);
  }
}
