/**
 Physical memory as the kernel sees it through the higher-half direct map: 64-bit words
 addressed by their physical byte address. Memory that was never written reads as zero.
 */
module PhysMem {
  const PAGE_SIZE: bv64 := 4096

  /** A physical byte address used as a key. */
  datatype Addr = At(byte: bv64)

  type Memory = map<Addr, bv64>

  function Read(m: Memory, a: bv64): bv64 {
    if At(a) in m then m[At(a)] else 0
  }

  function Write(m: Memory, a: bv64, v: bv64): Memory {
    m[At(a) := v]
  }

  /** The page-aligned address of the frame that holds byte address `a`. */
  function FrameOf(a: bv64): bv64 {
    a & !0xFFF
  }

  /** A page-aligned address within the 52 bits of physical address space. */
  predicate IsFrame(f: bv64) {
    f & 0xFFF0000000000FFF == 0
  }

  /** memset(node, 0, PAGE_SIZE): every word of frame `f` reads as zero, nothing else changes. */
  function ZeroFrame(m: Memory, f: bv64): Memory {
    map a | a in m && FrameOf(a.byte) != f :: m[a]
  }

  lemma ReadZeroed(m: Memory, f: bv64, a: bv64)
    ensures Read(ZeroFrame(m, f), a) == if FrameOf(a) == f then 0 else Read(m, a)
  {}

  /** Two memories agree on every word outside the frames in `s`. */
  ghost predicate SameOutside(m: Memory, m': Memory, s: set<bv64>) {
    forall a: bv64 :: FrameOf(a) !in s ==> Read(m', a) == Read(m, a)
  }
}
