/**
 The bump allocator of lib/libk/src/memory.rs: `kmalloc`, `kmalloc_aligned` and `krealloc` over one
 range of memory. Addresses are 64-bit and `current + offset` wraps, as it does in a release build.
 */
module BumpHeap {
  import opened Bits

  const HALF: word := 0x8000_0000_0000_0000

  datatype Bump = Bump(start: word, end: word, current: word, initialized: bool)

  predicate IsPowerOfTwo(a: nat) {
    a == 1 || (a > 1 && a % 2 == 0 && IsPowerOfTwo(a / 2))
  }

  function Offset(current: word, align: word): nat
    requires align > 0
  {
    (align - current % align) % align
  }

  /** The least multiple of `align` at or above `current`, before any wrap-around. */
  function RoundUp(current: word, align: word): nat
    requires align > 0
  {
    current + Offset(current, align)
  }

  /** `kmalloc_aligned`: the allocator afterwards, and the address returned (0 is null). */
  function AllocAligned(h: Bump, size: word, align: word): (Bump, word) {
    if !h.initialized || h.start == 0 then (h, 0)
    else if align < 1 || !IsPowerOfTwo(align) then (h, 0)
    else
      var aligned := RoundUp(h.current, align) % TWO_64;
      if aligned + size < TWO_64 && aligned + size <= h.end
      then (h.(current := aligned + size), aligned)
      else (h, 0)
  }

  /** `kmalloc`. */
  function Alloc(h: Bump, size: word): (Bump, word) {
    AllocAligned(h, size, 8)
  }

  // ----- Rounding up -----

  lemma MulLe(p: nat, q: nat, a: nat)
    requires p <= q
    ensures p * a <= q * a
  {
  }

  /** A multiple at or above q * a + r, with r > 0, is at or above the next one. */
  lemma NextMultiple(p: nat, q: nat, r: nat, a: nat)
    requires r > 0 && p * a >= q * a + r
    ensures p * a >= (q + 1) * a
  {
    if p <= q {
      MulLe(p, q, a);
      assert false;
    }
    MulLe(q + 1, p, a);
  }

  lemma OffsetIs(current: word, align: word)
    requires align > 0
    ensures Offset(current, align) == if current % align == 0 then 0 else align - current % align
  {
  }

  lemma RoundUpLeast(current: word, align: word)
    requires align > 0
    ensures var a := RoundUp(current, align);
            current <= a < current + align && a % align == 0
    ensures forall q: nat :: q * align >= current ==> q * align >= RoundUp(current, align)
  {
    OffsetIs(current, align);
    var q, r := current / align, current % align;
    assert current == q * align + r;
    hide Offset;
    var top := if r == 0 then q else q + 1;
    assert RoundUp(current, align) == top * align;
    ModUnique(top * align, align, top, 0);
    forall p: nat | p * align >= current
      ensures p * align >= top * align
    {
      if r > 0 {
        NextMultiple(p, q, r, align);
      }
    }
  }

  lemma {:induction false} PowerOfTwoDivides(a: nat, k: nat)
    requires IsPowerOfTwo(a) && a <= Pow2(k)
    ensures exists q: nat :: q * a == Pow2(k)
  {
    if a == 1 {
      assert Pow2(k) * 1 == Pow2(k);
    } else if k == 0 {
      assert false;
    } else {
      PowerOfTwoDivides(a / 2, k - 1);
      var q: nat :| q * (a / 2) == Pow2(k - 1);
      assert q * a == 2 * (q * (a / 2));
    }
  }

  /** A power of two that fits below an upper power of two never rounds past it. */
  lemma RoundUpBound(current: word, align: word, k: nat)
    requires IsPowerOfTwo(align) && align <= Pow2(k) && current <= Pow2(k)
    ensures RoundUp(current, align) <= Pow2(k)
  {
    RoundUpLeast(current, align);
    PowerOfTwoDivides(align, k);
    var q: nat :| q * align == Pow2(k);
    assert q * align >= RoundUp(current, align);
  }

  lemma HalfIsPow2()
    ensures Pow2(63) == HALF && Pow2(64) == TWO_64
  {
    Pow2Constants();
    assert Pow2(64) == 2 * Pow2(63);
  }

  lemma {:induction false} PowerOfTwoBelow(a: nat, k: nat)
    requires IsPowerOfTwo(a) && a < Pow2(k + 1)
    ensures a <= Pow2(k)
  {
    if a > 1 && k > 0 {
      PowerOfTwoBelow(a / 2, k - 1);
    }
  }

  // ----- One allocation -----

  predicate Ready(h: Bump) {
    h.initialized && h.start != 0 && h.start <= h.current <= h.end
  }

  /** The rounding does not reach 2^64. */
  predicate NoWrap(h: Bump, align: word)
    requires align > 0
  {
    RoundUp(h.current, align) < TWO_64
  }

  /** A heap that ends at or below 2^63 never wraps. */
  lemma LowHeapNeverWraps(h: Bump, align: word)
    requires Ready(h) && h.end <= HALF && IsPowerOfTwo(align)
    ensures NoWrap(h, align)
  {
    HalfIsPow2();
    PowerOfTwoBelow(align, 63);
    RoundUpBound(h.current, align, 63);
  }

  /**
   A valid request: if rounding does not wrap, the block starts at the least aligned address at or
   above the pointer, or the result is null exactly when too little room is left there.
   */
  lemma AllocMeaning(h: Bump, size: word, align: word)
    requires Ready(h) && IsPowerOfTwo(align) && align > 0 && NoWrap(h, align)
    ensures var (h2, p) := AllocAligned(h, size, align);
            var a := RoundUp(h.current, align);
            && (p == 0 <==> a + size > h.end)
            && (p == 0 ==> h2 == h)
            && (p != 0 ==> p == a && h2 == h.(current := p + size))
            && Ready(h2) && h2.current >= h.current
            && (p != 0 ==> h.current <= p && p % align == 0 && p + size == h2.current)
  {
    hide IsPowerOfTwo, RoundUp;
    RoundUpLeast(h.current, align);
    ModUnique(RoundUp(h.current, align), TWO_64, 0, RoundUp(h.current, align));
  }

  /**
   Nothing is handed out, and nothing changes, before initialisation, on a heap at address 0, and for
   an alignment that is no power of two.
   */
  lemma RefusedMeaning(h: Bump, size: word, align: word)
    requires !h.initialized || h.start == 0 || forall k: nat :: align != Pow2(k)
    ensures AllocAligned(h, size, align) == (h, 0)
  {
    PowerOfTwoExactly(align);
  }

  /** `kmalloc` asks for alignment 8: the block is the first multiple of 8 at or above the pointer. */
  lemma KmallocMeaning(h: Bump, size: word)
    requires Ready(h) && NoWrap(h, 8)
    ensures var (h2, p) := Alloc(h, size);
            if p == 0 then h2 == h
            else h2 == h.(current := p + size) && h.current <= p < h.current + 8 && p % 8 == 0 && p + size <= h.end
    ensures Alloc(h, size).1 == 0 ==>
              forall q: nat :: q % 8 == 0 && q >= h.current ==> q + size > h.end
  {
    EightIsPower();
    hide IsPowerOfTwo, RoundUp, AllocAligned;
    AllocMeaning(h, size, 8);
    RoundUpLeast(h.current, 8);
    forall q: nat | q % 8 == 0 && q >= h.current
      ensures q >= RoundUp(h.current, 8)
    {
      assert q == q / 8 * 8;
    }
  }

  /** When rounding wraps it does so to exactly 0: the caller sees null, yet the pointer is set to `size`. */
  lemma WrapMeaning(h: Bump, size: word, align: word)
    requires Ready(h) && IsPowerOfTwo(align) && align > 0 && !NoWrap(h, align)
    ensures AllocAligned(h, size, align) == (if size <= h.end then h.(current := size) else h, 0)
  {
    HalfIsPow2();
    PowerOfTwoBelow(align, 63);
    hide IsPowerOfTwo;
    Pow2Monotone(63, 64);
    RoundUpBound(h.current, align, 64);
    assert RoundUp(h.current, align) == TWO_64;
  }

  /** What a caller can check: the alignment is refused, or rounding does not wrap, or wrapping does no harm. */
  predicate PointerStays(h: Bump, size: word, align: word) {
    align > 0 && IsPowerOfTwo(align) ==> NoWrap(h, align) || size > h.end || size >= h.current
  }

  /** Exactly when a valid request leaves the heap pointer at or above where it was. */
  lemma PointerMonotoneExactly(h: Bump, size: word, align: word)
    requires Ready(h) && IsPowerOfTwo(align) && align > 0
    ensures AllocAligned(h, size, align).0.current >= h.current <==> PointerStays(h, size, align)
  {
    hide IsPowerOfTwo, RoundUp, AllocAligned;
    if NoWrap(h, align) {
      AllocMeaning(h, size, align);
    } else {
      WrapMeaning(h, size, align);
    }
  }

  /** The bad case is reachable: a heap that crosses 2^63, and a request aligned to 2^63. */
  lemma PointerCanDrop()
    ensures var h := Bump(HALF, HALF + 100, HALF + 1, true);
            Ready(h) && IsPowerOfTwo(HALF) && AllocAligned(h, 16, HALF) == (h.(current := 16), 0)
  {
    var h := Bump(HALF, HALF + 100, HALF + 1, true);
    HalfIsPow2();
    PowersArePowers(63);
    RoundUpLeast(h.current, HALF);
    ModUnique(HALF + 1, HALF, 1, 1);
    ModUnique(HALF - 1, HALF, 0, HALF - 1);
  }

  lemma {:induction false} PowersArePowers(k: nat)
    ensures IsPowerOfTwo(Pow2(k))
  {
    if k > 0 {
      PowersArePowers(k - 1);
    }
  }

  lemma {:induction false} PowerOfTwoExponent(a: nat) returns (k: nat)
    requires IsPowerOfTwo(a)
    ensures a == Pow2(k)
  {
    if a == 1 {
      k := 0;
    } else {
      var j := PowerOfTwoExponent(a / 2);
      k := j + 1;
    }
  }

  /** The halving test recognises exactly the powers of two. */
  lemma PowerOfTwoExactly(a: nat)
    ensures IsPowerOfTwo(a) <==> exists k: nat :: a == Pow2(k)
  {
    if IsPowerOfTwo(a) {
      var k := PowerOfTwoExponent(a);
    }
    if k: nat :| a == Pow2(k) {
      PowersArePowers(k);
    }
  }

  // ----- Runs -----

  /** A block handed out, with the alignment that was asked for. */
  datatype Region = Region(ptr: word, size: word, align: word)

  /** The allocator, memory, and every block ever handed out (`kfree` takes nothing back). */
  datatype Heap = Heap(h: Bump, mem: seq<byte>, blocks: seq<Region>)

  datatype Op =
    | Malloc(size: word)
    | MallocAligned(size: word, align: word)
    | Realloc(block: nat, newSize: word)
    | StoreByte(block: nat, at: nat, value: byte)

  /** Copies `n` bytes between two ranges of memory. */
  function Copied(mem: seq<byte>, src: nat, dst: nat, n: nat): (r: seq<byte>)
    requires src + n <= |mem| && dst + n <= |mem|
    ensures |r| == |mem|
  {
    mem[..dst] + mem[src..src + n] + mem[dst + n..]
  }

  function Least(a: nat, b: nat): (r: nat)
    ensures r <= a && r <= b && (r == a || r == b)
  {
    if a < b then a else b
  }

  ghost predicate HeapInv(s: Heap) {
    && Ready(s.h) && s.h.end <= |s.mem|
    && (forall i :: 0 <= i < |s.blocks| ==>
         var b := s.blocks[i];
         s.h.start <= b.ptr && b.ptr + b.size <= s.h.current && b.align > 0 && b.ptr % b.align == 0)
    && (forall i, j :: 0 <= i < j < |s.blocks| ==> s.blocks[i].ptr + s.blocks[i].size <= s.blocks[j].ptr)
  }

  /** The bytes of a block. */
  ghost function Contents(s: Heap, i: nat): seq<byte>
    requires HeapInv(s) && i < |s.blocks|
  {
    s.mem[s.blocks[i].ptr..s.blocks[i].ptr + s.blocks[i].size]
  }

  /** The operation names blocks of the heap, and bytes of those blocks. */
  ghost predicate Named(s: Heap, op: Op) {
    match op
    case Realloc(i, _) => i < |s.blocks|
    case StoreByte(i, at, _) => i < |s.blocks| && at < s.blocks[i].size
    case _ => true
  }

  /** The request an operation makes, if any, leaves the pointer where it is or higher. */
  ghost predicate Legal(s: Heap, op: Op) {
    Named(s, op) &&
    match op
    case Malloc(size) => PointerStays(s.h, size, 8)
    case MallocAligned(size, align) => PointerStays(s.h, size, align)
    case Realloc(_, newSize) => newSize != 0 ==> PointerStays(s.h, newSize, 8)
    case StoreByte(_, _, _) => true
  }

  /** The heap after an allocation, with the block it returned, if any. */
  ghost function AllocStep(s: Heap, size: word, align: word): Heap {
    var (h, p) := AllocAligned(s.h, size, align);
    s.(h := h, blocks := if p == 0 then s.blocks else s.blocks + [Region(p, size, align)])
  }

  /** `krealloc` of a block with its true size. */
  ghost function ReallocStep(s: Heap, i: nat, newSize: word): Heap
    requires HeapInv(s) && i < |s.blocks|
  {
    if newSize == 0 then s
    else
      var t := AllocStep(s, newSize, 8);
      if t.blocks == s.blocks then t
      else
        var n := Least(s.blocks[i].size, newSize);
        NewBlockFits(s, newSize, 8);
        t.(mem := Copied(t.mem, s.blocks[i].ptr, t.blocks[|s.blocks|].ptr, n))
  }

  ghost function Step(s: Heap, op: Op): Heap
    requires HeapInv(s) && Named(s, op)
  {
    match op
    case Malloc(size) => AllocStep(s, size, 8)
    case MallocAligned(size, align) => AllocStep(s, size, align)
    case Realloc(i, newSize) => ReallocStep(s, i, newSize)
    case StoreByte(i, at, value) => s.(mem := s.mem[s.blocks[i].ptr + at := value])
  }

  lemma EightIsPower()
    ensures IsPowerOfTwo(8)
  {
  }

  /** A block is only handed out when rounding did not wrap; it lies between the pointer and the end. */
  lemma NewBlockFits(s: Heap, size: word, align: word)
    requires HeapInv(s) && AllocStep(s, size, align).blocks != s.blocks
    ensures var t, k := AllocStep(s, size, align), |s.blocks|;
            && align > 0 && IsPowerOfTwo(align) && NoWrap(s.h, align)
            && |t.blocks| == k + 1 && t.blocks[..k] == s.blocks
            && s.h.current <= t.blocks[k].ptr && t.blocks[k].size == size && t.blocks[k].align == align
            && t.blocks[k].ptr % align == 0 && t.blocks[k].ptr + size == t.h.current <= s.h.end <= |s.mem|
  {
    hide IsPowerOfTwo, RoundUp;
    hide HeapInv;
    assert Ready(s.h) && s.h.end <= |s.mem| by { HeapParts(s); }
    if NoWrap(s.h, align) {
      AllocMeaning(s.h, size, align);
    } else {
      WrapMeaning(s.h, size, align);
      assert false;
    }
  }

  lemma HeapParts(s: Heap)
    requires HeapInv(s)
    ensures Ready(s.h) && s.h.end <= |s.mem|
  {
  }

  /** An allocation keeps the invariant; a new block lies after every old one, as aligned as asked. */
  lemma AllocGrows(s: Heap, size: word, align: word)
    requires HeapInv(s) && PointerStays(s.h, size, align)
    ensures var t := AllocStep(s, size, align);
            && HeapInv(t) && t.mem == s.mem
            && t.h.current >= s.h.current && t.h.start == s.h.start && t.h.end == s.h.end
            && |s.blocks| <= |t.blocks| && t.blocks[..|s.blocks|] == s.blocks
            && (t.blocks == s.blocks && (align > 0 && IsPowerOfTwo(align) ==> NoWrap(s.h, align)) ==> t == s)
  {
    hide IsPowerOfTwo, RoundUp, AllocStep, HeapInv;
    AllocPointer(s, size, align);
    if AllocStep(s, size, align).blocks != s.blocks {
      NewBlockFits(s, size, align);
      OneMoreBlock(s, AllocStep(s, size, align));
    } else {
      SameBlocks(s, AllocStep(s, size, align));
    }
  }

  lemma AllocPointer(s: Heap, size: word, align: word)
    requires HeapInv(s) && PointerStays(s.h, size, align)
    ensures var t := AllocStep(s, size, align);
            && Ready(t.h) && t.mem == s.mem
            && t.h.current >= s.h.current && t.h.start == s.h.start && t.h.end == s.h.end
            && (t.blocks == s.blocks && (align > 0 && IsPowerOfTwo(align) ==> NoWrap(s.h, align)) ==> t == s)
  {
    hide IsPowerOfTwo, RoundUp, HeapInv;
    HeapParts(s);
    if align > 0 && IsPowerOfTwo(align) {
      if NoWrap(s.h, align) {
        AllocMeaning(s.h, size, align);
      } else {
        WrapMeaning(s.h, size, align);
      }
    }
  }

  lemma SameBlocks(s: Heap, t: Heap)
    requires HeapInv(s) && Ready(t.h) && t.mem == s.mem && t.blocks == s.blocks
    requires t.h.current >= s.h.current && t.h.start == s.h.start && t.h.end == s.h.end
    ensures HeapInv(t)
  {
  }

  lemma OneMoreBlock(s: Heap, t: Heap)
    requires HeapInv(s) && Ready(t.h) && t.mem == s.mem
    requires t.h.current >= s.h.current && t.h.start == s.h.start && t.h.end == s.h.end
    requires |t.blocks| == |s.blocks| + 1 && t.blocks[..|s.blocks|] == s.blocks
    requires var b := t.blocks[|s.blocks|];
             s.h.current <= b.ptr && b.ptr + b.size <= t.h.current && b.align > 0 && b.ptr % b.align == 0
    ensures HeapInv(t)
  {
    forall i | 0 <= i < |s.blocks|
      ensures t.blocks[i] == s.blocks[i]
    {
      assert t.blocks[..|s.blocks|][i] == t.blocks[i];
    }
  }

  /** Nothing an operation does reaches a block it does not name. */
  ghost predicate KeepsOthers(s: Heap, op: Op, t: Heap)
    requires HeapInv(s) && HeapInv(t) && |t.blocks| >= |s.blocks|
  {
    forall i: nat :: i < |s.blocks| && !(op.StoreByte? && op.block == i) ==> Contents(t, i) == Contents(s, i)
  }

  /** `krealloc` of a block: nothing else changes, and a new block starts with the bytes of the old one. */
  lemma ReallocMeaning(s: Heap, i: nat, newSize: word)
    requires HeapInv(s) && Legal(s, Realloc(i, newSize))
    ensures var t := ReallocStep(s, i, newSize);
            && SafeStep(s, Realloc(i, newSize), t)
            && (|t.blocks| == |s.blocks| && (newSize != 0 ==> NoWrap(s.h, 8)) ==> t == s)
            && (|t.blocks| > |s.blocks| ==>
                 var n := Least(s.blocks[i].size, newSize);
                 && |t.blocks| == |s.blocks| + 1 && t.blocks[|s.blocks|].size == newSize
                 && s.blocks[i].ptr + s.blocks[i].size <= t.blocks[|s.blocks|].ptr
                 && Contents(t, |s.blocks|)[..n] == Contents(s, i)[..n])
  {
    hide AllocStep, HeapInv, Contents, RoundUp, IsPowerOfTwo;
    if newSize == 0 {
      SameMemory(s, s, Realloc(i, newSize));
    } else {
      var u := AllocStep(s, newSize, 8);
      AllocGrows(s, newSize, 8);
      if u.blocks != s.blocks {
        NewBlockFits(s, newSize, 8);
        BlockBelow(s, i);
        CopyKeeps(s, u, i, newSize);
      } else {
        SameMemory(s, u, Realloc(i, newSize));
      }
    }
  }

  lemma BlockBelow(s: Heap, i: nat)
    requires HeapInv(s) && i < |s.blocks|
    ensures s.h.start <= s.blocks[i].ptr && s.blocks[i].ptr + s.blocks[i].size <= s.h.current <= |s.mem|
  {
  }

  lemma CopyKeeps(s: Heap, u: Heap, i: nat, newSize: word)
    requires HeapInv(s) && HeapInv(u) && i < |s.blocks| && u.mem == s.mem
    requires |u.blocks| == |s.blocks| + 1 && u.blocks[..|s.blocks|] == s.blocks
    requires s.h.current <= u.blocks[|s.blocks|].ptr && u.blocks[|s.blocks|].size == newSize
    ensures var n, k := Least(s.blocks[i].size, newSize), |s.blocks|;
            && s.blocks[i].ptr + n <= |u.mem| && u.blocks[k].ptr + n <= |u.mem|
            && var t := u.(mem := Copied(u.mem, s.blocks[i].ptr, u.blocks[k].ptr, n));
               && HeapInv(t) && Contents(t, k)[..n] == Contents(s, i)[..n]
               && forall j: nat :: j < k ==> Contents(t, j) == Contents(s, j)
  {
    hide HeapInv, Copied;
    var n, k := Least(s.blocks[i].size, newSize), |s.blocks|;
    BlockBelow(s, i);
    BlockBelow(u, k);
    var p, q := s.blocks[i].ptr, u.blocks[k].ptr;
    CopiedParts(u.mem, p, q, n);
    var mem := Copied(u.mem, p, q, n);
    SameContents(s, u, mem, q);
    PrefixOfSlice(mem, q, q + newSize, n);
    PrefixOfSlice(s.mem, p, p + s.blocks[i].size, n);
  }

  lemma PrefixOfSlice(a: seq<byte>, lo: nat, hi: nat, n: nat)
    requires lo + n <= hi <= |a|
    ensures a[lo..hi][..n] == a[lo..lo + n]
  {
  }

  /** Memory that agrees below every new block gives the old blocks the same bytes. */
  lemma SameContents(s: Heap, u: Heap, mem: seq<byte>, q: nat)
    requires HeapInv(s) && HeapInv(u) && |mem| == |u.mem| == |s.mem|
    requires s.h.current <= q <= |mem| && mem[..q] == s.mem[..q]
    requires |u.blocks| >= |s.blocks| && u.blocks[..|s.blocks|] == s.blocks
    ensures HeapInv(u.(mem := mem))
    ensures forall j: nat :: j < |s.blocks| ==> Contents(u.(mem := mem), j) == Contents(s, j)
  {
    assert HeapInv(u.(mem := mem));
    hide HeapInv;
    forall j: nat | j < |s.blocks|
      ensures Contents(u.(mem := mem), j) == Contents(s, j)
    {
      BlockBelow(s, j);
      assert u.blocks[..|s.blocks|][j] == u.blocks[j];
      SameSlice(s.mem, mem, q, s.blocks[j].ptr, s.blocks[j].ptr + s.blocks[j].size);
    }
  }

  lemma SameSlice(a: seq<byte>, b: seq<byte>, q: nat, lo: nat, hi: nat)
    requires lo <= hi <= q <= |a| && q <= |b| && a[..q] == b[..q]
    ensures a[lo..hi] == b[lo..hi]
  {
    assert a[..q][lo..hi] == a[lo..hi] && b[..q][lo..hi] == b[lo..hi];
  }

  lemma CopiedIs(before: seq<byte>, after: seq<byte>, src: nat, dst: nat, n: nat)
    requires src + n <= |before| && dst + n <= |before| == |after|
    requires forall a {:trigger after[a]} :: 0 <= a < |before| ==>
               after[a] == if dst <= a < dst + n then before[src + (a - dst)] else before[a]
    ensures after == Copied(before, src, dst, n)
  {
    forall a | 0 <= a < |before|
      ensures after[a] == Copied(before, src, dst, n)[a]
    {
      var c := before[..dst] + before[src..src + n];
      assert Copied(before, src, dst, n) == c + before[dst + n..];
    }
  }

  lemma CopiedParts(mem: seq<byte>, src: nat, dst: nat, n: nat)
    requires src + n <= |mem| && dst + n <= |mem|
    ensures var r := Copied(mem, src, dst, n);
            && r[..dst] == mem[..dst] && r[dst..dst + n] == mem[src..src + n]
            && r[dst + n..] == mem[dst + n..]
  {
  }

  /** The invariant, every old block in its place, the pointer no lower, and no byte of other blocks changed. */
  ghost predicate SafeStep(s: Heap, op: Op, t: Heap)
    requires HeapInv(s)
  {
    && HeapInv(t) && |t.blocks| >= |s.blocks| && t.blocks[..|s.blocks|] == s.blocks
    && t.h.current >= s.h.current && KeepsOthers(s, op, t)
  }

  lemma AllocSafe(s: Heap, size: word, align: word, op: Op)
    requires HeapInv(s) && PointerStays(s.h, size, align)
    ensures SafeStep(s, op, AllocStep(s, size, align))
  {
    hide AllocStep, Contents, Ready, HeapInv, PointerStays;
    AllocGrows(s, size, align);
    SameMemory(s, AllocStep(s, size, align), op);
  }

  /** Every operation keeps the invariant and the bytes of every block it does not store to. */
  lemma StepSafe(s: Heap, op: Op)
    requires HeapInv(s) && Legal(s, op)
    ensures SafeStep(s, op, Step(s, op))
  {
    hide AllocStep, ReallocStep, Contents, HeapInv, PointerStays;
    match op
    case Malloc(size) => AllocSafe(s, size, 8, op);
    case MallocAligned(size, align) => AllocSafe(s, size, align, op);
    case Realloc(i, newSize) => ReallocMeaning(s, i, newSize);
    case StoreByte(i, at, value) => StoreKeeps(s, i, at, value);
  }

  /** The condition is exact: an operation that does not meet it lets the pointer drop. */
  lemma StepSafeExactly(s: Heap, op: Op)
    requires HeapInv(s) && Named(s, op)
    ensures SafeStep(s, op, Step(s, op)) <==> Legal(s, op)
  {
    hide HeapInv, Contents, RoundUp, IsPowerOfTwo, AllocAligned;
    if Legal(s, op) {
      StepSafe(s, op);
    } else {
      EightIsPower();
      HeapParts(s);
      match op {
        case Malloc(size) => Unsafe(s, size, 8, op);
        case MallocAligned(size, align) => Unsafe(s, size, align, op);
        case Realloc(i, newSize) => Unsafe(s, newSize, 8, op);
        case StoreByte(_, _, _) =>
      }
    }
  }

  /** Where the condition fails, nothing is handed out and the pointer drops. */
  lemma Unsafe(s: Heap, size: word, align: word, op: Op)
    requires HeapInv(s) && !PointerStays(s.h, size, align)
    ensures var t := AllocStep(s, size, align);
            t.blocks == s.blocks && t.h.current < s.h.current && !SafeStep(s, op, t)
  {
    hide HeapInv, KeepsOthers, RoundUp, IsPowerOfTwo, AllocAligned;
    HeapParts(s);
    WrapMeaning(s.h, size, align);
  }

  /** On a heap that ends at or below 2^63 every operation meets the condition. */
  lemma LowHeapAlwaysLegal(s: Heap, op: Op)
    requires HeapInv(s) && Named(s, op) && s.h.end <= HALF
    ensures Legal(s, op)
  {
    hide HeapInv, RoundUp, IsPowerOfTwo;
    HeapParts(s);
    EightIsPower();
    LowHeapNeverWraps(s.h, 8);
    if op.MallocAligned? && op.align > 0 && IsPowerOfTwo(op.align) {
      LowHeapNeverWraps(s.h, op.align);
    }
  }

  lemma SameMemory(s: Heap, t: Heap, op: Op)
    requires HeapInv(s) && HeapInv(t) && t.mem == s.mem
    requires |t.blocks| >= |s.blocks| && t.blocks[..|s.blocks|] == s.blocks
    ensures KeepsOthers(s, op, t)
  {
  }

  lemma StoreKeeps(s: Heap, i: nat, at: nat, value: byte)
    requires HeapInv(s) && i < |s.blocks| && at < s.blocks[i].size
    ensures var t := s.(mem := s.mem[s.blocks[i].ptr + at := value]);
            HeapInv(t) && KeepsOthers(s, StoreByte(i, at, value), t)
  {
  }

  /** `kheap_init` on a range that starts above 0 and ends below 2^64 and within memory. */
  lemma FreshHeap(start: word, size: word, mem: seq<byte>)
    requires start != 0 && start + size < TWO_64 && start + size <= |mem|
    ensures HeapInv(Heap(Bump(start, start + size, start, true), mem, []))
  {
  }

  ghost predicate RunTo(s: Heap, ops: seq<Op>, end: Heap)
    requires HeapInv(s)
    decreases |ops|
  {
    if ops == [] then end == s
    else Legal(s, ops[0]) && (StepSafe(s, ops[0]); RunTo(Step(s, ops[0]), ops[1..], end))
  }

  /**
   Over any run: blocks stay inside the heap, aligned as asked and pairwise disjoint, the pointer
   never drops, and a block keeps its bytes for as long as no store names it.
   */
  lemma {:induction false} RunSafe(s: Heap, ops: seq<Op>, end: Heap, i: nat)
    requires HeapInv(s) && RunTo(s, ops, end) && i < |s.blocks|
    requires forall k :: 0 <= k < |ops| ==> !(ops[k].StoreByte? && ops[k].block == i)
    ensures HeapInv(end) && end.h.current >= s.h.current && i < |end.blocks| && end.blocks[i] == s.blocks[i]
    ensures Contents(end, i) == Contents(s, i)
    decreases |ops|
  {
    if ops != [] {
      StepSafe(s, ops[0]);
      var t := Step(s, ops[0]);
      hide HeapInv, Step, Legal, Contents;
      assert t.blocks[..|s.blocks|][i] == t.blocks[i];
      assert !(ops[0].StoreByte? && ops[0].block == i);
      RunSafe(t, ops[1..], end, i);
    }
  }

  lemma {:induction false} RunInv(s: Heap, ops: seq<Op>, end: Heap)
    requires HeapInv(s) && RunTo(s, ops, end)
    ensures HeapInv(end) && end.h.current >= s.h.current
    decreases |ops|
  {
    if ops != [] {
      StepSafe(s, ops[0]);
      hide HeapInv, Step, Legal;
      RunInv(Step(s, ops[0]), ops[1..], end);
    }
  }

  // ----- The allocator -----

  class Allocator {
    var heapStart: word
    var heapEnd: word
    var heapCurrent: word
    var initialized: bool
    const mem: array<byte>

    ghost function State(): Bump
      reads this
    {
      Bump(heapStart, heapEnd, heapCurrent, initialized)
    }

    /** An allocator over the given memory, its statics zeroed. */
    constructor (mem: array<byte>)
      ensures this.mem == mem && State() == Bump(0, 0, 0, false)
    {
      this.mem := mem;
      heapStart, heapEnd, heapCurrent, initialized := 0, 0, 0, false;
    }

    /** `kheap_init`. The end wraps like any sum; the heap is usable exactly when it does not and starts above 0. */
    method KheapInit(start: word, size: word)
      modifies this`heapStart, this`heapEnd, this`heapCurrent, this`initialized
      ensures State() == Bump(start, (start + size) % TWO_64, start, true)
      ensures Ready(State()) <==> start != 0 && start + size < TWO_64
      ensures Ready(State()) && start + size <= mem.Length ==> HeapInv(Heap(State(), mem[..], []))
    {
      heapStart := start;
      heapEnd := (start + size) % TWO_64;
      heapCurrent := start;
      initialized := true;
    }

    /** `kmalloc_aligned`. */
    method KmallocAligned(size: word, align: word) returns (p: word)
      modifies this`heapCurrent
      ensures (State(), p) == AllocAligned(old(State()), size, align)
    {
      hide Offset;
      if !initialized || heapStart == 0 {
        return 0;
      }
      if align < 1 || !IsPowerOfTwo(align) {
        return 0;
      }
      var current := heapCurrent;
      var aligned := (current + Offset(current, align)) % TWO_64;
      if aligned + size < TWO_64 && aligned + size <= heapEnd {
        heapCurrent := aligned + size;
        return aligned;
      }
      return 0;
    }

    /** `kmalloc`. */
    method Kmalloc(size: word) returns (p: word)
      modifies this`heapCurrent
      ensures (State(), p) == Alloc(old(State()), size)
    {
      hide Offset;
      if !initialized || heapStart == 0 {
        return 0;
      }
      EightIsPower();
      var align := 8;
      var current := heapCurrent;
      var aligned := (current + Offset(current, align)) % TWO_64;
      if aligned + size < TWO_64 && aligned + size <= heapEnd {
        heapCurrent := aligned + size;
        return aligned;
      }
      return 0;
    }

    /** A copy between ranges that do not overlap. */
    method CopyNonoverlapping(src: nat, dst: nat, n: nat)
      requires src + n <= mem.Length && dst + n <= mem.Length
      requires src + n <= dst || dst + n <= src
      modifies mem
      ensures mem[..] == Copied(old(mem[..]), src, dst, n)
    {
      hide Copied;
      var k := 0;
      while k < n
        invariant 0 <= k <= n
        invariant forall a :: 0 <= a < mem.Length ==>
                    mem[a] == if dst <= a < dst + k then old(mem[src + (a - dst)]) else old(mem[a])
      {
        mem[dst + k] := mem[src + k];
        k := k + 1;
      }
      CopiedIs(old(mem[..]), mem[..], src, dst, n);
    }

    /**
     `krealloc`. As for any raw copy, the old and the new range must lie in memory and must not
     overlap; `ReallocSafe` shows that they do for every block of a heap that satisfies `HeapInv`.
     */
    method Krealloc(ptr: word, oldSize: word, newSize: word) returns (p: word)
      requires var q := Alloc(State(), newSize).1;
               var n := Least(oldSize, newSize);
               ptr != 0 && newSize != 0 && q != 0 ==>
                 ptr + n <= mem.Length && q + n <= mem.Length && (ptr + n <= q || q + n <= ptr)
      modifies this`heapCurrent, mem
      ensures ptr == 0 ==> (State(), p) == Alloc(old(State()), newSize) && mem[..] == old(mem[..])
      ensures ptr != 0 && newSize == 0 ==> p == 0 && State() == old(State()) && mem[..] == old(mem[..])
      ensures ptr != 0 && newSize != 0 ==>
                && (State(), p) == Alloc(old(State()), newSize)
                && mem[..] == if p == 0 then old(mem[..]) else Copied(old(mem[..]), ptr, p, Least(oldSize, newSize))
    {
      if ptr == 0 {
        p := Kmalloc(newSize);
        return;
      }
      if newSize == 0 {
        return 0;
      }
      p := Kmalloc(newSize);
      if p != 0 {
        var copySize := if oldSize < newSize then oldSize else newSize;
        CopyNonoverlapping(ptr, p, copySize);
      }
    }
  }

  /** The copy that `krealloc` makes for a block of the heap is within memory and never overlaps. */
  lemma ReallocSafe(s: Heap, i: nat, newSize: word)
    requires HeapInv(s) && i < |s.blocks|
    ensures var q, n := Alloc(s.h, newSize).1, Least(s.blocks[i].size, newSize);
            q != 0 ==> s.blocks[i].ptr + n <= |s.mem| && q + n <= |s.mem| && s.blocks[i].ptr + n <= q
  {
    hide HeapInv, AllocAligned, RoundUp, IsPowerOfTwo;
    if Alloc(s.h, newSize).1 != 0 {
      NewBlockFits(s, newSize, 8);
      BlockBelow(s, i);
    }
  }

  /**
   The method `Krealloc`, called with a block of the heap and its true size, takes the step
   `ReallocStep`: what it ensures of allocator, memory and result fixes the heap afterwards.
   */
  lemma KreallocTakesStep(s: Heap, i: nat, newSize: word, h: Bump, p: word, mem: seq<byte>)
    requires HeapInv(s) && i < |s.blocks|
    requires newSize == 0 ==> p == 0 && h == s.h && mem == s.mem
    requires newSize != 0 ==>
               var q, n := Alloc(s.h, newSize).1, Least(s.blocks[i].size, newSize);
               && (h, p) == Alloc(s.h, newSize)
               && (q != 0 ==> s.blocks[i].ptr + n <= |s.mem| && q + n <= |s.mem|)
               && mem == if p == 0 then s.mem else Copied(s.mem, s.blocks[i].ptr, p, n)
    ensures s.blocks[i].ptr != 0
    ensures ReallocStep(s, i, newSize) == Heap(h, mem, if p == 0 then s.blocks else s.blocks + [Region(p, newSize, 8)])
  {
    hide AllocAligned, RoundUp, IsPowerOfTwo, Copied;
    BlockBelow(s, i);
    HeapParts(s);
    hide HeapInv;
    if newSize != 0 && p != 0 {
      NewBlockFits(s, newSize, 8);
    }
  }
}
