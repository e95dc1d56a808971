/**
 The block heap of kernel/mm/paging.c: a doubly linked list of headers laid over one address
 range, searched best-fit and split in place.

 A header is identified by its address. `Tiles` says that the list covers the heap exactly.
 Sizes and addresses are 64-bit, and the splitting arithmetic wraps as it does in the source.
 */
module BlockHeap {
  import opened Bits

  const HEAP_START: word := 0x10_0000
  const HEAP_SIZE: word := 0x80_0000
  const HEAP_END: word := 0x90_0000
  const HEADER: word := 40
  const MAGIC: word := 0xDEAD_BEEF_1234_5678

  datatype Block = Block(magic: word, size: word, isFree: bool, next: word, prev: word)

  type Blocks = map<word, Block>

  // ----- Tiling -----

  /** Block `k` of the list: its header is intact, its links are right, it ends where the next begins. */
  ghost predicate TileAt(blocks: Blocks, order: seq<word>, k: nat)
    requires k < |order|
  {
    && order[k] in blocks
    && var b := blocks[order[k]];
       && b.magic == MAGIC
       && b.prev == (if k == 0 then 0 else order[k - 1])
       && b.next == (if k + 1 == |order| then 0 else order[k + 1])
       && order[k] + HEADER + b.size == (if k + 1 == |order| then HEAP_END else order[k + 1])
  }

  /** The list starting at the heap's start visits `order` and tiles the heap. */
  ghost predicate Tiles(blocks: Blocks, order: seq<word>) {
    && order != [] && order[0] == HEAP_START && 0 !in blocks
    && forall k: nat :: k < |order| ==> TileAt(blocks, order, k)
  }

  lemma {:induction false} Ascending(blocks: Blocks, order: seq<word>, j: nat, k: nat)
    requires Tiles(blocks, order) && j < k < |order|
    ensures order[j] + HEADER <= order[k] && order[k] + HEADER <= HEAP_END
    decreases k - j
  {
    assert TileAt(blocks, order, j);
    if j + 1 < k {
      Ascending(blocks, order, j + 1, k);
    }
    BelowEnd(blocks, order, k);
  }

  lemma {:induction false} BelowEnd(blocks: Blocks, order: seq<word>, k: nat)
    requires Tiles(blocks, order) && k < |order|
    ensures HEAP_START <= order[k]
    ensures order[k] in blocks && order[k] + HEADER + blocks[order[k]].size <= HEAP_END
    decreases |order| - k
  {
    assert TileAt(blocks, order, k);
    AboveStart(blocks, order, k);
    if k + 1 < |order| {
      BelowEnd(blocks, order, k + 1);
    }
  }

  lemma {:induction false} AboveStart(blocks: Blocks, order: seq<word>, k: nat)
    requires Tiles(blocks, order) && k < |order|
    ensures HEAP_START <= order[k]
  {
    if k > 0 {
      assert TileAt(blocks, order, k - 1);
      AboveStart(blocks, order, k - 1);
    }
  }

  /** The bytes of headers and payloads of the blocks from the k-th on. */
  ghost function Bytes(blocks: Blocks, order: seq<word>, k: nat): nat
    requires Tiles(blocks, order) && k <= |order|
    decreases |order| - k
  {
    if k == |order| then 0
    else assert TileAt(blocks, order, k); HEADER + blocks[order[k]].size + Bytes(blocks, order, k + 1)
  }

  /** Headers and payloads add up to the whole heap. */
  lemma {:induction false} BytesAddUp(blocks: Blocks, order: seq<word>, k: nat)
    requires Tiles(blocks, order) && k < |order|
    ensures Bytes(blocks, order, k) == HEAP_END - order[k]
    ensures k == 0 ==> Bytes(blocks, order, k) == HEAP_SIZE
    decreases |order| - k
  {
    assert TileAt(blocks, order, k);
    if k + 1 < |order| {
      BytesAddUp(blocks, order, k + 1);
    }
  }

  // ----- Splitting -----

  function Wrap(x: int): word {
    x % TWO_64
  }

  /** The guard of `heap_split_block`, in wrapping arithmetic. */
  predicate TooSmall(blockSize: word, size: word) {
    blockSize <= Wrap(size + HEADER + 16)
  }

  /** `heap_split_block`: the headers after the call. */
  function Split(blocks: Blocks, at: word, size: word): Blocks
    requires at in blocks && (blocks[at].next != 0 ==> blocks[at].next in blocks)
  {
    var b := blocks[at];
    if TooSmall(b.size, size) then blocks
    else
      var rest := Wrap(at + HEADER + size);
      var blocks1 := blocks[rest := Block(MAGIC, Wrap(b.size - size - HEADER), true, b.next, at)];
      var blocks2 := if b.next != 0 then blocks1[b.next := blocks1[b.next].(prev := rest)] else blocks1;
      blocks2[at := blocks2[at].(next := rest, size := size)]
  }

  /** The list after a split that was carried out. */
  function SplitOrder(order: seq<word>, k: nat, size: word): seq<word>
    requires k < |order| && order[k] + HEADER + size < TWO_64
  {
    order[..k + 1] + [order[k] + HEADER + size] + order[k + 1..]
  }

  /** The wrapped guard refuses the request, or nothing wrapped: a condition on the two sizes alone. */
  predicate GuardSound(blockSize: word, size: word) {
    size + HEADER + 16 < TWO_64 || blockSize <= size + HEADER + 16 - TWO_64
  }

  lemma NextListed(blocks: Blocks, order: seq<word>, k: nat)
    requires Tiles(blocks, order) && k < |order|
    ensures order[k] in blocks && (blocks[order[k]].next != 0 ==> blocks[order[k]].next in blocks)
  {
    assert TileAt(blocks, order, k);
    if k + 1 < |order| {
      assert TileAt(blocks, order, k + 1);
    }
  }

  /** A carried-out split of the k-th block. */
  ghost predicate Splits(blocks: Blocks, order: seq<word>, k: nat, size: word) {
    && Tiles(blocks, order) && k < |order| && order[k] in blocks
    && (blocks[order[k]].next != 0 ==> blocks[order[k]].next in blocks)
    && size + HEADER + 16 < blocks[order[k]].size
    && order[k] + HEADER + size < TWO_64
  }

  lemma SplitTileBefore(blocks: Blocks, order: seq<word>, k: nat, size: word, j: nat)
    requires Splits(blocks, order, k, size) && j <= k
    ensures TileAt(Split(blocks, order[k], size), SplitOrder(order, k, size), j)
  {
    BelowEnd(blocks, order, k);
    assert TileAt(blocks, order, k) && TileAt(blocks, order, j);
    if j < k {
      Ascending(blocks, order, j, k);
    }
    if k + 1 < |order| {
      Ascending(blocks, order, j, k + 1);
      Ascending(blocks, order, k, k + 1);
    }
  }

  lemma SplitTileRest(blocks: Blocks, order: seq<word>, k: nat, size: word)
    requires Splits(blocks, order, k, size)
    ensures TileAt(Split(blocks, order[k], size), SplitOrder(order, k, size), k + 1)
  {
    BelowEnd(blocks, order, k);
    assert TileAt(blocks, order, k);
    if k + 1 < |order| {
      Ascending(blocks, order, k, k + 1);
    }
  }

  lemma SplitTileAfter(blocks: Blocks, order: seq<word>, k: nat, size: word, i: nat)
    requires Splits(blocks, order, k, size) && k < i < |order|
    ensures TileAt(Split(blocks, order[k], size), SplitOrder(order, k, size), i + 1)
  {
    BelowEnd(blocks, order, k);
    assert TileAt(blocks, order, k) && TileAt(blocks, order, i);
    Ascending(blocks, order, k, i);
    Ascending(blocks, order, k, k + 1);
    if i > k + 1 {
      Ascending(blocks, order, k + 1, i);
    }
  }

  /**
   A split of a large enough block: the list gains one free remainder of more than 16 bytes right
   after the block, the block gets the requested size, and the heap is still tiled.
   */
  lemma SplitTiles(blocks: Blocks, order: seq<word>, k: nat, size: word)
    requires Tiles(blocks, order) && k < |order| && order[k] in blocks
    requires size + HEADER + 16 < blocks[order[k]].size
    ensures order[k] + HEADER + size < TWO_64
    ensures blocks[order[k]].next != 0 ==> blocks[order[k]].next in blocks
    ensures var blocks2, order2 := Split(blocks, order[k], size), SplitOrder(order, k, size);
            var rest := order2[k + 1];
            && Tiles(blocks2, order2)
            && order2[k] == order[k] && blocks2[order[k]].size == size
            && blocks2[order[k]].isFree == blocks[order[k]].isFree
            && rest in blocks2 && blocks2[rest].isFree && blocks2[rest].size > 16
            && blocks2[rest].size + size + HEADER == blocks[order[k]].size
            && forall a :: a in blocks && a != order[k] && a != rest ==>
                 a in blocks2 && blocks2[a].size == blocks[a].size && blocks2[a].isFree == blocks[a].isFree
  {
    hide GuardSound;
    NextListed(blocks, order, k);
    BelowEnd(blocks, order, k);
    var blocks2, order2 := Split(blocks, order[k], size), SplitOrder(order, k, size);
    forall j: nat | j < |order2|
      ensures TileAt(blocks2, order2, j)
    {
      if j <= k {
        SplitTileBefore(blocks, order, k, size, j);
      } else if j == k + 1 {
        SplitTileRest(blocks, order, k, size);
      } else {
        SplitTileAfter(blocks, order, k, size, j - 1);
      }
    }
    assert TileAt(blocks2, order2, k);
    assert TileAt(blocks2, order2, k + 1);
    SplitSizes(blocks, order, k, size);
  }

  lemma SplitSizes(blocks: Blocks, order: seq<word>, k: nat, size: word)
    requires Tiles(blocks, order) && k < |order| && order[k] in blocks
    requires size + HEADER + 16 < blocks[order[k]].size
    requires blocks[order[k]].next != 0 ==> blocks[order[k]].next in blocks
    ensures var blocks2 := Split(blocks, order[k], size);
            var rest := order[k] + HEADER + size;
            && order[k] in blocks2 && blocks2[order[k]].isFree == blocks[order[k]].isFree
            && rest in blocks2 && blocks2[rest].isFree
            && forall a :: a in blocks && a != order[k] && a != rest ==>
                 a in blocks2 && blocks2[a].size == blocks[a].size && blocks2[a].isFree == blocks[a].isFree
  {
    BelowEnd(blocks, order, k);
    assert TileAt(blocks, order, k);
    if k + 1 < |order| {
      Ascending(blocks, order, k, k + 1);
    }
  }

  /**
   When the wrapped guard misses an oversized request, the list is broken for good: the block
   claims more bytes than the heap has.
   */
  lemma {:induction false} BadSplitBreaks(blocks: Blocks, order: seq<word>, k: nat, size: word, order2: seq<word>)
    requires Tiles(blocks, order) && k < |order| && order[k] in blocks
    requires blocks[order[k]].next != 0 ==> blocks[order[k]].next in blocks
    requires !GuardSound(blocks[order[k]].size, size)
    ensures !Tiles(Split(blocks, order[k], size), order2)
  {
    var blocks2 := Split(blocks, order[k], size);
    BelowEnd(blocks, order, k);
    assert Wrap(size + HEADER + 16) == size + HEADER + 16 - TWO_64;
    assert blocks2[order[k]].size == size;
    if Tiles(blocks2, order2) {
      SamePrefix(blocks, order, k, size, order2, k);
      BelowEnd(blocks2, order2, k);
      assert false;
    }
  }

  lemma {:induction false} SamePrefix(blocks: Blocks, order: seq<word>, k: nat, size: word, order2: seq<word>, j: nat)
    requires Tiles(blocks, order) && j <= k < |order| && order[k] in blocks
    requires blocks[order[k]].next != 0 ==> blocks[order[k]].next in blocks
    requires !GuardSound(blocks[order[k]].size, size)
    requires Tiles(Split(blocks, order[k], size), order2)
    ensures j < |order2| && order2[j] == order[j]
  {
    if j > 0 {
      SamePrefix(blocks, order, k, size, order2, j - 1);
      Ascending(blocks, order, j - 1, k);
      BelowEnd(blocks, order, k);
      assert TileAt(blocks, order, j - 1);
      assert TileAt(blocks, order, k);
      assert TileAt(Split(blocks, order[k], size), order2, j - 1);
    }
  }

  /** For any listed block and 64-bit size a split keeps the heap tiled exactly when its guard does not wrap wrongly. */
  lemma SplitKeepsTilingExactly(blocks: Blocks, order: seq<word>, k: nat, size: word)
    requires Tiles(blocks, order) && k < |order| && order[k] in blocks
    requires blocks[order[k]].next != 0 ==> blocks[order[k]].next in blocks
    ensures (exists order2 :: Tiles(Split(blocks, order[k], size), order2)) <==> GuardSound(blocks[order[k]].size, size)
  {
    if !GuardSound(blocks[order[k]].size, size) {
      forall order2
        ensures !Tiles(Split(blocks, order[k], size), order2)
      {
        BadSplitBreaks(blocks, order, k, size, order2);
      }
    } else if TooSmall(blocks[order[k]].size, size) {
      assert Tiles(Split(blocks, order[k], size), order);
    } else {
      SplitTiles(blocks, order, k, size);
    }
  }

  /**
   Exactly when a split of a listed block is refused: what would remain is 16 bytes or fewer beyond a
   header of 40, in the wrapping arithmetic of the guard.
   */
  lemma SplitRefusedExactly(blocks: Blocks, order: seq<word>, k: nat, size: word)
    requires Tiles(blocks, order) && k < |order| && order[k] in blocks
    requires blocks[order[k]].next != 0 ==> blocks[order[k]].next in blocks
    ensures size + 56 < TWO_64 ==>
              (Split(blocks, order[k], size) == blocks <==> blocks[order[k]].size <= size + 56)
    ensures size + 56 >= TWO_64 ==>
              (Split(blocks, order[k], size) == blocks <==> blocks[order[k]].size <= size + 56 - TWO_64)
  {
    BelowEnd(blocks, order, k);
    var after := Split(blocks, order[k], size);
    if blocks[order[k]].size > (size + 56) % TWO_64 {
      assert after[order[k]].size == size;
    }
  }

  function InitialBlocks(): Blocks {
    map[HEAP_START := Block(MAGIC, HEAP_SIZE - HEADER, true, 0, 0)]
  }

  /** The unsound case is reachable: a request of 2^64 - 1 bytes on the fresh heap passes the guard. */
  lemma OversizedRequestBreaks(order2: seq<word>)
    ensures !Tiles(Split(InitialBlocks(), HEAP_START, TWO_64 - 1), order2)
  {
    assert TileAt(InitialBlocks(), [HEAP_START], 0);
    BadSplitBreaks(InitialBlocks(), [HEAP_START], 0, TWO_64 - 1, order2);
  }

  // ----- Best fit -----

  predicate Fits(b: Block, size: word) {
    b.isFree && b.size >= size
  }

  /** The k-th block fits, none that fits is smaller, and none as small comes before it. */
  ghost predicate IsBestFit(blocks: Blocks, order: seq<word>, size: word, k: nat) {
    && k < |order| && order[k] in blocks && Fits(blocks[order[k]], size)
    && (forall j: nat :: j < |order| && order[j] in blocks && Fits(blocks[order[j]], size) ==>
         blocks[order[k]].size <= blocks[order[j]].size
         && (j < k ==> blocks[order[k]].size < blocks[order[j]].size))
  }

  /** A best fit is free and large enough; other such blocks are larger, or as large and behind it. */
  lemma BestFitMeans(blocks: Blocks, order: seq<word>, size: word, k: nat)
    requires Tiles(blocks, order) && IsBestFit(blocks, order, size, k)
    ensures blocks[order[k]].isFree && blocks[order[k]].size >= size
    ensures forall a :: a in order && a in blocks && blocks[a].isFree && blocks[a].size >= size ==>
              blocks[order[k]].size < blocks[a].size || (blocks[order[k]].size == blocks[a].size && order[k] <= a)
  {
    forall a | a in order && a in blocks && blocks[a].isFree && blocks[a].size >= size
      ensures blocks[order[k]].size < blocks[a].size || (blocks[order[k]].size == blocks[a].size && order[k] <= a)
    {
      var j: nat :| j < |order| && order[j] == a;
      assert Fits(blocks[order[j]], size);
      if k < j {
        Ascending(blocks, order, k, j);
      }
    }
  }

  /** Splitting a best fit at the requested size never meets the unsound guard, so the heap stays tiled. */
  lemma BestFitSplits(blocks: Blocks, order: seq<word>, size: word, k: nat)
    requires Tiles(blocks, order) && IsBestFit(blocks, order, size, k)
    ensures blocks[order[k]].next != 0 ==> blocks[order[k]].next in blocks
    ensures GuardSound(blocks[order[k]].size, size)
    ensures exists order2 :: Tiles(Split(blocks, order[k], size), order2)
  {
    NextListed(blocks, order, k);
    BelowEnd(blocks, order, k);
    SplitKeepsTilingExactly(blocks, order, k, size);
  }

  // ----- Runs -----

  datatype Op = Op(at: word, size: word)

  /** The address reached from `from` after `n` next links; 0 past the end. */
  function Hop(blocks: Blocks, from: word, n: nat): word {
    if n == 0 then from
    else
      var a := Hop(blocks, from, n - 1);
      if a in blocks then blocks[a].next else 0
  }

  /** A split of a block that the list reaches, at a size for which the wrapped guard is sound. */
  ghost predicate Legal(blocks: Blocks, op: Op) {
    && op.at in blocks && GuardSound(blocks[op.at].size, op.size)
    && exists n: nat :: Hop(blocks, HEAP_START, n) == op.at
  }

  ghost predicate RunTo(blocks: Blocks, ops: seq<Op>, end: Blocks)
    decreases |ops|
  {
    if ops == [] then end == blocks
    else
      && Legal(blocks, ops[0])
      && (blocks[ops[0].at].next != 0 ==> blocks[ops[0].at].next in blocks)
      && RunTo(Split(blocks, ops[0].at, ops[0].size), ops[1..], end)
  }

  lemma {:induction false} HopIs(blocks: Blocks, order: seq<word>, n: nat)
    requires Tiles(blocks, order)
    ensures Hop(blocks, HEAP_START, n) == if n < |order| then order[n] else 0
  {
    if 0 < n <= |order| {
      HopIs(blocks, order, n - 1);
      assert TileAt(blocks, order, n - 1);
    } else if n > 0 {
      HopIs(blocks, order, n - 1);
    }
  }

  /** Every run of splits of listed blocks keeps the heap tiled. */
  lemma {:induction false} RunKeepsTiling(blocks: Blocks, order: seq<word>, ops: seq<Op>, end: Blocks)
    requires Tiles(blocks, order) && RunTo(blocks, ops, end)
    ensures exists order2 :: Tiles(end, order2)
    decreases |ops|
  {
    if ops == [] {
      assert Tiles(end, order);
    } else {
      var op := ops[0];
      var n: nat :| Hop(blocks, HEAP_START, n) == op.at;
      HopIs(blocks, order, n);
      BelowEnd(blocks, order, n);
      SplitKeepsTilingExactly(blocks, order, n, op.size);
      var order2 :| Tiles(Split(blocks, op.at, op.size), order2);
      RunKeepsTiling(Split(blocks, op.at, op.size), order2, ops[1..], end);
    }
  }

  /** From the fresh heap, any run of splits leaves headers and payloads adding up to the heap's size. */
  lemma RunFromInit(ops: seq<Op>, end: Blocks)
    requires RunTo(InitialBlocks(), ops, end)
    ensures exists order :: Tiles(end, order) && Bytes(end, order, 0) == HEAP_SIZE
  {
    assert TileAt(InitialBlocks(), [HEAP_START], 0);
    assert Tiles(InitialBlocks(), [HEAP_START]);
    RunKeepsTiling(InitialBlocks(), [HEAP_START], ops, end);
    var order :| Tiles(end, order);
    BytesAddUp(end, order, 0);
  }

  // ----- The heap -----

  class Heap {
    var head: word
    var blocks: Blocks
    var total: word
    var used: word
    var freeBytes: word
    ghost var order: seq<word>

    ghost predicate Valid()
      reads this
    {
      head == HEAP_START && Tiles(blocks, order)
    }

    /** The statics of the heap, zeroed: no header and no list yet. */
    constructor ()
      ensures head == 0 && blocks == map[] && total == used == freeBytes == 0
    {
      head, blocks, total, used, freeBytes, order := 0, map[], 0, 0, 0, [];
    }

    /** `heap_init`: one free block covers the heap. */
    method HeapInit()
      requires 0 !in blocks
      modifies this
      ensures Valid() && order == [HEAP_START]
      ensures blocks == old(blocks)[0x10_0000 := Block(0xDEAD_BEEF_1234_5678, 0x80_0000 - 40, true, 0, 0)]
      ensures total == 0x80_0000 && used == 40 && freeBytes == 0x80_0000 - 40
    {
      head := HEAP_START;
      blocks := blocks[head := Block(MAGIC, HEAP_SIZE - HEADER, true, 0, 0)];
      total := HEAP_SIZE;
      used := HEADER;
      freeBytes := blocks[head].size;
      order := [HEAP_START];
      assert TileAt(blocks, order, 0);
    }

    /** `heap_find_best_fit`: the first of the smallest free blocks that fit, or null exactly when none fits. */
    method FindBestFit(size: word) returns (best: word)
      requires Valid()
      ensures best == 0 <==> forall k: nat :: k < |order| && order[k] in blocks ==> !Fits(blocks[order[k]], size)
      ensures best != 0 ==> exists k: nat :: IsBestFit(blocks, order, size, k) && order[k] == best
      ensures best == 0 ==> forall a :: a in order && a in blocks && blocks[a].isFree ==> blocks[a].size < size
      ensures best != 0 ==>
                && best in order && best in blocks && blocks[best].isFree && blocks[best].size >= size
                && forall a :: a in order && a in blocks && blocks[a].isFree && blocks[a].size >= size ==>
                     blocks[best].size < blocks[a].size || (blocks[best].size == blocks[a].size && best <= a)
    {
      best := 0;
      var cur := head;
      ghost var i: nat := 0;
      ghost var at: nat := 0;
      while cur != 0
        invariant i <= |order| && cur == (if i < |order| then order[i] else 0)
        invariant best == 0 ==> forall k: nat :: k < i && order[k] in blocks ==> !Fits(blocks[order[k]], size)
        invariant best != 0 ==> at < i && order[at] == best && IsBestFit(blocks, order[..i], size, at)
        decreases |order| - i
      {
        assert TileAt(blocks, order, i);
        BelowEnd(blocks, order, i);
        if blocks[cur].isFree && blocks[cur].size >= size {
          if best == 0 || blocks[cur].size < blocks[best].size {
            best := cur;
            at := i;
            assert IsBestFit(blocks, order[..i + 1], size, at);
            if blocks[best].size == size {
              ExactFit(blocks, order, size, at);
              break;
            }
          }
        }
        cur := blocks[cur].next;
        i := i + 1;
      }
      if cur == 0 {
        if i < |order| {
          BelowEnd(blocks, order, i);
          assert false;
        }
        assert order[..i] == order;
      }
      assert best != 0 ==> IsBestFit(blocks, order, size, at);
      if best != 0 {
        BestFitMeans(blocks, order, size, at);
      }
    }

    /**
     `heap_split_block` of a listed block. Afterwards some list tiles the heap exactly when the
     wrapped guard was sound; then the ghost `order` is that list.
     */
    method SplitBlock(block: word, size: word, ghost k: nat)
      requires Valid() && k < |order| && order[k] == block && block in blocks
      modifies this
      ensures head == old(head) && total == old(total) && used == old(used)
      ensures old(blocks[block].next != 0 ==> blocks[block].next in blocks)
      ensures blocks == Split(old(blocks), block, size)
      ensures (exists order2 :: Tiles(blocks, order2)) <==> GuardSound(old(blocks)[block].size, size)
      ensures GuardSound(old(blocks)[block].size, size) ==> Valid()
      ensures TooSmall(old(blocks)[block].size, size) ==> order == old(order) && freeBytes == old(freeBytes)
      ensures !TooSmall(old(blocks)[block].size, size) ==>
                var rest := Wrap(block + HEADER + size);
                && rest in blocks && freeBytes == blocks[rest].size
                && (GuardSound(old(blocks)[block].size, size) ==>
                      && rest == block + HEADER + size && order == SplitOrder(old(order), k, size)
                      && freeBytes == old(blocks)[block].size - size - HEADER)
    {
      hide Tiles, TileAt, SplitOrder, GuardSound;
      NextListed(blocks, order, k);
      SplitKeepsTilingExactly(blocks, order, k, size);
      if blocks[block].size <= Wrap(size + HEADER + 16) {
        return;
      }
      ghost var sound := GuardSound(blocks[block].size, size);
      if sound {
        SoundSplit(blocks, order, k, size);
      }
      var oldSize := blocks[block].size;
      var newBlock := Wrap(block + HEADER + size);
      blocks := blocks[newBlock := Block(MAGIC, Wrap(oldSize - size - HEADER), true, blocks[block].next, block)];
      if blocks[block].next != 0 {
        blocks := blocks[blocks[block].next := blocks[blocks[block].next].(prev := newBlock)];
      }
      blocks := blocks[block := blocks[block].(next := newBlock, size := size)];
      freeBytes := blocks[newBlock].size;
      if sound {
        order := SplitOrder(order, k, size);
      }
    }
  }

  lemma SoundSplit(blocks: Blocks, order: seq<word>, k: nat, size: word)
    requires Tiles(blocks, order) && k < |order| && order[k] in blocks
    requires GuardSound(blocks[order[k]].size, size) && !TooSmall(blocks[order[k]].size, size)
    ensures blocks[order[k]].next != 0 ==> blocks[order[k]].next in blocks
    ensures Wrap(order[k] + HEADER + size) == order[k] + HEADER + size
    ensures Wrap(blocks[order[k]].size - size - HEADER) == blocks[order[k]].size - size - HEADER
    ensures Tiles(Split(blocks, order[k], size), SplitOrder(order, k, size))
  {
    hide Tiles, SplitOrder, Split;
    BelowEnd(blocks, order, k);
    SplitTiles(blocks, order, k, size);
  }

  /** A block of exactly the requested size ends the search early without missing a better one. */
  lemma ExactFit(blocks: Blocks, order: seq<word>, size: word, k: nat)
    requires k < |order| && IsBestFit(blocks, order[..k + 1], size, k)
    requires blocks[order[k]].size == size
    ensures IsBestFit(blocks, order, size, k)
  {
  }
}
