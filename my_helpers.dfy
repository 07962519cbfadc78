/** The list engine of myhelpers.c: the process-wide block list, the
    preallocation flag and the threshold mode, held by one Allocator object
    whose methods update them in place. */
module MyHelpers {
  import opened Blocks
  import opened Layout
  import opened Coalescing

  /** realloc_logic's tail-growth step subtracts block `i`'s payload (after
      absorption) and one header from the request; this says that when the
      step is taken the subtraction cannot go below zero. */
  predicate ReallocGrowthFits(s: seq<Block>, i: nat, size: nat)
    requires i < |s|
  {
    var a := Absorb(s, i, size);
    size <= s[i].size || a[i].size >= size || i + 1 < |a| || a[i].size + META_SIZE <= size
  }

  /** The list, the program break, the preallocation flag and the low end
      of the mapping area, taken together as one value. */
  datatype HeapState = HeapState(blocks: seq<Block>, brk: int, pre: bool, mapLow: int)

  /** What mem_list_add links at the tail, in each of the three cases of
      mem_list_alloc, keeps the list invariant and positive payloads. */
  lemma AppendChain(s: seq<Block>, chain: seq<Block>, size: nat, onHeap: bool, pre: bool,
                    lo: int, brk0: int, brk: int, low0: int, low: int)
    requires Tiles(s, lo, brk0) && MapsOk(MappedSeq(s), low0, lo) && low0 <= lo <= brk0
    requires onHeap && !pre ==>
      chain == Split(Block(brk0, PREALLOC_SIZE - META_SIZE, Free), size)
      && brk == brk0 + PREALLOC_SIZE && low == low0
    requires onHeap && pre ==>
      chain == [Block(brk0, size, Alloc)] && brk == brk0 + size + META_SIZE && low == low0
    requires !onHeap ==>
      chain == [Block(low0 - META_SIZE - size, size, Mapped)] && brk == brk0 && low == low0 - META_SIZE - size
    ensures Tiles(s + chain, lo, brk) && MapsOk(MappedSeq(s + chain), low, lo)
    ensures Positive(s) && size > 0 ==> Positive(s + chain)
  {
    if !onHeap {
      AppendMappedBlock(s, chain[0], lo, brk, low0);
      SplitPositive(chain[0], 0);
    } else if !pre {
      SplitChainTiles(Block(brk0, PREALLOC_SIZE - META_SIZE, Free), size);
      AppendHeapChain(s, chain, lo, brk0, brk);
      SplitPositive(Block(brk0, PREALLOC_SIZE - META_SIZE, Free), size);
    } else {
      SplitChainTiles(chain[0], 0);
      MappedOfHeap(chain);
      AppendHeapChain(s, chain, lo, brk0, brk);
      SplitPositive(chain[0], 0);
    }
    PositiveConcat(s, chain);
  }

  /** The outcomes of the search part of find_best_fit on a list `c` that
      is already coalesced, with `s` and `brk` the list and break it leaves.
      Nothing is found exactly when no block fits and the tail is not free,
      and then nothing changes. Otherwise the result is the best fit, split
      to the request, or, with no fit, the free tail, grown to exactly the
      request (the break grows by the shortfall). */
  ghost predicate FitOutcome(c: seq<Block>, size: nat, r: Option<nat>, s: seq<Block>, brk0: int, brk: int) {
    match r
    case None =>
      NoFit(c, size) && (c == [] || Last(c).status != Free) && s == c && brk == brk0
    case Some(k) =>
      if !NoFit(c, size) then
        IsBestFit(c, k, size) && s == SplitAt(c, k, size) && brk == brk0
      else
        c != [] && Last(c).status == Free && k == |c| - 1
        && s == c[..k] + [Block(Last(c).addr, size, Alloc)] && brk == brk0 + size - Last(c).size
  }

  class Allocator {
    /** The blocks linked after the sentinel head, in list order. */
    var blocks: seq<Block>
    /** The program break; the heap is [heapStart, brk). */
    var brk: int
    /** Set once the one-time preallocation has been made. */
    var pre: bool
    /** The global `method` that selects the threshold. */
    var mode: Method
    /** Mappings are placed just below this address, which then moves down. */
    var mapLow: int
    /** Payload bytes as written by memset and memcpy. */
    ghost var bytes: map<int, bv8>
    /** The program break when the process started. */
    const heapStart: int
    /** The system page size. */
    const pageSize: nat

    /** The list invariant: heap blocks tile [heapStart, brk) in list order,
        mapped blocks lie apart from each other below the heap, and the heap
        stays empty until the preallocation. */
    ghost predicate Valid()
      reads this
    {
      0 < pageSize <= PREALLOC_SIZE
      && mapLow <= heapStart <= brk
      && Tiles(blocks, heapStart, brk)
      && MapsOk(MappedSeq(blocks), mapLow, heapStart)
      && (!pre ==> brk == heapStart)
    }

    function State(): HeapState
      reads this
    {
      HeapState(blocks, brk, pre, mapLow)
    }

    /** The state at process start: empty list, nothing preallocated, malloc
        mode. */
    constructor (heapStart: int, pageSize: nat)
      requires 0 < pageSize <= PREALLOC_SIZE
      ensures Valid()
      ensures this.heapStart == heapStart && this.pageSize == pageSize
      ensures blocks == [] && brk == heapStart && mapLow == heapStart
      ensures !pre && mode == MallocMethod && bytes == map[]
    {
      this.heapStart := heapStart;
      this.pageSize := pageSize;
      blocks := [];
      brk := heapStart;
      mapLow := heapStart;
      pre := false;
      mode := MallocMethod;
      bytes := map[];
    }

    /** The payload limit (header included) for heap service. */
    function Threshold(): (t: nat)
      reads this
      requires mode != ReallocMethod
      ensures mode == MallocMethod ==> t == MMAP_THRESHOLD
      ensures mode == CallocMethod ==> t == pageSize
    {
      if mode == MallocMethod then MMAP_THRESHOLD else pageSize
    }

    /** mem_list_init: the sentinel's successor is reset. */
    method MemListInit()
      modifies this`blocks
      ensures blocks == []
    {
      blocks := [];
    }

    /** prealloc: extends the heap by PREALLOC_SIZE and writes one free block
        over the new space. The block is not yet linked into the list. */
    method Prealloc() returns (b: Block)
      modifies this`brk
      ensures b == Block(old(brk), PREALLOC_SIZE - META_SIZE, Free)
      ensures brk == old(brk) + PREALLOC_SIZE && End(b) == brk
    {
      b := Block(brk, PREALLOC_SIZE - META_SIZE, Free);
      brk := brk + PREALLOC_SIZE;
    }

    /** block_split on the block at position `i`. */
    method BlockSplit(i: nat, size: nat)
      requires Valid() && i < |blocks| && blocks[i].status != Mapped
      modifies this`blocks
      ensures Valid() && blocks == SplitAt(old(blocks), i, size)
    {
      SplitTiles(blocks, i, size, heapStart, brk);
      SplitMapped(blocks, i, size);
      blocks := SplitAt(blocks, i, size);
    }

    /** mem_list_alloc: obtains the memory for a request and returns the new
        block together with whatever it links to (the free remainder of the
        preallocation). Nothing is linked into the list yet. */
    method MemListAlloc(size: nat) returns (chain: seq<Block>)
      requires Valid() && mode != ReallocMethod
      modifies this`brk, this`pre, this`mapLow
      ensures size + META_SIZE <= Threshold() && !old(pre) ==>
                chain == Split(Block(old(brk), PREALLOC_SIZE - META_SIZE, Free), size)
                && brk == old(brk) + PREALLOC_SIZE && mapLow == old(mapLow)
      ensures size + META_SIZE <= Threshold() && old(pre) ==>
                chain == [Block(old(brk), size, Alloc)]
                && brk == old(brk) + size + META_SIZE && mapLow == old(mapLow)
      ensures size + META_SIZE > Threshold() ==>
                chain == [Block(old(mapLow) - META_SIZE - size, size, Mapped)]
                && brk == old(brk) && mapLow == old(mapLow) - META_SIZE - size
      ensures pre == (old(pre) || size + META_SIZE <= Threshold())
    {
      var threshold := Threshold();
      if size + META_SIZE <= threshold {
        if !pre {
          var b := Prealloc();
          pre := true;
          chain := Split(b, size);
          return;
        }
        chain := [Block(brk, size, Alloc)];
        brk := brk + size + META_SIZE;
        return;
      }
      mapLow := mapLow - META_SIZE - size;
      chain := [Block(mapLow, size, Mapped)];
    }

    /** mem_list_add: obtains a block through mem_list_alloc and links it
        (with its remainder, if any) at the tail of the list. Returns the
        position of the new block; no existing block changes. */
    method MemListAdd(size: nat) returns (k: nat)
      requires Valid() && mode != ReallocMethod
      modifies this`blocks, this`brk, this`pre, this`mapLow
      ensures Valid()
      ensures k == |old(blocks)| < |blocks|
      ensures size + META_SIZE <= Threshold() && !old(pre) ==>
                blocks == old(blocks) + Split(Block(old(brk), PREALLOC_SIZE - META_SIZE, Free), size)
                && brk == old(brk) + PREALLOC_SIZE && mapLow == old(mapLow)
      ensures size + META_SIZE <= Threshold() && old(pre) ==>
                blocks == old(blocks) + [Block(old(brk), size, Alloc)]
                && brk == old(brk) + size + META_SIZE && mapLow == old(mapLow)
      ensures size + META_SIZE > Threshold() ==>
                blocks == old(blocks) + [Block(old(mapLow) - META_SIZE - size, size, Mapped)]
                && brk == old(brk) && mapLow == old(mapLow) - META_SIZE - size
      ensures pre == (old(pre) || size + META_SIZE <= Threshold())
      ensures Positive(old(blocks)) && size > 0 ==> Positive(blocks)
    {
      ghost var s0, brk0, low0, pre0 := blocks, brk, mapLow, pre;
      ghost var onHeap := size + META_SIZE <= Threshold();
      var chain := MemListAlloc(size);
      AppendChain(s0, chain, size, onHeap, pre0, heapStart, brk0, brk, low0, mapLow);
      k := LinkAtTail(chain);
    }

    /** The second half of mem_list_add: the walk from the sentinel head to
        the last block, and the link of `chain` after it. */
    method LinkAtTail(chain: seq<Block>) returns (k: nat)
      modifies this`blocks
      ensures k == |old(blocks)| && blocks == old(blocks) + chain
      ensures Positive(old(blocks)) && Positive(chain) ==> Positive(blocks)
    {
      k := 0;
      while k < |blocks|
        invariant k <= |blocks|
      {
        k := k + 1;
      }
      PositiveConcat(blocks, chain);
      blocks := blocks + chain;
    }

    /** block_coalesce on the block at position `i`: it absorbs its
        successor; every other block and the order are untouched. */
    method BlockCoalesce(i: nat)
      requires Valid() && i + 1 < |blocks|
      requires blocks[i].status != Mapped && blocks[i + 1].status != Mapped
      modifies this`blocks
      ensures Valid() && blocks == MergeAt(old(blocks), i)
    {
      MergeTiles(blocks, i, heapStart, brk);
      MergeMapped(blocks, i);
      blocks := MergeAt(blocks, i);
    }

    /** mem_list_coalesce_free started at block `start` (0 stands for the
        sentinel head, which is never free): merges every run of adjacent
        free blocks from there on. */
    method CoalesceFree(start: nat)
      requires Valid() && start <= |blocks|
      modifies this`blocks
      ensures Valid() && blocks == old(blocks)[..start] + Coalesce(old(blocks)[start..])
    {
      ghost var target := old(blocks)[..start] + Coalesce(old(blocks)[start..]);
      var i := start;
      while i + 1 < |blocks|
        invariant Valid() && start <= i <= |blocks|
        invariant target == blocks[..i] + Coalesce(blocks[i..])
        decreases |blocks| - i
      {
        ghost var s := blocks;
        ghost var p, u := s[..i], s[i..];
        if blocks[i].status == Free && blocks[i + 1].status == Free {
          BlockCoalesce(i);
          assert blocks[..i] == p && blocks[i..] == [Merge(u[0], u[1])] + u[2..];
        } else {
          assert u[1..] == s[i + 1..];
          i := i + 1;
          assert blocks[..i] == p + [u[0]];
        }
      }
      assert blocks[..i] + blocks[i..] == blocks;
    }

    /** The scan of find_best_fit: the smallest free block that fits, the
        first of them on a tie, or None when no free block is large enough. */
    method ScanBestFit(size: nat) returns (best: Option<nat>)
      ensures best.Some? ==> IsBestFit(blocks, best.value, size)
      ensures best.None? ==> NoFit(blocks, size)
    {
      best := None;
      var i := 0;
      while i < |blocks|
        invariant i <= |blocks|
        invariant best.Some? ==> IsBestFit(blocks[..i], best.value, size)
        invariant best.None? ==> NoFit(blocks[..i], size)
      {
        var b := blocks[i];
        if b.status == Free && b.size >= size {
          if best.None? || b.size < blocks[best.value].size {
            best := Some(i);
          }
        }
        i := i + 1;
      }
      assert blocks[..i] == blocks;
    }

    /** find_best_fit: coalesces, then hands out the best fit split to the
        request; with no fit but a free tail, grows the heap by the tail's
        shortfall and hands out the tail at exactly the request. */
    method FindBestFit(size: nat) returns (r: Option<nat>)
      requires Valid() && mode != ReallocMethod && size + META_SIZE <= Threshold()
      requires TailGrowthFits(Coalesce(blocks), size)
      modifies this`blocks, this`brk, this`pre, this`mapLow
      ensures Valid() && pre == old(pre) && mapLow == old(mapLow)
      ensures FitOutcome(Coalesce(old(blocks)), size, r, blocks, old(brk), brk)
      ensures Positive(old(blocks)) && size > 0 ==> Positive(blocks)
    {
      CoalesceAll();
      r := PickBestFit(size);
    }

    /** The coalescing pass of find_best_fit over the whole list. */
    method CoalesceAll()
      requires Valid()
      modifies this`blocks
      ensures Valid() && blocks == Coalesce(old(blocks))
      ensures Positive(old(blocks)) ==> Positive(blocks)
    {
      if Positive(blocks) {
        CoalescePositive(blocks);
      }
      CoalesceFree(0);
      assert old(blocks)[..0] == [] && old(blocks)[0..] == old(blocks);
      assert [] + Coalesce(old(blocks)) == Coalesce(old(blocks));
    }

    /** The part of find_best_fit after coalescing, on the list as it then
        stands. */
    method PickBestFit(size: nat) returns (r: Option<nat>)
      requires Valid() && mode != ReallocMethod && size + META_SIZE <= Threshold()
      requires TailGrowthFits(blocks, size)
      modifies this`blocks, this`brk, this`pre, this`mapLow
      ensures Valid() && pre == old(pre) && mapLow == old(mapLow)
      ensures FitOutcome(old(blocks), size, r, blocks, old(brk), brk)
      ensures Positive(old(blocks)) && size > 0 ==> Positive(blocks)
    {
      r := ScanBestFit(size);
      if r.Some? {
        if Positive(blocks) && size > 0 {
          SplitAtPositive(blocks, r.value, size);
        }
        BlockSplit(r.value, size);
      } else if |blocks| > 0 && blocks[|blocks| - 1].status == Free {
        r := ExpandTail(size);
      }
    }

    /** The no-fit branch of find_best_fit: the heap grows by the free tail's
        shortfall, the new space is merged into the tail, and the tail is
        handed out at exactly the request. */
    method ExpandTail(size: nat) returns (r: Option<nat>)
      requires Valid() && mode != ReallocMethod && size + META_SIZE <= Threshold()
      requires blocks != [] && Last(blocks).status == Free
      requires Last(blocks).size + META_SIZE <= size
      modifies this`blocks, this`brk, this`pre, this`mapLow
      ensures Valid() && pre == old(pre) && mapLow == old(mapLow)
      ensures r == Some(|old(blocks)| - 1)
      ensures blocks == old(blocks)[..|old(blocks)| - 1] + [Block(Last(old(blocks)).addr, size, Alloc)]
      ensures brk == old(brk) + size - Last(old(blocks)).size
      ensures Positive(old(blocks)) ==> Positive(blocks)
    {
      var t := |blocks| - 1;
      GrowFreeTail(size - blocks[t].size - META_SIZE);
      SetStatus(t, Alloc);
      r := Some(t);
    }

    /** The first half of find_best_fit's tail growth: a new heap block of
        `n` bytes is linked after the free tail, marked free and merged into
        it. */
    method GrowFreeTail(n: nat)
      requires Valid() && mode != ReallocMethod && n + META_SIZE <= Threshold()
      requires blocks != [] && Last(blocks).status == Free
      modifies this`blocks, this`brk, this`pre, this`mapLow
      ensures Valid() && pre == old(pre) && mapLow == old(mapLow)
      ensures blocks == old(blocks)[..|old(blocks)| - 1]
                        + [Merge(Last(old(blocks)), Block(old(brk), n, Free))]
      ensures brk == old(brk) + n + META_SIZE
    {
      ghost var c := blocks;
      var t := |blocks| - 1;
      HeapBlockNonEmpty(blocks, heapStart, brk, t);
      assert pre;
      ghost var brk0 := brk;
      var k := MemListAdd(n);
      assert blocks == c + [Block(brk0, n, Alloc)];
      SetStatus(k, Free);
      assert blocks[t..] == [c[t], Block(brk0, n, Free)];
      CoalesceFree(t);
      CoalescePair(c[t], Block(brk0, n, Free));
    }

    /** Writes a new status into the header of heap block `i`. */
    method SetStatus(i: nat, st: Status)
      requires Valid() && i < |blocks| && blocks[i].status != Mapped && st != Mapped
      modifies this`blocks
      ensures Valid() && blocks == old(blocks)[i := old(blocks)[i].(status := st)]
      ensures Positive(old(blocks)) ==> Positive(blocks)
    {
      StatusTiles(blocks, i, st, heapStart, brk);
      StatusMapped(blocks, i, st);
      blocks := blocks[i := blocks[i].(status := st)];
    }

    /** mem_list_size: the payload sizes of all blocks after the head. */
    method MemListSize() returns (total: nat)
      ensures total == SumSizes(blocks)
    {
      total := 0;
      var i := 0;
      while i < |blocks|
        invariant i <= |blocks| && total == SumSizes(blocks[..i])
      {
        SumSizesConcat(blocks[..i], [blocks[i]]);
        assert blocks[..i + 1] == blocks[..i] + [blocks[i]];
        assert SumSizes([blocks[i]]) == blocks[i].size by { assert [blocks[i]][1..] == []; }
        total := total + blocks[i].size;
        i := i + 1;
      }
      assert blocks[..i] == blocks;
    }

    /** find_node: the first block whose payload starts at `ptr`. */
    method FindNode(ptr: int) returns (r: Option<nat>)
      ensures r == Find(blocks, ptr)
    {
      var i := 0;
      while i < |blocks|
        invariant i <= |blocks|
        invariant forall j :: 0 <= j < i ==> Payload(blocks[j]) != ptr
      {
        if blocks[i].addr + META_SIZE == ptr {
          return Some(i);
        }
        i := i + 1;
      }
      return None;
    }

    /** delete_node: unlinks the first block whose header is at `addr`
        (always a mapped block) and returns its mapping. */
    method DeleteNode(addr: int)
      requires Valid()
      requires forall k :: 0 <= k < |blocks| && blocks[k].addr == addr ==> blocks[k].status == Mapped
      modifies this`blocks
      ensures Valid()
      ensures forall k ::
                (0 <= k < |old(blocks)| && old(blocks)[k].addr == addr
                 && forall j :: 0 <= j < k ==> old(blocks)[j].addr != addr) ==>
                  blocks == old(blocks)[..k] + old(blocks)[k + 1..]
      ensures (forall k :: 0 <= k < |old(blocks)| ==> old(blocks)[k].addr != addr) ==> blocks == old(blocks)
    {
      var i := 0;
      while i < |blocks|
        invariant i <= |blocks| && blocks == old(blocks)
        invariant forall j :: 0 <= j < i ==> blocks[j].addr != addr
      {
        if blocks[i].addr == addr {
          assert blocks == blocks[..i] + [blocks[i]] + blocks[i + 1..];
          MappedIrrelevantToTiles(blocks[..i], blocks[i], blocks[i + 1..], heapStart, brk);
          MappedConcat(blocks[..i] + [blocks[i]], blocks[i + 1..]);
          MappedConcat(blocks[..i], [blocks[i]]);
          MappedConcat(blocks[..i], blocks[i + 1..]);
          assert MappedSeq([blocks[i]]) == [blocks[i]] by { assert [blocks[i]][1..] == []; }
          MapsOkRemove(MappedSeq(blocks[..i]), blocks[i], MappedSeq(blocks[i + 1..]), mapLow, heapStart);
          blocks := blocks[..i] + blocks[i + 1..];
          return;
        }
        i := i + 1;
      }
    }

    /** realloc_logic on the allocated heap block at position `i`: shrink in
        place, or absorb free successors while still too small, or grow the
        heap when the block is the tail; None asks the caller to relocate. */
    method ReallocLogic(i: nat, size: nat) returns (r: Option<nat>)
      requires Valid() && i < |blocks| && blocks[i].status == Alloc
      requires mode != ReallocMethod && size + META_SIZE <= Threshold()
      requires ReallocGrowthFits(blocks, i, size)
      modifies this`blocks, this`brk, this`pre, this`mapLow
      ensures Valid() && pre == old(pre) && mapLow == old(mapLow)
      ensures size <= old(blocks[i].size) ==>
                r == Some(i) && blocks == SplitAt(old(blocks), i, size) && brk == old(brk)
      ensures var a := Absorb(old(blocks), i, size);
        size > old(blocks[i].size) && a[i].size >= size ==>
          r == Some(i) && blocks == SplitAt(a, i, size) && brk == old(brk)
      ensures var a := Absorb(old(blocks), i, size);
        size > old(blocks[i].size) && a[i].size < size && i + 1 == |a| ==>
          r == Some(i) && blocks == a[..i] + [a[i].(size := size)]
          && brk == old(brk) + size - a[i].size
      ensures var a := Absorb(old(blocks), i, size);
        size > old(blocks[i].size) && a[i].size < size && i + 1 < |a| ==>
          r == None && blocks == a && brk == old(brk)
      ensures Positive(old(blocks)) && size > 0 ==> Positive(blocks)
    {
      if size <= blocks[i].size {
        if Positive(blocks) && size > 0 {
          SplitAtPositive(blocks, i, size);
        }
        BlockSplit(i, size);
        return Some(i);
      }
      AbsorbFree(i, size);
      if blocks[i].size >= size {
        if Positive(blocks) && size > 0 {
          SplitAtPositive(blocks, i, size);
        }
        BlockSplit(i, size);
        return Some(i);
      }
      if i + 1 == |blocks| {
        ExtendTail(i, size);
        return Some(i);
      }
      return None;
    }

    /** The absorption loop of realloc_logic: block `i` merges with its free
        successors while it is still smaller than `size`. */
    method AbsorbFree(i: nat, size: nat)
      requires Valid() && i < |blocks| && blocks[i].status == Alloc
      modifies this`blocks
      ensures Valid() && blocks == Absorb(old(blocks), i, size)
      ensures i < |blocks| && blocks[i].status == Alloc
      ensures Positive(old(blocks)) ==> Positive(blocks)
    {
      ghost var a := Absorb(blocks, i, size);
      AbsorbShape(blocks, i, size);
      while i + 1 < |blocks| && blocks[i + 1].status == Free && blocks[i].size < size
        invariant Valid() && i < |blocks| && blocks[i].status == Alloc
        invariant Absorb(blocks, i, size) == a
        invariant Positive(old(blocks)) ==> Positive(blocks)
        decreases |blocks|
      {
        BlockCoalesce(i);
      }
    }

    /** The tail-growth step of realloc_logic: the heap grows by the
        shortfall of the tail block `i`, which absorbs the new space and
        ends at exactly `size` bytes, still allocated. */
    method ExtendTail(i: nat, size: nat)
      requires Valid() && mode != ReallocMethod && size + META_SIZE <= Threshold()
      requires i + 1 == |blocks| && blocks[i].status == Alloc
      requires blocks[i].size + META_SIZE <= size
      modifies this`blocks, this`brk, this`pre, this`mapLow
      ensures Valid() && pre == old(pre) && mapLow == old(mapLow)
      ensures blocks == old(blocks)[..i] + [old(blocks)[i].(size := size)]
      ensures brk == old(brk) + size - old(blocks)[i].size
      ensures Positive(old(blocks)) ==> Positive(blocks)
    {
      ghost var s := blocks;
      HeapBlockNonEmpty(blocks, heapStart, brk, i);
      var k := MemListAdd(size - blocks[i].size - META_SIZE);
      BlockCoalesce(i);
      assert blocks[i].size == size;
      SetStatus(i, Alloc);
      assert blocks == s[..i] + [s[i].(size := size)];
    }
  }
}
