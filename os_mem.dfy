/** The four entry points of osmem.c: os_malloc, os_free, os_calloc and
    os_realloc over one Allocator. Each is specified by a function of the list
    state (MallocStep, FreeStep, ReallocStep); the lemmas at the end say what
    those functions promise. */
module OsMem {
  import opened Blocks
  import opened Layout
  import opened Coalescing
  import opened MyHelpers

  /** What an entry point leaves behind: the new list state, the pointer it
      returns and how many payload bytes it copied from the old pointer. */
  datatype Outcome = Outcome(h: HeapState, p: Ptr, copied: nat)

  /** An in-use block of `s` has its payload at `addr` with room for `n`
      bytes. */
  predicate Serves(s: seq<Block>, addr: int, n: nat) {
    exists k :: 0 <= k < |s| && Payload(s[k]) == addr && s[k].status != Free && s[k].size >= n
  }

  /** The request `size` under threshold `t` does not reach the underflowing
      tail growth of find_best_fit. */
  predicate MallocFits(s: seq<Block>, t: nat, size: nat) {
    size == 0 || AlignUp(size) + META_SIZE > t || TailGrowthFits(Coalesce(s), AlignUp(size))
  }

  /** memset(dst, 0, len) on the payload bytes. */
  function ZeroFill(m: map<int, bv8>, dst: int, len: nat): (r: map<int, bv8>)
    ensures forall q :: dst <= q < dst + len ==> q in r && r[q] == 0
    ensures forall q :: !(dst <= q < dst + len) ==> (q in r <==> q in m)
    ensures forall q :: !(dst <= q < dst + len) && q in m ==> r[q] == m[q]
  {
    if len == 0 then m else ZeroFill(m, dst, len - 1)[dst + len - 1 := 0]
  }

  /** memcpy(dst, src, len) on the payload bytes; a source byte never
      written leaves its destination byte unknown. */
  function CopyBytes(m: map<int, bv8>, dst: int, src: int, len: nat): (r: map<int, bv8>)
    ensures forall q :: dst <= q < dst + len ==> (q in r <==> src + (q - dst) in m)
    ensures forall q :: dst <= q < dst + len && q in r ==> r[q] == m[src + (q - dst)]
    ensures forall q :: !(dst <= q < dst + len) ==> (q in r <==> q in m)
    ensures forall q :: !(dst <= q < dst + len) && q in m ==> r[q] == m[q]
  {
    var kept := set q | q in m && !(dst <= q < dst + len);
    var copied := set j | j in m && src <= j < src + len :: dst + (j - src);
    map q | q in kept + copied :: if dst <= q < dst + len then m[src + (q - dst)] else m[q]
  }

  /** os_malloc(size) with threshold `t`, as a function of the list state:
      a zero request is refused, a request above the threshold is mapped,
      any other is served from the heap after coalescing. */
  ghost function MallocStep(h: HeapState, t: nat, size: nat): Outcome {
    if size == 0 then Outcome(h, Null, 0)
    else if AlignUp(size) + META_SIZE > t then MapStep(h, AlignUp(size))
    else HeapStep(h.(blocks := Coalesce(h.blocks)), AlignUp(size))
  }

  /** A new mapping of `n` payload bytes, appended to the list. */
  function MapStep(h: HeapState, n: nat): Outcome {
    var m := Block(h.mapLow - META_SIZE - n, n, Mapped);
    Outcome(h.(blocks := h.blocks + [m], mapLow := m.addr), At(Payload(m)), 0)
  }

  /** The heap service of `n` bytes from a coalesced list: the best fit split
      to the request, else the free tail grown to it, else a new heap block
      (carved from the preallocation the first time). */
  ghost function HeapStep(h: HeapState, n: nat): Outcome {
    var c := h.blocks;
    if !NoFit(c, n) then
      var k := BestFit(c, n);
      Outcome(h.(blocks := SplitAt(c, k, n)), At(Payload(c[k])), 0)
    else if c != [] && Last(c).status == Free then
      Outcome(h.(blocks := c[..|c| - 1] + [Block(Last(c).addr, n, Alloc)], brk := h.brk + n - Last(c).size),
              At(Payload(Last(c))), 0)
    else if h.pre then
      Outcome(h.(blocks := c + [Block(h.brk, n, Alloc)], brk := h.brk + n + META_SIZE), At(h.brk + META_SIZE), 0)
    else
      Outcome(h.(blocks := c + Split(Block(h.brk, PREALLOC_SIZE - META_SIZE, Free), n),
                 brk := h.brk + PREALLOC_SIZE, pre := true),
              At(h.brk + META_SIZE), 0)
  }

  /** os_free on a tracked payload pointer: a mapped block leaves the list,
      any other block becomes free where it is. */
  function FreeStep(s: seq<Block>, addr: int): seq<Block> {
    match Find(s, addr)
      case None => s
      case Some(k) =>
        if s[k].status == Mapped then s[..k] + s[k + 1..] else s[k := s[k].(status := Free)]
  }

  /** The relocating path of os_realloc: a fresh block for `n` bytes, `len`
      bytes copied over, and the old block freed. */
  ghost function Relocate(h: HeapState, addr: int, n: nat, len: nat): Outcome {
    var m := MallocStep(h, MMAP_THRESHOLD, n);
    Outcome(m.h.(blocks := FreeStep(m.h.blocks, addr)), m.p, len)
  }

  /** os_realloc(ptr, size) in malloc mode, as a function of the list
      state: NULL is os_malloc, size 0 is os_free, an untracked or free
      pointer yields NULL and changes nothing. */
  ghost function ReallocStep(h: HeapState, ptr: Ptr, size: nat): Outcome {
    if ptr == Null then MallocStep(h, MMAP_THRESHOLD, size)
    else if size == 0 then Outcome(h.(blocks := FreeStep(h.blocks, ptr.addr)), Null, 0)
    else
      match Find(h.blocks, ptr.addr)
        case None => Outcome(h, Null, 0)
        case Some(k) =>
          if h.blocks[k].status == Free then Outcome(h, Null, 0)
          else ResizeStep(h, ptr, k, AlignUp(size))
  }

  /** os_realloc on the in-use block `k` for the aligned size `n`: a mapped
      block or a request above the threshold is relocated, copying the
      smaller of the two sizes; an allocated block goes through
      realloc_logic. */
  ghost function ResizeStep(h: HeapState, ptr: Ptr, k: nat, n: nat): Outcome
    requires ptr.At? && k < |h.blocks|
  {
    var b := h.blocks[k];
    if b.status == Mapped || n + META_SIZE > MMAP_THRESHOLD then
      Relocate(h, ptr.addr, n, if n < b.size then n else b.size)
    else ReallocLogicStep(h, ptr, k, n)
  }

  /** realloc_logic and its fallback: shrink in place; otherwise absorb free
      successors and split if that was enough, or grow the tail; else
      relocate the absorbed block, copying its whole payload. */
  ghost function ReallocLogicStep(h: HeapState, ptr: Ptr, k: nat, n: nat): Outcome
    requires ptr.At? && k < |h.blocks|
  {
    if n <= h.blocks[k].size then Outcome(h.(blocks := SplitAt(h.blocks, k, n)), ptr, 0)
    else
      var a := Absorb(h.blocks, k, n);
      if a[k].size >= n then Outcome(h.(blocks := SplitAt(a, k, n)), ptr, 0)
      else if k + 1 == |a| then
        Outcome(h.(blocks := a[..k] + [a[k].(size := n)], brk := h.brk + n - a[k].size), ptr, 0)
      else Relocate(h.(blocks := a), ptr.addr, n, a[k].size)
  }

  /** The size arithmetic on block `k` for the aligned size `n` cannot
      underflow, in realloc_logic or in the os_malloc of a relocation. */
  predicate ResizeFits(s: seq<Block>, k: nat, n: nat)
    requires k < |s|
  {
    if s[k].status == Mapped || n + META_SIZE > MMAP_THRESHOLD then MallocFits(s, MMAP_THRESHOLD, n)
    else
      ReallocGrowthFits(s, k, n)
      && var a := Absorb(s, k, n);
         (n > s[k].size && a[k].size < n && k + 1 < |a| ==> MallocFits(a, MMAP_THRESHOLD, n))
  }

  /** The requests os_realloc can serve without reaching an underflowing
      size subtraction or an untracked os_free. */
  predicate ReallocFits(s: seq<Block>, ptr: Ptr, size: nat) {
    if ptr == Null then MallocFits(s, MMAP_THRESHOLD, size)
    else if size == 0 then Tracked(s, ptr.addr)
    else
      match Find(s, ptr.addr)
        case None => true
        case Some(k) => s[k].status == Free || ResizeFits(s, k, AlignUp(size))
  }

  /** The alignment loop of os_malloc and os_realloc. */
  method AlignSize(size: nat) returns (r: nat)
    ensures Aligned(r) && size <= r < size + ALLOC_BASE
    ensures forall t :: size <= t < r ==> !Aligned(t)
    ensures r == AlignUp(size)
  {
    ghost var target := AlignUp(size);
    r := size;
    while (r + META_SIZE) % ALLOC_BASE != 0
      invariant size <= r <= target
      invariant forall t :: size <= t < r ==> !Aligned(t)
      decreases target - r
    {
      assert !Aligned(r) && r != target;
      r := r + 1;
    }
    AlignUpLeast(size);
    assert Aligned(r) && r == target;
  }

  /** os_malloc. */
  method OsMalloc(a: Allocator, size: nat) returns (p: Ptr)
    requires a.Valid() && Positive(a.blocks) && a.mode != ReallocMethod
    requires MallocFits(a.blocks, a.Threshold(), size)
    modifies a
    ensures a.Valid() && Positive(a.blocks)
    ensures size > 0 ==> p.At?
    ensures a.mode == old(a.mode) && a.bytes == old(a.bytes)
    ensures Outcome(a.State(), p, 0) == MallocStep(old(a.State()), old(a.Threshold()), size)
  {
    if size == 0 {
      return Null;
    }
    ghost var h := a.State();
    var n := AlignSize(size);
    InitIfEmpty(a);
    var threshold := a.Threshold();
    if n + META_SIZE <= threshold {
      assert MallocStep(h, threshold, size) == HeapStep(h.(blocks := Coalesce(h.blocks)), n);
      p := HeapMalloc(a, n);
    } else {
      assert MallocStep(h, threshold, size) == MapStep(h, n);
      p := MapMalloc(a, n);
    }
  }

  /** The first-use check of os_malloc: a list whose payloads add up to
      zero is empty, and mem_list_init resets it to the bare sentinel. */
  method InitIfEmpty(a: Allocator)
    requires Positive(a.blocks)
    modifies a`blocks
    ensures a.blocks == old(a.blocks)
  {
    var total := a.MemListSize();
    if total == 0 {
      SumSizesZero(a.blocks);
      a.MemListInit();
    }
  }

  /** The mapping path of os_malloc: mem_list_add above the threshold. */
  method MapMalloc(a: Allocator, n: nat) returns (p: Ptr)
    requires a.Valid() && Positive(a.blocks) && a.mode != ReallocMethod
    requires 0 < n && n + META_SIZE > a.Threshold()
    modifies a`blocks, a`brk, a`pre, a`mapLow
    ensures a.Valid() && Positive(a.blocks)
    ensures p.At?
    ensures Outcome(a.State(), p, 0) == MapStep(old(a.State()), n)
  {
    var k := a.MemListAdd(n);
    assert a.blocks == old(a.blocks) + a.blocks[k..];
    p := At(a.blocks[k].addr + META_SIZE);
  }

  /** The heap path of os_malloc for an aligned, non-zero size: find_best_fit,
      then mem_list_add when it finds nothing. */
  method HeapMalloc(a: Allocator, n: nat) returns (p: Ptr)
    requires a.Valid() && Positive(a.blocks) && a.mode != ReallocMethod
    requires 0 < n && n + META_SIZE <= a.Threshold()
    requires TailGrowthFits(Coalesce(a.blocks), n)
    modifies a`blocks, a`brk, a`pre, a`mapLow
    ensures a.Valid() && Positive(a.blocks)
    ensures p.At?
    ensures Outcome(a.State(), p, 0) == HeapStep(old(a.State()).(blocks := Coalesce(old(a.blocks))), n)
  {
    ghost var h := a.State().(blocks := Coalesce(a.blocks));
    ghost var c := h.blocks;
    var r := a.FindBestFit(n);
    if r.Some? {
      ReuseOutcome(h, n, r.value, a.blocks, a.brk);
      p := At(a.blocks[r.value].addr + META_SIZE);
    } else {
      p := NewHeapBlock(a, n);
    }
  }

  /** When find_best_fit hands back a block (the best fit split to the
      request, or the free tail grown to it), the heap path of os_malloc
      serves the payload of that block. */
  lemma ReuseOutcome(h: HeapState, n: nat, k: nat, s: seq<Block>, brk: int)
    requires FitOutcome(h.blocks, n, Some(k), s, h.brk, brk)
    ensures k < |s|
    ensures Outcome(h.(blocks := s, brk := brk), At(s[k].addr + META_SIZE), 0) == HeapStep(h, n)
  {
    var c := h.blocks;
    if !NoFit(c, n) {
      assert k == BestFit(c, n);
      assert s[k].addr == c[k].addr;
    } else {
      assert s[k].addr == Last(c).addr;
    }
  }

  /** The mem_list_add fallback of os_malloc on the heap path, reached when
      the coalesced list has no fit and no free tail. */
  method NewHeapBlock(a: Allocator, n: nat) returns (p: Ptr)
    requires a.Valid() && Positive(a.blocks) && a.mode != ReallocMethod
    requires 0 < n && n + META_SIZE <= a.Threshold()
    requires NoFit(a.blocks, n) && (a.blocks == [] || Last(a.blocks).status != Free)
    modifies a`blocks, a`brk, a`pre, a`mapLow
    ensures a.Valid() && Positive(a.blocks)
    ensures p.At?
    ensures Outcome(a.State(), p, 0) == HeapStep(old(a.State()), n)
  {
    ghost var h := a.State();
    var k := a.MemListAdd(n);
    p := At(a.blocks[k].addr + META_SIZE);
    assert a.blocks == h.blocks + a.blocks[k..];
  }

  /** os_free. */
  method OsFree(a: Allocator, ptr: Ptr)
    requires a.Valid() && Positive(a.blocks)
    requires ptr.At? ==> Tracked(a.blocks, ptr.addr)
    modifies a`blocks
    ensures a.Valid() && Positive(a.blocks)
    ensures ptr == Null ==> a.blocks == old(a.blocks)
    ensures ptr.At? ==> a.blocks == FreeStep(old(a.blocks), ptr.addr)
  {
    if ptr == Null {
      return;
    }
    var r := a.FindNode(ptr.addr);
    var k := r.value;
    if a.blocks[k].status == Mapped {
      UnmapBlock(a, k);
    } else {
      a.SetStatus(k, Free);
    }
  }

  /** The munmap branch of os_free: the mapped block at index `k` is
      unlinked, and no other block goes with it. */
  method UnmapBlock(a: Allocator, k: nat)
    requires a.Valid() && Positive(a.blocks)
    requires k < |a.blocks| && a.blocks[k].status == Mapped
    modifies a`blocks
    ensures a.Valid() && Positive(a.blocks)
    ensures a.blocks == old(a.blocks)[..k] + old(a.blocks)[k + 1..]
  {
    forall j | 0 <= j < |a.blocks| && a.blocks[j].addr == a.blocks[k].addr
      ensures a.blocks[j].status == Mapped && j == k
    {
      PayloadsDistinct(a.blocks, a.mapLow, a.heapStart, a.brk, j, k);
    }
    ghost var s := a.blocks;
    a.DeleteNode(a.blocks[k].addr);
    assert a.blocks == s[..k] + s[k + 1..];
    assert forall j :: 0 <= j < |a.blocks| ==> a.blocks[j] == (if j < k then s[j] else s[j + 1]);
  }

  /** os_calloc. */
  method OsCalloc(a: Allocator, nmemb: nat, size: nat) returns (p: Ptr)
    requires a.Valid() && Positive(a.blocks)
    requires nmemb * size <= SIZE_MAX
    requires MallocFits(a.blocks, a.pageSize, nmemb * size)
    modifies a
    ensures a.Valid() && Positive(a.blocks)
    ensures nmemb == 0 || size == 0 ==>
              p == Null && a.State() == old(a.State()) && a.mode == old(a.mode) && a.bytes == old(a.bytes)
    ensures nmemb > 0 && size > 0 ==>
              a.mode == MallocMethod
              && Outcome(a.State(), p, 0) == MallocStep(old(a.State()), a.pageSize, nmemb * size)
              && a.bytes == ZeroFill(old(a.bytes), p.addr, nmemb * size)
  {
    if size == 0 || nmemb == 0 {
      return Null;
    }
    a.mode := CallocMethod;
    p := OsMalloc(a, nmemb * size);
    a.bytes := ZeroFill(a.bytes, p.addr, nmemb * size);
    a.mode := MallocMethod;
  }

  /** os_realloc. */
  method OsRealloc(a: Allocator, ptr: Ptr, size: nat) returns (p: Ptr)
    requires a.Valid() && Positive(a.blocks) && a.mode == MallocMethod
    requires ReallocFits(a.blocks, ptr, size)
    modifies a
    ensures a.Valid() && Positive(a.blocks) && a.mode == MallocMethod
    ensures var o := ReallocStep(old(a.State()), ptr, size);
      a.State() == o.h && p == o.p
      && (o.copied == 0 ==> a.bytes == old(a.bytes))
      && (o.copied > 0 ==> p.At? && ptr.At? && a.bytes == CopyBytes(old(a.bytes), p.addr, ptr.addr, o.copied))
  {
    if ptr == Null {
      p := OsMalloc(a, size);
      return;
    }
    if size == 0 {
      OsFree(a, ptr);
      return Null;
    }
    var n := AlignSize(size);
    var r := a.FindNode(ptr.addr);
    assert r == Find(a.blocks, ptr.addr);
    if r.None? || a.blocks[r.value].status == Free {
      return Null;
    }
    p := ResizeBlock(a, ptr, r.value, n);
  }

  /** os_realloc once the block is found and in use. */
  method ResizeBlock(a: Allocator, ptr: Ptr, k: nat, n: nat) returns (p: Ptr)
    requires a.Valid() && Positive(a.blocks) && a.mode == MallocMethod
    requires ptr.At? && k < |a.blocks| && Payload(a.blocks[k]) == ptr.addr && a.blocks[k].status != Free
    requires 0 < n && ResizeFits(a.blocks, k, n)
    modifies a
    ensures a.Valid() && Positive(a.blocks) && a.mode == MallocMethod
    ensures var o := ResizeStep(old(a.State()), ptr, k, n);
      a.State() == o.h && p == o.p
      && (o.copied == 0 ==> a.bytes == old(a.bytes))
      && (o.copied > 0 ==> p.At? && ptr.At? && a.bytes == CopyBytes(old(a.bytes), p.addr, ptr.addr, o.copied))
  {
    if a.blocks[k].status == Mapped || n + META_SIZE > MMAP_THRESHOLD {
      var len := if n < a.blocks[k].size then n else a.blocks[k].size;
      p := MoveBlock(a, ptr, k, n, len);
    } else {
      p := ReallocBlock(a, ptr, k, n);
    }
  }

  /** The allocated-block path of os_realloc: realloc_logic, and relocation
      when it gives up. */
  method ReallocBlock(a: Allocator, ptr: Ptr, k: nat, n: nat) returns (p: Ptr)
    requires a.Valid() && Positive(a.blocks) && a.mode == MallocMethod
    requires ptr.At? && k < |a.blocks| && Payload(a.blocks[k]) == ptr.addr && a.blocks[k].status == Alloc
    requires 0 < n && n + META_SIZE <= MMAP_THRESHOLD && ResizeFits(a.blocks, k, n)
    modifies a
    ensures a.Valid() && Positive(a.blocks) && a.mode == MallocMethod
    ensures var o := ReallocLogicStep(old(a.State()), ptr, k, n);
      a.State() == o.h && p == o.p
      && (o.copied == 0 ==> a.bytes == old(a.bytes))
      && (o.copied > 0 ==> p.At? && ptr.At? && a.bytes == CopyBytes(old(a.bytes), p.addr, ptr.addr, o.copied))
  {
    ghost var h := a.State();
    var q := ReallocInPlace(a, ptr, k, n);
    if q.None? {
      p := MoveBlock(a, ptr, k, n, a.blocks[k].size);
    } else {
      p := ptr;
    }
  }

  /** realloc_logic on block `k`, called from os_realloc: either it keeps
      the block in place, which is the whole outcome, or it leaves the list
      with the free successors absorbed, ready for relocation. */
  method ReallocInPlace(a: Allocator, ptr: Ptr, k: nat, n: nat) returns (q: Option<nat>)
    requires a.Valid() && Positive(a.blocks) && a.mode == MallocMethod
    requires ptr.At? && k < |a.blocks| && Payload(a.blocks[k]) == ptr.addr && a.blocks[k].status == Alloc
    requires 0 < n && n + META_SIZE <= MMAP_THRESHOLD && ResizeFits(a.blocks, k, n)
    modifies a`blocks, a`brk, a`pre, a`mapLow
    ensures a.Valid() && Positive(a.blocks)
    ensures q.Some? ==> Outcome(a.State(), ptr, 0) == ReallocLogicStep(old(a.State()), ptr, k, n)
    ensures q.None? ==>
      k < |a.blocks| && Payload(a.blocks[k]) == ptr.addr && a.blocks[k].status == Alloc
      && 0 < a.blocks[k].size && MallocFits(a.blocks, MMAP_THRESHOLD, n)
      && ReallocLogicStep(old(a.State()), ptr, k, n) == Relocate(a.State(), ptr.addr, n, a.blocks[k].size)
  {
    ghost var h := a.State();
    ghost var s := a.blocks;
    AbsorbShape(s, k, n);
    q := a.ReallocLogic(k, n);
    if q.None? {
      ghost var b := Absorb(s, k, n);
      assert a.State() == h.(blocks := b);
    } else {
      assert a.blocks[k].addr == s[k].addr;
    }
  }

  /** The relocation of os_realloc: os_malloc, memcpy of `len` bytes, then
      os_free of the old pointer. */
  method MoveBlock(a: Allocator, ptr: Ptr, k: nat, n: nat, len: nat) returns (p: Ptr)
    requires a.Valid() && Positive(a.blocks) && a.mode == MallocMethod
    requires ptr.At? && k < |a.blocks| && Payload(a.blocks[k]) == ptr.addr && a.blocks[k].status != Free
    requires 0 < n && 0 < len
    requires MallocFits(a.blocks, MMAP_THRESHOLD, n)
    modifies a
    ensures a.Valid() && Positive(a.blocks) && a.mode == MallocMethod
    ensures var o := Relocate(old(a.State()), ptr.addr, n, len);
      p.At? && a.State() == o.h && p == o.p && a.bytes == CopyBytes(old(a.bytes), p.addr, ptr.addr, len)
  {
    ghost var h := a.State();
    ghost var m := MallocStep(h, MMAP_THRESHOLD, n);
    MallocKeepsTracked(h, MMAP_THRESHOLD, n, k);
    p := OsMalloc(a, n);
    assert a.blocks == m.h.blocks && p == m.p;
    a.bytes := CopyBytes(a.bytes, p.addr, ptr.addr, len);
    OsFree(a, ptr);
    assert Relocate(h, ptr.addr, n, len) == Outcome(m.h.(blocks := a.blocks), p, len);
  }

  // What the entry points promise, stated on their specifying functions.

  /** os_malloc keeps every in-use block, so a pointer to one of them is
      still tracked afterwards. */
  lemma MallocKeepsTracked(h: HeapState, t: nat, n: nat, k: nat)
    requires 0 < n && k < |h.blocks| && h.blocks[k].status != Free
    ensures Tracked(MallocStep(h, t, n).h.blocks, Payload(h.blocks[k]))
  {
    var s := MallocStep(h, t, n).h.blocks;
    MallocLive(h, t, n);
    LiveHas(h.blocks, k);
    assert h.blocks[k] in multiset(Live(s));
    LiveMember(s, h.blocks[k]);
    var j :| 0 <= j < |s| && s[j] == h.blocks[k];
    assert Payload(s[j]) == Payload(h.blocks[k]);
  }

  /** A non-zero request is served: the returned pointer is the payload of
      an in-use block of at least the aligned size. */
  lemma MallocServes(h: HeapState, t: nat, size: nat)
    requires size > 0 && t <= PREALLOC_SIZE
    ensures var o := MallocStep(h, t, size);
      o.p.At? && Serves(o.h.blocks, o.p.addr, AlignUp(size))
  {
    var n := AlignUp(size);
    if n + META_SIZE > t {
      var o := MapStep(h, n);
      assert o.h.blocks[|h.blocks|].size == n;
    } else {
      HeapServes(h.(blocks := Coalesce(h.blocks)), n);
    }
  }

  lemma HeapServes(h: HeapState, n: nat)
    requires n + META_SIZE <= PREALLOC_SIZE
    ensures var o := HeapStep(h, n);
      o.p.At? && Serves(o.h.blocks, o.p.addr, n)
  {
    var c := h.blocks;
    var o := HeapStep(h, n);
    var s := o.h.blocks;
    if !NoFit(c, n) {
      var k := BestFit(c, n);
      assert s[k] == Split(c[k], n)[0];
    } else if c != [] && Last(c).status == Free {
      assert s[|c| - 1] == Block(Last(c).addr, n, Alloc);
    } else if h.pre {
      assert s[|c|] == Block(h.brk, n, Alloc);
    } else {
      assert s[|c|] == Split(Block(h.brk, PREALLOC_SIZE - META_SIZE, Free), n)[0];
    }
  }

  /** os_malloc adds exactly one in-use block and keeps every in-use block
      it found. */
  lemma MallocLive(h: HeapState, t: nat, size: nat)
    requires size > 0
    ensures var o := MallocStep(h, t, size);
      multiset(Live(h.blocks)) <= multiset(Live(o.h.blocks))
      && |Live(o.h.blocks)| == |Live(h.blocks)| + 1
  {
    var n := AlignUp(size);
    if n + META_SIZE > t {
      var o := MapStep(h, n);
      LiveConcat(h.blocks, [o.h.blocks[|h.blocks|]]);
      LiveOne(o.h.blocks[|h.blocks|]);
    } else {
      CoalesceLive(h.blocks);
      HeapLive(h.(blocks := Coalesce(h.blocks)), n);
    }
  }

  lemma HeapLive(h: HeapState, n: nat)
    ensures var o := HeapStep(h, n);
      multiset(Live(h.blocks)) <= multiset(Live(o.h.blocks))
      && |Live(o.h.blocks)| == |Live(h.blocks)| + 1
  {
    var c := h.blocks;
    var o := HeapStep(h, n);
    var s := o.h.blocks;
    if !NoFit(c, n) {
      var k := BestFit(c, n);
      SplitAtLive(c, k, n);
      assert multiset(Live(s)) == multiset(Live(c)) + multiset{Split(c[k], n)[0]};
    } else if c != [] && Last(c).status == Free {
      ReplaceLastLive(c, Block(Last(c).addr, n, Alloc));
    } else if h.pre {
      LiveConcat(c, [Block(h.brk, n, Alloc)]);
      LiveOne(Block(h.brk, n, Alloc));
    } else {
      LiveConcat(c, Split(Block(h.brk, PREALLOC_SIZE - META_SIZE, Free), n));
      LiveSplit(Block(h.brk, PREALLOC_SIZE - META_SIZE, Free), n);
    }
  }

  /** os_free takes the freed block out of the in-use blocks and leaves every
      other block as it was; freeing a block that is already free changes
      nothing. */
  lemma FreeLive(s: seq<Block>, addr: int)
    requires Tracked(s, addr)
    ensures Find(s, addr).Some?
    ensures var k := Find(s, addr).value;
      (s[k].status != Free ==> multiset(Live(FreeStep(s, addr))) == multiset(Live(s)) - multiset{s[k]})
      && (s[k].status == Free ==> FreeStep(s, addr) == s)
  {
    var k := Find(s, addr).value;
    if s[k].status == Mapped {
      UnlinkLive(s, k);
    } else if s[k].status == Alloc {
      MarkFreeLive(s, k);
    }
  }

  lemma UnlinkLive(s: seq<Block>, k: nat)
    requires k < |s| && s[k].status == Mapped
    ensures multiset(Live(s[..k] + s[k + 1..])) == multiset(Live(s)) - multiset{s[k]}
  {
    var p, q := s[..k], s[k + 1..];
    assert s == p + [s[k]] + q;
    KeepLive(p, s[k], q);
    LiveConcat(p, q);
  }

  lemma MarkFreeLive(s: seq<Block>, k: nat)
    requires k < |s| && s[k].status == Alloc
    ensures multiset(Live(s[k := s[k].(status := Free)])) == multiset(Live(s)) - multiset{s[k]}
  {
    var p, q := s[..k], s[k + 1..];
    assert s == p + [s[k]] + q;
    assert s[k := s[k].(status := Free)] == p + [s[k].(status := Free)] + q;
    KeepLive(p, s[k], q);
    DropFreeLive(p, s[k].(status := Free), q);
  }

  /** When realloc_logic keeps the block (shrinking, absorbing enough, or
      growing the tail), the caller gets its own pointer back and the block,
      still at the same place in the list and still allocated, holds at
      least the request; the blocks before it are untouched. Otherwise the
      relocation copies the absorbed payload, which is smaller than the
      request. */
  lemma ReallocLogicKeeps(h: HeapState, ptr: Ptr, k: nat, n: nat)
    requires ptr.At? && k < |h.blocks| && h.blocks[k].status == Alloc
    ensures var o := ReallocLogicStep(h, ptr, k, n);
      var a := Absorb(h.blocks, k, n);
      (n <= h.blocks[k].size || a[k].size >= n || k + 1 == |a| ==>
         o.p == ptr && o.copied == 0 && k < |o.h.blocks| && o.h.blocks[..k] == h.blocks[..k]
         && o.h.blocks[k].addr == h.blocks[k].addr && o.h.blocks[k].status == Alloc
         && o.h.blocks[k].size >= n)
      && (!(n <= h.blocks[k].size || a[k].size >= n || k + 1 == |a|) ==>
         o.copied < n && o.copied == a[k].size)
  {
    var a := Absorb(h.blocks, k, n);
    AbsorbShape(h.blocks, k, n);
    AbsorbGrowth(h.blocks, k, n);
    var o := ReallocLogicStep(h, ptr, k, n);
    if n <= h.blocks[k].size {
      assert o.h.blocks[k] == Split(h.blocks[k], n)[0];
    } else if a[k].size >= n {
      assert o.h.blocks[k] == Split(a[k], n)[0];
    } else if k + 1 == |a| {
      assert o.h.blocks[k] == a[k].(size := n);
    }
  }

  /** The copy of a relocation never writes past the new block's payload. */
  lemma ResizeCopyFits(h: HeapState, ptr: Ptr, k: nat, n: nat)
    requires ptr.At? && k < |h.blocks| && h.blocks[k].status != Free
    ensures ResizeStep(h, ptr, k, n).copied <= n
  {
    if !(h.blocks[k].status == Mapped || n + META_SIZE > MMAP_THRESHOLD) {
      ReallocLogicKeeps(h, ptr, k, n);
    }
  }
}
