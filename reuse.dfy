/** What the entry points promise about reuse: os_malloc never hands out a
    block that is still in use, freeing a fresh allocation and asking again
    for the same size gives the same block back, and os_realloc repeated
    with the same heap size on the pointer it returned changes nothing. */
module Reuse {
  import opened Blocks
  import opened Layout
  import opened Coalescing
  import opened MyHelpers
  import opened OsMem

  /** The layout half of Allocator.Valid on a state value: heap blocks tile
      [heapStart, brk) and mappings lie apart between mapLow and heapStart. */
  ghost predicate LaidOut(h: HeapState, heapStart: int) {
    h.mapLow <= heapStart <= h.brk
    && Tiles(h.blocks, heapStart, h.brk)
    && MapsOk(MappedSeq(h.blocks), h.mapLow, heapStart)
  }

  /** An allocated block that block_split for `n` bytes leaves as it is. */
  predicate Snug(b: Block, n: nat) {
    b.status == Alloc && n <= b.size < n + META_SIZE + SPLIT_SLACK
  }

  /** Where the heap service of `n` bytes places its block: the best fit,
      else the free tail, else a new block at the end. */
  ghost function Placed(h: HeapState, n: nat): nat {
    var c := h.blocks;
    if !NoFit(c, n) then BestFit(c, n)
    else if c != [] && Last(c).status == Free then |c| - 1
    else |c|
  }

  /** Every block lies between the mapping area's low end and the break. */
  lemma BlockBounds(h: HeapState, heapStart: int, j: nat)
    requires LaidOut(h, heapStart) && j < |h.blocks|
    ensures h.mapLow <= h.blocks[j].addr && End(h.blocks[j]) <= h.brk
  {
    var s := h.blocks;
    if s[j].status == Mapped {
      MappedIndex(s, j);
      var i := |MappedSeq(s[..j])|;
      assert MappedSeq(s)[i] == s[j];
    } else {
      TilesWithin(s, heapStart, h.brk, j);
    }
  }

  /** Two different blocks have different payload pointers. */
  lemma PayloadsDiffer(s: seq<Block>, mapLow: int, heapStart: int, brk: int, i: nat, j: nat)
    requires Tiles(s, heapStart, brk) && MapsOk(MappedSeq(s), mapLow, heapStart)
    requires i < |s| && j < |s| && i != j
    ensures Payload(s[i]) != Payload(s[j])
  {
    if i < j {
      NoOverlap(s, mapLow, heapStart, brk, i, j);
    } else {
      NoOverlap(s, mapLow, heapStart, brk, j, i);
    }
  }

  /** find_node stops at the first block whose payload is `addr`. */
  lemma FindIs(s: seq<Block>, addr: int, k: nat)
    requires k < |s| && Payload(s[k]) == addr
    requires forall j :: 0 <= j < k ==> Payload(s[j]) != addr
    ensures Find(s, addr) == Some(k)
  {
    var r := Find(s, addr);
    assert r.Some?;
    assert !(r.value < k) && !(k < r.value);
  }

  /** The layout survives the coalescing pass. */
  lemma CoalesceLaidOut(h: HeapState, heapStart: int)
    requires LaidOut(h, heapStart)
    ensures LaidOut(h.(blocks := Coalesce(h.blocks)), heapStart)
  {
    CoalesceTiles(h.blocks, heapStart, h.brk);
    CoalesceMapped(h.blocks);
  }

  /** os_malloc never returns the payload of a block that is still in use:
      the heap service picks a free block or a new one past the break, and
      a new mapping lies below every existing one. */
  lemma MallocFresh(h: HeapState, t: nat, size: nat, heapStart: int, k: nat)
    requires size > 0 && LaidOut(h, heapStart)
    requires k < |h.blocks| && h.blocks[k].status != Free
    ensures MallocStep(h, t, size).p != At(Payload(h.blocks[k]))
  {
    var b := h.blocks[k];
    var n := AlignUp(size);
    BlockBounds(h, heapStart, k);
    if n + META_SIZE <= t {
      var c := Coalesce(h.blocks);
      CoalesceLaidOut(h, heapStart);
      LiveHas(h.blocks, k);
      CoalesceLive(h.blocks);
      LiveMember(c, b);
      var j :| 0 <= j < |c| && c[j] == b;
      if !NoFit(c, n) {
        var f := BestFit(c, n);
        PayloadsDiffer(c, h.mapLow, heapStart, h.brk, j, f);
      } else if c != [] && Last(c).status == Free {
        PayloadsDiffer(c, h.mapLow, heapStart, h.brk, j, |c| - 1);
      }
    }
  }

  /** The heap service of `n` bytes returns the payload of the block it
      placed, find_node finds that block there, and it is allocated and
      snug: a second block_split for `n` bytes would leave it alone. */
  lemma HeapFound(h: HeapState, n: nat, heapStart: int)
    requires LaidOut(h, heapStart) && n + META_SIZE <= PREALLOC_SIZE
    ensures var o := HeapStep(h, n);
      o.p.At? && Find(o.h.blocks, o.p.addr) == Some(Placed(h, n))
      && Snug(o.h.blocks[Placed(h, n)], n)
  {
    var c := h.blocks;
    var o := HeapStep(h, n);
    var s := o.h.blocks;
    var k := Placed(h, n);
    if !NoFit(c, n) {
      assert s[k] == Split(c[k], n)[0];
      forall j | 0 <= j < k ensures Payload(s[j]) != Payload(c[k]) {
        assert s[j] == c[j];
        PayloadsDiffer(c, h.mapLow, heapStart, h.brk, j, k);
      }
      FindIs(s, Payload(c[k]), k);
    } else if c != [] && Last(c).status == Free {
      assert s[k] == Block(Last(c).addr, n, Alloc);
      forall j | 0 <= j < k ensures Payload(s[j]) != Payload(c[k]) {
        assert s[j] == c[j];
        PayloadsDiffer(c, h.mapLow, heapStart, h.brk, j, k);
      }
      FindIs(s, Payload(c[k]), k);
    } else {
      assert s[k].addr == h.brk;
      forall j | 0 <= j < k ensures Payload(s[j]) != h.brk + META_SIZE {
        assert s[j] == c[j];
        BlockBounds(h, heapStart, j);
      }
      FindIs(s, h.brk + META_SIZE, k);
    }
  }

  /** A split block with its first part freed again. */
  function FreedSplit(b: Block, n: nat): seq<Block> {
    var r := Split(b, n);
    [r[0].(status := Free)] + r[1..]
  }

  /** Freeing the first part of a split free block and coalescing gives
      back what coalescing the unsplit block gives. */
  lemma FreedSplitCoalesce(p: seq<Block>, b: Block, n: nat, q: seq<Block>)
    requires b.status == Free && (p == [] || Last(p).status != Free)
    ensures Coalesce(p + FreedSplit(b, n) + q) == Coalesce(p + [b] + q)
  {
    var r := Split(b, n);
    var f := FreedSplit(b, n);
    assert p + f + q == p + (f + q);
    assert p + [b] + q == p + ([b] + q);
    CoalesceConcat(p, f + q);
    CoalesceConcat(p, [b] + q);
    if |r| == 2 {
      var s := f + q;
      assert s[0] == r[0].(status := Free) && s[1] == r[1];
      assert Merge(s[0], s[1]) == b;
      assert [b] + s[2..] == [b] + q;
    } else {
      assert r[0] == b.(status := Alloc);
      assert f == [b];
    }
  }

  /** A list where block `k` is the only one that fits has `k` as its best fit. */
  lemma OnlyFit(s: seq<Block>, k: nat, n: nat)
    requires k < |s| && Fits(s[k], n)
    requires forall j :: 0 <= j < |s| && j != k ==> !Fits(s[j], n)
    ensures !NoFit(s, n) && BestFit(s, n) == k
  {
    assert IsBestFit(s, k, n);
  }

  /** Freeing block `k` of a split list leaves the split block with its
      first part freed. */
  lemma FreedSplitAt(c: seq<Block>, k: nat, n: nat)
    requires k < |c|
    ensures var s1 := SplitAt(c, k, n);
      k < |s1| && s1[k := s1[k].(status := Free)] == c[..k] + FreedSplit(c[k], n) + c[k + 1..]
  {
    var r := Split(c[k], n);
    var s1 := SplitAt(c, k, n);
    var f := FreedSplit(c[k], n);
    assert s1 == c[..k] + (r + c[k + 1..]);
    assert |f| == |r|;
    var s2 := s1[k := s1[k].(status := Free)];
    forall j | 0 <= j < |s2| ensures s2[j] == (c[..k] + f + c[k + 1..])[j] {
      if j < k {
      } else if j < k + |r| {
        assert s2[j] == (if j == k then r[0].(status := Free) else r[j - k]);
      } else {
        assert s2[j] == c[j - |r| + 1];
      }
    }
  }

  /** In a coalesced list, the best-fit block split and freed again
      coalesces back to the list itself. */
  lemma RefreeFit(c: seq<Block>, k: nat, n: nat)
    requires Separated(c) && Coalesce(c) == c && k < |c| && c[k].status == Free
    ensures Coalesce(c[..k] + FreedSplit(c[k], n) + c[k + 1..]) == c
  {
    assert c == c[..k] + [c[k]] + c[k + 1..];
    if k > 0 {
      assert Last(c[..k]) == c[k - 1];
    }
    FreedSplitCoalesce(c[..k], c[k], n, c[k + 1..]);
  }

  /** Round trip through a best fit: freeing the split-off block and
      coalescing restores the list, so the same request picks it again. */
  lemma RefitBest(h: HeapState, n: nat)
    requires Separated(h.blocks) && Coalesce(h.blocks) == h.blocks && !NoFit(h.blocks, n)
    ensures var m := HeapStep(h, n);
      var k := BestFit(h.blocks, n);
      k < |m.h.blocks|
      && HeapStep(m.h.(blocks := Coalesce(m.h.blocks[k := m.h.blocks[k].(status := Free)])), n) == m
  {
    var c := h.blocks;
    var k := BestFit(c, n);
    var m := HeapStep(h, n);
    assert m.h == h.(blocks := SplitAt(c, k, n));
    FreedSplitAt(c, k, n);
    RefreeFit(c, k, n);
  }

  /** A free block of exactly `n` bytes appended to a list where nothing
      fits is the best fit, and block_split hands it out whole. */
  lemma RefitLast(p: seq<Block>, x: Block, n: nat)
    requires x.status == Free && x.size == n && NoFit(p, n)
    ensures !NoFit(p + [x], n) && BestFit(p + [x], n) == |p|
    ensures SplitAt(p + [x], |p|, n) == p + [x.(status := Alloc)]
  {
    var t := p + [x];
    forall j | 0 <= j < |t| && j != |p| ensures !Fits(t[j], n) {
      assert t[j] == p[j];
    }
    OnlyFit(t, |p|, n);
    var r := Split(x, n);
    assert r[0] == x.(status := Alloc);
    assert t[..|p|] == p;
  }

  /** In a separated list ending in a free block, that block replaced by
      another free block coalesces to itself. */
  lemma RefreeTail(c: seq<Block>, x: Block)
    requires Separated(c) && c != [] && Last(c).status == Free && x.status == Free
    ensures Coalesce(c[..|c| - 1] + [x]) == c[..|c| - 1] + [x]
  {
    var p := c[..|c| - 1];
    assert Separated(p);
    CoalesceSeparatedFixed(p);
    if p != [] {
      assert Last(p) == c[|c| - 2];
    }
    CoalesceConcat(p, [x]);
  }

  /** Round trip through the grown tail: the freed tail is the only block
      that fits and is already of the requested size. */
  lemma RefitTail(h: HeapState, n: nat)
    requires Separated(h.blocks) && NoFit(h.blocks, n)
    requires h.blocks != [] && Last(h.blocks).status == Free
    ensures var m := HeapStep(h, n);
      var k := |h.blocks| - 1;
      k < |m.h.blocks|
      && HeapStep(m.h.(blocks := Coalesce(m.h.blocks[k := m.h.blocks[k].(status := Free)])), n) == m
  {
    var c := h.blocks;
    var k := |c| - 1;
    var p := c[..k];
    var x := Block(Last(c).addr, n, Free);
    var m := HeapStep(h, n);
    assert m.h.blocks == p + [x.(status := Alloc)];
    assert m.h.blocks[k := x] == p + [x];
    RefreeTail(c, x);
    assert NoFit(p, n);
    RefitLast(p, x, n);
  }

  /** Round trip through a new block at the break: freed, it is the only
      block that fits and is already of the requested size. */
  lemma RefitNew(h: HeapState, n: nat)
    requires Coalesce(h.blocks) == h.blocks && NoFit(h.blocks, n) && h.pre
    requires h.blocks == [] || Last(h.blocks).status != Free
    ensures var m := HeapStep(h, n);
      var k := |h.blocks|;
      k < |m.h.blocks|
      && HeapStep(m.h.(blocks := Coalesce(m.h.blocks[k := m.h.blocks[k].(status := Free)])), n) == m
  {
    var c := h.blocks;
    var x := Block(h.brk, n, Free);
    var m := HeapStep(h, n);
    assert m.h.blocks == c + [x.(status := Alloc)];
    assert m.h.blocks[|c| := x] == c + [x];
    CoalesceConcat(c, [x]);
    RefitLast(c, x, n);
  }

  /** Round trip through the preallocation: the freed parts merge back into
      the whole preallocated block, which is then the only one that fits. */
  lemma RefitPrealloc(h: HeapState, n: nat)
    requires Coalesce(h.blocks) == h.blocks && NoFit(h.blocks, n) && !h.pre
    requires h.blocks == [] || Last(h.blocks).status != Free
    requires n + META_SIZE <= PREALLOC_SIZE
    ensures var m := HeapStep(h, n);
      var k := |h.blocks|;
      k < |m.h.blocks|
      && HeapStep(m.h.(blocks := Coalesce(m.h.blocks[k := m.h.blocks[k].(status := Free)])), n) == m
  {
    var c := h.blocks;
    var k := |c|;
    var m := HeapStep(h, n);
    var s1 := m.h.blocks;
    var b := Block(h.brk, PREALLOC_SIZE - META_SIZE, Free);
    var s2 := s1[k := s1[k].(status := Free)];
    assert s2 == c + FreedSplit(b, n) + [];
    FreedSplitCoalesce(c, b, n, []);
    assert c + [b] + [] == c + [b];
    CoalesceConcat(c, [b]);
    var t := c + [b];
    forall j | 0 <= j < |t| && j != k ensures !Fits(t[j], n) {
      assert t[j] == c[j];
    }
    OnlyFit(t, k, n);
    assert SplitAt(t, k, n) == s1;
  }

  /** os_malloc, then os_free of the pointer it returned, then the same
      os_malloc again: a heap-sized request gets the same pointer back and
      leaves the block list, the break and the preallocation flag exactly as
      the first call left them. */
  lemma MallocFreeMalloc(h: HeapState, t: nat, size: nat, heapStart: int)
    requires size > 0 && AlignUp(size) + META_SIZE <= t <= PREALLOC_SIZE
    requires LaidOut(h, heapStart)
    ensures var m := MallocStep(h, t, size);
      m.p.At? && MallocStep(m.h.(blocks := FreeStep(m.h.blocks, m.p.addr)), t, size) == m
  {
    var n := AlignUp(size);
    var hc := h.(blocks := Coalesce(h.blocks));
    var c := hc.blocks;
    CoalesceLaidOut(h, heapStart);
    CoalesceIdempotent(h.blocks);
    CoalesceSeparated(h.blocks);
    HeapFound(hc, n, heapStart);
    var m := HeapStep(hc, n);
    var k := Placed(hc, n);
    var s1 := m.h.blocks;
    assert FreeStep(s1, m.p.addr) == s1[k := s1[k].(status := Free)];
    if !NoFit(c, n) {
      RefitBest(hc, n);
    } else if c != [] && Last(c).status == Free {
      RefitTail(hc, n);
    } else if hc.pre {
      RefitNew(hc, n);
    } else {
      RefitPrealloc(hc, n);
    }
  }

  /** os_free of one pointer leaves find_node's answer for any other
      pointer on the same block, though a removed mapping may shift it. */
  lemma FreeKeepsFind(s: seq<Block>, q: int, p: int, k: nat)
    requires Find(s, p) == Some(k) && p != q
    ensures var f := FreeStep(s, q);
      Find(f, p).Some? && f[Find(f, p).value] == s[k]
  {
    var f := FreeStep(s, q);
    match Find(s, q)
    case None =>
    case Some(i) =>
      if s[i].status == Mapped {
        if i < k {
          forall j | 0 <= j < k - 1 ensures Payload(f[j]) != p {
            if j < i {
              assert f[j] == s[j];
            } else {
              assert f[j] == s[j + 1];
            }
          }
          assert f[k - 1] == s[k];
          FindIs(f, p, k - 1);
        } else {
          forall j | 0 <= j < k ensures Payload(f[j]) != p {
            assert f[j] == s[j];
          }
          assert f[k] == s[k];
          FindIs(f, p, k);
        }
      } else {
        forall j | 0 <= j < k ensures Payload(f[j]) != p {
          assert Payload(f[j]) == Payload(s[j]);
        }
        FindIs(f, p, k);
      }
  }

  /** block_split for a size the block can hold keeps the block where
      find_node finds it and leaves it snug. */
  lemma SplitFound(s: seq<Block>, k: nat, n: nat, addr: int)
    requires Find(s, addr) == Some(k) && s[k].status == Alloc && n <= s[k].size
    ensures Find(SplitAt(s, k, n), addr) == Some(k) && Snug(SplitAt(s, k, n)[k], n)
  {
    var t := SplitAt(s, k, n);
    assert t[k] == Split(s[k], n)[0];
    forall j | 0 <= j < k ensures Payload(t[j]) != addr {
      assert t[j] == s[j];
    }
    FindIs(t, addr, k);
  }

  /** The relocating path of os_realloc for a heap size: the new pointer is
      not the old one, so freeing the old block leaves the new one found
      and snug. */
  lemma RelocateFound(h: HeapState, addr: int, n: nat, len: nat, heapStart: int, k: nat)
    requires LaidOut(h, heapStart) && n > 0 && Aligned(n) && n + META_SIZE <= MMAP_THRESHOLD
    requires k < |h.blocks| && h.blocks[k].status != Free && Payload(h.blocks[k]) == addr
    ensures var o := Relocate(h, addr, n, len);
      o.p.At? && Find(o.h.blocks, o.p.addr).Some? && Snug(o.h.blocks[Find(o.h.blocks, o.p.addr).value], n)
  {
    assert AlignUp(n) == n;
    var hc := h.(blocks := Coalesce(h.blocks));
    CoalesceLaidOut(h, heapStart);
    HeapFound(hc, n, heapStart);
    var m := MallocStep(h, MMAP_THRESHOLD, n);
    assert m == HeapStep(hc, n);
    MallocFresh(h, MMAP_THRESHOLD, n, heapStart, k);
    FreeKeepsFind(m.h.blocks, addr, m.p.addr, Placed(hc, n));
  }

  /** Absorbing free successors into block `k` leaves it where find_node
      finds it, with its status. */
  lemma AbsorbKeepsFind(s: seq<Block>, k: nat, n: nat, addr: int)
    requires Find(s, addr) == Some(k)
    ensures Find(Absorb(s, k, n), addr) == Some(k) && Absorb(s, k, n)[k].status == s[k].status
  {
    var a := Absorb(s, k, n);
    AbsorbShape(s, k, n);
    forall j | 0 <= j < k ensures Payload(a[j]) != addr {
      assert a[j] == s[j];
    }
    FindIs(a, addr, k);
  }

  /** realloc_logic growing allocated block `k` through absorption: the
      block it leaves (in place or relocated) is found and snug. */
  lemma AbsorbFound(h: HeapState, ptr: Ptr, k: nat, n: nat, heapStart: int)
    requires LaidOut(h, heapStart) && n > 0 && Aligned(n) && n + META_SIZE <= MMAP_THRESHOLD
    requires ptr.At? && Find(h.blocks, ptr.addr) == Some(k) && h.blocks[k].status == Alloc
    requires h.blocks[k].size < n
    ensures var o := ReallocLogicStep(h, ptr, k, n);
      o.p.At? && Find(o.h.blocks, o.p.addr).Some?
      && Snug(o.h.blocks[Find(o.h.blocks, o.p.addr).value], n)
  {
    var s := h.blocks;
    var a := Absorb(s, k, n);
    AbsorbKeepsFind(s, k, n, ptr.addr);
    if a[k].size >= n {
      SplitFound(a, k, n, ptr.addr);
    } else if k + 1 == |a| {
      var t := a[..k] + [a[k].(size := n)];
      forall j | 0 <= j < k ensures Payload(t[j]) != ptr.addr {
        assert t[j] == a[j];
      }
      FindIs(t, ptr.addr, k);
    } else {
      AbsorbTiles(s, k, n, heapStart, h.brk);
      RelocateFound(h.(blocks := a), ptr.addr, n, a[k].size, heapStart, k);
    }
  }

  /** os_realloc of an in-use block to a heap size returns a pointer whose
      block find_node finds, allocated and snug for that size. */
  lemma ReallocFound(h: HeapState, ptr: Ptr, size: nat, heapStart: int)
    requires LaidOut(h, heapStart) && size > 0 && AlignUp(size) + META_SIZE <= MMAP_THRESHOLD
    requires ptr.At? && Find(h.blocks, ptr.addr).Some?
    requires h.blocks[Find(h.blocks, ptr.addr).value].status != Free
    ensures var o := ReallocStep(h, ptr, size);
      o.p.At? && Find(o.h.blocks, o.p.addr).Some?
      && Snug(o.h.blocks[Find(o.h.blocks, o.p.addr).value], AlignUp(size))
  {
    var s := h.blocks;
    var k := Find(s, ptr.addr).value;
    var n := AlignUp(size);
    if s[k].status == Mapped {
      RelocateFound(h, ptr.addr, n, if n < s[k].size then n else s[k].size, heapStart, k);
    } else if n <= s[k].size {
      SplitFound(s, k, n, ptr.addr);
    } else {
      AbsorbFound(h, ptr, k, n, heapStart);
    }
  }

  /** os_realloc on a found, allocated, snug block for its own aligned size
      changes nothing and returns the same pointer. */
  lemma SnugRealloc(h: HeapState, p: Ptr, size: nat, j: nat)
    requires p.At? && size > 0 && AlignUp(size) + META_SIZE <= MMAP_THRESHOLD
    requires Find(h.blocks, p.addr) == Some(j) && j < |h.blocks| && Snug(h.blocks[j], AlignUp(size))
    ensures ReallocStep(h, p, size) == Outcome(h, p, 0)
  {
    var b := h.blocks[j];
    var r := Split(b, AlignUp(size));
    assert r[0] == b;
    assert SplitAt(h.blocks, j, AlignUp(size)) == h.blocks;
  }

  /** os_realloc to a heap size, repeated on the pointer it returned with
      the same size, returns that pointer again and changes nothing: the
      block it left is already of the aligned size. */
  lemma ReallocTwice(h: HeapState, ptr: Ptr, size: nat, heapStart: int)
    requires LaidOut(h, heapStart) && size > 0 && AlignUp(size) + META_SIZE <= MMAP_THRESHOLD
    requires ptr.At? && Find(h.blocks, ptr.addr).Some?
    requires h.blocks[Find(h.blocks, ptr.addr).value].status != Free
    ensures var o := ReallocStep(h, ptr, size);
      o.p.At? && ReallocStep(o.h, o.p, size) == Outcome(o.h, o.p, 0)
  {
    ReallocFound(h, ptr, size, heapStart);
    var o := ReallocStep(h, ptr, size);
    SnugRealloc(o.h, o.p, size, Find(o.h.blocks, o.p.addr).value);
  }

  /** os_realloc of a mapped block, or to a size above the threshold,
      always moves the data: the pointer returned is a different one, even
      when the size does not change. */
  lemma ReallocMoves(h: HeapState, ptr: Ptr, size: nat, heapStart: int)
    requires LaidOut(h, heapStart) && size > 0
    requires ptr.At? && Find(h.blocks, ptr.addr).Some?
    requires h.blocks[Find(h.blocks, ptr.addr).value].status != Free
    requires h.blocks[Find(h.blocks, ptr.addr).value].status == Mapped
             || AlignUp(size) + META_SIZE > MMAP_THRESHOLD
    ensures var o := ReallocStep(h, ptr, size);
      o.p.At? && o.p != ptr
  {
    var k := Find(h.blocks, ptr.addr).value;
    var n := AlignUp(size);
    MallocServes(h, MMAP_THRESHOLD, n);
    MallocFresh(h, MMAP_THRESHOLD, n, heapStart, k);
  }
}
