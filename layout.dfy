/** Where the blocks of the list lie in memory. Heap blocks (allocated or
    free) are carved out of the single region that the program break grows,
    and appear in the list in address order, each ending where the next heap
    block begins; mapped blocks come from a separate mapping area and lie
    below the heap, each newer mapping below the older ones. */
module Layout {
  import opened Blocks

  /** The heap blocks of `s`, taken in list order, cover [lo, hi) without
      gap or overlap; mapped blocks are skipped. */
  predicate Tiles(s: seq<Block>, lo: int, hi: int)
    decreases |s|
  {
    if s == [] then lo == hi
    else if s[0].status == Mapped then Tiles(s[1..], lo, hi)
    else s[0].addr == lo && Tiles(s[1..], End(s[0]), hi)
  }

  /** Header plus payload bytes of the heap blocks of `s`. */
  function HeapBytes(s: seq<Block>): nat {
    if s == [] then 0
    else (if s[0].status == Mapped then 0 else META_SIZE + s[0].size) + HeapBytes(s[1..])
  }

  /** The mapped blocks `m` (in list order) lie in [lo, hi), each one below
      every mapped block listed before it. */
  predicate MapsOk(m: seq<Block>, lo: int, hi: int) {
    (forall k :: 0 <= k < |m| ==> lo <= m[k].addr && End(m[k]) <= hi)
    && (forall j, k :: 0 <= j < k < |m| ==> End(m[k]) <= m[j].addr)
  }

  /** Two blocks' byte ranges, header included, do not intersect. */
  predicate Disjoint(a: Block, b: Block) {
    End(a) <= b.addr || End(b) <= a.addr
  }

  lemma {:induction false} HeapBytesConcat(a: seq<Block>, b: seq<Block>)
    ensures HeapBytes(a + b) == HeapBytes(a) + HeapBytes(b)
  {
    if a != [] {
      assert (a + b)[1..] == a[1..] + b;
      HeapBytesConcat(a[1..], b);
    } else {
      assert a + b == b;
    }
  }

  /** A tiling ends exactly HeapBytes past where it starts. */
  lemma {:induction false} TilesSpan(s: seq<Block>, lo: int, hi: int)
    requires Tiles(s, lo, hi)
    ensures hi == lo + HeapBytes(s)
    decreases |s|
  {
    if s != [] {
      if s[0].status == Mapped {
        TilesSpan(s[1..], lo, hi);
      } else {
        TilesSpan(s[1..], End(s[0]), hi);
      }
    }
  }

  /** A tiling of `a + b` is a tiling of `a` followed by a tiling of `b`. */
  lemma {:induction false} TilesConcat(a: seq<Block>, b: seq<Block>, lo: int, hi: int)
    ensures Tiles(a + b, lo, hi) <==>
              Tiles(a, lo, lo + HeapBytes(a)) && Tiles(b, lo + HeapBytes(a), hi)
    decreases |a|
  {
    if a == [] {
      assert a + b == b;
    } else {
      assert (a + b)[0] == a[0];
      assert (a + b)[1..] == a[1..] + b;
      if a[0].status == Mapped {
        TilesConcat(a[1..], b, lo, hi);
      } else {
        TilesConcat(a[1..], b, End(a[0]), hi);
      }
    }
  }

  /** Replacing a run `x` of the list by a run `y` that tiles the same range
      keeps the whole list tiled. */
  lemma ReplaceTiles(p: seq<Block>, x: seq<Block>, y: seq<Block>, q: seq<Block>, lo: int, hi: int)
    requires Tiles(p + x + q, lo, hi)
    requires HeapBytes(y) == HeapBytes(x)
    requires Tiles(x, lo + HeapBytes(p), lo + HeapBytes(p) + HeapBytes(x)) ==>
               Tiles(y, lo + HeapBytes(p), lo + HeapBytes(p) + HeapBytes(x))
    ensures Tiles(p + y + q, lo, hi)
  {
    var m := lo + HeapBytes(p);
    TilesConcat(p + x, q, lo, hi);
    TilesConcat(p, x, lo, lo + HeapBytes(p + x));
    HeapBytesConcat(p, x);
    HeapBytesConcat(p, y);
    TilesConcat(p, y, lo, m + HeapBytes(y));
    TilesConcat(p + y, q, lo, hi);
  }

  /** A heap block tiles its own range, and so does what splitting it
      leaves. */
  lemma SplitChainTiles(b: Block, size: nat)
    requires b.status != Mapped
    ensures Tiles([b], b.addr, End(b))
    ensures Tiles(Split(b, size), b.addr, End(b))
    ensures MappedSeq(Split(b, size)) == []
  {
    assert [b][1..] == [];
    var r := Split(b, size);
    if |r| == 2 {
      assert r[1..][1..] == [];
    } else {
      assert r[1..] == [];
    }
    MappedOfHeap(r);
  }

  /** Linking a run of heap blocks that tiles [mid, hi) after a list that
      tiles up to mid tiles up to hi. */
  lemma AppendHeapChain(s: seq<Block>, chain: seq<Block>, lo: int, mid: int, hi: int)
    requires Tiles(s, lo, mid) && Tiles(chain, mid, hi) && MappedSeq(chain) == []
    ensures Tiles(s + chain, lo, hi) && MappedSeq(s + chain) == MappedSeq(s)
  {
    TilesSpan(s, lo, mid);
    TilesConcat(s, chain, lo, hi);
    MappedConcat(s, chain);
    assert MappedSeq(s) + [] == MappedSeq(s);
  }

  /** Linking a fresh mapping placed just below the mapping area leaves the
      heap tiling alone and keeps the mappings ordered and apart. */
  lemma AppendMappedBlock(s: seq<Block>, m: Block, lo: int, hi: int, mapLow: int)
    requires Tiles(s, lo, hi) && MapsOk(MappedSeq(s), mapLow, lo)
    requires m.status == Mapped && End(m) == mapLow && mapLow <= lo
    ensures Tiles(s + [m], lo, hi) && MapsOk(MappedSeq(s + [m]), m.addr, lo)
  {
    MappedIrrelevantToTiles(s, m, [], lo, hi);
    assert s + [m] + [] == s + [m] && s + [] == s;
    MappedConcat(s, [m]);
    assert MappedSeq([m]) == [m] by { assert [m][1..] == []; }
    MapsOkAppend(MappedSeq(s), m, mapLow, lo);
  }

  /** Appending or removing a mapped block leaves the heap tiling alone. */
  lemma MappedIrrelevantToTiles(p: seq<Block>, b: Block, q: seq<Block>, lo: int, hi: int)
    requires b.status == Mapped
    ensures Tiles(p + [b] + q, lo, hi) <==> Tiles(p + q, lo, hi)
  {
    assert HeapBytes([b]) == 0;
    assert Tiles([b], lo + HeapBytes(p), lo + HeapBytes(p)) by { assert [b][1..] == []; }
    TilesConcat(p + [b], q, lo, hi);
    TilesConcat(p, [b], lo, lo + HeapBytes(p + [b]));
    HeapBytesConcat(p, [b]);
    TilesConcat(p, q, lo, hi);
  }

  /** Splitting a heap block keeps the list tiled. */
  lemma SplitTiles(s: seq<Block>, i: nat, size: nat, lo: int, hi: int)
    requires i < |s| && s[i].status != Mapped && Tiles(s, lo, hi)
    ensures Tiles(SplitAt(s, i, size), lo, hi)
  {
    var x, y := [s[i]], Split(s[i], size);
    assert s == s[..i] + x + s[i + 1..];
    var m := lo + HeapBytes(s[..i]);
    assert HeapBytes(x) == META_SIZE + s[i].size by { assert x[1..] == []; }
    if |y| == 1 {
      assert HeapBytes(y) == HeapBytes(x) by { assert y[1..] == []; }
      if Tiles(x, m, m + HeapBytes(x)) {
        assert y[1..] == [] && x[1..] == [];
      }
    } else {
      assert y[1..][1..] == [];
      assert HeapBytes(y) == HeapBytes(x);
    }
    ReplaceTiles(s[..i], x, y, s[i + 1..], lo, hi);
  }

  /** Merging two list-adjacent heap blocks keeps the list tiled. */
  lemma MergeTiles(s: seq<Block>, i: nat, lo: int, hi: int)
    requires i + 1 < |s| && s[i].status != Mapped && s[i + 1].status != Mapped
    requires Tiles(s, lo, hi)
    ensures Tiles(MergeAt(s, i), lo, hi)
  {
    var x, y := [s[i], s[i + 1]], [Merge(s[i], s[i + 1])];
    assert s == s[..i] + x + s[i + 2..];
    assert x[1..] == [s[i + 1]] && x[1..][1..] == [] && y[1..] == [];
    ReplaceTiles(s[..i], x, y, s[i + 2..], lo, hi);
  }

  /** Changing the status of a heap block between free and allocated keeps
      the list tiled. */
  lemma StatusTiles(s: seq<Block>, i: nat, st: Status, lo: int, hi: int)
    requires i < |s| && s[i].status != Mapped && st != Mapped && Tiles(s, lo, hi)
    ensures Tiles(s[i := s[i].(status := st)], lo, hi)
  {
    var x, y := [s[i]], [s[i].(status := st)];
    assert s == s[..i] + x + s[i + 1..];
    assert s[i := s[i].(status := st)] == s[..i] + y + s[i + 1..];
    assert x[1..] == [] && y[1..] == [];
    ReplaceTiles(s[..i], x, y, s[i + 1..], lo, hi);
  }

  /** Inside a tiling every heap block lies within [lo, hi), and a heap block
      listed earlier lies wholly below one listed later. */
  lemma {:induction false} TilesOrdered(s: seq<Block>, lo: int, hi: int, i: nat, j: nat)
    requires Tiles(s, lo, hi) && i < j < |s|
    requires s[i].status != Mapped && s[j].status != Mapped
    ensures lo <= s[i].addr && End(s[i]) <= s[j].addr && End(s[j]) <= hi
    decreases |s|
  {
    if s[0].status == Mapped {
      TilesOrdered(s[1..], lo, hi, i - 1, j - 1);
    } else if i == 0 {
      TilesWithin(s[1..], End(s[0]), hi, j - 1);
    } else {
      TilesOrdered(s[1..], End(s[0]), hi, i - 1, j - 1);
    }
  }

  /** Every heap block of a tiling lies within [lo, hi). */
  lemma {:induction false} TilesWithin(s: seq<Block>, lo: int, hi: int, i: nat)
    requires Tiles(s, lo, hi) && i < |s| && s[i].status != Mapped
    ensures lo <= s[i].addr && End(s[i]) <= hi
    decreases |s|
  {
    if s[0].status == Mapped {
      TilesWithin(s[1..], lo, hi, i - 1);
    } else if i == 0 {
      TilesSpan(s[1..], End(s[0]), hi);
    } else {
      TilesWithin(s[1..], End(s[0]), hi, i - 1);
      assert lo <= End(s[0]);
    }
  }

  /** The list invariant is what makes merging list neighbours merging
      address neighbours: two heap blocks next to each other in the list are
      next to each other in memory, and their merge covers exactly both. */
  lemma {:induction false} NeighboursAdjacent(s: seq<Block>, lo: int, hi: int, i: nat)
    requires Tiles(s, lo, hi) && i + 1 < |s|
    requires s[i].status != Mapped && s[i + 1].status != Mapped
    ensures End(s[i]) == s[i + 1].addr
    ensures Merge(s[i], s[i + 1]).addr == s[i].addr && End(Merge(s[i], s[i + 1])) == End(s[i + 1])
    decreases |s|
  {
    if i == 0 {
      assert s[0].status != Mapped;
      assert s[1..][0] == s[1];
    } else if s[0].status == Mapped {
      NeighboursAdjacent(s[1..], lo, hi, i - 1);
    } else {
      NeighboursAdjacent(s[1..], End(s[0]), hi, i - 1);
    }
  }

  /** Filtering keeps every mapped block: block `i` of `s` is block
      `|MappedSeq(s[..i])|` of MappedSeq(s). */
  lemma MappedIndex(s: seq<Block>, i: nat)
    requires i < |s| && s[i].status == Mapped
    ensures |MappedSeq(s[..i])| < |MappedSeq(s)|
    ensures MappedSeq(s)[|MappedSeq(s[..i])|] == s[i]
  {
    assert s == s[..i] + [s[i]] + s[i + 1..];
    MappedConcat(s[..i] + [s[i]], s[i + 1..]);
    MappedConcat(s[..i], [s[i]]);
    assert MappedSeq([s[i]]) == [s[i]] by { assert [s[i]][1..] == []; }
  }

  /** Of two mapped blocks, the one listed first keeps the smaller index in
      MappedSeq. */
  lemma MappedIndexMonotone(s: seq<Block>, i: nat, j: nat)
    requires i < j < |s| && s[i].status == Mapped
    ensures |MappedSeq(s[..i])| < |MappedSeq(s[..j])|
  {
    assert s[..j] == s[..i] + [s[i]] + s[i + 1..j];
    MappedConcat(s[..i] + [s[i]], s[i + 1..j]);
    MappedConcat(s[..i], [s[i]]);
    assert MappedSeq([s[i]]) == [s[i]] by { assert [s[i]][1..] == []; }
  }

  /** No two blocks of the list overlap: heap blocks tile the heap, mapped
      blocks lie in the mapping area below it and apart from each other. */
  lemma NoOverlap(s: seq<Block>, mapLow: int, heapStart: int, brk: int, i: nat, j: nat)
    requires Tiles(s, heapStart, brk) && MapsOk(MappedSeq(s), mapLow, heapStart)
    requires i < j < |s|
    ensures Disjoint(s[i], s[j])
  {
    var m := MappedSeq(s);
    if s[i].status != Mapped && s[j].status != Mapped {
      TilesOrdered(s, heapStart, brk, i, j);
    } else if s[i].status == Mapped && s[j].status == Mapped {
      MappedIndex(s, i);
      MappedIndex(s, j);
      MappedIndexMonotone(s, i, j);
      assert End(m[|MappedSeq(s[..j])|]) <= m[|MappedSeq(s[..i])|].addr;
    } else if s[i].status == Mapped {
      MappedIndex(s, i);
      assert End(m[|MappedSeq(s[..i])|]) <= heapStart;
      TilesWithin(s, heapStart, brk, j);
    } else {
      MappedIndex(s, j);
      assert End(m[|MappedSeq(s[..j])|]) <= heapStart;
      TilesWithin(s, heapStart, brk, i);
    }
  }

  /** Distinct blocks of the list have distinct payload addresses, so a
      payload pointer names at most one block. */
  lemma PayloadsDistinct(s: seq<Block>, mapLow: int, heapStart: int, brk: int, i: nat, j: nat)
    requires Tiles(s, heapStart, brk) && MapsOk(MappedSeq(s), mapLow, heapStart)
    requires i < |s| && j < |s| && Payload(s[i]) == Payload(s[j])
    ensures i == j
  {
    if i < j {
      NoOverlap(s, mapLow, heapStart, brk, i, j);
    } else if j < i {
      NoOverlap(s, mapLow, heapStart, brk, j, i);
    }
  }

  /** A fresh mapping placed just below the mapping area's low end keeps the
      mapped blocks ordered and apart. */
  lemma MapsOkAppend(m: seq<Block>, b: Block, lo: int, hi: int)
    requires MapsOk(m, lo, hi) && End(b) == lo && lo <= hi
    ensures MapsOk(m + [b], b.addr, hi)
  {
  }

  /** Unmapping one mapped block keeps the rest ordered and apart. */
  lemma MapsOkRemove(p: seq<Block>, b: Block, q: seq<Block>, lo: int, hi: int)
    requires MapsOk(p + [b] + q, lo, hi)
    ensures MapsOk(p + q, lo, hi)
  {
    var m, r := p + [b] + q, p + q;
    assert forall k :: 0 <= k < |r| ==> r[k] == m[if k < |p| then k else k + 1];
  }

  /** A heap block has no mapped blocks. */
  lemma MappedOfHeap(s: seq<Block>)
    requires forall k :: 0 <= k < |s| ==> s[k].status != Mapped
    ensures MappedSeq(s) == []
  {
    if s != [] {
      MappedOfHeap(s[1..]);
    }
  }

  /** A heap block exists only if the heap is non-empty. */
  lemma HeapBlockNonEmpty(s: seq<Block>, lo: int, hi: int, i: nat)
    requires Tiles(s, lo, hi) && i < |s| && s[i].status != Mapped
    ensures lo < hi
  {
    TilesWithin(s, lo, hi, i);
  }
}
