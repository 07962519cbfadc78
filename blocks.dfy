/** Block descriptors and the pure arithmetic of the allocator: the constants
    of myhelpers.h, one list entry, splitting, merging, the best-fit choice
    and size alignment. */
module Blocks {

  /** Largest request (header included) served from the heap by malloc. */
  const MMAP_THRESHOLD: nat := 128 * 1024
  /** Size of the one-time first heap extension. */
  const PREALLOC_SIZE: nat := 128 * 1024
  /** Every request plus its header is rounded up to a multiple of this. */
  const ALLOC_BASE: nat := 8
  /** A split remainder must exceed one header by at least this much. */
  const SPLIT_SLACK: nat := 8
  /** Largest value of a 64-bit size_t. */
  const SIZE_MAX: nat := 0xFFFF_FFFF_FFFF_FFFF

  /** sizeof(struct block_meta): positive and smaller than the preallocation;
      its exact value is left open. */
  type HeaderSize = m: nat | 0 < m < PREALLOC_SIZE witness 24
  const META_SIZE: HeaderSize

  /** STATUS_FREE, STATUS_ALLOC and STATUS_MAPPED; the sentinel's STATUS_HEAD
      is not a block of the sequence and so not a status here. */
  datatype Status = Free | Alloc | Mapped

  /** The global `method` that selects the heap/mapping threshold. */
  datatype Method = MallocMethod | CallocMethod | ReallocMethod

  datatype Option<T> = None | Some(value: T)

  /** A user pointer: NULL or a byte address. */
  datatype Ptr = Null | At(addr: int)

  /** One list entry: the header's address, the payload size after the
      header, and the status. The `next` link is the position in the list. */
  datatype Block = Block(addr: int, size: nat, status: Status)

  /** First address past the block's payload. */
  function End(b: Block): int {
    b.addr + META_SIZE + b.size
  }

  /** The pointer handed to the user for this block. */
  function Payload(b: Block): int {
    b.addr + META_SIZE
  }

  /** Header plus payload bytes of every block of `s`. */
  function Footprint(s: seq<Block>): nat {
    if s == [] then 0 else META_SIZE + s[0].size + Footprint(s[1..])
  }

  /** Payload bytes of every block of `s` (what mem_list_size adds up). */
  function SumSizes(s: seq<Block>): nat {
    if s == [] then 0 else s[0].size + SumSizes(s[1..])
  }

  predicate Positive(s: seq<Block>) {
    forall k :: 0 <= k < |s| ==> s[k].size > 0
  }

  /** The blocks that are in use (allocated or mapped), in list order. */
  function Live(s: seq<Block>): seq<Block> {
    if s == [] then []
    else (if s[0].status != Free then [s[0]] else []) + Live(s[1..])
  }

  /** The mapped blocks, in list order. */
  function MappedSeq(s: seq<Block>): seq<Block> {
    if s == [] then []
    else (if s[0].status == Mapped then [s[0]] else []) + MappedSeq(s[1..])
  }

  /** block_coalesce: `a` absorbs its successor `b` and `b`'s header. */
  function Merge(a: Block, b: Block): (r: Block)
    ensures r.addr == a.addr && r.status == a.status
    ensures Footprint([r]) == Footprint([a]) + Footprint([b])
    ensures End(a) == b.addr ==> End(r) == End(b)
  {
    a.(size := a.size + b.size + META_SIZE)
  }

  /** block_split: the block is marked allocated; when its payload leaves
      room for `size`, one header and the slack, the rest becomes a free
      block linked right after it. */
  function Split(b: Block, size: nat): (r: seq<Block>)
    ensures 1 <= |r| <= 2
    ensures r[0].addr == b.addr && r[0].status == Alloc
    ensures |r| == 1 <==> b.size < size + META_SIZE + SPLIT_SLACK
    ensures |r| == 1 ==> r[0].size == b.size
    ensures |r| == 2 ==>
              r[0].size == size && r[1].status == Free
              && r[1].addr == End(r[0]) && End(r[1]) == End(b)
              && r[1].size >= SPLIT_SLACK
              && b.size == size + META_SIZE + r[1].size
    ensures size <= b.size ==> r[0].size >= size
    ensures Footprint(r) == Footprint([b])
  {
    if b.size < size + META_SIZE + SPLIT_SLACK then [b.(status := Alloc)]
    else
      var r := [Block(b.addr, size, Alloc), Block(b.addr + META_SIZE + size, b.size - size - META_SIZE, Free)];
      assert Footprint(r) == Footprint(r[..1]) + Footprint(r[1..]) by { FootprintConcat(r[..1], r[1..]); assert r == r[..1] + r[1..]; }
      r
  }

  /** The list with block `i` split for a request of `size` bytes. */
  function SplitAt(s: seq<Block>, i: nat, size: nat): seq<Block>
    requires i < |s|
  {
    s[..i] + Split(s[i], size) + s[i + 1..]
  }

  /** The list with block `i` merged with its successor. */
  function MergeAt(s: seq<Block>, i: nat): seq<Block>
    requires i + 1 < |s|
  {
    s[..i] + [Merge(s[i], s[i + 1])] + s[i + 2..]
  }

  /** A block the best-fit search may hand out for `size` bytes. */
  predicate Fits(b: Block, size: nat) {
    b.status == Free && b.size >= size
  }

  predicate NoFit(s: seq<Block>, size: nat) {
    forall j :: 0 <= j < |s| ==> !Fits(s[j], size)
  }

  /** `k` is the smallest free block that fits, and the first one of that
      size in list order. */
  predicate IsBestFit(s: seq<Block>, k: nat, size: nat) {
    k < |s| && Fits(s[k], size)
    && (forall j :: 0 <= j < |s| && Fits(s[j], size) ==> s[k].size <= s[j].size)
    && (forall j :: 0 <= j < k && Fits(s[j], size) ==> s[k].size < s[j].size)
  }

  function Last(s: seq<Block>): Block
    requires s != []
  {
    s[|s| - 1]
  }

  /** The tail-growth step of find_best_fit subtracts the tail's payload and
      one header from the request; this says that when the step is taken
      (no block fits and the tail is free) the subtraction cannot go below
      zero. */
  predicate TailGrowthFits(s: seq<Block>, size: nat) {
    NoFit(s, size) && s != [] && Last(s).status == Free ==> Last(s).size + META_SIZE <= size
  }

  /** The request size `n` satisfies the alignment rule of the entry points. */
  predicate Aligned(n: nat) {
    (n + META_SIZE) % ALLOC_BASE == 0
  }

  /** The least size at or above `n` whose total with the header is a
      multiple of ALLOC_BASE. */
  function AlignUp(n: nat): (r: nat)
    ensures n <= r < n + ALLOC_BASE
    ensures Aligned(r)
  {
    n + (ALLOC_BASE - (n + META_SIZE) % ALLOC_BASE) % ALLOC_BASE
  }

  /** No size between `n` and AlignUp(n) is aligned: AlignUp rounds up to
      the nearest aligned size, not just to some aligned size. */
  lemma AlignUpLeast(n: nat)
    ensures forall t :: n <= t < AlignUp(n) ==> !Aligned(t)
  {
    var q, m := (n + META_SIZE) / ALLOC_BASE, (n + META_SIZE) % ALLOC_BASE;
    assert n + META_SIZE == ALLOC_BASE * q + m;
    if m != 0 {
      assert AlignUp(n) == n + ALLOC_BASE - m;
      forall t | n <= t < AlignUp(n) ensures !Aligned(t) {
        var x := m + (t - n);
        assert t + META_SIZE == ALLOC_BASE * q + x;
        RemainderOf(q, x);
      }
    }
  }

  /** A multiple of ALLOC_BASE plus a smaller amount leaves that amount. */
  lemma RemainderOf(q: int, x: int)
    requires 0 <= x < ALLOC_BASE
    ensures (ALLOC_BASE * q + x) % ALLOC_BASE == x
  {
  }

  /** The position of the first block whose payload starts at `addr`. */
  function Find(s: seq<Block>, addr: int): (r: Option<nat>)
    ensures r.Some? ==> r.value < |s| && Payload(s[r.value]) == addr
                        && forall j :: 0 <= j < r.value ==> Payload(s[j]) != addr
    ensures r.None? <==> forall j :: 0 <= j < |s| ==> Payload(s[j]) != addr
  {
    if s == [] then None
    else if Payload(s[0]) == addr then Some(0)
    else match Find(s[1..], addr)
      case None => None
      case Some(k) => Some(k + 1)
  }

  /** Some block of `s` has its payload at `addr`. */
  predicate Tracked(s: seq<Block>, addr: int) {
    exists k :: 0 <= k < |s| && Payload(s[k]) == addr
  }

  /** The best fit for `size`, whenever some free block fits. */
  ghost function BestFit(s: seq<Block>, size: nat): (k: nat)
    requires !NoFit(s, size)
    ensures IsBestFit(s, k, size)
    ensures forall j: nat :: IsBestFit(s, j, size) ==> j == k
  {
    BestFitExists(s, size);
    var k: nat :| IsBestFit(s, k, size); k
  }

  // Lemmas about the sums and filters above.

  lemma {:induction false} FootprintConcat(a: seq<Block>, b: seq<Block>)
    ensures Footprint(a + b) == Footprint(a) + Footprint(b)
  {
    if a != [] {
      assert (a + b)[1..] == a[1..] + b;
      FootprintConcat(a[1..], b);
    } else {
      assert a + b == b;
    }
  }

  lemma {:induction false} SumSizesConcat(a: seq<Block>, b: seq<Block>)
    ensures SumSizes(a + b) == SumSizes(a) + SumSizes(b)
  {
    if a != [] {
      assert (a + b)[1..] == a[1..] + b;
      SumSizesConcat(a[1..], b);
    } else {
      assert a + b == b;
    }
  }

  lemma {:induction false} LiveConcat(a: seq<Block>, b: seq<Block>)
    ensures Live(a + b) == Live(a) + Live(b)
  {
    if a != [] {
      assert (a + b)[1..] == a[1..] + b;
      LiveConcat(a[1..], b);
    } else {
      assert a + b == b;
    }
  }

  lemma {:induction false} MappedConcat(a: seq<Block>, b: seq<Block>)
    ensures MappedSeq(a + b) == MappedSeq(a) + MappedSeq(b)
  {
    if a != [] {
      assert (a + b)[1..] == a[1..] + b;
      MappedConcat(a[1..], b);
    } else {
      assert a + b == b;
    }
  }

  /** Footprint counts one header per block on top of the payload sizes. */
  lemma {:induction false} FootprintIsSizesPlusHeaders(s: seq<Block>)
    ensures Footprint(s) == SumSizes(s) + |s| * META_SIZE
  {
    if s != [] {
      FootprintIsSizesPlusHeaders(s[1..]);
    }
  }

  /** With every payload positive, the payload total is zero exactly when
      the list is empty: the test the entry points use to detect a list
      that was never initialised. */
  lemma {:induction false} SumSizesZero(s: seq<Block>)
    requires Positive(s)
    ensures SumSizes(s) == 0 <==> s == []
  {
    if s != [] {
      assert s[0].size > 0;
    }
  }

  /** Appending blocks with positive payloads keeps the list positive. */
  lemma PositiveConcat(s: seq<Block>, t: seq<Block>)
    ensures Positive(s) && Positive(t) ==> Positive(s + t)
  {
    if Positive(s) && Positive(t) {
      forall k | 0 <= k < |s + t| ensures (s + t)[k].size > 0 {
        if k >= |s| {
          assert (s + t)[k] == t[k - |s|];
        }
      }
    }
  }

  /** The blocks block_split leaves have positive payloads when the block
      and the request do. */
  lemma SplitPositive(b: Block, size: nat)
    ensures b.size > 0 && size > 0 ==> Positive(Split(b, size))
  {
  }

  /** Splitting a block keeps the payload positive when the request is. */
  lemma SplitAtPositive(s: seq<Block>, i: nat, size: nat)
    requires i < |s| && Positive(s) && size > 0
    ensures Positive(SplitAt(s, i, size))
  {
    var r := SplitAt(s, i, size);
    forall k | 0 <= k < |r| ensures r[k].size > 0 {
      if k < i {
        assert r[k] == s[k];
      } else if k >= i + |Split(s[i], size)| {
        assert r[k] == s[k - |Split(s[i], size)| + 1];
      }
    }
  }

  /** Whenever some free block fits, a best fit exists. */
  lemma {:induction false} BestFitExists(s: seq<Block>, size: nat)
    requires !NoFit(s, size)
    ensures exists k: nat :: IsBestFit(s, k, size)
  {
    var t := s[1..];
    if NoFit(t, size) {
      assert forall j :: 0 < j < |s| ==> s[j] == t[j - 1];
      assert IsBestFit(s, 0, size);
    } else {
      BestFitExists(t, size);
      var k: nat :| IsBestFit(t, k, size);
      if Fits(s[0], size) && s[0].size <= t[k].size {
        assert IsBestFit(s, 0, size) by {
          forall j | 0 <= j < |s| && Fits(s[j], size) ensures s[0].size <= s[j].size {
            if j > 0 { assert t[j - 1] == s[j]; }
          }
        }
      } else {
        assert IsBestFit(s, k + 1, size) by {
          forall j | 0 <= j < |s| && Fits(s[j], size) ensures s[k + 1].size <= s[j].size {
            if j > 0 { assert t[j - 1] == s[j]; }
          }
          forall j | 0 <= j < k + 1 && Fits(s[j], size) ensures s[k + 1].size < s[j].size {
            if j > 0 { assert t[j - 1] == s[j]; }
          }
        }
      }
    }
  }

  /** A block of the in-use sublist is a block of the list. */
  lemma {:induction false} LiveMember(s: seq<Block>, b: Block)
    requires b in Live(s)
    ensures b in s && b.status != Free
  {
    if s != [] {
      if s[0].status != Free && b == s[0] {
      } else {
        LiveMember(s[1..], b);
      }
    }
  }

  /** A single block is in use exactly when it is not free. */
  lemma LiveOne(b: Block)
    ensures Live([b]) == if b.status != Free then [b] else []
  {
    assert [b][1..] == [];
  }

  /** Of the one or two blocks a split leaves, only the first is in use. */
  lemma LiveSplit(b: Block, size: nat)
    ensures Live(Split(b, size)) == [Split(b, size)[0]]
  {
    var r := Split(b, size);
    LiveOne(r[0]);
    if |r| == 2 {
      assert r == [r[0]] + [r[1]];
      LiveConcat([r[0]], [r[1]]);
      LiveOne(r[1]);
    }
  }

  /** Every in-use block of the list appears in the in-use sublist. */
  lemma {:induction false} LiveHas(s: seq<Block>, k: nat)
    requires k < |s| && s[k].status != Free
    ensures s[k] in Live(s)
  {
    if k > 0 {
      LiveHas(s[1..], k - 1);
    }
  }

  /** Dropping a free block leaves the in-use blocks as they were. */
  lemma DropFreeLive(p: seq<Block>, b: Block, q: seq<Block>)
    requires b.status == Free
    ensures Live(p + [b] + q) == Live(p) + Live(q)
  {
    LiveConcat(p + [b], q);
    LiveConcat(p, [b]);
    LiveOne(b);
  }

  /** An in-use block keeps its place among the in-use blocks. */
  lemma KeepLive(p: seq<Block>, b: Block, q: seq<Block>)
    requires b.status != Free
    ensures Live(p + [b] + q) == Live(p) + [b] + Live(q)
  {
    LiveConcat(p + [b], q);
    LiveConcat(p, [b]);
    LiveOne(b);
  }

  /** Splitting free block `k` adds its first half to the in-use blocks,
      between those before and those after it. */
  lemma SplitAtLive(s: seq<Block>, k: nat, size: nat)
    requires k < |s| && s[k].status == Free
    ensures Live(s) == Live(s[..k]) + Live(s[k + 1..])
    ensures Live(SplitAt(s, k, size)) == Live(s[..k]) + [Split(s[k], size)[0]] + Live(s[k + 1..])
  {
    var p, q, r := s[..k], s[k + 1..], Split(s[k], size);
    assert s == p + [s[k]] + q;
    DropFreeLive(p, s[k], q);
    LiveConcat(p + r, q);
    LiveConcat(p, r);
    LiveSplit(s[k], size);
  }

  /** Replacing a free last block by an in-use one appends it to the in-use
      blocks. */
  lemma {:induction false} ReplaceLastLive(s: seq<Block>, b: Block)
    requires s != [] && Last(s).status == Free && b.status != Free
    ensures Live(s[..|s| - 1] + [b]) == Live(s) + [b]
    decreases |s|
  {
    var r := s[..|s| - 1] + [b];
    if |s| == 1 {
      assert r == [b] && s == [s[0]];
      LiveOne(b);
      LiveOne(s[0]);
    } else {
      var t := s[1..];
      assert r[0] == s[0] && r[1..] == t[..|t| - 1] + [b];
      ReplaceLastLive(t, b);
      var h := if s[0].status != Free then [s[0]] else [];
      assert Live(r) == h + (Live(t) + [b]);
      assert Live(s) == h + Live(t);
    }
  }

}
