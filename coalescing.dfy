/** The effect of the two merging walks of myhelpers.c as functions on the
    list: the forward pass of mem_list_coalesce_free and the greedy forward
    absorption of realloc_logic, with what each preserves. */
module Coalescing {
  import opened Blocks
  import opened Layout

  /** One forward pass that merges every run of list-adjacent free blocks
      into the run's first block. After a merge the pass looks again at the
      same block, which is how a whole run ends up in one block. */
  function Coalesce(s: seq<Block>): seq<Block>
    decreases |s|
  {
    if |s| < 2 then s
    else if s[0].status == Free && s[1].status == Free then Coalesce([Merge(s[0], s[1])] + s[2..])
    else [s[0]] + Coalesce(s[1..])
  }

  /** No two list-adjacent blocks are both free. */
  predicate Separated(s: seq<Block>) {
    forall k :: 0 <= k < |s| - 1 ==> !(s[k].status == Free && s[k + 1].status == Free)
  }

  /** Greedy forward absorption of realloc_logic: block `i` swallows its
      free successors one at a time while it is still smaller than `size`. */
  function Absorb(s: seq<Block>, i: nat, size: nat): (r: seq<Block>)
    requires i < |s|
    ensures i < |r| <= |s|
    decreases |s|
  {
    if i + 1 < |s| && s[i + 1].status == Free && s[i].size < size then Absorb(MergeAt(s, i), i, size)
    else s
  }

  /** The first block of a coalesced list starts where the original one did
      and keeps its status. */
  lemma {:induction false} CoalesceHead(s: seq<Block>)
    requires s != []
    ensures Coalesce(s) != [] && Coalesce(s)[0].addr == s[0].addr
    ensures Coalesce(s)[0].status == s[0].status
    decreases |s|
  {
    if |s| >= 2 && s[0].status == Free && s[1].status == Free {
      CoalesceHead([Merge(s[0], s[1])] + s[2..]);
    }
  }

  /** After the pass no two list-adjacent blocks are both free. */
  lemma {:induction false} CoalesceSeparated(s: seq<Block>)
    ensures Separated(Coalesce(s))
    decreases |s|
  {
    if |s| >= 2 {
      if s[0].status == Free && s[1].status == Free {
        CoalesceSeparated([Merge(s[0], s[1])] + s[2..]);
      } else {
        var r := Coalesce(s[1..]);
        CoalesceSeparated(s[1..]);
        CoalesceHead(s[1..]);
        assert Coalesce(s) == [s[0]] + r;
        assert forall k :: 1 <= k < |r| + 1 ==> ([s[0]] + r)[k] == r[k - 1];
      }
    }
  }

  /** The pass conserves bytes: header plus payload summed over the list. */
  lemma {:induction false} CoalesceFootprint(s: seq<Block>)
    ensures Footprint(Coalesce(s)) == Footprint(s)
    decreases |s|
  {
    if |s| >= 2 {
      if s[0].status == Free && s[1].status == Free {
        var t := [Merge(s[0], s[1])] + s[2..];
        CoalesceFootprint(t);
        assert t[1..] == s[2..] && s[1..][1..] == s[2..];
      } else {
        CoalesceFootprint(s[1..]);
        assert ([s[0]] + Coalesce(s[1..]))[1..] == Coalesce(s[1..]);
      }
    }
  }

  /** Blocks in use are untouched by the pass: the same blocks, sizes and
      addresses, in the same order. */
  lemma {:induction false} CoalesceLive(s: seq<Block>)
    ensures Live(Coalesce(s)) == Live(s)
    decreases |s|
  {
    if |s| >= 2 {
      if s[0].status == Free && s[1].status == Free {
        var t := [Merge(s[0], s[1])] + s[2..];
        CoalesceLive(t);
        assert t[1..] == s[2..] && s[1..][1..] == s[2..];
      } else {
        CoalesceLive(s[1..]);
        assert ([s[0]] + Coalesce(s[1..]))[1..] == Coalesce(s[1..]);
      }
    }
  }

  /** In particular the mapped blocks are untouched. */
  lemma {:induction false} CoalesceMapped(s: seq<Block>)
    ensures MappedSeq(Coalesce(s)) == MappedSeq(s)
    decreases |s|
  {
    if |s| >= 2 {
      if s[0].status == Free && s[1].status == Free {
        var t := [Merge(s[0], s[1])] + s[2..];
        CoalesceMapped(t);
        assert t[1..] == s[2..] && s[1..][1..] == s[2..];
      } else {
        CoalesceMapped(s[1..]);
        assert ([s[0]] + Coalesce(s[1..]))[1..] == Coalesce(s[1..]);
      }
    }
  }

  /** Merging only list neighbours that are heap blocks, the pass keeps the
      heap tiled. */
  lemma {:induction false} CoalesceTiles(s: seq<Block>, lo: int, hi: int)
    requires Tiles(s, lo, hi)
    ensures Tiles(Coalesce(s), lo, hi)
    decreases |s|
  {
    if |s| >= 2 {
      if s[0].status == Free && s[1].status == Free {
        var t := [Merge(s[0], s[1])] + s[2..];
        assert s[1..][1..] == s[2..] && t[1..] == s[2..];
        assert Tiles(t, lo, hi);
        CoalesceTiles(t, lo, hi);
      } else {
        var r := Coalesce(s[1..]);
        assert ([s[0]] + r)[1..] == r;
        if s[0].status == Mapped {
          CoalesceTiles(s[1..], lo, hi);
        } else {
          CoalesceTiles(s[1..], End(s[0]), hi);
        }
      }
    }
  }

  /** Payloads stay positive: a merge only adds. */
  lemma {:induction false} CoalescePositive(s: seq<Block>)
    requires Positive(s)
    ensures Positive(Coalesce(s))
    decreases |s|
  {
    if |s| >= 2 {
      if s[0].status == Free && s[1].status == Free {
        var t := [Merge(s[0], s[1])] + s[2..];
        assert forall k :: 1 <= k < |t| ==> t[k] == s[k + 1];
        CoalescePositive(t);
      } else {
        CoalescePositive(s[1..]);
        var r := [s[0]] + Coalesce(s[1..]);
        assert forall k :: 1 <= k < |r| ==> r[k] == Coalesce(s[1..])[k - 1];
      }
    }
  }

  /** A list with no two adjacent free blocks is left as it is. */
  lemma {:induction false} CoalesceSeparatedFixed(s: seq<Block>)
    requires Separated(s)
    ensures Coalesce(s) == s
    decreases |s|
  {
    if |s| >= 2 {
      assert !(s[0].status == Free && s[1].status == Free);
      assert Separated(s[1..]) by {
        forall k | 0 <= k < |s[1..]| - 1 ensures !(s[1..][k].status == Free && s[1..][k + 1].status == Free) {
          assert s[1..][k] == s[k + 1] && s[1..][k + 1] == s[k + 2];
        }
      }
      CoalesceSeparatedFixed(s[1..]);
      assert s == [s[0]] + s[1..];
    }
  }

  /** Two free blocks coalesce into one. */
  /** A list whose last block is not free coalesces independently of
      whatever follows it: no merge reaches across that block. */
  lemma {:induction false} CoalesceConcat(a: seq<Block>, b: seq<Block>)
    requires a == [] || Last(a).status != Free
    ensures Coalesce(a + b) == Coalesce(a) + Coalesce(b)
    decreases |a|
  {
    if a == [] {
      assert a + b == b;
    } else if |a| == 1 {
      if b == [] {
        assert a + b == a;
      } else {
        assert (a + b)[1..] == b;
      }
    } else if a[0].status == Free && a[1].status == Free {
      var a' := [Merge(a[0], a[1])] + a[2..];
      assert (a + b)[2..] == a[2..] + b;
      assert [Merge(a[0], a[1])] + (a + b)[2..] == a' + b;
      assert Last(a') == Last(a);
      CoalesceConcat(a', b);
    } else {
      assert (a + b)[1..] == a[1..] + b;
      assert Last(a[1..]) == Last(a);
      CoalesceConcat(a[1..], b);
    }
  }

  lemma CoalescePair(a: Block, b: Block)
    requires a.status == Free && b.status == Free
    ensures Coalesce([a, b]) == [Merge(a, b)]
  {
    assert [a, b][2..] == [];
    assert [Merge(a, b)] + [] == [Merge(a, b)];
  }

  /** Running the pass a second time changes nothing. */
  lemma CoalesceIdempotent(s: seq<Block>)
    ensures Coalesce(Coalesce(s)) == Coalesce(s)
  {
    CoalesceSeparated(s);
    CoalesceSeparatedFixed(Coalesce(s));
  }

  /** Coalescing from block `i` on leaves the part of the list before `i`
      alone; applied from the first block it is the whole pass. */
  lemma CoalesceSuffixTiles(s: seq<Block>, i: nat, lo: int, hi: int)
    requires i <= |s| && Tiles(s, lo, hi)
    ensures Tiles(s[..i] + Coalesce(s[i..]), lo, hi)
    ensures MappedSeq(s[..i] + Coalesce(s[i..])) == MappedSeq(s)
  {
    assert s == s[..i] + s[i..];
    TilesConcat(s[..i], s[i..], lo, hi);
    CoalesceTiles(s[i..], lo + HeapBytes(s[..i]), hi);
    TilesConcat(s[..i], Coalesce(s[i..]), lo, hi);
    MappedConcat(s[..i], Coalesce(s[i..]));
    MappedConcat(s[..i], s[i..]);
    CoalesceMapped(s[i..]);
  }

  /** What absorption does to the list: blocks before `i` are kept; block
      `i` keeps its address and status; the `d` blocks right after it, all
      free, are absorbed; the rest follows unchanged. */
  lemma {:induction false} AbsorbShape(s: seq<Block>, i: nat, size: nat)
    requires i < |s|
    ensures var a := Absorb(s, i, size);
      var d := |s| - |a|;
      a[..i] == s[..i] && a[i + 1..] == s[i + 1 + d..]
      && a[i].addr == s[i].addr && a[i].status == s[i].status
      && (forall k :: i < k <= i + d ==> s[k].status == Free)
    decreases |s|
  {
    if i + 1 < |s| && s[i + 1].status == Free && s[i].size < size {
      var t := MergeAt(s, i);
      AbsorbShape(t, i, size);
      assert t[..i] == s[..i] && t[i + 1..] == s[i + 2..];
      assert forall k :: i + 1 < k < |s| ==> t[k - 1] == s[k];
    }
  }

  /** Block `i` grows by exactly the footprints (header and payload) of the
      blocks it absorbs. */
  lemma {:induction false} AbsorbGrowth(s: seq<Block>, i: nat, size: nat)
    requires i < |s|
    ensures var a := Absorb(s, i, size);
      a[i].size == s[i].size + Footprint(s[i + 1..i + 1 + |s| - |a|])
    decreases |s|
  {
    if i + 1 < |s| && s[i + 1].status == Free && s[i].size < size {
      var t := MergeAt(s, i);
      AbsorbGrowth(t, i, size);
      MergeAtParts(s, i);
      var a := Absorb(t, i, size);
      var d := |s| - |a|;
      assert i + 1 + |t| - |a| == i + d;
      assert t[i + 1..i + d] == s[i + 2..i + 1 + d] by {
        assert t[i + 1..i + d] == t[i + 1..][..d - 1];
        assert s[i + 2..i + 1 + d] == s[i + 2..][..d - 1];
      }
      assert a[i].size == t[i].size + Footprint(s[i + 2..i + 1 + d]);
      GrowthStep(s, i, d, a[i].size);
    } else {
      assert s[i + 1..i + 1] == [];
    }
  }

  /** One absorption step of AbsorbGrowth: block `i + 1`'s footprint is
      the head of the footprint of the absorbed run. */
  lemma GrowthStep(s: seq<Block>, i: nat, d: nat, x: int)
    requires 1 <= d && i + 1 + d <= |s|
    requires x == s[i].size + s[i + 1].size + META_SIZE + Footprint(s[i + 2..i + 1 + d])
    ensures x == s[i].size + Footprint(s[i + 1..i + 1 + d])
  {
    var u := s[i + 2..i + 1 + d];
    assert s[i + 1..i + 1 + d] == [s[i + 1]] + u;
    FootprintConcat([s[i + 1]], u);
    assert Footprint([s[i + 1]]) == META_SIZE + s[i + 1].size by { assert [s[i + 1]][1..] == []; }
  }

  /** The list after merging blocks `i` and `i + 1`, piece by piece. */
  lemma MergeAtParts(s: seq<Block>, i: nat)
    requires i + 1 < |s|
    ensures |MergeAt(s, i)| == |s| - 1
    ensures MergeAt(s, i)[..i] == s[..i] && MergeAt(s, i)[i] == Merge(s[i], s[i + 1])
    ensures MergeAt(s, i)[i + 1..] == s[i + 2..]
  {
  }

  /** Merging two blocks conserves the bytes of the list. */
  lemma {:induction false} MergeAtFootprint(s: seq<Block>, i: nat)
    requires i + 1 < |s|
    ensures Footprint(MergeAt(s, i)) == Footprint(s)
    decreases i
  {
    var m := MergeAt(s, i);
    if i == 0 {
      assert m[1..] == s[2..] && s[1..][1..] == s[2..];
    } else {
      assert m[0] == s[0] && m[1..] == MergeAt(s[1..], i - 1);
      MergeAtFootprint(s[1..], i - 1);
    }
  }

  /** Absorption conserves the bytes of the list. */
  lemma {:induction false} AbsorbFootprint(s: seq<Block>, i: nat, size: nat)
    requires i < |s|
    ensures Footprint(Absorb(s, i, size)) == Footprint(s)
    decreases |s|
  {
    if i + 1 < |s| && s[i + 1].status == Free && s[i].size < size {
      MergeAtFootprint(s, i);
      AbsorbFootprint(MergeAt(s, i), i, size);
    }
  }

  /** Absorption stops too small only at the tail or in front of a block
      that is not free; and it stops as soon as the block is large enough. */
  lemma {:induction false} AbsorbStops(s: seq<Block>, i: nat, size: nat)
    requires i < |s|
    ensures var a := Absorb(s, i, size);
      (a[i].size < size ==> i + 1 == |a| || a[i + 1].status != Free)
      && (|a| < |s| ==> a[i].size - META_SIZE - s[i + |s| - |a|].size < size)
      && (s[i].size >= size ==> a == s)
  {
    AbsorbStopsSmall(s, i, size);
    AbsorbLastNeeded(s, i, size);
  }

  /** Absorption leaves block `i` too small only at the tail or in front of
      a block that is not free. */
  lemma {:induction false} AbsorbStopsSmall(s: seq<Block>, i: nat, size: nat)
    requires i < |s|
    ensures var a := Absorb(s, i, size);
      a[i].size < size ==> i + 1 == |a| || a[i + 1].status != Free
    decreases |s|
  {
    if i + 1 < |s| && s[i + 1].status == Free && s[i].size < size {
      AbsorbStopsSmall(MergeAt(s, i), i, size);
    }
  }

  /** The last block absorbed was needed: block `i` was still too small
      before taking it. */
  lemma {:induction false} AbsorbLastNeeded(s: seq<Block>, i: nat, size: nat)
    requires i < |s|
    ensures var a := Absorb(s, i, size);
      |a| < |s| ==> a[i].size - META_SIZE - s[i + |s| - |a|].size < size
    decreases |s|
  {
    if i + 1 < |s| && s[i + 1].status == Free && s[i].size < size {
      var t := MergeAt(s, i);
      AbsorbLastNeeded(t, i, size);
      var a := Absorb(t, i, size);
      if |a| < |t| {
        assert t[i + 1..][|t| - |a| - 1] == s[i + 2..][|t| - |a| - 1];
        assert t[i + |t| - |a|] == s[i + |s| - |a|];
      }
    }
  }

  /** Absorbing free neighbours of a heap block keeps the heap tiled and the
      mapped blocks untouched. */
  lemma {:induction false} AbsorbTiles(s: seq<Block>, i: nat, size: nat, lo: int, hi: int)
    requires i < |s| && s[i].status != Mapped && Tiles(s, lo, hi)
    ensures Tiles(Absorb(s, i, size), lo, hi)
    ensures MappedSeq(Absorb(s, i, size)) == MappedSeq(s)
    decreases |s|
  {
    if i + 1 < |s| && s[i + 1].status == Free && s[i].size < size {
      MergeTiles(s, i, lo, hi);
      MergeMapped(s, i);
      AbsorbTiles(MergeAt(s, i), i, size, lo, hi);
    }
  }

  /** Replacing a run of heap blocks by another run of heap blocks leaves
      the mapped blocks as they were. */
  lemma ReplaceHeapRun(p: seq<Block>, x: seq<Block>, y: seq<Block>, q: seq<Block>)
    requires MappedSeq(x) == [] && MappedSeq(y) == []
    ensures MappedSeq(p + x + q) == MappedSeq(p + y + q)
  {
    MappedConcat(p + x, q);
    MappedConcat(p, x);
    MappedConcat(p + y, q);
    MappedConcat(p, y);
  }

  /** Merging two heap blocks leaves the mapped blocks alone. */
  lemma MergeMapped(s: seq<Block>, i: nat)
    requires i + 1 < |s| && s[i].status != Mapped && s[i + 1].status != Mapped
    ensures MappedSeq(MergeAt(s, i)) == MappedSeq(s)
  {
    var p, q := s[..i], s[i + 2..];
    assert s == p + [s[i], s[i + 1]] + q;
    MappedOfHeap([s[i], s[i + 1]]);
    MappedOfHeap([Merge(s[i], s[i + 1])]);
    ReplaceHeapRun(p, [s[i], s[i + 1]], [Merge(s[i], s[i + 1])], q);
  }

  /** Splitting a heap block leaves the mapped blocks alone. */
  lemma {:induction false} SplitMapped(s: seq<Block>, i: nat, size: nat)
    requires i < |s| && s[i].status != Mapped
    ensures MappedSeq(SplitAt(s, i, size)) == MappedSeq(s)
    decreases i
  {
    var m := SplitAt(s, i, size);
    if i == 0 {
      assert m == Split(s[0], size) + s[1..];
      MappedConcat(Split(s[0], size), s[1..]);
      SplitNoMapped(s[0], size);
    } else {
      assert m[0] == s[0] && m[1..] == SplitAt(s[1..], i - 1, size);
      SplitMapped(s[1..], i - 1, size);
    }
  }

  /** What a split leaves holds no mapped block. */
  lemma SplitNoMapped(b: Block, size: nat)
    ensures MappedSeq(Split(b, size)) == []
  {
    var r := Split(b, size);
    assert r[0].status != Mapped;
    assert MappedSeq(r) == MappedSeq(r[1..]);
    if |r| == 2 {
      var t := r[1..];
      assert t[0].status != Mapped && t[1..] == [];
      assert MappedSeq(t) == MappedSeq(t[1..]);
    } else {
      assert r[1..] == [];
    }
  }

  /** Changing a heap block's status between free and allocated leaves the
      mapped blocks alone. */
  lemma StatusMapped(s: seq<Block>, i: nat, st: Status)
    requires i < |s| && s[i].status != Mapped && st != Mapped
    ensures MappedSeq(s[i := s[i].(status := st)]) == MappedSeq(s)
  {
    var t := s[i := s[i].(status := st)];
    var p, q := s[..i], s[i + 1..];
    assert s == p + [s[i]] + q;
    assert t == p + [t[i]] + q;
    MappedOfHeap([s[i]]);
    MappedOfHeap([t[i]]);
    ReplaceHeapRun(p, [s[i]], [t[i]], q);
  }
}
