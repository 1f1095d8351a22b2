// Model of the kernel heap allocator (src/kernel/mm/mm.c, include/kernel/mm.h).
//
// Memory holds `mem_block_t` headers `{size, next}`, each followed by `size`
// payload bytes. The free list is the chain that starts at the global
// `free_list` and follows `next`. The model keeps that chain as the sequence of
// header addresses in list order (`free`) and the `size` field of every header
// ever written, free or handed out, as a map from header address to size
// (`hdr`). Pointers are byte addresses; 0 is NULL.
module KernelHeap {

  /** `sizeof(mem_block_t)`: a `size_t` and a pointer, 8 bytes each on x86_64. */
  const H: nat := 16

  /** The allocator's view of memory: the free chain and the header sizes. */
  datatype Heap = Heap(free: seq<nat>, hdr: map<nat, nat>)

  /** Every block on the free chain has a header. */
  predicate HeadersKnown(h: Heap) {
    forall i :: 0 <= i < |h.free| ==> h.free[i] in h.hdr
  }

  /** No block occurs twice on the chain, i.e. following `next` never cycles. */
  ghost predicate Distinct(s: seq<nat>) {
    forall i, j :: 0 <= i < j < |s| ==> s[i] != s[j]
  }

  // ---------------------------------------------------------------------------
  // Layout: the headers tile the initialised region.
  // ---------------------------------------------------------------------------

  /** Where the block whose header is at index i of the layout ends. */
  ghost function BlockEnd(layout: seq<nat>, hdr: map<nat, nat>, i: nat): nat
    requires i < |layout| && layout[i] in hdr
  {
    layout[i] + H + hdr[layout[i]]
  }

  /**
   * `layout` lists the headers in address order, and the blocks they describe
   * (header plus payload) follow one another with no gap from lo up to hi.
   */
  ghost predicate Tiles(layout: seq<nat>, hdr: map<nat, nat>, lo: nat, hi: nat) {
    && |layout| > 0
    && layout[0] == lo
    && (forall i :: 0 <= i < |layout| ==> layout[i] in hdr)
    && (forall i :: 0 <= i < |layout| - 1 ==> layout[i + 1] == BlockEnd(layout, hdr, i))
    && BlockEnd(layout, hdr, |layout| - 1) == hi
  }

  /**
   * The allocator's invariant over the region [lo, hi): the region does not
   * start at NULL (so no header is at address 0), the headers tile it, every
   * header is one of the tiles, and the free chain is a list without
   * repetition of some of them.
   */
  ghost predicate Inv(h: Heap, layout: seq<nat>, lo: nat, hi: nat) {
    && lo > 0
    && Tiles(layout, h.hdr, lo, hi)
    && (forall x :: x in h.hdr <==> x in layout)
    && Distinct(h.free)
    && HeadersKnown(h)
  }

  /** The bytes that the blocks of a layout occupy, headers included. */
  ghost function Footprint(layout: seq<nat>, hdr: map<nat, nat>): nat
    requires forall i :: 0 <= i < |layout| ==> layout[i] in hdr
  {
    if layout == [] then 0 else H + hdr[layout[0]] + Footprint(layout[1..], hdr)
  }

  // ---------------------------------------------------------------------------
  // The three operations on values.
  // ---------------------------------------------------------------------------

  /** The state `mm_init(start, total)` leaves: one free block at start of size total - H. */
  function InitHeap(start: nat, total: nat): (h: Heap)
    requires start > 0 && total >= H
    ensures Inv(h, [start], start, start + total)
  {
    Heap([start], map[start := total - H])
  }

  /**
   * The first-fit search of `kmalloc` from position i of the chain: the index
   * of the first block whose size is at least n, or |free| when there is none.
   */
  function FirstFit(h: Heap, n: nat, i: nat): (k: nat)
    requires HeadersKnown(h) && i <= |h.free|
    ensures i <= k <= |h.free|
    ensures forall j :: i <= j < k ==> h.hdr[h.free[j]] < n
    ensures k < |h.free| ==> h.hdr[h.free[k]] >= n
    decreases |h.free| - i
  {
    if i == |h.free| then i
    else if h.hdr[h.free[i]] >= n then i
    else FirstFit(h, n, i + 1)
  }

  /**
   * `kmalloc(n)` on a state: the new state and the returned pointer (0 for NULL).
   * The first block that fits is split when it exceeds n + H, the remainder
   * taking its place on the chain; otherwise it is unlinked whole.
   */
  function Malloc(h: Heap, n: nat): (r: (Heap, nat))
    requires HeadersKnown(h)
    ensures r.1 == 0 <==> forall j :: 0 <= j < |h.free| ==> h.hdr[h.free[j]] < n
    ensures r.1 == 0 ==> r.0 == h
    ensures r.1 != 0 ==>
      && r.1 == h.free[FirstFit(h, n, 0)] + H
      && r.1 - H in r.0.hdr && r.0.hdr[r.1 - H] >= n
      && (Distinct(h.free) ==> r.1 - H !in r.0.free)
    ensures HeadersKnown(r.0)
  {
    var k := FirstFit(h, n, 0);
    if k == |h.free| then (h, 0)
    else
      var a := h.free[k];
      var size := h.hdr[a];
      if size > n + H then
        (Heap(h.free[k := a + H + n], SplitHdr(h.hdr, a, n)), a + H)
      else
        (Heap(h.free[..k] + h.free[k + 1..], h.hdr), a + H)
  }

  /** The pointers `kfree` may be given: NULL, or a handed-out block that is not already free. */
  predicate Freeable(h: Heap, p: nat) {
    p != 0 ==> p >= H && p - H in h.hdr && p - H !in h.free
  }

  /** `kfree(p)` on a state: NULL is ignored, otherwise the block's header goes to the head of the chain. */
  function Free(h: Heap, p: nat): (h': Heap)
    requires Freeable(h, p)
    ensures h'.hdr == h.hdr
    ensures p == 0 ==> h' == h
    ensures p != 0 ==> |h'.free| == |h.free| + 1 && h'.free[0] == p - H && h'.free[1..] == h.free
  {
    if p == 0 then h else Heap([p - H] + h.free, h.hdr)
  }

  /** The position of x in s. */
  ghost function IndexOf(s: seq<nat>, x: nat): (i: nat)
    requires x in s
    ensures i < |s| && s[i] == x
  {
    if s[0] == x then 0 else 1 + IndexOf(s[1..], x)
  }

  /** The layout after `Malloc(h, n)`: a split adds the remainder's header just after the chosen block. */
  ghost function MallocLayout(h: Heap, layout: seq<nat>, n: nat): seq<nat>
    requires HeadersKnown(h) && forall x :: x in h.hdr ==> x in layout
  {
    var k := FirstFit(h, n, 0);
    if k == |h.free| || h.hdr[h.free[k]] <= n + H then layout
    else
      var a := h.free[k];
      var m := IndexOf(layout, a);
      SplitLayout(layout, m, n)
  }

  // ---------------------------------------------------------------------------
  // Properties.
  // ---------------------------------------------------------------------------

  /** The blocks of a tiling cover exactly the region: every byte of [lo, hi) is in one block. */
  lemma {:induction false} TilesFootprint(layout: seq<nat>, hdr: map<nat, nat>, lo: nat, hi: nat)
    requires Tiles(layout, hdr, lo, hi)
    ensures lo + Footprint(layout, hdr) == hi
    decreases |layout|
  {
    if |layout| > 1 {
      var rest := layout[1..];
      assert forall i :: 0 <= i < |rest| - 1 ==> rest[i + 1] == BlockEnd(rest, hdr, i) by {
        forall i | 0 <= i < |rest| - 1 ensures rest[i + 1] == BlockEnd(rest, hdr, i) {
          assert layout[i + 2] == BlockEnd(layout, hdr, i + 1);
        }
      }
      assert BlockEnd(rest, hdr, |rest| - 1) == BlockEnd(layout, hdr, |layout| - 1);
      TilesFootprint(rest, hdr, BlockEnd(layout, hdr, 0), hi);
    } else {
      assert layout[1..] == [];
    }
  }

  /** Headers of a tiling are strictly increasing, and a later header lies at or beyond the end of an earlier block. */
  lemma {:induction false} TilesOrdered(layout: seq<nat>, hdr: map<nat, nat>, lo: nat, hi: nat, i: nat, j: nat)
    requires Tiles(layout, hdr, lo, hi)
    requires i < j < |layout|
    ensures BlockEnd(layout, hdr, i) <= layout[j]
    ensures layout[i] < layout[j]
    decreases j - i
  {
    if j > i + 1 {
      TilesOrdered(layout, hdr, lo, hi, i + 1, j);
    }
  }

  /** Every block of a tiling ends by hi. */
  lemma TilesBounded(layout: seq<nat>, hdr: map<nat, nat>, lo: nat, hi: nat, i: nat)
    requires Tiles(layout, hdr, lo, hi)
    requires i < |layout|
    ensures BlockEnd(layout, hdr, i) <= hi
  {
    var last := |layout| - 1;
    if i < last {
      TilesOrdered(layout, hdr, lo, hi, i, last);
    }
  }

  /** The header table after splitting the block at a: it keeps n bytes and the remainder gets a header of its own. */
  function SplitHdr(hdr: map<nat, nat>, a: nat, n: nat): (r: map<nat, nat>)
    requires a in hdr && hdr[a] > n + H
    ensures forall x :: x in r <==> x in hdr || x == a + H + n
    ensures r[a] == n && r[a] + H + r[a + H + n] == hdr[a]
    ensures forall x :: x in hdr && x != a && x != a + H + n ==> r[x] == hdr[x]
  {
    hdr[a + H + n := hdr[a] - n - H][a := n]
  }

  /** The layout after splitting the block at index m: the remainder's header comes right after it. */
  ghost function SplitLayout(layout: seq<nat>, m: nat, n: nat): seq<nat>
    requires m < |layout|
  {
    layout[..m + 1] + [layout[m] + H + n] + layout[m + 1..]
  }

  /** Headers before the split block lie below it, headers after it lie beyond the remainder's header. */
  lemma SplitOrder(layout: seq<nat>, hdr: map<nat, nat>, lo: nat, hi: nat, m: nat, n: nat)
    requires Tiles(layout, hdr, lo, hi)
    requires m < |layout| && hdr[layout[m]] > n + H
    ensures forall j :: 0 <= j < m ==> layout[j] < layout[m]
    ensures forall j :: m < j < |layout| ==> layout[j] > layout[m] + H + n
  {
    forall j | 0 <= j < |layout| && j != m
      ensures j < m ==> layout[j] < layout[m]
      ensures j > m ==> layout[j] > layout[m] + H + n
    {
      if j < m {
        TilesOrdered(layout, hdr, lo, hi, j, m);
      } else {
        TilesOrdered(layout, hdr, lo, hi, m, j);
      }
    }
  }

  /** Splitting a block of a tiling yields a tiling of the same region. */
  lemma SplitChain(layout: seq<nat>, hdr: map<nat, nat>, lo: nat, hi: nat, m: nat, n: nat)
    requires Tiles(layout, hdr, lo, hi)
    requires m < |layout| && hdr[layout[m]] > n + H
    requires forall j :: 0 <= j < m ==> layout[j] < layout[m]
    requires forall j :: m < j < |layout| ==> layout[j] > layout[m] + H + n
    ensures Tiles(SplitLayout(layout, m, n), SplitHdr(hdr, layout[m], n), lo, hi)
  {
    var a: nat := layout[m];
    var size: nat := hdr[a];
    var rest: nat := a + H + n;
    var hdr' := SplitHdr(hdr, a, n);
    var layout' := SplitLayout(layout, m, n);
    assert |layout'| == |layout| + 1;
    forall j | 0 <= j < |layout'|
      ensures layout'[j] in hdr'
      ensures j < |layout'| - 1 ==> layout'[j + 1] == BlockEnd(layout', hdr', j)
      ensures j == |layout'| - 1 ==> BlockEnd(layout', hdr', j) == hi
    {
      if j < m {
        assert layout'[j] == layout[j] && layout'[j + 1] == layout[j + 1];
        assert hdr'[layout[j]] == hdr[layout[j]];
        assert layout[j + 1] == BlockEnd(layout, hdr, j);
      } else if j == m {
        assert layout'[m] == a && hdr'[a] == n && layout'[m + 1] == rest;
      } else if j == m + 1 {
        assert layout'[j] == rest && hdr'[rest] == size - n - H;
        assert BlockEnd(layout', hdr', j) == BlockEnd(layout, hdr, m);
        if j < |layout'| - 1 {
          assert layout'[j + 1] == layout[m + 1];
          assert layout[m + 1] == BlockEnd(layout, hdr, m);
        } else {
          assert m == |layout| - 1;
        }
      } else {
        assert layout'[j] == layout[j - 1];
        assert hdr'[layout[j - 1]] == hdr[layout[j - 1]];
        if j < |layout'| - 1 {
          assert layout'[j + 1] == layout[j];
          assert layout[(j - 1) + 1] == BlockEnd(layout, hdr, j - 1);
        } else {
          assert j - 1 == |layout| - 1;
        }
      }
    }
  }

  /** After a split the headers are exactly the entries of the new layout. */
  lemma SplitKeys(layout: seq<nat>, hdr: map<nat, nat>, m: nat, n: nat)
    requires forall x :: x in hdr <==> x in layout
    requires m < |layout| && hdr[layout[m]] > n + H
    ensures forall x :: x in SplitHdr(hdr, layout[m], n) <==> x in SplitLayout(layout, m, n)
  {
    var layout' := SplitLayout(layout, m, n);
    forall x
      ensures x in SplitHdr(hdr, layout[m], n) <==> x in layout'
    {
      if x in layout' {
        var j :| 0 <= j < |layout'| && layout'[j] == x;
        if j > m + 1 {
          assert layout[j - 1] == x;
        } else if j < m + 1 {
          assert layout[j] == x;
        }
      }
      if x in hdr {
        var j :| 0 <= j < |layout| && layout[j] == x;
        if j <= m {
          assert layout'[j] == x;
        } else {
          assert layout'[j + 1] == x;
        }
      }
    }
  }

  /**
   * Splitting the block at index m of a tiling into a block of size n and a
   * remainder at `layout[m] + H + n` yields a tiling of the same region, and
   * the remainder's address was not yet a header.
   */
  lemma SplitTiles(layout: seq<nat>, hdr: map<nat, nat>, lo: nat, hi: nat, m: nat, n: nat)
    requires Tiles(layout, hdr, lo, hi) && (forall x :: x in hdr <==> x in layout)
    requires m < |layout| && hdr[layout[m]] > n + H
    ensures layout[m] + H + n !in hdr
    ensures Tiles(SplitLayout(layout, m, n), SplitHdr(hdr, layout[m], n), lo, hi)
    ensures forall x :: x in SplitHdr(hdr, layout[m], n) <==> x in SplitLayout(layout, m, n)
  {
    SplitOrder(layout, hdr, lo, hi, m, n);
    SplitChain(layout, hdr, lo, hi, m, n);
    SplitKeys(layout, hdr, m, n);
  }

  /** Malloc once its first fit k is known and the block is split, in the form the C code computes it. */
  lemma MallocSplitAt(h: Heap, n: nat, k: nat)
    requires HeadersKnown(h) && k < |h.free| && k == FirstFit(h, n, 0)
    requires h.hdr[h.free[k]] > n + H
    ensures var a := h.free[k];
      Malloc(h, n) == (Heap(h.free[k := a + H + n], SplitHdr(h.hdr, a, n)), a + H)
  {
  }

  /** Malloc once its first fit k is known and the block is taken whole. */
  lemma MallocWholeAt(h: Heap, n: nat, k: nat)
    requires HeadersKnown(h) && k < |h.free| && k == FirstFit(h, n, 0)
    requires h.hdr[h.free[k]] <= n + H
    ensures Malloc(h, n) == (Heap(h.free[..k] + h.free[k + 1..], h.hdr), h.free[k] + H)
  {
  }

  lemma DistinctReplace(s: seq<nat>, k: nat, x: nat)
    requires Distinct(s) && k < |s| && x !in s
    ensures Distinct(s[k := x])
  {
    var s' := s[k := x];
    forall i, j | 0 <= i < j < |s'| ensures s'[i] != s'[j] {
      assert s[i] in s && s[j] in s;
    }
  }

  lemma DistinctRemove(s: seq<nat>, k: nat)
    requires Distinct(s) && k < |s|
    ensures Distinct(s[..k] + s[k + 1..]) && s[k] !in s[..k] + s[k + 1..]
  {
    var s' := s[..k] + s[k + 1..];
    forall i, j | 0 <= i < j < |s'| ensures s'[i] != s'[j] {
      var i0 := if i < k then i else i + 1;
      var j0 := if j < k then j else j + 1;
      assert s'[i] == s[i0] && s'[j] == s[j0];
    }
    forall i | 0 <= i < |s'| ensures s'[i] != s[k] {
      var i0 := if i < k then i else i + 1;
      assert s'[i] == s[i0];
    }
  }

  /** Allocation keeps the invariant: the blocks still tile the region and the chain has no repeats. */
  lemma MallocKeepsInv(h: Heap, layout: seq<nat>, lo: nat, hi: nat, n: nat)
    requires Inv(h, layout, lo, hi)
    ensures Inv(Malloc(h, n).0, MallocLayout(h, layout, n), lo, hi)
  {
    var k := FirstFit(h, n, 0);
    if k < |h.free| {
      var a := h.free[k];
      if h.hdr[a] > n + H {
        SplitKeepsInv(h, layout, lo, hi, n, k);
        MallocSplitAt(h, n, k);
      } else {
        DistinctRemove(h.free, k);
      }
    }
  }

  /**
   * Splitting any free block larger than n + H keeps the invariant: the two
   * halves tile its span and the remainder is a fresh header, so the chain
   * still has no repeats.
   */
  lemma SplitKeepsInv(h: Heap, layout: seq<nat>, lo: nat, hi: nat, n: nat, k: nat)
    requires Inv(h, layout, lo, hi)
    requires k < |h.free| && h.hdr[h.free[k]] > n + H
    ensures var a := h.free[k];
      Inv(Heap(h.free[k := a + H + n], SplitHdr(h.hdr, a, n)), SplitLayout(layout, IndexOf(layout, a), n), lo, hi)
  {
    var a := h.free[k];
    var m := IndexOf(layout, a);
    var h' := Heap(h.free[k := a + H + n], SplitHdr(h.hdr, a, n));
    SplitTiles(layout, h.hdr, lo, hi, m, n);
    assert Distinct(h'.free) by {
      assert a + H + n !in h.free;
      DistinctReplace(h.free, k, a + H + n);
    }
    assert HeadersKnown(h') by {
      forall i | 0 <= i < |h'.free| ensures h'.free[i] in h'.hdr {
        if i != k {
          assert h.free[i] in h.hdr;
        }
      }
    }
  }

  /** Freeing keeps the invariant: the header goes back on the chain, which stays free of repeats. */
  lemma FreeKeepsInv(h: Heap, layout: seq<nat>, lo: nat, hi: nat, p: nat)
    requires Inv(h, layout, lo, hi) && Freeable(h, p)
    ensures Inv(Free(h, p), layout, lo, hi)
  {
    if p != 0 {
      var f := Free(h, p).free;
      forall i, j | 0 <= i < j < |f| ensures f[i] != f[j] {
        if i == 0 {
          assert f[j] == h.free[j - 1];
        } else {
          assert f[i] == h.free[i - 1] && f[j] == h.free[j - 1];
        }
      }
    }
  }

  /**
   * When splitting, the block handed out gets exactly n bytes, the remainder
   * header sits right after it with the rest of the old payload, and the
   * remainder takes the chosen block's place on the chain: every other entry
   * and the order are unchanged.
   */
  lemma MallocSplit(h: Heap, layout: seq<nat>, lo: nat, hi: nat, n: nat)
    requires Inv(h, layout, lo, hi)
    requires FirstFit(h, n, 0) < |h.free| && h.hdr[h.free[FirstFit(h, n, 0)]] > n + H
    ensures
      var k := FirstFit(h, n, 0);
      var a := h.free[k];
      var size := h.hdr[a];
      var (h', p) := Malloc(h, n);
      && p == a + H
      && h'.hdr[a] == n
      && h'.free[k] == a + H + n && h'.hdr[a + H + n] == size - n - H > 0
      && (a + H + n) + H + (size - n - H) == a + H + size
      && |h'.free| == |h.free|
      && (forall j :: 0 <= j < |h.free| && j != k ==> h'.free[j] == h.free[j])
      && (forall x :: x in h.hdr && x != a ==> x in h'.hdr && h'.hdr[x] == h.hdr[x])
  {
    var k := FirstFit(h, n, 0);
    var a := h.free[k];
    var rest := a + H + n;
    assert rest !in h.hdr by {
      var m := IndexOf(layout, a);
      SplitOrder(layout, h.hdr, lo, hi, m, n);
      forall j | 0 <= j < |layout| ensures layout[j] != rest {
        if j == m {
          assert layout[j] == a;
        }
      }
    }
    assert Malloc(h, n).0 == Heap(h.free[k := rest], SplitHdr(h.hdr, a, n));
  }

  /**
   * When splitting, the free blocks afterwards are the old ones except the
   * chosen block, plus the remainder: no other block joins or leaves the chain.
   */
  lemma MallocSplitMembers(h: Heap, n: nat)
    requires HeadersKnown(h) && Distinct(h.free)
    requires FirstFit(h, n, 0) < |h.free| && h.hdr[h.free[FirstFit(h, n, 0)]] > n + H
    ensures
      var a := h.free[FirstFit(h, n, 0)];
      forall x :: x in Malloc(h, n).0.free <==> (x in h.free && x != a) || x == a + H + n
  {
    var k := FirstFit(h, n, 0);
    var a := h.free[k];
    ReplaceMembers(h.free, k, a + H + n);
  }

  /** Replacing entry k of a chain without repeats swaps exactly that one member. */
  lemma ReplaceMembers(s: seq<nat>, k: nat, x: nat)
    requires Distinct(s) && k < |s|
    ensures forall y :: y in s[k := x] <==> (y in s && y != s[k]) || y == x
  {
    var f := s[k := x];
    assert f[k] == x;
    forall y | y in s && y != s[k] ensures y in f {
      var i :| 0 <= i < |s| && s[i] == y;
      assert f[i] == y;
    }
    forall y | y in f && y != x ensures y in s && y != s[k] {
      var i :| 0 <= i < |f| && f[i] == y;
      assert i != k && s[i] == y;
    }
  }

  /**
   * Without a split the chosen block leaves the chain whole and keeps its size,
   * which is at least n and at most n + H; the rest of the chain keeps its order.
   */
  lemma MallocWhole(h: Heap, n: nat)
    requires HeadersKnown(h) && Distinct(h.free)
    requires FirstFit(h, n, 0) < |h.free| && h.hdr[h.free[FirstFit(h, n, 0)]] <= n + H
    ensures
      var k := FirstFit(h, n, 0);
      var a := h.free[k];
      var (h', p) := Malloc(h, n);
      && p == a + H
      && n <= h'.hdr[a] <= n + H
      && h'.hdr == h.hdr
      && h'.free == h.free[..k] + h.free[k + 1..]
      && Distinct(h'.free)
      && (forall x :: x in h'.free <==> x in h.free && x != a)
  {
    var k := FirstFit(h, n, 0);
    var a := h.free[k];
    DistinctRemove(h.free, k);
    var f := h.free[..k] + h.free[k + 1..];
    forall x | x in h.free && x != a ensures x in f {
      var i :| 0 <= i < |h.free| && h.free[i] == x;
      assert i != k;
      assert f[if i < k then i else i - 1] == x;
    }
  }

  /**
   * The memory handed out lies inside the region: the header at p - H and the
   * payload bytes recorded for it, [p, p + size), are within [lo, hi).
   */
  lemma MallocInRegion(h: Heap, layout: seq<nat>, lo: nat, hi: nat, n: nat)
    requires Inv(h, layout, lo, hi) && Malloc(h, n).1 != 0
    ensures var r := Malloc(h, n);
      lo + H <= r.1 && r.1 + r.0.hdr[r.1 - H] <= hi
  {
    var r := Malloc(h, n);
    var layout' := MallocLayout(h, layout, n);
    assert Tiles(layout', r.0.hdr, lo, hi) && r.1 - H in layout' by {
      MallocKeepsInv(h, layout, lo, hi, n);
    }
    TileWithin(layout', r.0.hdr, lo, hi, r.1 - H);
  }

  /**
   * No header on the chain is at address 0, so `while (current)` in kmalloc
   * walks the whole chain: NULL marks only its end.
   */
  lemma ChainNotNull(h: Heap, layout: seq<nat>, lo: nat, hi: nat)
    requires Inv(h, layout, lo, hi)
    ensures forall i :: 0 <= i < |h.free| ==> h.free[i] > 0
  {
    forall i | 0 <= i < |h.free|
      ensures h.free[i] > 0
    {
      TileWithin(layout, h.hdr, lo, hi, h.free[i]);
    }
  }

  /** Each block of a tiling, header and payload, lies within [lo, hi). */
  lemma TileWithin(layout: seq<nat>, hdr: map<nat, nat>, lo: nat, hi: nat, x: nat)
    requires Tiles(layout, hdr, lo, hi) && x in layout
    ensures x in hdr && lo <= x && x + H + hdr[x] <= hi
  {
    var i := IndexOf(layout, x);
    TilesBounded(layout, hdr, lo, hi, i);
    if i > 0 {
      TilesOrdered(layout, hdr, lo, hi, 0, i);
    }
  }

  /**
   * Round trip: after `p = kmalloc(n); kfree(p)`, a request for at most the
   * size recorded in p's header is served by p again, since p heads the chain.
   */
  lemma MallocFreeRoundTrip(h: Heap, layout: seq<nat>, lo: nat, hi: nat, n: nat, m: nat)
    requires Inv(h, layout, lo, hi)
    requires Malloc(h, n).1 != 0
    requires m <= Malloc(h, n).0.hdr[Malloc(h, n).1 - H]
    ensures Freeable(Malloc(h, n).0, Malloc(h, n).1)
    ensures Malloc(Free(Malloc(h, n).0, Malloc(h, n).1), m).1 == Malloc(h, n).1
  {
    var (h1, p) := Malloc(h, n);
    var h2 := Free(h1, p);
    assert FirstFit(h2, m, 0) == 0;
  }

  /** After `mm_init(start, total)` any request up to total - H is served from the start of the region. */
  lemma InitServes(start: nat, total: nat, n: nat)
    requires start > 0 && total >= H && n <= total - H
    ensures Malloc(InitHeap(start, total), n).1 == start + H
  {
    assert FirstFit(InitHeap(start, total), n, 0) == 0;
  }

  // ---------------------------------------------------------------------------
  // mm_init as defined in mm.c.
  // ---------------------------------------------------------------------------

  /**
   * The definition of `mm_init` in mm.c takes a single `size_t` and uses it
   * both as the address of the first header and to compute its size. mm.c
   * includes mm.h, whose prototype takes `(start_address, total_memory)`,
   * so the definition conflicts with its own declaration; kernel.c calls the
   * two-argument form. This is the state the one-argument body produces for
   * the value t its parameter receives: a header at t of size t - H.
   */
  function InitAsWritten(t: nat): (h: Heap)
    requires t >= H
    ensures h.free == [t] && t in h.hdr && t + H + h.hdr[t] == 2 * t
  {
    Heap([t], map[t := t - H])
  }

  /**
   * Whatever value t the single parameter receives, the one-argument body
   * does not produce the declared initial state unless the region starts at
   * an address equal to its own size. If t is the start, the header is in
   * place but records t - H bytes instead of total - H; if t is the size, the
   * header lies outside the region.
   */
  lemma InitAsWrittenMisplaced(start: nat, total: nat, t: nat)
    requires start > 0 && total >= H && t >= H && start != total
    ensures InitAsWritten(t) != InitHeap(start, total)
    ensures t == start ==> InitAsWritten(t).hdr[start] != total - H
    ensures t == total ==>
      var a := InitAsWritten(t).free[0];
      !(start <= a && a + H + InitAsWritten(t).hdr[a] <= start + total)
  {
    if t == start {
      assert InitAsWritten(t).hdr[start] == start - H;
    }
  }

  // ---------------------------------------------------------------------------
  // The allocator as the kernel runs it: the global `free_list` and the
  // headers in memory, changed in place.
  // ---------------------------------------------------------------------------

  class Allocator {
    /** The chain from `free_list` along `next`, by header address. */
    var free: seq<nat>
    /** The `size` field of every header in the region. */
    var hdr: map<nat, nat>
    /** All headers in address order. */
    ghost var layout: seq<nat>
    /** The region handed to `mm_init`. */
    ghost const regionStart: nat
    ghost const regionEnd: nat

    ghost predicate Valid()
      reads this
    {
      Inv(Heap(free, hdr), layout, regionStart, regionEnd)
    }

    function State(): Heap
      reads this
    {
      Heap(free, hdr)
    }

    /**
     * `mm_init(start, total)`: one free block at start with size total - H and
     * no successor. The caller must give a non-NULL start, since the header is
     * written through it and a NULL `free_list` reads as an empty chain, and at
     * least H bytes, since the C code does the subtraction on `size_t`, which
     * would wrap otherwise.
     */
    constructor Init(start: nat, total: nat)
      requires start > 0 && total >= H
      ensures Valid()
      ensures State() == InitHeap(start, total)
      ensures regionStart == start && regionEnd == start + total
    {
      free := [start];
      hdr := map[start := total - H];
      layout := [start];
      regionStart := start;
      regionEnd := start + total;
    }

    /**
     * `kmalloc(size)`: walks the chain with `current` (index k) and `previous`
     * (index k - 1) and serves the first block whose size is at least `size`.
     */
    method Kmalloc(size: nat) returns (p: nat)
      requires Valid()
      modifies this
      ensures Valid()
      ensures (State(), p) == Malloc(old(State()), size)
    {
      ghost var h, before := State(), layout;
      var k := 0;
      while k < |free|
        invariant k <= |free|
        invariant forall j :: 0 <= j < k ==> hdr[free[j]] < size
      {
        var current := free[k];
        if hdr[current] >= size {
          p := Take(k, size);
          layout := MallocLayout(h, before, size);
          assert Valid() by {
            MallocKeepsInv(h, before, regionStart, regionEnd, size);
          }
          return;
        }
        k := k + 1;
      }
      assert k == FirstFit(State(), size, 0);
      return 0;
    }

    /**
     * The body of `kmalloc`'s loop once `current`, at index k of the chain, is
     * the first block that fits: split it if it exceeds size + H, otherwise
     * unlink it whole, and return the address just past its header.
     */
    method Take(k: nat, size: nat) returns (p: nat)
      requires HeadersKnown(State())
      requires k < |free| && k == FirstFit(State(), size, 0)
      modifies this
      ensures layout == old(layout)
      ensures (State(), p) == Malloc(old(State()), size)
    {
      ghost var h := State();
      var current := free[k];
      if hdr[current] > size + H {
        // new_block after the `size` payload bytes takes the remaining
        // bytes (new_block->size) and current keeps `size` (current->size);
        // previous (or free_list) now points at new_block, which inherits
        // current's successor, so it sits at current's position on the chain.
        var newBlock := current + H + size;
        MallocSplitAt(h, size, k);
        hdr := SplitHdr(hdr, current, size);
        free := free[k := newBlock];
      } else {
        // previous (or free_list) skips current.
        MallocWholeAt(h, size, k);
        free := free[..k] + free[k + 1..];
      }
      p := current + H;
    }

    /**
     * `kfree(ptr)`: NULL is ignored; otherwise the header at ptr - H is pushed
     * on the head of the chain, keeping its recorded size. Nothing checks that
     * ptr came from `kmalloc` or that the block is not already free (freeing it
     * twice would make the chain cyclic), so the caller must ensure both.
     */
    method Kfree(ptr: nat)
      requires Valid() && Freeable(State(), ptr)
      modifies this
      ensures Valid()
      ensures State() == Free(old(State()), ptr)
    {
      if ptr == 0 {
        return;
      }
      FreeKeepsInv(State(), layout, regionStart, regionEnd, ptr);
      var block := ptr - H;
      free := [block] + free;
    }
  }
}
