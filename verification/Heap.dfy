/**
 The block allocator shared by the kernel heaps and by the user library.

 Memory is a map from addresses to block headers.  `blocks` is the set of
 addresses where a block starts now; a header that was absorbed by a neighbour
 stays in memory but is no longer in that set.
 */
module Heap {

  /** sizeof(block_info): two pointers and a packed 64-bit word. */
  const HDR: int := 24

  /** `present`: the block below is free.  `full`: the block was handed out whole. */
  datatype Block = Block(prev: int, size: int, mapped: bool, present: bool, full: bool, next: int)

  /** What a read of a header returns; memory that was never written is zero. */
  function At(hdr: map<int, Block>, a: int): Block {
    if a in hdr then hdr[a] else Block(0, 0, false, false, false, 0)
  }

  datatype View = View(start: int, top: int, first: int, hdr: map<int, Block>, blocks: set<int>) {

    ghost predicate IsFree(a: int) {
      a in blocks && !At(hdr, a).mapped
    }

    /** Where the block at `a` ends. */
    ghost function End(a: int): int {
      a + HDR + At(hdr, a).size
    }

    ghost predicate Tile(a: int) {
      && a in hdr && start <= a < top && 0 <= hdr[a].size
      && (End(a) == top || (End(a) in blocks && End(a) < top))
    }

    ghost predicate Apart(a: int, b: int) {
      a < b ==> End(a) <= b
    }

    /** The header above knows whether `a` is free, and where it is if it is. */
    ghost predicate TagOk(a: int) {
      End(a) in blocks ==>
        && At(hdr, End(a)).present == IsFree(a)
        && (IsFree(a) ==> At(hdr, End(a)).prev == a && !IsFree(End(a)))
    }

    /** `n` is the first free block at or above `lo`, or the top if there is none. */
    ghost predicate NextFree(lo: int, n: int) {
      && lo <= n
      && (n == top || IsFree(n))
      && forall b :: lo <= b < n ==> !IsFree(b)
    }

    ghost predicate ChainOk(a: int) {
      IsFree(a) ==> NextFree(a + 1, At(hdr, a).next)
    }

    /** The blocks tile `start..top`, no two free ones touch, and the list from `first` is the free ones in order. */
    ghost predicate Wf() {
      && 0 < start < top
      && start in blocks && top !in blocks && !At(hdr, start).present
      && (forall a {:trigger Tile(a)} :: a in blocks ==> Tile(a))
      && (forall a, b {:trigger Apart(a, b)} :: a in blocks && b in blocks ==> Apart(a, b))
      && (forall a {:trigger TagOk(a)} :: a in blocks ==> TagOk(a))
      && (forall a {:trigger ChainOk(a)} :: a in blocks ==> ChainOk(a))
      && NextFree(start, first)
    }

    /** The allocated blocks and their sizes. */
    ghost function Live(): map<int, int> {
      map a | a in blocks && At(hdr, a).mapped :: At(hdr, a).size
    }
  }

  // ---- taking from a free block

  ghost predicate CanTake(v: View, a: int) {
    v.Wf() && v.IsFree(a)
  }

  /** The high end of the free block `a` becomes a block of `size` bytes. */
  ghost function Split(v: View, a: int, size: int): View {
    var n := v.End(a) - size - HDR;
    var s := v.End(a);
    var h := v.hdr[a := At(v.hdr, a).(size := At(v.hdr, a).size - size - HDR)];
    var h1 := h[n := Block(a, size, true, true, false, At(h, n).next)];
    var h2 := if s < v.top then h1[s := At(h1, s).(prev := n, present := false)] else h1;
    v.(hdr := h2, blocks := v.blocks + {n})
  }

  lemma SplitTile(v: View, a: int, size: int, x: int)
    requires CanTake(v, a) && 0 <= size && size + HDR < At(v.hdr, a).size
    requires x in Split(v, a, size).blocks
    ensures Split(v, a, size).Tile(x)
  {
    var n := v.End(a) - size - HDR;
    assert v.Tile(a);
    if x != n { assert v.Tile(x) && v.Apart(x, a) && v.Apart(a, x); }
  }

  lemma SplitTag(v: View, a: int, size: int, x: int)
    requires CanTake(v, a) && 0 <= size && size + HDR < At(v.hdr, a).size
    requires x in Split(v, a, size).blocks
    ensures Split(v, a, size).TagOk(x)
  {
    var n := v.End(a) - size - HDR;
    assert v.Tile(a) && v.TagOk(a);
    assert n in v.blocks ==> v.Apart(a, n);
    if x != n { assert v.Tile(x) && v.Apart(x, a) && v.Apart(a, x) && v.TagOk(x); }
  }

  lemma SplitApart(v: View, a: int, size: int, x: int, y: int)
    requires CanTake(v, a) && 0 <= size && size + HDR < At(v.hdr, a).size
    requires x in Split(v, a, size).blocks && y in Split(v, a, size).blocks
    ensures Split(v, a, size).Apart(x, y)
  {
    var n := v.End(a) - size - HDR;
    assert v.Tile(a);
    if x != n { assert v.Tile(x) && v.Apart(x, a) && v.Apart(a, x); }
    if y != n { assert v.Tile(y) && v.Apart(y, a) && v.Apart(a, y); }
    if x != n && y != n { assert v.Apart(x, y); }
  }

  /** A split changes neither which of the old blocks are free nor where the list goes from them. */
  lemma SplitFree(v: View, a: int, size: int, x: int)
    requires CanTake(v, a) && 0 <= size && size + HDR < At(v.hdr, a).size
    ensures v.End(a) - size - HDR !in v.blocks
    ensures Split(v, a, size).IsFree(x) == v.IsFree(x)
    ensures v.IsFree(x) ==> At(Split(v, a, size).hdr, x).next == At(v.hdr, x).next
  {
    var n := v.End(a) - size - HDR;
    assert v.Tile(a) && (n in v.blocks ==> v.Apart(a, n));
    assert x in v.blocks ==> v.Tile(x);
  }

  lemma SplitNext(v: View, a: int, size: int, lo: int, n: int)
    requires CanTake(v, a) && 0 <= size && size + HDR < At(v.hdr, a).size && v.NextFree(lo, n)
    ensures Split(v, a, size).NextFree(lo, n)
  {
    SplitFree(v, a, size, n);
    forall b | lo <= b < n ensures !Split(v, a, size).IsFree(b) {
      SplitFree(v, a, size, b);
    }
  }

  lemma SplitLive(v: View, a: int, size: int)
    requires CanTake(v, a) && 0 <= size && size + HDR < At(v.hdr, a).size
    ensures Split(v, a, size).Live() == v.Live()[v.End(a) - size - HDR := size]
  {
    SplitFree(v, a, size, a);
    assert v.Tile(a);
  }

  lemma SplitKeeps(v: View, a: int, size: int)
    requires CanTake(v, a) && 0 <= size && size + HDR < At(v.hdr, a).size
    ensures Split(v, a, size).Wf()
  {
    var w := Split(v, a, size);
    forall x | x in w.blocks ensures w.Tile(x) && w.TagOk(x) && w.ChainOk(x) {
      SplitTile(v, a, size, x);
      SplitTag(v, a, size, x);
      SplitFree(v, a, size, x);
      if v.IsFree(x) {
        assert v.ChainOk(x);
        SplitNext(v, a, size, x + 1, At(v.hdr, x).next);
      }
    }
    forall x, y | x in w.blocks && y in w.blocks ensures w.Apart(x, y) {
      SplitApart(v, a, size, x, y);
    }
    SplitNext(v, a, size, v.start, v.first);
    assert v.Tile(a);
  }

  /** The free block `a` is handed out whole; `p` is the free block before it in the list, 0 if `a` is the first. */
  ghost function Take(v: View, a: int, p: int): View {
    var s := v.End(a);
    var h := if p == 0 then v.hdr else v.hdr[p := At(v.hdr, p).(next := At(v.hdr, a).next)];
    var h1 := h[a := Block(a, At(v.hdr, a).size, true, false, true, At(v.hdr, a).next)];
    var h2 := if s < v.top then h1[s := At(h1, s).(prev := a, present := false)] else h1;
    v.(hdr := h2, first := if p == 0 then At(v.hdr, a).next else v.first)
  }

  ghost predicate Before(v: View, a: int, p: int) {
    if p == 0 then v.first == a else v.IsFree(p) && At(v.hdr, p).next == a
  }

  /** Only `a` stops being free. */
  lemma TakeFree(v: View, a: int, p: int, x: int)
    requires CanTake(v, a) && Before(v, a, p)
    ensures Take(v, a, p).IsFree(x) == (v.IsFree(x) && x != a)
    ensures p != a && p != v.End(a) && At(Take(v, a, p).hdr, x).size == At(v.hdr, x).size
    ensures x in v.blocks && x != a && x != p ==> At(Take(v, a, p).hdr, x).next == At(v.hdr, x).next
  {
    assert v.Tile(a) && v.TagOk(a) && v.ChainOk(a);
    if p != 0 { assert v.ChainOk(p); }
    if x in v.blocks { assert v.Tile(x); }
  }

  lemma TakeTag(v: View, a: int, p: int, x: int)
    requires CanTake(v, a) && Before(v, a, p) && x in v.blocks
    ensures Take(v, a, p).Tile(x) && Take(v, a, p).TagOk(x)
  {
    assert v.Tile(a) && v.TagOk(a) && v.ChainOk(a) && v.Tile(x) && v.TagOk(x) && v.Apart(x, a) && v.Apart(a, x);
    if p != 0 { assert v.ChainOk(p); }
  }

  lemma TakeChain(v: View, a: int, p: int, x: int)
    requires CanTake(v, a) && Before(v, a, p) && x in v.blocks
    ensures Take(v, a, p).ChainOk(x)
  {
    var w := Take(v, a, p);
    assert v.Tile(x) && v.Tile(a) && v.ChainOk(x) && v.ChainOk(a);
    if p != 0 { assert v.ChainOk(p) && v.Tile(p); }
    TakeFree(v, a, p, x);
    TakeFree(v, a, p, At(v.hdr, x).next);
    TakeFree(v, a, p, At(v.hdr, a).next);
    if w.IsFree(x) {
      forall b | x + 1 <= b < At(w.hdr, x).next ensures !w.IsFree(b) {
        TakeFree(v, a, p, b);
      }
    }
  }

  lemma TakeLive(v: View, a: int, p: int)
    requires CanTake(v, a) && Before(v, a, p)
    ensures Take(v, a, p).Live() == v.Live()[a := At(v.hdr, a).size]
  {
    var w := Take(v, a, p);
    forall x ensures w.IsFree(x) == (v.IsFree(x) && x != a) && At(w.hdr, x).size == At(v.hdr, x).size {
      TakeFree(v, a, p, x);
    }
  }

  lemma TakeFirst(v: View, a: int, p: int)
    requires CanTake(v, a) && Before(v, a, p)
    ensures Take(v, a, p).NextFree(v.start, Take(v, a, p).first)
  {
    var w := Take(v, a, p);
    assert v.Tile(a) && v.ChainOk(a);
    if p != 0 { assert v.ChainOk(p) && v.Tile(p); }
    TakeFree(v, a, p, w.first);
    forall b | v.start <= b < w.first ensures !w.IsFree(b) {
      TakeFree(v, a, p, b);
    }
  }

  lemma TakeKeeps(v: View, a: int, p: int)
    requires CanTake(v, a) && Before(v, a, p)
    ensures Take(v, a, p).Wf()
  {
    var w := Take(v, a, p);
    forall x | x in w.blocks ensures w.Tile(x) && w.TagOk(x) && w.ChainOk(x) {
      TakeTag(v, a, p, x);
      TakeChain(v, a, p, x);
    }
    forall x, y | x in w.blocks && y in w.blocks ensures w.Apart(x, y) {
      TakeFree(v, a, p, x);
      assert v.Apart(x, y);
    }
    TakeFirst(v, a, p);
    assert v.Tile(a);
  }

  // ---- giving a block back

  /** `L..E` is the run of free space that freeing `block` leaves, up to the allocated blocks around it. */
  ghost predicate Hole(v: View, block: int, L: int, E: int) {
    && v.Wf() && block in v.blocks && !v.IsFree(block)
    && L in v.blocks && !At(v.hdr, L).present && L <= block && v.End(block) <= E
    && (E == v.top || (E in v.blocks && !v.IsFree(E)))
    && forall a :: a in v.blocks && L <= a < E && a != block ==> v.IsFree(a)
  }

  /** `f` is the last free block below `L`, 0 if there is none. */
  ghost predicate LastFree(v: View, L: int, f: int) {
    && (f == 0 || (v.IsFree(f) && f < L))
    && forall b :: f < b < L ==> !v.IsFree(b)
  }

  ghost function FreedHdr(v: View, L: int, E: int, nxt: int, f: int, a: int): Block {
    if a == L then Block(At(v.hdr, L).prev, E - L - HDR, false, false, false, nxt)
    else if a == f then At(v.hdr, a).(next := L)
    else if a == E then At(v.hdr, a).(prev := L, present := true)
    else At(v.hdr, a)
  }

  /** `w` is `v` with the run `L..E` as one free block, linked between `f` and `nxt`. */
  ghost predicate Freed(v: View, w: View, block: int, L: int, E: int, nxt: int, f: int) {
    && Hole(v, block, L, E) && v.NextFree(E, nxt) && LastFree(v, L, f)
    && w.start == v.start && w.top == v.top
    && w.first == (if f == 0 then L else v.first)
    && (forall a :: a in w.blocks <==> a in v.blocks && (a <= L || E <= a))
    && forall a :: a in w.blocks ==> a in w.hdr && w.hdr[a] == FreedHdr(v, L, E, nxt, f, a)
  }

  lemma FreedTile(v: View, w: View, block: int, L: int, E: int, nxt: int, f: int, x: int)
    requires Freed(v, w, block, L, E, nxt, f) && x in w.blocks
    ensures w.Tile(x) && w.End(x) == if x == L then E else v.End(x)
    ensures x < L ==> v.End(x) <= L
  {
    assert v.Tile(block) && v.Tile(L) && v.Tile(x);
    assert v.Apart(x, L);
    assert E in v.blocks ==> v.Tile(E);
  }

  lemma FreedTag(v: View, w: View, block: int, L: int, E: int, nxt: int, f: int, x: int)
    requires Freed(v, w, block, L, E, nxt, f) && x in w.blocks
    ensures w.TagOk(x)
  {
    FreedTile(v, w, block, L, E, nxt, f, x);
    assert v.Tile(x) && v.TagOk(x) && v.Tile(L) && v.Tile(block);
  }

  lemma FreedFree(v: View, w: View, block: int, L: int, E: int, nxt: int, f: int, x: int)
    requires Freed(v, w, block, L, E, nxt, f)
    ensures w.IsFree(x) <==> x == L || (v.IsFree(x) && (x < L || E <= x))
    ensures L < E
  {
    assert v.Tile(L) && v.Tile(block);
  }

  lemma FreedChain(v: View, w: View, block: int, L: int, E: int, nxt: int, f: int, x: int)
    requires Freed(v, w, block, L, E, nxt, f) && w.IsFree(x)
    ensures w.NextFree(x + 1, At(w.hdr, x).next)
  {
    var n := At(w.hdr, x).next;
    FreedFree(v, w, block, L, E, nxt, f, x);
    FreedFree(v, w, block, L, E, nxt, f, n);
    assert v.Tile(x) && v.ChainOk(x) && v.Tile(L);
    if f != 0 { assert v.ChainOk(f); }
    forall b | x + 1 <= b < n ensures !w.IsFree(b) {
      FreedFree(v, w, block, L, E, nxt, f, b);
    }
  }

  lemma FreedFirst(v: View, w: View, block: int, L: int, E: int, nxt: int, f: int)
    requires Freed(v, w, block, L, E, nxt, f)
    ensures w.NextFree(w.start, w.first)
  {
    FreedFree(v, w, block, L, E, nxt, f, w.first);
    assert v.Tile(L);
    if f != 0 { assert v.Tile(f); }
    forall b | w.start <= b < w.first ensures !w.IsFree(b) {
      FreedFree(v, w, block, L, E, nxt, f, b);
    }
  }

  lemma FreedLive(v: View, w: View, block: int, L: int, E: int, nxt: int, f: int)
    requires Freed(v, w, block, L, E, nxt, f)
    ensures w.Live() == v.Live() - {block}
  {
    forall x ensures x in w.Live() <==> x in v.Live() && x != block {
      FreedFree(v, w, block, L, E, nxt, f, x);
      assert x in v.blocks ==> v.Tile(x);
      assert v.Tile(block) && v.Apart(L, block);
    }
    forall x | x in w.Live() ensures w.Live()[x] == v.Live()[x] {
      FreedFree(v, w, block, L, E, nxt, f, x);
    }
  }

  lemma FreedKeeps(v: View, w: View, block: int, L: int, E: int, nxt: int, f: int)
    requires Freed(v, w, block, L, E, nxt, f)
    ensures w.Wf()
  {
    forall x | x in w.blocks ensures w.Tile(x) && w.TagOk(x) {
      FreedTile(v, w, block, L, E, nxt, f, x);
      FreedTag(v, w, block, L, E, nxt, f, x);
    }
    forall x | x in w.blocks ensures w.ChainOk(x) {
      if w.IsFree(x) { FreedChain(v, w, block, L, E, nxt, f, x); }
    }
    forall x, y | x in w.blocks && y in w.blocks ensures w.Apart(x, y) {
      FreedTile(v, w, block, L, E, nxt, f, x);
      assert v.Apart(x, y);
    }
    FreedFirst(v, w, block, L, E, nxt, f);
    assert v.Tile(L) && v.Apart(v.start, L);
  }

  // ---- the run of free space around a block

  /** Where the run that contains `block` starts once `block` is free. */
  ghost function RunStart(v: View, block: int): int {
    if At(v.hdr, block).present then At(v.hdr, block).prev else block
  }

  /** Where it ends. */
  ghost function RunEnd(v: View, block: int): int {
    if v.IsFree(v.End(block)) then v.End(v.End(block)) else v.End(block)
  }

  /** If the header says so, the block below is the free one it points at. */
  lemma Below(v: View, block: int)
    requires v.Wf() && block in v.blocks && At(v.hdr, block).present
    ensures var p := At(v.hdr, block).prev; v.IsFree(p) && v.End(p) == block && !v.IsFree(block)
  {
    assert v.Tile(block);
    BelowExists(v, block, v.start);
  }

  /** Walking the tiles up from `a` reaches the block right below `block`. */
  lemma BelowExists(v: View, block: int, a: int)
    requires v.Wf() && block in v.blocks && At(v.hdr, block).present && a in v.blocks && a < block
    ensures var p := At(v.hdr, block).prev; v.IsFree(p) && v.End(p) == block && !v.IsFree(block)
    decreases block - a
  {
    assert v.Tile(a) && v.Apart(a, block) && v.TagOk(a) && v.Tile(block);
    if v.End(a) != block { BelowExists(v, block, v.End(a)); }
  }

  lemma RunStartIsTagged(v: View, block: int)
    requires v.Wf() && block in v.blocks && !v.IsFree(block)
    ensures var L := RunStart(v, block); L in v.blocks && L <= block && !At(v.hdr, L).present
    ensures var L := RunStart(v, block); L != block ==> v.IsFree(L) && v.End(L) == block
  {
    var L := RunStart(v, block);
    if At(v.hdr, block).present {
      Below(v, block);
      assert v.Tile(L);
      if At(v.hdr, L).present {
        Below(v, L);
      }
    }
  }

  lemma RunIsHole(v: View, block: int)
    requires v.Wf() && block in v.blocks && !v.IsFree(block)
    ensures Hole(v, block, RunStart(v, block), RunEnd(v, block))
  {
    var L, E, s := RunStart(v, block), RunEnd(v, block), v.End(block);
    RunStartIsTagged(v, block);
    assert v.Tile(block);
    if v.IsFree(s) { assert v.Tile(s) && v.TagOk(s); }
    forall a | a in v.blocks && L <= a < E && a != block ensures v.IsFree(a) {
      assert v.Apart(L, a) && v.Apart(block, a);
      if v.IsFree(s) { assert v.Apart(s, a); }
    }
  }

  lemma NextFreeUnique(v: View, lo: int, m: int, n: int)
    requires v.Wf() && v.NextFree(lo, m) && v.NextFree(lo, n)
    ensures m == n
  {
    assert m in v.blocks ==> v.Tile(m);
    assert n in v.blocks ==> v.Tile(n);
  }

  /** No block starts inside another. */
  lemma Gap(v: View, a: int)
    requires v.Wf() && a in v.blocks
    ensures forall x :: a < x < v.End(a) ==> x !in v.blocks
  {
    forall x | x in v.blocks ensures v.Apart(a, x) { }
  }

  lemma NothingBelow(v: View, lo: int)
    requires v.Wf() && lo <= v.first
    ensures LastFree(v, lo, 0)
  {
    forall b | 0 < b < lo ensures !v.IsFree(b) {
      if b in v.blocks { assert v.Tile(b); }
    }
  }

  /** When the list starts above the run, its first block is the one that follows the run. */
  lemma FirstAbove(v: View, block: int)
    requires v.Wf() && block in v.blocks && !v.IsFree(block)
    requires v.first > RunStart(v, block) && !(v.first == v.End(block) && v.IsFree(v.End(block)))
    ensures v.NextFree(RunEnd(v, block), v.first)
  {
    RunIsHole(v, block);
    var L, E := RunStart(v, block), RunEnd(v, block);
    assert v.Tile(L) && v.Tile(block);
    RunStartIsTagged(v, block);
    assert v.first in v.blocks ==> v.Apart(L, v.first) && v.Apart(block, v.first);
    assert v.first in v.blocks && v.IsFree(v.End(block)) ==> v.Apart(v.End(block), v.first);
  }

  /** Header `x` once the block above the free run at `b` has been told about it. */
  ghost function Tagged(h: map<int, Block>, top: int, b: int, x: int): Block {
    if x == b then At(h, b).(full := false)
    else if x == b + At(h, b).size + HDR < top then At(h, x).(prev := b, present := true)
    else At(h, x)
  }

  /** One header at the end of a free, followed through the three writes to the memory. */
  lemma HeaderAfter(v: View, block: int, L: int, E: int, nxt: int, f: int,
                    h1: map<int, Block>, h2: map<int, Block>, h3: map<int, Block>, a: int)
    requires Hole(v, block, L, E) && LastFree(v, L, f) && a in v.blocks && (a <= L || E <= a)
    requires L in h1 && h1[L] == At(v.hdr, L).(size := E - L - HDR, mapped := false, next := nxt)
    requires forall x :: x in v.blocks && (x < L || E <= x) ==> x in h1 && h1[x] == At(v.hdr, x)
    requires h2 == if f == 0 then h1 else h1[f := At(h1, f).(next := L)]
    requires h3.Keys >= h2.Keys && forall x :: x in h2 ==> h3[x] == Tagged(h2, v.top, L, x)
    ensures a in h3 && h3[a] == FreedHdr(v, L, E, nxt, f, a)
  {
    assert v.Tile(a) && v.Tile(L) && v.Tile(block);
  }

  /** Three rounds of header writes make a free. */
  lemma FreedAfter(v: View, w: View, block: int, L: int, E: int, nxt: int, f: int, h1: map<int, Block>, h2: map<int, Block>)
    requires Hole(v, block, L, E) && v.NextFree(E, nxt) && LastFree(v, L, f)
    requires w.start == v.start && w.top == v.top && w.first == (if f == 0 then L else v.first)
    requires w.blocks == set a | a in v.blocks && (a <= L || E <= a)
    requires L in h1 && h1[L] == At(v.hdr, L).(size := E - L - HDR, mapped := false, next := nxt)
    requires forall x :: x in v.blocks && (x < L || E <= x) ==> x in h1 && h1[x] == At(v.hdr, x)
    requires h2 == if f == 0 then h1 else h1[f := At(h1, f).(next := L)]
    requires w.hdr.Keys >= h2.Keys && forall x :: x in h2 ==> w.hdr[x] == Tagged(h2, v.top, L, x)
    ensures Freed(v, w, block, L, E, nxt, f)
  {
    forall a | a in w.blocks ensures a in w.hdr && w.hdr[a] == FreedHdr(v, L, E, nxt, f, a) {
      HeaderAfter(v, block, L, E, nxt, f, h1, h2, w.hdr, a);
    }
  }

  // ---- what a well-formed heap is determined by

  lemma PayloadsDisjoint(v: View, a: int, b: int)
    requires v.Wf() && a in v.Live() && b in v.Live() && a != b
    ensures v.start <= a && v.End(a) == a + 24 + v.Live()[a] <= v.top
    ensures a + 24 + v.Live()[a] <= b || b + 24 + v.Live()[b] <= a
  {
    assert v.Tile(a) && v.Apart(a, b) && v.Apart(b, a);
  }

  /** The two headers at `a` agree on everything the allocator reads. */
  ghost predicate SameBlock(v: View, w: View, a: int) {
    && a in v.blocks && a in w.blocks
    && At(v.hdr, a).mapped == At(w.hdr, a).mapped && v.End(a) == w.End(a)
    && At(v.hdr, a).present == At(w.hdr, a).present
    && (At(v.hdr, a).present ==> At(v.hdr, a).prev == At(w.hdr, a).prev)
  }

  /** A free block ends where the next allocated one starts, so the live blocks fix it. */
  lemma SameEnd(v: View, w: View, a: int)
    requires v.Wf() && w.Wf() && v.start == w.start && v.top == w.top && v.Live() == w.Live()
    requires a in v.blocks && a in w.blocks
    ensures At(v.hdr, a).mapped == At(w.hdr, a).mapped && v.End(a) == w.End(a)
  {
    assert At(v.hdr, a).mapped <==> a in v.Live();
    assert At(w.hdr, a).mapped <==> a in w.Live();
    assert v.Tile(a) && w.Tile(a) && v.TagOk(a) && w.TagOk(a);
    if !At(v.hdr, a).mapped {
      assert v.End(a) in v.blocks ==> v.End(a) in v.Live();
      assert w.End(a) in w.blocks ==> w.End(a) in w.Live();
      assert v.End(a) in w.blocks ==> w.Apart(a, v.End(a));
      assert w.End(a) in v.blocks ==> v.Apart(a, w.End(a));
    } else {
      assert v.Live()[a] == w.Live()[a];
    }
  }

  lemma {:induction false} SameBlocks(v: View, w: View, a: int, b: int)
    requires v.Wf() && w.Wf() && v.start == w.start && v.top == w.top && v.Live() == w.Live()
    requires a in v.blocks && a in w.blocks && SameBlock(v, w, a) && b in v.blocks && a <= b
    ensures SameBlock(v, w, b)
    decreases b - a
  {
    if a < b {
      assert v.Tile(a) && v.Apart(a, b) && v.Tile(b) && w.Tile(a) && v.TagOk(a) && w.TagOk(a);
      SameEnd(v, w, v.End(a));
      SameBlocks(v, w, v.End(a), b);
    }
  }

  lemma SameBlockAt(v: View, w: View)
    requires v.Wf() && w.Wf() && v.start == w.start && v.top == w.top && v.Live() == w.Live()
    ensures forall a :: a in v.blocks ==> a in w.blocks && SameBlock(v, w, a)
  {
    SameEnd(v, w, v.start);
    forall a | a in v.blocks ensures a in w.blocks && SameBlock(v, w, a) {
      assert v.Tile(a);
      SameBlocks(v, w, v.start, a);
    }
  }

  lemma SameFree(v: View, w: View, lo: int, m: int, n: int)
    requires v.Wf() && w.Wf() && v.top == w.top && v.NextFree(lo, m) && w.NextFree(lo, n)
    requires forall b :: v.IsFree(b) <==> w.IsFree(b)
    ensures m == n
  {
    assert m in v.blocks ==> v.Tile(m);
    assert n in w.blocks ==> w.Tile(n);
  }

  /**
   The bounds and the live blocks determine the whole heap: where the free blocks are and how large,
   every tag, and the free list.  No order of allocations and frees can leave any other trace.
   */
  lemma Canonical(v: View, w: View)
    requires v.Wf() && w.Wf() && v.start == w.start && v.top == w.top && v.Live() == w.Live()
    ensures v.first == w.first
    ensures forall a :: a in v.blocks <==> a in w.blocks
    ensures forall a :: a in v.blocks ==> SameBlock(v, w, a)
    ensures forall a :: v.IsFree(a) ==> At(v.hdr, a).next == At(w.hdr, a).next
  {
    SameBlockAt(v, w);
    SameBlockAt(w, v);
    SameFree(v, w, v.start, v.first, w.first);
    forall a | v.IsFree(a) ensures At(v.hdr, a).next == At(w.hdr, a).next {
      assert v.ChainOk(a) && w.ChainOk(a);
      SameFree(v, w, a + 1, At(v.hdr, a).next, At(w.hdr, a).next);
    }
  }

  /** With nothing allocated the heap is one free block from bottom to top. */
  lemma AllFree(v: View)
    requires v.Wf() && v.Live() == map[]
    ensures v.blocks == {v.start} && v.first == v.start && At(v.hdr, v.start).size == v.top - v.start - HDR
    ensures At(v.hdr, v.start).next == v.top
  {
    assert v.Tile(v.start) && v.TagOk(v.start) && v.ChainOk(v.start);
    assert v.End(v.start) in v.blocks ==> v.End(v.start) !in v.Live();
    assert v.start !in v.Live() && v.IsFree(v.start);
    forall b | b in v.blocks ensures b == v.start {
      assert v.Tile(b) && v.Apart(v.start, b);
    }
  }

  // ---- growing

  /** The last block, which is free, gets `bytes` more. */
  ghost function Extended(v: View, tail: int, bytes: int): View {
    v.(top := v.top + bytes,
       hdr := v.hdr[tail := At(v.hdr, tail).(size := At(v.hdr, tail).size + bytes, next := v.top + bytes)])
  }

  lemma NoneAbove(v: View)
    requires v.Wf()
    ensures forall b :: b in v.blocks ==> v.start <= b < v.top
  {
    forall b | b in v.blocks ensures v.Tile(b) { }
  }

  lemma ExtendedNext(v: View, tail: int, bytes: int, lo: int, n: int)
    requires v.Wf() && v.IsFree(tail) && v.End(tail) == v.top && 0 < bytes
    requires v.NextFree(lo, n)
    ensures Extended(v, tail, bytes).NextFree(lo, if n == v.top then v.top + bytes else n)
  {
    NoneAbove(v);
    var w := Extended(v, tail, bytes);
    forall b ensures w.IsFree(b) == v.IsFree(b) { }
  }

  lemma ExtendedOne(v: View, tail: int, bytes: int, x: int)
    requires v.Wf() && v.IsFree(tail) && v.End(tail) == v.top && 0 < bytes && x in v.blocks
    ensures var w := Extended(v, tail, bytes); w.Tile(x) && w.TagOk(x)
    ensures x != tail ==> v.End(x) == Extended(v, tail, bytes).End(x) <= tail
  {
    NoneAbove(v);
    assert v.Tile(x) && v.TagOk(x) && v.Apart(x, tail) && v.Apart(tail, x);
    assert v.Tile(tail);
  }

  lemma ExtendedChain(v: View, tail: int, bytes: int, x: int)
    requires v.Wf() && v.IsFree(tail) && v.End(tail) == v.top && 0 < bytes && x in v.blocks
    ensures Extended(v, tail, bytes).ChainOk(x)
  {
    if v.IsFree(x) {
      assert v.ChainOk(x) && v.ChainOk(tail);
      NoneAbove(v);
      ExtendedOne(v, tail, bytes, x);
      assert v.Tile(tail);
      assert v.End(tail) == v.top && At(v.hdr, tail).next == v.top by {
        assert v.Apart(tail, At(v.hdr, tail).next);
      }
      ExtendedNext(v, tail, bytes, x + 1, At(v.hdr, x).next);
    }
  }

  lemma ExtendedLive(v: View, tail: int, bytes: int)
    requires v.Wf() && v.IsFree(tail) && v.End(tail) == v.top && 0 < bytes
    ensures Extended(v, tail, bytes).Live() == v.Live()
  {
  }

  lemma ExtendedKeeps(v: View, tail: int, bytes: int)
    requires v.Wf() && v.IsFree(tail) && v.End(tail) == v.top && 0 < bytes
    ensures Extended(v, tail, bytes).Wf()
  {
    var w := Extended(v, tail, bytes);
    forall x | x in w.blocks ensures w.Tile(x) && w.TagOk(x) && w.ChainOk(x) {
      ExtendedOne(v, tail, bytes, x);
      ExtendedChain(v, tail, bytes, x);
    }
    forall x, y | x in w.blocks && y in w.blocks ensures w.Apart(x, y) {
      ExtendedOne(v, tail, bytes, x);
      ExtendedOne(v, tail, bytes, y);
      assert v.Apart(x, y) && v.Tile(y);
    }
    NoneAbove(v);
    ExtendedNext(v, tail, bytes, v.start, v.first);
  }

  /** A new free block of `bytes` bytes, header included, starts at the old top. */
  ghost function Appended(v: View, bytes: int): View {
    v.(top := v.top + bytes, blocks := v.blocks + {v.top},
       hdr := v.hdr[v.top := Block(0, bytes - HDR, false, false, At(v.hdr, v.top).full, v.top + bytes)])
  }

  ghost predicate CanAppend(v: View, bytes: int) {
    v.Wf() && HDR <= bytes && forall a :: v.IsFree(a) ==> v.End(a) != v.top
  }

  lemma AppendedNext(v: View, bytes: int, lo: int, n: int)
    requires CanAppend(v, bytes) && v.NextFree(lo, n)
    ensures Appended(v, bytes).NextFree(lo, n)
  {
    NoneAbove(v);
    var w := Appended(v, bytes);
    forall b ensures w.IsFree(b) == (v.IsFree(b) || b == v.top) { }
  }

  lemma AppendedOne(v: View, bytes: int, x: int)
    requires CanAppend(v, bytes) && x in Appended(v, bytes).blocks
    ensures Appended(v, bytes).Tile(x) && Appended(v, bytes).TagOk(x)
    ensures x != v.top ==> x in v.blocks && v.End(x) == Appended(v, bytes).End(x) <= v.top
  {
    NoneAbove(v);
    if x != v.top { assert v.Tile(x) && v.TagOk(x); }
  }

  lemma AppendedChain(v: View, bytes: int, x: int)
    requires CanAppend(v, bytes) && x in Appended(v, bytes).blocks
    ensures Appended(v, bytes).ChainOk(x)
  {
    NoneAbove(v);
    if x != v.top && v.IsFree(x) {
      assert v.ChainOk(x);
      AppendedNext(v, bytes, x + 1, At(v.hdr, x).next);
    }
  }

  lemma AppendedLive(v: View, bytes: int)
    requires CanAppend(v, bytes)
    ensures Appended(v, bytes).Live() == v.Live()
  {
    NoneAbove(v);
  }

  lemma AppendedKeeps(v: View, bytes: int)
    requires CanAppend(v, bytes)
    ensures Appended(v, bytes).Wf()
  {
    var w := Appended(v, bytes);
    forall x | x in w.blocks ensures w.Tile(x) && w.TagOk(x) && w.ChainOk(x) {
      AppendedOne(v, bytes, x);
      AppendedChain(v, bytes, x);
    }
    NoneAbove(v);
    forall x, y | x in w.blocks && y in w.blocks ensures w.Apart(x, y) {
      AppendedOne(v, bytes, x);
      AppendedOne(v, bytes, y);
      if x != v.top && y != v.top { assert v.Apart(x, y); }
    }
    AppendedNext(v, bytes, v.start, v.first);
  }

  /** A heap that is one free block. */
  ghost function OneFree(start: int, end: int): View {
    View(start, end, start, map[start := Block(0, end - start - HDR, false, false, false, end)], {start})
  }

  class Area {
    var start: int
    var top: int
    var first: int
    var hdr: map<int, Block>
    ghost var blocks: set<int>

    /** One free block from `start` to `end`. */
    constructor (start: int, end: int)
      requires 0 < start && start + HDR <= end
      ensures Valid() && V() == OneFree(start, end) && V().Live() == map[]
    {
      this.start, top, first := start, end, start;
      hdr := map[start := Block(0, end - start - HDR, false, false, false, end)];
      blocks := {start};
      new;
      assert V().Tile(start) && V().TagOk(start) && V().ChainOk(start) && V().Apart(start, start);
    }

    ghost function V(): View
      reads this
    {
      View(start, top, first, hdr, blocks)
    }

    ghost predicate Valid()
      reads this
    {
      V().Wf()
    }

    /** The header of a block that is handed out, and the tag of the block above it. */
    method WriteBlock(block: int, cur: int, size: int, present: bool, full: bool)
      modifies `hdr, `blocks
      ensures blocks == old(blocks) + {block}
      ensures var h := old(hdr)[block := Block(cur, size, true, present, full, old(At(hdr, block)).next)]; var s := block + HDR + size;
        hdr == if s < top then h[s := At(h, s).(prev := block, present := false)] else h
    {
      hdr := hdr[block := Block(cur, size, true, present, full, At(hdr, block).next)];
      var next := block + HDR + size;
      if next < top {
        hdr := hdr[next := At(hdr, next).(prev := block, present := false)];
      }
      blocks := blocks + {block};
    }

    method HeapAlloc(request: int, cur: int, prev: int, firstBlock: bool) returns (p: int)
      requires Valid() && 0 <= request && V().IsFree(cur)
      requires request <= At(hdr, cur).size <= request + HDR ==>
                 (firstBlock && cur == first) || (V().IsFree(prev) && At(hdr, prev).next == cur)
      modifies this
      ensures Valid() && start == old(start) && top == old(top)
      ensures p == 0 <==> old(At(hdr, cur).size) < request
      ensures p == 0 ==> V() == old(V())
      ensures p != 0 ==> var size := At(hdr, p - HDR).size;
        && size == (if old(At(hdr, cur).size) <= request + HDR then old(At(hdr, cur).size) else request)
        && (At(hdr, p - HDR).full <==> old(At(hdr, cur).size) <= request + HDR)
        && p - HDR !in old(V().Live()) && V().Live() == old(V().Live())[p - HDR := size]
        && cur <= p - HDR && p + size == old(V().End(cur))
    {
      ghost var v := V();
      assert v.Tile(cur);
      if hdr[cur].size >= request {
        var size := request;
        var present, full := true, false;
        var block := cur;
        if hdr[cur].size <= size + HDR {
          if firstBlock && cur == first {
            first := hdr[cur].next;
          } else {
            assert v.Tile(prev) && v.ChainOk(prev);
            hdr := hdr[prev := hdr[prev].(next := hdr[cur].next)];
          }
          size := hdr[cur].size;
          present := false;
          full := true;
        } else {
          hdr := hdr[cur := hdr[cur].(size := hdr[cur].size - (size + HDR))];
          block := block + hdr[cur].size + HDR;
        }
        WriteBlock(block, cur, size, present, full);
        if full {
          ghost var q := if firstBlock && cur == v.first then 0 else prev;
          assert V() == Take(v, cur, q);
          TakeKeeps(v, cur, q);
          TakeLive(v, cur, q);
        } else {
          assert V() == Split(v, cur, size);
          SplitKeeps(v, cur, size);
          SplitLive(v, cur, size);
          SplitFree(v, cur, size, cur);
        }
        return block + HDR;
      }
      return 0;
    }

    /** The header of `x` has the fields it had in `v`, except possibly those the run `L..E` owns. */
    ghost predicate SameAs(v: View, L: int, E: int)
      reads this
    {
      forall x :: x in v.blocks && (x < L || E <= x) ==> x in hdr && hdr[x] == At(v.hdr, x)
    }

    /** Merge `block` into the free block below it, if there is one. */
    method MergeBelow(block: int) returns (b: int)
      requires Valid() && block in blocks && !V().IsFree(block)
      modifies `hdr
      ensures b == RunStart(old(V()), block) && b in hdr && SameAs(old(V()), b, old(V().End(block)))
      ensures hdr[b] == old(At(hdr, RunStart(V(), block)).(size := V().End(block) - RunStart(V(), block) - HDR, mapped := false))
    {
      ghost var v := V();
      RunStartIsTagged(v, block);
      assert v.Tile(block);
      hdr := hdr[block := hdr[block].(mapped := false)];
      b := block;
      if hdr[block].present {
        var size := hdr[block].size + HDR;
        var p := hdr[block].prev;
        assert v.Tile(p);
        hdr := hdr[p := hdr[p].(size := hdr[p].size + size)];
        b := p;
      }
      forall x | x in v.blocks && (x < b || v.End(block) <= x) ensures x in hdr && hdr[x] == At(v.hdr, x) {
        assert v.Tile(x);
      }
    }

    method Absorb(b: int, n: int)
      requires b in hdr && n in hdr && b != n
      modifies `hdr, `first
      ensures hdr == old(hdr)[b := old(hdr[b].(size := hdr[b].size + hdr[n].size + HDR, next := hdr[n].next))]
      ensures first == if old(first) == n then b else old(first)
    {
      hdr := hdr[b := hdr[b].(size := hdr[b].size + hdr[n].size + HDR)];
      hdr := hdr[b := hdr[b].(next := hdr[n].next)];
      if first == n {
        first := b;
      }
    }

    /** Absorb the free block above, if there is one, then look for the next free block. */
    method MergeAbove(ghost v: View, ghost block: int, b: int, nextBlock: int, blockMax: int)
      requires v.Wf() && block in v.blocks && !v.IsFree(block) && b == RunStart(v, block) && nextBlock == v.End(block)
      requires start == v.start && top == v.top && first == v.first && blockMax >= top - start
      requires b in hdr && hdr[b] == At(v.hdr, b).(size := v.End(block) - b - HDR, mapped := false)
      requires SameAs(v, b, v.End(block))
      modifies `hdr, `first
      ensures b in hdr && v.NextFree(RunEnd(v, block), hdr[b].next)
      ensures hdr[b] == At(v.hdr, b).(size := RunEnd(v, block) - b - HDR, mapped := false, next := hdr[b].next)
      ensures SameAs(v, b, RunEnd(v, block))
      ensures first == if v.first == v.End(block) && v.IsFree(v.End(block)) then b else v.first
    {
      RunIsHole(v, block);
      ghost var E := RunEnd(v, block);
      assert v.Tile(block) && v.Tile(b);
      var n := nextBlock;
      var contiguous := true;
      ghost var first1 := if v.first == v.End(block) && v.IsFree(v.End(block)) then b else v.first;
      while true
        invariant n <= top && (n == top || n in v.blocks)
        invariant b in hdr && SameAs(v, b, E)
        invariant contiguous ==> n == v.End(block) && first == v.first && SameAs(v, b, v.End(block)) &&
                                 hdr[b] == At(v.hdr, b).(size := v.End(block) - b - HDR, mapped := false)
        invariant !contiguous ==> E <= n && first == first1 &&
                                  hdr[b] == At(v.hdr, b).(size := E - b - HDR, mapped := false, next := hdr[b].next)
        invariant !contiguous ==> forall x :: E <= x < n ==> !v.IsFree(x)
        decreases top - n
      {
        if n < top {
          assert v.Tile(n);
          Gap(v, n);
          if !hdr[n].mapped {
            if hdr[b].size + HDR < blockMax && contiguous {
              Absorb(b, n);
            } else {
              hdr := hdr[b := hdr[b].(next := n)];
              break;
            }
          }
          contiguous := false;
          n := n + (hdr[n].size + HDR);
        } else {
          hdr := hdr[b := hdr[b].(next := top)];
          break;
        }
      }
    }

    /** Put the free run at `b` into the list. */
    method Relink(ghost v: View, ghost block: int, b: int) returns (ghost f: int)
      requires v.Wf() && block in v.blocks && !v.IsFree(block) && b == RunStart(v, block)
      requires b in hdr && SameAs(v, b, RunEnd(v, block)) && v.NextFree(RunEnd(v, block), hdr[b].next)
      requires first == if v.first == v.End(block) && v.IsFree(v.End(block)) then b else v.first
      modifies `hdr, `first
      ensures LastFree(v, b, f) && first == if f == 0 then b else v.first
      ensures hdr == if f == 0 then old(hdr) else old(hdr)[f := old(At(hdr, f)).(next := b)]
    {
      RunIsHole(v, block);
      ghost var E := RunEnd(v, block);
      assert v.Tile(b) && v.Tile(block);
      if first > b {
        FirstAbove(v, block);
        NothingBelow(v, b);
        NextFreeUnique(v, E, first, hdr[b].next);
        hdr := hdr[b := hdr[b].(next := first)];
        first := b;
        f := 0;
        assert hdr == old(hdr);
      } else {
        var q := first;
        if q == b { NothingBelow(v, b); }
        while q != 0 && hdr[q].next != 0 && hdr[q].next < b
          invariant q == b || (q < b && v.IsFree(q))
          invariant q == b ==> LastFree(v, b, 0)
          decreases b - q
        {
          assert v.ChainOk(q) && v.Tile(q);
          q := hdr[q].next;
        }
        if q != b {
          assert v.ChainOk(q) && v.Tile(q);
          hdr := hdr[q := hdr[q].(next := b)];
          f := q;
        } else {
          f := 0;
        }
      }
    }

    /** Tell the block above the run that it follows a free block. */
    method TagAbove(b: int)
      requires b in hdr && 0 <= hdr[b].size
      modifies `hdr
      ensures hdr.Keys >= old(hdr.Keys)
      ensures forall x :: x in old(hdr) ==> hdr[x] == Tagged(old(hdr), top, b, x)
    {
      var after := b + hdr[b].size + HDR;
      if after < top {
        hdr := hdr[after := At(hdr, after).(prev := b, present := true)];
      }
      hdr := hdr[b := hdr[b].(full := false)];
    }

    /** Both merges: the header of the free run that `block` becomes part of. */
    method Merge(block: int, nextBlock: int, blockMax: int) returns (b: int)
      requires Valid() && block in blocks && !V().IsFree(block)
      requires nextBlock == V().End(block) && blockMax >= top - start
      modifies `hdr, `first
      ensures b == RunStart(old(V()), block) && b in hdr && SameAs(old(V()), b, RunEnd(old(V()), block))
      ensures old(V()).NextFree(RunEnd(old(V()), block), hdr[b].next)
      ensures hdr[b] == At(old(hdr), b).(size := RunEnd(old(V()), block) - b - HDR, mapped := false, next := hdr[b].next)
      ensures first == if old(first) == old(V()).End(block) && old(V()).IsFree(old(V()).End(block)) then b else old(first)
    {
      ghost var v := V();
      b := MergeBelow(block);
      MergeAbove(v, block, b, nextBlock, blockMax);
    }

    /** The writes of a free, in order. */
    method Release(block: int, nextBlock: int, blockMax: int) returns (ghost L: int, ghost nxt: int, ghost f: int)
      requires Valid() && block in blocks && !V().IsFree(block)
      requires nextBlock == V().End(block) && blockMax >= top - start
      modifies this
      ensures Freed(old(V()), V(), block, L, RunEnd(old(V()), block), nxt, f)
    {
      ghost var v := V();
      RunIsHole(v, block);
      ghost var E := RunEnd(v, block);
      assert v.Tile(block);
      var b := Merge(block, nextBlock, blockMax);
      L := b;
      ghost var h1 := hdr;
      nxt := hdr[b].next;
      f := Relink(v, block, b);
      ghost var h2 := hdr;
      TagAbove(b);
      blocks := set a | a in blocks && (a <= b || E <= a);
      FreedAfter(v, V(), block, b, E, nxt, f, h1, h2);
    }

    method HeapFree(block: int, nextBlock: int, blockMax: int)
      requires Valid() && block in blocks && !V().IsFree(block)
      requires nextBlock == V().End(block) && blockMax >= top - start
      modifies this
      ensures Valid() && start == old(start) && top == old(top)
      ensures V().Live() == old(V().Live()) - {block}
    {
      ghost var v := V();
      ghost var L, nxt, f := Release(block, nextBlock, blockMax);
      FreedKeeps(v, V(), block, L, RunEnd(v, block), nxt, f);
      FreedLive(v, V(), block, L, RunEnd(v, block), nxt, f);
    }

    method ExtendTail(tail: int, bytes: int)
      requires Valid() && V().IsFree(tail) && V().End(tail) == top && 0 < bytes
      modifies this
      ensures Valid() && start == old(start) && top == old(top) + bytes && V().Live() == old(V().Live())
      ensures V().IsFree(tail) && At(hdr, tail).size == old(At(hdr, tail).size) + bytes
    {
      ghost var v := V();
      assert v.Tile(tail);
      hdr := hdr[tail := hdr[tail].(size := hdr[tail].size + bytes)];
      hdr := hdr[tail := hdr[tail].(next := top + bytes)];
      top := top + bytes;
      assert V() == Extended(v, tail, bytes);
      ExtendedKeeps(v, tail, bytes);
      ExtendedLive(v, tail, bytes);
    }

    /** Start a free block at the top.  The last free block links to the top, so it links to the new block already. */
    method AppendBlock(prev: int, empty: bool, bytes: int) returns (b: int)
      requires CanAppend(V(), bytes)
      requires if empty then first == top else V().IsFree(prev) && At(hdr, prev).next == top
      modifies this
      ensures Valid() && start == old(start) && top == old(top) + bytes && V().Live() == old(V().Live())
      ensures b == old(top) && V().IsFree(b) && At(hdr, b).size == bytes - HDR
    {
      ghost var v := V();
      b := top;
      hdr := hdr[b := Block(0, bytes - HDR, false, false, At(hdr, b).full, top + bytes)];
      NoneAbove(v);
      assert empty || At(hdr, prev).next == b;
      if empty || first >= top {
        first := b;
      }
      top := top + bytes;
      blocks := blocks + {b};
      assert V() == Appended(v, bytes);
      AppendedKeeps(v, bytes);
      AppendedLive(v, bytes);
    }
  }
}
