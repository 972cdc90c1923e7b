/**
 The copy of an address space made by fork, and of its remaining pages when a
 forked child first writes.  Pages below the stack are shared or copied, stack
 pages are copied or left alone, as the two flags say.
 */
module ForkPages {
  import opened Arithmetic
  import opened Paging
  import opened PageTable

  const STACK_BOT: nat := 0x7ffd0e212000 - 0x800000

  /** The page lies below the eight mebibytes of the stack. */
  predicate BelowStack(pn: nat) { pn * 4096 < 0x7ffd0da12000 }

  // ---------------------------------------------------------------- private pages

  /** The entry for `pn` below `f`, zero once the way crosses a global or shared entry. */
  function OwnLeaf(mem: Mem, f: nat, level: Level, pn: Page): nat
    decreases level
  {
    var e := Entry(mem, f, level, pn);
    if e == 0 || Pinned(e) then 0
    else if level == 1 then e
    else OwnLeaf(mem, Strip(e), level - 1, pn)
  }

  predicate Owned(place: Places, f: nat, owner: nat) { f in place && place[f].owner == owner }

  lemma DescendOwned(mem: Mem, place: Places, f: nat, level: Level, pn: Page)
    requires Trees(mem, place) && OnWay(place, f, level, pn) && level > 1
    requires Entry(mem, f, level, pn) != 0 && !Pinned(Entry(mem, f, level, pn))
    ensures OnWay(place, Strip(Entry(mem, f, level, pn)), level - 1, pn)
    ensures Owned(place, Strip(Entry(mem, f, level, pn)), place[f].owner)
  {
    Descend(mem, place, f, level, pn);
    assert TableOk(mem, place, f);
    assert Below(mem, place, f, Idx(level, pn));
  }

  /** Private translations depend only on the owner's tables. */
  lemma {:induction false} OwnLeafSame(mem: Mem, mem': Mem, place: Places, f: nat, level: Level, pn: Page)
    requires Trees(mem, place) && OnWay(place, f, level, pn)
    requires forall g {:trigger Owned(place, g, place[f].owner)} | Owned(place, g, place[f].owner) :: g in mem && g in mem' && mem'[g] == mem[g]
    ensures OwnLeaf(mem', f, level, pn) == OwnLeaf(mem, f, level, pn)
    decreases level
  {
    assert Owned(place, f, place[f].owner);
    var e := Entry(mem, f, level, pn);
    if e != 0 && !Pinned(e) && level > 1 {
      DescendOwned(mem, place, f, level, pn);
      OwnLeafSame(mem, mem', place, Strip(e), level - 1, pn);
    }
  }

  // ---------------------------------------------------------------- frames within a subtree

  /** Table `f` belongs to `owner` and covers pages under (`level`, `prefix`). */
  predicate Within(place: Places, f: nat, owner: nat, level: Level, prefix: nat)
  {
    && Owned(place, f, owner) && place[f].level <= level
    && place[f].prefix / Span(level - place[f].level) == prefix
  }

  lemma WithinChild(place: Places, f: nat, owner: nat, level: Level, prefix: nat, i: nat)
    requires level > 1 && i < ENTRIES
    requires Within(place, f, owner, level - 1, prefix * ENTRIES + i)
    ensures Within(place, f, owner, level, prefix)
  {
    DivSpan(place[f].prefix, level - 1 - place[f].level);
  }

  lemma DivSpan(x: nat, k: int)
    requires 0 <= k <= 2
    ensures x / Span(k + 1) == x / Span(k) / ENTRIES
  {
  }

  /** A table on the way to a page outside the subtree is outside it. */
  lemma OnWayOutside(place: Places, f: nat, l: Level, pn: Page, owner: nat, level: Level, prefix: nat)
    requires OnWay(place, f, l, pn) && Prefix(level, pn) != prefix
    ensures !Within(place, f, owner, level, prefix)
  {
    if l <= level { PrefixDiv(l, level, pn); }
  }

  lemma PrefixDiv(l: Level, level: Level, pn: Page)
    requires l <= level
    ensures Prefix(l, pn) / Span(level - l) == Prefix(level, pn)
  {
  }

  /** Only tables within the subtree change, and no frame goes away. */
  ghost predicate OnlyWithin(m0: Mem, p0: Places, m1: Mem, owner: nat, level: Level, prefix: nat)
  {
    forall f | f in m0 :: f in m1 && (m1[f] == m0[f] || Within(p0, f, owner, level, prefix))
  }

  lemma {:induction false} LeafOutside(m0: Mem, p0: Places, m1: Mem, owner: nat, level: Level, prefix: nat, f: nat, l: Level, pn: Page)
    requires Trees(m0, p0) && OnWay(p0, f, l, pn) && Prefix(level, pn) != prefix
    requires OnlyWithin(m0, p0, m1, owner, level, prefix)
    ensures Leaf(m1, f, l, pn) == Leaf(m0, f, l, pn)
    decreases l
  {
    assert TableOk(m0, p0, f);
    OnWayOutside(p0, f, l, pn, owner, level, prefix);
    assert m1[f] == m0[f];
    if l > 1 && Entry(m0, f, l, pn) != 0 {
      Descend(m0, p0, f, l, pn);
      LeafOutside(m0, p0, m1, owner, level, prefix, Strip(Entry(m0, f, l, pn)), l - 1, pn);
    }
  }

  // ---------------------------------------------------------------- what a copy must find

  /** The source's private leaves lead to data frames. */
  predicate LeafBacked(mem: Mem, place: Places, f: nat, i: nat)
    requires Frame(mem, f) && i < ENTRIES
  {
    var e := mem[f][i];
    e != 0 && !Pinned(e) ==> Strip(e) in mem && Strip(e) !in place
  }

  ghost predicate Backed(mem: Mem, place: Places, owner: nat)
  {
    forall f, i: nat {:trigger LeafBacked(mem, place, f, i)} |
      Owned(place, f, owner) && place[f].level == 1 && Frame(mem, f) && i < ENTRIES :: LeafBacked(mem, place, f, i)
  }

  /** A global or shared table entry of the copy stands where the source has one or nothing. */
  predicate PinOk(mem: Mem, place: Places, f: nat, i: nat, source: nat)
    requires Frame(mem, f) && i < ENTRIES && f in place
  {
    Pinned(mem[f][i]) ==>
      place[f].level == 4 && Frame(mem, source) && (mem[source][i] == 0 || Pinned(mem[source][i]))
  }

  ghost predicate PinsMatch(mem: Mem, place: Places, source: nat, owner: nat)
  {
    forall f, i: nat {:trigger PinOk(mem, place, f, i, source)} |
      Owned(place, f, owner) && place[f].level > 1 && Frame(mem, f) && i < ENTRIES :: PinOk(mem, place, f, i, source)
  }

  ghost predicate Twins(place: Places, src: nat, dest: nat, level: Level)
  {
    && src in place && dest in place
    && place[src].level == level == place[dest].level
    && place[src].prefix == place[dest].prefix
    && place[src].owner != place[dest].owner
  }

  ghost predicate CopyReady(mem: Mem, place: Places, src: nat, dest: nat, level: Level)
  {
    && Trees(mem, place) && Twins(place, src, dest, level) && Root(place, place[src].owner)
    && Backed(mem, place, place[src].owner)
    && PinsMatch(mem, place, place[src].owner, place[dest].owner)
  }

  lemma {:induction false} OwnLeafBacked(mem: Mem, place: Places, f: nat, level: Level, pn: Page)
    requires Trees(mem, place) && OnWay(place, f, level, pn) && Backed(mem, place, place[f].owner)
    ensures var e := OwnLeaf(mem, f, level, pn); e != 0 ==> Strip(e) in mem && Strip(e) !in place && !Pinned(e)
    decreases level
  {
    assert TableOk(mem, place, f);
    var e := Entry(mem, f, level, pn);
    if level == 1 {
      assert Owned(place, f, place[f].owner);
      assert LeafBacked(mem, place, f, Idx(1, pn));
    } else if e != 0 && !Pinned(e) {
      DescendOwned(mem, place, f, level, pn);
      OwnLeafBacked(mem, place, Strip(e), level - 1, pn);
    }
  }

  // ---------------------------------------------------------------- what a copy leaves

  datatype Mode = Mode(copyAll: bool, ignoreStack: bool)

  /** The page is given a frame of its own. */
  predicate Copies(mode: Mode, pn: nat)
  {
    if BelowStack(pn) then mode.copyAll else !mode.ignoreStack
  }

  /** The page is mapped to the source's frame. */
  predicate Shares(mode: Mode, pn: nat) { BelowStack(pn) && !mode.copyAll }

  /** `d` maps a frame that was not in use, writable, holding what `e`'s frame held. */
  predicate FreshCopy(m0: Mem, m1: Mem, p1: Places, e: nat, d: nat)
  {
    && d == Strip(d) + PRESENT + WRITE + USER
    && Strip(d) !in m0 && Strip(d) in m1 && Strip(d) !in p1
    && Strip(e) in m0 && m1[Strip(d)] == m0[Strip(e)]
  }

  /** The copy's entry `d` for page `pn`, the source having `e` and the copy `d0` before. */
  predicate CopiedEntry(m0: Mem, m1: Mem, p1: Places, pn: nat, mode: Mode, e: nat, d0: nat, d: nat)
  {
    if e != 0 && Copies(mode, pn) then FreshCopy(m0, m1, p1, e, d)
    else if e != 0 && Shares(mode, pn) then d == Strip(e) + PRESENT + USER
    else d == d0
  }

  predicate InRange(level: Level, pn: Page, lo: nat, hi: nat) { lo <= Idx(level, pn) < hi }

  predicate CopiedAt(m0: Mem, m1: Mem, p1: Places, src: nat, dest: nat, level: Level, lo: nat, hi: nat, mode: Mode, pn: Page)
  {
    if InRange(level, pn, lo, hi)
    then CopiedEntry(m0, m1, p1, pn, mode, OwnLeaf(m0, src, level, pn), Leaf(m0, dest, level, pn), Leaf(m1, dest, level, pn))
    else Leaf(m1, dest, level, pn) == Leaf(m0, dest, level, pn)
  }

  predicate HasCopy(m0: Mem, src: nat, level: Level, lo: nat, hi: nat, mode: Mode, pn: Page)
  {
    InRange(level, pn, lo, hi) && OwnLeaf(m0, src, level, pn) != 0 && Copies(mode, pn)
  }

  /** Two copied pages have two frames. */
  predicate ApartAt(m0: Mem, m1: Mem, src: nat, dest: nat, level: Level, lo: nat, hi: nat, mode: Mode, pn: Page, pn': Page)
  {
    pn != pn' && HasCopy(m0, src, level, lo, hi, mode, pn) && HasCopy(m0, src, level, lo, hi, mode, pn') ==>
      Strip(Leaf(m1, dest, level, pn)) != Strip(Leaf(m1, dest, level, pn'))
  }

  ghost predicate NewTables(m0: Mem, p0: Places, p1: Places, owner: nat)
  {
    && Extends(p0, p1)
    && forall f {:trigger Owned(p1, f, owner)} | f in p1 && f !in p0 :: f !in m0 && Owned(p1, f, owner)
  }

  /** Frame `f` holds the copy of page `pn`. */
  predicate CopyIs(m0: Mem, m1: Mem, src: nat, dest: nat, level: Level, lo: nat, hi: nat, mode: Mode, pn: Page, f: nat)
  {
    HasCopy(m0, src, level, lo, hi, mode, pn) && Strip(Leaf(m1, dest, level, pn)) == f
  }

  /** Frame `f` is a table of the copy or holds a copied page. */
  ghost predicate Accounted(m0: Mem, m1: Mem, p1: Places, src: nat, dest: nat, level: Level, lo: nat, hi: nat, mode: Mode,
                            owner: nat, prefix: nat, f: nat)
  {
    || Owned(p1, f, owner)
    || exists pn: Page {:trigger CopyIs(m0, m1, src, dest, level, lo, hi, mode, pn, f)} ::
         Prefix(level, pn) == prefix && CopyIs(m0, m1, src, dest, level, lo, hi, mode, pn, f)
  }

  /** Every new frame is a table of the copy or holds a copied page. */
  ghost predicate NewFrames(m0: Mem, m1: Mem, p1: Places, src: nat, dest: nat, level: Level, lo: nat, hi: nat, mode: Mode,
                            owner: nat, prefix: nat)
  {
    forall f {:trigger Accounted(m0, m1, p1, src, dest, level, lo, hi, mode, owner, prefix, f)} | f in m1 && f !in m0 ::
      Accounted(m0, m1, p1, src, dest, level, lo, hi, mode, owner, prefix, f)
  }

  /** Entries `lo` to `hi` of `dest` have been copied from `src`; nothing else has changed. */
  ghost predicate CopiedRange(m0: Mem, p0: Places, m1: Mem, p1: Places, src: nat, dest: nat, level: Level, lo: nat, hi: nat, mode: Mode)
    requires dest in p0
  {
    var owner, prefix := p0[dest].owner, p0[dest].prefix;
    && NewTables(m0, p0, p1, owner)
    && OnlyWithin(m0, p0, m1, owner, level, prefix)
    && NewFrames(m0, m1, p1, src, dest, level, lo, hi, mode, owner, prefix)
    && (forall pn: Page {:trigger CopiedAt(m0, m1, p1, src, dest, level, lo, hi, mode, pn)} |
          Prefix(level, pn) == prefix :: CopiedAt(m0, m1, p1, src, dest, level, lo, hi, mode, pn))
    && (forall pn: Page, pn': Page {:trigger ApartAt(m0, m1, src, dest, level, lo, hi, mode, pn, pn')} |
          Prefix(level, pn) == prefix == Prefix(level, pn') :: ApartAt(m0, m1, src, dest, level, lo, hi, mode, pn, pn'))
  }

  // ---------------------------------------------------------------- one range after another

  lemma SourceKept(m0: Mem, p0: Places, m1: Mem, src: nat, dest: nat, level: Level, pn: Page)
    requires CopyReady(m0, p0, src, dest, level) && Prefix(level, pn) == p0[src].prefix
    requires OnlyWithin(m0, p0, m1, p0[dest].owner, level, p0[dest].prefix)
    ensures OwnLeaf(m1, src, level, pn) == OwnLeaf(m0, src, level, pn)
  {
    forall g | Owned(p0, g, p0[src].owner)
      ensures g in m0 && g in m1 && m1[g] == m0[g]
    {
      assert TableOk(m0, p0, g);
    }
    OwnLeafSame(m0, m1, p0, src, level, pn);
  }

  lemma ComposeAt(m0: Mem, p0: Places, m: Mem, p: Places, m1: Mem, p1: Places, src: nat, dest: nat, level: Level,
                  lo: nat, mid: nat, hi: nat, mode: Mode, pn: Page)
    requires CopyReady(m0, p0, src, dest, level) && lo <= mid <= hi && Prefix(level, pn) == p0[dest].prefix
    requires Twins(p, src, dest, level)
    requires CopiedRange(m0, p0, m, p, src, dest, level, lo, mid, mode)
    requires CopiedRange(m, p, m1, p1, src, dest, level, mid, hi, mode)
    ensures CopiedAt(m0, m1, p1, src, dest, level, lo, hi, mode, pn)
  {
    assert CopiedAt(m0, m, p, src, dest, level, lo, mid, mode, pn);
    assert CopiedAt(m, m1, p1, src, dest, level, mid, hi, mode, pn);
    SourceKept(m0, p0, m, src, dest, level, pn);
    OwnLeafBacked(m0, p0, src, level, pn);
    var e := OwnLeaf(m0, src, level, pn);
    var d := Leaf(m1, dest, level, pn);
    var owner := p[dest].owner;
    if e != 0 && Copies(mode, pn) && InRange(level, pn, lo, mid) {
      assert Strip(d) in m && Strip(d) !in p;
      assert Strip(d) in p1 ==> Owned(p1, Strip(d), owner);
    }
  }

  lemma Compose(m0: Mem, p0: Places, m: Mem, p: Places, m1: Mem, p1: Places, src: nat, dest: nat, level: Level,
                lo: nat, mid: nat, hi: nat, mode: Mode)
    requires CopyReady(m0, p0, src, dest, level) && lo <= mid <= hi
    requires CopiedRange(m0, p0, m, p, src, dest, level, lo, mid, mode)
    requires CopiedRange(m, p, m1, p1, src, dest, level, mid, hi, mode)
    ensures CopiedRange(m0, p0, m1, p1, src, dest, level, lo, hi, mode)
  {
    var owner, prefix := p0[dest].owner, p0[dest].prefix;
    assert Twins(p, src, dest, level);
    forall pn: Page | Prefix(level, pn) == prefix
      ensures CopiedAt(m0, m1, p1, src, dest, level, lo, hi, mode, pn)
    {
      ComposeAt(m0, p0, m, p, m1, p1, src, dest, level, lo, mid, hi, mode, pn);
    }
    forall pn: Page, pn': Page | Prefix(level, pn) == prefix == Prefix(level, pn')
      ensures ApartAt(m0, m1, src, dest, level, lo, hi, mode, pn, pn')
    {
      ComposeApart(m0, p0, m, p, m1, p1, src, dest, level, lo, mid, hi, mode, pn, pn');
    }
    assert NewTables(m0, p0, p1, owner) by {
      forall f | f in p1 && f !in p0
        ensures f !in m0 && Owned(p1, f, owner)
      {
        assert f !in p ==> Owned(p1, f, owner);
        assert f in p ==> Owned(p, f, owner);
      }
    }
    forall f | f in m1 && f !in m0
      ensures Accounted(m0, m1, p1, src, dest, level, lo, hi, mode, owner, prefix, f)
    {
      ComposeFrame(m0, p0, m, p, m1, p1, src, dest, level, lo, mid, hi, mode, f);
    }
  }

  lemma ComposeFrame(m0: Mem, p0: Places, m: Mem, p: Places, m1: Mem, p1: Places, src: nat, dest: nat, level: Level,
                     lo: nat, mid: nat, hi: nat, mode: Mode, f: nat)
    requires CopyReady(m0, p0, src, dest, level) && lo <= mid <= hi && f in m1 && f !in m0
    requires Twins(p, src, dest, level)
    requires CopiedRange(m0, p0, m, p, src, dest, level, lo, mid, mode)
    requires CopiedRange(m, p, m1, p1, src, dest, level, mid, hi, mode)
    ensures Accounted(m0, m1, p1, src, dest, level, lo, hi, mode, p0[dest].owner, p0[dest].prefix, f)
  {
    var owner, prefix := p0[dest].owner, p0[dest].prefix;
    if f in m {
      assert Accounted(m0, m, p, src, dest, level, lo, mid, mode, owner, prefix, f);
      if !Owned(p, f, owner) {
        var pn: Page :| Prefix(level, pn) == prefix && CopyIs(m0, m, src, dest, level, lo, mid, mode, pn, f);
        assert CopiedAt(m, m1, p1, src, dest, level, mid, hi, mode, pn);
        assert CopyIs(m0, m1, src, dest, level, lo, hi, mode, pn, f);
      }
    } else {
      assert Accounted(m, m1, p1, src, dest, level, mid, hi, mode, owner, prefix, f);
      if !Owned(p1, f, owner) {
        var pn: Page :| Prefix(level, pn) == prefix && CopyIs(m, m1, src, dest, level, mid, hi, mode, pn, f);
        SourceKept(m0, p0, m, src, dest, level, pn);
        assert CopyIs(m0, m1, src, dest, level, lo, hi, mode, pn, f);
      }
    }
  }

  /** A table covers pages that exist. */
  lemma {:induction false} PrefixBound(mem: Mem, place: Places, f: nat)
    requires Trees(mem, place) && f in place
    ensures place[f].prefix < Span(4 - place[f].level)
    decreases 4 - place[f].level
  {
    assert TableOk(mem, place, f);
    if place[f].level < 4 { PrefixBound(mem, place, place[f].parent); }
  }

  lemma ComposeApart(m0: Mem, p0: Places, m: Mem, p: Places, m1: Mem, p1: Places, src: nat, dest: nat, level: Level,
                     lo: nat, mid: nat, hi: nat, mode: Mode, pn: Page, pn': Page)
    requires CopyReady(m0, p0, src, dest, level) && lo <= mid <= hi
    requires Prefix(level, pn) == p0[dest].prefix == Prefix(level, pn')
    requires Twins(p, src, dest, level)
    requires CopiedRange(m0, p0, m, p, src, dest, level, lo, mid, mode)
    requires CopiedRange(m, p, m1, p1, src, dest, level, mid, hi, mode)
    ensures ApartAt(m0, m1, src, dest, level, lo, hi, mode, pn, pn')
  {
    assert ApartAt(m0, m, src, dest, level, lo, mid, mode, pn, pn');
    assert ApartAt(m, m1, src, dest, level, mid, hi, mode, pn, pn');
    assert CopiedAt(m0, m, p, src, dest, level, lo, mid, mode, pn);
    assert CopiedAt(m0, m, p, src, dest, level, lo, mid, mode, pn');
    assert CopiedAt(m, m1, p1, src, dest, level, mid, hi, mode, pn);
    assert CopiedAt(m, m1, p1, src, dest, level, mid, hi, mode, pn');
    SourceKept(m0, p0, m, src, dest, level, pn);
    SourceKept(m0, p0, m, src, dest, level, pn');
  }

  /** After any range the copy can go on. */
  lemma ReadyKept(m0: Mem, p0: Places, m1: Mem, p1: Places, src: nat, dest: nat, level: Level, lo: nat, hi: nat, mode: Mode)
    requires CopyReady(m0, p0, src, dest, level)
    requires CopiedRange(m0, p0, m1, p1, src, dest, level, lo, hi, mode)
    requires Trees(m1, p1) && PinsMatch(m1, p1, p0[src].owner, p0[dest].owner)
    ensures CopyReady(m1, p1, src, dest, level)
  {
    var owner := p0[src].owner;
    forall f, i: nat | Owned(p1, f, owner) && p1[f].level == 1 && Frame(m1, f) && i < ENTRIES
      ensures LeafBacked(m1, p1, f, i)
    {
      assert f !in p0 ==> Owned(p1, f, p0[dest].owner);
      assert TableOk(m0, p0, f);
      assert Owned(p0, f, owner);
      assert LeafBacked(m0, p0, f, i);
      var t := Strip(m0[f][i]);
      assert t in p1 && t !in p0 ==> Owned(p1, t, p0[dest].owner);
    }
  }

  // ---------------------------------------------------------------- single steps

  function Own(e: nat): nat { if Pinned(e) then 0 else e }

  /** Entry `i` of `dest` may have changed, other frames only come into being. */
  ghost predicate OneEntry(m0: Mem, m1: Mem, dest: nat, i: nat)
  {
    && Frame(m0, dest) && Frame(m1, dest) && i < ENTRIES
    && (forall j | 0 <= j < ENTRIES && j != i :: m1[dest][j] == m0[dest][j])
    && (forall f | f in m0 && f != dest :: f in m1 && m1[f] == m0[f])
  }

  lemma OneEntryWithin(m0: Mem, p0: Places, m1: Mem, dest: nat, i: nat)
    requires OneEntry(m0, m1, dest, i) && dest in p0
    ensures OnlyWithin(m0, p0, m1, p0[dest].owner, p0[dest].level, p0[dest].prefix)
  {
    assert Within(p0, dest, p0[dest].owner, p0[dest].level, p0[dest].prefix);
  }

  lemma WritePageAt(m0: Mem, p0: Places, m1: Mem, src: nat, dest: nat, i: nat, mode: Mode, pn: Page)
    requires OneEntry(m0, m1, dest, i) && Frame(m0, src) && dest in p0 && dest != 0
    requires CopiedEntry(m0, m1, p0, p0[dest].prefix * ENTRIES + i, mode, Own(m0[src][i]), m0[dest][i], m1[dest][i])
    requires Prefix(1, pn) == p0[dest].prefix
    ensures CopiedAt(m0, m1, p0, src, dest, 1, i, i + 1, mode, pn)
  {
    Decompose(1, pn);
    assert Leaf(m1, dest, 1, pn) == m1[dest][Idx(1, pn)];
    assert Leaf(m0, dest, 1, pn) == m0[dest][Idx(1, pn)];
    assert OwnLeaf(m0, src, 1, pn) == Own(m0[src][Idx(1, pn)]);
  }

  lemma OnePage(m0: Mem, m1: Mem, src: nat, dest: nat, i: nat, mode: Mode, pn: Page, pn': Page)
    requires Prefix(1, pn) == Prefix(1, pn')
    ensures ApartAt(m0, m1, src, dest, 1, i, i + 1, mode, pn, pn')
  {
    Decompose(1, pn);
    Decompose(1, pn');
  }

  /** Writing a leaf of the copy. */
  lemma WritePage(m0: Mem, p0: Places, m1: Mem, src: nat, dest: nat, i: nat, mode: Mode)
    requires CopyReady(m0, p0, src, dest, 1) && OneEntry(m0, m1, dest, i) && Frame(m0, src)
    requires CopiedEntry(m0, m1, p0, p0[dest].prefix * ENTRIES + i, mode, Own(m0[src][i]), m0[dest][i], m1[dest][i])
    requires forall f | f in m1 && f !in m0 ::
               f == Strip(m1[dest][i]) && Own(m0[src][i]) != 0 && Copies(mode, p0[dest].prefix * ENTRIES + i)
    ensures CopiedRange(m0, p0, m1, p0, src, dest, 1, i, i + 1, mode)
    ensures CopyReady(m1, p0, src, dest, 1)
  {
    assert TableOk(m0, p0, dest);
    OneEntryWithin(m0, p0, m1, dest, i);
    forall pn: Page | Prefix(1, pn) == p0[dest].prefix
      ensures CopiedAt(m0, m1, p0, src, dest, 1, i, i + 1, mode, pn)
    {
      WritePageAt(m0, p0, m1, src, dest, i, mode, pn);
    }
    forall pn: Page, pn': Page | Prefix(1, pn) == p0[dest].prefix == Prefix(1, pn')
      ensures ApartAt(m0, m1, src, dest, 1, i, i + 1, mode, pn, pn')
    {
      OnePage(m0, m1, src, dest, i, mode, pn, pn');
    }
    forall f | f in m1 && f !in m0
      ensures Accounted(m0, m1, p0, src, dest, 1, i, i + 1, mode, p0[dest].owner, p0[dest].prefix, f)
    {
      WrittenFrame(m0, p0, m1, src, dest, i, mode);
    }
    LeafWriteTrees(m0, p0, m1, dest, i);
    LeafWritePins(m0, p0, m1, p0[src].owner, dest, i);
    ReadyKept(m0, p0, m1, p0, src, dest, 1, i, i + 1, mode);
  }

  lemma WrittenFrame(m0: Mem, p0: Places, m1: Mem, src: nat, dest: nat, i: nat, mode: Mode)
    requires Trees(m0, p0) && dest in p0 && p0[dest].level == 1 && i < ENTRIES && Frame(m0, src) && Frame(m1, dest) && dest != 0
    requires Own(m0[src][i]) != 0 && Copies(mode, p0[dest].prefix * ENTRIES + i)
    ensures exists pn: Page :: Prefix(1, pn) == p0[dest].prefix && CopyIs(m0, m1, src, dest, 1, i, i + 1, mode, pn, Strip(m1[dest][i]))
  {
    PrefixBound(m0, p0, dest);
    var pn: Page := p0[dest].prefix * ENTRIES + i;
    Decompose(1, pn);
    assert OwnLeaf(m0, src, 1, pn) == Own(m0[src][i]);
    assert Leaf(m1, dest, 1, pn) == m1[dest][i];
    assert Prefix(1, pn) == p0[dest].prefix && CopyIs(m0, m1, src, dest, 1, i, i + 1, mode, pn, Strip(m1[dest][i]));
  }

  lemma LeafWritePins(m0: Mem, p0: Places, m1: Mem, source: nat, dest: nat, i: nat)
    requires Trees(m0, p0) && OneEntry(m0, m1, dest, i) && dest in p0 && p0[dest].level == 1
    requires p0[dest].owner != source && Root(p0, source)
    requires PinsMatch(m0, p0, source, p0[dest].owner)
    ensures PinsMatch(m1, p0, source, p0[dest].owner)
  {
    forall f, j: nat | Owned(p0, f, p0[dest].owner) && p0[f].level > 1 && Frame(m1, f) && j < ENTRIES
      ensures PinOk(m1, p0, f, j, source)
    {
      assert TableOk(m0, p0, f);
      assert TableOk(m0, p0, source);
      assert PinOk(m0, p0, f, j, source);
    }
  }

  lemma LeafWriteTrees(m0: Mem, p0: Places, m1: Mem, dest: nat, i: nat)
    requires Trees(m0, p0) && OneEntry(m0, m1, dest, i) && dest in p0 && p0[dest].level == 1
    ensures Trees(m1, p0)
  {
    forall f | f in p0
      ensures TableOk(m1, p0, f)
    {
      assert TableOk(m0, p0, f);
      if p0[f].level < 4 { assert TableOk(m0, p0, p0[f].parent); }
      forall j: nat | j < ENTRIES
        ensures Below(m1, p0, f, j)
      {
        assert Below(m0, p0, f, j);
      }
    }
  }

  /** An entry that is absent, global or shared is passed over. */
  lemma Skip(m0: Mem, p0: Places, src: nat, dest: nat, level: Level, i: nat, mode: Mode)
    requires CopyReady(m0, p0, src, dest, level) && i < ENTRIES && Frame(m0, src) && Own(m0[src][i]) == 0
    ensures CopiedRange(m0, p0, m0, p0, src, dest, level, i, i + 1, mode)
  {
    forall pn: Page | Prefix(level, pn) == p0[dest].prefix
      ensures CopiedAt(m0, m0, p0, src, dest, level, i, i + 1, mode, pn)
    {
    }
    forall pn: Page, pn': Page | Prefix(level, pn) == p0[dest].prefix == Prefix(level, pn')
      ensures ApartAt(m0, m0, src, dest, level, i, i + 1, mode, pn, pn')
    {
      assert !HasCopy(m0, src, level, i, i + 1, mode, pn);
    }
  }

  lemma Nothing(m0: Mem, p0: Places, src: nat, dest: nat, level: Level, mode: Mode)
    requires CopyReady(m0, p0, src, dest, level)
    ensures CopiedRange(m0, p0, m0, p0, src, dest, level, 0, 0, mode)
  {
    forall pn: Page | Prefix(level, pn) == p0[dest].prefix
      ensures CopiedAt(m0, m0, p0, src, dest, level, 0, 0, mode, pn)
    {
    }
    forall pn: Page, pn': Page | Prefix(level, pn) == p0[dest].prefix == Prefix(level, pn')
      ensures ApartAt(m0, m0, src, dest, level, 0, 0, mode, pn, pn')
    {
      assert !HasCopy(m0, src, level, 0, 0, mode, pn);
    }
  }

  /** A missing table hung below entry `i` of the copy. */
  lemma HangStep(m0: Mem, p0: Places, src: nat, dest: nat, level: Level, i: nat, n: nat, mode: Mode)
    requires CopyReady(m0, p0, src, dest, level) && CanHang(m0, p0, dest, i, n, n)
    ensures CopiedRange(m0, p0, Hang(m0, dest, i, n, n), p0[n := Child(p0, dest, i)], src, dest, level, i, i, mode)
    ensures CopyReady(Hang(m0, dest, i, n, n), p0[n := Child(p0, dest, i)], src, dest, level)
  {
    var m1, p1 := Hang(m0, dest, i, n, n), p0[n := Child(p0, dest, i)];
    OneEntryWithin(m0, p0, m1, dest, i);
    forall pn: Page | Prefix(level, pn) == p0[dest].prefix
      ensures CopiedAt(m0, m1, p1, src, dest, level, i, i, mode, pn)
    {
      HangLeaf(m0, p0, dest, i, n, n, dest, level, pn);
    }
    forall f | f in m1 && f !in m0
      ensures Accounted(m0, m1, p1, src, dest, level, i, i, mode, p0[dest].owner, p0[dest].prefix, f)
    {
      assert Owned(p1, f, p0[dest].owner);
    }
    HangTrees(m0, p0, dest, i, n, n);
    HangPins(m0, p0, p0[src].owner, dest, i, n);
    ReadyKept(m0, p0, m1, p1, src, dest, level, i, i, mode);
  }

  lemma HangPins(m0: Mem, p0: Places, source: nat, dest: nat, i: nat, n: nat)
    requires Trees(m0, p0) && CanHang(m0, p0, dest, i, n, n)
    requires p0[dest].owner != source && Root(p0, source)
    requires PinsMatch(m0, p0, source, p0[dest].owner)
    ensures PinsMatch(Hang(m0, dest, i, n, n), p0[n := Child(p0, dest, i)], source, p0[dest].owner)
  {
    var m1, p1 := Hang(m0, dest, i, n, n), p0[n := Child(p0, dest, i)];
    forall f, j: nat | Owned(p1, f, p0[dest].owner) && p1[f].level > 1 && Frame(m1, f) && j < ENTRIES
      ensures PinOk(m1, p1, f, j, source)
    {
      assert TableOk(m0, p0, source);
      if f == n {
        assert m1[n] == ZeroFrame();
      } else {
        assert TableOk(m0, p0, f);
        assert Owned(p0, f, p0[dest].owner);
        assert PinOk(m0, p0, f, j, source);
      }
    }
  }

  /** Setting flags on a table entry of the copy. */
  lemma Reflag(m0: Mem, p0: Places, src: nat, dest: nat, level: Level, i: nat, e: nat, mode: Mode)
    requires CopyReady(m0, p0, src, dest, level) && level > 1 && i < ENTRIES && Frame(m0, dest)
    requires m0[dest][i] != 0 && e != 0 && Strip(e) == Strip(m0[dest][i]) && (Pinned(e) <==> Pinned(m0[dest][i]))
    ensures CopiedRange(m0, p0, Put(m0, dest, i, e), p0, src, dest, level, i + 1, i + 1, mode)
    ensures CopyReady(Put(m0, dest, i, e), p0, src, dest, level)
  {
    var m1 := Put(m0, dest, i, e);
    OneEntryWithin(m0, p0, m1, dest, i);
    forall pn: Page | Prefix(level, pn) == p0[dest].prefix
      ensures CopiedAt(m0, m1, p0, src, dest, level, i + 1, i + 1, mode, pn)
    {
      ReflagLeaf(m0, p0, dest, i, e, dest, level, pn);
    }
    ReflagTrees(m0, p0, dest, i, e);
    ReflagPins(m0, p0, p0[src].owner, dest, i, e);
    ReadyKept(m0, p0, m1, p0, src, dest, level, i + 1, i + 1, mode);
  }

  lemma {:induction false} ReflagLeaf(m0: Mem, p0: Places, dest: nat, i: nat, e: nat, f: nat, level: Level, pn: Page)
    requires Trees(m0, p0) && dest in p0 && p0[dest].level > 1 && i < ENTRIES && Frame(m0, dest)
    requires OnWay(p0, f, level, pn)
    requires m0[dest][i] != 0 && e != 0 && Strip(e) == Strip(m0[dest][i])
    ensures Leaf(Put(m0, dest, i, e), f, level, pn) == Leaf(m0, f, level, pn)
    decreases level
  {
    assert TableOk(m0, p0, f);
    if level > 1 && Entry(m0, f, level, pn) != 0 {
      Descend(m0, p0, f, level, pn);
      ReflagLeaf(m0, p0, dest, i, e, Strip(Entry(m0, f, level, pn)), level - 1, pn);
    }
  }

  lemma ReflagTrees(m0: Mem, p0: Places, dest: nat, i: nat, e: nat)
    requires Trees(m0, p0) && dest in p0 && p0[dest].level > 1 && i < ENTRIES && Frame(m0, dest)
    requires m0[dest][i] != 0 && e != 0 && Strip(e) == Strip(m0[dest][i]) && (Pinned(e) <==> Pinned(m0[dest][i]))
    ensures Trees(Put(m0, dest, i, e), p0)
  {
    var m1 := Put(m0, dest, i, e);
    forall f | f in p0
      ensures TableOk(m1, p0, f)
    {
      assert TableOk(m0, p0, f);
      if p0[f].level < 4 { assert TableOk(m0, p0, p0[f].parent); }
      forall j: nat | j < ENTRIES
        ensures Below(m1, p0, f, j)
      {
        assert Below(m0, p0, f, j);
      }
    }
  }

  lemma ReflagPins(m0: Mem, p0: Places, source: nat, dest: nat, i: nat, e: nat)
    requires Trees(m0, p0) && dest in p0 && i < ENTRIES && Frame(m0, dest) && (Pinned(e) <==> Pinned(m0[dest][i]))
    requires p0[dest].owner != source && Root(p0, source)
    requires PinsMatch(m0, p0, source, p0[dest].owner)
    ensures PinsMatch(Put(m0, dest, i, e), p0, source, p0[dest].owner)
  {
    var m1 := Put(m0, dest, i, e);
    forall f, j: nat | Owned(p0, f, p0[dest].owner) && p0[f].level > 1 && Frame(m1, f) && j < ENTRIES
      ensures PinOk(m1, p0, f, j, source)
    {
      assert TableOk(m0, p0, source);
      assert TableOk(m0, p0, f);
      assert PinOk(m0, p0, f, j, source);
    }
  }

  // ---------------------------------------------------------------- from a child table to its parent

  /** The children of entry `i` of both tables, on the way to the same pages. */
  ghost predicate Children(mem: Mem, place: Places, src: nat, dest: nat, level: Level, i: nat)
  {
    && CopyReady(mem, place, src, dest, level) && level > 1 && i < ENTRIES
    && Frame(mem, src) && mem[src][i] != 0 && !Pinned(mem[src][i])
    && Frame(mem, dest) && mem[dest][i] != 0
  }

  lemma ChildrenReady(mem: Mem, place: Places, src: nat, dest: nat, level: Level, i: nat)
    requires Children(mem, place, src, dest, level, i)
    ensures !Pinned(mem[dest][i])
    ensures CopyReady(mem, place, Strip(mem[src][i]), Strip(mem[dest][i]), level - 1)
    ensures place[Strip(mem[dest][i])].prefix == place[dest].prefix * ENTRIES + i
    ensures place[Strip(mem[dest][i])].owner == place[dest].owner
    ensures place[Strip(mem[src][i])].owner == place[src].owner
    ensures place[Strip(mem[dest][i])].parent == dest
  {
    assert TableOk(mem, place, src);
    assert TableOk(mem, place, dest);
    assert Below(mem, place, src, i);
    assert Below(mem, place, dest, i);
    assert Owned(place, dest, place[dest].owner);
    assert PinOk(mem, place, dest, i, place[src].owner);
  }

  lemma LiftAt(m0: Mem, p0: Places, m1: Mem, p1: Places, src: nat, dest: nat, level: Level, i: nat, mode: Mode, pn: Page)
    requires Children(m0, p0, src, dest, level, i) && Prefix(level, pn) == p0[dest].prefix
    requires CopyReady(m0, p0, Strip(m0[src][i]), Strip(m0[dest][i]), level - 1)
    requires CopiedRange(m0, p0, m1, p1, Strip(m0[src][i]), Strip(m0[dest][i]), level - 1, 0, ENTRIES, mode)
    ensures CopiedAt(m0, m1, p1, src, dest, level, i, i + 1, mode, pn)
  {
    var s, d := Strip(m0[src][i]), Strip(m0[dest][i]);
    ChildrenReady(m0, p0, src, dest, level, i);
    Decompose(level, pn);
    assert TableOk(m0, p0, dest);
    assert !Within(p0, dest, p0[d].owner, level - 1, p0[d].prefix);
    assert m1[dest] == m0[dest];
    if Idx(level, pn) == i {
      assert CopiedAt(m0, m1, p1, s, d, level - 1, 0, ENTRIES, mode, pn);
    } else {
      LeafOutside(m0, p0, m1, p0[d].owner, level - 1, p0[d].prefix, dest, level, pn);
    }
  }

  lemma Lift(m0: Mem, p0: Places, m1: Mem, p1: Places, src: nat, dest: nat, level: Level, i: nat, mode: Mode)
    requires Children(m0, p0, src, dest, level, i)
    requires CopyReady(m0, p0, Strip(m0[src][i]), Strip(m0[dest][i]), level - 1)
    requires CopiedRange(m0, p0, m1, p1, Strip(m0[src][i]), Strip(m0[dest][i]), level - 1, 0, ENTRIES, mode)
    ensures CopiedRange(m0, p0, m1, p1, src, dest, level, i, i + 1, mode)
  {
    var s, d := Strip(m0[src][i]), Strip(m0[dest][i]);
    ChildrenReady(m0, p0, src, dest, level, i);
    var prefix := p0[dest].prefix;
    forall pn: Page | Prefix(level, pn) == prefix
      ensures CopiedAt(m0, m1, p1, src, dest, level, i, i + 1, mode, pn)
    {
      LiftAt(m0, p0, m1, p1, src, dest, level, i, mode, pn);
    }
    forall pn: Page, pn': Page | Prefix(level, pn) == prefix == Prefix(level, pn')
      ensures ApartAt(m0, m1, src, dest, level, i, i + 1, mode, pn, pn')
    {
      LiftApart(m0, p0, m1, p1, src, dest, level, i, mode, pn, pn');
    }
    forall f | f in m0
      ensures f in m1 && (m1[f] == m0[f] || Within(p0, f, p0[dest].owner, level, prefix))
    {
      if m1[f] != m0[f] { WithinChild(p0, f, p0[dest].owner, level, prefix, i); }
    }
    forall f | f in m1 && f !in m0
      ensures Accounted(m0, m1, p1, src, dest, level, i, i + 1, mode, p0[dest].owner, prefix, f)
    {
      LiftFrame(m0, p0, m1, p1, src, dest, level, i, mode, f);
    }
  }

  lemma LiftFrame(m0: Mem, p0: Places, m1: Mem, p1: Places, src: nat, dest: nat, level: Level, i: nat, mode: Mode, f: nat)
    requires Children(m0, p0, src, dest, level, i) && f in m1 && f !in m0
    requires CopyReady(m0, p0, Strip(m0[src][i]), Strip(m0[dest][i]), level - 1)
    requires CopiedRange(m0, p0, m1, p1, Strip(m0[src][i]), Strip(m0[dest][i]), level - 1, 0, ENTRIES, mode)
    ensures Accounted(m0, m1, p1, src, dest, level, i, i + 1, mode, p0[dest].owner, p0[dest].prefix, f)
  {
    var s, d := Strip(m0[src][i]), Strip(m0[dest][i]);
    ChildrenReady(m0, p0, src, dest, level, i);
    assert Accounted(m0, m1, p1, s, d, level - 1, 0, ENTRIES, mode, p0[d].owner, p0[d].prefix, f);
    if !Owned(p1, f, p0[d].owner) {
      var pn: Page :| Prefix(level - 1, pn) == p0[d].prefix && CopyIs(m0, m1, s, d, level - 1, 0, ENTRIES, mode, pn, f);
      DestKept(m0, p0, m1, p1, src, dest, level, i, mode);
      Decompose(level, pn);
      EntryUnique(Prefix(level, pn), p0[dest].prefix, Idx(level, pn), i);
      assert CopyIs(m0, m1, src, dest, level, i, i + 1, mode, pn, f);
    }
  }

  /** A number has one quotient and one remainder by the number of entries. */
  lemma EntryUnique(p: nat, q: nat, i: nat, j: nat)
    requires p * ENTRIES + i == q * ENTRIES + j && i < ENTRIES && j < ENTRIES
    ensures p == q && i == j
  {
  }

  lemma LiftApart(m0: Mem, p0: Places, m1: Mem, p1: Places, src: nat, dest: nat, level: Level, i: nat, mode: Mode, pn: Page, pn': Page)
    requires Children(m0, p0, src, dest, level, i) && Prefix(level, pn) == p0[dest].prefix == Prefix(level, pn')
    requires CopyReady(m0, p0, Strip(m0[src][i]), Strip(m0[dest][i]), level - 1)
    requires CopiedRange(m0, p0, m1, p1, Strip(m0[src][i]), Strip(m0[dest][i]), level - 1, 0, ENTRIES, mode)
    ensures ApartAt(m0, m1, src, dest, level, i, i + 1, mode, pn, pn')
  {
    var s, d := Strip(m0[src][i]), Strip(m0[dest][i]);
    ChildrenReady(m0, p0, src, dest, level, i);
    Decompose(level, pn);
    Decompose(level, pn');
    assert TableOk(m0, p0, dest);
    assert !Within(p0, dest, p0[d].owner, level - 1, p0[d].prefix);
    assert m1[dest] == m0[dest];
    if InRange(level, pn, i, i + 1) && InRange(level, pn', i, i + 1) {
      assert ApartAt(m0, m1, s, d, level - 1, 0, ENTRIES, mode, pn, pn');
    }
  }

  // ---------------------------------------------------------------- open tables

  /** A table entry that is not open is one that was there. */
  predicate NoneClosed(m0: Mem, m1: Mem, p1: Places, f: nat, i: nat)
    requires f in p1 && Frame(m1, f) && i < ENTRIES
  {
    p1[f].level > 1 && m1[f][i] != 0 && !Pinned(m1[f][i]) && !Open(m1[f][i]) ==> Frame(m0, f) && m1[f][i] == m0[f][i]
  }

  /** The same, save for entry `j` of table `t`. */
  ghost predicate OpensBut(m0: Mem, m1: Mem, p1: Places, owner: nat, t: nat, j: nat)
  {
    forall f, i: nat {:trigger NoneClosed(m0, m1, p1, f, i)} |
      Owned(p1, f, owner) && Frame(m1, f) && i < ENTRIES && !(f == t && i == j) :: NoneClosed(m0, m1, p1, f, i)
  }

  /** Every table entry of the space that is new or changed is open. */
  ghost predicate OpensOnly(m0: Mem, m1: Mem, p1: Places, owner: nat)
  {
    forall f, i: nat {:trigger NoneClosed(m0, m1, p1, f, i)} |
      Owned(p1, f, owner) && Frame(m1, f) && i < ENTRIES :: NoneClosed(m0, m1, p1, f, i)
  }

  lemma NothingOpens(m0: Mem, p0: Places, owner: nat)
    ensures OpensOnly(m0, m0, p0, owner)
  {
  }

  /** Writing a leaf touches no table entry. */
  lemma PageOpens(m0: Mem, p0: Places, m1: Mem, dest: nat, i: nat, owner: nat)
    requires Trees(m0, p0) && OneEntry(m0, m1, dest, i) && dest in p0 && p0[dest].level == 1
    ensures OpensOnly(m0, m1, p0, owner)
  {
    forall f, j: nat | Owned(p0, f, owner) && Frame(m1, f) && j < ENTRIES
      ensures NoneClosed(m0, m1, p0, f, j)
    {
      assert TableOk(m0, p0, f);
    }
  }

  lemma FillOpens(m0: Mem, p0: Places, dest: nat, i: nat, n: nat, owner: nat)
    requires Trees(m0, p0) && CanHang(m0, p0, dest, i, n, n)
    ensures OpensBut(m0, Hang(m0, dest, i, n, n), p0[n := Child(p0, dest, i)], owner, dest, i)
  {
    var m1, p1 := Hang(m0, dest, i, n, n), p0[n := Child(p0, dest, i)];
    forall f, j: nat | Owned(p1, f, owner) && Frame(m1, f) && j < ENTRIES && !(f == dest && j == i)
      ensures NoneClosed(m0, m1, p1, f, j)
    {
      if f == n { assert m1[n] == ZeroFrame(); } else { assert TableOk(m0, p0, f); }
    }
  }

  lemma OpensTwice(m0: Mem, m1: Mem, p1: Places, m2: Mem, p2: Places, owner: nat)
    requires OpensOnly(m0, m1, p1, owner) && OpensOnly(m1, m2, p2, owner) && NewTables(m1, p1, p2, owner)
    ensures OpensOnly(m0, m2, p2, owner)
  {
    forall f, i: nat | Owned(p2, f, owner) && Frame(m2, f) && i < ENTRIES
      ensures NoneClosed(m0, m2, p2, f, i)
    {
      assert NoneClosed(m1, m2, p2, f, i);
      if f in p1 && Frame(m1, f) { assert Owned(p1, f, owner) && NoneClosed(m0, m1, p1, f, i); }
    }
  }

  /** A table made or found, filled below and then opened. */
  lemma TableOpens(m0: Mem, m1: Mem, p1: Places, m2: Mem, p2: Places, owner: nat, dest: nat, i: nat, e: nat)
    requires OpensBut(m0, m1, p1, owner, dest, i) && OpensOnly(m1, m2, p2, owner) && NewTables(m1, p1, p2, owner)
    requires Frame(m2, dest) && i < ENTRIES && Open(e)
    ensures OpensOnly(m0, Put(m2, dest, i, e), p2, owner)
  {
    var m3 := Put(m2, dest, i, e);
    forall f, j: nat | Owned(p2, f, owner) && Frame(m3, f) && j < ENTRIES
      ensures NoneClosed(m0, m3, p2, f, j)
    {
      if !(f == dest && j == i) {
        assert NoneClosed(m1, m2, p2, f, j);
        if f in p1 && Frame(m1, f) { assert Owned(p1, f, owner) && NoneClosed(m0, m1, p1, f, j); }
      }
    }
  }

  /** A space that was open, or new, is open after a copy. */
  lemma OpenAfterCopy(m0: Mem, p0: Places, m1: Mem, p1: Places, owner: nat)
    requires Trees(m0, p0) && Opened(m0, p0, owner) && OpensOnly(m0, m1, p1, owner) && NewTables(m0, p0, p1, owner)
    ensures Opened(m1, p1, owner)
  {
    forall f, i: nat | f in p1 && p1[f].owner == owner && Frame(m1, f) && i < ENTRIES
      ensures OpenAt(m1, p1, f, i)
    {
      assert Owned(p1, f, owner) && NoneClosed(m0, m1, p1, f, i);
      if f in p0 && Frame(m0, f) { assert OpenAt(m0, p0, f, i); }
    }
  }

  // ---------------------------------------------------------------- copy_pages

  /** The first address under entry `prefix` of the level above `level`. */
  function Base(level: int, prefix: nat): nat
    requires 0 <= level <= 4
  {
    prefix * (Span(level) * PAGE)
  }

  lemma {:induction false} Pow2Add(a: nat, b: nat)
    ensures Pow2(a + b) == Pow2(a) * Pow2(b)
  {
    if a > 0 { Pow2Add(a - 1, b); }
  }

  lemma SpanPow2(level: int)
    requires 0 <= level <= 4
    ensures Span(level) * PAGE == Pow2(12 + 9 * level)
  {
    Powers();
    assert Pow2(9) == 512;
    Pow2Add(9, 12);
    Pow2Add(9, 21);
    Pow2Add(9, 30);
    Pow2Add(9, 39);
  }

  /** get_vaddr: the or of an index into an address is the address of the entry. */
  function EntryAddress(level: Level, vaddr: nat, i: nat): nat
  {
    Or(vaddr, i * (Span(level - 1) * PAGE))
  }

  lemma SpanOf(prefix: nat, i: nat, unit: nat)
    requires i < ENTRIES && unit > 0
    ensures i * unit < ENTRIES * unit
    ensures (prefix * ENTRIES + i) * unit == ENTRIES * unit * prefix + i * unit
  {
    MulLe(unit, i + 1, ENTRIES);
    assert prefix * ENTRIES * unit == ENTRIES * unit * prefix;
  }

  lemma OrEntry(prefix: nat, i: nat, unit: nat, k: nat)
    requires i < ENTRIES && unit > 0 && ENTRIES * unit == Pow2(k)
    ensures Or(prefix * (ENTRIES * unit), i * unit) == (prefix * ENTRIES + i) * unit
  {
    SpanOf(prefix, i, unit);
    OrSeparate(prefix, i * unit, k);
  }

  lemma SpanStep(level: Level)
    ensures Span(level) * PAGE == ENTRIES * (Span(level - 1) * PAGE)
  {
  }

  lemma EntryAddressIs(level: Level, prefix: nat, i: nat)
    requires i < ENTRIES
    ensures EntryAddress(level, Base(level, prefix), i) == Base(level - 1, prefix * ENTRIES + i)
  {
    SpanPow2(level);
    SpanStep(level);
    OrEntry(prefix, i, Span(level - 1) * PAGE, 12 + 9 * level);
  }

  /** Every entry of `dest` but entry `i` is as it was. */
  ghost predicate OtherEntries(m0: Mem, m1: Mem, dest: nat, i: nat)
  {
    Frame(m0, dest) && Frame(m1, dest) && forall j | 0 <= j < ENTRIES && j != i :: m1[dest][j] == m0[dest][j]
  }

  /** The branch of copy_pages for a leaf entry. */
  method CopyPage(m: Memory, src: nat, dest: nat, i: nat, caddr: nat, mode: Mode)
    requires CopyReady(m.mem, m.place, src, dest, 1) && m.supply.Endless? && i < ENTRIES
    requires Frame(m.mem, src) && m.mem[src][i] != 0 && !Pinned(m.mem[src][i])
    requires caddr == (m.place[dest].prefix * ENTRIES + i) * PAGE
    modifies m`mem, m`supply
    ensures m.supply.Endless?
    ensures CopyReady(m.mem, m.place, src, dest, 1)
    ensures CopiedRange(old(m.mem), m.place, m.mem, m.place, src, dest, 1, i, i + 1, mode)
    ensures OtherEntries(old(m.mem), m.mem, dest, i) && OpensOnly(old(m.mem), m.mem, m.place, m.place[dest].owner)
  {
    ghost var m0, place := m.mem, m.place;
    assert TableOk(m0, place, dest);
    assert LeafBacked(m0, place, src, i) by { assert Owned(place, src, place[src].owner); }
    var e := m.mem[src][i];
    if caddr < STACK_BOT {
      if mode.copyAll {
        CopyFrame(m, dest, i, Strip(e));
      } else {
        SharedEntry(e);
        m.mem := Put(m.mem, dest, i, AddFlags(Strip(e), PRESENT + USER));
      }
    } else if !mode.ignoreStack {
      CopyFrame(m, dest, i, Strip(e));
    }
    assert OneEntry(m0, m.mem, dest, i);
    PageOpens(m0, place, m.mem, dest, i, place[dest].owner);
    WritePage(m0, place, m.mem, src, dest, i, mode);
  }

  /** A zeroed frame, filled from `source` and mapped writable at entry `i` of `dest`. */
  method CopyFrame(m: Memory, dest: nat, i: nat, source: nat)
    requires Trees(m.mem, m.place) && m.supply.Endless? && i < ENTRIES
    requires dest in m.place && source in m.mem && source !in m.place
    modifies m`mem, m`supply
    ensures m.supply.Endless?
    ensures OneEntry(old(m.mem), m.mem, dest, i)
    ensures var d := m.mem[dest][i];
            && d == Strip(d) + PRESENT + WRITE + USER
            && Strip(d) !in old(m.mem) && Strip(d) !in m.place
            && Strip(d) in m.mem && m.mem[Strip(d)] == old(m.mem)[source]
            && forall f | f in m.mem && f !in old(m.mem) :: f == Strip(d)
  {
    assert TableOk(m.mem, m.place, dest);
    var f := m.Calloc();
    Unplaced(old(m.mem), m.place, f);
    m.mem := Put(m.mem, dest, i, f);
    m.mem := m.mem[f := m.mem[source]];
    var d := AddFlags(f, PRESENT + WRITE + USER);
    m.mem := Put(m.mem, dest, i, d);
  }

  /** Tables of two spaces are two tables. */
  lemma NotShared(mem: Mem, place: Places, src: nat, dest: nat, level: Level, i: nat)
    requires CopyReady(mem, place, src, dest, level) && level > 1 && i < ENTRIES
    requires Frame(mem, src) && mem[src][i] != 0 && !Pinned(mem[src][i])
    ensures Frame(mem, dest) && mem[dest][i] != mem[src][i]
  {
    assert TableOk(mem, place, src);
    assert TableOk(mem, place, dest);
    assert Below(mem, place, src, i);
    assert Below(mem, place, dest, i);
  }

  /** A table for entry `i` of the copy, made unless it has one of its own. */
  method FillEntry(m: Memory, src: nat, dest: nat, level: Level, i: nat, mode: Mode)
    requires CopyReady(m.mem, m.place, src, dest, level) && m.supply.Endless? && level > 1 && i < ENTRIES
    requires Frame(m.mem, src) && m.mem[src][i] != 0 && !Pinned(m.mem[src][i])
    modifies m`mem, m`supply, m`place
    ensures m.supply.Endless?
    ensures Children(m.mem, m.place, src, dest, level, i)
    ensures m.place[dest] == old(m.place)[dest]
    ensures CopiedRange(old(m.mem), old(m.place), m.mem, m.place, src, dest, level, i, i, mode)
    ensures OtherEntries(old(m.mem), m.mem, dest, i)
    ensures OpensBut(old(m.mem), m.mem, m.place, m.place[dest].owner, dest, i)
  {
    ghost var m0 := m.mem;
    NotShared(m.mem, m.place, src, dest, level, i);
    if m.mem[dest][i] == 0 || m.mem[dest][i] == m.mem[src][i] {
      var n := m.Calloc();
      Unplaced(m0, m.place, n);
      m.mem := Put(m.mem, dest, i, n);
      HangStep(m0, m.place, src, dest, level, i, n, mode);
      FillOpens(m0, m.place, dest, i, n, m.place[dest].owner);
      m.place := m.place[n := Child(m.place, dest, i)];
    }
  }

  /** What is copied below the children of entry `i` leaves `dest` itself alone. */
  lemma DestKept(m1: Mem, p1: Places, m2: Mem, p2: Places, src: nat, dest: nat, level: Level, i: nat, mode: Mode)
    requires Children(m1, p1, src, dest, level, i)
    requires CopyReady(m1, p1, Strip(m1[src][i]), Strip(m1[dest][i]), level - 1)
    requires CopiedRange(m1, p1, m2, p2, Strip(m1[src][i]), Strip(m1[dest][i]), level - 1, 0, ENTRIES, mode)
    ensures dest in m2 && m2[dest] == m1[dest]
  {
    ChildrenReady(m1, p1, src, dest, level, i);
    var d := Strip(m1[dest][i]);
    assert !Within(p1, dest, p1[d].owner, level - 1, p1[d].prefix);
  }

  /** The branch of copy_pages for a table entry. */
  method CopyTable(m: Memory, src: nat, dest: nat, level: Level, i: nat, caddr: nat, mode: Mode)
    requires CopyReady(m.mem, m.place, src, dest, level) && m.supply.Endless? && level > 1 && i < ENTRIES
    requires Frame(m.mem, src) && m.mem[src][i] != 0 && !Pinned(m.mem[src][i])
    requires caddr == Base(level - 1, m.place[dest].prefix * ENTRIES + i)
    modifies m`mem, m`supply, m`place
    ensures m.supply.Endless?
    ensures CopyReady(m.mem, m.place, src, dest, level)
    ensures CopiedRange(old(m.mem), old(m.place), m.mem, m.place, src, dest, level, i, i + 1, mode)
    ensures OtherEntries(old(m.mem), m.mem, dest, i) && OpensOnly(old(m.mem), m.mem, m.place, old(m.place)[dest].owner)
    decreases level, 0
  {
    ghost var m0, p0 := m.mem, m.place;
    FillEntry(m, src, dest, level, i, mode);
    ghost var m1, p1 := m.mem, m.place;
    ChildrenReady(m1, p1, src, dest, level, i);
    CopyPages(m, Strip(m.mem[src][i]), Strip(m.mem[dest][i]), level - 1, caddr, mode);
    ghost var m2, p2 := m.mem, m.place;
    Lift(m1, p1, m2, p2, src, dest, level, i, mode);
    ReadyKept(m1, p1, m2, p2, src, dest, level, i, i + 1, mode);
    Compose(m0, p0, m1, p1, m2, p2, src, dest, level, i, i, i + 1, mode);
    DestKept(m1, p1, m2, p2, src, dest, level, i, mode);
    var e := AddFlags(m.mem[dest][i], PRESENT + WRITE + USER);
    TableFlags(m.mem[dest][i]);
    TableOpens(m0, m1, p1, m2, p2, p0[dest].owner, dest, i, e);
    m.mem := Put(m.mem, dest, i, e);
    Reflag(m2, p2, src, dest, level, i, e, mode);
    Compose(m0, p0, m2, p2, m.mem, m.place, src, dest, level, i, i + 1, i + 1, mode);
  }

  /** The entries not yet reached, and those the source has nothing private for, are as they were. */
  ghost predicate SkippedKept(m0: Mem, m1: Mem, src: nat, dest: nat, left: nat)
  {
    && Frame(m0, src) && Frame(m0, dest) && Frame(m1, dest)
    && forall j | 0 <= j < ENTRIES && (ENTRIES - left <= j || Own(m0[src][j]) == 0) :: m1[dest][j] == m0[dest][j]
  }

  lemma SkippedStep(m0: Mem, m: Mem, m1: Mem, src: nat, dest: nat, i: nat)
    requires i < ENTRIES && SkippedKept(m0, m, src, dest, ENTRIES - i)
    requires OtherEntries(m, m1, dest, i) && (Own(m0[src][i]) == 0 ==> m1 == m)
    ensures SkippedKept(m0, m1, src, dest, ENTRIES - i - 1)
  {
  }

  lemma TableKept(m0: Mem, p0: Places, m1: Mem, src: nat, dest: nat, level: Level)
    requires CopyReady(m0, p0, src, dest, level)
    requires OnlyWithin(m0, p0, m1, p0[dest].owner, level, p0[dest].prefix)
    ensures Frame(m0, src) && Frame(m1, src) && m1[src] == m0[src]
  {
    assert TableOk(m0, p0, src);
  }

  /** The first `i` entries are done. */
  ghost predicate Progress(m0: Mem, p0: Places, m: Mem, p: Places, src: nat, dest: nat, level: Level, i: nat, mode: Mode)
  {
    && CopyReady(m0, p0, src, dest, level) && CopyReady(m, p, src, dest, level) && i <= ENTRIES
    && p[dest].prefix == p0[dest].prefix
    && CopiedRange(m0, p0, m, p, src, dest, level, 0, i, mode)
    && SkippedKept(m0, m, src, dest, ENTRIES - i)
  }

  lemma ProgressStart(m0: Mem, p0: Places, src: nat, dest: nat, level: Level, mode: Mode)
    requires CopyReady(m0, p0, src, dest, level)
    ensures Progress(m0, p0, m0, p0, src, dest, level, 0, mode)
  {
    assert TableOk(m0, p0, src);
    assert TableOk(m0, p0, dest);
    Nothing(m0, p0, src, dest, level, mode);
  }

  lemma ProgressStep(m0: Mem, p0: Places, m: Mem, p: Places, m1: Mem, p1: Places, src: nat, dest: nat, level: Level, i: nat, mode: Mode)
    requires i < ENTRIES && Progress(m0, p0, m, p, src, dest, level, i, mode)
    requires CopyReady(m1, p1, src, dest, level) && CopiedRange(m, p, m1, p1, src, dest, level, i, i + 1, mode)
    requires OtherEntries(m, m1, dest, i) && (Frame(m, src) && Own(m[src][i]) == 0 ==> m1 == m)
    ensures Progress(m0, p0, m1, p1, src, dest, level, i + 1, mode)
  {
    TableKept(m0, p0, m, src, dest, level);
    SkippedStep(m0, m, m1, src, dest, i);
    Compose(m0, p0, m, p, m1, p1, src, dest, level, 0, i, i + 1, mode);
  }

  /** One turn of copy_pages' loop. */
  method CopyEntry(m: Memory, src: nat, dest: nat, level: Level, i: nat, vaddr: nat, mode: Mode)
    requires CopyReady(m.mem, m.place, src, dest, level) && m.supply.Endless? && i < ENTRIES
    requires vaddr == Base(level, m.place[dest].prefix) && Frame(m.mem, src)
    modifies m`mem, m`supply, m`place
    ensures m.supply.Endless?
    ensures CopyReady(m.mem, m.place, src, dest, level)
    ensures CopiedRange(old(m.mem), old(m.place), m.mem, m.place, src, dest, level, i, i + 1, mode)
    ensures OtherEntries(old(m.mem), m.mem, dest, i) && OpensOnly(old(m.mem), m.mem, m.place, old(m.place)[dest].owner)
    ensures Own(old(m.mem)[src][i]) == 0 ==> m.mem == old(m.mem)
    decreases level, 1
  {
    assert TableOk(m.mem, m.place, dest);
    var e := m.mem[src][i];
    if e != 0 && !Pinned(e) {
      var caddr := EntryAddress(level, vaddr, i);
      EntryAddressIs(level, m.place[dest].prefix, i);
      if level > 1 {
        CopyTable(m, src, dest, level, i, caddr, mode);
      } else {
        CopyPage(m, src, dest, i, caddr, mode);
      }
    } else {
      Skip(m.mem, m.place, src, dest, level, i, mode);
      NothingOpens(m.mem, m.place, m.place[dest].owner);
    }
  }

  /** copy_pages: every private page below `src` copied or shared into `dest`. */
  method CopyPages(m: Memory, src: nat, dest: nat, level: Level, vaddr: nat, mode: Mode)
    requires CopyReady(m.mem, m.place, src, dest, level) && m.supply.Endless?
    requires vaddr == Base(level, m.place[dest].prefix)
    modifies m`mem, m`supply, m`place
    ensures m.supply.Endless?
    ensures CopyReady(m.mem, m.place, src, dest, level)
    ensures CopiedRange(old(m.mem), old(m.place), m.mem, m.place, src, dest, level, 0, ENTRIES, mode)
    ensures SkippedKept(old(m.mem), m.mem, src, dest, 0) && OpensOnly(old(m.mem), m.mem, m.place, old(m.place)[dest].owner)
    decreases level, 2
  {
    ghost var m0, p0 := m.mem, m.place;
    ProgressStart(m0, p0, src, dest, level, mode);
    NothingOpens(m0, p0, p0[dest].owner);
    var i := 0;
    while i < ENTRIES
      invariant 0 <= i <= ENTRIES && m.supply.Endless?
      invariant Progress(m0, p0, m.mem, m.place, src, dest, level, i, mode)
      invariant OpensOnly(m0, m.mem, m.place, p0[dest].owner)
    {
      ghost var m1, p1 := m.mem, m.place;
      TableKept(m0, p0, m1, src, dest, level);
      CopyEntry(m, src, dest, level, i, vaddr, mode);
      OpensTwice(m0, m1, p1, m.mem, m.place, p0[dest].owner);
      ProgressStep(m0, p0, m1, p1, m.mem, m.place, src, dest, level, i, mode);
      i := i + 1;
    }
  }

  // ---------------------------------------------------------------- fork

  /** After sharing: the parent's frame, read-only, below the stack; a fresh equal frame in the stack. */
  ghost predicate SharedPage(m0: Mem, m1: Mem, p1: Places, parent: nat, child: nat, pn: Page)
  {
    var e, d := OwnLeaf(m0, parent, 4, pn), Leaf(m1, child, 4, pn);
    if e == 0 then d == Leaf(m0, child, 4, pn)
    else if BelowStack(pn) then d == Strip(e) + PRESENT + USER
    else FreshCopy(m0, m1, p1, e, d)
  }

  /** After duplicating: a fresh equal frame below the stack; the stack as it was. */
  ghost predicate DuplicatedPage(m0: Mem, m1: Mem, p1: Places, parent: nat, child: nat, pn: Page)
  {
    var e, d := OwnLeaf(m0, parent, 4, pn), Leaf(m1, child, 4, pn);
    if e != 0 && BelowStack(pn) then FreshCopy(m0, m1, p1, e, d) else d == Leaf(m0, child, 4, pn)
  }

  /** Nothing of the parent, nor any data frame, has changed. */
  ghost predicate ParentKept(m0: Mem, p0: Places, m1: Mem, parent: nat, child: nat)
  {
    && (forall pn: Page {:trigger OwnLeaf(m1, parent, 4, pn)} :: OwnLeaf(m1, parent, 4, pn) == OwnLeaf(m0, parent, 4, pn))
    && (forall f | f in m0 && !Owned(p0, f, child) :: f in m1 && m1[f] == m0[f])
  }

  lemma ReadOnly(e: nat)
    ensures Strip(Strip(e) + PRESENT + USER) == Strip(e) && LeafAccess(Strip(e) + PRESENT + USER) == Access(Strip(e), false, true)
  {
    assert Strip(e) == PAGE * (e / PAGE);
    LowBits(Strip(e), 5);
    LowThree(Strip(e) + 5, 5);
  }

  lemma ReadWrite(d: nat)
    requires d == Strip(d) + PRESENT + WRITE + USER
    ensures LeafAccess(d) == Access(Strip(d), true, true)
  {
    assert Strip(d) == PAGE * (d / PAGE);
    LowBits(Strip(d), 7);
    LowThree(d, 7);
  }

  /** Below the root the copy has no global or shared entry. */
  lemma {:induction false} LowWay(mem: Mem, place: Places, source: nat, owner: nat, f: nat, level: Level, pn: Page)
    requires Trees(mem, place) && OnWay(place, f, level, pn) && level < 4 && Owned(place, f, owner) && PinsMatch(mem, place, source, owner)
    ensures PrivateWay(mem, f, level, pn)
    decreases level
  {
    assert TableOk(mem, place, f);
    if level > 1 && Entry(mem, f, level, pn) != 0 {
      assert PinOk(mem, place, f, Idx(level, pn), source);
      DescendOwned(mem, place, f, level, pn);
      LowWay(mem, place, source, owner, Strip(Entry(mem, f, level, pn)), level - 1, pn);
    }
  }

  /** The way to a private page of the source is private in the copy. */
  lemma CopyWay(mem: Mem, place: Places, parent: nat, child: nat, pn: Page)
    requires CopyReady(mem, place, parent, child, 4) && OwnLeaf(mem, parent, 4, pn) != 0
    ensures PrivateWay(mem, child, 4, pn)
  {
    assert TableOk(mem, place, parent);
    assert TableOk(mem, place, child);
    RootOnWay(mem, place, child, pn);
    if Entry(mem, child, 4, pn) != 0 {
      assert Owned(place, child, child);
      assert PinOk(mem, place, child, Idx(4, pn), parent);
      DescendOwned(mem, place, child, 4, pn);
      LowWay(mem, place, parent, child, Strip(Entry(mem, child, 4, pn)), 3, pn);
    }
  }

  /** What the processor finds for a page of the copy is what its leaf entry says. */
  lemma CopyAccess(mem: Mem, place: Places, parent: nat, child: nat, pn: Page)
    requires CopyReady(mem, place, parent, child, 4) && OwnLeaf(mem, parent, 4, pn) != 0 && Opened(mem, place, child)
    ensures Mmu(mem, child, 4, pn) == LeafAccess(Leaf(mem, child, 4, pn))
  {
    CopyWay(mem, place, parent, child, pn);
    assert TableOk(mem, place, child);
    RootOnWay(mem, place, child, pn);
    MmuIsLeaf(mem, place, child, 4, pn);
  }

  lemma CopiedParent(m0: Mem, p0: Places, m1: Mem, p1: Places, parent: nat, child: nat, mode: Mode)
    requires CopyReady(m0, p0, parent, child, 4)
    requires CopiedRange(m0, p0, m1, p1, parent, child, 4, 0, ENTRIES, mode)
    ensures ParentKept(m0, p0, m1, parent, child)
  {
    assert TableOk(m0, p0, child);
    assert TableOk(m0, p0, parent);
    forall pn: Page
      ensures OwnLeaf(m1, parent, 4, pn) == OwnLeaf(m0, parent, 4, pn)
    {
      Decompose(4, pn);
      SourceKept(m0, p0, m1, parent, child, 4, pn);
    }
  }

  /** Two pages the parent maps privately have two frames in the child. */
  ghost predicate TwoFrames(m0: Mem, m1: Mem, parent: nat, child: nat, pn: Page, pn': Page)
  {
    pn != pn' && OwnLeaf(m0, parent, 4, pn) != 0 && OwnLeaf(m0, parent, 4, pn') != 0 ==>
      Strip(Leaf(m1, child, 4, pn)) != Strip(Leaf(m1, child, 4, pn'))
  }

  /** Frame `f` holds the child's copy of a private stack page of the parent. */
  predicate StackCopy(m0: Mem, m1: Mem, parent: nat, child: nat, pn: Page, f: nat)
  {
    !BelowStack(pn) && OwnLeaf(m0, parent, 4, pn) != 0 && Strip(Leaf(m1, child, 4, pn)) == f
  }

  /** Frame `f` is a table of the child or such a copy. */
  ghost predicate ForkFrame(m0: Mem, m1: Mem, p1: Places, parent: nat, child: nat, f: nat)
  {
    Owned(p1, f, child) || exists pn: Page :: StackCopy(m0, m1, parent, child, pn, f)
  }

  /** share_pages on two address spaces. */
  method SharePages(m: Memory, parent: nat, child: nat)
    requires CopyReady(m.mem, m.place, parent, child, 4) && m.supply.Endless?
    modifies m`mem, m`supply, m`place
    ensures m.supply.Endless? && CopyReady(m.mem, m.place, parent, child, 4)
    ensures NewTables(old(m.mem), old(m.place), m.place, child)
    ensures ParentKept(old(m.mem), old(m.place), m.mem, parent, child)
    ensures forall pn: Page {:trigger SharedPage(old(m.mem), m.mem, m.place, parent, child, pn)} ::
              SharedPage(old(m.mem), m.mem, m.place, parent, child, pn)
    ensures forall pn: Page, pn': Page {:trigger TwoFrames(old(m.mem), m.mem, parent, child, pn, pn')} ::
              !BelowStack(pn) && !BelowStack(pn') ==> TwoFrames(old(m.mem), m.mem, parent, child, pn, pn')
    ensures forall f {:trigger ForkFrame(old(m.mem), m.mem, m.place, parent, child, f)} | f in m.mem && f !in old(m.mem) ::
              ForkFrame(old(m.mem), m.mem, m.place, parent, child, f)
    ensures SkippedKept(old(m.mem), m.mem, parent, child, 0) && OpensOnly(old(m.mem), m.mem, m.place, child)
  {
    ghost var m0, p0 := m.mem, m.place;
    assert TableOk(m0, p0, child);
    CopyPages(m, parent, child, 4, 0, Mode(false, false));
    CopiedParent(m0, p0, m.mem, m.place, parent, child, Mode(false, false));
    forall f | f in m.mem && f !in m0
      ensures ForkFrame(m0, m.mem, m.place, parent, child, f)
    {
      SharedFrame(m0, m.mem, m.place, parent, child, f);
    }
    forall pn: Page
      ensures SharedPage(m0, m.mem, m.place, parent, child, pn)
    {
      Decompose(4, pn);
      assert CopiedAt(m0, m.mem, m.place, parent, child, 4, 0, ENTRIES, Mode(false, false), pn);
      ReadOnly(OwnLeaf(m0, parent, 4, pn));
    }
    forall pn: Page, pn': Page | !BelowStack(pn) && !BelowStack(pn')
      ensures TwoFrames(m0, m.mem, parent, child, pn, pn')
    {
      Decompose(4, pn);
      Decompose(4, pn');
      assert ApartAt(m0, m.mem, parent, child, 4, 0, ENTRIES, Mode(false, false), pn, pn');
    }
  }

  lemma SharedFrame(m0: Mem, m1: Mem, p1: Places, parent: nat, child: nat, f: nat)
    requires f in m1 && f !in m0 && Accounted(m0, m1, p1, parent, child, 4, 0, ENTRIES, Mode(false, false), child, 0, f)
    ensures ForkFrame(m0, m1, p1, parent, child, f)
  {
    if !Owned(p1, f, child) {
      var pn: Page :| Prefix(4, pn) == 0 && CopyIs(m0, m1, parent, child, 4, 0, ENTRIES, Mode(false, false), pn, f);
      assert StackCopy(m0, m1, parent, child, pn, f);
    }
  }

  /** duplicate_pages on two address spaces: no two pages copied share a frame. */
  method DuplicatePages(m: Memory, parent: nat, child: nat)
    requires CopyReady(m.mem, m.place, parent, child, 4) && m.supply.Endless?
    modifies m`mem, m`supply, m`place
    ensures m.supply.Endless? && CopyReady(m.mem, m.place, parent, child, 4)
    ensures NewTables(old(m.mem), old(m.place), m.place, child)
    ensures ParentKept(old(m.mem), old(m.place), m.mem, parent, child)
    ensures forall pn: Page {:trigger DuplicatedPage(old(m.mem), m.mem, m.place, parent, child, pn)} ::
              DuplicatedPage(old(m.mem), m.mem, m.place, parent, child, pn)
    ensures forall pn: Page, pn': Page {:trigger TwoFrames(old(m.mem), m.mem, parent, child, pn, pn')} ::
              BelowStack(pn) && BelowStack(pn') ==> TwoFrames(old(m.mem), m.mem, parent, child, pn, pn')
    ensures SkippedKept(old(m.mem), m.mem, parent, child, 0) && OpensOnly(old(m.mem), m.mem, m.place, child)
  {
    ghost var m0, p0 := m.mem, m.place;
    assert TableOk(m0, p0, child);
    var mode := Mode(true, true);
    CopyPages(m, parent, child, 4, 0, mode);
    CopiedParent(m0, p0, m.mem, m.place, parent, child, mode);
    forall pn: Page
      ensures DuplicatedPage(m0, m.mem, m.place, parent, child, pn)
    {
      Decompose(4, pn);
      assert CopiedAt(m0, m.mem, m.place, parent, child, 4, 0, ENTRIES, mode, pn);
    }
    forall pn: Page, pn': Page | BelowStack(pn) && BelowStack(pn')
      ensures TwoFrames(m0, m.mem, parent, child, pn, pn')
    {
      Decompose(4, pn);
      Decompose(4, pn');
      assert ApartAt(m0, m.mem, parent, child, 4, 0, ENTRIES, mode, pn, pn');
    }
  }

  const KERNEL_ENTRY: nat := 511

  /** The kernel half of the top-level table: the kernel's own entry, global so that it is never copied or freed. */
  predicate KernelHalf(mem: Mem, kernelRoot: nat, parent: nat)
  {
    && Frame(mem, kernelRoot) && Pinned(mem[kernelRoot][KERNEL_ENTRY])
    && Frame(mem, parent) && Own(mem[parent][KERNEL_ENTRY]) == 0
  }

  /** A page outside the kernel half. */
  predicate UserPage(pn: Page) { Idx(4, pn) != KERNEL_ENTRY }

  /** A new, empty space beside the parent's. */
  lemma NewSpaceReady(m0: Mem, p0: Places, parent: nat, child: nat)
    requires Trees(m0, p0) && Root(p0, parent) && Backed(m0, p0, parent)
    requires child !in m0 && child > 0 && child % PAGE == 0
    ensures CopyReady(m0[child := ZeroFrame()], p0[child := Place(child, 4, 0, 0)], parent, child, 4)
  {
    var m1, p1 := m0[child := ZeroFrame()], p0[child := Place(child, 4, 0, 0)];
    NewRootTrees(m0, p0, child);
    assert TableOk(m0, p0, parent);
    forall f, i: nat | Owned(p1, f, parent) && p1[f].level == 1 && Frame(m1, f) && i < ENTRIES
      ensures LeafBacked(m1, p1, f, i)
    {
      assert Owned(p0, f, parent);
      assert TableOk(m0, p0, f);
      assert LeafBacked(m0, p0, f, i);
    }
    forall f, i: nat | Owned(p1, f, child) && p1[f].level > 1 && Frame(m1, f) && i < ENTRIES
      ensures PinOk(m1, p1, f, i, parent)
    {
      NobodyYet(m0, p0, child, f);
    }
  }

  /** A frame that is not in use owns no table. */
  lemma {:induction false} NobodyYet(m0: Mem, p0: Places, child: nat, f: nat)
    requires Trees(m0, p0) && child !in m0
    ensures !Owned(p0, f, child)
    decreases if f in p0 then 5 - p0[f].level else 0
  {
    if f in p0 {
      assert TableOk(m0, p0, f);
      if p0[f].level < 4 { NobodyYet(m0, p0, child, p0[f].parent); }
    }
  }

  /** Giving the child the kernel's half. */
  lemma InstallKernel(m0: Mem, p0: Places, kernelRoot: nat, parent: nat, child: nat)
    requires CopyReady(m0, p0, parent, child, 4) && Root(p0, kernelRoot) && KernelHalf(m0, kernelRoot, parent)
    requires Frame(m0, child) && m0[child][KERNEL_ENTRY] == 0
    ensures var m1 := Put(m0, child, KERNEL_ENTRY, m0[kernelRoot][KERNEL_ENTRY]); CopyReady(m1, p0, parent, child, 4)
  {
    var e := m0[kernelRoot][KERNEL_ENTRY];
    var m1 := Put(m0, child, KERNEL_ENTRY, e);
    assert TableOk(m0, p0, kernelRoot);
    assert TableOk(m0, p0, child);
    assert TableOk(m0, p0, parent);
    forall f | f in p0
      ensures TableOk(m1, p0, f)
    {
      InstallTable(m0, p0, kernelRoot, child, f);
    }
    forall f, i: nat | Owned(p0, f, parent) && p0[f].level == 1 && Frame(m1, f) && i < ENTRIES
      ensures LeafBacked(m1, p0, f, i)
    {
      assert TableOk(m0, p0, f);
      assert LeafBacked(m0, p0, f, i);
    }
    forall f, i: nat | Owned(p0, f, child) && p0[f].level > 1 && Frame(m1, f) && i < ENTRIES
      ensures PinOk(m1, p0, f, i, parent)
    {
      assert TableOk(m0, p0, f);
      assert PinOk(m0, p0, f, i, parent);
    }
  }

  lemma InstallTable(m0: Mem, p0: Places, kernelRoot: nat, child: nat, f: nat)
    requires Trees(m0, p0) && Root(p0, kernelRoot) && Root(p0, child) && f in p0
    requires Frame(m0, kernelRoot) && Pinned(m0[kernelRoot][KERNEL_ENTRY]) && Frame(m0, child) && m0[child][KERNEL_ENTRY] == 0
    ensures TableOk(Put(m0, child, KERNEL_ENTRY, m0[kernelRoot][KERNEL_ENTRY]), p0, f)
  {
    var m1 := Put(m0, child, KERNEL_ENTRY, m0[kernelRoot][KERNEL_ENTRY]);
    assert TableOk(m0, p0, f);
    assert TableOk(m0, p0, kernelRoot);
    assert TableOk(m0, p0, child);
    assert Below(m0, p0, kernelRoot, KERNEL_ENTRY);
    if p0[f].level < 4 { assert TableOk(m0, p0, p0[f].parent); }
    forall j: nat | j < ENTRIES
      ensures Below(m1, p0, f, j)
    {
      assert Below(m0, p0, f, j);
    }
  }

  /** A change in one table is not seen from the tables of lower levels. */
  lemma {:induction false} LeafLower(m0: Mem, p0: Places, m1: Mem, t: nat, f: nat, level: Level, pn: Page)
    requires Trees(m0, p0) && t in p0 && OnWay(p0, f, level, pn) && level < p0[t].level
    requires forall g | g in m0 && g != t :: g in m1 && m1[g] == m0[g]
    ensures Leaf(m1, f, level, pn) == Leaf(m0, f, level, pn)
    decreases level
  {
    assert TableOk(m0, p0, f);
    if level > 1 && Entry(m0, f, level, pn) != 0 {
      Descend(m0, p0, f, level, pn);
      LeafLower(m0, p0, m1, t, Strip(Entry(m0, f, level, pn)), level - 1, pn);
    }
  }

  lemma InstallLeaf(m0: Mem, p0: Places, m1: Mem, child: nat, e: nat, pn: Page)
    requires Trees(m0, p0) && Root(p0, child) && Frame(m0, child) && m1 == Put(m0, child, KERNEL_ENTRY, e) && UserPage(pn)
    ensures Leaf(m1, child, 4, pn) == Leaf(m0, child, 4, pn)
  {
    RootOnWay(m0, p0, child, pn);
    if Entry(m0, child, 4, pn) != 0 {
      Descend(m0, p0, child, 4, pn);
      LeafLower(m0, p0, m1, child, Strip(Entry(m0, child, 4, pn)), 3, pn);
    }
  }

  lemma EmptySpace(mem: Mem, root: nat, pn: Page)
    requires root in mem && mem[root] == ZeroFrame() && root != 0
    ensures Leaf(mem, root, 4, pn) == 0
  {
    ZeroLeaf(mem, root, 4, pn);
  }

  /** What fork leaves of page `pn`: nothing, the parent's frame read-only, or a copy. */
  ghost predicate ForkedPage(m0: Mem, m1: Mem, p1: Places, parent: nat, child: nat, pn: Page)
  {
    var e, d := OwnLeaf(m0, parent, 4, pn), Leaf(m1, child, 4, pn);
    if e == 0 then d == 0
    else if BelowStack(pn) then d == Strip(e) + PRESENT + USER
    else FreshCopy(m0, m1, p1, e, d)
  }

  /** What the processor finds for page `pn` after fork: the parent's frame, not writable, or a frame of its own. */
  ghost predicate ForkedAccess(m0: Mem, m1: Mem, parent: nat, child: nat, pn: Page)
  {
    var e, d := OwnLeaf(m0, parent, 4, pn), Leaf(m1, child, 4, pn);
    e != 0 ==> Mmu(m1, child, 4, pn) == if BelowStack(pn) then Access(Strip(e), false, true) else Access(Strip(d), true, true)
  }

  lemma ForkAccess(m0: Mem, m1: Mem, p1: Places, parent: nat, child: nat, pn: Page)
    requires CopyReady(m1, p1, parent, child, 4) && Opened(m1, p1, child)
    requires OwnLeaf(m1, parent, 4, pn) == OwnLeaf(m0, parent, 4, pn) && ForkedPage(m0, m1, p1, parent, child, pn)
    ensures ForkedAccess(m0, m1, parent, child, pn)
  {
    var e, d := OwnLeaf(m0, parent, 4, pn), Leaf(m1, child, 4, pn);
    if e != 0 {
      CopyAccess(m1, p1, parent, child, pn);
      if BelowStack(pn) { ReadOnly(e); } else { ReadWrite(d); }
    }
  }

  /** A forked space is open: its tables are, and the kernel's entry is global. */
  lemma ForkOpened(m0: Mem, p0: Places, m1: Mem, p1: Places, m2: Mem, p2: Places, e: nat, child: nat)
    requires Trees(m0, p0) && child !in m0 && child > 0 && child % PAGE == 0
    requires m1 == m0[child := ZeroFrame()] && p1 == p0[child := Place(child, 4, 0, 0)]
    requires OpensOnly(m1, m2, p2, child) && NewTables(m1, p1, p2, child) && Frame(m2, child) && Pinned(e)
    ensures Opened(Put(m2, child, KERNEL_ENTRY, e), p2, child)
  {
    var m3 := Put(m2, child, KERNEL_ENTRY, e);
    forall f | f in p0
      ensures p0[f].owner != child
    {
      NobodyYet(m0, p0, child, f);
    }
    NewRootTrees(m0, p0, child);
    NewRootOpened(m0, p0, child, child);
    OpenAfterCopy(m1, p1, m2, p2, child);
    forall f, i: nat | f in p2 && p2[f].owner == child && Frame(m3, f) && i < ENTRIES
      ensures OpenAt(m3, p2, f, i)
    {
      assert Frame(m2, f) && OpenAt(m2, p2, f, i);
    }
  }

  /** Of the child's table entries only the kernel's is global or shared. */
  predicate PinIsKernel(mem: Mem, child: nat, f: nat, i: nat)
    requires Frame(mem, f) && i < ENTRIES
  {
    Pinned(mem[f][i]) ==> f == child && i == KERNEL_ENTRY
  }

  ghost predicate OnlyKernelPinned(mem: Mem, place: Places, child: nat)
  {
    forall f, i: nat {:trigger PinIsKernel(mem, child, f, i)} |
      Owned(place, f, child) && place[f].level > 1 && Frame(mem, f) && i < ENTRIES :: PinIsKernel(mem, child, f, i)
  }

  lemma ForkPins(m1: Mem, m2: Mem, p2: Places, e: nat, parent: nat, child: nat)
    requires CopyReady(m2, p2, parent, child, 4) && SkippedKept(m1, m2, parent, child, 0)
    requires Frame(m1, parent) && Frame(m2, parent) && m2[parent] == m1[parent] && m1[child] == ZeroFrame()
    ensures OnlyKernelPinned(Put(m2, child, KERNEL_ENTRY, e), p2, child)
  {
    var m3 := Put(m2, child, KERNEL_ENTRY, e);
    assert TableOk(m2, p2, parent);
    assert TableOk(m2, p2, child);
    forall f, i: nat | Owned(p2, f, child) && p2[f].level > 1 && Frame(m3, f) && i < ENTRIES
      ensures PinIsKernel(m3, child, f, i)
    {
      assert TableOk(m2, p2, f);
      assert PinOk(m2, p2, f, i, parent);
    }
  }

  /** fork_process' memory: a new space, the parent's pages shared into it, the kernel's half. */
  method Fork(m: Memory, parent: nat) returns (child: nat)
    requires m.Valid() && m.supply.Endless? && Root(m.place, parent) && Backed(m.mem, m.place, parent)
    requires KernelHalf(m.mem, m.kernelRoot, parent)
    modifies m`mem, m`supply, m`place
    ensures m.Valid() && m.supply.Endless? && child !in old(m.mem)
    ensures CopyReady(m.mem, m.place, parent, child, 4)
    ensures NewTables(old(m.mem), old(m.place), m.place, child)
    ensures ParentKept(old(m.mem), old(m.place), m.mem, parent, child)
    ensures forall pn: Page {:trigger ForkedPage(old(m.mem), m.mem, m.place, parent, child, pn)} ::
              UserPage(pn) ==> ForkedPage(old(m.mem), m.mem, m.place, parent, child, pn)
    ensures forall pn: Page, pn': Page {:trigger TwoFrames(old(m.mem), m.mem, parent, child, pn, pn')} ::
              UserPage(pn) && UserPage(pn') && !BelowStack(pn) && !BelowStack(pn') ==>
                TwoFrames(old(m.mem), m.mem, parent, child, pn, pn')
    ensures forall f {:trigger ForkFrame(old(m.mem), m.mem, m.place, parent, child, f)} | f in m.mem && f !in old(m.mem) ::
              ForkFrame(old(m.mem), m.mem, m.place, parent, child, f)
    ensures Frame(m.mem, child) && m.mem[child][KERNEL_ENTRY] == old(m.mem)[m.kernelRoot][KERNEL_ENTRY]
    ensures OnlyKernelPinned(m.mem, m.place, child) && Opened(m.mem, m.place, child)
    ensures forall pn: Page {:trigger ForkedAccess(old(m.mem), m.mem, parent, child, pn)} ::
              UserPage(pn) ==> ForkedAccess(old(m.mem), m.mem, parent, child, pn)
  {
    ghost var m0, p0 := m.mem, m.place;
    assert TableOk(m0, p0, m.kernelRoot);
    child := m.NewSpace();
    ghost var m1, p1 := m.mem, m.place;
    NewSpaceReady(m0, p0, parent, child);
    SharePages(m, parent, child);
    ghost var m2, p2 := m.mem, m.place;
    ForkKernel(m0, p0, m1, p1, m2, m.kernelRoot, parent, child);
    InstallKernel(m2, p2, m.kernelRoot, parent, child);
    ForkTables(m0, p0, m1, p1, p2, child);
    ForkPins(m1, m2, p2, m2[m.kernelRoot][KERNEL_ENTRY], parent, child);
    ForkOpened(m0, p0, m1, p1, m2, p2, m2[m.kernelRoot][KERNEL_ENTRY], child);
    m.mem := Put(m.mem, child, KERNEL_ENTRY, m.mem[m.kernelRoot][KERNEL_ENTRY]);
    assert Trees(m.mem, m.place);
    ForkParent(m0, p0, m1, p1, m2, p2, m.mem, parent, child);
    forall pn: Page | UserPage(pn)
      ensures ForkedPage(m0, m.mem, m.place, parent, child, pn)
      ensures Leaf(m.mem, child, 4, pn) == Leaf(m2, child, 4, pn)
      ensures ForkedAccess(m0, m.mem, parent, child, pn)
    {
      assert SharedPage(m1, m2, p2, parent, child, pn);
      ForkPage(m0, p0, m1, p1, m2, p2, m.mem, parent, child, pn);
      assert OwnLeaf(m.mem, parent, 4, pn) == OwnLeaf(m0, parent, 4, pn);
      ForkAccess(m0, m.mem, m.place, parent, child, pn);
    }
    forall pn: Page, pn': Page | UserPage(pn) && UserPage(pn') && !BelowStack(pn) && !BelowStack(pn')
      ensures TwoFrames(m0, m.mem, parent, child, pn, pn')
    {
      assert TwoFrames(m1, m2, parent, child, pn, pn');
      NewSpaceOwn(m0, p0, parent, child, pn);
      NewSpaceOwn(m0, p0, parent, child, pn');
    }
    forall f | f in m.mem && f !in m0
      ensures ForkFrame(m0, m.mem, m.place, parent, child, f)
    {
      if f != child {
        assert ForkFrame(m1, m2, p2, parent, child, f);
        ForkedFrame(m0, p0, m1, m2, m.mem, p2, parent, child, f);
      }
    }
  }

  /** The kernel's entry changes no page that the parent has privately. */
  lemma ForkedFrame(m0: Mem, p0: Places, m1: Mem, m2: Mem, m3: Mem, p2: Places, parent: nat, child: nat, f: nat)
    requires Trees(m0, p0) && Root(p0, parent) && child !in m0 && m1 == m0[child := ZeroFrame()]
    requires Frame(m0, parent) && Own(m0[parent][KERNEL_ENTRY]) == 0
    requires forall pn: Page | UserPage(pn) :: Leaf(m3, child, 4, pn) == Leaf(m2, child, 4, pn)
    requires ForkFrame(m1, m2, p2, parent, child, f)
    ensures ForkFrame(m0, m3, p2, parent, child, f)
  {
    if !Owned(p2, f, child) {
      var pn: Page :| StackCopy(m1, m2, parent, child, pn, f);
      NewSpaceOwn(m0, p0, parent, child, pn);
      assert StackCopy(m0, m3, parent, child, pn, f);
    }
  }

  lemma ForkTables(m0: Mem, p0: Places, m1: Mem, p1: Places, p2: Places, child: nat)
    requires child !in m0 && child !in p0
    requires m1 == m0[child := ZeroFrame()] && p1 == p0[child := Place(child, 4, 0, 0)]
    requires NewTables(m1, p1, p2, child)
    ensures NewTables(m0, p0, p2, child)
  {
    forall f | f in p2 && f !in p0
      ensures f !in m0 && Owned(p2, f, child)
    {
      assert f !in p1 ==> Owned(p2, f, child);
    }
  }

  /** The new space does not show in the parent's. */
  lemma NewSpaceOwn(m0: Mem, p0: Places, parent: nat, child: nat, pn: Page)
    requires Trees(m0, p0) && Root(p0, parent) && child !in m0
    ensures OwnLeaf(m0[child := ZeroFrame()], parent, 4, pn) == OwnLeaf(m0, parent, 4, pn)
  {
    var m1 := m0[child := ZeroFrame()];
    RootOnWay(m0, p0, parent, pn);
    forall g | Owned(p0, g, p0[parent].owner)
      ensures g in m0 && g in m1 && m1[g] == m0[g]
    {
      assert TableOk(m0, p0, g);
    }
    OwnLeafSame(m0, m1, p0, parent, 4, pn);
  }

  /** Sharing leaves the child's kernel entry empty and the kernel's table alone. */
  lemma ForkKernel(m0: Mem, p0: Places, m1: Mem, p1: Places, m2: Mem, kernelRoot: nat, parent: nat, child: nat)
    requires Trees(m0, p0) && Root(p0, parent) && Root(p0, kernelRoot) && child !in m0 && child !in p0
    requires KernelHalf(m0, kernelRoot, parent)
    requires m1 == m0[child := ZeroFrame()] && p1 == p0[child := Place(child, 4, 0, 0)]
    requires ParentKept(m1, p1, m2, parent, child) && SkippedKept(m1, m2, parent, child, 0)
    ensures KernelHalf(m2, kernelRoot, parent) && m2[kernelRoot] == m0[kernelRoot]
    ensures Frame(m2, child) && m2[child][KERNEL_ENTRY] == 0
    ensures Frame(m1, parent) && m2[parent] == m1[parent]
  {
    assert TableOk(m0, p0, kernelRoot);
    assert TableOk(m0, p0, parent);
    assert kernelRoot != child && parent != child;
    assert !Owned(p1, kernelRoot, child) && !Owned(p1, parent, child);
    assert m2[kernelRoot] == m1[kernelRoot] && m2[parent] == m1[parent];
    assert m1[child][KERNEL_ENTRY] == 0;
  }

  lemma ForkParent(m0: Mem, p0: Places, m1: Mem, p1: Places, m2: Mem, p2: Places, m3: Mem, parent: nat, child: nat)
    requires Trees(m0, p0) && Root(p0, parent) && child !in m0 && child !in p0
    requires m1 == m0[child := ZeroFrame()] && p1 == p0[child := Place(child, 4, 0, 0)]
    requires ParentKept(m1, p1, m2, parent, child)
    requires Trees(m2, p2) && Twins(p2, parent, child, 4)
    requires forall f | f in m2 && f != child :: f in m3 && m3[f] == m2[f]
    ensures ParentKept(m0, p0, m3, parent, child)
  {
    forall pn: Page
      ensures OwnLeaf(m3, parent, 4, pn) == OwnLeaf(m0, parent, 4, pn)
    {
      NewSpaceOwn(m0, p0, parent, child, pn);
      assert OwnLeaf(m2, parent, 4, pn) == OwnLeaf(m1, parent, 4, pn);
      RootOnWay(m2, p2, parent, pn);
      assert TableOk(m2, p2, child);
      forall g | Owned(p2, g, p2[parent].owner)
        ensures g in m2 && g in m3 && m3[g] == m2[g]
      {
        assert TableOk(m2, p2, g);
      }
      OwnLeafSame(m2, m3, p2, parent, 4, pn);
    }
    forall f | f in m0 && !Owned(p0, f, child)
      ensures f in m3 && m3[f] == m0[f]
    {
      assert f != child && !Owned(p1, f, child);
    }
  }

  lemma ForkPage(m0: Mem, p0: Places, m1: Mem, p1: Places, m2: Mem, p2: Places, m3: Mem, parent: nat, child: nat, pn: Page)
    requires Trees(m0, p0) && Root(p0, parent) && Backed(m0, p0, parent) && child !in m0 && child > 0
    requires m1 == m0[child := ZeroFrame()] && p1 == p0[child := Place(child, 4, 0, 0)]
    requires SharedPage(m1, m2, p2, parent, child, pn) && UserPage(pn)
    requires Trees(m2, p2) && Root(p2, child) && Frame(m2, child)
    requires exists e: nat :: m3 == Put(m2, child, KERNEL_ENTRY, e)
    ensures Leaf(m3, child, 4, pn) == Leaf(m2, child, 4, pn)
    ensures ForkedPage(m0, m3, p2, parent, child, pn)
  {
    var k: nat :| m3 == Put(m2, child, KERNEL_ENTRY, k);
    InstallLeaf(m2, p2, m3, child, k, pn);
    NewSpaceOwn(m0, p0, parent, child, pn);
    EmptySpace(m1, child, pn);
    RootOnWay(m0, p0, parent, pn);
    assert TableOk(m0, p0, parent);
    OwnLeafBacked(m0, p0, parent, 4, pn);
  }

  // ---------------------------------------------------------------- fork, writes, duplication

  /** Frames that hold data, with new contents. */
  predicate DataWrites(mem: Mem, place: Places, writes: Mem)
  {
    forall f | f in writes :: f in mem && f !in place
  }

  /** Writing data changes no table. */
  lemma WritesReady(m1: Mem, p1: Places, writes: Mem, parent: nat, child: nat)
    requires CopyReady(m1, p1, parent, child, 4) && DataWrites(m1, p1, writes)
    ensures CopyReady(m1 + writes, p1, parent, child, 4)
  {
    var m2 := m1 + writes;
    forall f | f in p1
      ensures TableOk(m2, p1, f)
    {
      assert TableOk(m1, p1, f);
      if p1[f].level < 4 { assert TableOk(m1, p1, p1[f].parent); }
      forall i: nat | i < ENTRIES
        ensures Below(m2, p1, f, i)
      {
        assert Below(m1, p1, f, i);
      }
    }
    assert TableOk(m1, p1, parent);
    forall f, i: nat | Owned(p1, f, parent) && p1[f].level == 1 && Frame(m2, f) && i < ENTRIES
      ensures LeafBacked(m2, p1, f, i)
    {
      assert LeafBacked(m1, p1, f, i);
    }
    forall f, i: nat | Owned(p1, f, child) && p1[f].level > 1 && Frame(m2, f) && i < ENTRIES
      ensures PinOk(m2, p1, f, i, parent)
    {
      assert PinOk(m1, p1, f, i, parent);
    }
  }

  lemma {:induction false} WritesLeaf(m1: Mem, p1: Places, writes: Mem, f: nat, level: Level, pn: Page)
    requires Trees(m1, p1) && OnWay(p1, f, level, pn) && DataWrites(m1, p1, writes)
    ensures Leaf(m1 + writes, f, level, pn) == Leaf(m1, f, level, pn)
    ensures OwnLeaf(m1 + writes, f, level, pn) == OwnLeaf(m1, f, level, pn)
    decreases level
  {
    assert TableOk(m1, p1, f);
    if level > 1 && Entry(m1, f, level, pn) != 0 {
      Descend(m1, p1, f, level, pn);
      WritesLeaf(m1, p1, writes, Strip(Entry(m1, f, level, pn)), level - 1, pn);
    }
  }

  /**
   What fork, `writes` and then duplication leave of page `pn`: a frame of the child's own.  A stack page holds
   what it held at the fork, any other what it holds at the duplication.
   */
  ghost predicate SplitPage(m0: Mem, writes: Mem, m1: Mem, p1: Places, parent: nat, child: nat, pn: Page)
  {
    var e, d := OwnLeaf(m0, parent, 4, pn), Leaf(m1, child, 4, pn);
    if e == 0 then d == 0 else FreshCopy(if BelowStack(pn) then m0 + writes else m0, m1, p1, e, d)
  }

  /** What the processor finds for a page of the child then: a frame of its own that it may write. */
  ghost predicate SplitAccess(m0: Mem, m1: Mem, parent: nat, child: nat, pn: Page)
  {
    OwnLeaf(m0, parent, 4, pn) != 0 ==> Mmu(m1, child, 4, pn) == Access(Strip(Leaf(m1, child, 4, pn)), true, true)
  }

  lemma SplitAccessOf(m0: Mem, p0: Places, writes: Mem, m1: Mem, p1: Places, parent: nat, child: nat, pn: Page)
    requires CopyReady(m1, p1, parent, child, 4) && Opened(m1, p1, child)
    requires Trees(m0, p0) && Root(p0, parent) && DataWrites(m0, p0, writes) && ParentKept(m0 + writes, p0, m1, parent, child)
    requires SplitPage(m0, writes, m1, p1, parent, child, pn)
    ensures SplitAccess(m0, m1, parent, child, pn)
  {
    RootOnWay(m0, p0, parent, pn);
    WritesLeaf(m0, p0, writes, parent, 4, pn);
    if OwnLeaf(m0, parent, 4, pn) != 0 {
      assert OwnLeaf(m1, parent, 4, pn) != 0;
      CopyAccess(m1, p1, parent, child, pn);
      ReadWrite(Leaf(m1, child, 4, pn));
    }
  }

  lemma WritesOpened(m1: Mem, p1: Places, writes: Mem, owner: nat)
    requires Trees(m1, p1) && DataWrites(m1, p1, writes) && Opened(m1, p1, owner)
    ensures Opened(m1 + writes, p1, owner)
  {
    forall f, i: nat | f in p1 && p1[f].owner == owner && Frame(m1 + writes, f) && i < ENTRIES
      ensures OpenAt(m1 + writes, p1, f, i)
    {
      assert TableOk(m1, p1, f);
      assert OpenAt(m1, p1, f, i);
    }
  }

  /** The child finds what the parent had at the fork. */
  predicate AsForked(m0: Mem, m1: Mem, parent: nat, child: nat, pn: Page)
  {
    var e, d := OwnLeaf(m0, parent, 4, pn), Leaf(m1, child, 4, pn);
    Strip(e) in m0 && Strip(d) in m1 && m1[Strip(d)] == m0[Strip(e)]
  }

  /** The frame of the parent's page has been given other contents. */
  predicate Changed(m0: Mem, writes: Mem, parent: nat, pn: Page)
  {
    var f := Strip(OwnLeaf(m0, parent, 4, pn));
    f in writes && f in m0 && writes[f] != m0[f]
  }

  lemma SplitOne(m0: Mem, p0: Places, m1: Mem, p1: Places, writes: Mem, m2: Mem, p2: Places, parent: nat, child: nat, pn: Page)
    requires Trees(m0, p0) && Root(p0, parent) && Backed(m0, p0, parent) && child !in m0 && DataWrites(m0, p0, writes)
    requires Trees(m1, p1) && Root(p1, parent) && Root(p1, child) && DataWrites(m1, p1, writes)
    requires ParentKept(m0, p0, m1, parent, child) && ForkedPage(m0, m1, p1, parent, child, pn)
    requires ParentKept(m1 + writes, p1, m2, parent, child) && DuplicatedPage(m1 + writes, m2, p2, parent, child, pn)
    requires NewTables(m1 + writes, p1, p2, child)
    ensures SplitPage(m0, writes, m2, p2, parent, child, pn)
  {
    var e, d := OwnLeaf(m0, parent, 4, pn), Leaf(m2, child, 4, pn);
    RootOnWay(m1, p1, parent, pn);
    RootOnWay(m1, p1, child, pn);
    WritesLeaf(m1, p1, writes, parent, 4, pn);
    WritesLeaf(m1, p1, writes, child, 4, pn);
    assert OwnLeaf(m1, parent, 4, pn) == e;
    if e != 0 {
      RootOnWay(m0, p0, parent, pn);
      assert TableOk(m0, p0, parent);
      OwnLeafBacked(m0, p0, parent, 4, pn);
      NobodyYet(m0, p0, child, Strip(e));
      assert Strip(e) in m1 && m1[Strip(e)] == m0[Strip(e)];
      if BelowStack(pn) {
        NobodyYet(m0, p0, child, Strip(d));
        assert FreshCopy(m1 + writes, m2, p2, e, d);
      } else {
        assert d == Leaf(m1, child, 4, pn);
        assert FreshCopy(m0, m1, p1, e, d);
        assert Strip(d) in p2 ==> Owned(p2, Strip(d), child);
        assert Strip(d) !in writes && !Owned(p1, Strip(d), child);
      }
    }
  }

  lemma SplitTwo(m0: Mem, p0: Places, m1: Mem, p1: Places, writes: Mem, m2: Mem, p2: Places, parent: nat, child: nat, pn: Page, pn': Page)
    requires Trees(m1, p1) && Root(p1, parent) && Root(p1, child) && DataWrites(m1, p1, writes)
    requires ParentKept(m0, p0, m1, parent, child)
    requires ForkedPage(m0, m1, p1, parent, child, pn) && DuplicatedPage(m1 + writes, m2, p2, parent, child, pn)
    requires ForkedPage(m0, m1, p1, parent, child, pn') && DuplicatedPage(m1 + writes, m2, p2, parent, child, pn')
    requires !BelowStack(pn) && !BelowStack(pn') ==> TwoFrames(m0, m1, parent, child, pn, pn')
    requires BelowStack(pn) && BelowStack(pn') ==> TwoFrames(m1 + writes, m2, parent, child, pn, pn')
    ensures TwoFrames(m0, m2, parent, child, pn, pn')
  {
    assert OwnLeaf(m1, parent, 4, pn) == OwnLeaf(m0, parent, 4, pn);
    assert OwnLeaf(m1, parent, 4, pn') == OwnLeaf(m0, parent, 4, pn');
    RootOnWay(m1, p1, parent, pn);
    RootOnWay(m1, p1, child, pn);
    RootOnWay(m1, p1, parent, pn');
    RootOnWay(m1, p1, child, pn');
    WritesLeaf(m1, p1, writes, parent, 4, pn);
    WritesLeaf(m1, p1, writes, child, 4, pn);
    WritesLeaf(m1, p1, writes, parent, 4, pn');
    WritesLeaf(m1, p1, writes, child, 4, pn');
  }

  lemma SplitAsForked(m0: Mem, p0: Places, writes: Mem, m1: Mem, p1: Places, parent: nat, child: nat, pn: Page)
    requires Trees(m0, p0) && Root(p0, parent) && Backed(m0, p0, parent) && OwnLeaf(m0, parent, 4, pn) != 0
    requires SplitPage(m0, writes, m1, p1, parent, child, pn)
    ensures AsForked(m0, m1, parent, child, pn) <==> !(BelowStack(pn) && Changed(m0, writes, parent, pn))
  {
    RootOnWay(m0, p0, parent, pn);
    assert TableOk(m0, p0, parent);
    OwnLeafBacked(m0, p0, parent, 4, pn);
  }

  /**
   Fork, then writes to frames that were there, then copy_forked_process_memory.  Every private page of the parent
   has become a page of the child in a frame that neither the parent nor another page of the child uses.  Fork
   leaves the parent's pages writable, so the child finds there what the parent had at the fork exactly when the
   page is in the stack or its frame has not been given other contents in between.
   */
  method ForkAndSplit(m: Memory, parent: nat, writes: Mem) returns (child: nat)
    requires m.Valid() && m.supply.Endless? && Root(m.place, parent) && Backed(m.mem, m.place, parent)
    requires KernelHalf(m.mem, m.kernelRoot, parent) && DataWrites(m.mem, m.place, writes)
    modifies m`mem, m`supply, m`place
    ensures m.Valid() && ParentKept(old(m.mem) + writes, old(m.place), m.mem, parent, child)
    ensures forall pn: Page {:trigger SplitPage(old(m.mem), writes, m.mem, m.place, parent, child, pn)} ::
              UserPage(pn) ==> SplitPage(old(m.mem), writes, m.mem, m.place, parent, child, pn)
    ensures forall pn: Page {:trigger SplitAccess(old(m.mem), m.mem, parent, child, pn)} ::
              UserPage(pn) ==> SplitAccess(old(m.mem), m.mem, parent, child, pn)
    ensures forall pn: Page {:trigger AsForked(old(m.mem), m.mem, parent, child, pn)} ::
              UserPage(pn) && OwnLeaf(old(m.mem), parent, 4, pn) != 0 ==>
                (AsForked(old(m.mem), m.mem, parent, child, pn) <==> !(BelowStack(pn) && Changed(old(m.mem), writes, parent, pn)))
    ensures forall pn: Page, pn': Page {:trigger TwoFrames(old(m.mem), m.mem, parent, child, pn, pn')} ::
              UserPage(pn) && UserPage(pn') ==> TwoFrames(old(m.mem), m.mem, parent, child, pn, pn')
  {
    ghost var m0, p0 := m.mem, m.place;
    child := Fork(m, parent);
    ghost var m1, p1 := m.mem, m.place;
    WritesStay(m0, p0, m1, p1, writes, parent, child);
    WritesReady(m1, p1, writes, parent, child);
    WritesOpened(m1, p1, writes, child);
    m.mem := m.mem + writes;
    DuplicatePages(m, parent, child);
    OpenAfterCopy(m1 + writes, p1, m.mem, m.place, child);
    ParentKeptTwice(m0, p0, m1, p1, writes, m.mem, parent, child);
    forall pn: Page | UserPage(pn)
      ensures SplitPage(m0, writes, m.mem, m.place, parent, child, pn) && SplitAccess(m0, m.mem, parent, child, pn)
      ensures OwnLeaf(m0, parent, 4, pn) != 0 ==>
                (AsForked(m0, m.mem, parent, child, pn) <==> !(BelowStack(pn) && Changed(m0, writes, parent, pn)))
    {
      assert ForkedPage(m0, m1, p1, parent, child, pn);
      assert DuplicatedPage(m1 + writes, m.mem, m.place, parent, child, pn);
      SplitOne(m0, p0, m1, p1, writes, m.mem, m.place, parent, child, pn);
      SplitAccessOf(m0, p0, writes, m.mem, m.place, parent, child, pn);
      if OwnLeaf(m0, parent, 4, pn) != 0 { SplitAsForked(m0, p0, writes, m.mem, m.place, parent, child, pn); }
    }
    forall pn: Page, pn': Page | UserPage(pn) && UserPage(pn')
      ensures TwoFrames(m0, m.mem, parent, child, pn, pn')
    {
      assert ForkedPage(m0, m1, p1, parent, child, pn);
      assert ForkedPage(m0, m1, p1, parent, child, pn');
      assert DuplicatedPage(m1 + writes, m.mem, m.place, parent, child, pn);
      assert DuplicatedPage(m1 + writes, m.mem, m.place, parent, child, pn');
      assert !BelowStack(pn) && !BelowStack(pn') ==> TwoFrames(m0, m1, parent, child, pn, pn');
      assert BelowStack(pn) && BelowStack(pn') ==> TwoFrames(m1 + writes, m.mem, parent, child, pn, pn');
      SplitTwo(m0, p0, m1, p1, writes, m.mem, m.place, parent, child, pn, pn');
    }
  }

  /** Fork takes no frame that held data for a table. */
  lemma WritesStay(m0: Mem, p0: Places, m1: Mem, p1: Places, writes: Mem, parent: nat, child: nat)
    requires Trees(m0, p0) && child !in m0 && DataWrites(m0, p0, writes)
    requires NewTables(m0, p0, p1, child) && ParentKept(m0, p0, m1, parent, child)
    ensures DataWrites(m1, p1, writes)
  {
    forall f | f in writes
      ensures f in m1 && f !in p1
    {
      NobodyYet(m0, p0, child, f);
      assert f in p1 ==> Owned(p1, f, child);
    }
  }

  lemma ParentKeptTwice(m0: Mem, p0: Places, m1: Mem, p1: Places, writes: Mem, m2: Mem, parent: nat, child: nat)
    requires Trees(m0, p0) && Root(p0, parent) && Trees(m1, p1) && Root(p1, parent)
    requires DataWrites(m0, p0, writes) && DataWrites(m1, p1, writes)
    requires ParentKept(m0, p0, m1, parent, child) && ParentKept(m1 + writes, p1, m2, parent, child)
    requires child !in m0 && NewTables(m0, p0, p1, child)
    ensures ParentKept(m0 + writes, p0, m2, parent, child)
  {
    forall pn: Page
      ensures OwnLeaf(m2, parent, 4, pn) == OwnLeaf(m0 + writes, parent, 4, pn)
    {
      RootOnWay(m0, p0, parent, pn);
      RootOnWay(m1, p1, parent, pn);
      WritesLeaf(m0, p0, writes, parent, 4, pn);
      WritesLeaf(m1, p1, writes, parent, 4, pn);
      assert OwnLeaf(m1, parent, 4, pn) == OwnLeaf(m0, parent, 4, pn);
    }
    forall f | f in m0 + writes && !Owned(p0, f, child)
      ensures f in m2 && m2[f] == (m0 + writes)[f]
    {
      assert f in p1 && f !in p0 ==> Owned(p1, f, child);
      assert !Owned(p1, f, child);
    }
  }
}
