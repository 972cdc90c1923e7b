/**
 One process with one page of stack, forked; the child exits at once.  A frame
 is lost.
 */
module StackLeak {
  import opened Paging
  import opened PageTable
  import opened ForkPages
  import opened Teardown

  // The kernel's root and the table of its half, the four tables of the process, and its page.
  const KERNEL: nat := 0x1000
  const UPPER: nat := 0x2000
  const ROOT: nat := 0x3000
  const T3: nat := 0x4000
  const T2: nat := 0x5000
  const T1: nat := 0x6000
  const DATA: nat := 0x7000

  /** The highest page of the stack. */
  const TOP_PAGE: Page := 0x7ffd0e211

  const FLAGS: nat := PRESENT + WRITE + USER

  function One(i: nat, e: nat): (s: seq<nat>)
    requires i < ENTRIES
    ensures |s| == ENTRIES && forall j | 0 <= j < ENTRIES :: s[j] == if j == i then e else 0
  {
    ZeroFrame()[i := e]
  }

  /** The kernel's entry is global. */
  const HALF: nat := UPPER + GLOBAL + PRESENT + WRITE

  function Frames(): Mem
  {
    var root: seq<nat> := One(255, T3 + FLAGS)[KERNEL_ENTRY := HALF];
    map[KERNEL := One(KERNEL_ENTRY, HALF), UPPER := ZeroFrame(), ROOT := root,
        T3 := One(500, T2 + FLAGS), T2 := One(113, T1 + FLAGS), T1 := One(17, DATA + FLAGS), DATA := ZeroFrame()]
  }

  function Tables(): Places
  {
    map[KERNEL := Place(KERNEL, 4, 0, 0), UPPER := Place(KERNEL, 3, KERNEL_ENTRY, KERNEL), ROOT := Place(ROOT, 4, 0, 0),
        T3 := Place(ROOT, 3, 255, ROOT), T2 := Place(ROOT, 2, 255 * ENTRIES + 500, T3),
        T1 := Place(ROOT, 1, (255 * ENTRIES + 500) * ENTRIES + 113, T2)]
  }

  lemma Indices()
    ensures Idx(4, TOP_PAGE) == 255 && Idx(3, TOP_PAGE) == 500 && Idx(2, TOP_PAGE) == 113 && Idx(1, TOP_PAGE) == 17
  {
  }

  lemma TablesStand()
    ensures Trees(Frames(), Tables()) && Root(Tables(), KERNEL) && Root(Tables(), ROOT)
  {
    var mem, place := Frames(), Tables();
    assert TableOk(mem, place, KERNEL);
    assert TableOk(mem, place, UPPER);
    assert TableOk(mem, place, ROOT);
    assert TableOk(mem, place, T3);
    assert TableOk(mem, place, T2);
    assert TableOk(mem, place, T1);
  }

  lemma OnePage()
    ensures Backed(Frames(), Tables(), ROOT) && KernelHalf(Frames(), KERNEL, ROOT)
    ensures StackPage(Frames(), ROOT, TOP_PAGE) && OwnLeaf(Frames(), ROOT, 4, TOP_PAGE) == DATA + FLAGS
  {
    Indices();
    var mem := Frames();
    assert OwnLeaf(mem, T1, 1, TOP_PAGE) == DATA + FLAGS;
    assert OwnLeaf(mem, T2, 2, TOP_PAGE) == DATA + FLAGS;
    assert OwnLeaf(mem, T3, 3, TOP_PAGE) == DATA + FLAGS;
    assert OwnLeaf(mem, ROOT, 4, TOP_PAGE) == DATA + FLAGS;
  }

  /** Fork and exit with a page in the stack: the page is there, and a frame with a copy of it is in use. */
  method Leak(m: Memory, parent: nat, pn: Page) returns (ghost f: nat)
    requires m.Valid() && m.supply.Endless? && Root(m.place, parent) && Backed(m.mem, m.place, parent)
    requires KernelHalf(m.mem, m.kernelRoot, parent) && StackPage(m.mem, parent, pn)
    modifies m`mem, m`supply, m`place
    ensures m.Valid() && f !in old(m.mem) && f in m.mem
    ensures var e := OwnLeaf(old(m.mem), parent, 4, pn);
            OwnLeaf(m.mem, parent, 4, pn) == e && Strip(e) in m.mem && m.mem[f] == m.mem[Strip(e)]
  {
    ghost var m0 := m.mem;
    var child;
    ghost var left;
    child, left := ForkAndExit(m, parent);
    f := left[pn];
    assert LeftOver(m0, m.mem, parent, left, pn);
  }

  method LostFrame() returns (m: Memory, ghost f: nat)
    ensures m.Valid() && OwnLeaf(m.mem, ROOT, 4, TOP_PAGE) == DATA + FLAGS
    ensures f !in Frames() && f in m.mem && DATA in m.mem && m.mem[f] == m.mem[DATA]
  {
    TablesStand();
    OnePage();
    m := new Memory(Frames(), Tables(), KERNEL);
    f := Leak(m, ROOT, TOP_PAGE);
  }
}
