/**
 Page-table entries and indices: flag bits, and the split of a virtual address
 into four table indices.
 */
module Paging {
  import opened Arithmetic

  const PAGE: nat := 4096
  const ENTRIES: nat := 512
  const PRESENT: nat := 1
  const WRITE: nat := 2
  const USER: nat := 4
  const GLOBAL: nat := 256
  const KERNEL_OFFSET: nat := 0xffff_ff80_0000_0000

  // ---------------------------------------------------------------- entries

  function Strip(e: nat): nat { e - e % PAGE }

  /** The entry carries PAGE_GLOBAL or PAGE_SHARED (bits 8 and 9). */
  predicate Pinned(e: nat) { (e / 256) % 4 != 0 }

  lemma PinnedBits(e: nat)
    ensures Pinned(e) <==> e / 256 % 2 == 1 || e / 512 % 2 == 1
  {
    assert e / 512 == e / 256 / 2;
  }

  predicate HasUser(flags: nat) { (flags / 4) % 2 == 1 }

  /** Present, writable and for user code: what every table entry lets through. */
  predicate Open(e: nat) { e % 8 == 7 }

  function WithGlobal(flags: nat): nat
  {
    if (flags / GLOBAL) % 2 == 1 then flags else flags + GLOBAL
  }

  /** Bitwise or. */
  function Or(a: nat, b: nat): nat
    decreases a + b
  {
    if a == 0 && b == 0 then 0
    else 2 * Or(a / 2, b / 2) + (if a % 2 + b % 2 == 0 then 0 else 1)
  }

  lemma Twice(m: nat, q: nat)
    ensures 2 * m * q == 2 * (m * q)
  {
  }

  lemma HalfDivOf(x: nat, m: nat, q: nat, w: nat)
    requires m > 0 && w == m * q && 2 * w <= x < 2 * w + 2 * m
    ensures x / 2 / m == q
  {
    DivUnique(x / 2, m, q);
  }

  lemma HalfDivBy(x: nat, m: nat, d: nat, q: nat)
    requires m > 0 && d == m + m && d * q <= x < d * q + d
    ensures x / 2 / m == q
  {
    assert d * q == m * q + m * q;
    HalfDivOf(x, m, q, m * q);
  }

  lemma HalfDiv(x: nat, m: nat, d: nat)
    requires m > 0 && d == m + m
    ensures x / 2 / m == x / d
  {
    DivBound(x, d);
    HalfDivBy(x, m, d, x / d);
  }

  lemma {:induction false} OrNothing(a: nat)
    ensures Or(a, 0) == a
    decreases a
  {
    if a > 0 { OrNothing(a / 2); }
  }

  /** Bits above those of `b` are those of `a`. */
  lemma {:induction false} OrHigh(a: nat, b: nat, k: nat)
    requires b < Pow2(k)
    ensures Or(a, b) / Pow2(k) == a / Pow2(k)
    decreases k
  {
    if k == 0 {
      OrNothing(a);
    } else if a > 0 || b > 0 {
      OrHigh(a / 2, b / 2, k - 1);
      HalfDiv(Or(a, b), Pow2(k - 1), Pow2(k));
      HalfDiv(a, Pow2(k - 1), Pow2(k));
    }
  }

  lemma OrDouble(x: nat, b: nat)
    ensures Or(2 * x, b) == 2 * Or(x, b / 2) + b % 2
  {
  }

  /** On separate bits, or is addition. */
  lemma {:induction false} OrSeparate(q: nat, b: nat, k: nat)
    requires b < Pow2(k)
    ensures Or(Pow2(k) * q, b) == Pow2(k) * q + b
    decreases k
  {
    if k == 0 {
      OrNothing(q);
    } else {
      OrSeparate(q, b / 2, k - 1);
      Twice(Pow2(k - 1), q);
      OrDouble(Pow2(k - 1) * q, b);
    }
  }

  lemma Powers()
    ensures Pow2(3) == 8 && Pow2(8) == 256 && Pow2(12) == PAGE
  {
    assert Pow2(6) == 64;
    assert Pow2(10) == 1024;
  }

  lemma FlagBits(addr: nat, f: nat, k: nat)
    requires f < PAGE == Pow2(k)
    ensures Strip(Or(addr, f)) == Strip(addr)
    ensures addr % PAGE == 0 ==> Or(addr, f) == addr + f
  {
    OrHigh(addr, f, k);
    OrSeparate(addr / PAGE, f, k);
  }

  lemma LowFlags(addr: nat, f: nat)
    requires f < 8
    ensures Pinned(Or(addr, f)) <==> Pinned(addr)
  {
    Powers();
    OrHigh(addr, f, 8);
  }

  lemma AddedFlags(addr: nat, f: nat)
    requires f < PAGE
    ensures Strip(Or(addr, f)) == Strip(addr)
    ensures addr % PAGE == 0 ==> Or(addr, f) == addr + f
    ensures f < 8 ==> (Pinned(Or(addr, f)) <==> Pinned(addr))
  {
    Powers();
    FlagBits(addr, f, 12);
    if f < 8 { LowFlags(addr, f); }
  }

  /** ADD_FLAGS, and the code's own `|=` on an entry. */
  function AddFlags(addr: nat, flags: nat): (e: nat)
    ensures Strip(e) == Strip(addr)
    ensures addr % PAGE == 0 ==> e == addr + flags % PAGE
    ensures flags < 8 ==> (Pinned(e) <==> Pinned(addr))
  {
    AddedFlags(addr, flags % PAGE);
    Or(addr, flags % PAGE)
  }

  lemma OrSeven(a: nat)
    ensures Or(a, 7) % 8 == 7
  {
    assert Or(a, 7) == 2 * Or(a / 2, 3) + 1;
    assert Or(a / 2, 3) == 2 * Or(a / 2 / 2, 1) + 1;
    assert Or(a / 2 / 2, 1) == 2 * Or(a / 2 / 2 / 2, 0) + 1;
  }

  /** Whatever an entry was, with the three flags it is open. */
  lemma TableFlags(addr: nat)
    ensures Open(AddFlags(addr, PRESENT + WRITE + USER))
  {
    OrSeven(addr);
  }

  /** The entry made for a new table. */
  lemma TableEntry(p: nat)
    requires p % PAGE == 0 && p > 0
    ensures Strip(p) == p && !Pinned(p)
    ensures var e := AddFlags(p, PRESENT + WRITE + USER); e == p + 7 && Strip(e) == p && !Pinned(e)
  {
    assert p == PAGE * (p / PAGE);
    assert p / 256 == 16 * (p / PAGE);
  }

  /** The entry made for a page that stays shared. */
  lemma SharedEntry(e: nat)
    ensures AddFlags(Strip(e), PRESENT + USER) == Strip(e) + PRESENT + USER
  {
    assert Strip(e) == PAGE * (e / PAGE);
  }

  // ---------------------------------------------------------------- indices

  type Level = l: int | 1 <= l <= 4 witness 1

  /** Pages under one entry of the table above. */
  function Span(level: int): (n: nat)
    requires 0 <= level <= 4
    ensures n > 0
  {
    if level == 0 then 1 else if level == 1 then 512 else if level == 2 then 0x40000
    else if level == 3 then 0x8000000 else 0x1000000000
  }

  type Page = pn: nat | pn < 0x1000000000

  function PageOf(va: nat): Page { (va / PAGE) % 0x1000000000 }

  function Idx(level: Level, pn: Page): (i: nat)
    ensures i < ENTRIES
  {
    (pn / Span(level - 1)) % ENTRIES
  }

  function Prefix(level: int, pn: Page): nat
    requires 0 <= level <= 4
  {
    pn / Span(level)
  }

  lemma Decompose(level: Level, pn: Page)
    ensures Prefix(level - 1, pn) == Prefix(level, pn) * ENTRIES + Idx(level, pn)
    ensures Prefix(0, pn) == pn && Prefix(4, pn) == 0
  {
  }

  lemma Wrap1(h: nat, l: nat)
    ensures (h * 0x1000000000 + l) % 512 == l % 512
  {
    assert h * 0x1000000000 + l == 512 * (h * 0x8000000) + l;
  }

  lemma Wrap2(h: nat, l: nat)
    ensures ((h * 0x1000000000 + l) / 512) % 512 == (l / 512) % 512
  {
    assert (h * 0x1000000000 + l) / 512 == h * 0x8000000 + l / 512;
  }

  lemma Wrap3(h: nat, l: nat)
    ensures ((h * 0x1000000000 + l) / 0x40000) % 512 == (l / 0x40000) % 512
  {
    assert (h * 0x1000000000 + l) / 0x40000 == h * 0x40000 + l / 0x40000;
  }

  lemma Wrap4(h: nat, l: nat)
    ensures ((h * 0x1000000000 + l) / 0x8000000) % 512 == (l / 0x8000000) % 512
  {
    assert (h * 0x1000000000 + l) / 0x8000000 == h * 512 + l / 0x8000000;
  }

  /** PML4T_OFFSET, PDPT_OFFSET, PDT_OFFSET and PT_OFFSET are the indices of the page number. */
  lemma Offsets(va: nat)
    ensures Idx(1, PageOf(va)) == (va / 0x1000) % 512
    ensures Idx(2, PageOf(va)) == (va / 0x200000) % 512
    ensures Idx(3, PageOf(va)) == (va / 0x40000000) % 512
    ensures Idx(4, PageOf(va)) == (va / 0x8000000000) % 512
  {
    var n := va / PAGE;
    var h, l := n / 0x1000000000, n % 0x1000000000;
    assert n == h * 0x1000000000 + l;
    Wrap1(h, l);
    Wrap2(h, l);
    Wrap3(h, l);
    Wrap4(h, l);
    assert va / 0x200000 == n / 512;
    assert va / 0x40000000 == n / 0x40000;
    assert va / 0x8000000000 == n / 0x8000000;
  }
}
