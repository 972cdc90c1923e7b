/**
 The usage bitmaps of the ext2 volume: sectors of 512 bytes, one bit per block
 or inode.  The id of a bit is its index plus one, so that 0 can mean none.
 */
module Bitmap {
  import opened Arithmetic

  const SECTOR: nat := 512
  const BITS: nat := 4096  // bits in a sector

  type Sectors = seq<seq<bv8>>

  predicate Whole(m: Sectors)
  {
    forall s | 0 <= s < |m| :: |m[s]| == SECTOR
  }

  // ---------------------------------------------------------------- bits of a byte

  /** `1 << bit`. */
  function Mask(bit: nat): (m: bv8)
    requires bit < 8
    ensures m as int == Pow2(bit)
  {
    SmallPowers();
    if bit == 0 then 1 else if bit == 1 then 2 else if bit == 2 then 4 else if bit == 3 then 8
    else if bit == 4 then 16 else if bit == 5 then 32 else if bit == 6 then 64 else 128
  }

  lemma SmallPowers()
    ensures Pow2(0) == 1 && Pow2(1) == 2 && Pow2(2) == 4 && Pow2(3) == 8
    ensures Pow2(4) == 16 && Pow2(5) == 32 && Pow2(6) == 64 && Pow2(7) == 128
  {
  }

  predicate Bit(b: bv8, bit: nat)
    requires bit < 8
  {
    b & Mask(bit) != 0
  }

  function SetBit(b: bv8, bit: nat): (r: bv8)
    requires bit < 8
    ensures Bit(r, bit)
    ensures forall j: nat | j < 8 && j != bit :: Bit(r, j) == Bit(b, j)
  {
    var r := b | Mask(bit);
    OrBit(b, bit);
    r
  }

  function ClearBit(b: bv8, bit: nat): (r: bv8)
    requires bit < 8
    ensures !Bit(r, bit)
    ensures forall j: nat | j < 8 && j != bit :: Bit(r, j) == Bit(b, j)
  {
    var r := b & (0xff ^ Mask(bit));
    AndBit(b, bit);
    r
  }

  lemma MaskApart(i: nat, j: nat)
    requires i < 8 && j < 8
    ensures Mask(i) & Mask(j) == if i == j then Mask(i) else 0
    ensures Mask(i) != 0
  {
  }

  lemma OrBit(b: bv8, bit: nat)
    requires bit < 8
    ensures forall j: nat | j < 8 :: Bit(b | Mask(bit), j) == (j == bit || Bit(b, j))
  {
    forall j: nat | j < 8
      ensures Bit(b | Mask(bit), j) == (j == bit || Bit(b, j))
    {
      MaskApart(bit, j);
      Distribute(b, Mask(bit), Mask(j));
    }
  }

  lemma Distribute(b: bv8, m: bv8, n: bv8)
    ensures (b | m) & n == (b & n) | (m & n)
  {
  }

  lemma AndBit(b: bv8, bit: nat)
    requires bit < 8
    ensures forall j: nat | j < 8 :: Bit(b & (0xff ^ Mask(bit)), j) == (j != bit && Bit(b, j))
  {
    forall j: nat | j < 8
      ensures Bit(b & (0xff ^ Mask(bit)), j) == (j != bit && Bit(b, j))
    {
      AndOneBit(b, bit, j);
    }
  }

  lemma AndOneBit(b: bv8, bit: nat, j: nat)
    requires bit < 8 && j < 8
    ensures Bit(b & (0xff ^ Mask(bit)), j) == (j != bit && Bit(b, j))
  {
    MaskApart(bit, j);
    Without(b, Mask(bit), Mask(j));
  }

  lemma Without(b: bv8, m: bv8, n: bv8)
    ensures m & n == 0 ==> (b & (0xff ^ m)) & n == b & n
    ensures m == n ==> (b & (0xff ^ m)) & n == 0
  {
  }

  /** A byte other than 0xff has a clear bit. */
  lemma FullByte(b: bv8)
    requires forall j: nat | j < 8 :: Bit(b, j)
    ensures b == 0xff
  {
    assert Bit(b, 0) && Bit(b, 1) && Bit(b, 2) && Bit(b, 3);
    assert Bit(b, 4) && Bit(b, 5) && Bit(b, 6) && Bit(b, 7);
  }

  // ---------------------------------------------------------------- bits of the map

  predicate Used(m: Sectors, k: nat)
    requires Whole(m) && k < BITS * |m|
  {
    Bit(m[k / BITS][k % BITS / 8], k % 8)
  }

  function MarkUsed(m: Sectors, k: nat): (r: Sectors)
    requires Whole(m) && k < BITS * |m|
    ensures Whole(r) && |r| == |m|
  {
    var s, i := k / BITS, k % BITS / 8;
    m[s := m[s][i := SetBit(m[s][i], k % 8)]]
  }

  function MarkFree(m: Sectors, k: nat): (r: Sectors)
    requires Whole(m) && k < BITS * |m|
    ensures Whole(r) && |r| == |m|
  {
    var s, i := k / BITS, k % BITS / 8;
    m[s := m[s][i := ClearBit(m[s][i], k % 8)]]
  }

  lemma SamePlace(j: nat, k: nat)
    requires j / BITS == k / BITS && j % BITS / 8 == k % BITS / 8 && j % 8 == k % 8
    ensures j == k
  {
    assert k % BITS % 8 == k % 8 && j % BITS % 8 == j % 8;
  }

  lemma MarkUsedAt(m: Sectors, k: nat, j: nat)
    requires Whole(m) && k < BITS * |m| && j < BITS * |m|
    ensures Used(MarkUsed(m, k), j) <==> j == k || Used(m, j)
  {
    if j / BITS == k / BITS && j % BITS / 8 == k % BITS / 8 && j % 8 == k % 8 { SamePlace(j, k); }
  }

  /** The bit of a 1-based id cleared, found by byte and by sector as the code finds it. */
  function ClearId(m: Sectors, id: nat): (r: Sectors)
    requires Whole(m) && 0 < id <= BITS * |m|
    ensures r == MarkFree(m, id - 1)
  {
    ByteOfBit(id - 1);
    var sector, byte := (id - 1) / 8 / SECTOR, (id - 1) / 8 % SECTOR;
    m[sector := m[sector][byte := ClearBit(m[sector][byte], (id - 1) % 8)]]
  }

  lemma ByteOfBit(k: nat)
    ensures k / 8 / SECTOR == k / BITS && k / 8 % SECTOR == k % BITS / 8
  {
  }

  lemma MarkFreeAt(m: Sectors, k: nat, j: nat)
    requires Whole(m) && k < BITS * |m| && j < BITS * |m|
    ensures Used(MarkFree(m, k), j) <==> j != k && Used(m, j)
  {
    if j / BITS == k / BITS && j % BITS / 8 == k % BITS / 8 && j % 8 == k % 8 { SamePlace(j, k); }
  }

  // ---------------------------------------------------------------- counting

  /** Clear bits among the first `n`. */
  function Clear(m: Sectors, n: nat): nat
    requires Whole(m) && n <= BITS * |m|
  {
    if n == 0 then 0 else Clear(m, n - 1) + (if Used(m, n - 1) then 0 else 1)
  }

  function FreeCount(m: Sectors): nat
    requires Whole(m)
  {
    Clear(m, BITS * |m|)
  }

  lemma {:induction false} ClearSame(m: Sectors, m': Sectors, n: nat)
    requires Whole(m) && Whole(m') && |m'| == |m| && n <= BITS * |m|
    requires forall j: nat | j < n :: Used(m', j) == Used(m, j)
    ensures Clear(m', n) == Clear(m, n)
  {
    if n > 0 { ClearSame(m, m', n - 1); }
  }

  lemma {:induction false} ClearOneMore(m: Sectors, m': Sectors, k: nat, n: nat)
    requires Whole(m) && Whole(m') && |m'| == |m| && k < n <= BITS * |m|
    requires Used(m, k) && !Used(m', k)
    requires forall j: nat | j < n && j != k :: Used(m', j) == Used(m, j)
    ensures Clear(m', n) == Clear(m, n) + 1
  {
    if n == k + 1 { ClearSame(m, m', k); } else { ClearOneMore(m, m', k, n - 1); }
  }

  lemma TakeCount(m: Sectors, k: nat)
    requires Whole(m) && k < BITS * |m| && !Used(m, k)
    ensures FreeCount(m) == FreeCount(MarkUsed(m, k)) + 1
  {
    var m' := MarkUsed(m, k);
    forall j: nat | j < BITS * |m| ensures Used(m', j) == (j == k || Used(m, j)) { MarkUsedAt(m, k, j); }
    ClearOneMore(m', m, k, BITS * |m|);
  }

  lemma GiveCount(m: Sectors, k: nat)
    requires Whole(m) && k < BITS * |m| && Used(m, k)
    ensures FreeCount(MarkFree(m, k)) == FreeCount(m) + 1
  {
    var m' := MarkFree(m, k);
    forall j: nat | j < BITS * |m| ensures Used(m', j) == (j != k && Used(m, j)) { MarkFreeAt(m, k, j); }
    ClearOneMore(m, m', k, BITS * |m|);
  }

  lemma {:induction false} SomeClear(m: Sectors, n: nat)
    requires Whole(m) && n <= BITS * |m| && Clear(m, n) > 0
    ensures exists k: nat :: k < n && !Used(m, k)
  {
    if Used(m, n - 1) {
      SomeClear(m, n - 1);
      var k: nat :| k < n - 1 && !Used(m, k);
      assert k < n && !Used(m, k);
    } else {
      assert n - 1 < n && !Used(m, n - 1);
    }
  }

  // ---------------------------------------------------------------- __ext2_find_free_bitmap

  method FirstClearBit(b: bv8) returns (bit: nat)
    requires b != 0xff
    ensures bit < 8 && !Bit(b, bit) && forall j: nat | j < bit :: Bit(b, j)
  {
    bit := 0;
    while bit < 8
      invariant bit <= 8 && forall j: nat | j < bit :: Bit(b, j)
    {
      if !Bit(b, bit) { return; }
      bit := bit + 1;
    }
    FullByte(b);
    assert false;
  }

  /** Bits below `hi` and not below `lo` are all in use. */
  predicate AllUsed(m: Sectors, lo: nat, hi: nat)
    requires Whole(m) && hi <= BITS * |m|
  {
    forall k: nat | lo <= k < hi :: Used(m, k)
  }

  /** Sectors to read for a bitmap of `size` bytes. */
  function Span(size: nat): nat { (size + SECTOR - 1) / SECTOR }

  /** One past the last sector that a scan from byte `start` reads. */
  function ScanEnd(size: nat, start: nat): nat
  {
    start / SECTOR + (if start < size then Span(size - start) else 0)
  }

  lemma ScanWithin(size: nat, start: nat)
    requires start <= size
    ensures ScanEnd(size, start) <= Span(size)
    ensures ScanEnd(size, 0) == Span(size)
  {
  }

  /** The search of the upper half reads the last sector or not, by where its start falls in a sector. */
  lemma UpperHalf(size: nat)
    requires size > 0
    ensures ScanEnd(size, size / 2) == Span(size) <==> size / 2 % SECTOR <= (size - 1) % SECTOR
  {
  }

  /** `n` sectors in which only the first bit of sector `s` is clear. */
  function Lone(n: nat, s: nat): (m: Sectors)
    ensures Whole(m) && |m| == n
  {
    seq(n, t => if t == s then seq(SECTOR, i => if i == 0 then 0xfe else 0xff) else seq(SECTOR, i => 0xff))
  }

  lemma LoneBit(n: nat, s: nat, k: nat)
    requires k < BITS * n
    ensures Used(Lone(n, s), k) <==> k != BITS * s
  {
    FullBits(k % 8);
    ByteOfBit(k);
    if k / BITS == s && k % BITS / 8 == 0 && k % 8 == 0 { SamePlace(k, BITS * s); }
    LastBit(k % 8);
  }

  lemma LastBit(bit: nat)
    requires bit < 8
    ensures Bit(0xfe, bit) <==> bit != 0
  {
  }

  lemma LoneClear(n: nat, s: nat)
    requires s < n
    ensures !Used(Lone(n, s), BITS * s) && FreeCount(Lone(n, s)) > 0
  {
    LoneBit(n, s, BITS * s);
    ClearAt(Lone(n, s), BITS * s, BITS * n);
  }

  lemma {:induction false} ClearAt(m: Sectors, k: nat, n: nat)
    requires Whole(m) && k < n <= BITS * |m| && !Used(m, k)
    ensures Clear(m, n) > 0
  {
    if k < n - 1 { ClearAt(m, k, n - 1); }
  }

  /** The search from the middle finds a clear bit if the map has one. */
  predicate Finds(m: Sectors, size: nat)
    requires Whole(m) && |m| == Span(size)
  {
    ScanWithin(size, size / 2);
    FreeCount(m) > 0 ==> !AllUsed(m, BITS * (size / 2 / SECTOR), BITS * ScanEnd(size, size / 2))
  }

  /** A sector that the search from the middle does not read. */
  function Unread(size: nat): (s: nat)
    requires size > SECTOR
    ensures s < Span(size) && !(size / 2 / SECTOR <= s < ScanEnd(size, size / 2))
  {
    if size / 2 < SECTOR then 1 else 0
  }

  lemma LoneMissed(size: nat)
    requires size > SECTOR
    ensures !Finds(Lone(Span(size), Unread(size)), size)
  {
    var s := Unread(size);
    LoneClear(Span(size), s);
    ScanWithin(size, size / 2);
    forall k: nat | BITS * (size / 2 / SECTOR) <= k < BITS * ScanEnd(size, size / 2) ensures Used(Lone(Span(size), s), k) {
      LoneBit(Span(size), s, k);
    }
  }

  /** The search from the middle can be relied on exactly for maps of one sector. */
  lemma UpperHalfMisses(size: nat)
    ensures (forall m | Whole(m) && |m| == Span(size) :: Finds(m, size)) <==> size <= SECTOR
  {
    if size > SECTOR {
      LoneMissed(size);
    } else {
      forall m | Whole(m) && |m| == Span(size) ensures Finds(m, size) {
        if FreeCount(m) > 0 { SomeClear(m, BITS * |m|); }
      }
    }
  }

  /** A map of 600 bytes with one clear bit, in the second sector: the search from the middle returns 0. */
  method MissedBlock() returns (m: Sectors, id: nat)
    ensures Whole(m) && |m| == Span(600) && FreeCount(m) > 0 && id == 0
  {
    m := Lone(2, 1);
    LoneClear(2, 1);
    assert Span(600) == 2 && ScanEnd(600, 300) == 1;
    forall k: nat | k < BITS ensures Used(m, k) { LoneBit(2, 1, k); }
    assert AllUsed(m, BITS * (300 / SECTOR), BITS * ScanEnd(600, 300));
    var m';
    id, m' := FindFree(m, 600, 300);
  }

  lemma BitOf(m: Sectors, s: nat, i: nat, bit: nat)
    requires Whole(m) && s < |m| && i < SECTOR && bit < 8
    ensures BITS * s + 8 * i + bit < BITS * |m|
    ensures Used(m, BITS * s + 8 * i + bit) == Bit(m[s][i], bit)
  {
    var k := BITS * s + 8 * i + bit;
    assert k / BITS == s && k % BITS == 8 * i + bit && k % 8 == bit;
  }

  /** A byte position that the scan from `start` reaches. */
  predicate OnScan(size: nat, start: nat, at: nat)
  {
    && start <= at && start / SECTOR <= at / SECTOR && (at - start) % SECTOR == 0
    && (if at < size then at / SECTOR < ScanEnd(size, start) else at / SECTOR == ScanEnd(size, start))
  }

  lemma NextSector(size: nat, start: nat, at: nat)
    requires OnScan(size, start, at) && at < size
    ensures OnScan(size, start, at + SECTOR) && (at + SECTOR) / SECTOR == at / SECTOR + 1
  {
  }

  /** The first byte of sector `s` with a clear bit, or 512; all bits before it are in use. */
  method FirstByte(m: Sectors, s: nat) returns (i: nat)
    requires Whole(m) && s < |m|
    ensures i <= SECTOR && AllUsed(m, BITS * s, BITS * s + 8 * i)
    ensures i < SECTOR ==> m[s][i] != 0xff
  {
    i := 0;
    while i < SECTOR
      invariant i <= SECTOR && AllUsed(m, BITS * s, BITS * s + 8 * i)
    {
      if m[s][i] != 0xff { return; }
      forall k: nat | BITS * s + 8 * i <= k < BITS * s + 8 * i + 8
        ensures Used(m, k)
      {
        BitOf(m, s, i, k - BITS * s - 8 * i);
        FullBits(k - BITS * s - 8 * i);
      }
      i := i + 1;
    }
  }

  lemma FullBits(bit: nat)
    requires bit < 8
    ensures Bit(0xff, bit)
  {
  }

  /**
   __ext2_find_free_bitmap: marks the first clear bit of the scanned sectors and
   hands out its id; 0 exactly when they have none.
   */
  method FindFree(m: Sectors, size: nat, start: nat) returns (id: nat, m': Sectors)
    requires Whole(m) && |m| == Span(size) && start <= size
    ensures ScanEnd(size, start) <= |m|
    ensures id == 0 <==> AllUsed(m, BITS * (start / SECTOR), BITS * ScanEnd(size, start))
    ensures id == 0 ==> m' == m
    ensures id != 0 ==> BITS * (start / SECTOR) <= id - 1 < BITS * ScanEnd(size, start)
    ensures id != 0 ==> !Used(m, id - 1) && AllUsed(m, BITS * (start / SECTOR), id - 1) && m' == MarkUsed(m, id - 1)
  {
    ScanWithin(size, start);
    var at := start;
    while at < size
      invariant OnScan(size, start, at) && at / SECTOR <= |m|
      invariant AllUsed(m, BITS * (start / SECTOR), BITS * (at / SECTOR))
      decreases size - at
    {
      var s := at / SECTOR;
      var i := FirstByte(m, s);
      if i < SECTOR {
        var bit := FirstClearBit(m[s][i]);
        var k := bit + i * 8 + BITS * s;
        FoundBit(m, s, i, bit);
        m' := m[s := m[s][i := m[s][i] | Mask(bit)]];
        return k + 1, m';
      }
      NextSector(size, start, at);
      at := at + SECTOR;
    }
    return 0, m;
  }

  lemma FoundBit(m: Sectors, s: nat, i: nat, bit: nat)
    requires Whole(m) && s < |m| && i < SECTOR && bit < 8
    requires !Bit(m[s][i], bit) && forall j: nat | j < bit :: Bit(m[s][i], j)
    requires AllUsed(m, BITS * s, BITS * s + 8 * i)
    ensures bit + i * 8 + BITS * s < BITS * |m| && !Used(m, bit + i * 8 + BITS * s)
    ensures AllUsed(m, BITS * s, bit + i * 8 + BITS * s)
    ensures MarkUsed(m, bit + i * 8 + BITS * s) == m[s := m[s][i := m[s][i] | Mask(bit)]]
  {
    BitOf(m, s, i, bit);
    Locate(s, i, bit);
    forall j: nat | BITS * s + 8 * i <= j < bit + i * 8 + BITS * s
      ensures Used(m, j)
    {
      BitOf(m, s, i, j - BITS * s - 8 * i);
    }
  }

  lemma Locate(s: nat, i: nat, bit: nat)
    requires i < SECTOR && bit < 8
    ensures var k := bit + i * 8 + BITS * s; k / BITS == s && k % BITS / 8 == i && k % 8 == bit
  {
    var k := bit + i * 8 + BITS * s;
    assert k / BITS == s && k % BITS == 8 * i + bit;
  }
}
