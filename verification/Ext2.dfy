/**
 The storage core of the ext2 driver: block and inode allocation, the mapping of
 a file's blocks through direct and single-indirect pointers, and the inode
 table with its write-through cache.  A block is 4096 bytes, seen as 1024 words.

 `slots` gives the block numbers each live file holds: the twelve direct ones,
 the 1024 of its indirect block and, last, the indirect block itself.  `owner`
 is its inverse, so no block is held twice; `reserved` are the blocks of the
 volume's own structures.
 */
module Ext2 {
  import opened Bitmap

  const DIRECT: nat := 12
  const WORDS: nat := 1024
  const MAX_BLOCKS: nat := 1036
  const SIBP: nat := 1036
  const SLOTS: nat := 1037
  const BLOCK_SIZE: nat := 4096
  const SEC_PER_BLOCK: nat := 8
  const U16: nat := 0x10000
  const PER_BLOCK: nat := 32  // inodes in a block of the table

  type Block = seq<nat>

  datatype Inode = Inode(mode: nat, size: nat, links: nat, sectors: nat, dbp: seq<nat>, sibp: nat)

  datatype Home = Home(file: nat, slot: nat)

  type Slots = map<nat, seq<nat>>
  type Owner = map<nat, Home>
  type Disk = map<nat, Block>

  // ---------------------------------------------------------------- who holds which block

  predicate HeldBy(slots: Slots, owner: Owner, n: nat, i: nat)
    requires n in slots && |slots[n]| == SLOTS && i < SLOTS
  {
    slots[n][i] != 0 ==> slots[n][i] in owner && owner[slots[n][i]] == Home(n, i)
  }

  predicate HomeTrue(slots: Slots, owner: Owner, b: nat)
    requires b in owner
  {
    var h := owner[b];
    h.file in slots && |slots[h.file]| == SLOTS && h.slot < SLOTS && slots[h.file][h.slot] == b && b > 0
  }

  /** `owner` is the inverse of `slots`. */
  ghost predicate Holdings(slots: Slots, owner: Owner)
  {
    && (forall n | n in slots :: |slots[n]| == SLOTS)
    && (forall n, i: nat {:trigger HeldBy(slots, owner, n, i)} | n in slots && i < SLOTS :: HeldBy(slots, owner, n, i))
    && (forall b {:trigger HomeTrue(slots, owner, b)} | b in owner :: HomeTrue(slots, owner, b))
  }

  /** No block number appears twice among the files' slots. */
  lemma HeldOnce(slots: Slots, owner: Owner, n: nat, i: nat, n': nat, i': nat)
    requires Holdings(slots, owner) && n in slots && n' in slots && i < SLOTS && i' < SLOTS
    requires slots[n][i] != 0 && slots[n][i] == slots[n'][i']
    ensures n == n' && i == i'
  {
    assert HeldBy(slots, owner, n, i);
    assert HeldBy(slots, owner, n', i');
  }

  /** Bit `k` of the map stands for block `k + 1`. */
  predicate BitTrue(m: Sectors, owner: Owner, reserved: set<nat>, k: nat)
    requires Whole(m) && k < BITS * |m|
  {
    Used(m, k) <==> (k + 1 in owner || k + 1 in reserved)
  }

  /** The bitmap marks exactly the held and the reserved blocks. */
  ghost predicate Ledger(m: Sectors, slots: Slots, owner: Owner, reserved: set<nat>)
  {
    && Whole(m) && Holdings(slots, owner)
    && (forall k: nat {:trigger BitTrue(m, owner, reserved, k)} | k < BITS * |m| :: BitTrue(m, owner, reserved, k))
    && (forall b | b in owner :: 0 < b <= BITS * |m| && b !in reserved)
  }

  function Assign(slots: Slots, n: nat, i: nat, b: nat): Slots
    requires n in slots && i < |slots[n]|
  {
    var s: seq<nat> := slots[n][i := b];
    slots[n := s]
  }

  lemma LedgerTake(m: Sectors, slots: Slots, owner: Owner, reserved: set<nat>, k: nat, n: nat, i: nat)
    requires Ledger(m, slots, owner, reserved) && k < BITS * |m| && !Used(m, k)
    requires n in slots && i < SLOTS && slots[n][i] == 0
    ensures Ledger(MarkUsed(m, k), Assign(slots, n, i, k + 1), owner[k + 1 := Home(n, i)], reserved)
    ensures k + 1 !in owner && k + 1 !in reserved
  {
    var m', slots', owner' := MarkUsed(m, k), Assign(slots, n, i, k + 1), owner[k + 1 := Home(n, i)];
    assert BitTrue(m, owner, reserved, k);
    forall n', i': nat | n' in slots' && i' < SLOTS
      ensures HeldBy(slots', owner', n', i')
    {
      assert HeldBy(slots, owner, n', i');
    }
    forall b | b in owner'
      ensures HomeTrue(slots', owner', b)
    {
      if b != k + 1 { assert HomeTrue(slots, owner, b); }
    }
    forall j: nat | j < BITS * |m'|
      ensures BitTrue(m', owner', reserved, j)
    {
      assert BitTrue(m, owner, reserved, j);
      MarkUsedAt(m, k, j);
    }
  }

  lemma LedgerGive(m: Sectors, slots: Slots, owner: Owner, reserved: set<nat>, n: nat, i: nat)
    requires Ledger(m, slots, owner, reserved) && n in slots && i < SLOTS && slots[n][i] != 0
    ensures slots[n][i] in owner && 0 < slots[n][i] <= BITS * |m| && Used(m, slots[n][i] - 1)
    ensures Ledger(MarkFree(m, slots[n][i] - 1), Assign(slots, n, i, 0), owner - {slots[n][i]}, reserved)
  {
    var b := slots[n][i];
    assert HeldBy(slots, owner, n, i);
    assert BitTrue(m, owner, reserved, b - 1);
    var m', slots', owner' := MarkFree(m, b - 1), Assign(slots, n, i, 0), owner - {b};
    forall n', i': nat | n' in slots' && i' < SLOTS
      ensures HeldBy(slots', owner', n', i')
    {
      assert HeldBy(slots, owner, n', i');
    }
    forall c | c in owner'
      ensures HomeTrue(slots', owner', c)
    {
      assert HomeTrue(slots, owner, c);
    }
    forall j: nat | j < BITS * |m'|
      ensures BitTrue(m', owner', reserved, j)
    {
      assert BitTrue(m, owner, reserved, j);
      MarkFreeAt(m, b - 1, j);
    }
  }

  function NoSlots(): (s: seq<nat>)
    ensures |s| == SLOTS && forall i | 0 <= i < SLOTS :: s[i] == 0
  {
    seq(SLOTS, i => 0)
  }

  lemma LedgerNewFile(m: Sectors, slots: Slots, owner: Owner, reserved: set<nat>, n: nat)
    requires Ledger(m, slots, owner, reserved) && n !in slots
    ensures Ledger(m, slots[n := NoSlots()], owner, reserved)
  {
    var slots' := slots[n := NoSlots()];
    forall n', i': nat | n' in slots' && i' < SLOTS
      ensures HeldBy(slots', owner, n', i')
    {
      if n' != n { assert HeldBy(slots, owner, n', i'); }
    }
    forall b | b in owner
      ensures HomeTrue(slots', owner, b)
    {
      assert HomeTrue(slots, owner, b);
    }
  }

  lemma LedgerDropFile(m: Sectors, slots: Slots, owner: Owner, reserved: set<nat>, n: nat)
    requires Ledger(m, slots, owner, reserved) && n in slots && slots[n] == NoSlots()
    ensures Ledger(m, slots - {n}, owner, reserved)
  {
    var slots' := slots - {n};
    forall n', i': nat | n' in slots' && i' < SLOTS
      ensures HeldBy(slots', owner, n', i')
    {
      assert HeldBy(slots, owner, n', i');
    }
    forall b | b in owner
      ensures HomeTrue(slots', owner, b)
    {
      assert HomeTrue(slots, owner, b);
    }
  }

  // ---------------------------------------------------------------- a file's block numbers

  function Zeros(n: nat): (s: seq<nat>)
    ensures |s| == n && forall i | 0 <= i < n :: s[i] == 0
  {
    seq(n, i => 0)
  }

  predicate InodeOk(ino: Inode) { |ino.dbp| == DIRECT }

  /** The numbers held through `ino` when its indirect block holds `buf`. */
  function SlotsOf(ino: Inode, buf: Block): (s: seq<nat>)
    requires InodeOk(ino) && |buf| == WORDS
    ensures |s| == SLOTS
  {
    ino.dbp + (if ino.sibp == 0 then Zeros(WORDS) else buf) + [ino.sibp]
  }

  lemma SlotsDirect(ino: Inode, buf: Block, i: nat, b: nat)
    requires InodeOk(ino) && |buf| == WORDS && i < DIRECT
    ensures SlotsOf(ino.(dbp := ino.dbp[i := b]), buf) == SlotsOf(ino, buf)[i := b]
    ensures SlotsOf(ino, buf)[i] == ino.dbp[i]
  {
  }

  lemma SlotsIndirect(ino: Inode, buf: Block, j: nat, b: nat)
    requires InodeOk(ino) && |buf| == WORDS && j < WORDS && ino.sibp != 0
    ensures SlotsOf(ino, buf[j := b]) == SlotsOf(ino, buf)[DIRECT + j := b]
    ensures SlotsOf(ino, buf)[DIRECT + j] == buf[j]
  {
  }

  lemma SlotsSibp(ino: Inode, buf: Block, b: nat)
    requires InodeOk(ino) && |buf| == WORDS && ino.sibp == 0
    ensures SlotsOf(ino.(sibp := b), Zeros(WORDS)) == SlotsOf(ino, buf)[SIBP := b]
    ensures SlotsOf(ino, buf)[SIBP] == 0
  {
  }

  // ---------------------------------------------------------------- the disk behind the ledger

  /** Every block that is held or may be handed out exists. */
  ghost predicate Stored(m: Sectors, owner: Owner, disk: Disk)
    requires Whole(m)
  {
    && (forall b | b in disk :: |disk[b]| == WORDS)
    && (forall b | b in owner :: b in disk)
    && (forall k: nat {:trigger Used(m, k)} | k < BITS * |m| && !Used(m, k) :: k + 1 in disk)
  }

  // ---------------------------------------------------------------- the inode table

  predicate TableOk(table: seq<seq<Inode>>)
  {
    forall t | 0 <= t < |table| :: |table[t]| == PER_BLOCK && forall j | 0 <= j < PER_BLOCK :: InodeOk(table[t][j])
  }

  predicate InTable(table: seq<seq<Inode>>, n: nat) { n > 0 && (n - 1) / PER_BLOCK < |table| }

  /** ext2_get_inode. */
  function InodeAt(table: seq<seq<Inode>>, n: nat): (ino: Inode)
    requires TableOk(table) && InTable(table, n)
    ensures InodeOk(ino)
  {
    table[(n - 1) / PER_BLOCK][(n - 1) % PER_BLOCK]
  }

  /** __ext2_update_inode_table: the block is read, one slot replaced, and written back. */
  function PutInode(table: seq<seq<Inode>>, n: nat, ino: Inode): (table': seq<seq<Inode>>)
    requires TableOk(table) && InTable(table, n) && InodeOk(ino)
    ensures TableOk(table') && |table'| == |table|
  {
    var t := (n - 1) / PER_BLOCK;
    table[t := table[t][(n - 1) % PER_BLOCK := ino]]
  }

  lemma PutInodeAt(table: seq<seq<Inode>>, n: nat, ino: Inode, n': nat)
    requires TableOk(table) && InTable(table, n) && InodeOk(ino) && InTable(table, n')
    ensures InodeAt(PutInode(table, n, ino), n') == if n' == n then ino else InodeAt(table, n')
    ensures PutInode(table, n, ino)[(n - 1) / 32][(n - 1) % 32] == ino
  {
  }

  predicate Live(m: Sectors, table: seq<seq<Inode>>, n: nat)
    requires Whole(m)
  {
    InTable(table, n) && n - 1 < BITS * |m| && Used(m, n - 1)
  }

  predicate Cached(cache: map<nat, Inode>, table: seq<seq<Inode>>, slots: Slots, n: nat)
    requires TableOk(table) && n in cache
  {
    n in slots && InTable(table, n) && cache[n] == InodeAt(table, n)
  }

  /** The inode bitmap, table and cache agree with the live files. */
  ghost predicate Inodes(m: Sectors, table: seq<seq<Inode>>, cache: map<nat, Inode>, slots: Slots)
  {
    && Whole(m) && TableOk(table)
    && (forall k: nat {:trigger Used(m, k)} | k < BITS * |m| && !Used(m, k) :: InTable(table, k + 1))
    && (forall n {:trigger Live(m, table, n)} | n in slots :: Live(m, table, n))
    && (forall n {:trigger Cached(cache, table, slots, n)} | n in cache :: Cached(cache, table, slots, n))
  }

  /** No number beyond the blocks a file of that size needs; a new file has a first block whatever its size. */
  predicate Sized(s: seq<nat>, size: nat)
  {
    |s| == SLOTS && forall i | Max(1, Needed(size)) <= i < MAX_BLOCKS :: s[i] == 0
  }

  /** File `n`'s numbers are the ones its table slot and indirect block spell out, and no more than its size needs. */
  ghost predicate TiedAt(table: seq<seq<Inode>>, slots: Slots, disk: Disk, n: nat)
    requires n in slots
  {
    && TableOk(table) && InTable(table, n) && Tied(slots[n], InodeAt(table, n), disk)
    && Sized(slots[n], InodeAt(table, n).size)
  }

  ghost predicate AllTied(table: seq<seq<Inode>>, slots: Slots, disk: Disk)
  {
    forall n {:trigger TiedAt(table, slots, disk, n)} | n in slots :: TiedAt(table, slots, disk, n)
  }

  class Volume {
    const blocks: nat
    var blockMap: Sectors
    var free: nat  // of the superblock
    var groupFree: nat  // of the group descriptor, 16 bits
    var disk: Disk
    var inodeMap: Sectors
    var freeInodes: nat
    var table: seq<seq<Inode>>
    var cache: map<nat, Inode>
    ghost var slots: Slots
    ghost var owner: Owner
    ghost var reserved: set<nat>

    /** A volume without files: whatever its bitmap marks is reserved. */
    constructor (blocks: nat, blockMap: Sectors, disk: Disk, inodeMap: Sectors, table: seq<seq<Inode>>)
      requires Whole(blockMap) && Whole(inodeMap) && |blockMap| == Span(blocks / 8) == |inodeMap|
      requires Stored(blockMap, map[], disk) && Inodes(inodeMap, table, map[], map[])
      ensures Valid() && slots == map[] && cache == map[]
      ensures this.blocks == blocks && this.blockMap == blockMap && this.disk == disk && this.inodeMap == inodeMap && this.table == table
    {
      this.blocks, this.blockMap, this.disk, this.inodeMap, this.table := blocks, blockMap, disk, inodeMap, table;
      free, groupFree, freeInodes := FreeCount(blockMap), FreeCount(blockMap) % U16, FreeCount(inodeMap);
      cache, slots, owner := map[], map[], map[];
      reserved := set k: nat | k < BITS * |blockMap| && Used(blockMap, k) :: k + 1;
      new;
      forall k: nat | k < BITS * |blockMap|
        ensures BitTrue(blockMap, owner, reserved, k)
      {
      }
    }

    /** Bitmap, counter and disk agree with what the files hold. */
    ghost predicate BlocksOk()
      reads `blockMap, `free, `groupFree, `disk, `slots, `owner, `reserved
    {
      && Ledger(blockMap, slots, owner, reserved) && |blockMap| == Span(blocks / 8)
      && free == FreeCount(blockMap) && groupFree == free % 0x10000
      && Stored(blockMap, owner, disk)
    }

    ghost predicate Valid()
      reads this
    {
      && BlocksOk()
      && Inodes(inodeMap, table, cache, slots) && |inodeMap| == Span(blocks / 8) && freeInodes == FreeCount(inodeMap)
      && AllTied(table, slots, disk)
    }

    /** __ext2_find_free_blocks and __ext2_find_higher_half_free_blocks, for slot `i` of file `n`. */
    method Alloc(upperHalf: bool, ghost n: nat, ghost i: nat) returns (id: nat)
      requires BlocksOk() && n in slots && i < SLOTS && slots[n][i] == 0
      modifies `blockMap, `free, `groupFree, `slots, `owner
      ensures BlocksOk()
      ensures id == 0 ==> free == old(free) && slots == old(slots) && owner == old(owner) && blockMap == old(blockMap)
      ensures id == 0 <==> NoneFound(old(blockMap), blocks / 8, if upperHalf then blocks / 8 / 2 else 0)
      ensures !upperHalf ==> (id == 0 <==> old(free) == 0)
      ensures id != 0 ==> free == old(free) - 1 && id !in old(owner) && id !in reserved && id in disk
      ensures id != 0 ==> slots == Assign(old(slots), n, i, id) && owner == old(owner)[id := Home(n, i)]
    {
      var size := blocks / 8;
      var start := if upperHalf then size / 2 else 0;
      var m';
      id, m' := FindFree(blockMap, size, start);
      if id != 0 {
        Take(id, m', n, i);
      } else if !upperHalf {
        NoneClear(blockMap, size);
      }
    }

    /** The counters and holdings for a block just marked in use. */
    method Take(id: nat, m': Sectors, ghost n: nat, ghost i: nat)
      requires BlocksOk() && n in slots && i < SLOTS && slots[n][i] == 0
      requires 0 < id <= BITS * |blockMap| && !Used(blockMap, id - 1) && m' == MarkUsed(blockMap, id - 1)
      modifies `blockMap, `free, `groupFree, `slots, `owner
      ensures BlocksOk() && free == old(free) - 1 && id !in old(owner) && id !in reserved && id in disk
      ensures slots == Assign(old(slots), n, i, id) && owner == old(owner)[id := Home(n, i)]
    {
      Taken(blockMap, slots, owner, reserved, disk, id - 1, n, i);
      OneDown(free);
      blockMap := m';
      free, groupFree := free - 1, (groupFree + U16 - 1) % U16;
      slots, owner := Assign(slots, n, i, id), owner[id := Home(n, i)];
    }

    /** One turn of the growth loop: block `i` gets a number if it has none. */
    method MapBlock(n: nat, ino0: Inode, buf0: Block, i: nat) returns (ino: Inode, buf: Block)
      requires BlocksOk() && n in slots && i < MAX_BLOCKS && InodeOk(ino0) && |buf0| == WORDS
      requires slots[n] == SlotsOf(ino0, buf0)
      modifies `blockMap, `free, `groupFree, `slots, `owner
      ensures BlocksOk() && InodeOk(ino) && |buf| == WORDS && ino == ino0.(dbp := ino.dbp)
      ensures n in slots && slots[n] == SlotsOf(ino, buf) && slots == old(slots)[n := slots[n]]
      ensures forall j | 0 <= j < SLOTS && (j != i || old(slots)[n][j] != 0) :: slots[n][j] == old(slots)[n][j]
      ensures Gained(old(owner), owner, reserved, n)
      ensures i < DIRECT || ino0.sibp != 0 ==>
                && (slots[n][i] != 0 <==> old(slots)[n][i] != 0 || old(free) > 0)
                && free == old(free) - if old(slots)[n][i] == 0 && old(free) > 0 then 1 else 0
      ensures i >= DIRECT && ino0.sibp == 0 ==> slots == old(slots) && free == old(free)
      ensures ino0.sibp == 0 ==> buf == buf0
    {
      ino, buf := ino0, buf0;
      if i < DIRECT {
        SlotsDirect(ino, buf, i, 0);
        if ino.dbp[i] == 0 {
          var id := Alloc(false, n, i);
          SlotsDirect(ino, buf, i, id);
          ino := ino.(dbp := ino.dbp[i := id]);
        }
      } else if ino.sibp != 0 {
        SlotsIndirect(ino, buf, i - DIRECT, 0);
        if buf[i - DIRECT] == 0 {
          var id := Alloc(false, n, i);
          SlotsIndirect(ino, buf, i - DIRECT, id);
          buf := buf[i - DIRECT := id];
        }
      }
    }

    /** The indirect block of a file that grows past its direct ones: read, or asked of the upper half. */
    method GrowIndirect(n: nat, ino0: Inode, needed: nat) returns (ino: Inode, buf: Block)
      requires BlocksOk() && n in slots && Tied(slots[n], ino0, disk)
      modifies `blockMap, `free, `groupFree, `slots, `owner
      ensures BlocksOk() && ino == ino0.(sibp := ino.sibp) && |buf| == WORDS && (ino.sibp == 0 ==> buf == Zeros(WORDS))
      ensures n in slots && slots[n] == SlotsOf(ino, buf) && slots == old(slots)[n := slots[n]]
      ensures slots[n] == old(slots)[n][SIBP := ino.sibp] && Gained(old(owner), owner, reserved, n)
      ensures !(needed > DIRECT && ino0.sibp == 0) ==> ino == ino0 && free == old(free)
      ensures needed > DIRECT && ino0.sibp == 0 ==>
                && (ino.sibp == 0 <==> NoneFound(old(blockMap), blocks / 8, blocks / 8 / 2))
                && free == old(free) - if ino.sibp == 0 then 0 else 1
    {
      buf := Zeros(WORDS);
      ino := ino0;
      assert slots[n][SIBP] == ino.sibp;
      var newSibp := false;
      if needed > DIRECT && ino.sibp == 0 {
        var id := Alloc(true, n, SIBP);
        SlotsSibp(ino, Zeros(WORDS), id);
        ino := ino.(sibp := id);
        newSibp := true;
      }
      if ino.sibp != 0 && !newSibp { buf := disk[ino.sibp]; }
    }

    /** The growth loop: a number for each of the first `needed` blocks that has none and can be numbered. */
    method GrowBlocks(n: nat, ino0: Inode, buf0: Block, needed: nat) returns (ino: Inode, buf: Block)
      requires BlocksOk() && n in slots && needed <= MAX_BLOCKS && InodeOk(ino0) && |buf0| == WORDS
      requires slots[n] == SlotsOf(ino0, buf0) && (ino0.sibp == 0 ==> buf0 == Zeros(WORDS))
      modifies `blockMap, `free, `groupFree, `slots, `owner
      ensures BlocksOk() && InodeOk(ino) && |buf| == WORDS && ino == ino0.(dbp := ino.dbp) && (ino.sibp == 0 ==> buf == Zeros(WORDS))
      ensures n in slots && slots[n] == SlotsOf(ino, buf) && slots == old(slots)[n := slots[n]]
      ensures Kept(old(slots)[n], slots[n], needed) && Gained(old(owner), owner, reserved, n)
      ensures Supplied(slots[n], Reach(ino.sibp, needed), old(free), Missing(old(slots)[n], Reach(ino.sibp, needed)), free)
    {
      ino, buf := ino0, buf0;
      ghost var s0 := slots[n];
      var i := 0;
      while i < needed
        invariant i <= needed && BlocksOk() && InodeOk(ino) && |buf| == WORDS
        invariant ino == ino0.(dbp := ino.dbp) && (ino.sibp == 0 ==> buf == Zeros(WORDS))
        invariant n in slots && slots[n] == SlotsOf(ino, buf) && slots == old(slots)[n := slots[n]]
        invariant Progress(s0, slots[n], i, ino.sibp, old(free), free) && Gained(old(owner), owner, reserved, n)
      {
        ghost var s1, owner1, free1 := slots[n], owner, free;
        ino, buf := MapBlock(n, ino, buf, i);
        GainedMore(old(owner), owner1, owner, reserved, n);
        ProgressMore(s0, s1, slots[n], i, ino.sibp, old(free), free1, free);
        i := i + 1;
      }
    }

    /**
     The part of __ext2_update_file that finds numbers for the first `needed` blocks.  Each of them has
     one afterwards exactly when the volume can supply what is missing.
     */
    method Grow(n: nat, ino0: Inode, needed: nat) returns (ino: Inode, buf: Block)
      requires BlocksOk() && n in slots && needed <= MAX_BLOCKS && Tied(slots[n], ino0, disk)
      modifies `blockMap, `free, `groupFree, `slots, `owner
      ensures BlocksOk() && InodeOk(ino) && |buf| == WORDS
      ensures ino == ino0.(dbp := ino.dbp, sibp := ino.sibp) && (ino.sibp == 0 ==> buf == Zeros(WORDS))
      ensures n in slots && slots[n] == SlotsOf(ino, buf) && slots == old(slots)[n := slots[n]]
      ensures Grown(old(slots)[n], slots[n], needed) && Gained(old(owner), owner, reserved, n)
      ensures Full(slots[n], needed) <==> Enough(old(free), old(blockMap), blocks, old(slots)[n], needed)
      ensures NoIndirect(old(blockMap), blocks, old(slots)[n], needed) ==> slots[n][DIRECT..] == old(slots)[n][DIRECT..] == Zeros(WORDS + 1)
      ensures free == FreeAfter(old(free), old(blockMap), blocks, old(slots)[n], needed)
    {
      ino, buf := GrowIndirect(n, ino0, needed);
      ghost var s1, owner1, free1 := slots[n], owner, free;
      ino, buf := GrowBlocks(n, ino, buf, needed);
      GainedMore(old(owner), owner1, owner, reserved, n);
      GrownExactly(old(slots)[n], s1, slots[n], ino.sibp, old(free), free1, free, old(blockMap), blocks, needed);
    }

    /** The indirect block, the inode table and the cached inode brought up to date. */
    method Commit(n: nat, ino: Inode, buf: Block, ghost slots0: Slots)
      requires BlocksOk() && Inodes(inodeMap, table, cache, slots0) && AllTied(table, slots0, disk)
      requires n in slots0 && n in slots && slots == slots0[n := slots[n]] && InodeOk(ino) && |buf| == WORDS
      requires slots[n] == SlotsOf(ino, buf) && n in cache && Sized(slots[n], ino.size)
      modifies `disk, `table, `cache
      ensures BlocksOk() && Inodes(inodeMap, table, cache, slots) && AllTied(table, slots, disk)
      ensures n in cache && cache == old(cache)[n := ino]
      ensures InTable(old(table), n) && table == PutInode(old(table), n, ino)
      ensures disk == Committed(old(disk), ino, buf) && (ino.sibp != 0 ==> ino.sibp in old(disk))
    {
      SibpStored(blockMap, slots, owner, reserved, disk, n, ino, buf);
      assert Live(inodeMap, table, n);
      CommitInodes(inodeMap, table, cache, slots0, slots, n, ino);
      CommitTied(table, slots0, slots, owner, disk, n, ino, buf);
      if ino.sibp != 0 { disk := disk[ino.sibp := buf]; }
      table := PutInode(table, n, ino);
      cache := cache[n := ino];
    }

    /** The write loop of __ext2_update_file. */
    method WriteData(n: nat, ino: Inode, buf: Block, buffer: seq<Block>, first: nat, last: nat)
      requires Valid() && n in slots && InodeOk(ino) && |buf| == WORDS && slots[n] == SlotsOf(ino, buf)
      requires ino.sibp == 0 ==> buf == Zeros(WORDS)
      requires last <= |buffer| && last <= MAX_BLOCKS && forall i | first <= i < last :: |buffer[i]| == WORDS
      modifies `disk
      ensures Valid() && Wrote(old(disk), disk, slots[n], owner, n, buffer, first, last)
    {
      var i := first;
      while i < last
        invariant first <= i && (i <= last || i == first) && Valid()
        invariant Wrote(old(disk), disk, slots[n], owner, n, buffer, first, i)
      {
        var id := if i < DIRECT then ino.dbp[i] else buf[i - DIRECT];
        assert id == slots[n][i];
        if id != 0 {
          WriteOne(blockMap, table, slots, owner, reserved, disk, n, i, buffer[i]);
          WroteMore(old(disk), disk, slots, owner, n, buffer, first, i);
          disk := disk[id := buffer[i]];
        }
        i := i + 1;
      }
    }

    /** What __ext2_update_file does once every block has its number. */
    method WriteBack(n: nat, ino: Inode, buf: Block, buffer: seq<Block>, first: nat, last: nat, ghost slots0: Slots)
      requires BlocksOk() && Inodes(inodeMap, table, cache, slots0) && AllTied(table, slots0, disk)
      requires |inodeMap| == Span(blocks / 8) && freeInodes == FreeCount(inodeMap)
      requires n in slots0 && n in slots && slots == slots0[n := slots[n]] && InodeOk(ino) && |buf| == WORDS
      requires slots[n] == SlotsOf(ino, buf) && n in cache && (ino.sibp == 0 ==> buf == Zeros(WORDS)) && Sized(slots[n], ino.size)
      requires last <= |buffer| && last <= MAX_BLOCKS && forall i | first <= i < last :: |buffer[i]| == WORDS
      modifies `disk, `table, `cache
      ensures Valid() && n in cache && cache == old(cache)[n := ino]
      ensures InTable(old(table), n) && table == PutInode(old(table), n, ino)
      ensures Updated(old(disk), disk, slots[n], owner, n, buffer, first, last)
    {
      Commit(n, ino, buf, slots0);
      ghost var disk1 := disk;
      WriteData(n, ino, buf, buffer, first, last);
      UpdatedBy(old(disk), disk1, disk, slots, owner, n, ino, buf, buffer, first, last);
    }

    /**
     __ext2_update_file on the cached inode of file `n`.  `buffer` is the whole
     file in memory, block by block.  The result is 0 also when blocks got no number.
     */
    method UpdateFile(n: nat, buffer: seq<Block>, offset: nat, len: nat) returns (r: int)
      requires Valid() && n in cache && n in slots
      requires BufferOk(cache[n], buffer, offset, len)
      modifies `blockMap, `free, `groupFree, `disk, `table, `cache, `slots, `owner
      ensures Valid() && n in slots && n in cache && slots == old(slots)[n := slots[n]]
      ensures cache == old(cache)[n := cache[n]] && cache[n].size == NewSize(old(cache)[n], offset, len)
      ensures var needed := Needed(cache[n].size);
              && Grown(old(slots)[n], slots[n], needed) && Gained(old(owner), owner, reserved, n)
              && BytesWritten(old(disk), disk, slots[n], owner, n, buffer, offset, len)
              && (Full(slots[n], needed) <==> Enough(old(free), old(blockMap), blocks, old(slots)[n], needed))
              && (NoIndirect(old(blockMap), blocks, old(slots)[n], needed) ==> slots[n][DIRECT..] == Zeros(WORDS + 1))
              && free == FreeAfter(old(free), old(blockMap), blocks, old(slots)[n], needed)
      ensures cache[n] == old(cache)[n].(size := cache[n].size, sectors := cache[n].sectors, dbp := cache[n].dbp, sibp := cache[n].sibp)
      ensures InodeOk(cache[n]) && InTable(old(table), n) && table == PutInode(old(table), n, cache[n])
      ensures cache[n].sectors == 8 * Needed(cache[n].size) + if cache[n].sibp == 0 then 0 else 8
      ensures r == 0
    {
      assert Cached(cache, table, slots, n);
      assert TiedAt(table, slots, disk, n);
      ghost var slots0 := slots;
      var ino := cache[n];
      if ino.size < offset + len { ino := ino.(size := offset + len); }
      var needed := Needed(ino.size);
      var buf;
      ino, buf := Grow(n, ino, needed);
      NeededGrows(cache[n].size, ino.size);
      ino := ino.(sectors := needed * SEC_PER_BLOCK + if ino.sibp != 0 then SEC_PER_BLOCK else 0);
      WriteBack(n, ino, buf, buffer, offset / BLOCK_SIZE, LastBlock(offset, len, needed), slots0);
      InBytes(old(disk), disk, slots[n], owner, n, buffer, ino.size, offset, len);
      return 0;
    }

    /** __ext2_read_file: the blocks of the file in order, absent ones passed over. */
    method ReadFile(n: nat) returns (out: seq<Block>)
      requires Valid() && n in cache && n in slots
      ensures AllStored(disk, slots[n]) && out == Gather(disk, slots[n], MAX_BLOCKS)
    {
      assert Cached(cache, table, slots, n);
      assert TiedAt(table, slots, disk, n);
      HeldStored(blockMap, slots, owner, reserved, disk, n);
      var ino := cache[n];
      out := [];
      var i := 0;
      while i < DIRECT
        invariant i <= DIRECT && out == Gather(disk, slots[n], i)
      {
        assert ino.dbp[i] == slots[n][i];
        if ino.dbp[i] != 0 { out := out + [disk[ino.dbp[i]]]; }
        i := i + 1;
      }
      if ino.sibp != 0 {
        var buf := disk[ino.sibp];
        i := 0;
        while i < WORDS
          invariant i <= WORDS && out == Gather(disk, slots[n], DIRECT + i)
        {
          assert buf[i] == slots[n][DIRECT + i];
          if buf[i] != 0 { out := out + [disk[buf[i]]]; }
          i := i + 1;
        }
      } else {
        GatherNone(disk, slots[n], DIRECT, MAX_BLOCKS);
      }
    }

    /**
     A write followed by a read.  Up to the first block without a number the file reads back as written, on both
     sides of the indirect boundary, and elsewhere as it stood on the disk; every block has a number exactly
     when the volume could supply the missing ones.
     */
    method WriteThenRead(n: nat, buffer: seq<Block>, offset: nat, len: nat) returns (out: seq<Block>)
      requires Valid() && n in cache && n in slots
      requires BufferOk(cache[n], buffer, offset, len)
      modifies `blockMap, `free, `groupFree, `disk, `table, `cache, `slots, `owner
      ensures Valid() && n in slots && slots == old(slots)[n := slots[n]]
      ensures var needed := Needed(NewSize(old(cache)[n], offset, len));
              && Grown(old(slots)[n], slots[n], needed)
              && (Full(slots[n], needed) <==> Enough(old(free), old(blockMap), blocks, old(slots)[n], needed))
              && (Full(slots[n], needed) ==> |out| == if needed == 0 && slots[n][0] != 0 then 1 else needed)
      ensures forall x: nat {:trigger Asked(offset, len, x)} |
                Asked(offset, len, x) && x / 4096 < 1036 && Full(slots[n], x / 4096 + 1) ::
                x / 4096 < |out| && x / 4096 < |buffer| && out[x / 4096] == buffer[x / 4096]
      ensures forall i: nat {:trigger Rewritten(offset, len, i)} | i < 1036 && Full(slots[n], i + 1) && !Rewritten(offset, len, i) ::
                i < |out| && slots[n][i] in old(disk) && out[i] == old(disk)[slots[n][i]]
    {
      ghost var needed := Needed(NewSize(cache[n], offset, len));
      ghost var disk0 := disk;
      var _ := UpdateFile(n, buffer, offset, len);
      HeldStored(blockMap, slots, owner, reserved, disk, n);
      out := ReadFile(n);
      if Full(slots[n], needed) {
        assert Cached(cache, table, slots, n) && TiedAt(table, slots, disk, n);
        GatherSized(disk, slots[n], needed);
      }
      forall x: nat | Asked(offset, len, x) && x / 4096 < 1036 && Full(slots[n], x / 4096 + 1)
        ensures x / 4096 < |out| && x / 4096 < |buffer| && out[x / 4096] == buffer[x / 4096]
      {
        GatherPrefix(disk, slots[n], x / 4096, MAX_BLOCKS);
        assert Rewritten(offset, len, x / 4096);
      }
      forall i: nat | i < 1036 && Full(slots[n], i + 1) && !Rewritten(offset, len, i)
        ensures i < |out| && slots[n][i] in disk0 && out[i] == disk0[slots[n][i]]
      {
        GatherPrefix(disk, slots[n], i, MAX_BLOCKS);
        ReadBack(disk0, disk, slots, owner, n, buffer, offset, len, i);
      }
    }

    /** __ext2_free_alloc_block, for the block in slot `i` of file `n`. */
    method GiveBlock(id: nat, ghost n: nat, ghost i: nat)
      requires BlocksOk() && n in slots && i < SLOTS && id != 0 && slots[n][i] == id
      modifies `blockMap, `free, `groupFree, `slots, `owner
      ensures BlocksOk()
      ensures id in old(owner) && free == old(free) + 1 && owner == old(owner) - {id}
      ensures slots == Assign(old(slots), n, i, 0)
    {
      Given(blockMap, slots, owner, reserved, disk, n, i);
      OneUp(free);
      blockMap := ClearId(blockMap, id);
      free, groupFree := free + 1, (groupFree + 1) % U16;
      slots, owner := Assign(slots, n, i, 0), owner - {id};
    }

    /** Slot `i` emptied, if it holds a block. */
    method GiveSlot(id: nat, ghost n: nat, ghost i: nat, ghost s0: seq<nat>)
      requires BlocksOk() && n in slots && |s0| == SLOTS && i < SLOTS && slots[n] == ZeroTo(s0, i) && s0[i] == id
      modifies `blockMap, `free, `groupFree, `slots, `owner
      ensures BlocksOk() && n in slots && slots == old(slots)[n := ZeroTo(s0, i + 1)]
      ensures Lost(old(owner), owner, n)
    {
      ZeroStep(s0, i);
      assert HeldBy(slots, owner, n, i);
      if id != 0 { GiveBlock(id, n, i); }
      assert slots[n] == ZeroTo(s0, i + 1);
    }

    /** The direct blocks. */
    method FreeDirect(n: nat, dbp0: seq<nat>, ghost s0: seq<nat>) returns (dbp: seq<nat>)
      requires BlocksOk() && n in slots && |s0| == SLOTS && slots[n] == s0 && |dbp0| == DIRECT && s0[..DIRECT] == dbp0
      modifies `blockMap, `free, `groupFree, `slots, `owner
      ensures BlocksOk() && slots == old(slots)[n := ZeroTo(s0, DIRECT)]
      ensures dbp == Zeros(DIRECT) && Lost(old(owner), owner, n)
    {
      assert s0 == ZeroTo(s0, 0) && dbp0 == ZeroTo(dbp0, 0);
      dbp := dbp0;
      var i := 0;
      while i < DIRECT
        invariant i <= DIRECT && BlocksOk() && n in slots && slots == old(slots)[n := ZeroTo(s0, i)]
        invariant dbp == ZeroTo(dbp0, i) && Lost(old(owner), owner, n)
      {
        ghost var owner1 := owner;
        ZeroStep(dbp0, i);
        assert dbp0[i] == s0[..DIRECT][i] == s0[i];
        GiveSlot(dbp[i], n, i, s0);
        LostMore(old(owner), owner1, owner, n);
        if dbp[i] != 0 { dbp := dbp[i := 0]; }
        i := i + 1;
      }
      assert ZeroTo(dbp0, DIRECT) == Zeros(DIRECT);
    }

    /** __ext2_free_file_blocks: every block of the file, the indirect one included, goes back. */
    method FreeFileBlocks(n: nat, ino0: Inode) returns (ino: Inode)
      requires BlocksOk() && n in slots && Tied(slots[n], ino0, disk)
      modifies `blockMap, `free, `groupFree, `slots, `owner
      ensures BlocksOk() && ino == ino0.(dbp := Zeros(DIRECT), sibp := 0)
      ensures slots == old(slots)[n := NoSlots()]
      ensures Lost(old(owner), owner, n)
    {
      ghost var s0 := slots[n];
      TiedParts(s0, ino0, disk);
      var dbp := FreeDirect(n, ino0.dbp, s0);
      ino := ino0.(dbp := dbp);
      if ino.sibp != 0 {
        ghost var owner1 := owner;
        FreeIndirect(n, ino.sibp, s0);
        LostMore(old(owner), owner1, owner, n);
        ino := ino.(sibp := 0);
      }
    }

    /** The blocks numbered in the indirect block, and then that block. */
    method FreeIndirect(n: nat, sibp: nat, ghost s0: seq<nat>)
      requires BlocksOk() && n in slots && |s0| == SLOTS && slots[n] == ZeroTo(s0, DIRECT)
      requires sibp != 0 && s0[SIBP] == sibp && sibp in disk && s0[DIRECT..SIBP] == disk[sibp]
      modifies `blockMap, `free, `groupFree, `slots, `owner
      ensures BlocksOk() && slots == old(slots)[n := NoSlots()]
      ensures Lost(old(owner), owner, n)
    {
      var buf := disk[sibp];
      var i := 0;
      while i < WORDS
        invariant i <= WORDS && BlocksOk() && n in slots && slots == old(slots)[n := ZeroTo(s0, DIRECT + i)]
        invariant Lost(old(owner), owner, n)
      {
        ghost var owner1 := owner;
        assert buf[i] == s0[DIRECT..SIBP][i] == s0[DIRECT + i];
        GiveSlot(buf[i], n, DIRECT + i, s0);
        LostMore(old(owner), owner1, owner, n);
        i := i + 1;
      }
      ghost var owner1 := owner;
      GiveSlot(sibp, n, SIBP, s0);
      LostMore(old(owner), owner1, owner, n);
      assert ZeroTo(s0, SLOTS) == NoSlots();
    }

    /** The blocks of file `n` go back and the file holds nothing any more. */
    method DropBlocks(n: nat, ino0: Inode) returns (ino: Inode)
      requires BlocksOk() && n in slots && Tied(slots[n], ino0, disk)
      modifies `blockMap, `free, `groupFree, `slots, `owner
      ensures BlocksOk() && slots == old(slots) - {n} && ino == ino0.(dbp := Zeros(DIRECT), sibp := 0)
      ensures Returned(old(owner), owner, n)
    {
      ino := FreeFileBlocks(n, ino0);
      AllReturned(slots, old(owner), owner, n);
      LedgerDropFile(blockMap, slots, owner, reserved, n);
      slots := slots - {n};
      assert slots == old(slots) - {n};
    }

    /** __ext2_update_inode_table, __ext2_free_alloc_inode and ext2_cache_delete_inode on a file being removed. */
    method FreeInode(n: nat, ino: Inode, ghost slots0: Slots)
      requires Inodes(inodeMap, table, cache, slots0) && AllTied(table, slots0, disk) && n in slots0 && n > 0 && InodeOk(ino)
      requires freeInodes == FreeCount(inodeMap) && n - 1 < BITS * |inodeMap|
      modifies `inodeMap, `freeInodes, `table, `cache
      ensures Inodes(inodeMap, table, cache, slots0 - {n}) && AllTied(table, slots0 - {n}, disk)
      ensures freeInodes == FreeCount(inodeMap) && freeInodes == old(freeInodes) + 1
      ensures cache == old(cache) - {n} && inodeMap == MarkFree(old(inodeMap), n - 1)
      ensures InTable(old(table), n) && table == PutInode(old(table), n, ino)
    {
      assert Live(inodeMap, table, n);
      UnlinkInodes(inodeMap, table, cache, slots0, n, ino);
      UnlinkTied(table, slots0, disk, n, ino);
      GiveCount(inodeMap, n - 1);
      table := PutInode(table, n, ino);
      inodeMap := ClearId(inodeMap, n);
      freeInodes := freeInodes + 1;
      cache := cache - {n};
    }

    /**
     The part of __ext2_remove that deletes file `n`: its blocks, its table slot,
     its inode number and its cached inode.
     */
    method Unlink(n: nat)
      requires Valid() && n in cache && n in slots
      modifies `blockMap, `free, `groupFree, `inodeMap, `freeInodes, `table, `cache, `slots, `owner
      ensures Valid()
      ensures slots == old(slots) - {n} && cache == old(cache) - {n}
      ensures Returned(old(owner), owner, n)
      ensures 0 < n <= BITS * |old(inodeMap)| && inodeMap == MarkFree(old(inodeMap), n - 1) && freeInodes == old(freeInodes) + 1
      ensures InTable(old(table), n)
      ensures table == PutInode(old(table), n, old(cache)[n].(links := 0, size := 0, sectors := 0, dbp := Zeros(12), sibp := 0))
    {
      assert Cached(cache, table, slots, n);
      assert TiedAt(table, slots, disk, n);
      assert Live(inodeMap, table, n);
      ghost var slots0 := slots;
      var ino := DropBlocks(n, cache[n]);
      FreeInode(n, ino.(links := 0, size := 0, sectors := 0), slots0);
    }

    /** An inode number taken from its bitmap; there is a free one. */
    method TakeInode() returns (n: nat)
      requires Valid() && freeInodes > 0
      modifies `inodeMap, `freeInodes
      ensures Valid() && n !in slots && Live(inodeMap, table, n)
      ensures freeInodes == old(freeInodes) - 1 && inodeMap == MarkUsed(old(inodeMap), n - 1)
    {
      var m';
      n, m' := FindFree(inodeMap, blocks / 8, 0);
      if n == 0 { NoneClear(inodeMap, blocks / 8); }
      assert n in slots ==> Live(inodeMap, table, n);
      TakeCount(inodeMap, n - 1);
      TakeInodes(inodeMap, table, cache, slots, n - 1);
      inodeMap, freeInodes := m', freeInodes - 1;
    }

    /** An empty file `n`, given its first block if there is a free one. */
    method FirstBlockOf(n: nat) returns (b: nat)
      requires BlocksOk() && n !in slots
      modifies `blockMap, `free, `groupFree, `slots, `owner
      ensures BlocksOk() && n in slots && slots == old(slots)[n := NoSlots()[0 := b]]
      ensures (b == 0 <==> old(free) == 0) && free == Minus(old(free), 1)
      ensures Gained(old(owner), owner, reserved, n)
    {
      LedgerNewFile(blockMap, slots, owner, reserved, n);
      slots := slots[n := NoSlots()];
      b := Alloc(false, n, 0);
      assert NoSlots()[0 := 0] == NoSlots();
      assert slots == old(slots)[n := NoSlots()[0 := b]];
    }

    /** __ext2_create_new_inode: a file with one block, or with none when the volume is full. */
    method Create(size: nat, mode: nat) returns (n: nat)
      requires Valid() && freeInodes > 0
      modifies `blockMap, `free, `groupFree, `inodeMap, `freeInodes, `table, `slots, `owner
      ensures Valid() && n in slots && n !in old(slots) && n !in cache && freeInodes == old(freeInodes) - 1
      ensures slots == old(slots)[n := slots[n]] && Gained(old(owner), owner, reserved, n)
      ensures slots[n] == NoSlots()[0 := slots[n][0]] && (slots[n][0] == 0 <==> old(free) == 0) && free == Minus(old(free), 1)
      ensures InTable(old(table), n)
      ensures table == PutInode(old(table), n, Inode(mode, size, 1, size / 512, [slots[n][0]] + Zeros(11), 0))
    {
      ghost var slots0 := slots;
      n := TakeInode();
      assert n in cache ==> Cached(cache, table, slots, n);
      var b := FirstBlockOf(n);
      var ino := Inode(mode, size, 1, size / 512, [b] + Zeros(DIRECT - 1), 0);
      FirstBlock(ino, b);
      CreateInodes(inodeMap, table, cache, slots0, slots, disk, n, ino);
      PutInodeAt(table, n, ino, n);
      table := PutInode(table, n, ino);
    }

    /** ext2_cache_search_inode. */
    method CacheSearch(n: nat) returns (ino: Inode)
      requires Valid() && n in slots
      modifies `cache
      ensures Valid() && n in cache && cache[n] == ino && InTable(table, n) && ino == InodeAt(table, n)
      ensures cache == old(cache)[n := ino] && (n in old(cache) ==> cache == old(cache))
    {
      assert Live(inodeMap, table, n);
      if n !in cache {
        ghost var cache0 := cache;
        cache := cache[n := InodeAt(table, n)];
        forall m | m in cache
          ensures Cached(cache, table, slots, m)
        {
          if m != n { assert Cached(cache0, table, slots, m); }
        }
      }
      assert Cached(cache, table, slots, n);
      ino := cache[n];
    }

    ghost function Now(): Shot
      reads this
    {
      Shot(slots, disk, table, cache.Keys, freeInodes)
    }

    lemma AllThere()
      requires Valid()
      ensures InodesThere(Now())
    {
      forall n | n in slots ensures InTable(table, n) {
        assert Live(inodeMap, table, n);
      }
    }

    /** A write as an operation: refused if the file is not live and cached, or the buffer too short. */
    method DoWrite(op: Operation, live: set<nat>)
      requires Valid() && live == slots.Keys && op.Write?
      modifies this
      ensures Valid() && slots.Keys == live && Follows(old(Now()), Now(), op)
    {
      ghost var a := Now();
      AllThere();
      if op.n in live && op.n in cache {
        assert Cached(cache, table, slots, op.n);
        if BufferOk(cache[op.n], op.buffer, op.offset, op.len) {
          var _ := UpdateFile(op.n, op.buffer, op.offset, op.len);
          WriteFollows(a, Now(), owner, op, Needed(cache[op.n].size), cache[op.n]);
        }
      }
    }

    method DoCreate(op: Operation, live: set<nat>) returns (live': set<nat>)
      requires Valid() && live == slots.Keys && op.Create?
      modifies this
      ensures Valid() && live' == slots.Keys && Follows(old(Now()), Now(), op)
    {
      live' := live;
      ghost var a := Now();
      if freeInodes > 0 {
        AllThere();
        var n := Create(op.size, op.mode);
        live' := live + {n};
        CreateFollows(a, Now(), n, op, Inode(op.mode, op.size, 1, op.size / 512, [slots[n][0]] + Zeros(11), 0));
      }
    }

    method DoUnlink(op: Operation, live: set<nat>) returns (live': set<nat>)
      requires Valid() && live == slots.Keys && op.Unlink?
      modifies this
      ensures Valid() && live' == slots.Keys && Follows(old(Now()), Now(), op)
    {
      live' := live;
      ghost var a := Now();
      if op.n in live && op.n in cache {
        AllThere();
        ghost var ino := cache[op.n].(links := 0, size := 0, sectors := 0, dbp := Zeros(12), sibp := 0);
        Unlink(op.n);
        live' := live - {op.n};
        UnlinkFollows(a, Now(), op, ino);
      }
    }

    /** One operation, if the volume and its caller allow it; `live` are the files that directories name. */
    method Apply(op: Operation, live: set<nat>) returns (live': set<nat>)
      requires Valid() && live == slots.Keys
      modifies this
      ensures Valid() && live' == slots.Keys && Follows(old(Now()), Now(), op)
    {
      match op
      case Create(_, _) =>
        live' := DoCreate(op, live);
      case Lookup(n) =>
        live' := live;
        if n in live { var _ := CacheSearch(n); }
      case Write(_, _, _, _) =>
        DoWrite(op, live);
        live' := live;
      case Unlink(_) =>
        live' := DoUnlink(op, live);
    }

    /**
     Over every run of operations the blocks held by live files are marked in
     use and held once, the counters are the number of clear bits, and every
     cached inode equals its table slot; and each operation does to the files
     what it is there for, and nothing to the others.
     */
    method Run(ops: seq<Operation>, live: set<nat>) returns (live': set<nat>, ghost shots: seq<Shot>)
      requires Valid() && live == slots.Keys
      modifies this
      ensures Valid() && live' == slots.Keys
      ensures History(shots, ops, |ops|) && shots[0] == old(Now()) && shots[|ops|] == Now()
    {
      live', shots := live, [Now()];
      for k := 0 to |ops|
        invariant Valid() && live' == slots.Keys
        invariant History(shots, ops, k) && shots[0] == old(Now()) && shots[k] == Now()
      {
        live' := Apply(ops[k], live');
        HistoryMore(shots, ops, k, Now());
        shots := shots + [Now()];
      }
    }
  }

  // ---------------------------------------------------------------- histories

  /** The volume between two operations. */
  datatype Shot = Shot(slots: Slots, disk: Disk, table: seq<seq<Inode>>, cached: set<nat>, freeInodes: nat)

  /** Block `i` of file `n` has a number and holds `data`. */
  predicate Shows(s: Shot, n: nat, i: nat, data: Block)
  {
    n in s.slots && i < |s.slots[n]| && s.slots[n][i] != 0 && s.slots[n][i] in s.disk && s.disk[s.slots[n][i]] == data
  }

  predicate HasInode(s: Shot, n: nat, ino: Inode)
  {
    TableOk(s.table) && InTable(s.table, n) && InodeAt(s.table, n) == ino
  }

  /** File `n` has the inode and shows the blocks that it did, and no others. */
  ghost predicate SameFile(a: Shot, b: Shot, n: nat)
  {
    && n in a.slots && n in b.slots && b.slots[n] == a.slots[n]
    && (forall i: nat, data | i < 1036 && Shows(a, n, i, data) :: Shows(b, n, i, data))
    && (forall ino | HasInode(a, n, ino) :: HasInode(b, n, ino))
  }

  ghost predicate SameButOne(a: Shot, b: Shot, n: nat)
  {
    forall m {:trigger SameFile(a, b, m)} | m in a.slots && m != n :: SameFile(a, b, m)
  }

  ghost predicate Created(a: Shot, b: Shot, n: nat, size: nat, mode: nat)
  {
    && n !in a.slots && b.slots.Keys == a.slots.Keys + {n} && b.cached == a.cached && b.freeInodes == a.freeInodes - 1
    && SameButOne(a, b, n) && exists ino :: HasInode(b, n, ino) && ino.size == size && ino.mode == mode && ino.links == 1
  }

  /** The blocks asked for hold the buffer if they have a number; every other one that had shows what it did. */
  ghost predicate WroteFile(a: Shot, b: Shot, n: nat, buffer: seq<Block>, offset: nat, len: nat)
  {
    && b.slots.Keys == a.slots.Keys && b.cached == a.cached && b.freeInodes == a.freeInodes && SameButOne(a, b, n) && n in b.slots
    && (forall i: nat {:trigger Rewritten(offset, len, i)} | i < 1036 && Rewritten(offset, len, i) ::
          i < |b.slots[n]| && (b.slots[n][i] != 0 ==> i < |buffer| && Shows(b, n, i, buffer[i])))
    && (forall i: nat, data | i < 1036 && !Rewritten(offset, len, i) && Shows(a, n, i, data) :: Shows(b, n, i, data))
    && (forall ino | HasInode(a, n, ino) ::
          exists ino' :: HasInode(b, n, ino') && ino'.mode == ino.mode && ino'.links == ino.links &&
                         ino'.size == if ino.size < offset + len then offset + len else ino.size)
  }

  ghost predicate Removed(a: Shot, b: Shot, n: nat)
  {
    b.slots.Keys == a.slots.Keys - {n} && b.cached == a.cached - {n} && b.freeInodes == a.freeInodes + 1 && SameButOne(a, b, n)
  }

  predicate CanWrite(a: Shot, op: Operation)
    requires op.Write?
  {
    && op.n in a.slots && op.n in a.cached && TableOk(a.table) && InTable(a.table, op.n)
    && BufferOk(InodeAt(a.table, op.n), op.buffer, op.offset, op.len)
  }

  /** What an operation does; one that is refused does nothing. */
  ghost predicate Follows(a: Shot, b: Shot, op: Operation)
  {
    match op
    case Create(size, mode) => if a.freeInodes == 0 then b == a else exists n :: Created(a, b, n, size, mode)
    case Lookup(n) => b == if n in a.slots then a.(cached := a.cached + {n}) else a
    case Write(n, buffer, offset, len) => if CanWrite(a, op) then WroteFile(a, b, n, buffer, offset, len) else b == a
    case Unlink(n) => if n in a.slots && n in a.cached then Removed(a, b, n) else b == a
  }

  ghost predicate History(shots: seq<Shot>, ops: seq<Operation>, k: nat)
    requires k <= |ops|
  {
    |shots| == k + 1 && forall c: nat | c < k :: Follows(shots[c], shots[c + 1], ops[c])
  }

  lemma HistoryMore(shots: seq<Shot>, ops: seq<Operation>, k: nat, b: Shot)
    requires k < |ops| && History(shots, ops, k) && Follows(shots[k], b, ops[k])
    ensures History(shots + [b], ops, k + 1)
  {
  }

  /** The operation neither removes file `n` nor writes its block `i`. */
  ghost predicate Spares(op: Operation, n: nat, i: nat)
  {
    && (op.Unlink? ==> op.n != n)
    && (op.Write? && op.n == n ==> !Rewritten(op.offset, op.len, i))
  }

  lemma SparedStep(a: Shot, b: Shot, op: Operation, n: nat, i: nat, data: Block)
    requires Follows(a, b, op) && Spares(op, n, i) && i < 1036 && Shows(a, n, i, data)
    ensures Shows(b, n, i, data)
  {
    if op.Create? && a.freeInodes != 0 {
      var m :| Created(a, b, m, op.size, op.mode);
      assert SameFile(a, b, n);
    } else if op.Unlink? && op.n in a.slots && op.n in a.cached {
      assert SameFile(a, b, n);
    } else if op.Write? && op.n != n && CanWrite(a, op) {
      assert SameFile(a, b, n);
    }
  }

  /** What a block of a file shows, it shows until a write asks for it or the file is removed. */
  lemma {:induction false} Spared(shots: seq<Shot>, ops: seq<Operation>, k: nat, j: nat, n: nat, i: nat, data: Block)
    requires History(shots, ops, |ops|) && k <= j <= |ops| && i < 1036 && Shows(shots[k], n, i, data)
    requires forall c | k <= c < j :: Spares(ops[c], n, i)
    ensures Shows(shots[j], n, i, data)
    decreases j
  {
    if k < j {
      Spared(shots, ops, k, j - 1, n, i, data);
      SparedStep(shots[j - 1], shots[j], ops[j - 1], n, i, data);
    }
  }

  /** After any run a block of a file holds what the last write that asked for it put there, if it had a number for it. */
  lemma LastWriteStands(shots: seq<Shot>, ops: seq<Operation>, k: nat, i: nat)
    requires History(shots, ops, |ops|) && k < |ops| && ops[k].Write? && CanWrite(shots[k], ops[k])
    requires i < 1036 && Rewritten(ops[k].offset, ops[k].len, i)
    requires forall c | k < c < |ops| :: Spares(ops[c], ops[k].n, i)
    ensures ops[k].n in shots[k + 1].slots && i < |shots[k + 1].slots[ops[k].n]|
    ensures shots[k + 1].slots[ops[k].n][i] != 0 ==> i < |ops[k].buffer| && Shows(shots[|ops|], ops[k].n, i, ops[k].buffer[i])
  {
    assert WroteFile(shots[k], shots[k + 1], ops[k].n, ops[k].buffer, ops[k].offset, ops[k].len);
    if shots[k + 1].slots[ops[k].n][i] != 0 {
      Spared(shots, ops, k + 1, |ops|, ops[k].n, i, ops[k].buffer[i]);
    }
  }

  /** A file that keeps its numbers, its blocks and its slot in the table is the same file. */
  lemma SameAs(a: Shot, b: Shot, n: nat)
    requires n in a.slots && n in b.slots && b.slots[n] == a.slots[n]
    requires forall i: nat | i < 1036 && i < |a.slots[n]| && a.slots[n][i] != 0 && a.slots[n][i] in a.disk ::
               a.slots[n][i] in b.disk && b.disk[a.slots[n][i]] == a.disk[a.slots[n][i]]
    requires TableOk(a.table) && TableOk(b.table) && InTable(a.table, n) && InTable(b.table, n)
    requires InodeAt(b.table, n) == InodeAt(a.table, n)
    ensures SameFile(a, b, n)
  {
  }

  /** A write leaves a block of the volume alone that another file holds, or that no position asked for is in. */
  lemma Untouched(a: Disk, b: Disk, slots: Slots, owner: Owner, n: nat, m: nat, i: nat, buffer: seq<Block>, offset: nat, len: nat)
    requires Holdings(slots, owner) && n in slots && m in slots && i < 1036 && slots[m][i] != 0
    requires BytesWritten(a, b, slots[n], owner, n, buffer, offset, len) && (m == n ==> !Rewritten(offset, len, i))
    requires slots[m][i] in a
    ensures slots[m][i] in b && b[slots[m][i]] == a[slots[m][i]]
  {
    assert HeldBy(slots, owner, m, i);
    assert HeldBy(slots, owner, n, SIBP);
  }

  /** Every live file has a slot in the table. */
  ghost predicate InodesThere(a: Shot)
  {
    TableOk(a.table) && forall n | n in a.slots :: InTable(a.table, n)
  }

  /** One slot of the table replaced leaves the inodes of the other files. */
  lemma OthersKept(a: Shot, b: Shot, n: nat, ino: Inode)
    requires InodesThere(a) && InTable(a.table, n) && InodeOk(ino) && b.table == PutInode(a.table, n, ino)
    requires forall m | m in a.slots && m != n ::
               && m in b.slots && b.slots[m] == a.slots[m]
               && forall i: nat | i < 1036 && i < |a.slots[m]| && a.slots[m][i] != 0 && a.slots[m][i] in a.disk ::
                    a.slots[m][i] in b.disk && b.disk[a.slots[m][i]] == a.disk[a.slots[m][i]]
    ensures SameButOne(a, b, n) && HasInode(b, n, ino)
  {
    PutInodeAt(a.table, n, ino, n);
    forall m | m in a.slots && m != n
      ensures SameFile(a, b, m)
    {
      PutInodeAt(a.table, n, ino, m);
      SameAs(a, b, m);
    }
  }

  lemma WriteFollows(a: Shot, b: Shot, owner: Owner, op: Operation, needed: nat, ino: Inode)
    requires op.Write? && CanWrite(a, op) && InodesThere(a) && Holdings(b.slots, owner)
    requires op.n in b.slots && b.slots == a.slots[op.n := b.slots[op.n]] && b.cached == a.cached && b.freeInodes == a.freeInodes
    requires Grown(a.slots[op.n], b.slots[op.n], needed)
    requires BytesWritten(a.disk, b.disk, b.slots[op.n], owner, op.n, op.buffer, op.offset, op.len)
    requires InodeOk(ino) && b.table == PutInode(a.table, op.n, ino)
    requires var was := InodeAt(a.table, op.n);
             ino.mode == was.mode && ino.links == was.links && ino.size == if was.size < op.offset + op.len then op.offset + op.len else was.size
    ensures WroteFile(a, b, op.n, op.buffer, op.offset, op.len)
  {
    var n := op.n;
    forall m, i: nat | m in a.slots && m != n && i < 1036 && i < |a.slots[m]| && a.slots[m][i] != 0 && a.slots[m][i] in a.disk
      ensures a.slots[m][i] in b.disk && b.disk[a.slots[m][i]] == a.disk[a.slots[m][i]]
    {
      assert b.slots[m] == a.slots[m];
      Untouched(a.disk, b.disk, b.slots, owner, n, m, i, op.buffer, op.offset, op.len);
    }
    OthersKept(a, b, n, ino);
    forall i: nat, data | i < 1036 && !Rewritten(op.offset, op.len, i) && Shows(a, n, i, data)
      ensures Shows(b, n, i, data)
    {
      Untouched(a.disk, b.disk, b.slots, owner, n, n, i, op.buffer, op.offset, op.len);
    }
    assert HasInode(b, n, ino);
  }

  lemma CreateFollows(a: Shot, b: Shot, n: nat, op: Operation, ino: Inode)
    requires op.Create? && InodesThere(a) && n !in a.slots && n in b.slots && b.slots == a.slots[n := b.slots[n]]
    requires b.cached == a.cached && b.freeInodes + 1 == a.freeInodes && b.disk == a.disk
    requires InTable(a.table, n) && InodeOk(ino) && b.table == PutInode(a.table, n, ino)
    requires ino.size == op.size && ino.mode == op.mode && ino.links == 1
    ensures Follows(a, b, op)
  {
    OthersKept(a, b, n, ino);
    assert Created(a, b, n, op.size, op.mode);
  }

  lemma UnlinkFollows(a: Shot, b: Shot, op: Operation, ino: Inode)
    requires op.Unlink? && op.n in a.slots && op.n in a.cached && InodesThere(a) && b.slots == a.slots - {op.n}
    requires b.cached == a.cached - {op.n} && b.freeInodes == a.freeInodes + 1 && b.disk == a.disk
    requires InodeOk(ino) && b.table == PutInode(a.table, op.n, ino)
    ensures Follows(a, b, op)
  {
    OthersKept(a, b, op.n, ino);
  }

  /** A bitmap that only gained blocks keeps its set bits. */
  lemma GainedUsed(m: Sectors, m': Sectors, slots: Slots, slots': Slots, owner: Owner, owner': Owner, reserved: set<nat>, n: nat, k: nat)
    requires Ledger(m, slots, owner, reserved) && Ledger(m', slots', owner', reserved) && |m'| == |m| && k < BITS * |m|
    requires Gained(owner, owner', reserved, n) && Used(m, k)
    ensures Used(m', k)
  {
    assert BitTrue(m, owner, reserved, k) && BitTrue(m', owner', reserved, k);
  }

  lemma {:induction false} ClearRun(m: Sectors, lo: nat, hi: nat)
    requires Whole(m) && lo <= hi <= BITS * |m| && forall k: nat | lo <= k < hi :: !Used(m, k)
    ensures Clear(m, hi) == Clear(m, lo) + hi - lo
  {
    if lo < hi { ClearRun(m, lo, hi - 1); }
  }

  /** A full first sector and an empty second one. */
  function HalfFull(): (m: Sectors)
    ensures Whole(m) && |m| == 2 && FreeCount(m) == BITS && NoneFound(m, 600, 300)
    ensures forall k: nat | k < 2 * BITS :: Used(m, k) <==> k < BITS
  {
    var m := [seq(SECTOR, i => 0xff), seq(SECTOR, i => 0x00)];
    HalfFullBits(m);
    m
  }

  lemma HalfFullBits(m: Sectors)
    requires |m| == 2 && Whole(m) && (forall i | 0 <= i < SECTOR :: m[0][i] == 0xff && m[1][i] == 0)
    ensures forall k: nat | k < 2 * BITS :: Used(m, k) <==> k < BITS
    ensures FreeCount(m) == BITS && NoneFound(m, 600, 300)
  {
    forall k: nat | k < 2 * BITS ensures Used(m, k) <==> k < BITS { FullBits(k % 8); }
    NoClear(m, BITS);
    ClearRun(m, BITS, 2 * BITS);
    assert Span(600) == 2 && ScanEnd(600, 300) == 1;
  }

  predicate Numbered(b: nat) { b > 0 }

  /** A volume of 4800 blocks with a free inode, whose free blocks are those of the second sector of its bitmap. */
  method HalfFullVolume() returns (v: Volume)
    ensures fresh(v) && v.Valid() && v.blocks == 4800 && v.blockMap == HalfFull() && v.freeInodes > 0 && v.slots == map[]
  {
    var m, im := HalfFull(), Lone(2, 0);
    LoneClear(2, 0);
    var disk := map b: nat | b <= 2 * BITS && Numbered(b) :: Zeros(WORDS);
    var ino := Inode(0, 0, 0, 0, Zeros(DIRECT), 0);
    var table := [seq(PER_BLOCK, i => ino)];
    forall k: nat | k < 2 * BITS && !Used(im, k) ensures InTable(table, k + 1) { LoneBit(2, 0, k); }
    v := new Volume(4800, m, disk, im, table);
  }

  /** A new file on it: it has one block and misses the rest. */
  method HalfFullFile() returns (v: Volume, n: nat)
    ensures fresh(v) && v.Valid() && v.blocks == 4800 && n in v.slots && n in v.cache && v.cache[n].size == 0
    ensures v.free == BITS - 1 && Missing(v.slots[n], DIRECT) == 11 && NoIndirect(v.blockMap, 4800, v.slots[n], 13)
  {
    v := HalfFullVolume();
    ghost var m, slots, owner := v.blockMap, v.slots, v.owner;
    n := v.Create(0, 0);
    forall k: nat | k < BITS ensures Used(v.blockMap, k) {
      GainedUsed(m, v.blockMap, slots, v.slots, owner, v.owner, v.reserved, n, k);
    }
    assert NoneFound(v.blockMap, 600, 300);
    MissingRest(v.slots[n], DIRECT);
    var ino := v.CacheSearch(n);
  }

  /** A write of thirteen blocks to that file, with thousands of blocks free: it reports success and the thirteenth is lost. */
  method LostBlock() returns (v: Volume, n: nat, r: int)
    ensures fresh(v) && v.Valid() && n in v.slots && n in v.cache && v.cache[n].size == 13 * BLOCK_SIZE
    ensures r == 0 && v.slots[n][DIRECT] == 0 && v.free == BITS - 12
  {
    v, n := HalfFullFile();
    r := v.UpdateFile(n, seq(13, i => Zeros(WORDS)), 0, 13 * BLOCK_SIZE);
    assert v.slots[n][DIRECT..][0] == 0;
  }

  /** A new file with its first block misses all the others. */
  lemma {:induction false} MissingRest(s: seq<nat>, k: nat)
    requires |s| == SLOTS && 1 <= k <= SLOTS && s[0] != 0 && forall i | 1 <= i < SLOTS :: s[i] == 0
    ensures Missing(s, k) == k - 1
  {
    if k == 1 { assert Missing(s, 0) == 0; } else { MissingRest(s, k - 1); }
  }

  predicate BufferOk(ino: Inode, buffer: seq<Block>, offset: nat, len: nat)
  {
    && LastBlock(offset, len, Needed(NewSize(ino, offset, len))) <= |buffer|
    && forall i | 0 <= i < |buffer| :: |buffer[i]| == WORDS
  }

  datatype Operation =
    | Create(size: nat, mode: nat)
    | Lookup(n: nat)
    | Write(n: nat, buffer: seq<Block>, offset: nat, len: nat)
    | Unlink(n: nat)

  lemma TakeInodes(im: Sectors, table: seq<seq<Inode>>, cache: map<nat, Inode>, slots: Slots, k: nat)
    requires Inodes(im, table, cache, slots) && k < BITS * |im| && !Used(im, k)
    ensures Inodes(MarkUsed(im, k), table, cache, slots) && Live(MarkUsed(im, k), table, k + 1)
  {
    var im' := MarkUsed(im, k);
    forall j: nat | j < BITS * |im'|
      ensures Used(im', j) <==> j == k || Used(im, j)
    {
      MarkUsedAt(im, k, j);
    }
    forall m | m in slots
      ensures Live(im', table, m)
    {
      assert Live(im, table, m);
    }
  }

  lemma FirstBlock(ino: Inode, b: nat)
    requires ino.dbp == [b] + Zeros(DIRECT - 1) && ino.sibp == 0
    ensures SlotsOf(ino, Zeros(WORDS)) == NoSlots()[0 := b]
  {
  }

  lemma CreateInodes(im: Sectors, table: seq<seq<Inode>>, cache: map<nat, Inode>, slots0: Slots, slots: Slots, disk: Disk, n: nat, ino: Inode)
    requires Inodes(im, table, cache, slots0) && AllTied(table, slots0, disk)
    requires n !in slots0 && n in slots && slots == slots0[n := slots[n]] && Live(im, table, n)
    requires Tied(slots[n], ino, disk) && Sized(slots[n], ino.size)
    ensures Inodes(im, PutInode(table, n, ino), cache, slots) && AllTied(PutInode(table, n, ino), slots, disk)
  {
    var table' := PutInode(table, n, ino);
    forall m | m in slots
      ensures Live(im, table', m) && TiedAt(table', slots, disk, m)
    {
      if m != n {
        assert Live(im, table, m);
        assert TiedAt(table, slots0, disk, m);
      }
      PutInodeAt(table, n, ino, m);
    }
    forall m | m in cache
      ensures Cached(cache, table', slots, m)
    {
      assert Cached(cache, table, slots0, m);
      PutInodeAt(table, n, ino, m);
    }
  }

  /** Exactly the blocks of file `n` have gone back. */
  ghost predicate Returned(owner: Owner, owner': Owner, n: nat)
  {
    && (forall b {:trigger b in owner'} | b in owner :: b in owner' <==> owner[b].file != n)
    && (forall b | b in owner' :: b in owner && owner'[b] == owner[b])
  }

  lemma AllReturned(slots: Slots, owner: Owner, owner': Owner, n: nat)
    requires Holdings(slots, owner') && n in slots && slots[n] == NoSlots() && Lost(owner, owner', n)
    ensures Returned(owner, owner', n)
  {
    forall b | b in owner'
      ensures owner'[b].file != n
    {
      assert HomeTrue(slots, owner', b);
    }
  }

  lemma UnlinkInodes(im: Sectors, table: seq<seq<Inode>>, cache: map<nat, Inode>, slots: Slots, n: nat, ino: Inode)
    requires Inodes(im, table, cache, slots) && n in slots && InodeOk(ino) && InTable(table, n) && n - 1 < BITS * |im|
    ensures Inodes(MarkFree(im, n - 1), PutInode(table, n, ino), cache - {n}, slots - {n})
  {
    var im', table', cache', slots' := MarkFree(im, n - 1), PutInode(table, n, ino), cache - {n}, slots - {n};
    forall k: nat | k < BITS * |im'| && !Used(im', k)
      ensures InTable(table', k + 1)
    {
      MarkFreeAt(im, n - 1, k);
    }
    forall m | m in slots'
      ensures Live(im', table', m)
    {
      assert Live(im, table, m);
      MarkFreeAt(im, n - 1, m - 1);
    }
    forall m | m in cache'
      ensures Cached(cache', table', slots', m)
    {
      assert Cached(cache, table, slots, m);
      PutInodeAt(table, n, ino, m);
    }
  }

  lemma UnlinkTied(table: seq<seq<Inode>>, slots: Slots, disk: Disk, n: nat, ino: Inode)
    requires AllTied(table, slots, disk) && TableOk(table) && InTable(table, n) && InodeOk(ino)
    ensures AllTied(PutInode(table, n, ino), slots - {n}, disk)
  {
    var table', slots' := PutInode(table, n, ino), slots - {n};
    forall m | m in slots'
      ensures TiedAt(table', slots', disk, m)
    {
      assert TiedAt(table, slots, disk, m);
      PutInodeAt(table, n, ino, m);
    }
  }

  lemma TiedParts(s: seq<nat>, ino: Inode, disk: Disk)
    requires Tied(s, ino, disk)
    ensures |s| == SLOTS && s[..DIRECT] == ino.dbp && s[SIBP] == ino.sibp
    ensures ino.sibp != 0 ==> s[DIRECT..SIBP] == disk[ino.sibp]
    ensures ino.sibp == 0 ==> ZeroTo(s, DIRECT) == NoSlots()
  {
  }

  lemma Given(m: Sectors, slots: Slots, owner: Owner, reserved: set<nat>, disk: Disk, n: nat, i: nat)
    requires Ledger(m, slots, owner, reserved) && Stored(m, owner, disk) && n in slots && i < SLOTS && slots[n][i] != 0
    ensures slots[n][i] in owner && 0 < slots[n][i] <= BITS * |m|
    ensures Ledger(MarkFree(m, slots[n][i] - 1), Assign(slots, n, i, 0), owner - {slots[n][i]}, reserved)
    ensures Stored(MarkFree(m, slots[n][i] - 1), owner - {slots[n][i]}, disk)
    ensures FreeCount(MarkFree(m, slots[n][i] - 1)) == FreeCount(m) + 1
  {
    LedgerGive(m, slots, owner, reserved, n, i);
    GiveCount(m, slots[n][i] - 1);
    StoredGive(m, owner, disk, slots[n][i]);
  }

  lemma StoredGive(m: Sectors, owner: Owner, disk: Disk, b: nat)
    requires Whole(m) && Stored(m, owner, disk) && b in owner && 0 < b <= BITS * |m|
    ensures Stored(MarkFree(m, b - 1), owner - {b}, disk)
  {
    var m' := MarkFree(m, b - 1);
    forall j: nat | j < BITS * |m'| && !Used(m', j)
      ensures j + 1 in disk
    {
      MarkFreeAt(m, b - 1, j);
    }
  }

  /** `s` with its first `k` numbers cleared. */
  function ZeroTo(s: seq<nat>, k: nat): (r: seq<nat>)
    requires k <= |s|
    ensures |r| == |s|
  {
    Zeros(k) + s[k..]
  }

  lemma ZeroStep(s: seq<nat>, k: nat)
    requires k < |s|
    ensures ZeroTo(s, k)[k] == s[k] && ZeroTo(s, k + 1) == ZeroTo(s, k)[k := 0]
  {
  }

  /** Only file `n` lost blocks. */
  ghost predicate Lost(owner: Owner, owner': Owner, n: nat)
  {
    && (forall b | b in owner' :: b in owner && owner'[b] == owner[b])
    && (forall b | b in owner && b !in owner' :: owner[b].file == n)
  }

  lemma LostMore(owner: Owner, owner1: Owner, owner2: Owner, n: nat)
    requires Lost(owner, owner1, n) && Lost(owner1, owner2, n)
    ensures Lost(owner, owner2, n)
  {
  }

  ghost predicate AllStored(disk: Disk, s: seq<nat>)
  {
    |s| == SLOTS && forall i | 0 <= i < SLOTS && s[i] != 0 :: s[i] in disk
  }

  lemma HeldStored(m: Sectors, slots: Slots, owner: Owner, reserved: set<nat>, disk: Disk, n: nat)
    requires Ledger(m, slots, owner, reserved) && Stored(m, owner, disk) && n in slots
    ensures AllStored(disk, slots[n])
  {
    forall i | 0 <= i < SLOTS && slots[n][i] != 0
      ensures slots[n][i] in disk
    {
      assert HeldBy(slots, owner, n, i);
    }
  }

  /** The blocks with the first `n` numbers of `s`, zeros passed over. */
  ghost function Gather(disk: Disk, s: seq<nat>, n: nat): (r: seq<Block>)
    requires AllStored(disk, s) && n <= SLOTS
  {
    if n == 0 then [] else Gather(disk, s, n - 1) + (if s[n - 1] == 0 then [] else [disk[s[n - 1]]])
  }

  lemma {:induction false} GatherNone(disk: Disk, s: seq<nat>, m: nat, n: nat)
    requires AllStored(disk, s) && m <= n <= SLOTS && forall i | m <= i < n :: s[i] == 0
    ensures Gather(disk, s, n) == Gather(disk, s, m)
  {
    if m < n { GatherNone(disk, s, m, n - 1); }
  }

  lemma {:induction false} GatherFull(disk: Disk, s: seq<nat>, m: nat)
    requires AllStored(disk, s) && m <= MAX_BLOCKS && Full(s, m)
    ensures |Gather(disk, s, m)| == m
    ensures forall i | 0 <= i < m :: Gather(disk, s, m)[i] == disk[s[i]]
  {
    if m > 0 { GatherFull(disk, s, m - 1); }
  }

  /** As long as no number is missing, the blocks come in the order of their numbers. */
  lemma {:induction false} GatherPrefix(disk: Disk, s: seq<nat>, i: nat, n: nat)
    requires AllStored(disk, s) && i < n <= MAX_BLOCKS && Full(s, i + 1)
    ensures i < |Gather(disk, s, n)| && Gather(disk, s, n)[i] == disk[s[i]]
  {
    if n == i + 1 { GatherFull(disk, s, n); } else { GatherPrefix(disk, s, i, n - 1); }
  }

  /** A file with all the blocks it needs has no others, save the first block of an empty one. */
  lemma GatherSized(disk: Disk, s: seq<nat>, needed: nat)
    requires AllStored(disk, s) && needed <= MAX_BLOCKS && Full(s, needed)
    requires forall i | Max(1, needed) <= i < MAX_BLOCKS :: s[i] == 0
    ensures |Gather(disk, s, MAX_BLOCKS)| == if needed == 0 && s[0] != 0 then 1 else needed
  {
    var m := if needed == 0 && s[0] != 0 then 1 else needed;
    GatherFull(disk, s, m);
    GatherNone(disk, s, m, MAX_BLOCKS);
  }

  /** A block of the file that was not written is as it was. */
  lemma ReadBack(disk: Disk, disk': Disk, slots: Slots, owner: Owner, n: nat, buffer: seq<Block>, offset: nat, len: nat, i: nat)
    requires Holdings(slots, owner) && n in slots && i < MAX_BLOCKS && slots[n][i] != 0 && slots[n][i] in disk'
    requires BytesWritten(disk, disk', slots[n], owner, n, buffer, offset, len) && !Rewritten(offset, len, i)
    ensures slots[n][i] in disk && disk'[slots[n][i]] == disk[slots[n][i]]
  {
    assert HeldBy(slots, owner, n, i);
    assert HeldBy(slots, owner, n, SIBP);
  }

  // ---------------------------------------------------------------- bytes

  /** Position `x` of the file is to be written. */
  predicate Asked(offset: nat, len: nat, x: nat) { offset <= x < offset + len }

  /** Block `i` is written: it has a position asked for; without any, it is the block that holds the offset and begins before it. */
  ghost predicate Rewritten(offset: nat, len: nat, i: nat)
  {
    || (exists x: nat {:trigger Asked(offset, len, x)} :: Asked(offset, len, x) && x / 4096 == i)
    || (len == 0 && offset % 4096 != 0 && i == offset / 4096)
  }

  /** A block is needed exactly if its first byte is in the file and the file can have it. */
  lemma NeededIs(size: nat, b: nat)
    ensures b < Needed(size) <==> b < 1036 && b * 4096 < size
  {
    BlocksOf(size, b);
  }

  lemma BlocksOf(size: nat, b: nat)
    ensures b < (size + 4095) / 4096 <==> b * 4096 < size
  {
    var n := (size + 4095) / 4096;
    assert 4096 * n <= size + 4095 < 4096 * n + 4096;
  }

  /** The blocks from `offset / 4096` to `LastBlock` are those with a byte asked for. */
  lemma RangeIs(size: nat, offset: nat, len: nat, i: nat)
    requires offset + len <= size
    ensures offset / BLOCK_SIZE <= i < LastBlock(offset, len, Needed(size)) <==> i < 1036 && Rewritten(offset, len, i)
  {
    NeededIs(size, i);
    BlocksOf(offset + len, i);
    var x := if i * 4096 < offset then offset else i * 4096;
    if offset / 4096 <= i && i * 4096 < offset + len && len > 0 {
      InBlock(offset, i);
      assert Asked(offset, len, x);
    }
    if y: nat :| Asked(offset, len, y) && y / 4096 == i {
      assert offset / 4096 <= i && i * 4096 < offset + len;
    }
  }

  lemma InBlock(offset: nat, i: nat)
    requires offset / 4096 <= i
    ensures var x := if i * 4096 < offset then offset else i * 4096; x / 4096 == i
  {
  }

  /** Exactly the blocks with a byte asked for hold the buffer; others hold what they held. */
  ghost predicate BytesWritten(disk: Disk, disk': Disk, s: seq<nat>, owner: Owner, n: nat, buffer: seq<Block>, offset: nat, len: nat)
  {
    && |s| == SLOTS && disk'.Keys == disk.Keys
    && (forall i: nat {:trigger Rewritten(offset, len, i)} | i < 1036 && Rewritten(offset, len, i) && s[i] != 0 ::
          i < |buffer| && s[i] in disk' && disk'[s[i]] == buffer[i])
    && (forall b | b in disk && disk'[b] != disk[b] ::
          b == s[SIBP] || (b in owner && owner[b].file == n && Rewritten(offset, len, owner[b].slot)))
  }

  lemma InBytes(disk: Disk, disk': Disk, s: seq<nat>, owner: Owner, n: nat, buffer: seq<Block>, size: nat, offset: nat, len: nat)
    requires offset + len <= size
    requires Updated(disk, disk', s, owner, n, buffer, offset / BLOCK_SIZE, LastBlock(offset, len, Needed(size)))
    ensures BytesWritten(disk, disk', s, owner, n, buffer, offset, len)
  {
    forall i: nat | i < 1036 && Rewritten(offset, len, i) && s[i] != 0
      ensures i < |buffer| && s[i] in disk' && disk'[s[i]] == buffer[i]
    {
      RangeIs(size, offset, len, i);
    }
    forall b | b in disk && disk'[b] != disk[b]
      ensures b == s[SIBP] || (b in owner && owner[b].file == n && Rewritten(offset, len, owner[b].slot))
    {
      if b != s[SIBP] { RangeIs(size, offset, len, owner[b].slot); }
    }
  }

  function Max(a: nat, b: nat): nat { if a < b then b else a }

  lemma NeededGrows(a: nat, b: nat)
    requires a <= b
    ensures Needed(a) <= Needed(b)
  {
  }

  function NewSize(ino: Inode, offset: nat, len: nat): nat
  {
    if ino.size < offset + len then offset + len else ino.size
  }

  function Needed(size: nat): nat
  {
    var n := (size + (BLOCK_SIZE - 1)) / BLOCK_SIZE;
    if n > MAX_BLOCKS then MAX_BLOCKS else n
  }

  function LastBlock(offset: nat, len: nat, needed: nat): nat
  {
    var last := (offset + len + (BLOCK_SIZE - 1)) / BLOCK_SIZE;
    if last > needed then needed else last
  }

  /** As `Wrote`, save that the file's indirect block is rewritten too. */
  ghost predicate Updated(disk: Disk, disk': Disk, s: seq<nat>, owner: Owner, n: nat, buffer: seq<Block>, first: nat, last: nat)
  {
    && |s| == SLOTS && (first < last ==> last <= |buffer| && last <= MAX_BLOCKS)
    && (forall i | first <= i < last && s[i] != 0 :: s[i] in disk' && disk'[s[i]] == buffer[i])
    && disk'.Keys == disk.Keys
    && (forall b | b in disk :: disk'[b] == disk[b] || Touched(owner, b, n, first, last) || b == s[SIBP])
  }

  lemma UpdatedBy(disk: Disk, disk1: Disk, disk': Disk, slots: Slots, owner: Owner, n: nat, ino: Inode, buf: Block,
                  buffer: seq<Block>, first: nat, last: nat)
    requires n in slots && InodeOk(ino) && |buf| == WORDS && slots[n] == SlotsOf(ino, buf)
    requires disk1 == Committed(disk, ino, buf) && (ino.sibp != 0 ==> ino.sibp in disk)
    requires Wrote(disk1, disk', slots[n], owner, n, buffer, first, last)
    ensures Updated(disk, disk', slots[n], owner, n, buffer, first, last)
  {
  }

  /** The first `last` blocks of the range hold the buffer; other blocks hold what they held. */
  ghost predicate Wrote(disk: Disk, disk': Disk, s: seq<nat>, owner: Owner, n: nat, buffer: seq<Block>, first: nat, last: nat)
  {
    && |s| == SLOTS && (first < last ==> last <= |buffer| && last <= MAX_BLOCKS)
    && (forall i | first <= i < last && s[i] != 0 :: s[i] in disk' && disk'[s[i]] == buffer[i])
    && disk'.Keys == disk.Keys
    && (forall b | b in disk :: disk'[b] == disk[b] || Touched(owner, b, n, first, last))
  }

  predicate Touched(owner: Owner, b: nat, n: nat, first: nat, last: nat)
  {
    b in owner && owner[b].file == n && first <= owner[b].slot < last
  }

  lemma WriteOne(m: Sectors, table: seq<seq<Inode>>, slots: Slots, owner: Owner, reserved: set<nat>, disk: Disk, n: nat, i: nat, data: Block)
    requires Ledger(m, slots, owner, reserved) && Stored(m, owner, disk) && AllTied(table, slots, disk)
    requires n in slots && i < MAX_BLOCKS && slots[n][i] != 0 && |data| == WORDS
    ensures slots[n][i] in disk && Stored(m, owner, disk[slots[n][i] := data])
    ensures AllTied(table, slots, disk[slots[n][i] := data])
  {
    assert HeldBy(slots, owner, n, i);
    var disk' := disk[slots[n][i] := data];
    forall n' | n' in slots
      ensures TiedAt(table, slots, disk', n')
    {
      assert TiedAt(table, slots, disk, n');
      assert HeldBy(slots, owner, n', SIBP);
      assert slots[n'][SIBP] == InodeAt(table, n').sibp;
    }
  }

  lemma WroteMore(disk0: Disk, disk: Disk, slots: Slots, owner: Owner, n: nat, buffer: seq<Block>, first: nat, i: nat)
    requires Holdings(slots, owner) && n in slots && first <= i < MAX_BLOCKS && i < |buffer| && slots[n][i] != 0
    requires slots[n][i] in disk && Wrote(disk0, disk, slots[n], owner, n, buffer, first, i)
    ensures Wrote(disk0, disk[slots[n][i] := buffer[i]], slots[n], owner, n, buffer, first, i + 1)
  {
    var b := slots[n][i];
    assert HeldBy(slots, owner, n, i);
    forall j | first <= j < i && slots[n][j] != 0
      ensures slots[n][j] != b
    {
      assert HeldBy(slots, owner, n, j);
    }
  }

  lemma SibpStored(m: Sectors, slots: Slots, owner: Owner, reserved: set<nat>, disk: Disk, n: nat, ino: Inode, buf: Block)
    requires Ledger(m, slots, owner, reserved) && Stored(m, owner, disk) && n in slots
    requires InodeOk(ino) && |buf| == WORDS && slots[n] == SlotsOf(ino, buf)
    ensures slots[n][SIBP] == ino.sibp
    ensures ino.sibp != 0 ==> ino.sibp in disk && Stored(m, owner, disk[ino.sibp := buf])
  {
    assert HeldBy(slots, owner, n, SIBP);
  }

  function Committed(disk: Disk, ino: Inode, buf: Block): Disk
  {
    if ino.sibp == 0 then disk else disk[ino.sibp := buf]
  }

  lemma CommitTied(table: seq<seq<Inode>>, slots0: Slots, slots: Slots, owner: Owner, disk: Disk, n: nat, ino: Inode, buf: Block)
    requires AllTied(table, slots0, disk) && n in slots0 && n in slots && slots == slots0[n := slots[n]]
    requires Holdings(slots, owner) && InodeOk(ino) && |buf| == WORDS && slots[n] == SlotsOf(ino, buf)
    requires TableOk(table) && InTable(table, n) && Sized(slots[n], ino.size)
    ensures AllTied(PutInode(table, n, ino), slots, Committed(disk, ino, buf))
  {
    var table', disk' := PutInode(table, n, ino), Committed(disk, ino, buf);
    forall m | m in slots
      ensures TiedAt(table', slots, disk', m)
    {
      assert TiedAt(table, slots0, disk, m);
      PutInodeAt(table, n, ino, m);
      if m != n { OtherIndirect(slots, owner, n, m); }
    }
  }

  lemma CommitInodes(im: Sectors, table: seq<seq<Inode>>, cache: map<nat, Inode>, slots0: Slots, slots: Slots, n: nat, ino: Inode)
    requires Inodes(im, table, cache, slots0) && n in slots0 && n in slots && slots == slots0[n := slots[n]] && InodeOk(ino)
    ensures Live(im, table, n) && Inodes(im, PutInode(table, n, ino), cache[n := ino], slots)
  {
    assert Live(im, table, n);
    var table', cache' := PutInode(table, n, ino), cache[n := ino];
    forall m | m in slots
      ensures Live(im, table', m)
    {
      assert Live(im, table, m);
    }
    forall m | m in cache'
      ensures Cached(cache', table', slots, m)
    {
      if m != n { assert Cached(cache, table, slots0, m); }
      PutInodeAt(table, n, ino, m);
    }
  }

  /** Two files have two indirect blocks. */
  lemma OtherIndirect(slots: Slots, owner: Owner, n: nat, m: nat)
    requires Holdings(slots, owner) && n in slots && m in slots && n != m
    ensures slots[n][SIBP] != 0 ==> slots[n][SIBP] != slots[m][SIBP]
  {
    assert HeldBy(slots, owner, n, SIBP);
    assert HeldBy(slots, owner, m, SIBP);
  }

  /** `s` are the numbers held through `ino` as it stands on the disk. */
  ghost predicate Tied(s: seq<nat>, ino: Inode, disk: Disk)
  {
    && InodeOk(ino)
    && (ino.sibp != 0 ==> ino.sibp in disk && |disk[ino.sibp]| == WORDS)
    && s == SlotsOf(ino, if ino.sibp == 0 then Zeros(WORDS) else disk[ino.sibp])
  }

  /** Numbers stay where there were some; new ones only among the first `needed`, and the indirect block. */
  ghost predicate Grown(s: seq<nat>, s': seq<nat>, needed: nat)
  {
    && |s| == SLOTS && |s'| == SLOTS
    && (forall i | 0 <= i < SLOTS && s[i] != 0 :: s'[i] == s[i])
    && (forall i | needed <= i < SIBP :: s'[i] == s[i])
    && (needed <= DIRECT ==> s'[SIBP] == s[SIBP])
  }

  /** Only file `n` gained blocks. */
  ghost predicate Gained(owner: Owner, owner': Owner, reserved: set<nat>, n: nat)
  {
    && (forall b | b in owner :: b in owner' && owner'[b] == owner[b])
    && (forall b | b in owner' && b !in owner :: owner'[b].file == n)
  }

  predicate Full(s: seq<nat>, n: nat)
    requires |s| == SLOTS && n <= SLOTS
  {
    forall i | 0 <= i < n :: s[i] != 0
  }

  /** How many of the first `k` numbers are missing. */
  function Missing(s: seq<nat>, k: nat): nat
    requires k <= |s|
  {
    if k == 0 then 0 else Missing(s, k - 1) + (if s[k - 1] == 0 then 1 else 0)
  }

  lemma {:induction false} MissingSame(s: seq<nat>, s': seq<nat>, k: nat)
    requires k <= |s| && k <= |s'| && forall i | 0 <= i < k :: (s[i] == 0) == (s'[i] == 0)
    ensures Missing(s', k) == Missing(s, k)
  {
    if k > 0 { MissingSame(s, s', k - 1); }
  }

  /** An indirect block is wanted and the scan of the upper half finds none. */
  predicate NoIndirect(m: Sectors, blocks: nat, s: seq<nat>, needed: nat)
    requires |s| == SLOTS
  {
    needed > DIRECT && s[SIBP] == 0 && NoneFound(m, blocks / 8, blocks / 8 / 2)
  }

  /** Free blocks for the numbers that are missing and for a missing indirect block, which the scan of the upper half finds. */
  predicate Enough(free: nat, m: Sectors, blocks: nat, s: seq<nat>, needed: nat)
    requires |s| == SLOTS && needed <= MAX_BLOCKS
  {
    && !NoIndirect(m, blocks, s, needed)
    && free >= Missing(s, needed) + (if needed > DIRECT && s[SIBP] == 0 then 1 else 0)
  }

  /** How many of the first `k` blocks can have a number: without an indirect block, the direct ones. */
  function Reach(sibp: nat, k: nat): nat { if sibp == 0 && k > DIRECT then DIRECT else k }

  function Minus(a: nat, b: nat): nat { if a >= b then a - b else 0 }

  /** The free blocks left once the missing numbers have been supplied, as far as possible. */
  function FreeAfter(free: nat, m: Sectors, blocks: nat, s: seq<nat>, needed: nat): nat
    requires |s| == SLOTS && needed <= MAX_BLOCKS
  {
    if NoIndirect(m, blocks, s, needed) then Minus(free, Missing(s, DIRECT))
    else Minus(free, Missing(s, needed) + if needed > DIRECT && s[SIBP] == 0 then 1 else 0)
  }

  /** The indirect block first, then the missing numbers. */
  lemma GrownExactly(s0: seq<nat>, s1: seq<nat>, s2: seq<nat>, sibp: nat, free0: nat, free1: nat, free2: nat, m: Sectors,
                     blocks: nat, needed: nat)
    requires |s0| == SLOTS && s1 == s0[SIBP := sibp] && needed <= MAX_BLOCKS && Kept(s1, s2, needed)
    requires if needed > DIRECT && s0[SIBP] == 0
             then (sibp == 0 <==> NoneFound(m, blocks / 8, blocks / 8 / 2)) && free1 == free0 - if sibp == 0 then 0 else 1
             else sibp == s0[SIBP] && free1 == free0
    requires sibp == 0 ==> s0[DIRECT..] == Zeros(WORDS + 1) == s2[DIRECT..]
    requires Supplied(s2, Reach(sibp, needed), free1, Missing(s1, Reach(sibp, needed)), free2)
    ensures Grown(s0, s2, needed) && free2 == FreeAfter(free0, m, blocks, s0, needed)
    ensures Full(s2, needed) <==> Enough(free0, m, blocks, s0, needed)
  {
    MissingSame(s0, s1, Reach(sibp, needed));
    if needed > DIRECT && sibp == 0 {
      assert s2[DIRECT..][0] == 0 == s2[DIRECT];
      assert !Full(s2, needed);
    }
  }

  /** Numbers stay where there were some, and everywhere but among the first `k`. */
  predicate Kept(s: seq<nat>, s': seq<nat>, k: nat)
  {
    && |s| == SLOTS && |s'| == SLOTS
    && (forall i | 0 <= i < SLOTS && s[i] != 0 :: s'[i] == s[i])
    && (forall i | k <= i < SLOTS :: s'[i] == s[i])
  }

  lemma GainedMore(owner: Owner, owner1: Owner, owner2: Owner, reserved: set<nat>, n: nat)
    requires Gained(owner, owner1, reserved, n) && Gained(owner1, owner2, reserved, n)
    ensures Gained(owner, owner2, reserved, n)
  {
  }

  /** Of `missing` blocks among the first `k` as many were supplied as there were free ones. */
  predicate Supplied(s: seq<nat>, k: nat, free0: nat, missing: nat, free: nat)
    requires |s| == SLOTS && k <= SLOTS
  {
    (Full(s, k) <==> free0 >= missing) && free == Minus(free0, missing)
  }

  /** Where the growth loop stands after `k` turns. */
  predicate Progress(s0: seq<nat>, s: seq<nat>, k: nat, sibp: nat, free0: nat, free: nat)
  {
    && k <= MAX_BLOCKS && Kept(s0, s, k)
    && Supplied(s, Reach(sibp, k), free0, Missing(s0, Reach(sibp, k)), free)
  }

  lemma ProgressMore(s0: seq<nat>, s1: seq<nat>, s2: seq<nat>, k: nat, sibp: nat, free0: nat, free1: nat, free2: nat)
    requires Progress(s0, s1, k, sibp, free0, free1) && k < MAX_BLOCKS && |s2| == SLOTS
    requires forall j | 0 <= j < SLOTS && (j != k || s1[j] != 0) :: s2[j] == s1[j]
    requires k < DIRECT || sibp != 0 ==>
               (s2[k] != 0 <==> s1[k] != 0 || free1 > 0) && free2 == free1 - if s1[k] == 0 && free1 > 0 then 1 else 0
    requires k >= DIRECT && sibp == 0 ==> s2 == s1 && free2 == free1
    ensures Progress(s0, s2, k + 1, sibp, free0, free2)
  {
    if k < DIRECT || sibp != 0 {
      assert Full(s2, k + 1) <==> Full(s2, k) && s2[k] != 0;
      assert Full(s2, k) <==> Full(s1, k) by {
        forall j | 0 <= j < k ensures s2[j] == s1[j] { }
      }
    }
  }

  /** The scan from byte `start` finds every bit in use. */
  predicate NoneFound(m: Sectors, size: nat, start: nat)
  {
    && Whole(m) && |m| == Span(size) && start <= size && ScanEnd(size, start) <= |m|
    && AllUsed(m, BITS * (start / SECTOR), BITS * ScanEnd(size, start))
  }

  lemma OneDown(free: nat)
    requires free > 0
    ensures (free % U16 + U16 - 1) % U16 == (free - 1) % U16
  {
  }

  lemma OneUp(free: nat)
    ensures (free % U16 + 1) % U16 == (free + 1) % U16
  {
  }

  /** Handing block `k + 1` to slot `i` of file `n`. */
  lemma Taken(m: Sectors, slots: Slots, owner: Owner, reserved: set<nat>, disk: Disk, k: nat, n: nat, i: nat)
    requires Ledger(m, slots, owner, reserved) && Stored(m, owner, disk) && k < BITS * |m| && !Used(m, k)
    requires n in slots && i < SLOTS && slots[n][i] == 0
    ensures k + 1 !in owner && k + 1 !in reserved && k + 1 in disk
    ensures Ledger(MarkUsed(m, k), Assign(slots, n, i, k + 1), owner[k + 1 := Home(n, i)], reserved)
    ensures Stored(MarkUsed(m, k), owner[k + 1 := Home(n, i)], disk)
    ensures FreeCount(m) == FreeCount(MarkUsed(m, k)) + 1
  {
    LedgerTake(m, slots, owner, reserved, k, n, i);
    TakeCount(m, k);
    StoredTake(m, owner, disk, k, Home(n, i));
  }

  lemma StoredTake(m: Sectors, owner: Owner, disk: Disk, k: nat, h: Home)
    requires Whole(m) && Stored(m, owner, disk) && k < BITS * |m| && !Used(m, k)
    ensures Stored(MarkUsed(m, k), owner[k + 1 := h], disk)
  {
    var m' := MarkUsed(m, k);
    forall j: nat | j < BITS * |m'| && !Used(m', j)
      ensures j + 1 in disk
    {
      MarkUsedAt(m, k, j);
    }
  }

  lemma {:induction false} NoClear(m: Sectors, n: nat)
    requires Whole(m) && n <= BITS * |m| && AllUsed(m, 0, n)
    ensures Clear(m, n) == 0
  {
    if n > 0 { NoClear(m, n - 1); }
  }

  lemma NoneClear(m: Sectors, size: nat)
    requires Whole(m) && |m| == Span(size) && ScanEnd(size, 0) <= |m| && AllUsed(m, 0, BITS * ScanEnd(size, 0))
    ensures FreeCount(m) == 0
  {
    ScanWithin(size, 0);
    NoClear(m, BITS * |m|);
  }
}
