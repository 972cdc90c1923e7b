/**
 Four-level page tables over physical memory: the walk, lookup, mapping and the
 creation of a table level.  A frame holds 512 entries; a virtual address enters
 through its page number.

 The ghost map `place` records, for every frame used as a table, the address
 space that owns it, its level, the pages it covers and the table above it.
 That the record is a function is what makes the tables a tree.
 */
module PageTable {
  import opened Arithmetic
  import opened Paging

  type Mem = map<nat, seq<nat>>

  /** A table of `owner`'s space covering the pages with `Prefix(level, pn) == prefix`. */
  datatype Place = Place(owner: nat, level: Level, prefix: nat, parent: nat)

  type Places = map<nat, Place>

  predicate Frame(mem: Mem, f: nat)
  {
    f in mem && |mem[f]| == ENTRIES
  }

  // ---------------------------------------------------------------- shape

  /** What entry `i` of table `f` leads to. */
  predicate Below(mem: Mem, place: Places, f: nat, i: nat)
    requires Frame(mem, f) && f in place && i < ENTRIES
  {
    var e, p := mem[f][i], place[f];
    p.level > 1 && e != 0 ==>
      && Strip(e) in place
      && place[Strip(e)].level == p.level - 1
      && place[Strip(e)].prefix == p.prefix * ENTRIES + i
      && (!Pinned(e) ==> place[Strip(e)].owner == p.owner && place[Strip(e)].parent == f)
  }

  /** The one entry that leads to table `f`. */
  predicate Above(mem: Mem, place: Places, f: nat)
    requires f in place
  {
    var p := place[f];
    if p.level == 4 then p.owner == f && p.prefix == 0
    else
      && p.parent in place && Frame(mem, p.parent)
      && place[p.parent].level == p.level + 1
      && place[p.parent].owner == p.owner
      && place[p.parent].prefix == p.prefix / ENTRIES
      && mem[p.parent][p.prefix % ENTRIES] != 0
      && Strip(mem[p.parent][p.prefix % ENTRIES]) == f
  }

  predicate TableOk(mem: Mem, place: Places, f: nat)
    requires f in place
  {
    && Frame(mem, f) && f % PAGE == 0 && f > 0
    && (forall i: nat {:trigger Below(mem, place, f, i)} | i < ENTRIES :: Below(mem, place, f, i))
    && Above(mem, place, f)
  }

  ghost predicate Trees(mem: Mem, place: Places)
  {
    forall f {:trigger TableOk(mem, place, f)} | f in place :: TableOk(mem, place, f)
  }

  predicate Root(place: Places, r: nat) { r in place && place[r].level == 4 }

  /** Table `f` lies on the way to page `pn`. */
  predicate OnWay(place: Places, f: nat, level: Level, pn: Page)
  {
    f in place && place[f].level == level && place[f].prefix == Prefix(level, pn)
  }

  lemma RootOnWay(mem: Mem, place: Places, r: nat, pn: Page)
    requires Trees(mem, place) && Root(place, r)
    ensures OnWay(place, r, 4, pn)
  {
    assert TableOk(mem, place, r);
    Decompose(4, pn);
  }

  // ---------------------------------------------------------------- translation

  /** The entry of `f` on the way to `pn`. */
  function Entry(mem: Mem, f: nat, level: Level, pn: Page): nat
  {
    if Frame(mem, f) then mem[f][Idx(level, pn)] else 0
  }

  /** The level-1 table reached from `f`, or 0. */
  function Walk(mem: Mem, f: nat, level: Level, pn: Page): nat
    decreases level
  {
    if level == 1 then f
    else if Entry(mem, f, level, pn) == 0 then 0
    else Walk(mem, Strip(Entry(mem, f, level, pn)), level - 1, pn)
  }

  /** The entry for `pn` below `f`: zero when a level is missing. */
  function Leaf(mem: Mem, f: nat, level: Level, pn: Page): nat
  {
    var t := Walk(mem, f, level, pn);
    if t == 0 then 0 else Entry(mem, t, 1, pn)
  }

  // ---------------------------------------------------------------- the processor

  /** What the processor finds for a page: a fault, or a frame and what it may do with it. */
  datatype Access = Fault | Access(frame: nat, writable: bool, user: bool)

  function LeafAccess(e: nat): Access
  {
    if e % 2 == 1 then Access(Strip(e), e / 2 % 2 == 1, e / 4 % 2 == 1) else Fault
  }

  /** The walk of the processor: every level must be present, and every level must allow what is allowed. */
  function Mmu(mem: Mem, f: nat, level: Level, pn: Page): Access
    decreases level
  {
    var e := Entry(mem, f, level, pn);
    if level == 1 then LeafAccess(e)
    else if e % 2 == 0 then Fault
    else
      var below := Mmu(mem, Strip(e), level - 1, pn);
      if below.Fault? then Fault
      else below.(writable := below.writable && e / 2 % 2 == 1, user := below.user && e / 4 % 2 == 1)
  }

  predicate OpenAt(mem: Mem, place: Places, f: nat, i: nat)
    requires f in place && Frame(mem, f) && i < ENTRIES
  {
    place[f].level > 1 && mem[f][i] != 0 && !Pinned(mem[f][i]) ==> Open(mem[f][i])
  }

  /** Every private table entry of the space lets everything through. */
  ghost predicate Opened(mem: Mem, place: Places, owner: nat)
  {
    forall f, i: nat {:trigger OpenAt(mem, place, f, i)} |
      f in place && place[f].owner == owner && Frame(mem, f) && i < ENTRIES :: OpenAt(mem, place, f, i)
  }

  /** No table entry on the way to the page is global or shared. */
  predicate PrivateWay(mem: Mem, f: nat, level: Level, pn: Page)
    decreases level
  {
    var e := Entry(mem, f, level, pn);
    level == 1 || e == 0 || (!Pinned(e) && PrivateWay(mem, Strip(e), level - 1, pn))
  }

  /** In a space whose tables are open the leaf entry decides. */
  lemma {:induction false} MmuIsLeaf(mem: Mem, place: Places, f: nat, level: Level, pn: Page)
    requires Trees(mem, place) && OnWay(place, f, level, pn) && Opened(mem, place, place[f].owner) && PrivateWay(mem, f, level, pn)
    ensures Mmu(mem, f, level, pn) == LeafAccess(Leaf(mem, f, level, pn))
    decreases level
  {
    assert TableOk(mem, place, f);
    var e := Entry(mem, f, level, pn);
    if level > 1 && e != 0 {
      assert OpenAt(mem, place, f, Idx(level, pn));
      assert Below(mem, place, f, Idx(level, pn));
      Descend(mem, place, f, level, pn);
      MmuIsLeaf(mem, place, Strip(e), level - 1, pn);
      OpenAll(e);
    }
  }

  lemma OpenAll(e: nat)
    requires Open(e)
    ensures e % 2 == 1 && e / 2 % 2 == 1 && e / 4 % 2 == 1
  {
  }

  lemma Descend(mem: Mem, place: Places, f: nat, level: Level, pn: Page)
    requires Trees(mem, place) && OnWay(place, f, level, pn) && level > 1
    requires Entry(mem, f, level, pn) != 0
    ensures OnWay(place, Strip(Entry(mem, f, level, pn)), level - 1, pn)
  {
    assert TableOk(mem, place, f);
    assert Below(mem, place, f, Idx(level, pn));
    Decompose(level, pn);
  }

  lemma {:induction false} WalkOnWay(mem: Mem, place: Places, f: nat, level: Level, pn: Page)
    requires Trees(mem, place) && OnWay(place, f, level, pn)
    ensures var t := Walk(mem, f, level, pn); t != 0 ==> OnWay(place, t, 1, pn)
    decreases level
  {
    if level > 1 && Entry(mem, f, level, pn) != 0 {
      Descend(mem, place, f, level, pn);
      WalkOnWay(mem, place, Strip(Entry(mem, f, level, pn)), level - 1, pn);
    }
  }

  /** Memories that agree on the tables above level 1 walk alike. */
  lemma {:induction false} SameWalk(mem: Mem, mem': Mem, place: Places, f: nat, level: Level, pn: Page)
    requires Trees(mem, place) && OnWay(place, f, level, pn)
    requires forall g | g in place && place[g].level > 1 :: g in mem && g in mem' && mem'[g] == mem[g]
    ensures Walk(mem', f, level, pn) == Walk(mem, f, level, pn)
    decreases level
  {
    if level > 1 && Entry(mem, f, level, pn) != 0 {
      Descend(mem, place, f, level, pn);
      SameWalk(mem, mem', place, Strip(Entry(mem, f, level, pn)), level - 1, pn);
    }
  }

  // ---------------------------------------------------------------- one entry written

  function Put(mem: Mem, f: nat, i: nat, e: nat): Mem
    requires Frame(mem, f) && i < ENTRIES
  {
    var s: seq<nat> := mem[f][i := e];
    mem[f := s]
  }

  lemma PutWalk(mem: Mem, place: Places, t: nat, i: nat, e: nat, f: nat, level: Level, pn: Page)
    requires Trees(mem, place) && t in place && place[t].level == 1 && i < ENTRIES && OnWay(place, f, level, pn)
    ensures Frame(mem, t) && Walk(Put(mem, t, i, e), f, level, pn) == Walk(mem, f, level, pn)
  {
    assert TableOk(mem, place, t);
    var mem' := Put(mem, t, i, e);
    forall g | g in place && place[g].level > 1
      ensures g in mem && g in mem' && mem'[g] == mem[g]
    {
      assert TableOk(mem, place, g);
    }
    SameWalk(mem, mem', place, f, level, pn);
  }

  /** Mapping one page: the translation of that page through that table, and no other. */
  lemma PutLeaf(mem: Mem, place: Places, t: nat, pn: Page, e: nat, f: nat, level: Level, pn': Page)
    requires Trees(mem, place) && OnWay(place, t, 1, pn) && OnWay(place, f, level, pn')
    ensures Frame(mem, t)
    ensures var mem' := Put(mem, t, Idx(1, pn), e);
            Leaf(mem', f, level, pn') == if pn' == pn && Walk(mem, f, level, pn) == t then e else Leaf(mem, f, level, pn')
  {
    assert TableOk(mem, place, t);
    PutWalk(mem, place, t, Idx(1, pn), e, f, level, pn');
    WalkOnWay(mem, place, f, level, pn');
    var w := Walk(mem, f, level, pn');
    if w != 0 {
      assert TableOk(mem, place, w);
      Decompose(1, pn);
      Decompose(1, pn');
    }
  }

  lemma PutLeafTrees(mem: Mem, place: Places, t: nat, i: nat, e: nat)
    requires Trees(mem, place) && t in place && place[t].level == 1 && i < ENTRIES
    ensures Frame(mem, t) && Trees(Put(mem, t, i, e), place)
  {
    assert TableOk(mem, place, t);
    var mem' := Put(mem, t, i, e);
    forall f | f in place
      ensures TableOk(mem', place, f)
    {
      assert TableOk(mem, place, f);
      if place[f].level < 4 { assert TableOk(mem, place, place[f].parent); }
      forall j: nat | j < ENTRIES
        ensures Below(mem', place, f, j)
      {
        assert Below(mem, place, f, j);
      }
    }
  }

  function ZeroFrame(): (z: seq<nat>)
    ensures |z| == ENTRIES && forall i | 0 <= i < ENTRIES :: z[i] == 0
  {
    seq(ENTRIES, i => 0)
  }

  /** A zeroed table `n` hung below entry `i` of `t`. */
  function Hang(mem: Mem, t: nat, i: nat, n: nat, e: nat): Mem
    requires Frame(mem, t) && i < ENTRIES
  {
    Put(mem[n := ZeroFrame()], t, i, e)
  }

  function Child(place: Places, t: nat, i: nat): Place
    requires t in place && place[t].level > 1
  {
    Place(place[t].owner, place[t].level - 1, place[t].prefix * ENTRIES + i, t)
  }

  /** The conditions under which `n` is hung: a free slot, a fresh aligned frame. */
  predicate CanHang(mem: Mem, place: Places, t: nat, i: nat, n: nat, e: nat)
  {
    && t in place && place[t].level > 1 && i < ENTRIES && Frame(mem, t) && mem[t][i] == 0
    && n > 0 && n % PAGE == 0 && n !in mem && n !in place
    && Strip(e) == n && !Pinned(e) && e != 0
  }

  lemma HangTrees(mem: Mem, place: Places, t: nat, i: nat, n: nat, e: nat)
    requires Trees(mem, place) && CanHang(mem, place, t, i, n, e)
    ensures Trees(Hang(mem, t, i, n, e), place[n := Child(place, t, i)])
  {
    var mem', place' := Hang(mem, t, i, n, e), place[n := Child(place, t, i)];
    forall f | f in place'
      ensures TableOk(mem', place', f)
    {
      if f == n {
        assert TableOk(mem, place, t);
        assert mem'[n] == ZeroFrame();
      } else {
        HangTable(mem, place, t, i, n, e, f);
      }
    }
  }

  lemma HangTable(mem: Mem, place: Places, t: nat, i: nat, n: nat, e: nat, f: nat)
    requires Trees(mem, place) && CanHang(mem, place, t, i, n, e) && f in place
    ensures TableOk(Hang(mem, t, i, n, e), place[n := Child(place, t, i)], f)
  {
    var mem', place' := Hang(mem, t, i, n, e), place[n := Child(place, t, i)];
    assert TableOk(mem, place, f);
    if place[f].level < 4 { assert TableOk(mem, place, place[f].parent); }
    forall j: nat | j < ENTRIES
      ensures Below(mem', place', f, j)
    {
      assert Below(mem, place, f, j);
    }
  }

  /** A new level that is open keeps the spaces open. */
  lemma HangOpened(mem: Mem, place: Places, t: nat, i: nat, n: nat, e: nat, owner: nat)
    requires Trees(mem, place) && CanHang(mem, place, t, i, n, e) && Open(e) && Opened(mem, place, owner)
    ensures Opened(Hang(mem, t, i, n, e), place[n := Child(place, t, i)], owner)
  {
    var mem', place' := Hang(mem, t, i, n, e), place[n := Child(place, t, i)];
    forall f, j: nat | f in place' && place'[f].owner == owner && Frame(mem', f) && j < ENTRIES
      ensures OpenAt(mem', place', f, j)
    {
      if f != n {
        assert TableOk(mem, place, f);
        assert OpenAt(mem, place, f, j);
      } else {
        assert mem'[n] == ZeroFrame();
      }
    }
  }

  lemma PutLeafOpened(mem: Mem, place: Places, t: nat, i: nat, e: nat, owner: nat)
    requires Trees(mem, place) && t in place && place[t].level == 1 && i < ENTRIES && Frame(mem, t) && Opened(mem, place, owner)
    ensures Opened(Put(mem, t, i, e), place, owner)
  {
    forall f, j: nat | f in place && place[f].owner == owner && Frame(Put(mem, t, i, e), f) && j < ENTRIES
      ensures OpenAt(Put(mem, t, i, e), place, f, j)
    {
      assert TableOk(mem, place, f);
      assert OpenAt(mem, place, f, j);
    }
  }

  /** A new, empty space is open and leaves the others so. */
  lemma NewRootOpened(mem: Mem, place: Places, r: nat, owner: nat)
    requires Trees(mem, place) && r !in mem && r !in place
    ensures Opened(mem, place, owner) ==> Opened(mem[r := ZeroFrame()], place[r := Place(r, 4, 0, 0)], owner)
  {
    var mem', place' := mem[r := ZeroFrame()], place[r := Place(r, 4, 0, 0)];
    if Opened(mem, place, owner) {
      forall f, j: nat | f in place' && place'[f].owner == owner && Frame(mem', f) && j < ENTRIES
        ensures OpenAt(mem', place', f, j)
      {
        if f != r {
          assert TableOk(mem, place, f);
          assert OpenAt(mem, place, f, j);
        }
      }
    }
  }

  /** A private way stays private when a level is made. */
  lemma {:induction false} HangWay(mem: Mem, place: Places, t: nat, i: nat, n: nat, e: nat, f: nat, level: Level, pn: Page)
    requires Trees(mem, place) && CanHang(mem, place, t, i, n, e) && OnWay(place, f, level, pn) && PrivateWay(mem, f, level, pn)
    ensures PrivateWay(Hang(mem, t, i, n, e), f, level, pn)
    decreases level
  {
    var mem' := Hang(mem, t, i, n, e);
    assert TableOk(mem, place, f);
    if level > 1 {
      if f == t && Idx(level, pn) == i {
        assert mem'[n] == ZeroFrame();
      } else if Entry(mem, f, level, pn) != 0 {
        Descend(mem, place, f, level, pn);
        HangWay(mem, place, t, i, n, e, Strip(Entry(mem, f, level, pn)), level - 1, pn);
      }
    }
  }

  lemma {:induction false} PutLeafWay(mem: Mem, place: Places, t: nat, i: nat, e: nat, f: nat, level: Level, pn: Page)
    requires Trees(mem, place) && t in place && place[t].level == 1 && i < ENTRIES && Frame(mem, t)
    requires OnWay(place, f, level, pn) && PrivateWay(mem, f, level, pn)
    ensures PrivateWay(Put(mem, t, i, e), f, level, pn)
    decreases level
  {
    if level > 1 && Entry(mem, f, level, pn) != 0 {
      Descend(mem, place, f, level, pn);
      PutLeafWay(mem, place, t, i, e, Strip(Entry(mem, f, level, pn)), level - 1, pn);
    }
  }

  predicate WayKept(mem: Mem, mem': Mem, r: nat, pn: Page)
  {
    PrivateWay(mem, r, 4, pn) ==> PrivateWay(mem', r, 4, pn)
  }

  /** The spaces that were open are, and the ways that were private are. */
  ghost predicate StillOpen(mem: Mem, place: Places, mem': Mem, place': Places)
  {
    && (forall owner: nat {:trigger Opened(mem', place', owner)} | Opened(mem, place, owner) :: Opened(mem', place', owner))
    && (forall r: nat, pn: Page {:trigger WayKept(mem, mem', r, pn)} | Root(place, r) :: WayKept(mem, mem', r, pn))
  }

  lemma StillOpenTwice(m0: Mem, p0: Places, m1: Mem, p1: Places, m2: Mem, p2: Places)
    requires StillOpen(m0, p0, m1, p1) && StillOpen(m1, p1, m2, p2) && Extends(p0, p1)
    ensures StillOpen(m0, p0, m2, p2)
  {
    forall owner: nat | Opened(m0, p0, owner) ensures Opened(m2, p2, owner) { assert Opened(m1, p1, owner); }
    forall r: nat, pn: Page | Root(p0, r) ensures WayKept(m0, m2, r, pn) {
      assert WayKept(m0, m1, r, pn) && WayKept(m1, m2, r, pn);
    }
  }

  lemma HangStillOpen(mem: Mem, place: Places, t: nat, i: nat, n: nat, e: nat)
    requires Trees(mem, place) && CanHang(mem, place, t, i, n, e) && Open(e)
    ensures StillOpen(mem, place, Hang(mem, t, i, n, e), place[n := Child(place, t, i)])
  {
    var mem', place' := Hang(mem, t, i, n, e), place[n := Child(place, t, i)];
    forall owner: nat | Opened(mem, place, owner) ensures Opened(mem', place', owner) {
      HangOpened(mem, place, t, i, n, e, owner);
    }
    forall r: nat, pn: Page | Root(place, r) ensures WayKept(mem, mem', r, pn) {
      RootOnWay(mem, place, r, pn);
      if PrivateWay(mem, r, 4, pn) { HangWay(mem, place, t, i, n, e, r, 4, pn); }
    }
  }

  lemma PutStillOpen(mem: Mem, place: Places, t: nat, i: nat, e: nat)
    requires Trees(mem, place) && t in place && place[t].level == 1 && i < ENTRIES && Frame(mem, t)
    ensures StillOpen(mem, place, Put(mem, t, i, e), place)
  {
    var mem' := Put(mem, t, i, e);
    forall owner: nat | Opened(mem, place, owner) ensures Opened(mem', place, owner) {
      PutLeafOpened(mem, place, t, i, e, owner);
    }
    forall r: nat, pn: Page | Root(place, r) ensures WayKept(mem, mem', r, pn) {
      RootOnWay(mem, place, r, pn);
      if PrivateWay(mem, r, 4, pn) { PutLeafWay(mem, place, t, i, e, r, 4, pn); }
    }
  }

  /** Creating a missing level changes no translation. */
  lemma {:induction false} HangLeaf(mem: Mem, place: Places, t: nat, i: nat, n: nat, e: nat, f: nat, level: Level, pn: Page)
    requires Trees(mem, place) && CanHang(mem, place, t, i, n, e) && OnWay(place, f, level, pn)
    ensures Leaf(Hang(mem, t, i, n, e), f, level, pn) == Leaf(mem, f, level, pn)
    decreases level
  {
    var mem' := Hang(mem, t, i, n, e);
    assert TableOk(mem, place, f);
    if level > 1 {
      if f == t && Idx(level, pn) == i {
        ZeroLeaf(mem', n, level - 1, pn);
      } else if Entry(mem, f, level, pn) != 0 {
        Descend(mem, place, f, level, pn);
        HangLeaf(mem, place, t, i, n, e, Strip(Entry(mem, f, level, pn)), level - 1, pn);
      }
    }
  }

  lemma ZeroLeaf(mem: Mem, f: nat, level: Level, pn: Page)
    requires f in mem && mem[f] == ZeroFrame() && f != 0
    ensures Leaf(mem, f, level, pn) == 0
  {
  }

  // ---------------------------------------------------------------- the kernel's memory

  /** What the frame allocator still has: the allocator itself is not modelled. */
  datatype Supply = Endless | Left(frames: nat)

  lemma FreshFrame(mem: Mem) returns (f: nat)
    ensures f > 0 && f % PAGE == 0 && f !in mem
  {
    var top := Highest(mem.Keys);
    f := (top + 1) * PAGE;
  }

  lemma Highest(s: set<nat>) returns (top: nat)
    ensures forall x | x in s :: x <= top
    decreases s
  {
    if s == {} {
      top := 0;
    } else {
      var x: nat :| x in s;
      var rest := Highest(s - {x});
      top := if rest < x then x else rest;
      forall y | y in s ensures y <= top { if y != x { assert y in s - {x}; } }
    }
  }

  /** Page `pn` of space `r` translates as before. */
  ghost predicate SameAt(mem: Mem, mem': Mem, place': Places, r: nat, pn: Page)
  {
    Root(place', r) && Leaf(mem', r, 4, pn) == Leaf(mem, r, 4, pn)
  }

  /** Every translation of every address space is as before. */
  ghost predicate SameTranslations(mem: Mem, place: Places, mem': Mem, place': Places)
  {
    forall r: nat, pn: Page {:trigger SameAt(mem, mem', place', r, pn)} | Root(place, r) ::
      SameAt(mem, mem', place', r, pn)
  }

  lemma SameTransitive(m0: Mem, p0: Places, m1: Mem, p1: Places, m2: Mem, p2: Places)
    requires SameTranslations(m0, p0, m1, p1) && SameTranslations(m1, p1, m2, p2)
    ensures SameTranslations(m0, p0, m2, p2)
  {
    forall r: nat, pn: Page | Root(p0, r)
      ensures SameAt(m0, m2, p2, r, pn)
    {
      assert SameAt(m0, m1, p1, r, pn);
      assert SameAt(m1, m2, p2, r, pn);
    }
  }

  ghost predicate Extends(place: Places, place': Places)
  {
    forall f | f in place :: f in place' && place'[f] == place[f]
  }

  lemma HangSame(mem: Mem, place: Places, t: nat, i: nat, n: nat, e: nat)
    requires Trees(mem, place) && CanHang(mem, place, t, i, n, e)
    ensures SameTranslations(mem, place, Hang(mem, t, i, n, e), place[n := Child(place, t, i)])
  {
    var mem', place' := Hang(mem, t, i, n, e), place[n := Child(place, t, i)];
    forall r: nat, pn: Page | Root(place, r)
      ensures SameAt(mem, mem', place', r, pn)
    {
      RootOnWay(mem, place, r, pn);
      HangLeaf(mem, place, t, i, n, e, r, 4, pn);
    }
  }

  lemma Unplaced(mem: Mem, place: Places, f: nat)
    requires Trees(mem, place) && f !in mem
    ensures f !in place
  {
    assert f in place ==> TableOk(mem, place, f);
  }

  /** The tables that are missing on the way to the page. */
  function Gaps(mem: Mem, f: nat, level: Level, pn: Page): nat
    decreases level
  {
    if level == 1 then 0
    else if Entry(mem, f, level, pn) == 0 then level - 1
    else Gaps(mem, Strip(Entry(mem, f, level, pn)), level - 1, pn)
  }

  predicate Lasts(s: Supply, n: nat) { s.Left? ==> n <= s.frames }

  function Less(s: Supply, n: nat): Supply
    requires Lasts(s, n)
  {
    if s.Left? then Left(s.frames - n) else s
  }

  /** The flags that go into the entry: kernel-only pages above KERNEL_OFFSET become global. */
  function MapFlags(va: nat, flags: nat): nat
  {
    if va >= KERNEL_OFFSET && !HasUser(flags) then WithGlobal(flags) else flags
  }

  /** The leaf entry for an aligned frame: its address and the flags, and the global bit for a kernel page. */
  function LeafOf(va: nat, phys: nat, flags: nat): nat
  {
    phys + LeafFlags(va, flags)
  }

  function LeafFlags(va: nat, flags: nat): nat
  {
    flags % 4096 + if va >= 0xffff_ff80_0000_0000 && flags / 4 % 2 == 0 && flags / 256 % 2 == 0 then 256 else 0
  }

  lemma FlagsFit(va: nat, flags: nat)
    ensures MapFlags(va, flags) % 4096 == LeafFlags(va, flags) && LeafFlags(va, flags) % 8 == flags % 8
  {
    GlobalBit(flags);
  }

  lemma LeafBits(va: nat, phys: nat, flags: nat)
    requires phys % PAGE == 0
    ensures AddFlags(phys, MapFlags(va, flags)) == LeafOf(va, phys, flags)
    ensures LeafAccess(LeafOf(va, phys, flags)) == if flags % 2 == 1 then Access(phys, flags / 2 % 2 == 1, flags / 4 % 2 == 1) else Fault
  {
    FlagsFit(va, flags);
    LowBits(phys, LeafFlags(va, flags));
    LowThree(LeafOf(va, phys, flags), flags);
  }

  lemma GlobalBit(flags: nat)
    ensures flags / 256 % 2 == 0 ==> flags % 4096 + 256 < 4096 && (flags + 256) % 4096 == flags % 4096 + 256
    ensures (flags % 4096 + 256) % 8 == flags % 8 && flags % 4096 % 8 == flags % 8
  {
    var q, r := flags / 4096, flags % 4096;
    assert flags == 4096 * q + r;
    EighthBit(q, r);
    if r + 256 < 4096 { DivMod(flags + 256, 4096, q, r + 256); }
    LowEight(512 * q, r);
    LowEight(32, r);
  }

  lemma EighthBit(q: nat, r: nat)
    requires r < 4096
    ensures (4096 * q + r) / 256 % 2 == 0 ==> r + 256 < 4096
  {
    var k := r / 256;
    assert 256 * k <= r < 256 * k + 256;
    DivMod(4096 * q + r, 256, 16 * q + k, r - 256 * k);
    Even(8 * q, k);
  }

  lemma Even(m: nat, k: nat)
    ensures (2 * m + k) % 2 == k % 2
  {
  }

  lemma LowEight(m: nat, r: nat)
    ensures (8 * m + r) % 8 == r % 8
  {
  }

  /** An address and flags fall apart again. */
  lemma LowBits(phys: nat, low: nat)
    requires phys % 4096 == 0 && low < 4096
    ensures Strip(phys + low) == phys && (phys + low) % 8 == low % 8
  {
    assert phys == 8 * (512 * (phys / 4096));
  }

  lemma LowThree(a: nat, b: nat)
    requires a % 8 == b % 8
    ensures a % 2 == b % 2 && a / 2 % 2 == b / 2 % 2 && a / 4 % 2 == b / 4 % 2
  {
    Bits(a);
    Bits(b);
  }

  lemma Bits(a: nat)
    ensures a % 2 == a % 8 % 2 && a / 2 % 2 == a % 8 / 2 % 2 && a / 4 % 2 == a % 8 / 4 % 2
  {
    var q, r := a / 8, a % 8;
    assert a == 8 * q + r;
    assert a / 2 == 4 * q + r / 2;
    assert a / 4 == 2 * q + r / 4;
  }

  /** Page `pn'` of `r` translates to `e` if it is page `pn` through the same table, else as before. */
  ghost predicate MappedAt(mem: Mem, mem': Mem, space: nat, pn: Page, e: nat, r: nat, pn': Page)
  {
    Leaf(mem', r, 4, pn') ==
    if pn' == pn && Walk(mem', r, 4, pn) == Walk(mem', space, 4, pn) then e else Leaf(mem, r, 4, pn')
  }

  /** `pn` of `space` translates to `e`; everything else is as it was. */
  ghost predicate Mapped(mem: Mem, place: Places, mem': Mem, space: nat, pn: Page, e: nat)
  {
    && Leaf(mem', space, 4, pn) == e
    && forall r: nat, pn': Page {:trigger MappedAt(mem, mem', space, pn, e, r, pn')} | Root(place, r) ::
         MappedAt(mem, mem', space, pn, e, r, pn')
  }

  lemma MappedBy(mem: Mem, place: Places, m1: Mem, p1: Places, t: nat, space: nat, pn: Page, e: nat)
    requires Trees(mem, place) && Trees(m1, p1) && Root(p1, space) && Frame(m1, t)
    requires SameTranslations(mem, place, m1, p1)
    requires OnWay(p1, t, 1, pn) && Walk(m1, space, 4, pn) == t
    ensures Mapped(mem, place, Put(m1, t, Idx(1, pn), e), space, pn, e)
  {
    var mem' := Put(m1, t, Idx(1, pn), e);
    RootOnWay(m1, p1, space, pn);
    PutLeaf(m1, p1, t, pn, e, space, 4, pn);
    forall r: nat, pn': Page | Root(place, r)
      ensures MappedAt(mem, mem', space, pn, e, r, pn')
    {
      assert SameAt(mem, m1, p1, r, pn');
      RootOnWay(m1, p1, r, pn');
      PutLeaf(m1, p1, t, pn, e, r, 4, pn');
      PutWalk(m1, p1, t, Idx(1, pn), e, r, 4, pn');
      PutWalk(m1, p1, t, Idx(1, pn), e, space, 4, pn);
    }
  }

  lemma NewRootTrees(mem: Mem, place: Places, r: nat)
    requires Trees(mem, place) && r !in mem && r > 0 && r % PAGE == 0
    ensures r !in place
    ensures Trees(mem[r := ZeroFrame()], place[r := Place(r, 4, 0, 0)])
  {
    Unplaced(mem, place, r);
    var mem', place' := mem[r := ZeroFrame()], place[r := Place(r, 4, 0, 0)];
    forall f | f in place'
      ensures TableOk(mem', place', f)
    {
      if f != r {
        assert TableOk(mem, place, f);
        forall j: nat | j < ENTRIES
          ensures Below(mem', place', f, j)
        {
          assert Below(mem, place, f, j);
        }
      }
    }
  }

  class Memory {
    var mem: Mem
    var supply: Supply
    const kernelRoot: nat
    ghost var place: Places

    ghost predicate Valid()
      reads this
    {
      Trees(mem, place) && Root(place, kernelRoot)
    }

    /** Tables that stand in memory, and an allocator that does not run out. */
    constructor (mem: Mem, ghost place: Places, kernelRoot: nat)
      requires Trees(mem, place) && Root(place, kernelRoot)
      ensures Valid() && this.mem == mem && this.place == place && this.kernelRoot == kernelRoot && supply == Endless
    {
      this.mem, this.place, this.kernelRoot, supply := mem, place, kernelRoot, Endless;
    }

    /** pmm_calloc: a zeroed frame that nothing uses, or 0. */
    method Calloc() returns (f: nat)
      modifies `mem, `supply
      ensures f == 0 <==> old(supply) == Left(0)
      ensures f == 0 ==> mem == old(mem) && supply == old(supply)
      ensures f != 0 ==> f % PAGE == 0 && f !in old(mem) && mem == old(mem)[f := ZeroFrame()] && supply == Less(old(supply), 1)
    {
      if supply.Left? {
        if supply.frames == 0 { return 0; }
        supply := Left(supply.frames - 1);
      }
      ghost var spare := FreshFrame(mem);
      f :| f > 0 && f % PAGE == 0 && f !in mem;
      mem := mem[f := ZeroFrame()];
    }
  
    /** The empty top-level table of a new process. */
    method NewSpace() returns (root: nat)
      requires Valid() && supply.Endless?
      modifies `mem, `supply, `place
      ensures Valid() && supply.Endless?
      ensures forall owner: nat {:trigger Opened(mem, place, owner)} | Opened(old(mem), old(place), owner) :: Opened(mem, place, owner)
      ensures root != 0 && root % PAGE == 0 && root !in old(mem) && root !in old(place)
      ensures mem == old(mem)[root := ZeroFrame()] && place == old(place)[root := Place(root, 4, 0, 0)]
    {
      root := Calloc();
      NewRootTrees(old(mem), place, root);
      forall owner: nat | Opened(old(mem), place, owner) ensures Opened(mem, place[root := Place(root, 4, 0, 0)], owner) {
        NewRootOpened(old(mem), place, root, owner);
      }
      place := place[root := Place(root, 4, 0, 0)];
    }

    /** A missing level made: a zeroed table below entry `Idx(level, pn)` of `table`. */
    method MakeTable(table: nat, level: Level, pn: Page) returns (e: nat)
      requires Valid() && level > 1 && OnWay(place, table, level, pn) && Entry(mem, table, level, pn) == 0
      modifies `mem, `supply, `place
      ensures Valid() && SameTranslations(old(mem), old(place), mem, place)
      ensures Extends(old(place), place) && StillOpen(old(mem), old(place), mem, place)
      ensures e == Entry(mem, table, level, pn)
      ensures e == 0 <==> old(supply) == Left(0)
      ensures e == 0 ==> mem == old(mem) && place == old(place) && supply == old(supply)
      ensures e != 0 ==> supply == Less(old(supply), 1) && Strip(e) in mem && mem[Strip(e)] == ZeroFrame()
      ensures forall g | g in old(mem) && g != table :: g in mem && mem[g] == old(mem)[g]
    {
      assert TableOk(mem, place, table);
      var p := Calloc();
      if p == 0 { return 0; }
      var i := Idx(level, pn);
      e := AddFlags(p, PRESENT + WRITE + USER);
      TableEntry(p);
      TableFlags(p);
      mem := Put(mem, table, i, e);
      Unplaced(old(mem), place, p);
      HangTrees(old(mem), place, table, i, p, e);
      HangSame(old(mem), place, table, i, p, e);
      HangStillOpen(old(mem), place, table, i, p, e);
      place := place[p := Child(place, table, i)];
    }

    /** One level of vmm_find_page. */
    method NextTable(table: nat, level: Level, pn: Page, create: bool) returns (t: nat)
      requires Valid() && level > 1 && OnWay(place, table, level, pn)
      modifies `mem, `supply, `place
      ensures Valid() && SameTranslations(old(mem), old(place), mem, place)
      ensures Extends(old(place), place) && StillOpen(old(mem), old(place), mem, place)
      ensures t == Strip(Entry(mem, table, level, pn))
      ensures t != 0 ==> OnWay(place, t, level - 1, pn) && Entry(mem, table, level, pn) != 0
      ensures t == 0 ==> Entry(mem, table, level, pn) == 0
      ensures var gap := if Entry(old(mem), table, level, pn) == 0 then 1 else 0;
              if t != 0 then Lasts(old(supply), gap) && supply == Less(old(supply), gap) && Gaps(old(mem), table, level, pn) == Gaps(mem, t, level - 1, pn) + gap
              else gap == 1 && supply == old(supply) && (create ==> supply == Left(0))
      ensures t != 0 && !create ==> Entry(old(mem), table, level, pn) != 0
      ensures forall g | g in old(mem) && g != table :: g in mem && mem[g] == old(mem)[g]
      ensures !create || Entry(old(mem), table, level, pn) != 0 ==> mem == old(mem) && place == old(place)
    {
      assert TableOk(mem, place, table);
      var e := mem[table][Idx(level, pn)];
      if e == 0 {
        if !create { return 0; }
        e := MakeTable(table, level, pn);
        if e == 0 { return 0; }
      }
      t := Strip(e);
      Descend(mem, place, table, level, pn);
      assert TableOk(mem, place, t);
    }

    /** vmm_find_page: the level-1 table for `pn`, creating missing levels on demand. */
    method FindPage(root: nat, pn: Page, create: bool) returns (pt: nat)
      requires Valid() && Root(place, root)
      modifies `mem, `supply, `place
      ensures Valid() && SameTranslations(old(mem), old(place), mem, place)
      ensures Extends(old(place), place) && StillOpen(old(mem), old(place), mem, place)
      ensures pt == Walk(mem, root, 4, pn)
      ensures pt != 0 ==> OnWay(place, pt, 1, pn)
      ensures pt != 0 <==> Lasts(if create then old(supply) else Left(0), Gaps(old(mem), root, 4, pn))
      ensures pt != 0 ==> supply == Less(old(supply), Gaps(old(mem), root, 4, pn))
      ensures pt == 0 ==> supply == if create then Left(0) else old(supply)
      ensures !create || Walk(old(mem), root, 4, pn) != 0 ==> mem == old(mem) && place == old(place)
    {
      RootOnWay(mem, place, root, pn);
      var pdpt := NextTable(root, 4, pn, create);
      if pdpt == 0 { return 0; }
      ghost var m1, p1 := mem, place;
      var pdt := NextTable(pdpt, 3, pn, create);
      SameTransitive(old(mem), old(place), m1, p1, mem, place);
      StillOpenTwice(old(mem), old(place), m1, p1, mem, place);
      if pdt == 0 { return 0; }
      ghost var m2, p2 := mem, place;
      pt := NextTable(pdt, 2, pn, create);
      SameTransitive(old(mem), old(place), m2, p2, mem, place);
      StillOpenTwice(old(mem), old(place), m2, p2, mem, place);
    }

    /** vmm_get_page. */
    method GetPage(root: nat, va: nat) returns (frame: nat)
      requires Valid() && (root == 0 || Root(place, root))
      modifies `mem, `supply, `place
      ensures Valid() && mem == old(mem) && place == old(place) && supply == old(supply)
      ensures frame == Strip(Leaf(mem, if root == 0 then kernelRoot else root, 4, PageOf(va)))
    {
      var space := if root == 0 then kernelRoot else root;
      var pt := FindPage(space, PageOf(va), false);
      if pt == 0 { return 0; }
      assert TableOk(mem, place, pt);
      return Strip(mem[pt][Idx(1, PageOf(va))]);
    }

    /**
     vmm_set_page: page `va` of the space translates to the new entry, and every
     other page of every space keeps its translation, save the same page of a
     space that shares the level-1 table.
     */
    method SetPage(root: nat, va: nat, phys: nat, flags: nat) returns (entry: nat, ghost ok: bool)
      requires Valid() && (root == 0 || Root(place, root))
      modifies `mem, `supply, `place
      ensures Valid() && Extends(old(place), place) && StillOpen(old(mem), old(place), mem, place)
      ensures ok ==> entry == AddFlags(phys, MapFlags(va, flags))
      ensures ok && phys % PAGE == 0 ==> entry == LeafOf(va, phys, flags)
      ensures ok ==> Mapped(old(mem), old(place), mem, if root == 0 then kernelRoot else root, PageOf(va), entry)
      ensures !ok ==> entry == 0 && SameTranslations(old(mem), old(place), mem, place)
      ensures ok <==> Lasts(old(supply), Gaps(old(mem), if root == 0 then kernelRoot else root, 4, PageOf(va)))
      ensures supply == if ok then Less(old(supply), Gaps(old(mem), if root == 0 then kernelRoot else root, 4, PageOf(va))) else Left(0)
      ensures var space := if root == 0 then kernelRoot else root;
              ok && phys % PAGE == 0 && Opened(old(mem), old(place), space) && PrivateWay(old(mem), space, 4, PageOf(va)) ==>
                Mmu(mem, space, 4, PageOf(va)) == if flags % 2 == 1 then Access(phys, flags / 2 % 2 == 1, flags / 4 % 2 == 1) else Fault
    {
      var space := if root == 0 then kernelRoot else root;
      var pn := PageOf(va);
      var pt := FindPage(space, pn, true);
      ok := pt != 0;
      if pt == 0 { return 0, false; }
      assert TableOk(mem, place, pt);
      entry := AddFlags(phys, MapFlags(va, flags));
      ghost var m1 := mem;
      mem := Put(mem, pt, Idx(1, pn), entry);
      PutLeafTrees(m1, place, pt, Idx(1, pn), entry);
      MappedBy(old(mem), old(place), m1, place, pt, space, pn, entry);
      PutStillOpen(m1, place, pt, Idx(1, pn), entry);
      StillOpenTwice(old(mem), old(place), m1, place, mem, place);
      if phys % PAGE == 0 { LeafBits(va, phys, flags); }
      if Opened(old(mem), old(place), space) && PrivateWay(old(mem), space, 4, pn) {
        RootOnWay(mem, place, space, pn);
        assert TableOk(mem, place, space) && Opened(mem, place, space) && WayKept(old(mem), mem, space, pn);
        MmuIsLeaf(mem, place, space, 4, pn);
      }
    }
  }
}
