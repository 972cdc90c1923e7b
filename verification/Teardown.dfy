/**
 Tear-down of an address space: every lower-level table of the space is freed
 once, with the frames it maps privately unless only the tables are wanted.
 */
module Teardown {
  import opened Paging
  import opened PageTable
  import opened ForkPages

  // ---------------------------------------------------------------- what a tear-down must find

  /** No global or shared entry, of any space, leads to a table of `owner`. */
  predicate PinElsewhere(mem: Mem, place: Places, f: nat, i: nat, owner: nat)
    requires f in place && Frame(mem, f) && i < ENTRIES
  {
    place[f].level > 1 && mem[f][i] != 0 && Pinned(mem[f][i]) ==> !Owned(place, Strip(mem[f][i]), owner)
  }

  ghost predicate NotPinned(mem: Mem, place: Places, owner: nat)
  {
    forall f, i: nat {:trigger PinElsewhere(mem, place, f, i, owner)} |
      f in place && Frame(mem, f) && i < ENTRIES :: PinElsewhere(mem, place, f, i, owner)
  }

  /** The one private leaf entry that maps a frame. */
  datatype Home = Home(table: nat, index: nat)

  type Homes = map<nat, Home>

  predicate Private(mem: Mem, place: Places, owner: nat, t: nat, i: nat)
  {
    && Owned(place, t, owner) && place[t].level == 1 && Frame(mem, t) && i < ENTRIES
    && mem[t][i] != 0 && !Pinned(mem[t][i])
  }

  predicate HomeOf(mem: Mem, place: Places, home: Homes, owner: nat, t: nat, i: nat)
  {
    Private(mem, place, owner, t, i) ==> Strip(mem[t][i]) in home && home[Strip(mem[t][i])] == Home(t, i)
  }

  predicate HomeTrue(mem: Mem, place: Places, home: Homes, owner: nat, f: nat)
    requires f in home
  {
    && Private(mem, place, owner, home[f].table, home[f].index)
    && Strip(mem[home[f].table][home[f].index]) == f
    && f in mem && f !in place
  }

  /** `home` is exactly the frames that the space maps privately, each by one entry. */
  ghost predicate HomesOk(mem: Mem, place: Places, home: Homes, owner: nat)
  {
    && (forall t, i: nat {:trigger HomeOf(mem, place, home, owner, t, i)} :: HomeOf(mem, place, home, owner, t, i))
    && (forall f {:trigger HomeTrue(mem, place, home, owner, f)} | f in home :: HomeTrue(mem, place, home, owner, f))
  }

  ghost predicate CleanReady(mem: Mem, place: Places, home: Homes, table: nat, level: Level, tablesOnly: bool)
  {
    && Trees(mem, place) && table in place && place[table].level == level
    && NotPinned(mem, place, place[table].owner)
    && (!tablesOnly ==> HomesOk(mem, place, home, place[table].owner))
  }

  // ---------------------------------------------------------------- what goes

  /** Table `f` hangs below an entry of `table` numbered from `lo` to `hi`. */
  predicate Under(place: Places, table: nat, f: nat, lo: nat, hi: nat)
    requires table in place
  {
    var p := place[table];
    && Owned(place, f, p.owner) && place[f].level < p.level
    && place[f].prefix / Span(p.level - place[f].level) == p.prefix
    && lo <= (place[f].prefix / Span(p.level - 1 - place[f].level)) % ENTRIES < hi
  }

  /** Data frame `f` is mapped privately below such an entry. */
  predicate Maps(place: Places, home: Homes, table: nat, f: nat, lo: nat, hi: nat)
    requires table in place
  {
    f in home && (if home[f].table == table then lo <= home[f].index < hi else Under(place, table, home[f].table, lo, hi))
  }

  predicate Goes(place: Places, home: Homes, table: nat, tablesOnly: bool, f: nat, lo: nat, hi: nat)
    requires table in place
  {
    Under(place, table, f, lo, hi) || (!tablesOnly && Maps(place, home, table, f, lo, hi))
  }

  /** Entry `j` of the table after entries `lo` to `hi` have been cleaned. */
  predicate EntryAfter(level: Level, tablesOnly: bool, lo: nat, hi: nat, j: nat, e: nat, e': nat)
  {
    e' == if lo <= j < hi && !Pinned(e) && !(level == 1 && tablesOnly) then 0 else e
  }

  ghost predicate TableAfter(m0: Mem, m1: Mem, table: nat, level: Level, tablesOnly: bool, lo: nat, hi: nat)
  {
    && Frame(m0, table) && Frame(m1, table)
    && forall j: nat {:trigger m1[table][j]} | j < ENTRIES :: EntryAfter(level, tablesOnly, lo, hi, j, m0[table][j], m1[table][j])
  }

  /** Frame `f` is freed or kept with what it held. */
  predicate FrameAfter(m0: Mem, p0: Places, h0: Homes, m1: Mem, table: nat, tablesOnly: bool, lo: nat, hi: nat, f: nat)
    requires table in p0
  {
    && (f in m1 <==> f in m0 && !Goes(p0, h0, table, tablesOnly, f, lo, hi))
    && (f in m1 && f != table ==> m1[f] == m0[f])
  }

  predicate PlaceAfter(p0: Places, p1: Places, table: nat, lo: nat, hi: nat, f: nat)
    requires table in p0
  {
    && (f in p1 <==> f in p0 && !Under(p0, table, f, lo, hi))
    && (f in p1 ==> p1[f] == p0[f])
  }

  predicate HomeAfter(p0: Places, h0: Homes, h1: Homes, table: nat, lo: nat, hi: nat, f: nat)
    requires table in p0
  {
    && (f in h1 <==> f in h0 && !Maps(p0, h0, table, f, lo, hi))
    && (f in h1 ==> h1[f] == h0[f])
  }

  /** Entries `lo` to `hi` of `table` have been cleaned: exactly what hung below them is gone. */
  ghost predicate Cleaned(m0: Mem, p0: Places, h0: Homes, m1: Mem, p1: Places, h1: Homes,
                          table: nat, level: Level, tablesOnly: bool, lo: nat, hi: nat)
    requires table in p0
  {
    && TableAfter(m0, m1, table, level, tablesOnly, lo, hi)
    && (forall f: nat {:trigger FrameAfter(m0, p0, h0, m1, table, tablesOnly, lo, hi, f)} ::
          FrameAfter(m0, p0, h0, m1, table, tablesOnly, lo, hi, f))
    && (forall f: nat {:trigger PlaceAfter(p0, p1, table, lo, hi, f)} :: PlaceAfter(p0, p1, table, lo, hi, f))
    && (!tablesOnly ==>
          forall f: nat {:trigger HomeAfter(p0, h0, h1, table, lo, hi, f)} :: HomeAfter(p0, h0, h1, table, lo, hi, f))
  }

  // ---------------------------------------------------------------- one range after another

  lemma SelfKept(p0: Places, p1: Places, table: nat, lo: nat, hi: nat)
    requires table in p0 && PlaceAfter(p0, p1, table, lo, hi, table)
    ensures table in p1 && p1[table] == p0[table]
  {
  }

  lemma UnderSplit(p0: Places, p: Places, table: nat, lo: nat, mid: nat, hi: nat, f: nat)
    requires table in p0 && lo <= mid <= hi
    requires PlaceAfter(p0, p, table, lo, mid, table) && PlaceAfter(p0, p, table, lo, mid, f)
    ensures table in p
    ensures Under(p0, table, f, lo, hi) <==> Under(p0, table, f, lo, mid) || Under(p, table, f, mid, hi)
  {
    SelfKept(p0, p, table, lo, mid);
  }

  lemma MapsSplit(p0: Places, h0: Homes, p: Places, h: Homes, table: nat, lo: nat, mid: nat, hi: nat, f: nat)
    requires table in p0 && lo <= mid <= hi
    requires forall g: nat {:trigger PlaceAfter(p0, p, table, lo, mid, g)} :: PlaceAfter(p0, p, table, lo, mid, g)
    requires HomeAfter(p0, h0, h, table, lo, mid, f)
    ensures table in p
    ensures Maps(p0, h0, table, f, lo, hi) <==> Maps(p0, h0, table, f, lo, mid) || Maps(p, h, table, f, mid, hi)
  {
    assert PlaceAfter(p0, p, table, lo, mid, table);
    SelfKept(p0, p, table, lo, mid);
    if f in h0 {
      assert PlaceAfter(p0, p, table, lo, mid, h0[f].table);
      UnderSplit(p0, p, table, lo, mid, hi, h0[f].table);
    }
  }

  lemma ComposeFrame(m0: Mem, p0: Places, h0: Homes, m: Mem, p: Places, h: Homes, m1: Mem, p1: Places, h1: Homes,
                     table: nat, level: Level, tablesOnly: bool, lo: nat, mid: nat, hi: nat, f: nat)
    requires table in p0 && lo <= mid <= hi && table in p
    requires Cleaned(m0, p0, h0, m, p, h, table, level, tablesOnly, lo, mid)
    requires Cleaned(m, p, h, m1, p1, h1, table, level, tablesOnly, mid, hi)
    ensures FrameAfter(m0, p0, h0, m1, table, tablesOnly, lo, hi, f)
    ensures PlaceAfter(p0, p1, table, lo, hi, f)
    ensures !tablesOnly ==> HomeAfter(p0, h0, h1, table, lo, hi, f)
  {
    assert PlaceAfter(p0, p, table, lo, mid, table);
    assert PlaceAfter(p0, p, table, lo, mid, f);
    assert PlaceAfter(p, p1, table, mid, hi, f);
    UnderSplit(p0, p, table, lo, mid, hi, f);
    assert FrameAfter(m0, p0, h0, m, table, tablesOnly, lo, mid, f);
    assert FrameAfter(m, p, h, m1, table, tablesOnly, mid, hi, f);
    if !tablesOnly {
      assert HomeAfter(p0, h0, h, table, lo, mid, f);
      assert HomeAfter(p, h, h1, table, mid, hi, f);
      MapsSplit(p0, h0, p, h, table, lo, mid, hi, f);
    }
  }

  lemma Compose(m0: Mem, p0: Places, h0: Homes, m: Mem, p: Places, h: Homes, m1: Mem, p1: Places, h1: Homes,
                table: nat, level: Level, tablesOnly: bool, lo: nat, mid: nat, hi: nat)
    requires table in p0 && lo <= mid <= hi && table in p
    requires Cleaned(m0, p0, h0, m, p, h, table, level, tablesOnly, lo, mid)
    requires Cleaned(m, p, h, m1, p1, h1, table, level, tablesOnly, mid, hi)
    ensures Cleaned(m0, p0, h0, m1, p1, h1, table, level, tablesOnly, lo, hi)
  {
    forall f: nat
      ensures FrameAfter(m0, p0, h0, m1, table, tablesOnly, lo, hi, f)
      ensures PlaceAfter(p0, p1, table, lo, hi, f)
      ensures !tablesOnly ==> HomeAfter(p0, h0, h1, table, lo, hi, f)
    {
      ComposeFrame(m0, p0, h0, m, p, h, m1, p1, h1, table, level, tablesOnly, lo, mid, hi, f);
    }
    assert TableAfter(m0, m1, table, level, tablesOnly, lo, hi);
  }

  // ---------------------------------------------------------------- what hangs below one entry

  /** Owner, level and covered pages determine a table. */
  lemma {:induction false} OnePlace(mem: Mem, place: Places, f: nat, g: nat)
    requires Trees(mem, place) && f in place && g in place
    requires place[f].owner == place[g].owner && place[f].level == place[g].level && place[f].prefix == place[g].prefix
    ensures f == g
    decreases 4 - place[f].level
  {
    assert TableOk(mem, place, f);
    assert TableOk(mem, place, g);
    if place[f].level < 4 { OnePlace(mem, place, place[f].parent, place[g].parent); }
  }

  /** A table below entry `i` of another makes that entry present and private. */
  lemma {:induction false} UnderPresent(mem: Mem, place: Places, table: nat, f: nat, i: nat)
    requires Trees(mem, place) && table in place && NotPinned(mem, place, place[table].owner)
    requires Under(place, table, f, i, i + 1) && i < ENTRIES
    ensures Frame(mem, table) && mem[table][i] != 0 && !Pinned(mem[table][i])
    decreases place[table].level - place[f].level
  {
    assert TableOk(mem, place, table);
    assert TableOk(mem, place, f);
    var g := place[f].parent;
    if place[f].level + 1 == place[table].level {
      OnePlace(mem, place, g, table);
      assert PinElsewhere(mem, place, table, i, place[table].owner);
    } else {
      UnderParent(place[f].prefix, place[table].level - place[f].level);
      UnderPresent(mem, place, table, g, i);
    }
  }

  lemma UnderParent(x: nat, k: int)
    requires 2 <= k <= 3
    ensures x / ENTRIES / Span(k - 1) == x / Span(k)
    ensures x / ENTRIES / Span(k - 2) == x / Span(k - 1)
  {
  }

  /** Below entry `i` hang the child table and what hangs below it. */
  lemma UnderChild(mem: Mem, place: Places, table: nat, i: nat, f: nat)
    requires Trees(mem, place) && table in place && place[table].level > 1 && i < ENTRIES
    requires Frame(mem, table) && mem[table][i] != 0 && !Pinned(mem[table][i])
    ensures Strip(mem[table][i]) in place
    ensures Under(place, table, f, i, i + 1) <==>
            f == Strip(mem[table][i]) || Under(place, Strip(mem[table][i]), f, 0, ENTRIES)
  {
    var c := Strip(mem[table][i]);
    assert TableOk(mem, place, table);
    assert Below(mem, place, table, i);
    if Owned(place, f, place[table].owner) && place[f].level < place[table].level {
      DivSpan(place[f].prefix, place[c].level - place[f].level);
      if place[f].level == place[c].level && place[f].prefix == place[c].prefix { OnePlace(mem, place, f, c); }
    }
  }

  // ---------------------------------------------------------------- single steps

  /** Below an entry that is absent, global or shared there is nothing to free. */
  lemma SkipEntry(m0: Mem, p0: Places, h0: Homes, table: nat, level: Level, tablesOnly: bool, i: nat)
    requires CleanReady(m0, p0, h0, table, level, tablesOnly) && i < ENTRIES && Frame(m0, table)
    requires m0[table][i] == 0 || Pinned(m0[table][i]) || (level == 1 && tablesOnly)
    ensures Cleaned(m0, p0, h0, m0, p0, h0, table, level, tablesOnly, i, i + 1)
  {
    var hi := i + 1;
    forall f: nat
      ensures !Under(p0, table, f, i, hi)
    {
      if Under(p0, table, f, i, hi) { UnderPresent(m0, p0, table, f, i); assert false; }
    }
    if !tablesOnly {
      forall f: nat | f in h0
        ensures !Maps(p0, h0, table, f, i, hi)
      {
        assert HomeTrue(m0, p0, h0, p0[table].owner, f);
      }
    }
  }

  /** A private data page freed and its entry cleared. */
  lemma DropPage(m0: Mem, p0: Places, h0: Homes, table: nat, i: nat, f: nat)
    requires CleanReady(m0, p0, h0, table, 1, false) && i < ENTRIES && Frame(m0, table)
    requires m0[table][i] != 0 && !Pinned(m0[table][i]) && f == Strip(m0[table][i])
    ensures f in m0 && f != table
    ensures Cleaned(m0, p0, h0, Put(m0 - {f}, table, i, 0), p0, h0 - {f}, table, 1, false, i, i + 1)
    ensures CleanReady(Put(m0 - {f}, table, i, 0), p0, h0 - {f}, table, 1, false)
  {
    var owner := p0[table].owner;
    assert HomeOf(m0, p0, h0, owner, table, i);
    assert HomeTrue(m0, p0, h0, owner, f);
    var m1, h1, hi := Put(m0 - {f}, table, i, 0), h0 - {f}, i + 1;
    forall g: nat
      ensures FrameAfter(m0, p0, h0, m1, table, false, i, hi, g) && HomeAfter(p0, h0, h1, table, i, hi, g)
    {
      DropPageFrame(m0, p0, h0, table, i, f, g);
    }
    DropPageTrees(m0, p0, table, i, f);
    DropPageHomes(m0, p0, h0, table, i, f);
    forall g, j: nat | g in p0 && Frame(m1, g) && j < ENTRIES
      ensures PinElsewhere(m1, p0, g, j, owner)
    {
      assert TableOk(m0, p0, g);
      assert PinElsewhere(m0, p0, g, j, owner);
    }
  }

  lemma DropPageFrame(m0: Mem, p0: Places, h0: Homes, table: nat, i: nat, f: nat, g: nat)
    requires CleanReady(m0, p0, h0, table, 1, false) && i < ENTRIES && Frame(m0, table)
    requires m0[table][i] != 0 && !Pinned(m0[table][i]) && f == Strip(m0[table][i])
    ensures f != table && FrameAfter(m0, p0, h0, Put(m0 - {f}, table, i, 0), table, false, i, i + 1, g)
    ensures HomeAfter(p0, h0, h0 - {f}, table, i, i + 1, g)
  {
    var owner := p0[table].owner;
    assert HomeOf(m0, p0, h0, owner, table, i);
    assert HomeTrue(m0, p0, h0, owner, f);
    if g in h0 { assert HomeTrue(m0, p0, h0, owner, g); }
    assert Maps(p0, h0, table, g, i, i + 1) <==> g == f;
  }

  lemma DropPageTrees(m0: Mem, p0: Places, table: nat, i: nat, f: nat)
    requires Trees(m0, p0) && table in p0 && p0[table].level == 1 && i < ENTRIES && f !in p0
    ensures Frame(m0 - {f}, table) && Trees(Put(m0 - {f}, table, i, 0), p0)
  {
    assert TableOk(m0, p0, table);
    var m1 := Put(m0 - {f}, table, i, 0);
    forall g | g in p0
      ensures TableOk(m1, p0, g)
    {
      assert TableOk(m0, p0, g);
      if p0[g].level < 4 { assert TableOk(m0, p0, p0[g].parent); }
      forall j: nat | j < ENTRIES
        ensures Below(m1, p0, g, j)
      {
        assert Below(m0, p0, g, j);
      }
    }
  }

  lemma DropPageHomes(m0: Mem, p0: Places, h0: Homes, table: nat, i: nat, f: nat)
    requires CleanReady(m0, p0, h0, table, 1, false) && i < ENTRIES && Frame(m0, table)
    requires m0[table][i] != 0 && !Pinned(m0[table][i]) && f == Strip(m0[table][i])
    ensures f != table && HomesOk(Put(m0 - {f}, table, i, 0), p0, h0 - {f}, p0[table].owner)
  {
    var owner := p0[table].owner;
    assert HomeOf(m0, p0, h0, owner, table, i);
    assert HomeTrue(m0, p0, h0, owner, f);
    var m1, h1 := Put(m0 - {f}, table, i, 0), h0 - {f};
    forall t, j: nat
      ensures HomeOf(m1, p0, h1, owner, t, j)
    {
      assert HomeOf(m0, p0, h0, owner, t, j);
    }
    forall g | g in h1
      ensures HomeTrue(m1, p0, h1, owner, g)
    {
      assert HomeTrue(m0, p0, h0, owner, g);
    }
  }

  /** The child table `c` of entry `i`, itself already cleaned, freed and its entry cleared. */
  ghost predicate Emptied(m0: Mem, p0: Places, h0: Homes, m1: Mem, p1: Places, h1: Homes,
                          table: nat, level: Level, tablesOnly: bool, i: nat, c: nat)
  {
    && CleanReady(m0, p0, h0, table, level, tablesOnly) && level > 1 && i < ENTRIES && Frame(m0, table)
    && m0[table][i] != 0 && !Pinned(m0[table][i]) && c == Strip(m0[table][i]) && c in p0
    && Cleaned(m0, p0, h0, m1, p1, h1, c, level - 1, tablesOnly, 0, ENTRIES)
    && CleanReady(m1, p1, h1, c, level - 1, tablesOnly)
  }

  lemma ChildIs(mem: Mem, place: Places, table: nat, i: nat)
    requires Trees(mem, place) && table in place && place[table].level > 1 && i < ENTRIES
    requires Frame(mem, table) && mem[table][i] != 0 && !Pinned(mem[table][i])
    ensures var c := Strip(mem[table][i]);
            c in place && c in mem && c != table && place[c] == Place(place[table].owner, place[table].level - 1, place[table].prefix * ENTRIES + i, table)
  {
    assert TableOk(mem, place, table);
    assert Below(mem, place, table, i);
    assert TableOk(mem, place, Strip(mem[table][i]));
  }

  /** Cleaning the child leaves its parent alone. */
  lemma ParentKept(m0: Mem, p0: Places, h0: Homes, m1: Mem, p1: Places, h1: Homes,
                   table: nat, level: Level, tablesOnly: bool, i: nat, c: nat)
    requires Emptied(m0, p0, h0, m1, p1, h1, table, level, tablesOnly, i, c)
    ensures table in p1 && p1[table] == p0[table] && Frame(m1, table) && m1[table] == m0[table] && c != table
    ensures c in p1 && c in m1 && p1[c] == p0[c]
  {
    ChildIs(m0, p0, table, i);
    assert PlaceAfter(p0, p1, c, 0, ENTRIES, table);
    assert PlaceAfter(p0, p1, c, 0, ENTRIES, c);
    assert FrameAfter(m0, p0, h0, m1, c, tablesOnly, 0, ENTRIES, table);
    assert !tablesOnly && table in h0 ==> HomeTrue(m0, p0, h0, p0[table].owner, table);
  }

  lemma DropTableFrame(m0: Mem, p0: Places, h0: Homes, m1: Mem, p1: Places, h1: Homes,
                       table: nat, level: Level, tablesOnly: bool, i: nat, c: nat, f: nat)
    requires Emptied(m0, p0, h0, m1, p1, h1, table, level, tablesOnly, i, c)
    requires Frame(m1 - {c}, table)
    ensures FrameAfter(m0, p0, h0, Put(m1 - {c}, table, i, 0), table, tablesOnly, i, i + 1, f)
    ensures PlaceAfter(p0, p1 - {c}, table, i, i + 1, f)
    ensures !tablesOnly ==> HomeAfter(p0, h0, h1, table, i, i + 1, f)
  {
    ParentKept(m0, p0, h0, m1, p1, h1, table, level, tablesOnly, i, c);
    UnderChild(m0, p0, table, i, f);
    assert FrameAfter(m0, p0, h0, m1, c, tablesOnly, 0, ENTRIES, f);
    assert PlaceAfter(p0, p1, c, 0, ENTRIES, f);
    if !tablesOnly {
      assert HomeAfter(p0, h0, h1, c, 0, ENTRIES, f);
      if f in h0 {
        assert HomeTrue(m0, p0, h0, p0[table].owner, f);
        UnderChild(m0, p0, table, i, h0[f].table);
        ChildIs(m0, p0, table, i);
      }
    }
  }

  lemma DropTableTrees(m1: Mem, p1: Places, table: nat, i: nat, c: nat)
    requires Trees(m1, p1) && table in p1 && p1[table].level > 1 && i < ENTRIES && Frame(m1, table)
    requires m1[table][i] != 0 && !Pinned(m1[table][i]) && c == Strip(m1[table][i])
    requires NotPinned(m1, p1, p1[table].owner)
    requires forall f | f in p1 && p1[f].level < 4 :: p1[f].parent != c
    ensures c != table && Frame(m1 - {c}, table) && Trees(Put(m1 - {c}, table, i, 0), p1 - {c})
  {
    ChildIs(m1, p1, table, i);
    var m2, p2 := Put(m1 - {c}, table, i, 0), p1 - {c};
    forall f | f in p2
      ensures TableOk(m2, p2, f)
    {
      DropTableOne(m1, p1, table, i, c, f);
    }
  }

  lemma DropTableOne(m1: Mem, p1: Places, table: nat, i: nat, c: nat, f: nat)
    requires Trees(m1, p1) && table in p1 && p1[table].level > 1 && i < ENTRIES && Frame(m1, table)
    requires m1[table][i] != 0 && !Pinned(m1[table][i]) && c == Strip(m1[table][i]) && c != table
    requires NotPinned(m1, p1, p1[table].owner)
    requires f in p1 && f != c && (p1[f].level < 4 ==> p1[f].parent != c)
    ensures TableOk(Put(m1 - {c}, table, i, 0), p1 - {c}, f)
  {
    var m2, p2 := Put(m1 - {c}, table, i, 0), p1 - {c};
    ChildIs(m1, p1, table, i);
    assert TableOk(m1, p1, f);
    assert TableOk(m1, p1, table);
    if p1[f].level < 4 {
      assert TableOk(m1, p1, p1[f].parent);
      if p1[f].parent == table && p1[f].prefix % ENTRIES == i { OnePlace(m1, p1, f, c); }
    }
    forall j: nat | j < ENTRIES
      ensures Below(m2, p2, f, j)
    {
      assert Below(m1, p1, f, j);
      assert PinElsewhere(m1, p1, f, j, p1[table].owner);
    }
  }

  lemma NothingBelow(m0: Mem, p0: Places, h0: Homes, m1: Mem, p1: Places, h1: Homes,
                     table: nat, level: Level, tablesOnly: bool, i: nat, c: nat, f: nat)
    requires Emptied(m0, p0, h0, m1, p1, h1, table, level, tablesOnly, i, c)
    requires f in p1 && p1[f].level < 4
    ensures p1[f].parent != c
  {
    ParentKept(m0, p0, h0, m1, p1, h1, table, level, tablesOnly, i, c);
    assert TableOk(m1, p1, f);
    assert PlaceAfter(p0, p1, c, 0, ENTRIES, f);
  }

  lemma DropTableHomes(m0: Mem, p0: Places, h0: Homes, m1: Mem, p1: Places, h1: Homes,
                       table: nat, level: Level, i: nat, c: nat)
    requires Emptied(m0, p0, h0, m1, p1, h1, table, level, false, i, c)
    requires c != table && Frame(m1 - {c}, table)
    ensures HomesOk(Put(m1 - {c}, table, i, 0), p1 - {c}, h1, p0[table].owner)
  {
    ParentKept(m0, p0, h0, m1, p1, h1, table, level, false, i, c);
    ChildIs(m0, p0, table, i);
    var m2, p2, owner := Put(m1 - {c}, table, i, 0), p1 - {c}, p0[table].owner;
    forall t, j: nat
      ensures HomeOf(m2, p2, h1, owner, t, j)
    {
      assert HomeOf(m1, p1, h1, owner, t, j);
    }
    forall f | f in h1
      ensures HomeTrue(m2, p2, h1, owner, f)
    {
      assert HomeTrue(m1, p1, h1, owner, f);
      var j := h1[f].index;
      assert j < ENTRIES && EntryAfter(level - 1, false, 0, ENTRIES, j, m0[c][j], m1[c][j]);
    }
  }

  lemma DropTable(m0: Mem, p0: Places, h0: Homes, m1: Mem, p1: Places, h1: Homes,
                  table: nat, level: Level, tablesOnly: bool, i: nat, c: nat)
    requires Emptied(m0, p0, h0, m1, p1, h1, table, level, tablesOnly, i, c)
    ensures c in m1 && c != table && Frame(m1 - {c}, table)
    ensures Cleaned(m0, p0, h0, Put(m1 - {c}, table, i, 0), p1 - {c}, h1, table, level, tablesOnly, i, i + 1)
    ensures CleanReady(Put(m1 - {c}, table, i, 0), p1 - {c}, h1, table, level, tablesOnly)
  {
    ParentKept(m0, p0, h0, m1, p1, h1, table, level, tablesOnly, i, c);
    ChildIs(m0, p0, table, i);
    var m2, p2, hi := Put(m1 - {c}, table, i, 0), p1 - {c}, i + 1;
    forall f: nat
      ensures FrameAfter(m0, p0, h0, m2, table, tablesOnly, i, hi, f)
      ensures PlaceAfter(p0, p2, table, i, hi, f)
      ensures !tablesOnly ==> HomeAfter(p0, h0, h1, table, i, hi, f)
    {
      DropTableFrame(m0, p0, h0, m1, p1, h1, table, level, tablesOnly, i, c, f);
    }
    forall f | f in p1 && p1[f].level < 4
      ensures p1[f].parent != c
    {
      NothingBelow(m0, p0, h0, m1, p1, h1, table, level, tablesOnly, i, c, f);
    }
    DropTableTrees(m1, p1, table, i, c);
    forall f, j: nat | f in p2 && Frame(m2, f) && j < ENTRIES
      ensures PinElsewhere(m2, p2, f, j, p0[table].owner)
    {
      assert TableOk(m1, p1, f);
      assert PinElsewhere(m1, p1, f, j, p0[table].owner);
    }
    if !tablesOnly { DropTableHomes(m0, p0, h0, m1, p1, h1, table, level, i, c); }
  }

  // ---------------------------------------------------------------- __vmm_clean

  /** pmm_free: a frame in use goes out of use. */
  method Free(m: Memory, f: nat)
    requires f in m.mem
    modifies m`mem
    ensures m.mem == old(m.mem) - {f}
  {
    m.mem := m.mem - {f};
  }

  method CleanEntry(m: Memory, table: nat, level: Level, tablesOnly: bool, i: nat, ghost home: Homes) returns (ghost home': Homes)
    requires CleanReady(m.mem, m.place, home, table, level, tablesOnly) && i < ENTRIES
    modifies m`mem, m`place
    ensures CleanReady(m.mem, m.place, home', table, level, tablesOnly)
    ensures Cleaned(old(m.mem), old(m.place), home, m.mem, m.place, home', table, level, tablesOnly, i, i + 1)
    decreases level, 0
  {
    ghost var m0, p0 := m.mem, m.place;
    assert TableOk(m0, p0, table);
    home' := home;
    var e := m.mem[table][i];
    if e == 0 || Pinned(e) || (level == 1 && tablesOnly) {
      SkipEntry(m0, p0, home, table, level, tablesOnly, i);
    } else if level > 1 {
      ChildIs(m0, p0, table, i);
      ghost var c := Strip(e);
      ChildClean(m0, p0, home, table, level, tablesOnly, i);
      home' := Clean(m, Strip(e), level - 1, tablesOnly, home);
      DropTable(m0, p0, home, m.mem, m.place, home', table, level, tablesOnly, i, c);
      Free(m, Strip(e));
      m.mem := Put(m.mem, table, i, 0);
      m.place := m.place - {c};
    } else {
      DropPage(m0, p0, home, table, i, Strip(e));
      Free(m, Strip(e));
      m.mem := Put(m.mem, table, i, 0);
      home' := home - {Strip(e)};
    }
  }

  lemma ChildClean(m0: Mem, p0: Places, h0: Homes, table: nat, level: Level, tablesOnly: bool, i: nat)
    requires CleanReady(m0, p0, h0, table, level, tablesOnly) && level > 1 && i < ENTRIES && Frame(m0, table)
    requires m0[table][i] != 0 && !Pinned(m0[table][i])
    ensures CleanReady(m0, p0, h0, Strip(m0[table][i]), level - 1, tablesOnly)
  {
    ChildIs(m0, p0, table, i);
  }

  /**
   __vmm_clean: what hangs below `table` is freed, each frame once, and nothing
   else; the private entries of `table` are cleared.
   */
  method Clean(m: Memory, table: nat, level: Level, tablesOnly: bool, ghost home: Homes) returns (ghost home': Homes)
    requires CleanReady(m.mem, m.place, home, table, level, tablesOnly)
    modifies m`mem, m`place
    ensures CleanReady(m.mem, m.place, home', table, level, tablesOnly)
    ensures Cleaned(old(m.mem), old(m.place), home, m.mem, m.place, home', table, level, tablesOnly, 0, ENTRIES)
    decreases level, 1
  {
    ghost var m0, p0 := m.mem, m.place;
    assert TableOk(m0, p0, table);
    home' := home;
    var i := 0;
    while i < ENTRIES
      invariant 0 <= i <= ENTRIES
      invariant CleanReady(m.mem, m.place, home', table, level, tablesOnly)
      invariant Cleaned(m0, p0, home, m.mem, m.place, home', table, level, tablesOnly, 0, i)
    {
      ghost var m1, p1, h1 := m.mem, m.place, home';
      home' := CleanEntry(m, table, level, tablesOnly, i, home');
      Compose(m0, p0, home, m1, p1, h1, m.mem, m.place, home', table, level, tablesOnly, 0, i, i + 1);
      i := i + 1;
    }
  }

  /** Every lower-level table of a space hangs below its root. */
  lemma {:induction false} BelowRoot(mem: Mem, place: Places, root: nat, f: nat)
    requires Trees(mem, place) && Root(place, root) && f in place
    ensures place[f].prefix / Span(4 - place[f].level) == 0
    ensures Under(place, root, f, 0, ENTRIES) <==> Owned(place, f, root) && f != root
    decreases 4 - place[f].level
  {
    assert TableOk(mem, place, f);
    assert TableOk(mem, place, root);
    if place[f].level < 4 {
      BelowRoot(mem, place, root, place[f].parent);
      if place[f].level < 3 { UnderParent(place[f].prefix, 4 - place[f].level); }
    }
  }

  /** Exactly the lower-level tables of the space are gone. */
  ghost predicate TablesGone(m0: Mem, p0: Places, m1: Mem, root: nat)
  {
    && (forall f: nat {:trigger f in m1} {:trigger Owned(p0, f, root)} :: f in m1 <==> f in m0 && (Owned(p0, f, root) ==> f == root))
    && (forall f | f in m1 && f != root :: m1[f] == m0[f])
  }

  /** Exactly the lower-level tables and the privately mapped frames of the space are gone. */
  ghost predicate SpaceGone(m0: Mem, p0: Places, home: Homes, m1: Mem, root: nat)
  {
    && (forall f: nat {:trigger f in m1} {:trigger Owned(p0, f, root)} ::
          f in m1 <==> f in m0 && (Owned(p0, f, root) ==> f == root) && f !in home)
    && (forall f | f in m1 && f != root :: m1[f] == m0[f])
  }

  /** The private pages of another space translate as before, to frames still in use and unchanged. */
  ghost predicate SpaceKept(m0: Mem, p0: Places, m1: Mem, other: nat)
  {
    forall pn: Page {:trigger OwnLeaf(m1, other, 4, pn)} ::
      var e := OwnLeaf(m0, other, 4, pn);
      && OwnLeaf(m1, other, 4, pn) == e
      && (e != 0 ==> Strip(e) in m1 && Strip(e) in m0 && m1[Strip(e)] == m0[Strip(e)])
  }

  lemma SharerKept(m0: Mem, p0: Places, m1: Mem, root: nat, other: nat)
    requires Trees(m0, p0) && Root(p0, root) && Root(p0, other) && root != other
    requires TablesGone(m0, p0, m1, root) && Backed(m0, p0, other)
    ensures SpaceKept(m0, p0, m1, other)
  {
    assert TableOk(m0, p0, other);
    assert TableOk(m0, p0, root);
    forall pn: Page
      ensures var e := OwnLeaf(m0, other, 4, pn); OwnLeaf(m1, other, 4, pn) == e && (e != 0 ==> Strip(e) in m0 && Strip(e) !in p0)
    {
      RootOnWay(m0, p0, other, pn);
      forall g | Owned(p0, g, p0[other].owner)
        ensures g in m0 && g in m1 && m1[g] == m0[g]
      {
        assert TableOk(m0, p0, g);
        assert !Owned(p0, g, root);
      }
      OwnLeafSame(m0, m1, p0, other, 4, pn);
      OwnLeafBacked(m0, p0, other, 4, pn);
    }
    forall f: nat | f in m0 && f !in p0
      ensures f in m1 && m1[f] == m0[f]
    {
      assert !Owned(p0, f, root);
    }
  }

  lemma RootCleaned(m0: Mem, p0: Places, h0: Homes, m1: Mem, p1: Places, h1: Homes, root: nat, tablesOnly: bool)
    requires CleanReady(m0, p0, h0, root, 4, tablesOnly)
    requires Cleaned(m0, p0, h0, m1, p1, h1, root, 4, tablesOnly, 0, ENTRIES)
    ensures if tablesOnly then TablesGone(m0, p0, m1, root) else SpaceGone(m0, p0, h0, m1, root)
  {
    assert TableOk(m0, p0, root);
    forall f: nat
      ensures f in m1 <==> f in m0 && (Owned(p0, f, root) ==> f == root) && (tablesOnly || f !in h0)
      ensures f in m1 && f != root ==> m1[f] == m0[f]
    {
      assert FrameAfter(m0, p0, h0, m1, root, tablesOnly, 0, ENTRIES, f);
      if f in p0 { BelowRoot(m0, p0, root, f); }
      if !tablesOnly && f in h0 {
        assert HomeTrue(m0, p0, h0, root, f);
        BelowRoot(m0, p0, root, h0[f].table);
      }
    }
  }

  /** vmm_clean_page_table. */
  method CleanPageTable(m: Memory, root: nat, tablesOnly: bool, ghost home: Homes) returns (r: int)
    requires root != 0 ==> CleanReady(m.mem, m.place, home, root, 4, tablesOnly)
    modifies m`mem, m`place
    ensures r == (if root == 0 then -1 else 0)
    ensures root == 0 ==> m.mem == old(m.mem) && m.place == old(m.place)
    ensures root != 0 ==> Trees(m.mem, m.place) && TableAfter(old(m.mem), m.mem, root, 4, tablesOnly, 0, ENTRIES)
    ensures root != 0 && tablesOnly ==> TablesGone(old(m.mem), old(m.place), m.mem, root)
    ensures root != 0 && !tablesOnly ==> SpaceGone(old(m.mem), old(m.place), home, m.mem, root)
    ensures forall other: nat | root != 0 && tablesOnly && Root(old(m.place), other) && other != root && Backed(old(m.mem), old(m.place), other) ::
              SpaceKept(old(m.mem), old(m.place), m.mem, other)
  {
    if root == 0 { return -1; }
    ghost var m0, p0 := m.mem, m.place;
    ghost var home' := Clean(m, root, 4, tablesOnly, home);
    RootCleaned(m0, p0, home, m.mem, m.place, home', root, tablesOnly);
    if tablesOnly {
      forall other: nat | Root(p0, other) && other != root && Backed(m0, p0, other)
        ensures SpaceKept(m0, p0, m.mem, other)
      {
        SharerKept(m0, p0, m.mem, root, other);
      }
    }
    return 0;
  }

  /** No entry outside the child's tables leads into them, and of its own only the kernel's is global. */
  lemma ForkedNotPinned(m0: Mem, p0: Places, m1: Mem, p1: Places, kernelRoot: nat, parent: nat, child: nat)
    requires Trees(m0, p0) && Trees(m1, p1) && child !in m0 && NewTables(m0, p0, p1, child) && Root(p0, kernelRoot)
    requires ForkPages.ParentKept(m0, p0, m1, parent, child) && OnlyKernelPinned(m1, p1, child)
    requires Frame(m0, kernelRoot) && Frame(m1, child) && Root(p1, child)
    requires m1[child][KERNEL_ENTRY] == m0[kernelRoot][KERNEL_ENTRY]
    ensures NotPinned(m1, p1, child)
  {
    forall f, i: nat | f in p1 && Frame(m1, f) && i < ENTRIES
      ensures PinElsewhere(m1, p1, f, i, child)
    {
      if Owned(p1, f, child) {
        assert p1[f].level > 1 ==> PinIsKernel(m1, child, f, i);
        assert TableOk(m0, p0, kernelRoot);
        assert Below(m0, p0, kernelRoot, KERNEL_ENTRY);
        NobodyYet(m0, p0, child, Strip(m0[kernelRoot][KERNEL_ENTRY]));
      } else {
        assert f in p0;
        assert TableOk(m0, p0, f);
        assert Below(m0, p0, f, i);
        NobodyYet(m0, p0, child, f);
        NobodyYet(m0, p0, child, Strip(m0[f][i]));
      }
    }
  }

  /** A private page of the parent in the stack, or above it. */
  predicate StackPage(mem: Mem, parent: nat, pn: Page) { OwnLeaf(mem, parent, 4, pn) != 0 && !BelowStack(pn) }

  /** Frame `left[pn]` is new and holds what the parent's page `pn` holds. */
  predicate LeftOver(m0: Mem, m1: Mem, parent: nat, left: map<Page, nat>, pn: Page)
    requires pn in left
  {
    var e := OwnLeaf(m0, parent, 4, pn);
    left[pn] !in m0 && left[pn] in m1 && Strip(e) in m0 && m1[left[pn]] == m0[Strip(e)]
  }

  /** `left` has one new frame for each private stack page of the parent: the copies nobody maps any more. */
  ghost predicate StackCopies(m0: Mem, m1: Mem, parent: nat, left: map<Page, nat>)
  {
    && (forall pn: Page :: pn in left <==> StackPage(m0, parent, pn))
    && (forall pn: Page, pn': Page | pn in left && pn' in left && pn != pn' :: left[pn] != left[pn'])
    && (forall pn: Page {:trigger LeftOver(m0, m1, parent, left, pn)} | pn in left :: LeftOver(m0, m1, parent, left, pn))
  }

  /** The frames in use are those there were and the ones of `left`, and the former hold what they held. */
  ghost predicate Exactly(m0: Mem, m1: Mem, left: map<Page, nat>)
  {
    && (forall f: nat :: f in m1 <==> f in m0 || f in left.Values)
    && (forall f | f in m0 :: m1[f] == m0[f])
  }

  /** The frames of the child's copies, once the child is gone. */
  ghost function LeftFrames(m0: Mem, m1: Mem, parent: nat, child: nat): (left: map<Page, nat>)
  {
    map pn: Page | 0 <= pn < 0x1000000000 && StackPage(m0, parent, pn) :: Strip(Leaf(m1, child, 4, pn))
  }

  lemma StackIsUser(m0: Mem, parent: nat, pn: Page)
    requires Frame(m0, parent) && Own(m0[parent][KERNEL_ENTRY]) == 0 && StackPage(m0, parent, pn)
    ensures UserPage(pn)
  {
  }

  /** Exactly the tables of the space are gone, its root included. */
  ghost predicate AllTablesGone(m0: Mem, p0: Places, m1: Mem, root: nat)
  {
    && (forall f: nat {:trigger f in m1} {:trigger Owned(p0, f, root)} :: f in m1 <==> f in m0 && !Owned(p0, f, root))
    && (forall f | f in m1 :: m1[f] == m0[f])
  }

  /** Fork made the copies, and the tear-down of the child's tables leaves them. */
  lemma CopiesLeft(m0: Mem, p0: Places, m1: Mem, p1: Places, m2: Mem, parent: nat, child: nat)
    requires Frame(m0, parent) && Own(m0[parent][KERNEL_ENTRY]) == 0 && Owned(p1, child, child)
    requires forall pn: Page {:trigger ForkedPage(m0, m1, p1, parent, child, pn)} :: UserPage(pn) ==> ForkedPage(m0, m1, p1, parent, child, pn)
    requires forall pn: Page, pn': Page {:trigger TwoFrames(m0, m1, parent, child, pn, pn')} ::
               UserPage(pn) && UserPage(pn') && !BelowStack(pn) && !BelowStack(pn') ==> TwoFrames(m0, m1, parent, child, pn, pn')
    requires AllTablesGone(m1, p1, m2, child)
    ensures StackCopies(m0, m2, parent, LeftFrames(m0, m1, parent, child))
  {
    var left := LeftFrames(m0, m1, parent, child);
    forall pn: Page | pn in left
      ensures LeftOver(m0, m2, parent, left, pn)
    {
      StackIsUser(m0, parent, pn);
      assert ForkedPage(m0, m1, p1, parent, child, pn);
    }
    forall pn: Page, pn': Page | pn in left && pn' in left && pn != pn'
      ensures left[pn] != left[pn']
    {
      StackIsUser(m0, parent, pn);
      StackIsUser(m0, parent, pn');
      assert TwoFrames(m0, m1, parent, child, pn, pn');
    }
  }

  /** Nothing else is left. */
  lemma NothingElse(m0: Mem, p0: Places, m1: Mem, p1: Places, m2: Mem, parent: nat, child: nat)
    requires Trees(m0, p0) && child !in m0 && NewTables(m0, p0, p1, child) && Owned(p1, child, child)
    requires ForkPages.ParentKept(m0, p0, m1, parent, child)
    requires forall f {:trigger ForkFrame(m0, m1, p1, parent, child, f)} | f in m1 && f !in m0 :: ForkFrame(m0, m1, p1, parent, child, f)
    requires AllTablesGone(m1, p1, m2, child)
    requires StackCopies(m0, m2, parent, LeftFrames(m0, m1, parent, child))
    ensures Exactly(m0, m2, LeftFrames(m0, m1, parent, child))
  {
    var left := LeftFrames(m0, m1, parent, child);
    forall f: nat | f in m0
      ensures f in m2 && m2[f] == m0[f]
    {
      NobodyYet(m0, p0, child, f);
      assert f in p1 && f !in p0 ==> Owned(p1, f, child);
      assert !Owned(p1, f, child);
    }
    forall f: nat | f in m2 && f !in m0
      ensures f in left.Values
    {
      assert ForkFrame(m0, m1, p1, parent, child, f);
      assert !Owned(p1, f, child);
      var pn: Page :| StackCopy(m0, m1, parent, child, pn, f);
      assert pn in left && left[pn] == f;
    }
    forall f: nat | f in left.Values
      ensures f in m2
    {
      var pn: Page :| pn in left && left[pn] == f;
      assert LeftOver(m0, m2, parent, left, pn);
    }
  }

  /** The emptied root of a space can go. */
  lemma RootGone(mem: Mem, place: Places, root: nat)
    requires Trees(mem, place) && Root(place, root) && NotPinned(mem, place, root)
    requires forall f: nat {:trigger Owned(place, f, root)} :: Owned(place, f, root) <==> f == root
    ensures Trees(mem - {root}, place - {root})
  {
    var mem', place' := mem - {root}, place - {root};
    assert TableOk(mem, place, root);
    forall f | f in place'
      ensures TableOk(mem', place', f)
    {
      assert TableOk(mem, place, f);
      if place[f].level < 4 { assert TableOk(mem, place, place[f].parent); }
      assert !Owned(place, f, root);
      forall i: nat | i < ENTRIES
        ensures Below(mem', place', f, i)
      {
        assert Below(mem, place, f, i);
        assert PinElsewhere(mem, place, f, i, root);
      }
    }
  }

  /** Of the child's tables only the root is left, and the kernel's root is another. */
  lemma TablesLeft(m1: Mem, p1: Places, m2: Mem, p2: Places, kernelRoot: nat, child: nat)
    requires Trees(m1, p1) && Root(p1, child) && Root(p1, kernelRoot)
    requires forall f: nat {:trigger PlaceAfter(p1, p2, child, 0, ENTRIES, f)} :: PlaceAfter(p1, p2, child, 0, ENTRIES, f)
    ensures forall f: nat {:trigger Owned(p2, f, child)} :: Owned(p2, f, child) <==> f == child
    ensures Root(p2, child) && Root(p2, kernelRoot)
  {
    assert TableOk(m1, p1, child);
    assert TableOk(m1, p1, kernelRoot);
    assert PlaceAfter(p1, p2, child, 0, ENTRIES, kernelRoot);
    assert PlaceAfter(p1, p2, child, 0, ENTRIES, child);
    forall f: nat
      ensures Owned(p2, f, child) <==> f == child
    {
      assert PlaceAfter(p1, p2, child, 0, ENTRIES, f);
      if f in p1 { BelowRoot(m1, p1, child, f); }
    }
  }

  /** The last lines of __proc_kill for a child whose memory is still shared: its tables, then their root. */
  method DropTables(m: Memory, root: nat)
    requires m.Valid() && CleanReady(m.mem, m.place, map[], root, 4, true) && root != m.kernelRoot
    modifies m`mem, m`place
    ensures m.Valid() && AllTablesGone(old(m.mem), old(m.place), m.mem, root)
  {
    ghost var m0, p0 := m.mem, m.place;
    assert TableOk(m0, p0, root);
    ghost var home := Clean(m, root, 4, true, map[]);
    RootCleaned(m0, p0, map[], m.mem, m.place, home, root, true);
    TablesLeft(m0, p0, m.mem, m.place, m.kernelRoot, root);
    RootGone(m.mem, m.place, root);
    assert Owned(p0, root, root);
    Free(m, root);
    m.place := m.place - {root};
  }

  /** A space whose tables and frames are all as they were. */
  lemma KeptAll(m0: Mem, p0: Places, m1: Mem, other: nat)
    requires Trees(m0, p0) && Root(p0, other) && Backed(m0, p0, other)
    requires forall f | f in m0 :: f in m1 && m1[f] == m0[f]
    ensures SpaceKept(m0, p0, m1, other)
  {
    assert TableOk(m0, p0, other);
    forall pn: Page
      ensures var e := OwnLeaf(m0, other, 4, pn); OwnLeaf(m1, other, 4, pn) == e && (e != 0 ==> Strip(e) in m0)
    {
      RootOnWay(m0, p0, other, pn);
      forall g | Owned(p0, g, p0[other].owner)
        ensures g in m0 && g in m1 && m1[g] == m0[g]
      {
        assert TableOk(m0, p0, g);
      }
      OwnLeafSame(m0, m1, p0, other, 4, pn);
      OwnLeafBacked(m0, p0, other, 4, pn);
    }
  }

  /**
   A forked child that exits before its memory is duplicated.  The frames in use
   are exactly those there were before the fork, with what they held, and one
   frame for each private page of the parent in the stack, which nothing maps any
   more.  So nothing is lost exactly when the parent has no such page.
   */
  method ForkAndExit(m: Memory, parent: nat) returns (child: nat, ghost left: map<Page, nat>)
    requires m.Valid() && m.supply.Endless? && Root(m.place, parent) && Backed(m.mem, m.place, parent)
    requires KernelHalf(m.mem, m.kernelRoot, parent)
    modifies m`mem, m`supply, m`place
    ensures m.Valid() && SpaceKept(old(m.mem), old(m.place), m.mem, parent)
    ensures StackCopies(old(m.mem), m.mem, parent, left) && Exactly(old(m.mem), m.mem, left)
    ensures m.mem == old(m.mem) <==> forall pn: Page :: !StackPage(old(m.mem), parent, pn)
  {
    ghost var m0, p0 := m.mem, m.place;
    assert TableOk(m0, p0, m.kernelRoot);
    child := Fork(m, parent);
    ghost var m1, p1 := m.mem, m.place;
    assert TableOk(m1, p1, child);
    assert Owned(p1, child, child);
    ForkedNotPinned(m0, p0, m1, p1, m.kernelRoot, parent, child);
    DropTables(m, child);
    left := LeftFrames(m0, m1, parent, child);
    CopiesLeft(m0, p0, m1, p1, m.mem, parent, child);
    NothingElse(m0, p0, m1, p1, m.mem, parent, child);
    KeptAll(m0, p0, m.mem, parent);
    NoLeak(m0, m.mem, parent, left);
  }

  lemma NoLeak(m0: Mem, m1: Mem, parent: nat, left: map<Page, nat>)
    requires StackCopies(m0, m1, parent, left) && Exactly(m0, m1, left)
    ensures m1 == m0 <==> forall pn: Page :: !StackPage(m0, parent, pn)
  {
    if pn: Page :| StackPage(m0, parent, pn) {
      assert LeftOver(m0, m1, parent, left, pn);
    } else {
      assert left.Values == {};
    }
  }

  // ---------------------------------------------------------------- a parent that exits first

  /** Fork leaves the parent's space as a tear-down must find it. */
  lemma ForkedParentReady(m0: Mem, p0: Places, m1: Mem, p1: Places, home: Homes, kernelRoot: nat, parent: nat, child: nat)
    requires CleanReady(m0, p0, home, parent, 4, false) && Trees(m1, p1) && child !in m0 && Root(p0, kernelRoot)
    requires NewTables(m0, p0, p1, child) && ForkPages.ParentKept(m0, p0, m1, parent, child) && OnlyKernelPinned(m1, p1, child)
    requires Frame(m0, kernelRoot) && Frame(m1, child) && Root(p1, child)
    requires m1[child][KERNEL_ENTRY] == m0[kernelRoot][KERNEL_ENTRY]
    ensures CleanReady(m1, p1, home, parent, 4, false)
  {
    assert TableOk(m0, p0, parent);
    forall f, i: nat | f in p1 && Frame(m1, f) && i < ENTRIES
      ensures PinElsewhere(m1, p1, f, i, parent)
    {
      ForkedPin(m0, p0, m1, p1, kernelRoot, parent, child, f, i);
    }
    forall t, i: nat
      ensures HomeOf(m1, p1, home, parent, t, i)
    {
      assert HomeOf(m0, p0, home, parent, t, i);
      assert t in p1 && t !in p0 ==> Owned(p1, t, child);
      if Owned(p0, t, parent) { assert TableOk(m0, p0, t); }
    }
    forall f | f in home
      ensures HomeTrue(m1, p1, home, parent, f)
    {
      assert HomeTrue(m0, p0, home, parent, f);
      assert TableOk(m0, p0, home[f].table);
      assert f in p1 ==> Owned(p1, f, child);
    }
  }

  lemma ForkedPin(m0: Mem, p0: Places, m1: Mem, p1: Places, kernelRoot: nat, parent: nat, child: nat, f: nat, i: nat)
    requires Trees(m0, p0) && Root(p0, parent) && NotPinned(m0, p0, parent) && child !in m0 && Root(p0, kernelRoot) && parent != child
    requires NewTables(m0, p0, p1, child) && ForkPages.ParentKept(m0, p0, m1, parent, child) && OnlyKernelPinned(m1, p1, child)
    requires Frame(m0, kernelRoot) && Frame(m1, child) && Root(p1, child)
    requires m1[child][KERNEL_ENTRY] == m0[kernelRoot][KERNEL_ENTRY]
    requires f in p1 && Frame(m1, f) && i < ENTRIES
    ensures PinElsewhere(m1, p1, f, i, parent)
  {
    var t := Strip(m1[f][i]);
    assert t in p1 && t !in p0 ==> Owned(p1, t, child);
    if Owned(p1, f, child) {
      assert p1[f].level > 1 ==> PinIsKernel(m1, child, f, i);
      assert PinElsewhere(m0, p0, kernelRoot, KERNEL_ENTRY, parent);
    } else {
      assert f in p0;
      assert TableOk(m0, p0, f);
      assert m1[f] == m0[f];
      assert PinElsewhere(m0, p0, f, i, parent);
    }
  }

  /** A private page of the space is among the frames that its tear-down frees. */
  lemma {:induction false} OwnLeafHome(mem: Mem, place: Places, home: Homes, f: nat, level: Level, pn: Page)
    requires Trees(mem, place) && OnWay(place, f, level, pn) && HomesOk(mem, place, home, place[f].owner)
    ensures var e := OwnLeaf(mem, f, level, pn); e != 0 ==> Strip(e) in home
    decreases level
  {
    assert TableOk(mem, place, f);
    var e := Entry(mem, f, level, pn);
    if level == 1 {
      assert HomeOf(mem, place, home, place[f].owner, f, Idx(1, pn));
    } else if e != 0 && !Pinned(e) {
      DescendOwned(mem, place, f, level, pn);
      OwnLeafHome(mem, place, home, Strip(e), level - 1, pn);
    }
  }

  /** Outside the kernel's half the child's translations depend on its own tables only. */
  lemma {:induction false} ChildLeaf(m1: Mem, p1: Places, m2: Mem, child: nat, f: nat, level: Level, pn: Page)
    requires Trees(m1, p1) && OnWay(p1, f, level, pn) && Owned(p1, f, child) && UserPage(pn)
    requires OnlyKernelPinned(m1, p1, child) && Root(p1, child)
    requires forall g {:trigger Owned(p1, g, child)} | Owned(p1, g, child) :: g in m1 && g in m2 && m2[g] == m1[g]
    ensures Leaf(m2, f, level, pn) == Leaf(m1, f, level, pn)
    decreases level
  {
    assert TableOk(m1, p1, f);
    var e := Entry(m1, f, level, pn);
    if level > 1 && e != 0 {
      assert PinIsKernel(m1, child, f, Idx(level, pn));
      DescendOwned(m1, p1, f, level, pn);
      ChildLeaf(m1, p1, m2, child, Strip(e), level - 1, pn);
    }
  }

  /** A page of the child after the parent's exit: still mapped, and to a frame in use exactly if it is a stack page. */
  ghost predicate Orphaned(m0: Mem, m2: Mem, parent: nat, child: nat, pn: Page)
  {
    var e, d := OwnLeaf(m0, parent, 4, pn), Leaf(m2, child, 4, pn);
    e != 0 ==>
      && d != 0 && (Strip(d) in m2 <==> !BelowStack(pn))
      && (BelowStack(pn) ==> Strip(d) == Strip(e))
  }

  lemma OrphanPage(m0: Mem, p0: Places, m1: Mem, p1: Places, m2: Mem, home: Homes, parent: nat, child: nat, pn: Page)
    requires CleanReady(m0, p0, home, parent, 4, false) && Backed(m0, p0, parent) && parent != child && child !in m0
    requires CleanReady(m1, p1, home, parent, 4, false) && Root(p1, child) && OnlyKernelPinned(m1, p1, child)
    requires NewTables(m0, p0, p1, child) && UserPage(pn) && ForkedPage(m0, m1, p1, parent, child, pn)
    requires SpaceGone(m1, p1, home, m2, parent)
    ensures Orphaned(m0, m2, parent, child, pn)
  {
    assert TableOk(m0, p0, parent);
    assert TableOk(m1, p1, child);
    assert TableOk(m1, p1, parent);
    RootOnWay(m0, p0, parent, pn);
    RootOnWay(m1, p1, child, pn);
    OwnLeafHome(m0, p0, home, parent, 4, pn);
    OwnLeafBacked(m0, p0, parent, 4, pn);
    ReadOnly(OwnLeaf(m0, parent, 4, pn));
    forall g | Owned(p1, g, child)
      ensures g in m1 && g in m2 && m2[g] == m1[g]
    {
      assert TableOk(m1, p1, g);
      assert g in home ==> HomeTrue(m1, p1, home, parent, g);
      assert !Owned(p1, g, parent);
    }
    ChildLeaf(m1, p1, m2, child, child, 4, pn);
    var d := Strip(Leaf(m1, child, 4, pn));
    assert d in home ==> HomeTrue(m0, p0, home, parent, d);
    assert !Owned(p1, d, parent) || d in p0;
  }

  /**
   A parent that forks and exits while the child still shares its pages: the parent's frames go, so a page of the
   child leads to a frame in use exactly when it is a stack page, which has a copy.
   */
  method ForkAndOrphan(m: Memory, parent: nat, ghost home: Homes) returns (child: nat)
    requires m.Valid() && m.supply.Endless? && Root(m.place, parent) && Backed(m.mem, m.place, parent) && parent != m.kernelRoot
    requires KernelHalf(m.mem, m.kernelRoot, parent) && CleanReady(m.mem, m.place, home, parent, 4, false)
    modifies m`mem, m`supply, m`place
    ensures Trees(m.mem, m.place)
    ensures forall pn: Page {:trigger Orphaned(old(m.mem), m.mem, parent, child, pn)} ::
              UserPage(pn) ==> Orphaned(old(m.mem), m.mem, parent, child, pn)
  {
    ghost var m0, p0 := m.mem, m.place;
    assert TableOk(m0, p0, m.kernelRoot);
    child := Fork(m, parent);
    ghost var m1, p1 := m.mem, m.place;
    assert TableOk(m1, p1, child);
    assert TableOk(m1, p1, parent);
    ForkedParentReady(m0, p0, m1, p1, home, m.kernelRoot, parent, child);
    var r := CleanPageTable(m, parent, false, home);
    forall pn: Page | UserPage(pn)
      ensures Orphaned(m0, m.mem, parent, child, pn)
    {
      assert ForkedPage(m0, m1, p1, parent, child, pn);
      OrphanPage(m0, p0, m1, p1, m.mem, home, parent, child, pn);
    }
  }
}
