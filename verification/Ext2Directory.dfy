/**
 Directories of the ext2 volume: entries in one buffer, each reaching to the
 next, ended by an entry whose inode is 0.  `chain` lists where the entries
 stand and `slot` where each name does.
 */
module Ext2Directory {

  const ENTRY_MIN: nat := 8
  const NAME_MAX: nat := 255

  datatype Entry = Entry(inode: nat, size: nat, name: string, kind: nat)

  type Entries = map<nat, Entry>

  /** What a directory says of a name. */
  datatype Ref = Ref(inode: nat, kind: nat)

  /** EXT2_DIR_ENTRY_SIZE: a header and the name, rounded up to four. */
  function EntrySize(len: nat): (n: nat)
    ensures n % 4 == 0 && ENTRY_MIN + len <= n < ENTRY_MIN + len + 4
  {
    if len % 4 != 0 then (len / 4 + 1) * 4 + ENTRY_MIN else len / 4 * 4 + ENTRY_MIN
  }

  // ---------------------------------------------------------------- shape

  /** The i-th entry holds its name and reaches to the next, or to the end. */
  predicate Link(entries: Entries, chain: seq<nat>, total: nat, i: nat)
    requires i < |chain|
  {
    && chain[i] in entries
    && entries[chain[i]].size >= ENTRY_MIN + |entries[chain[i]].name| && entries[chain[i]].size % 4 == 0
    && chain[i] + entries[chain[i]].size == (if i + 1 < |chain| then chain[i + 1] else total)
    && (i > 0 ==> entries[chain[i]].inode != 0)
  }

  ghost predicate Chained(entries: Entries, chain: seq<nat>, total: nat)
  {
    && |chain| > 0 && chain[0] == 0
    && (forall i: nat {:trigger Link(entries, chain, total, i)} | i < |chain| :: Link(entries, chain, total, i))
    && total in entries && entries[total].inode == 0
  }

  lemma {:induction false} Increasing(entries: Entries, chain: seq<nat>, total: nat, i: nat, j: nat)
    requires Chained(entries, chain, total) && i < j <= |chain|
    ensures chain[i] < (if j < |chain| then chain[j] else total)
    decreases j - i
  {
    assert Link(entries, chain, total, j - 1);
    if i < j - 1 { Increasing(entries, chain, total, i, j - 1); }
  }

  /** Two places in the chain are two offsets, all before the end. */
  lemma Apart(entries: Entries, chain: seq<nat>, total: nat, i: nat, j: nat)
    requires Chained(entries, chain, total) && i < |chain| && j < |chain|
    ensures chain[i] < total && (i != j ==> chain[i] != chain[j])
  {
    Increasing(entries, chain, total, i, |chain|);
    if i < j { Increasing(entries, chain, total, i, j); } else if j < i { Increasing(entries, chain, total, j, i); }
  }

  function SizeSum(entries: Entries, chain: seq<nat>, n: nat): nat
    requires n <= |chain| && forall i | 0 <= i < n :: chain[i] in entries
  {
    if n == 0 then 0 else SizeSum(entries, chain, n - 1) + entries[chain[n - 1]].size
  }

  /** The sizes of the entries add up to the size of the directory. */
  lemma {:induction false} SizesAddUp(entries: Entries, chain: seq<nat>, total: nat, n: nat)
    requires Chained(entries, chain, total) && 0 < n <= |chain|
    ensures (forall i: nat | i < |chain| :: chain[i] in entries)
    ensures SizeSum(entries, chain, n) == if n < |chain| then chain[n] else total
  {
    forall i: nat | i < |chain| ensures chain[i] in entries { assert Link(entries, chain, total, i); }
    assert Link(entries, chain, total, n - 1);
    if n > 1 { SizesAddUp(entries, chain, total, n - 1); }
  }

  // ---------------------------------------------------------------- names

  predicate NameOk(entries: Entries, chain: seq<nat>, slot: map<string, nat>, i: nat)
    requires i < |chain|
  {
    chain[i] in entries && (entries[chain[i]].kind != 0 ==> entries[chain[i]].name in slot && slot[entries[chain[i]].name] == chain[i])
  }

  predicate SlotOk(entries: Entries, chain: seq<nat>, slot: map<string, nat>, name: string)
    requires name in slot
  {
    slot[name] in chain && slot[name] in entries && entries[slot[name]].name == name && entries[slot[name]].kind != 0
  }

  /** `slot` gives for each name the offset of the one entry with it. */
  ghost predicate Named(entries: Entries, chain: seq<nat>, slot: map<string, nat>)
  {
    && (forall i: nat {:trigger NameOk(entries, chain, slot, i)} | i < |chain| :: NameOk(entries, chain, slot, i))
    && (forall name {:trigger SlotOk(entries, chain, slot, name)} | name in slot :: SlotOk(entries, chain, slot, name))
  }

  /** What the directory says: an inode and a kind for each name. */
  ghost function Contents(entries: Entries, chain: seq<nat>, slot: map<string, nat>): map<string, Ref>
    requires Named(entries, chain, slot)
  {
    map name | name in slot :: (assert SlotOk(entries, chain, slot, name); Ref(entries[slot[name]].inode, entries[slot[name]].kind))
  }

  // ---------------------------------------------------------------- an entry added

  /** The last entry, at `last`, cut down to `keep` bytes and a new one in the room it leaves. */
  function Appended(entries: Entries, last: nat, keep: nat, name: string, kind: nat, inode: nat): Entries
    requires last in entries && keep <= entries[last].size
  {
    entries[last := entries[last].(size := keep)][last + keep := Entry(inode, entries[last].size - keep, name, kind)]
  }

  predicate CanAppend(entries: Entries, chain: seq<nat>, keep: nat, name: string, inode: nat)
  {
    && |chain| > 0 && chain[|chain| - 1] in entries && inode != 0 && keep % 4 == 0
    && ENTRY_MIN + |entries[chain[|chain| - 1]].name| <= keep
    && keep + EntrySize(|name|) < entries[chain[|chain| - 1]].size
  }

  lemma AppendChained(entries: Entries, chain: seq<nat>, total: nat, keep: nat, name: string, kind: nat, inode: nat)
    requires Chained(entries, chain, total) && CanAppend(entries, chain, keep, name, inode)
    ensures var last := chain[|chain| - 1];
            Chained(Appended(entries, last, keep, name, kind, inode), chain + [last + keep], total)
  {
    var m := |chain| - 1;
    var last := chain[m];
    var entries', chain' := Appended(entries, last, keep, name, kind, inode), chain + [last + keep];
    assert Link(entries, chain, total, m);
    forall i: nat | i < |chain'|
      ensures Link(entries', chain', total, i)
    {
      if i < m {
        assert Link(entries, chain, total, i);
        Increasing(entries, chain, total, i, m);
      }
    }
  }

  lemma AppendNamed(entries: Entries, chain: seq<nat>, total: nat, slot: map<string, nat>, keep: nat, name: string, kind: nat, inode: nat)
    requires Chained(entries, chain, total) && Named(entries, chain, slot) && CanAppend(entries, chain, keep, name, inode)
    requires name !in slot && kind != 0
    ensures var last := chain[|chain| - 1];
            Named(Appended(entries, last, keep, name, kind, inode), chain + [last + keep], slot[name := last + keep])
  {
    var m := |chain| - 1;
    var last := chain[m];
    var entries', chain', slot' := Appended(entries, last, keep, name, kind, inode), chain + [last + keep], slot[name := last + keep];
    assert Link(entries, chain, total, m);
    forall i: nat | i < |chain'|
      ensures NameOk(entries', chain', slot', i)
    {
      if i <= m {
        assert NameOk(entries, chain, slot, i);
        if i < m { Increasing(entries, chain, total, i, m); }
      }
    }
    forall x | x in slot'
      ensures SlotOk(entries', chain', slot', x)
    {
      if x == name {
        assert chain'[|chain|] == last + keep;
      } else {
        assert SlotOk(entries, chain, slot, x);
        var i: nat :| i < |chain| && chain[i] == slot[x];
        assert chain'[i] == slot[x];
        if i < m { Increasing(entries, chain, total, i, m); }
      }
    }
  }

  lemma AppendContents(entries: Entries, chain: seq<nat>, total: nat, slot: map<string, nat>, keep: nat, name: string, kind: nat, inode: nat)
    requires Chained(entries, chain, total) && Named(entries, chain, slot) && CanAppend(entries, chain, keep, name, inode)
    requires name !in slot && kind != 0
    requires var last := chain[|chain| - 1];
             Named(Appended(entries, last, keep, name, kind, inode), chain + [last + keep], slot[name := last + keep])
    ensures var last := chain[|chain| - 1];
            Contents(Appended(entries, last, keep, name, kind, inode), chain + [last + keep], slot[name := last + keep])
              == Contents(entries, chain, slot)[name := Ref(inode, kind)]
  {
    var last := chain[|chain| - 1];
    forall x | x in slot
      ensures SlotOk(entries, chain, slot, x) && slot[x] < last + keep
    {
      assert SlotOk(entries, chain, slot, x);
      var i: nat :| i < |chain| && chain[i] == slot[x];
      if i < |chain| - 1 { Increasing(entries, chain, total, i, |chain| - 1); }
    }
  }

  // ---------------------------------------------------------------- an entry removed

  /** Entry `i` gives its room to the one before it; the first is only emptied. */
  function Removed(entries: Entries, chain: seq<nat>, i: nat): Entries
    requires i < |chain| && chain[i] in entries && (i > 0 ==> chain[i - 1] in entries)
  {
    if i > 0 then
      var prev := chain[i - 1];
      entries[prev := entries[prev].(size := entries[prev].size + entries[chain[i]].size)]
    else
      entries[chain[0] := entries[chain[0]].(inode := 0, name := "", kind := 0)]
  }

  function Shortened(chain: seq<nat>, i: nat): seq<nat>
    requires i < |chain|
  {
    if i > 0 then chain[..i] + chain[i + 1..] else chain
  }

  lemma RemoveChained(entries: Entries, chain: seq<nat>, total: nat, i: nat)
    requires Chained(entries, chain, total) && i < |chain|
    ensures chain[i] in entries && (i > 0 ==> chain[i - 1] in entries)
    ensures Chained(Removed(entries, chain, i), Shortened(chain, i), total)
  {
    assert Link(entries, chain, total, i);
    if i > 0 { assert Link(entries, chain, total, i - 1); }
    var entries', chain' := Removed(entries, chain, i), Shortened(chain, i);
    Apart(entries, chain, total, if i > 0 then i - 1 else i, i);
    forall k: nat | k < |chain'|
      ensures Link(entries', chain', total, k)
    {
      var j := if i > 0 && k >= i then k + 1 else k;
      assert chain'[k] == chain[j];
      assert Link(entries, chain, total, j);
      Apart(entries, chain, total, j, if i > 0 then i - 1 else i);
      if j + 1 < |chain| { assert Link(entries, chain, total, j + 1); }
    }
  }

  lemma RemoveNamed(entries: Entries, chain: seq<nat>, total: nat, slot: map<string, nat>, i: nat)
    requires Chained(entries, chain, total) && Named(entries, chain, slot) && i < |chain|
    requires chain[i] in entries && (i > 0 ==> chain[i - 1] in entries) && entries[chain[i]].kind != 0
    ensures Named(Removed(entries, chain, i), Shortened(chain, i), slot - {entries[chain[i]].name})
  {
    var name := entries[chain[i]].name;
    var entries', chain', slot' := Removed(entries, chain, i), Shortened(chain, i), slot - {name};
    assert NameOk(entries, chain, slot, i);
    forall k: nat | k < |chain'|
      ensures NameOk(entries', chain', slot', k)
    {
      var j := if i > 0 && k >= i then k + 1 else k;
      assert chain'[k] == chain[j];
      assert NameOk(entries, chain, slot, j);
      Apart(entries, chain, total, j, i);
    }
    forall x | x in slot'
      ensures SlotOk(entries', chain', slot', x)
    {
      assert SlotOk(entries, chain, slot, x);
      var j: nat :| j < |chain| && chain[j] == slot[x];
      assert j != i;
      assert chain'[if i > 0 && j > i then j - 1 else j] == slot[x];
    }
  }

  lemma RemoveContents(entries: Entries, chain: seq<nat>, total: nat, slot: map<string, nat>, i: nat)
    requires Chained(entries, chain, total) && Named(entries, chain, slot) && i < |chain|
    requires chain[i] in entries && (i > 0 ==> chain[i - 1] in entries) && entries[chain[i]].kind != 0
    requires Named(Removed(entries, chain, i), Shortened(chain, i), slot - {entries[chain[i]].name})
    ensures Contents(Removed(entries, chain, i), Shortened(chain, i), slot - {entries[chain[i]].name})
              == Contents(entries, chain, slot) - {entries[chain[i]].name}
  {
    assert NameOk(entries, chain, slot, i);
    forall x | x in slot && x != entries[chain[i]].name
      ensures slot[x] in entries && Removed(entries, chain, i)[slot[x]] == entries[slot[x]].(size := Removed(entries, chain, i)[slot[x]].size)
    {
      assert SlotOk(entries, chain, slot, x);
    }
  }

  // ---------------------------------------------------------------- the code

  class Directory {
    const total: nat
    var entries: Entries
    ghost var chain: seq<nat>
    ghost var slot: map<string, nat>

    /** The block that __ext2_initialize_dir lays out. */
    constructor (self: nat, parent: nat)
      requires parent != 0
      ensures Valid() && total == 4096 && Names() == map["." := Ref(self, 2), ".." := Ref(parent, 2)]
    {
      total := 4096;
      entries := map[0 := Entry(self, 12, ".", 2), 12 := Entry(parent, 4084, "..", 2), 4096 := Entry(0, 0, "", 0)];
      chain, slot := [0, 12], map["." := 0, ".." := 12];
      new;
      assert forall i: nat | i < 2 :: Link(entries, chain, total, i) && NameOk(entries, chain, slot, i);
      assert SlotOk(entries, chain, slot, ".") && SlotOk(entries, chain, slot, "..");
    }

    /** A directory of less than 64 KiB, so that no 16-bit entry size wraps. */
    ghost predicate Valid()
      reads this
    {
      total < 0x10000 && Chained(entries, chain, total) && Named(entries, chain, slot)
    }

    ghost function Names(): map<string, Ref>
      reads this
      requires Valid()
    {
      Contents(entries, chain, slot)
    }

    /** The walk and its two users' comparison: the entry with that name, or the last one, and the one before it. */
    method Find(name: string) returns (found: bool, entry: nat, previous: int, ghost i: nat)
      requires Valid()
      ensures found <==> name in slot
      ensures i < |chain| && entry == chain[i] && entry in entries && previous == (if i > 0 then chain[i - 1] else -1)
      ensures found ==> slot[name] == entry && entries[entry].kind != 0 && entries[entry].name == name
      ensures !found ==> i == |chain| - 1
    {
      var ptr, started := 0, false;
      entry, previous, i, found := 0, -1, 0, false;
      ghost var n := 0;
      assert Link(entries, chain, total, 0);
      while true
        invariant n <= |chain| && (started <==> n > 0) && ptr == (if n < |chain| then chain[n] else total)
        invariant n > 0 ==> i == n - 1 && entry == chain[i] && previous == (if i > 0 then chain[i - 1] else -1)
        invariant n == 0 ==> i == 0 && entry == chain[0] && previous == -1
        invariant forall k: nat | k < n :: chain[k] in entries && !(entries[chain[k]].kind != 0 && entries[chain[k]].name == name)
        invariant ptr in entries
        decreases |chain| - n
      {
        if n < |chain| { assert Link(entries, chain, total, n); }
        if started && entries[ptr].inode == 0 { break; }
        if entries[ptr].size < ENTRY_MIN { break; }
        previous := if started then entry else -1;
        entry, started := ptr, true;
        ptr := ptr + entries[ptr].size;
        i, n := n, n + 1;
        if n < |chain| { assert Link(entries, chain, total, n); }
        if entries[entry].kind != 0 && entries[entry].name == name {
          found := true;
          assert NameOk(entries, chain, slot, i);
          return;
        }
      }
      assert name in slot ==> SlotOk(entries, chain, slot, name);
    }

    /** __ext2_get_entry_inode_idx. */
    method Lookup(name: string) returns (inode: nat)
      requires Valid()
      ensures inode == if |name| <= 255 && name in Names() then Names()[name].inode else 0
    {
      if |name| > NAME_MAX { return 0; }
      var found, entry, previous, i := Find(name);
      return if found then entries[entry].inode else 0;
    }

    /** __ext2_create_new_dir_entry; `inode` is what __ext2_create_new_inode hands out. */
    method Create(name: string, kind: nat, inode: nat) returns (r: nat)
      requires Valid() && kind != 0 && inode != 0
      modifies `entries, `chain, `slot
      ensures Valid()
      ensures r == (if |name| <= 255 && name !in old(Names()) && old(Room()) > EntrySize(|name|) then inode else 0)
      ensures Names() == if r != 0 then old(Names())[name := Ref(inode, kind)] else old(Names())
      ensures Room() == old(Room()) - if r != 0 then EntrySize(|name|) else 0
    {
      if |name| > NAME_MAX { return 0; }
      var found, last, previous, i := Find(name);
      if found { return 0; }
      assert Link(entries, chain, total, i);
      var keep := EntrySize(|entries[last].name|);
      var free := entries[last].size - keep;
      if free > EntrySize(|name|) {
        AppendChained(entries, chain, total, keep, name, kind, inode);
        AppendNamed(entries, chain, total, slot, keep, name, kind, inode);
        AppendContents(entries, chain, total, slot, keep, name, kind, inode);
        entries := Appended(entries, last, keep, name, kind, inode);
        chain, slot := chain + [last + keep], slot[name := last + keep];
        return inode;
      }
      return 0;
    }

    /** The bytes that the last entry does not need. */
    ghost function Room(): int
      reads this
      requires Valid()
    {
      assert Link(entries, chain, total, |chain| - 1);
      var e := entries[chain[|chain| - 1]];
      e.size - EntrySize(|e.name|)
    }

    /** __ext2_remove_dir_entry. */
    method Remove(name: string) returns (inode: nat)
      requires Valid()
      modifies `entries, `chain, `slot
      ensures Valid()
      ensures inode == if name in old(Names()) then old(Names())[name].inode else 0
      ensures Names() == old(Names()) - {name}
    {
      var found, entry, previous, i := Find(name);
      if !found { return 0; }
      RemoveChained(entries, chain, total, i);
      RemoveNamed(entries, chain, total, slot, i);
      RemoveContents(entries, chain, total, slot, i);
      inode := entries[entry].inode;
      if previous >= 0 {
        entries := entries[previous := entries[previous].(size := entries[previous].size + entries[entry].size)];
      } else {
        entries := entries[entry := entries[entry].(inode := 0, name := "", kind := 0)];
      }
      chain, slot := Shortened(chain, i), slot - {name};
    }
  }
}
