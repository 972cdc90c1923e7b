/**
 The red-black tree of the kernel library, with parent pointers and the mirrored
 cases folded by a direction.

 The tree carries a ghost listing `order` of its nodes in key order.  Each node
 knows its place `pos` in it, the interval `lo..hi` of its subtree and its black
 height `bh`, so that the whole shape is a set of conditions on single nodes.
 `ValidIsRedBlack` ties these conditions to the usual recursive definition.
 */
module RedBlackTree {
  import opened Arithmetic

  datatype Color = Red | Black

  /** 0 is left and 1 is right. */
  type Dir = d: int | 0 <= d < 2

  class Node {
    var key: int
    var value: int
    var color: Color
    var parent: Node?
    var left: Node?
    var right: Node?
    ghost var pos: int
    ghost var lo: int
    ghost var hi: int
    ghost var bh: int

    constructor (parent: Node?, key: int)
      ensures this.parent == parent && this.key == key && color == Red && left == null && right == null
    {
      this.key := key;
      color := Red;
      left := null;
      right := null;
      this.parent := parent;
    }

    function Child(d: Dir): Node?
      reads this`left, this`right
    {
      if d == 0 then left else right
    }

    method SetChild(d: Dir, x: Node?)
      modifies this`left, this`right
      ensures Child(d) == x && Child(1 - d) == old(Child(1 - d))
    {
      if d == 0 { left := x; } else { right := x; }
    }

    /** The interval of the subtree on side `d`. */
    ghost function SubLo(d: Dir): int
      reads `lo, `pos
    {
      if d == 0 then lo else pos + 1
    }

    ghost function SubHi(d: Dir): int
      reads `hi, `pos
    {
      if d == 0 then pos else hi
    }
  }

  ghost function Opt(n: Node?): set<Node> { if n == null then {} else {n} }

  ghost function Unit(c: Color): int { if c == Black then 1 else 0 }

  function OnlyChild(n: Node): Node?
    reads n`left, n`right
  {
    if n.left == null then n.right else n.left
  }

  predicate IsRed(n: Node?)
    reads Opt(n)`color
  {
    n != null && n.color == Red
  }

  datatype Entry = Entry(key: int, value: int)

  ghost predicate Increasing(s: seq<Entry>) {
    forall i, j :: 0 <= i < j < |s| ==> s[i].key < s[j].key
  }

  /** The key/value map that a listing denotes. */
  ghost function ToMap(s: seq<Entry>): (m: map<int, int>) {
    if s == [] then map[] else ToMap(s[..|s| - 1])[s[|s| - 1].key := s[|s| - 1].value]
  }

  lemma {:induction false} ToMapConcat(a: seq<Entry>, b: seq<Entry>)
    ensures ToMap(a + b) == ToMap(a) + ToMap(b)
  {
    if b == [] {
      assert a + b == a;
    } else {
      assert (a + b)[..|a + b| - 1] == a + b[..|b| - 1];
      ToMapConcat(a, b[..|b| - 1]);
    }
  }

  /** The keys of the map are the keys of the listing. */
  lemma {:induction false} ToMapKeys(s: seq<Entry>, key: int)
    ensures key in ToMap(s) <==> exists i :: 0 <= i < |s| && s[i].key == key
  {
    if s != [] {
      var t := s[..|s| - 1];
      ToMapKeys(t, key);
      if i :| 0 <= i < |t| && t[i].key == key {
        assert s[i].key == key;
      }
    }
  }

  lemma ToMapMiddle(a: seq<Entry>, e: Entry, b: seq<Entry>)
    requires forall i :: 0 <= i < |a| ==> a[i].key < e.key
    requires forall i :: 0 <= i < |b| ==> e.key < b[i].key
    ensures e.key !in ToMap(a + b) && ToMap(a + [e] + b) == ToMap(a + b)[e.key := e.value]
  {
    ToMapKeys(a, e.key);
    ToMapKeys(b, e.key);
    ToMapConcat(a, b);
    ToMapConcat(a, [e]);
    ToMapConcat(a + [e], b);
    assert ToMap([e]) == map[e.key := e.value];
  }

  lemma IncreasingMiddle(a: seq<Entry>, e: Entry, b: seq<Entry>)
    requires Increasing(a + b)
    requires forall i :: 0 <= i < |a| ==> a[i].key < e.key
    requires forall i :: 0 <= i < |b| ==> e.key < b[i].key
    ensures Increasing(a + [e] + b)
  {
    var r, s := a + [e] + b, a + b;
    forall i, j | 0 <= i < j < |r| ensures r[i].key < r[j].key {
      assert r[i] == if i < |a| then s[i] else if i == |a| then e else s[i - 1];
      assert r[j] == if j < |a| then s[j] else if j == |a| then e else s[j - 1];
      if j == |a| { assert r[i] == a[i]; }
      if i == |a| { assert r[j] == b[j - |a| - 1]; }
    }
  }

  lemma IncreasingPieces(a: seq<Entry>, e: Entry, b: seq<Entry>)
    requires Increasing(a + [e] + b)
    ensures Increasing(a + b)
    ensures forall i :: 0 <= i < |a| ==> a[i].key < e.key
    ensures forall i :: 0 <= i < |b| ==> e.key < b[i].key
  {
    var r, s := a + b, a + [e] + b;
    assert s[|a|] == e;
    forall i | 0 <= i < |a| ensures a[i].key < e.key { assert s[i] == a[i]; }
    forall i | 0 <= i < |b| ensures e.key < b[i].key { assert s[i + |a| + 1] == b[i]; }
    forall i, j | 0 <= i < j < |r| ensures r[i].key < r[j].key {
      assert r[i] == (if i < |a| then s[i] else s[i + 1]) && r[j] == if j < |a| then s[j] else s[j + 1];
    }
  }

  lemma {:induction false} ToMapAt(s: seq<Entry>, k: nat)
    requires Increasing(s) && k < |s|
    ensures s[k].key in ToMap(s) && ToMap(s)[s[k].key] == s[k].value
  {
    if k < |s| - 1 {
      ToMapAt(s[..|s| - 1], k);
    }
  }

  lemma {:induction false} ToMapSize(s: seq<Entry>)
    requires Increasing(s)
    ensures |ToMap(s)| == |s|
  {
    if s != [] {
      var t, e := s[..|s| - 1], s[|s| - 1];
      ToMapSize(t);
      ToMapKeys(t, e.key);
      assert ToMap(s).Keys == ToMap(t).Keys + {e.key};
    }
  }

  lemma SetMiddle(a: seq<Entry>, e: Entry, b: seq<Entry>, value: int)
    requires Increasing(a + [e] + b)
    ensures Increasing(a + [Entry(e.key, value)] + b)
    ensures ToMap(a + [Entry(e.key, value)] + b) == ToMap(a + [e] + b)[e.key := value]
  {
    IncreasingPieces(a, e, b);
    IncreasingMiddle(a, Entry(e.key, value), b);
    ToMapMiddle(a, e, b);
    ToMapMiddle(a, Entry(e.key, value), b);
  }

  lemma SetValue(s: seq<Entry>, k: nat, value: int)
    requires Increasing(s) && k < |s|
    ensures Increasing(s[k := Entry(s[k].key, value)])
    ensures ToMap(s[k := Entry(s[k].key, value)]) == ToMap(s)[s[k].key := value]
  {
    var a, e, b := s[..k], s[k], s[k + 1..];
    assert s == a + [e] + b;
    assert s[k := Entry(e.key, value)] == a + [Entry(e.key, value)] + b;
    SetMiddle(a, e, b, value);
  }

  lemma SliceJoin(s: seq<Entry>, lo: int, k: int, hi: int)
    requires 0 <= lo <= k < hi <= |s|
    ensures s[lo..hi] == s[lo..k] + [s[k]] + s[k + 1..hi]
    ensures lo == k ==> s[lo..k] == []
    ensures k + 1 == hi ==> s[k + 1..hi] == []
  {
  }

  // ---- what a red-black tree is, on values

  /** Red-black trees as values, by the usual definition. */
  datatype Rb = Leaf | Bin(color: Color, left: Rb, entry: Entry, right: Rb)

  ghost function InOrder(t: Rb): seq<Entry> {
    match t
    case Leaf => []
    case Bin(_, l, e, r) => InOrder(l) + [e] + InOrder(r)
  }

  ghost predicate RootRed(t: Rb) { t.Bin? && t.color == Red }

  ghost predicate NoRedRed(t: Rb) {
    match t
    case Leaf => true
    case Bin(c, l, _, r) => (c == Red ==> !RootRed(l) && !RootRed(r)) && NoRedRed(l) && NoRedRed(r)
  }

  /** Every path from the root of `t` to a leaf crosses `h` black nodes. */
  ghost predicate BlackHeight(t: Rb, h: int) {
    match t
    case Leaf => h == 0
    case Bin(c, l, _, r) => BlackHeight(l, h - Unit(c)) && BlackHeight(r, h - Unit(c))
  }

  /** Black root, no red node under a red one, equal black heights, keys in order. */
  ghost predicate IsRedBlack(t: Rb) {
    !RootRed(t) && NoRedRed(t) && (exists h :: BlackHeight(t, h)) && Increasing(InOrder(t))
  }

  class Tree {
    var root: Node?
    ghost var nodes: set<Node>
    ghost var order: seq<Node>

    constructor ()
      ensures Valid() && fresh(this) && Contents() == map[] && nodes == {}
    {
      root := null;
      nodes := {};
      order := [];
      new;
      assert Entries() == [];
    }

    /** The node stands where its marks say. */
    ghost predicate Placed(n: Node)
      reads `order, n`pos, n`lo, n`hi
    {
      && 0 <= n.lo <= n.pos < n.hi <= |order|
      && order[n.pos] == n
    }

    /** The child on side `d` covers the interval on that side and points back. */
    ghost predicate LinkOk(n: Node, d: Dir)
      reads `nodes, nodes`left, nodes`right, nodes`parent, nodes`pos, nodes`lo, nodes`hi
      requires n in nodes
    {
      var c := n.Child(d);
      if c == null then n.SubLo(d) == n.SubHi(d)
      else c in nodes && c.parent == n && c.lo == n.SubLo(d) && c.hi == n.SubHi(d)
    }

    /** The parent has the node as a child, or the node is the root. */
    ghost predicate ParentOk(n: Node)
      reads `nodes, `root, nodes`left, nodes`right, nodes`parent
      requires n in nodes
    {
      if n.parent == null then n == root
      else n.parent in nodes && (n.parent.left == n || n.parent.right == n)
    }

    ghost predicate RootOk()
      reads `nodes, `root, `order, nodes`parent, nodes`lo, nodes`hi
    {
      if root == null then order == []
      else root in nodes && root.parent == null && root.lo == 0 && root.hi == |order|
    }

    /** Order and links, whatever the colors. */
    ghost predicate Shape()
      reads `nodes, `root, `order, nodes`left, nodes`right, nodes`parent, nodes`pos, nodes`lo, nodes`hi
    {
      && RootOk()
      && (forall i :: 0 <= i < |order| ==> order[i] in nodes && order[i].pos == i)
      && (forall n {:trigger Placed(n)} :: n in nodes ==> Placed(n))
      && (forall n, d: Dir {:trigger LinkOk(n, d)} :: n in nodes ==> LinkOk(n, d))
      && (forall n {:trigger ParentOk(n)} :: n in nodes ==> ParentOk(n))
    }

    ghost predicate Near(n: Node, dir: Dir)
      reads `nodes, `root, `order, nodes`left, nodes`right, nodes`parent, nodes`pos, nodes`lo, nodes`hi
      requires Shape() && n in nodes && n.Child(1 - dir) != null
      ensures Near(n, dir)
      ensures var pivot := n.Child(1 - dir);
        && pivot in nodes && pivot != n && pivot.parent == n
      ensures var pivot := n.Child(1 - dir); var mid := pivot.Child(dir); var p := n.parent;
        && (mid != null ==> mid in nodes && mid != n && mid != pivot && mid.parent == pivot)
        && (p == null ==> n == root)
        && (p != null ==> p in nodes && p != n && p != pivot && p != mid && (p.left == n <==> p.right != n) && (p.left == n || p.right == n))
        && (p != null ==> p.left != pivot && p.right != pivot)
        && (p != null && mid != null ==> p.left != mid && p.right != mid)
    {
      var pivot := n.Child(1 - dir);
      assert LinkOk(n, 1 - dir) && Placed(n) && ParentOk(n);
      assert LinkOk(pivot, dir) && Placed(pivot);
      var p, mid := n.parent, pivot.Child(dir);
      assert p != null ==> LinkOk(p, 0) && LinkOk(p, 1) && Placed(p);
      assert mid != null ==> Placed(mid);
      true
    }

    twostate predicate Rotated(n: Node, new dir: Dir, pivot: Node, new mid: Node?, p: Node?)
      reads `root, n`left, n`right, n`parent, n`lo, n`hi, pivot`left, pivot`right, pivot`parent, pivot`lo, pivot`hi
      reads Opt(p)`left, Opt(p)`right, Opt(mid)`parent
    {
      && root == (if p == null then pivot else old(root))
      && n.Child(1 - dir) == mid && n.Child(dir) == old(n.Child(dir))
      && pivot.Child(dir) == n && pivot.Child(1 - dir) == old(pivot.Child(1 - dir))
      && (p != null ==> p.left == (if old(p.left) == n then pivot else old(p.left)))
      && (p != null ==> p.right == (if old(p.right) == n then pivot else old(p.right)))
      && n.parent == pivot && pivot.parent == p && (mid != null ==> mid.parent == n)
      && pivot.lo == old(n.lo) && pivot.hi == old(n.hi)
      && n.lo == (if dir == 0 then old(n.lo) else old(pivot.pos) + 1)
      && n.hi == (if dir == 0 then old(pivot.pos) else old(n.hi))
    }

    twostate predicate IsRotation(n: Node, new dir: Dir, pivot: Node, new mid: Node?, p: Node?)
      reads `root, `nodes, `order, nodes`pos, nodes`left, nodes`right, nodes`parent, nodes`lo, nodes`hi
    {
      && nodes == old(nodes) && order == old(order) && n in nodes
      && pivot == old(n.Child(1 - dir)) && mid == old(pivot.Child(dir)) && p == old(n.parent)
      && pivot in nodes && Opt(mid) <= nodes && Opt(p) <= nodes
      && Rotated(n, dir, pivot, mid, p)
      && (forall m :: m in nodes ==> m.pos == old(m.pos))
      && (forall m :: m in nodes && m != n && m != pivot ==> m.lo == old(m.lo) && m.hi == old(m.hi))
      && (forall m :: m in nodes && m != n && m != pivot && m != p ==> m.left == old(m.left) && m.right == old(m.right))
      && (forall m :: m in nodes && m != n && m != pivot && m != mid ==> m.parent == old(m.parent))
    }

    twostate lemma RotatedLink(n: Node, new dir: Dir, new pivot: Node, new mid: Node?, new p: Node?, new m: Node, new d: Dir)
      requires old(allocated(pivot)) && old(allocated(p))
      requires old(Shape()) && IsRotation(n, dir, pivot, mid, p) && m in nodes
      ensures LinkOk(m, d)
    {
      assert old(Near(n, dir));
      assert old(LinkOk(m, d));
      assert old(LinkOk(n, 0)) && old(LinkOk(n, 1)) && old(LinkOk(pivot, 0)) && old(LinkOk(pivot, 1));
      assert old(Placed(n)) && old(Placed(pivot));
    }

    twostate lemma RotatedParent(n: Node, new dir: Dir, new pivot: Node, new mid: Node?, new p: Node?, new m: Node)
      requires old(allocated(pivot)) && old(allocated(p))
      requires old(Shape()) && IsRotation(n, dir, pivot, mid, p) && m in nodes
      ensures Placed(m) && ParentOk(m)
    {
      assert old(Near(n, dir));
      assert old(Placed(m)) && old(Placed(n)) && old(Placed(pivot)) && old(LinkOk(n, 1 - dir));
      assert old(ParentOk(m));
    }

    twostate lemma RotatedShape(n: Node, new dir: Dir, new pivot: Node, new mid: Node?, new p: Node?)
      requires old(allocated(pivot)) && old(allocated(p))
      requires old(Shape()) && IsRotation(n, dir, pivot, mid, p)
      ensures Shape()
    {
      assert old(Near(n, dir));
      assert old(ParentOk(n));
      forall m, d: Dir | m in nodes ensures LinkOk(m, d) {
        RotatedLink(n, dir, pivot, mid, p, m, d);
      }
      forall m | m in nodes ensures Placed(m) && ParentOk(m) {
        RotatedParent(n, dir, pivot, mid, p, m);
      }
    }

    method RotateLinks(n: Node, dir: Dir)
      requires Shape() && n in nodes
      requires n.Child(1 - dir) != null
      modifies this`root
      modifies n`left, n`right, n`parent, n`lo, n`hi
      modifies n.Child(1 - dir)`left, n.Child(1 - dir)`right, n.Child(1 - dir)`parent, n.Child(1 - dir)`lo, n.Child(1 - dir)`hi
      modifies Opt(n.Child(1 - dir).Child(dir))`parent
      modifies Opt(n.parent)`left, Opt(n.parent)`right
      ensures Rotated(n, dir, old(n.Child(1 - dir)), old(n.Child(1 - dir).Child(dir)), old(n.parent))
    {
      assert Near(n, dir);
      var pivot := n.Child(1 - dir);
      n.SetChild(1 - dir, pivot.Child(dir));
      if n.Child(1 - dir) != null {
        n.Child(1 - dir).parent := n;
      }

      pivot.parent := n.parent;
      if n.parent == null {
        root := pivot;
      } else if n == n.parent.Child(dir) {
        n.parent.SetChild(dir, pivot);
      } else {
        n.parent.SetChild(1 - dir, pivot);
      }
      pivot.SetChild(dir, n);
      n.parent := pivot;

      pivot.lo, pivot.hi := n.lo, n.hi;
      n.lo := if dir == 0 then n.lo else pivot.pos + 1;
      n.hi := if dir == 0 then pivot.pos else n.hi;
    }

    /** __rotate: the listing, and so the order of keys, stays. */
    method Rotate(n: Node, dir: Dir)
      requires Shape() && n in nodes
      requires n.Child(1 - dir) != null
      modifies this`root
      modifies n`left, n`right, n`parent, n`lo, n`hi
      modifies n.Child(1 - dir)`left, n.Child(1 - dir)`right, n.Child(1 - dir)`parent, n.Child(1 - dir)`lo, n.Child(1 - dir)`hi
      modifies Opt(n.Child(1 - dir).Child(dir))`parent
      modifies Opt(n.parent)`left, Opt(n.parent)`right
      ensures IsRotation(n, dir, old(n.Child(1 - dir)), old(n.Child(1 - dir).Child(dir)), old(n.parent))
      ensures Shape()
    {
      assert Near(n, dir);
      ghost var pivot := n.Child(1 - dir);
      ghost var mid := pivot.Child(dir);
      ghost var p := n.parent;
      RotateLinks(n, dir);
      RotatedShape(n, dir, pivot, mid, p);
    }

    ghost function BH(c: Node?): int
      reads `nodes, nodes`bh
    {
      if c != null && c in nodes then c.bh else 0
    }

    /** Both subtrees have the black height that the node's own says. */
    ghost predicate HeightOk(n: Node)
      reads `nodes, nodes`bh, nodes`color, nodes`left, nodes`right
      requires n in nodes
    {
      n.bh >= Unit(n.color) && BH(n.left) == BH(n.right) == n.bh - Unit(n.color)
    }

    /** No red node under a red node. */
    ghost predicate RedOk(n: Node)
      reads `nodes, nodes`color, nodes`parent
      requires n in nodes
    {
      n.color == Red && n.parent != null && n.parent in nodes ==> n.parent.color == Black
    }

    ghost predicate HeightsBut(x: Node?)
      reads `nodes, nodes`bh, nodes`color, nodes`left, nodes`right
    {
      forall n {:trigger HeightOk(n)} :: n in nodes && n != x ==> HeightOk(n)
    }

    ghost predicate RedsBut(x: Node?)
      reads `nodes, nodes`color, nodes`parent
    {
      forall n {:trigger RedOk(n)} :: n in nodes && n != x ==> RedOk(n)
    }

    twostate lemma RecolorDone(ptr: Node, new p: Node, new u: Node, new g: Node)
      requires old(allocated(p)) && old(allocated(u)) && old(allocated(g))
      requires SameLinks() && old(Shape()) && old(HeightsBut(null)) && old(RedsBut(ptr))
      requires ptr in nodes && p in nodes && u in nodes && g in nodes
      requires old(ptr.parent) == p && old(p.parent) == g && old(u.parent) == g && p != u
      requires old(p.color) == Red && old(u.color) == Red && old(g.color) == Black
      requires p.color == Black && u.color == Black && g.color == Red
      requires p.bh == old(p.bh) + 1 && u.bh == old(u.bh) + 1 && g.bh == old(g.bh)
      requires forall m :: m in nodes && m != p && m != u && m != g ==> m.color == old(m.color) && m.bh == old(m.bh)
      ensures HeightsBut(null) && RedsBut(g)
    {
      assert old(ParentOk(p)) && old(ParentOk(u)) && old(Placed(p)) && old(Placed(u));
      assert old(HeightOk(g)) && old(LinkOk(g, 0)) && old(LinkOk(g, 1));
      forall m | m in nodes ensures HeightOk(m) {
        assert old(HeightOk(m)) && old(LinkOk(m, 0)) && old(LinkOk(m, 1));
      }
      forall m | m in nodes && m != g ensures RedOk(m) {
        assert old(ParentOk(m)) && (m != ptr ==> old(RedOk(m)));
      }
    }

    method Recolor(ptr: Node, p: Node, u: Node, g: Node)
      requires Shape() && HeightsBut(null) && RedsBut(ptr)
      requires ptr in nodes && p in nodes && u in nodes && g in nodes
      requires ptr.parent == p && p.parent == g && u.parent == g && p != u
      requires p.color == Red && u.color == Red && g.color == Black
      modifies p`color, u`color, g`color, p`bh, u`bh
      ensures HeightsBut(null) && RedsBut(g)
    {
      p.color := Black;
      u.color := Black;
      g.color := Red;
      p.bh := p.bh + 1;
      u.bh := u.bh + 1;
      RecolorDone(ptr, p, u, g);
    }

    method RotateInner(ptr: Node, p: Node, g: Node, dir: Dir)
      requires Shape() && HeightsBut(null) && RedsBut(ptr)
      requires ptr in nodes && p in nodes && g in nodes && p.Child(1 - dir) == ptr && g.Child(dir) == p && p.parent == g
      requires p.color == Red && ptr.color == Red
      modifies this`root
      modifies nodes`left, nodes`right, nodes`parent, nodes`lo, nodes`hi
      ensures Shape() && HeightsBut(null) && RedsBut(p) && root == old(root)
      ensures p.parent == ptr && ptr.Child(dir) == p && ptr.parent == g
      ensures g.Child(dir) == ptr && g.Child(1 - dir) == old(g.Child(1 - dir))
    {
      assert Near(p, dir);
      Rotate(p, dir);
      forall m | m in nodes ensures HeightOk(m) {
        assert old(HeightOk(m)) && old(HeightOk(p)) && old(HeightOk(ptr));
      }
      forall m | m in nodes && m != p ensures RedOk(m) {
        assert old(LinkOk(p, 1 - dir));
        assert m != ptr ==> old(RedOk(m)) ;
        assert old(RedOk(p));
      }
    }

    /** A rotation that gives the pivot the black height of `n` disturbs no node outside the pair. */
    twostate lemma RotatedHeight(n: Node, new dir: Dir, new pivot: Node, new mid: Node?, new p: Node?, new m: Node)
      requires old(allocated(pivot)) && old(allocated(p))
      requires old(Shape()) && IsRotation(n, dir, pivot, mid, p) && m in nodes && m != n && m != pivot
      requires m.color == old(m.color) && m.bh == old(m.bh) && pivot.bh == old(n.bh)
      requires forall c :: c in nodes && c != n && c != pivot && old(c.parent) != pivot ==> c.bh == old(c.bh)
      requires old(HeightOk(m))
      ensures HeightOk(m)
    {
      assert old(Near(n, dir));
      assert old(LinkOk(m, 0)) && old(LinkOk(m, 1)) && old(LinkOk(n, 1 - dir));
    }

    twostate predicate SameBut(n: Node, new pivot: Node, new x: Node?)
      reads this, nodes
      requires nodes == old(nodes)
    {
      forall m :: m in nodes && m != n && m != pivot && m != x ==> m.color == old(m.color) && m.bh == old(m.bh)
    }

    /** Rotating a black `g` with its red child `p` and exchanging their colors keeps every height that was right. */
    twostate lemma SwapHeights(g: Node, new dir: Dir, new p: Node, new mid: Node?, new gg: Node?, new e: Node?)
      requires old(allocated(p)) && old(allocated(gg)) && old(allocated(e))
      requires old(Shape()) && IsRotation(g, dir, p, mid, gg) && old(HeightsBut(e)) && SameBut(g, p, null)
      requires old(g.color) == Black && old(p.color) == Red
      requires p.bh == old(g.bh) && g.bh == old(p.bh) && p.color == Black && g.color == Red
      requires e != g && e != p
      ensures HeightsBut(e)
    {
      assert old(Near(g, dir)) && old(LinkOk(p, 0)) && old(LinkOk(p, 1)) && old(LinkOk(g, 0)) && old(LinkOk(g, 1));
      assert old(HeightOk(p)) && old(HeightOk(g));
      assert old(Placed(p)) && old(Placed(g));
      assert HeightOk(p) && HeightOk(g);
      forall m | m in nodes && m != e ensures HeightOk(m) {
        if m != g && m != p {
          assert old(HeightOk(m));
          RotatedHeight(g, dir, p, mid, gg, m);
        }
      }
    }

    /** The same exchange leaves no red node under a red one, if `ptr` was the only one and sat outside under `p`. */
    twostate lemma SwapReds(g: Node, new dir: Dir, new p: Node, new mid: Node?, new gg: Node?, new ptr: Node?)
      requires old(allocated(p)) && old(allocated(gg)) && old(allocated(ptr))
      requires old(Shape()) && IsRotation(g, dir, p, mid, gg) && SameBut(g, p, null)
      requires old(RedsBut(ptr)) && (ptr != null ==> old(p.Child(1 - dir)) == ptr)
      requires old(!IsRed(g.Child(dir)))
      requires old(g.color) == Black && old(p.color) == Red
      requires p.color == Black && g.color == Red
      ensures RedsBut(null)
    {
      assert old(Near(g, dir)) && old(LinkOk(p, 0)) && old(LinkOk(p, 1)) && old(LinkOk(g, 0)) && old(LinkOk(g, 1));
      assert (ptr != null ==> old(Placed(ptr))) && old(Placed(p));
      forall m | m in nodes ensures RedOk(m) {
        assert m != ptr ==> old(RedOk(m));
        assert old(ParentOk(m));
      }
    }

    method SwapColors(p: Node, g: Node)
      modifies p`color, p`bh, g`color, g`bh
      ensures p.color == old(g.color) && g.color == old(p.color)
      ensures p.bh == old(g.bh) && g.bh == old(p.bh)
    {
      var col := p.color;
      p.color := g.color;
      g.color := col;
      p.bh, g.bh := g.bh, p.bh;
    }

    /** A rotation after which the two nodes have exchanged their colors. */
    method RotateSwap(n: Node, dir: Dir)
      requires Shape() && n in nodes && n.Child(1 - dir) != null
      modifies this`root
      modifies n`left, n`right, n`parent, n`lo, n`hi, n`color, n`bh
      modifies n.Child(1 - dir)`left, n.Child(1 - dir)`right, n.Child(1 - dir)`parent, n.Child(1 - dir)`lo, n.Child(1 - dir)`hi
      modifies n.Child(1 - dir)`color, n.Child(1 - dir)`bh
      modifies Opt(n.Child(1 - dir).Child(dir))`parent
      modifies Opt(n.parent)`left, Opt(n.parent)`right
      ensures IsRotation(n, dir, old(n.Child(1 - dir)), old(n.Child(1 - dir).Child(dir)), old(n.parent)) && Shape()
      ensures SameBut(n, old(n.Child(1 - dir)), null)
      ensures old(n.Child(1 - dir)).color == old(n.color) && n.color == old(n.Child(1 - dir).color)
      ensures old(n.Child(1 - dir)).bh == old(n.bh) && n.bh == old(n.Child(1 - dir).bh)
    {
      var pivot := n.Child(1 - dir);
      Rotate(n, dir);
      SwapColors(pivot, n);
    }

    method RotateOuter(ptr: Node, p: Node, g: Node, dir: Dir)
      requires Shape() && HeightsBut(null) && RedsBut(ptr)
      requires ptr in nodes && p in nodes && g in nodes && p.Child(dir) == ptr && g.Child(dir) == p
      requires p.color == Red && ptr.color == Red && g.color == Black && !IsRed(g.Child(1 - dir))
      modifies this`root
      modifies nodes`left, nodes`right, nodes`parent, nodes`lo, nodes`hi, g`color, g`bh, p`color, p`bh
      ensures Shape() && HeightsBut(null) && RedsBut(null)
      ensures p.color == Black
      ensures root == if old(root) == g then p else old(root)
    {
      assert Near(g, 1 - dir);
      ghost var mid, gg := p.Child(1 - dir), g.parent;
      RotateSwap(g, 1 - dir);
      SwapHeights(g, 1 - dir, p, mid, gg, null);
      SwapReds(g, 1 - dir, p, mid, gg, ptr);
    }

    /** The two rotations of the insert fixup; `ptr` is red under its red parent and the uncle is not red. */
    method RotateCase(ptr: Node, parent: Node, grand: Node, dir: Dir) returns (top: Node)
      requires Shape() && HeightsBut(null) && RedsBut(ptr)
      requires ptr in nodes && parent in nodes && grand in nodes
      requires ptr.parent == parent && parent.parent == grand && grand.Child(dir) == parent
      requires ptr.color == Red && parent.color == Red && grand.color == Black && !IsRed(grand.Child(1 - dir))
      modifies this`root
      modifies nodes`left, nodes`right, nodes`parent, nodes`lo, nodes`hi
      modifies ptr`color, ptr`bh, parent`color, parent`bh, grand`color, grand`bh
      ensures Shape() && HeightsBut(null) && RedsBut(null)
      ensures top in nodes && top.color == Black
      ensures root == if old(root) == grand then top else old(root)
    {
      var p, x := ptr, parent;
      assert ParentOk(ptr) && LinkOk(parent, 0) && LinkOk(parent, 1) && LinkOk(grand, 0) && LinkOk(grand, 1);
      assert Placed(parent) && Placed(grand) && Placed(ptr);
      p, x := parent, ptr;
      if ptr == parent.Child(1 - dir) {
        RotateInner(ptr, parent, grand, dir);
        p, x := ptr, parent;
      }
      RotateOuter(x, p, grand, dir);
      top := p;
    }

    method BlackenRoot()
      requires Shape() && HeightsBut(null) && root != null
      requires RedsBut(root)
      modifies nodes`color, nodes`bh
      ensures HeightsBut(null) && RedsBut(null)
      ensures root.color == Black
    {
      assert RootOk();
      if root.color == Red {
        root.bh := root.bh + 1;
      }
      root.color := Black;
      forall m | m in nodes ensures HeightOk(m) {
        assert old(HeightOk(m)) && LinkOk(m, 0) && LinkOk(m, 1);
      }
      forall m | m in nodes ensures RedOk(m) {
        assert m != root ==> old(RedOk(m));
      }
    }

    /** __insert_fixup: from one red node under a red one to a balanced tree. */
    method InsertFixup(last: Node)
      requires Shape() && HeightsBut(null) && RedsBut(last) && last in nodes
      requires root != null && (root == last || root.color == Black)
      modifies this`root, nodes`left, nodes`right, nodes`parent, nodes`lo, nodes`hi, nodes`color, nodes`bh
      ensures Shape() && HeightsBut(null) && RedsBut(null)
      ensures root != null && root.color == Black
    {
      var ptr := last;
      assert ParentOk(ptr) && RootOk();
      while ptr != root && ptr.color != Black && ptr.parent.color == Red
        invariant Shape() && HeightsBut(null) && RedsBut(ptr) && ptr in nodes
        invariant ParentOk(ptr)
        invariant root != null && root in nodes && root.parent == null && (root == ptr || root.color == Black)
        decreases ptr.color == Red, |order| - (ptr.hi - ptr.lo)
      {
        var parent := ptr.parent;
        var grand := parent.parent;
        assert ParentOk(parent);
        assert LinkOk(grand, 0) && LinkOk(grand, 1) && LinkOk(parent, 0) && LinkOk(parent, 1);
        assert Placed(parent) && Placed(grand) && Placed(ptr);
        assert RedOk(parent);
        var dir: Dir := if parent == grand.right then 1 else 0;
        var uncle := grand.Child(1 - dir);
        if uncle != null && uncle.color == Red {
          Recolor(ptr, parent, uncle, grand);
          ptr := grand;
        } else {
          ptr := RotateCase(ptr, parent, grand, dir);
        }
        assert ParentOk(ptr) && RootOk();
      }
      assert ptr != root ==> RedOk(ptr);
      BlackenRoot();
    }

    ghost predicate RootBlack()
      reads `nodes, `root, nodes`color
    {
      root != null && root in nodes ==> root.color == Black
    }

    /** The subtree of `e` on side `dir` is one black node short; every other node is right. */
    ghost predicate Defect(e: Node, dir: Dir)
      reads `nodes, nodes`bh, nodes`color, nodes`left, nodes`right
      requires e in nodes
    {
      var c := e.Child(dir);
      && 0 <= BH(c) && BH(c) + 1 == BH(e.Child(1 - dir)) == e.bh - Unit(e.color)
      && (c != null && c in nodes ==> c.color == Black)
    }

    ghost predicate Unbalanced(e: Node, dir: Dir)
      reads `nodes, `root, `order, nodes`left, nodes`right, nodes`parent, nodes`pos, nodes`lo, nodes`hi, nodes`color, nodes`bh
    {
      Shape() && HeightsBut(e) && RedsBut(null) && RootBlack() && e in nodes && Defect(e, dir)
    }

    /** All of it: shape, heights, colors and a black root. */
    ghost predicate Balanced()
      reads `nodes, `root, `order, nodes`left, nodes`right, nodes`parent, nodes`pos, nodes`lo, nodes`hi, nodes`color, nodes`bh
    {
      Shape() && HeightsBut(null) && RedsBut(null) && RootBlack()
    }

    twostate lemma RedSiblingHeights(e: Node, new dir: Dir, new s: Node, new mid: Node?, new p: Node?)
      requires old(allocated(s)) && old(allocated(p))
      requires old(Shape()) && IsRotation(e, dir, s, mid, p) && old(HeightsBut(e)) && SameBut(e, s, null)
      requires old(Defect(e, dir))
      requires old(e.color) == Black && old(s.color) == Red
      requires s.bh == old(e.bh) && e.bh == old(s.bh) && s.color == Black && e.color == Red
      ensures HeightsBut(e) && Defect(e, dir)
    {
      assert old(Near(e, dir)) && old(LinkOk(s, 0)) && old(LinkOk(s, 1)) && old(LinkOk(e, 0)) && old(LinkOk(e, 1));
      assert old(HeightOk(s)) && old(Placed(s)) && old(Placed(e));
      assert HeightOk(s);
      forall m | m in nodes && m != e ensures HeightOk(m) {
        if m != s {
          assert old(HeightOk(m));
          RotatedHeight(e, dir, s, mid, p, m);
        }
      }
    }

    /** Case 1: the sibling is red. */
    method RedSibling(e: Node, s: Node, dir: Dir)
      requires Unbalanced(e, dir) && s == e.Child(1 - dir) && s.color == Red
      modifies this`root
      modifies nodes`left, nodes`right, nodes`parent, nodes`lo, nodes`hi, e`color, e`bh, s`color, s`bh
      ensures Unbalanced(e, dir) && e.color == Red && !IsRed(e.Child(1 - dir))
    {
      assert Near(e, dir) && RedOk(s) && LinkOk(e, dir);
      ghost var mid, p := s.Child(dir), e.parent;
      RotateSwap(e, dir);
      RedSiblingHeights(e, dir, s, mid, p);
      SwapReds(e, dir, s, mid, p, null);
      assert mid != null ==> RedOk(mid);
    }

    /** Case 3: the near nephew is red and the far one is not. */
    method NearNephew(e: Node, s: Node, w: Node, dir: Dir)
      requires Unbalanced(e, dir) && s == e.Child(1 - dir) && s.color == Black
      requires w == s.Child(dir) && w.color == Red && !IsRed(s.Child(1 - dir))
      modifies this`root
      modifies nodes`left, nodes`right, nodes`parent, s`lo, s`hi, w`lo, w`hi, s`color, s`bh, w`color, w`bh
      ensures Unbalanced(e, dir) && root == old(root)
      ensures e.Child(1 - dir) == w && w.Child(1 - dir) == s && w.color == Black && s.color == Red
    {
      assert LinkOk(e, 1 - dir) && LinkOk(e, dir) && Placed(s) && Placed(e);
      assert Near(s, 1 - dir);
      ghost var mid := w.Child(1 - dir);
      RotateSwap(s, 1 - dir);
      SwapHeights(s, 1 - dir, w, mid, e, e);
      SwapReds(s, 1 - dir, w, mid, e, null);
    }

    twostate lemma FarNephewDone(e: Node, new dir: Dir, new s: Node, new mid: Node?, new p: Node?, new w: Node)
      requires old(allocated(s)) && old(allocated(p)) && old(allocated(w))
      requires old(Unbalanced(e, dir)) && IsRotation(e, dir, s, mid, p) && SameBut(e, s, w)
      requires old(s.color) == Black && w == old(s.Child(1 - dir)) && old(w.color) == Red
      requires s.color == old(e.color) && s.bh == old(e.bh) && e.color == Black && e.bh == old(s.bh)
      requires w.color == Black && w.bh == old(w.bh) + 1
      ensures HeightsBut(null)
    {
      assert old(Near(e, dir)) && old(LinkOk(s, 0)) && old(LinkOk(s, 1)) && old(LinkOk(e, 0)) && old(LinkOk(e, 1));
      assert old(HeightOk(s)) && old(HeightOk(w)) && old(Placed(s)) && old(Placed(e)) && old(Placed(w));
      assert old(LinkOk(w, 0)) && old(LinkOk(w, 1));
      assert HeightOk(s) && HeightOk(e) && HeightOk(w);
      forall m | m in nodes ensures HeightOk(m) {
        if m != s && m != e && m != w {
          assert old(HeightOk(m));
          RotatedHeight(e, dir, s, mid, p, m);
        }
      }
    }

    twostate lemma FarNephewReds(e: Node, new dir: Dir, new s: Node, new mid: Node?, new p: Node?, new w: Node)
      requires old(allocated(s)) && old(allocated(p)) && old(allocated(w))
      requires old(Unbalanced(e, dir)) && IsRotation(e, dir, s, mid, p) && SameBut(e, s, w)
      requires w == old(s.Child(1 - dir))
      requires s.color == old(e.color) && e.color == Black && w.color == Black
      ensures RedsBut(null) && RootBlack()
    {
      assert old(Near(e, dir)) && old(LinkOk(s, 0)) && old(LinkOk(s, 1));
      assert old(RedOk(e));
      forall m | m in nodes ensures RedOk(m) {
        assert old(RedOk(m));
        assert old(ParentOk(m));
      }
    }

    method Blacken(w: Node)
      modifies w`color, w`bh
      ensures w.color == Black && w.bh == old(w.bh) + 1
    {
      w.color := Black;
      w.bh := w.bh + 1;
    }

    /** Case 2: the far nephew is red. */
    method FarNephew(e: Node, s: Node, w: Node, dir: Dir)
      requires Unbalanced(e, dir) && s == e.Child(1 - dir) && s.color == Black
      requires w == s.Child(1 - dir) && w.color == Red
      modifies this`root
      modifies nodes`left, nodes`right, nodes`parent, nodes`lo, nodes`hi, nodes`color, nodes`bh
      ensures Balanced()
    {
      assert Near(e, dir) && LinkOk(s, 1 - dir) && LinkOk(e, 1 - dir) && Placed(w) && Placed(s) && Placed(e);
      ghost var mid, p := s.Child(dir), e.parent;
      RotateSwap(e, dir);
      Blacken(w);
      FarNephewDone(e, dir, s, mid, p, w);
      FarNephewReds(e, dir, s, mid, p, w);
    }

    twostate predicate SameLinks()
      reads this, nodes
    {
      && nodes == old(nodes)
      && forall m :: m in nodes ==> m.left == old(m.left) && m.right == old(m.right) && m.parent == old(m.parent)
    }

    /** Reddening a black sibling whose children are black, once its parent is black. */
    twostate lemma ReddenReds(e: Node, new s: Node)
      requires old(allocated(s)) && e in nodes && s in nodes && s.parent == e
      requires SameLinks() && old(Shape()) && old(RedsBut(null)) && SameBut(e, s, null)
      requires old(!IsRed(s.left)) && old(!IsRed(s.right)) && e.color == Black
      ensures RedsBut(null)
    {
      forall m | m in nodes ensures RedOk(m) {
        assert old(RedOk(m)) && old(ParentOk(m));
      }
    }

    /** A shortage at `e` answered by reddening its sibling `s`: no height away from `e` and its parent changes. */
    twostate lemma ReddenHeights(e: Node, new s: Node, new dir: Dir)
      requires old(allocated(s)) && e in nodes && s == old(e.Child(1 - dir))
      requires SameLinks() && old(Unbalanced(e, dir)) && SameBut(e, s, null)
      requires old(s.color) == Black && s.color == Red && s.bh == old(s.bh) - 1
      requires e.color == Black && e.bh == old(e.bh) - Unit(old(e.color))
      ensures HeightsBut(if old(e.color) == Red then null else e.parent)
    {
      assert old(LinkOk(e, 0)) && old(LinkOk(e, 1)) && old(Placed(s)) && old(Placed(e)) && old(HeightOk(s));
      forall m | m in nodes && (old(e.color) == Red || m != e.parent) ensures HeightOk(m) {
        assert m != e ==> old(HeightOk(m));
        assert old(LinkOk(m, 0)) && old(LinkOk(m, 1));
      }
    }

    /** Case 4: the parent is red and sibling and nephews are black. */
    method RedParent(e: Node, s: Node, dir: Dir)
      requires Unbalanced(e, dir) && s == e.Child(1 - dir) && s.color == Black && e.color == Red
      requires !IsRed(s.left) && !IsRed(s.right)
      modifies e`color, s`color, s`bh
      ensures Balanced()
    {
      assert LinkOk(e, 1 - dir) && Placed(s) && Placed(e) && RootOk();
      e.color := Black;
      s.color := Red;
      s.bh := s.bh - 1;
      ReddenHeights(e, s, dir);
      ReddenReds(e, s);
    }

    twostate lemma ShortageAbove(e: Node, new s: Node, new dir: Dir, new p: Node, new d: Dir)
      requires old(allocated(s)) && old(allocated(p)) && e in nodes && s == old(e.Child(1 - dir)) && p == old(e.parent)
      requires SameLinks() && old(Unbalanced(e, dir)) && SameBut(e, s, null)
      requires e.color == old(e.color) == Black && e.bh == old(e.bh) - 1
      requires d == if old(p.right) == e then 1 else 0
      ensures p in nodes && Defect(p, d)
    {
      assert old(LinkOk(e, 1 - dir)) && old(Placed(s)) && old(Placed(e)) && old(ParentOk(e));
      assert old(Placed(p)) && old(LinkOk(p, 0)) && old(LinkOk(p, 1)) && old(HeightOk(p));
      assert BH(e.Child(dir)) >= 0 && e.bh >= 1;
    }

    method Redden(e: Node, s: Node)
      requires e != s
      modifies s`color, s`bh, e`bh
      ensures s.color == Red && s.bh == old(s.bh) - 1 && e.bh == old(e.bh) - 1
    {
      s.color := Red;
      s.bh, e.bh := s.bh - 1, e.bh - 1;
    }

    /** Case 5: parent, sibling and nephews are black; the shortage moves one level up. */
    method AllBlack(e: Node, s: Node, dir: Dir) returns (d: Dir)
      requires Unbalanced(e, dir) && s == e.Child(1 - dir) && s.color == Black && e.color == Black
      requires !IsRed(s.left) && !IsRed(s.right)
      modifies s`color, s`bh, e`bh
      ensures if e.parent == null then Balanced() else Unbalanced(e.parent, d)
    {
      assert LinkOk(e, 1 - dir) && Placed(s) && Placed(e) && RootOk() && ParentOk(e);
      d := dir;
      if e.parent != null {
        d := if e == e.parent.right then 1 else 0;
      }
      Redden(e, s);
      ReddenHeights(e, s, dir);
      ReddenReds(e, s);
      if e.parent != null {
        ShortageAbove(e, s, dir, e.parent, d);
      }
    }

    /** __delete_fixup: from one missing black node to a balanced tree. */
    method DeleteFixup(parent: Node?, side: Dir)
      requires if parent == null then Balanced() else Unbalanced(parent, side)
      modifies this`root, nodes`left, nodes`right, nodes`parent, nodes`lo, nodes`hi, nodes`color, nodes`bh
      ensures Balanced()
    {
      var entry, dir := parent, side;
      while entry != null
        invariant if entry == null then Balanced() else Unbalanced(entry, dir)
        decreases entry != null && entry.color == Black,
                  if entry == null then 0 else 1 + |order| - (entry.hi - entry.lo),
                  entry != null && entry.Child(1 - dir) != null && !IsRed(entry.Child(1 - dir).Child(1 - dir))
      {
        assert LinkOk(entry, 1 - dir);
        var sibling := entry.Child(1 - dir);
        assert Placed(entry) && ParentOk(entry);
        if IsRed(sibling) {
          assert RedOk(sibling);
          RedSibling(entry, sibling, dir);
        } else if IsRed(sibling.Child(1 - dir)) {
          FarNephew(entry, sibling, sibling.Child(1 - dir), dir);
          return;
        } else if IsRed(sibling.Child(dir)) {
          assert LinkOk(sibling, dir);
          NearNephew(entry, sibling, sibling.Child(dir), dir);
        } else if entry.color == Red {
          RedParent(entry, sibling, dir);
          return;
        } else {
          ghost var above := entry.parent;
          assert above != null ==> LinkOk(above, 0) && LinkOk(above, 1) && Placed(above);
          dir := AllBlack(entry, sibling, dir);
          entry := entry.parent;
        }
      }
    }

    // ---- attaching a leaf

    /** List `x` at place `k`, on side `d` of its parent, and move the marks of the other nodes. */
    ghost method Enlist(k: int, d: Dir, x: Node)
      requires 0 <= k <= |order| && x !in nodes
      modifies this`order, this`nodes, nodes`pos, nodes`lo, nodes`hi, x`pos, x`lo, x`hi, x`bh
      ensures x.pos == k && x.lo == k && x.hi == k + 1 && x.bh == 0
      ensures order == old(order)[..k] + [x] + old(order)[k..] && nodes == old(nodes) + {x}
      ensures forall n :: n in old(nodes) ==> n.pos == old(n.pos) + (if old(n.pos) >= k then 1 else 0)
      ensures forall n :: n in old(nodes) ==> n.lo == old(n.lo) + (if old(n.lo) >= k + 1 - d then 1 else 0)
      ensures forall n :: n in old(nodes) ==> n.hi == old(n.hi) + (if old(n.hi) >= k + 1 - d then 1 else 0)
    {
      forall n | n in nodes { n.pos := n.pos + (if n.pos >= k then 1 else 0); }
      forall n | n in nodes { n.lo := n.lo + (if n.lo >= k + 1 - d then 1 else 0); }
      forall n | n in nodes { n.hi := n.hi + (if n.hi >= k + 1 - d then 1 else 0); }
      x.pos, x.lo, x.hi, x.bh := k, k, k + 1, 0;
      order := order[..k] + [x] + order[k..];
      nodes := nodes + {x};
    }

    twostate predicate Attached(p: Node, new d: Dir, new x: Node)
      reads this, nodes
    {
      var k := old(p.SubLo(d));
      && x !in old(nodes) && nodes == old(nodes) + {x} && p in old(nodes) && old(p.Child(d)) == null
      && 0 <= k <= old(|order|)
      && order == old(order)[..k] + [x] + old(order)[k..] && root == old(root)
      && x.parent == p && x.left == null && x.right == null && x.pos == k && x.lo == k && x.hi == k + 1
      && (forall m :: m in old(nodes) ==> m.parent == old(m.parent))
      && (forall m :: m in old(nodes) && m != p ==> m.left == old(m.left) && m.right == old(m.right))
      && p.Child(d) == x && p.Child(1 - d) == old(p.Child(1 - d))
      && (forall n :: n in old(nodes) ==> n.pos == old(n.pos) + (if old(n.pos) >= k then 1 else 0))
      && (forall n :: n in old(nodes) ==> n.lo == old(n.lo) + (if old(n.lo) >= k + 1 - d then 1 else 0))
      && (forall n :: n in old(nodes) ==> n.hi == old(n.hi) + (if old(n.hi) >= k + 1 - d then 1 else 0))
    }

    twostate lemma AttachedNode(p: Node, new d: Dir, new x: Node, new m: Node, new e: Dir)
      requires old(Shape()) && Attached(p, d, x) && m in nodes
      ensures Placed(m) && ParentOk(m) && LinkOk(m, e)
    {
      assert old(LinkOk(p, d)) && old(Placed(p));
      if m != x {
        assert old(Placed(m)) && old(ParentOk(m)) && old(LinkOk(m, e));
      }
    }

    twostate lemma AttachedShape(p: Node, new d: Dir, new x: Node)
      requires old(Shape()) && Attached(p, d, x)
      ensures Shape()
    {
      assert old(LinkOk(p, d)) && old(Placed(p));
      assert x in nodes;
      forall m, e: Dir | m in nodes ensures LinkOk(m, e) {
        AttachedNode(p, d, x, m, e);
      }
      forall m | m in nodes ensures Placed(m) && ParentOk(m) {
        AttachedNode(p, d, x, m, 0);
      }
      assert old(RootOk());
    }

    twostate lemma AttachedColors(p: Node, new d: Dir, new x: Node)
      requires old(Shape()) && Attached(p, d, x) && old(Balanced())
      requires x.color == Red && x.bh == 0
      requires forall m :: m in old(nodes) ==> m.color == old(m.color) && m.bh == old(m.bh)
      ensures HeightsBut(null) && RedsBut(x)
    {
      forall m | m in nodes ensures HeightOk(m) {
        if m != x { assert old(HeightOk(m)) && old(LinkOk(m, 0)) && old(LinkOk(m, 1)); }
      }
      forall m | m in nodes && m != x ensures RedOk(m) {
        assert old(RedOk(m)) && old(ParentOk(m));
      }
    }

    method Attach(p: Node, d: Dir, x: Node)
      requires Balanced() && p in nodes && p.Child(d) == null
      requires x !in nodes && x.parent == p && x.left == null && x.right == null && x.color == Red
      modifies this`order, this`nodes, nodes`pos, nodes`lo, nodes`hi, p`left, p`right, x`pos, x`lo, x`hi, x`bh
      ensures Shape() && HeightsBut(null) && RedsBut(x) && root == old(root) && nodes == old(nodes) + {x}
      ensures var k := old(p.SubLo(d)); 0 <= k <= |old(order)| && order == old(order)[..k] + [x] + old(order)[k..]
    {
      assert LinkOk(p, d) && Placed(p);
      ghost var k := p.SubLo(d);
      p.SetChild(d, x);
      Enlist(k, d, x);
      AttachedShape(p, d, x);
      AttachedColors(p, d, x);
    }

    // ---- detaching a node that has at most one child

    twostate predicate Detached(x: Node, new c: Node?, new p: Node?)
      reads this, nodes, c, p
    {
      var k := old(x.pos);
      && x in old(nodes) && nodes == old(nodes) - {x}
      && (old(x.left) == null || old(x.right) == null)
      && c == (if old(x.left) == null then old(x.right) else old(x.left)) && p == old(x.parent)
      && 0 <= k < old(|order|) && order == old(order)[..k] + old(order)[k + 1..]
      && root == (if p == null then c else old(root))
      && (forall m :: m in nodes && m != c ==> m.parent == old(m.parent))
      && (c != null ==> c.parent == p)
      && (forall m :: m in nodes ==> m.left == (if old(m.left) == x then c else old(m.left)))
      && (forall m :: m in nodes ==> m.right == (if old(m.right) == x then c else old(m.right)))
      && (forall n :: n in nodes ==> n.pos == old(n.pos) - (if old(n.pos) > k then 1 else 0))
      && (forall n :: n in nodes ==> n.lo == old(n.lo) - (if old(n.lo) > k then 1 else 0))
      && (forall n :: n in nodes ==> n.hi == old(n.hi) - (if old(n.hi) > k then 1 else 0))
    }

    twostate lemma DetachedLink(x: Node, new c: Node?, new p: Node?, new m: Node, new e: Dir)
      requires old(Shape()) && Detached(x, c, p) && m in nodes
      ensures LinkOk(m, e)
    {
      assert old(LinkOk(x, 0)) && old(LinkOk(x, 1)) && old(Placed(x)) && old(ParentOk(x));
      assert old(Placed(m)) && old(LinkOk(m, e));
    }

    twostate lemma DetachedParent(x: Node, new c: Node?, new p: Node?, new m: Node)
      requires old(Shape()) && Detached(x, c, p) && m in nodes
      ensures Placed(m) && ParentOk(m)
    {
      assert old(LinkOk(x, 0)) && old(LinkOk(x, 1)) && old(Placed(x)) && old(ParentOk(x));
      assert old(Placed(m)) && old(ParentOk(m));
    }

    twostate lemma DetachedShape(x: Node, new c: Node?, new p: Node?)
      requires old(Shape()) && Detached(x, c, p)
      ensures Shape()
    {
      forall m, e: Dir | m in nodes ensures LinkOk(m, e) {
        DetachedLink(x, c, p, m, e);
      }
      forall m | m in nodes ensures Placed(m) && ParentOk(m) {
        DetachedParent(x, c, p, m);
      }
      assert old(LinkOk(x, 0)) && old(LinkOk(x, 1)) && old(Placed(x)) && old(ParentOk(x));
      assert old(RootOk());
    }

    /** In a balanced tree a node with at most one child is a red leaf, a black leaf or a black node over a red leaf. */
    ghost predicate AtMostOneChild(x: Node, c: Node?)
      reads `nodes, `root, `order, nodes`left, nodes`right, nodes`parent, nodes`pos, nodes`lo, nodes`hi, nodes`color, nodes`bh
      requires Balanced() && x in nodes && (x.left == null || x.right == null)
      requires c == if x.left == null then x.right else x.left
      ensures AtMostOneChild(x, c)
      ensures c != null ==> c in nodes && c != x && c.parent == x && c.bh == 0 && c.color == Red && x.color == Black
      ensures x.bh == Unit(x.color)
      ensures x.parent != null ==> x.parent in nodes && x.parent != x && x.parent != c
    {
      assert LinkOk(x, 0) && LinkOk(x, 1) && HeightOk(x) && Placed(x) && ParentOk(x);
      assert c != null ==> HeightOk(c) && RedOk(c) && Placed(c);
      assert x.parent != null ==> LinkOk(x.parent, 0) && LinkOk(x.parent, 1) && Placed(x.parent);
      true
    }

    /** Heights and colors once `x` is gone; `c` has been blackened if it is there. */
    twostate lemma DetachedColors(x: Node, new c: Node?, new p: Node?)
      requires old(allocated(c)) && old(allocated(p))
      requires old(Balanced()) && Detached(x, c, p)
      requires forall m :: m in nodes && m != c ==> m.color == old(m.color) && m.bh == old(m.bh)
      requires c != null ==> c.color == Black && c.bh == 1
      ensures HeightsBut(if old(x.color) == Black && c == null then p else null) && RedsBut(null) && RootBlack()
      ensures old(x.color) == Black && c == null && p != null ==> p in nodes && Defect(p, if old(p.right) == x then 1 else 0)
    {
      assert old(AtMostOneChild(x, c));
      assert old(LinkOk(x, 0)) && old(LinkOk(x, 1)) && old(Placed(x)) && old(ParentOk(x));
      forall m | m in nodes && (old(x.color) == Red || c != null || m != p) ensures HeightOk(m) {
        assert old(HeightOk(m)) && old(LinkOk(m, 0)) && old(LinkOk(m, 1));
      }
      forall m | m in nodes ensures RedOk(m) {
        assert old(RedOk(m)) && old(ParentOk(m));
      }
      assert old(RootOk());
      if p != null {
        assert old(HeightOk(p)) && old(LinkOk(p, 0)) && old(LinkOk(p, 1)) && old(Placed(p));
      }
    }

    ghost method CloseGap(k: int)
      modifies nodes`pos, nodes`lo, nodes`hi
      ensures forall n :: n in nodes ==> n.pos == old(n.pos) - (if old(n.pos) > k then 1 else 0)
      ensures forall n :: n in nodes ==> n.lo == old(n.lo) - (if old(n.lo) > k then 1 else 0)
      ensures forall n :: n in nodes ==> n.hi == old(n.hi) - (if old(n.hi) > k then 1 else 0)
    {
      forall n | n in nodes { n.pos := n.pos - (if n.pos > k then 1 else 0); }
      forall n | n in nodes { n.lo := n.lo - (if n.lo > k then 1 else 0); }
      forall n | n in nodes { n.hi := n.hi - (if n.hi > k then 1 else 0); }
    }

    /** Put the only child of `x`, if any, in its place. */
    method Bypass(x: Node) returns (c: Node?, dir: Dir)
      requires Balanced() && x in nodes && (x.left == null || x.right == null)
      modifies this`root, Opt(x.parent)`left, Opt(x.parent)`right, Opt(OnlyChild(x))`parent
      ensures c == OnlyChild(x) && root == if x.parent == null then c else old(root)
      ensures old(x.parent) != null ==> dir == if old(x.parent.right) == x then 1 else 0
      ensures old(x.parent) != null ==> old(x.parent).Child(dir) == c && old(x.parent).Child(1 - dir) == old(x.parent.Child(1 - dir)) != x
      ensures c != null ==> c.parent == x.parent
    {
      c := OnlyChild(x);
      assert AtMostOneChild(x, c);
      assert Placed(x) && ParentOk(x);
      dir := 0;
      if x.parent == null {
        root := c;
      } else {
        assert LinkOk(x.parent, 0) && LinkOk(x.parent, 1);
        dir := if x == x.parent.right then 1 else 0;
        x.parent.SetChild(dir, c);
      }
      if c != null {
        c.parent := x.parent;
      }
    }

    method Detach(x: Node) returns (c: Node?, dir: Dir)
      requires Balanced() && x in nodes && (x.left == null || x.right == null)
      modifies this`root, this`order, this`nodes, nodes`pos, nodes`lo, nodes`hi
      modifies Opt(x.parent)`left, Opt(x.parent)`right, Opt(OnlyChild(x))`parent
      ensures Detached(x, c, old(x.parent))
      ensures old(x.parent) != null ==> dir == if old(x.parent.right) == x then 1 else 0
    {
      assert AtMostOneChild(x, OnlyChild(x));
      assert Placed(x) && ParentOk(x);
      ghost var k, p := x.pos, x.parent;
      forall m | m in nodes && m != p ensures m.left != x && m.right != x {
        assert LinkOk(m, 0) && LinkOk(m, 1);
      }
      c, dir := Bypass(x);
      CloseGap(k);
      order := order[..k] + order[k + 1..];
      nodes := nodes - {x};
    }

    // ---- contents

    /** Keys and values in key order. */
    ghost function Entries(): (s: seq<Entry>)
      reads this, order
      ensures |s| == |order|
      ensures forall i :: 0 <= i < |s| ==> s[i] == Entry(order[i].key, order[i].value)
    {
      seq(|order|, i requires 0 <= i < |order| reads this, order => Entry(order[i].key, order[i].value))
    }

    ghost predicate Valid()
      reads this, nodes, order
    {
      Balanced() && Increasing(Entries())
    }

    /** The key/value map that the tree stands for. */
    ghost function Contents(): map<int, int>
      reads this, nodes, order
      requires Valid()
    {
      ToMap(Entries())
    }

    method Successor(x: Node) returns (y: Node)
      requires Shape() && x in nodes && x.right != null
      ensures y in nodes && y.left == null && y != x
      ensures 0 <= x.pos && x.pos + 1 < |order| && y == order[x.pos + 1]
    {
      assert LinkOk(x, 1) && Placed(x);
      y := x.right;
      assert Placed(y) && LinkOk(y, 0);
      while y.left != null
        invariant y in nodes && y.lo == x.pos + 1 && Placed(y) && LinkOk(y, 0)
        decreases y.hi - y.lo
      {
        y := y.left;
        assert Placed(y) && LinkOk(y, 0);
      }
    }

    /** Take out a node that has at most one child; `settled` says that no black node went missing. */
    method TakeOut(y: Node) returns (settled: bool, dir: Dir)
      requires Balanced() && y in nodes && (y.left == null || y.right == null)
      modifies this, nodes`pos, nodes`lo, nodes`hi, nodes`left, nodes`right, nodes`parent, nodes`color, nodes`bh
      ensures nodes == old(nodes) - {y} && 0 <= old(y.pos) < old(|order|)
      ensures order == old(order)[..old(y.pos)] + old(order)[old(y.pos) + 1..]
      ensures y.parent == old(y.parent)
      ensures if settled || y.parent == null then Balanced() else Unbalanced(y.parent, dir)
    {
      ghost var p := y.parent;
      assert AtMostOneChild(y, OnlyChild(y));
      var c;
      c, dir := Detach(y);
      DetachedShape(y, c, p);
      settled := (y.color == Red) != IsRed(c);
      if settled && y.color == Black {
        Blacken(c);
      }
      DetachedColors(y, c, p);
    }

    /** Take out a node that has at most one child and restore the balance. */
    method RemoveNode(y: Node)
      requires Balanced() && y in nodes && (y.left == null || y.right == null)
      modifies this, nodes`pos, nodes`lo, nodes`hi, nodes`left, nodes`right, nodes`parent, nodes`color, nodes`bh
      ensures Balanced() && nodes == old(nodes) - {y}
      ensures 0 <= old(y.pos) < old(|order|)
      ensures order == old(order)[..old(y.pos)] + old(order)[old(y.pos) + 1..]
    {
      var settled, dir := TakeOut(y);
      if !settled {
        DeleteFixup(y.parent, dir);
      }
    }

    /** Without the entry at `k`, the listing denotes the same map minus that key. */
    ghost predicate ListingWithout(before: seq<Entry>, k: int)
      requires 0 <= k < |before| && Increasing(before)
      ensures ListingWithout(before, k)
      ensures Increasing(before[..k] + before[k + 1..])
      ensures ToMap(before[..k] + before[k + 1..]) == ToMap(before) - {before[k].key}
    {
      var a, e, b := before[..k], before[k], before[k + 1..];
      assert before == a + [e] + b;
      IncreasingPieces(a, e, b);
      ToMapMiddle(a, e, b);
      true
    }

    /** One entry of the listing after a deletion, found in the listing before it. */
    twostate lemma EntryWithout(x: Node, new y: Node, new i: int)
      requires old(allocated(y)) && old(Shape()) && x in old(nodes) && y in old(nodes)
      requires y == x || (0 <= old(x.pos) && old(x.pos) + 1 < old(|order|) && y == old(order)[old(x.pos) + 1])
      requires forall m :: m in old(nodes) && m != x ==> m.key == old(m.key) && m.value == old(m.value)
      requires x.key == old(y.key) && x.value == old(y.value)
      requires 0 <= i < |order| && |order| == old(|order|) - 1
      requires order[i] == old(order)[if i < old(y.pos) then i else i + 1]
      ensures 0 <= old(x.pos) < old(|order|)
      ensures Entries()[i] == old(Entries())[if i < old(x.pos) then i else i + 1]
    {
      assert old(Placed(x)) && old(Placed(y));
      var n := order[i];
      assert old(order[i].pos == i) && old(order[i + 1].pos == i + 1);
    }

    twostate lemma EntriesWithout(x: Node, new y: Node)
      requires old(allocated(y)) && old(Shape()) && x in old(nodes) && y in old(nodes)
      requires y == x || (0 <= old(x.pos) && old(x.pos) + 1 < old(|order|) && y == old(order)[old(x.pos) + 1])
      requires 0 <= old(y.pos) < old(|order|)
      requires order == old(order)[..old(y.pos)] + old(order)[old(y.pos) + 1..]
      requires forall m :: m in old(nodes) && m != x ==> m.key == old(m.key) && m.value == old(m.value)
      requires x.key == old(y.key) && x.value == old(y.value)
      ensures 0 <= old(x.pos) < old(|order|)
      ensures Entries() == old(Entries())[..old(x.pos)] + old(Entries())[old(x.pos) + 1..]
    {
      assert old(Placed(x));
      forall i | 0 <= i < |order| ensures Entries()[i] == old(Entries())[if i < old(x.pos) then i else i + 1] {
        EntryWithout(x, y, i);
      }
    }

    /** The node a deletion gives back to the heap: not `x` but its successor when `x` has two children. */
    ghost function Freed(x: Node): Node
      reads `nodes, `root, `order, nodes`left, nodes`right, nodes`parent, nodes`pos, nodes`lo, nodes`hi
      requires Shape() && x in nodes
    {
      assert Placed(x) && LinkOk(x, 1);
      if x.left != null && x.right != null then assert Placed(x.right); order[x.pos + 1] else x
    }

    method TakeOver(x: Node, y: Node)
      modifies x`key, x`value
      ensures x.key == old(y.key) && x.value == old(y.value)
    {
      x.key := y.key;
      x.value := y.value;
    }

    /** The node to unlink: `x`, or its successor after `x` has taken over what it held. */
    method Victim(x: Node) returns (y: Node)
      requires Balanced() && x in nodes
      modifies x`key, x`value
      ensures y == Freed(x) && y in nodes && (y.left == null || y.right == null)
      ensures x.key == old(y.key) && x.value == old(y.value)
      ensures y == x || (0 <= x.pos && x.pos + 1 < |order| && y == order[x.pos + 1])
    {
      assert Placed(x);
      y := x;
      if x.left != null && x.right != null {
        y := Successor(x);
        TakeOver(x, y);
      }
    }

    /** The structural part of a deletion: the place of `x` goes, whichever node is freed. */
    method RemovePlace(x: Node)
      requires Balanced() && x in nodes
      modifies this, nodes
      ensures Balanced() && nodes == old(nodes) - {old(Freed(x))}
      ensures 0 <= old(x.pos) < old(|order|)
      ensures Entries() == old(Entries())[..old(x.pos)] + old(Entries())[old(x.pos) + 1..]
    {
      var y := Victim(x);
      RemoveNode(y);
      EntriesWithout(x, y);
    }

    /** rbt_delete: the map loses exactly the key of `x`. */
    method Delete(x: Node?)
      requires Valid() && (x != null ==> x in nodes)
      modifies this, nodes
      ensures Valid() && nodes == if x == null then old(nodes) else old(nodes) - {old(Freed(x))}
      ensures Contents() == if x == null then old(Contents()) else old(Contents()) - {old(x.key)}
    {
      if x != null {
        assert Placed(x);
        RemovePlace(x);
        assert ListingWithout(old(Entries()), old(x.pos));
      }
    }

    // ---- insertion

    /** With an entry put at `k`, the listing denotes the same map plus that entry. */
    ghost predicate ListingWith(before: seq<Entry>, k: int, e: Entry)
      requires 0 <= k <= |before| && Increasing(before)
      requires forall i :: 0 <= i < k ==> before[i].key < e.key
      requires forall i :: k <= i < |before| ==> e.key < before[i].key
      ensures ListingWith(before, k, e) && e.key !in ToMap(before)
      ensures Increasing(before[..k] + [e] + before[k..])
      ensures ToMap(before[..k] + [e] + before[k..]) == ToMap(before)[e.key := e.value]
    {
      var a, b := before[..k], before[k..];
      assert before == a + b;
      IncreasingMiddle(a, e, b);
      ToMapMiddle(a, e, b);
      true
    }

    /** The interval `[lo, hi)` holds every key that can equal `key`. */
    ghost predicate Bracketed(key: int, lo: int, hi: int)
      reads this, order
    {
      && 0 <= lo <= hi <= |order|
      && (forall i :: 0 <= i < lo ==> order[i].key < key)
      && (forall i :: hi <= i < |order| ==> key < order[i].key)
    }

    /** Walk down to the node that holds `key`, or to the place where it would hang. */
    method Descend(key: int) returns (found: Node?, p: Node?, d: Dir)
      requires Valid() && root != null
      ensures found != null ==> found in nodes && found.key == key
      ensures found == null ==> p != null && p in nodes && p.Child(d) == null && Bracketed(key, p.SubLo(d), p.SubHi(d))
    {
      p, d := null, 0;
      var cur := root;
      assert RootOk() && Placed(root);
      while cur != null
        invariant cur != null ==> cur in nodes && Placed(cur) && Bracketed(key, cur.lo, cur.hi)
        invariant cur == null ==> p != null && p in nodes && p.Child(d) == null && Bracketed(key, p.SubLo(d), p.SubHi(d))
        decreases if cur == null then 0 else 1 + cur.hi - cur.lo
      {
        p := cur;
        if cur.key == key {
          return cur, p, d;
        }
        d := if key > cur.key then 1 else 0;
        Narrow(cur, key, d);
        assert LinkOk(cur, d);
        cur := cur.Child(d);
        assert cur != null ==> Placed(cur);
      }
      found := null;
    }

    lemma Narrow(n: Node, key: int, d: Dir)
      requires Valid() && n in nodes && Bracketed(key, n.lo, n.hi) && n.key != key && d == if key > n.key then 1 else 0
      ensures Bracketed(key, n.SubLo(d), n.SubHi(d))
    {
      assert Placed(n);
      var s := Entries();
      assert s[n.pos].key == n.key;
      forall i | 0 <= i < |order| ensures (i < n.pos ==> order[i].key < n.key) && (i > n.pos ==> n.key < order[i].key) {
        assert s[i].key == order[i].key;
      }
    }

    /** The first node of an empty tree. */
    method PlantRoot(x: Node)
      requires Valid() && root == null && x.parent == null && x.left == null && x.right == null
      modifies this, x`color, x`pos, x`lo, x`hi, x`bh
      ensures Valid() && nodes == {x} && order == [x] && Entries() == [Entry(x.key, x.value)]
    {
      root := x;
      x.color := Black;
      x.pos, x.lo, x.hi, x.bh := 0, 0, 1, 1;
      order, nodes := [x], {x};
      assert Placed(x) && LinkOk(x, 0) && LinkOk(x, 1) && ParentOk(x) && HeightOk(x) && RedOk(x);
    }

    twostate lemma EntriesWith(new k: int, new x: Node)
      requires 0 <= k <= old(|order|)
      requires order == old(order)[..k] + [x] + old(order)[k..]
      requires forall i :: 0 <= i < old(|order|) ==> old(order)[i].key == old(order[i].key) && old(order)[i].value == old(order[i].value)
      ensures Entries() == old(Entries())[..k] + [Entry(x.key, x.value)] + old(Entries())[k..]
    {
      var before := old(Entries());
      forall i | 0 <= i < |order| && i != k ensures Entries()[i] == before[if i < k then i else i - 1] {
        assert order[i] == old(order)[if i < k then i else i - 1];
      }
    }

    /** Hang `x` under `p` and restore the balance. */
    method HangNode(p: Node, d: Dir, x: Node)
      requires Balanced() && p in nodes && p.Child(d) == null
      requires x !in nodes && x.parent == p && x.left == null && x.right == null && x.color == Red
      modifies this, nodes`pos, nodes`lo, nodes`hi, nodes`left, nodes`right, nodes`parent, nodes`color, nodes`bh
      modifies x`pos, x`lo, x`hi, x`left, x`right, x`parent, x`color, x`bh
      ensures Balanced() && nodes == old(nodes) + {x}
      ensures var k := old(p.SubLo(d)); 0 <= k <= |old(order)| && order == old(order)[..k] + [x] + old(order)[k..]
    {
      assert RootOk() && ParentOk(p);
      Attach(p, d, x);
      InsertFixup(x);
    }

    method Hang(p: Node, d: Dir, x: Node)
      requires Valid() && p in nodes && p.Child(d) == null && Bracketed(x.key, p.SubLo(d), p.SubHi(d))
      requires x !in nodes && x.parent == p && x.left == null && x.right == null && x.color == Red
      modifies this, nodes`pos, nodes`lo, nodes`hi, nodes`left, nodes`right, nodes`parent, nodes`color, nodes`bh
      modifies x`pos, x`lo, x`hi, x`left, x`right, x`parent, x`color, x`bh
      ensures Valid() && nodes == old(nodes) + {x}
      ensures x.key !in old(Contents()) && Contents() == old(Contents())[x.key := x.value]
    {
      assert LinkOk(p, d);
      ghost var k := p.SubLo(d);
      HangNode(p, d, x);
      EntriesWith(k, x);
      assert ListingWith(old(Entries()), k, Entry(x.key, x.value));
    }

    lemma EntryOf(n: Node)
      requires Valid() && n in nodes
      ensures n.key in Contents() && Contents()[n.key] == n.value
    {
      assert Placed(n);
      ToMapAt(Entries(), n.pos);
    }

    lemma NoEntry(key: int, k: int)
      requires Valid() && Bracketed(key, k, k)
      ensures key !in Contents()
    {
      ToMapKeys(Entries(), key);
    }

    method InsertFirst(key: int) returns (n: Node)
      requires Valid() && root == null
      modifies this
      ensures Valid() && old(nodes) == {} && nodes == {n} && n.key == key && fresh(n)
      ensures key !in old(Contents()) && Contents() == old(Contents())[key := n.value]
    {
      assert RootOk();
      assert forall x :: x in nodes ==> Placed(x);
      n := new Node(null, key);
      assert Entries() == [];
      PlantRoot(n);
    }

    method InsertUnder(p: Node, d: Dir, key: int) returns (n: Node)
      requires Valid() && p in nodes && p.Child(d) == null && Bracketed(key, p.SubLo(d), p.SubHi(d))
      modifies this, nodes`pos, nodes`lo, nodes`hi, nodes`left, nodes`right, nodes`parent, nodes`color, nodes`bh
      ensures Valid() && nodes == old(nodes) + {n} && n.key == key && fresh(n)
      ensures key !in old(Contents()) && Contents() == old(Contents())[key := n.value]
    {
      n := new Node(p, key);
      Hang(p, d, n);
    }

    /** rbt_insert: a new node for a new key, the node there is for an old one. */
    method Insert(key: int) returns (n: Node)
      requires Valid()
      modifies this, nodes`pos, nodes`lo, nodes`hi, nodes`left, nodes`right, nodes`parent, nodes`color, nodes`bh
      ensures Valid() && nodes == old(nodes) + {n} && n.key == key
      ensures key in old(Contents()) ==> n in old(nodes) && Contents() == old(Contents())
      ensures key !in old(Contents()) ==> fresh(n) && Contents() == old(Contents())[key := n.value]
    {
      if root == null {
        n := InsertFirst(key);
        return;
      }
      var found, p, d := Descend(key);
      if found != null {
        EntryOf(found);
        return found;
      }
      n := InsertUnder(p, d, key);
    }

    method SetNodeValue(n: Node, value: int)
      requires Valid() && n in nodes
      modifies n`value
      ensures Valid() && Contents() == old(Contents())[n.key := value]
    {
      assert Placed(n);
      ghost var s := Entries();
      SetValue(s, n.pos, value);
      n.value := value;
      assert Entries() == s[n.pos := Entry(n.key, value)];
    }

    /** What every user of the tree does: insert, then set the value of the node that comes back. */
    method Put(key: int, value: int)
      requires Valid()
      modifies this, nodes
      ensures Valid() && Contents() == old(Contents())[key := value]
    {
      var n := Insert(key);
      SetNodeValue(n, value);
    }

    lemma SizeOf(n: Node)
      requires Balanced() && n in nodes
      ensures Pow2(n.bh) <= n.hi - n.lo + 1
      decreases n.hi - n.lo
    {
      assert Placed(n) && LinkOk(n, 0) && LinkOk(n, 1) && HeightOk(n);
      if n.left != null { SizeOf(n.left); }
      if n.right != null { SizeOf(n.right); }
    }

    /** How many nodes a path from `n` down can still visit. */
    ghost function Longest(n: Node?): int
      reads `nodes, nodes`bh, nodes`color
    {
      2 * BH(n) + if n != null && n in nodes && n.color == Red then 1 else 0
    }

    /** The longest path from a node visits at least that node. */
    lemma Visit(r: Node)
      requires Valid() && r in nodes
      ensures 1 <= Longest(r)
    {
      assert HeightOk(r);
    }

    /** From its child it is shorter by one, and the child stands for the part of the order on its side. */
    lemma Below(r: Node, d: Dir)
      requires Valid() && r in nodes && Placed(r)
      ensures var c := r.Child(d);
              && 1 + Longest(c) <= Longest(r) && r.lo <= r.SubLo(d) <= r.SubHi(d) <= r.hi && r.SubHi(d) - r.SubLo(d) < r.hi - r.lo
              && if c == null then r.SubLo(d) == r.SubHi(d) else c in nodes && Placed(c) && c.lo == r.SubLo(d) && c.hi == r.SubHi(d)
    {
      assert HeightOk(r) && LinkOk(r, d);
      var c := r.Child(d);
      assert c != null ==> Placed(c) && RedOk(c);
    }

    /** Where the search for `key` goes from `n`. */
    ghost function Onward(key: int, n: Node): Node?
      reads n
    {
      if key == n.key then n else if key > n.key then n.right else n.left
    }

    /** `path` is a way down from the root, each node the one where the search for `key` goes, and then it is at `r`. */
    ghost predicate Visited(key: int, path: seq<Node>, r: Node?)
      reads `root, path
    {
      && (if path == [] then r == root else path[0] == root && r == Onward(key, path[|path| - 1]))
      && forall i: nat | i + 1 < |path| :: path[i].key != key && path[i + 1] == Onward(key, path[i])
    }

    /** As `Visited`, and the key has not been seen yet. */
    ghost predicate Seeking(key: int, path: seq<Node>, r: Node?)
      reads `root, path
    {
      Visited(key, path, r) && (path != [] ==> path[|path| - 1].key != key)
    }

    lemma VisitedMore(key: int, path: seq<Node>, r: Node)
      requires Seeking(key, path, r)
      ensures Visited(key, path + [r], Onward(key, r)) && (r.key != key ==> Seeking(key, path + [r], Onward(key, r)))
    {
    }

    /** rbt_search, with the nodes it visits. */
    method Search(key: int) returns (r: Node?, ghost path: seq<Node>)
      requires Valid()
      ensures r == null <==> key !in Contents()
      ensures r != null ==> r in nodes && r.key == key && Contents()[key] == r.value
      ensures Visited(key, path, r) && (r != null ==> path != [])
      ensures |path| <= 2 * Log2(|Contents()| + 1)
    {
      path := [];
      r := root;
      assert RootOk();
      assert root != null ==> Placed(root);
      ghost var lo, hi := 0, |order|;
      while r != null
        invariant r != null ==> r in nodes && Placed(r) && r.lo == lo && r.hi == hi
        invariant Bracketed(key, lo, hi) && (r == null ==> lo == hi)
        invariant |path| + Longest(r) <= Longest(root)
        invariant Seeking(key, path, r)
        decreases if r == null then 0 else 1 + hi - lo
      {
        VisitedMore(key, path, r);
        path := path + [r];
        Visit(r);
        if r.key == key {
          EntryOf(r);
          SearchBound(|path|);
          return;
        }
        var d: Dir := if key > r.key then 1 else 0;
        Narrow(r, key, d);
        Below(r, d);
        lo, hi := r.SubLo(d), r.SubHi(d);
        r := r.Child(d);
      }
      NoEntry(key, lo);
      SearchBound(|path|);
    }

    lemma SearchBound(steps: nat)
      requires Valid() && steps <= Longest(root)
      ensures steps <= 2 * Log2(|Contents()| + 1)
    {
      ToMapSize(Entries());
      assert RootOk();
      if root != null {
        SizeOf(root);
        Log2Bound(root.bh, |order| + 1);
      }
    }

    /** rbt_minimum. */
    method Minimum() returns (r: Node?)
      requires Valid()
      ensures r == null <==> Contents() == map[]
      ensures r != null ==> r in nodes && r.key in Contents() && Contents()[r.key] == r.value
      ensures r != null ==> forall key :: key in Contents() ==> r.key <= key
    {
      assert RootOk();
      if root == null {
        assert Entries() == [];
        return null;
      }
      r := root;
      assert Placed(r) && LinkOk(r, 0);
      while r.left != null
        invariant r in nodes && r.lo == 0 && Placed(r) && LinkOk(r, 0)
        decreases r.hi
      {
        r := r.left;
        assert Placed(r) && LinkOk(r, 0);
      }
      EntryOf(r);
      ghost var s := Entries();
      assert s[0].key == r.key;
      forall key | key in Contents() ensures r.key <= key {
        ToMapKeys(s, key);
      }
    }

    /** rbt_delete_key. */
    method DeleteKey(key: int)
      requires Valid()
      modifies this, nodes
      ensures Valid() && nodes <= old(nodes)
      ensures Contents() == old(Contents()) - {key}
    {
      var n, _ := Search(key);
      Delete(n);
    }

    // ---- the pointers against the values

    /** The tree the pointers below `n` spell out. */
    ghost function Abs(n: Node?): Rb
      reads this, nodes
      requires Shape() && (n != null ==> n in nodes)
      decreases if n == null then 0 else 1 + n.hi - n.lo
    {
      if n == null then Leaf else
        assert Placed(n) && LinkOk(n, 0) && LinkOk(n, 1);
        Bin(n.color, Abs(n.left), Entry(n.key, n.value), Abs(n.right))
    }

    lemma {:induction false} AbsInOrder(n: Node)
      requires Shape() && n in nodes
      ensures 0 <= n.lo <= n.hi <= |order| && InOrder(Abs(n)) == Entries()[n.lo..n.hi]
      decreases n.hi - n.lo
    {
      assert Placed(n) && LinkOk(n, 0) && LinkOk(n, 1);
      if n.left != null { AbsInOrder(n.left); }
      if n.right != null { AbsInOrder(n.right); }
      SliceJoin(Entries(), n.lo, n.pos, n.hi);
    }

    lemma {:induction false} AbsColors(n: Node)
      requires Balanced() && n in nodes
      ensures BlackHeight(Abs(n), n.bh) && NoRedRed(Abs(n))
      decreases n.hi - n.lo
    {
      assert Placed(n) && LinkOk(n, 0) && LinkOk(n, 1) && HeightOk(n);
      if n.left != null { AbsColors(n.left); assert RedOk(n.left); }
      if n.right != null { AbsColors(n.right); assert RedOk(n.right); }
    }

    lemma AbsListing()
      requires Shape()
      ensures root != null ==> root in nodes
      ensures InOrder(Abs(root)) == Entries()
    {
      assert RootOk();
      if root != null {
        AbsInOrder(root);
      }
    }

    lemma AbsBalanced()
      requires Balanced()
      ensures root != null ==> root in nodes
      ensures !RootRed(Abs(root)) && NoRedRed(Abs(root)) && BlackHeight(Abs(root), BH(root))
    {
      assert RootOk();
      if root != null {
        AbsColors(root);
      }
    }

    /** A valid heap structure spells out a red-black tree that denotes `Contents()`. */
    lemma ValidIsRedBlack()
      requires Valid()
      ensures root != null ==> root in nodes
      ensures IsRedBlack(Abs(root)) && ToMap(InOrder(Abs(root))) == Contents()
    {
      AbsListing();
      AbsBalanced();
    }
  }
}
