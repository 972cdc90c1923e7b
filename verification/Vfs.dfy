/**
 The mount tree: nodes in memory, found by address, with arrays of children
 that move when they grow.  `path` gives every node the components that lead to
 it and `at` is its inverse, so that a path names at most one node.
 */
module Vfs {
  import opened VfsPath

  const GROWTH: nat := 5
  const DIRECTORY: nat := 1

  /** A device of 0 is none; a parent of 0 is none. */
  datatype Node = Node(name: string, kind: nat, device: nat, depth: nat, parent: nat, children: seq<nat>, room: nat)

  type Nodes = map<nat, Node>
  type Path = seq<string>

  // ---------------------------------------------------------------- shape

  /** The i-th child of `a` hangs below it under its own name. */
  predicate ChildOk(nodes: Nodes, path: map<nat, Path>, a: nat, i: nat)
    requires a in nodes && a in path && i < |nodes[a].children|
  {
    var c := nodes[a].children[i];
    && c in nodes && c in path && nodes[c].parent == a
    && IsName(nodes[c].name) && path[c] == path[a] + [nodes[c].name]
  }

  predicate Distinct(s: seq<nat>) { forall i, j | 0 <= i < j < |s| :: s[i] != s[j] }

  predicate NodeOk(nodes: Nodes, path: map<nat, Path>, at: map<Path, nat>, root: nat, a: nat)
    requires a in nodes
  {
    && a > 0 && a in path && path[a] in at && at[path[a]] == a
    && nodes[a].depth == |path[a]| && |nodes[a].children| < nodes[a].room
    && (forall i: nat {:trigger ChildOk(nodes, path, a, i)} | i < |nodes[a].children| :: ChildOk(nodes, path, a, i))
    && Distinct(nodes[a].children)
    && (a != root ==> nodes[a].parent in nodes && a in nodes[nodes[a].parent].children)
  }

  ghost predicate Tree(nodes: Nodes, path: map<nat, Path>, at: map<Path, nat>, root: nat)
  {
    && root in nodes && root in path && path[root] == [] && nodes[root].device != 0 && nodes[root].parent == 0
    && (forall a {:trigger NodeOk(nodes, path, at, root, a)} | a in nodes :: NodeOk(nodes, path, at, root, a))
    && (forall p {:trigger at[p]} | p in at :: at[p] in nodes && at[p] in path && path[at[p]] == p)
    && path.Keys == nodes.Keys
  }

  /** The child of `a` called `name` is the node at that path. */
  lemma ChildAt(nodes: Nodes, path: map<nat, Path>, at: map<Path, nat>, root: nat, a: nat, i: nat)
    requires Tree(nodes, path, at, root) && a in nodes && i < |nodes[a].children|
    ensures var c := nodes[a].children[i];
            c in nodes && a in path && path[a] + [nodes[c].name] in at && at[path[a] + [nodes[c].name]] == c
  {
    assert NodeOk(nodes, path, at, root, a);
    assert ChildOk(nodes, path, a, i);
    assert NodeOk(nodes, path, at, root, nodes[a].children[i]);
  }

  /** A node below `a` is one of its children. */
  lemma AtIsChild(nodes: Nodes, path: map<nat, Path>, at: map<Path, nat>, root: nat, a: nat, name: string)
    requires Tree(nodes, path, at, root) && a in nodes && a in path && path[a] + [name] in at
    ensures exists i: nat :: i < |nodes[a].children| && nodes[a].children[i] == at[path[a] + [name]]
    ensures nodes[at[path[a] + [name]]].name == name
  {
    var p := path[a] + [name];
    var c := at[p];
    assert NodeOk(nodes, path, at, root, a);
    assert NodeOk(nodes, path, at, root, c);
    var b := nodes[c].parent;
    assert c != root;
    assert NodeOk(nodes, path, at, root, b);
    var i: nat :| i < |nodes[b].children| && nodes[b].children[i] == c;
    assert ChildOk(nodes, path, b, i);
    assert path[c][..|path[c]| - 1] == path[b];
    assert p[..|p| - 1] == path[a];
    assert a == b;
    assert path[c][|path[c]| - 1] == nodes[c].name;
  }

  /** Every prefix of a node's path is the path of a node. */
  lemma {:induction false} PrefixClosed(nodes: Nodes, path: map<nat, Path>, at: map<Path, nat>, root: nat, p: Path, k: nat)
    requires Tree(nodes, path, at, root) && p in at && k <= |p|
    ensures p[..k] in at
    decreases |p|
  {
    if k == |p| {
      assert p[..k] == p;
    } else {
      var c := at[p];
      assert NodeOk(nodes, path, at, root, c);
      assert c != root;
      var b := nodes[c].parent;
      assert NodeOk(nodes, path, at, root, b);
      var i: nat :| i < |nodes[b].children| && nodes[b].children[i] == c;
      assert ChildOk(nodes, path, b, i);
      assert path[b] == p[..|p| - 1];
      PrefixClosed(nodes, path, at, root, path[b], k);
      assert path[b][..k] == p[..k];
    }
  }

  // ---------------------------------------------------------------- what a change keeps

  predicate SameAt(nodes: Nodes, at: map<Path, nat>, nodes': Nodes, at': map<Path, nat>, p: Path)
  {
    && (p in at ==> at[p] in nodes && p in at' && at'[p] in nodes')
    && (p in at ==> nodes'[at'[p]].device == nodes[at[p]].device && nodes'[at'[p]].kind == nodes[at[p]].kind)
    && (p in at' && p !in at ==> at'[p] in nodes' && nodes'[at'[p]].device == 0)
  }

  /** Every node keeps its device and kind; new nodes have no device. */
  ghost predicate SameView(nodes: Nodes, at: map<Path, nat>, nodes': Nodes, at': map<Path, nat>)
  {
    forall p: Path {:trigger SameAt(nodes, at, nodes', at', p)} :: SameAt(nodes, at, nodes', at', p)
  }

  lemma SameReflexive(nodes: Nodes, path: map<nat, Path>, at: map<Path, nat>, root: nat)
    requires Tree(nodes, path, at, root)
    ensures SameView(nodes, at, nodes, at)
  {
  }

  lemma SameTransitive(n0: Nodes, a0: map<Path, nat>, n1: Nodes, a1: map<Path, nat>, n2: Nodes, a2: map<Path, nat>)
    requires SameView(n0, a0, n1, a1) && SameView(n1, a1, n2, a2)
    ensures SameView(n0, a0, n2, a2)
  {
    forall p: Path
      ensures SameAt(n0, a0, n2, a2, p)
    {
      assert SameAt(n0, a0, n1, a1, p);
      assert SameAt(n1, a1, n2, a2, p);
    }
  }

  function Tagged(nodes: Nodes, a: nat, kind: nat, device: nat, room: nat): Nodes
    requires a in nodes
  {
    nodes[a := nodes[a].(kind := kind, device := device, room := room)]
  }

  /** Kind, device and room of a node do not matter to the tree, save that the root has a device and the children fit. */
  lemma Retag(nodes: Nodes, path: map<nat, Path>, at: map<Path, nat>, root: nat, a: nat, kind: nat, device: nat, room: nat)
    requires Tree(nodes, path, at, root) && a in nodes && (a == root ==> device != 0) && |nodes[a].children| < room
    ensures Tree(Tagged(nodes, a, kind, device, room), path, at, root)
    ensures kind == nodes[a].kind && device == nodes[a].device ==> SameView(nodes, at, Tagged(nodes, a, kind, device, room), at)
  {
    var nodes' := Tagged(nodes, a, kind, device, room);
    forall x | x in nodes'
      ensures NodeOk(nodes', path, at, root, x)
    {
      assert NodeOk(nodes, path, at, root, x);
      forall i: nat | i < |nodes'[x].children|
        ensures ChildOk(nodes', path, x, i)
      {
        assert ChildOk(nodes, path, x, i);
      }
    }
  }

  // ---------------------------------------------------------------- a new child

  function Added(nodes: Nodes, a: nat, n: nat, name: string): Nodes
    requires a in nodes
  {
    nodes[n := Node(name, DIRECTORY, 0, nodes[a].depth + 1, a, [], GROWTH)]
         [a := nodes[a].(children := nodes[a].children + [n])]
  }

  lemma AddTree(nodes: Nodes, path: map<nat, Path>, at: map<Path, nat>, root: nat, a: nat, n: nat, name: string)
    requires Tree(nodes, path, at, root) && a in nodes && a in path && n > 0 && n !in nodes && IsName(name)
    requires path[a] + [name] !in at && |nodes[a].children| + 1 < nodes[a].room
    ensures Tree(Added(nodes, a, n, name), path[n := path[a] + [name]], at[path[a] + [name] := n], root)
    ensures SameView(nodes, at, Added(nodes, a, n, name), at[path[a] + [name] := n])
  {
    var p := path[a] + [name];
    var nodes', path', at' := Added(nodes, a, n, name), path[n := p], at[p := n];
    forall x | x in nodes'
      ensures NodeOk(nodes', path', at', root, x)
    {
      AddNode(nodes, path, at, root, a, n, name, x);
    }
    forall q: Path
      ensures SameAt(nodes, at, nodes', at', q)
    {
      if q in at { assert at[q] != n; }
    }
    assert NodeOk(nodes, path, at, root, root);
  }

  lemma AddNode(nodes: Nodes, path: map<nat, Path>, at: map<Path, nat>, root: nat, a: nat, n: nat, name: string, x: nat)
    requires Tree(nodes, path, at, root) && a in nodes && a in path && n > 0 && n !in nodes && IsName(name)
    requires path[a] + [name] !in at && (x == n || x in nodes) && |nodes[a].children| + 1 < nodes[a].room
    ensures NodeOk(Added(nodes, a, n, name), path[n := path[a] + [name]], at[path[a] + [name] := n], root, x)
  {
    var nodes', path' := Added(nodes, a, n, name), path[n := path[a] + [name]];
    assert NodeOk(nodes, path, at, root, a);
    NewAddress(nodes, path, at, root, a, n);
    if x == n {
      assert nodes'[a].children[|nodes[a].children|] == n;
    } else {
      assert NodeOk(nodes, path, at, root, x);
      forall i: nat | i < |nodes'[x].children|
        ensures ChildOk(nodes', path', x, i)
      {
        if i < |nodes[x].children| { assert ChildOk(nodes, path, x, i); }
      }
      if x != root {
        var b := nodes[x].parent;
        var i: nat :| i < |nodes[b].children| && nodes[b].children[i] == x;
        assert nodes'[b].children[i] == x;
      }
    }
  }

  lemma NewAddress(nodes: Nodes, path: map<nat, Path>, at: map<Path, nat>, root: nat, a: nat, n: nat)
    requires Tree(nodes, path, at, root) && a in nodes && n !in nodes
    ensures n !in nodes[a].children && Distinct(nodes[a].children + [n])
  {
    assert NodeOk(nodes, path, at, root, a);
    forall i: nat | i < |nodes[a].children|
      ensures nodes[a].children[i] != n
    {
      assert ChildOk(nodes, path, a, i);
    }
  }

  // ---------------------------------------------------------------- a child that moves

  /** Child `i` of `a` copied to `n`, its own children's parent links following it, and the original gone. */
  function Moved(nodes: Nodes, a: nat, i: nat, n: nat): Nodes
    requires a in nodes && i < |nodes[a].children| && nodes[a].children[i] in nodes
  {
    var c := nodes[a].children[i];
    map x: nat | x in (nodes.Keys - {c}) + {n} ::
      if x == n then nodes[c]
      else if x == a then nodes[a].(children := nodes[a].children[i := n])
      else if nodes[x].parent == c then nodes[x].(parent := n)
      else nodes[x]
  }

  function MovedPaths(path: map<nat, Path>, c: nat, n: nat): map<nat, Path>
    requires c in path
  {
    (path - {c})[n := path[c]]
  }

  lemma MoveTree(nodes: Nodes, path: map<nat, Path>, at: map<Path, nat>, root: nat, a: nat, i: nat, n: nat)
    requires Tree(nodes, path, at, root) && a in nodes && i < |nodes[a].children| && n > 0 && n !in nodes
    ensures nodes[a].children[i] in nodes && nodes[a].children[i] in path
    ensures var c: nat := nodes[a].children[i]; Tree(Moved(nodes, a, i, n), MovedPaths(path, c, n), at[path[c] := n], root)
  {
    var c: nat := nodes[a].children[i];
    assert NodeOk(nodes, path, at, root, a);
    assert ChildOk(nodes, path, a, i);
    assert NodeOk(nodes, path, at, root, c);
    var nodes', path', at' := Moved(nodes, a, i, n), MovedPaths(path, c, n), at[path[c] := n];
    forall x | x in nodes'
      ensures NodeOk(nodes', path', at', root, x)
    {
      MoveNode(nodes, path, at, root, a, i, n, x);
    }
    assert NodeOk(nodes, path, at, root, root);
    forall p | p in at'
      ensures at'[p] in nodes' && at'[p] in path' && path'[at'[p]] == p
    {
    }
  }

  lemma MoveNode(nodes: Nodes, path: map<nat, Path>, at: map<Path, nat>, root: nat, a: nat, i: nat, n: nat, x: nat)
    requires Tree(nodes, path, at, root) && a in nodes && i < |nodes[a].children| && n > 0 && n !in nodes
    requires nodes[a].children[i] in nodes && nodes[a].children[i] in path && x in Moved(nodes, a, i, n)
    ensures var c: nat := nodes[a].children[i]; NodeOk(Moved(nodes, a, i, n), MovedPaths(path, c, n), at[path[c] := n], root, x)
  {
    var c: nat := nodes[a].children[i];
    var nodes', path', at' := Moved(nodes, a, i, n), MovedPaths(path, c, n), at[path[c] := n];
    assert NodeOk(nodes, path, at, root, a);
    assert ChildOk(nodes, path, a, i);
    assert NodeOk(nodes, path, at, root, c);
    var y := if x == n then c else x;
    assert NodeOk(nodes, path, at, root, y);
    NewAddress(nodes, path, at, root, a, n);
    forall j: nat | j < |nodes'[x].children|
      ensures ChildOk(nodes', path', x, j)
    {
      assert ChildOk(nodes, path, y, j);
      var g := nodes[y].children[j];
      assert g == a ==> |path[a]| == |path[y]| + 1;
    }
    if x != root {
      var b := nodes[y].parent;
      var j: nat :| j < |nodes[b].children| && nodes[b].children[j] == y;
      assert NodeOk(nodes, path, at, root, b);
      assert ChildOk(nodes, path, b, j);
      var b' := if b == c then n else b;
      assert nodes'[b'].children[j] == x || (b == a && j == i);
    }
  }

  lemma MoveSame(nodes: Nodes, path: map<nat, Path>, at: map<Path, nat>, root: nat, a: nat, i: nat, n: nat)
    requires Tree(nodes, path, at, root) && a in nodes && i < |nodes[a].children| && n !in nodes
    requires nodes[a].children[i] in nodes && nodes[a].children[i] in path
    ensures SameView(nodes, at, Moved(nodes, a, i, n), at[path[nodes[a].children[i]] := n])
  {
    var c: nat := nodes[a].children[i];
    var nodes', at' := Moved(nodes, a, i, n), at[path[c] := n];
    assert NodeOk(nodes, path, at, root, c);
    forall q: Path
      ensures SameAt(nodes, at, nodes', at', q)
    {
      if q in at && q != path[c] { assert at[q] != c; }
    }
  }

  // ---------------------------------------------------------------- longest prefix

  predicate HasDevice(nodes: Nodes, at: map<Path, nat>, p: Path)
  {
    p in at && at[p] in nodes && nodes[at[p]].device != 0
  }

  /** The length of the longest prefix of `q`, up to `k` components, that is a mount point. */
  ghost function Deepest(nodes: Nodes, at: map<Path, nat>, q: Path, k: nat): (j: nat)
    requires k <= |q|
    ensures j <= k
    ensures forall i | j < i <= k :: !HasDevice(nodes, at, q[..i])
    ensures HasDevice(nodes, at, []) ==> HasDevice(nodes, at, q[..j])
  {
    if k == 0 || HasDevice(nodes, at, q[..k]) then k else Deepest(nodes, at, q, k - 1)
  }

  lemma {:induction false} DeepestIs(nodes: Nodes, at: map<Path, nat>, q: Path, k: nat, j: nat)
    requires j <= k <= |q| && HasDevice(nodes, at, q[..j]) && forall i | j < i <= k :: !HasDevice(nodes, at, q[..i])
    ensures Deepest(nodes, at, q, k) == j
  {
    if j < k { DeepestIs(nodes, at, q, k - 1, j); }
  }

  /** `device` is mounted at `p`; nothing else is mounted or unmounted. */
  ghost predicate MountedAt(nodes: Nodes, at: map<Path, nat>, nodes': Nodes, at': map<Path, nat>, p: Path)
  {
    && HasDevice(nodes', at', p)
    && forall q: Path {:trigger HasDevice(nodes', at', q)} | q != p :: HasDevice(nodes', at', q) <==> HasDevice(nodes, at, q)
  }

  /** A new mount changes the mount point of exactly the paths under it that have no deeper one. */
  lemma {:induction false} MountChanges(nodes: Nodes, at: map<Path, nat>, nodes': Nodes, at': map<Path, nat>, p: Path, q: Path, k: nat)
    requires MountedAt(nodes, at, nodes', at', p) && k <= |q|
    ensures Deepest(nodes', at', q, k) ==
            if |p| <= k && q[..|p|] == p && |p| >= Deepest(nodes, at, q, k) then |p| else Deepest(nodes, at, q, k)
  {
    assert k > 0 ==> (HasDevice(nodes', at', q[..k]) <==> q[..k] == p || HasDevice(nodes, at, q[..k]));
    if k > 0 { MountChanges(nodes, at, nodes', at', p, q, k - 1); }
  }

  // ---------------------------------------------------------------- the code

  /** No node lies at a longer prefix of `q` than `k` components. */
  ghost predicate NoneBeyond(at: map<Path, nat>, q: Path, k: nat)
  {
    forall i | k < i <= |q| :: q[..i] !in at
  }

  lemma StopsHere(nodes: Nodes, path: map<nat, Path>, at: map<Path, nat>, root: nat, q: Path, k: nat)
    requires Tree(nodes, path, at, root) && k <= |q| && (k < |q| ==> q[..k + 1] !in at)
    ensures NoneBeyond(at, q, k)
  {
    forall i | k < i <= |q|
      ensures q[..i] !in at
    {
      assert q[..i][..k + 1] == q[..k + 1];
      if q[..i] in at { PrefixClosed(nodes, path, at, root, q[..i], k + 1); assert false; }
    }
  }

  /** A search that has matched the first `k` components of `q`, `rest` being the text of the others. */
  ghost predicate Searching(nodes: Nodes, path: map<nat, Path>, at: map<Path, nat>, q: Path, rest: string, k: nat, s: nat, d: nat)
  {
    && k <= |q| && s in nodes && s in path && path[s] == q[..k]
    && Components(rest) == q[k..] && Clean(rest) && (rest != "" ==> rest[0] != '/')
    && d in nodes && d in path && |path[d]| <= k && path[d] == q[..|path[d]|] && HasDevice(nodes, at, path[d])
    && forall i | |path[d]| < i <= k :: !HasDevice(nodes, at, q[..i])
  }

  /** The text after one more component and its slash. */
  function Advance(rest: string): string
  {
    var t := rest[PartLen(rest)..];
    if t != "" && t[0] == '/' then t[1..] else t
  }

  lemma AdvanceOk(rest: string)
    requires Clean(rest) && rest != "" && rest[0] != '/'
    ensures PartLen(rest) > 0 && |Advance(rest)| < |rest|
    ensures Components(rest) == [rest[..PartLen(rest)]] + Components(Advance(rest))
    ensures Clean(Advance(rest)) && (Advance(rest) != "" ==> Advance(rest)[0] != '/')
  {
    var t := rest[PartLen(rest)..];
    CleanTail(rest, PartLen(rest));
    if t != "" && t[0] == '/' { CleanTail(t, 1); }
  }

  lemma SearchOn(nodes: Nodes, path: map<nat, Path>, at: map<Path, nat>, root: nat, q: Path, rest: string, k: nat, s: nat, d: nat, c: nat)
    requires Tree(nodes, path, at, root) && Searching(nodes, path, at, q, rest, k, s, d) && rest != ""
    requires path[s] + [rest[..PartLen(rest)]] in at && at[path[s] + [rest[..PartLen(rest)]]] == c
    ensures c in nodes && k < |q|
    ensures Searching(nodes, path, at, q, Advance(rest), k + 1, c, if nodes[c].device != 0 then c else d)
  {
    NextPart(q, rest, k);
    assert path[c] == q[..k + 1];
    if nodes[c].device == 0 {
      forall i | |path[d]| < i <= k + 1
        ensures !HasDevice(nodes, at, q[..i])
      {
      }
    }
  }

  lemma NextPart(q: Path, rest: string, k: nat)
    requires k <= |q| && Components(rest) == q[k..] && Clean(rest) && rest != "" && rest[0] != '/'
    ensures k < |q| && q[..k + 1] == q[..k] + [rest[..PartLen(rest)]]
    ensures Components(Advance(rest)) == q[k + 1..] && Clean(Advance(rest)) && (Advance(rest) != "" ==> Advance(rest)[0] != '/')
  {
    AdvanceOk(rest);
    var name := rest[..PartLen(rest)];
    assert q[k..] == [name] + Components(Advance(rest));
    assert q[k] == q[k..][0];
    assert q[k + 1..] == q[k..][1..];
  }

  class MountTree {
    const root: nat
    var nodes: Nodes
    var next: nat  // addresses from here on are unused
    ghost var path: map<nat, Path>
    ghost var at: map<Path, nat>

    ghost predicate Valid()
      reads this
    {
      Tree(nodes, path, at, root) && next > 0 && forall a | a in nodes :: a < next
    }

    /** vfs_init. */
    constructor (device: nat)
      requires device != 0
      ensures Valid() && at == map[[] := root] && nodes[root].device == device
    {
      root, next := 1, 2;
      nodes := map[1 := Node("/", DIRECTORY, device, 0, 0, [], GROWTH)];
      path, at := map[1 := []], map[[] := 1];
    }

    /** The inner loop of the searches: the child of `a` with that name, or 0. */
    method FindChild(a: nat, name: string) returns (c: nat)
      requires Valid() && a in nodes
      ensures a in path && (c == 0 <==> path[a] + [name] !in at)
      ensures c != 0 ==> c in nodes && at[path[a] + [name]] == c
    {
      assert NodeOk(nodes, path, at, root, a);
      var i := 0;
      while i < |nodes[a].children|
        invariant i <= |nodes[a].children|
        invariant forall j: nat | j < i :: nodes[a].children[j] in nodes && nodes[nodes[a].children[j]].name != name
      {
        ChildAt(nodes, path, at, root, a, i);
        c := nodes[a].children[i];
        assert NodeOk(nodes, path, at, root, c);
        if nodes[c].name == name { return; }
        i := i + 1;
      }
      c := 0;
      if path[a] + [name] in at { AtIsChild(nodes, path, at, root, a, name); assert false; }
    }

    /** __vfs_find_mount on a clean path: the deepest mount point, and the deepest node, on the way. */
    method FindMount(p: string) returns (d: nat, s: nat)
      requires Valid() && Clean(p)
      ensures d in nodes && d in path && s in nodes && s in path
      ensures var q := Components(p);
              && path[d] == q[..Deepest(nodes, at, q, |q|)]
              && |path[s]| <= |q| && path[s] == q[..|path[s]|] && NoneBeyond(at, q, |path[s]|)
    {
      ghost var q := Components(p);
      s, d := root, root;
      assert NodeOk(nodes, path, at, root, root);
      assert q[..0] == [] && q[0..] == q;
      var rest := p;
      if rest != "" && rest[0] == '/' {
        CleanTail(rest, 1);
        rest := rest[1..];
      }
      ghost var k := 0;
      while true
        invariant Searching(nodes, path, at, q, rest, k, s, d)
        decreases |rest|
      {
        if |nodes[s].children| == 0 || rest == "" { break; }
        var len := NextPartLen(rest);
        var c := FindChild(s, rest[..len]);
        if c == 0 { break; }
        SearchOn(nodes, path, at, root, q, rest, k, s, d, c);
        AdvanceOk(rest);
        if nodes[c].device != 0 { d := c; }
        s, rest, k := c, Advance(rest), k + 1;
      }
      SearchEnds(nodes, path, at, root, q, rest, k, s, d);
    }

    /** Node `c` copied to `n`, the parent links of its children following. */
    method CopyNode(c: nat, n: nat)
      requires Valid() && c in nodes && n !in nodes
      modifies `nodes
      ensures nodes.Keys == old(nodes).Keys + {n} && Adopting(old(nodes), nodes, c, n, |old(nodes)[c].children|)
    {
      ghost var nodes0 := nodes;
      assert NodeOk(nodes0, path, at, root, c);
      nodes := nodes[n := nodes[c]];
      var kids := nodes[c].children;
      var j := 0;
      while j < |kids|
        invariant j <= |kids| && nodes.Keys == nodes0.Keys + {n}
        invariant Adopting(nodes0, nodes, c, n, j)
      {
        assert ChildOk(nodes0, path, c, j);
        OwnChild(nodes0, path, at, root, c, j);
        nodes := nodes[kids[j] := nodes[kids[j]].(parent := n)];
        j := j + 1;
      }
    }

    /** The entry of the children array that led to the original leads to the copy. */
    method Relocate(a: nat, i: nat, n: nat)
      requires Valid() && a in nodes && i < |nodes[a].children| && nodes[a].children[i] in nodes && n !in nodes
      modifies `nodes
      ensures nodes == Moved(old(nodes), a, i, n)
    {
      ghost var nodes0 := nodes;
      var c := nodes[a].children[i];
      NotOwnParent(nodes, path, at, root, a, i);
      CopyNode(c, n);
      nodes := nodes[a := nodes[a].(children := nodes[a].children[i := n])] - {c};
      Adopted(nodes0, path, at, root, nodes, a, i, n);
    }

    /** One entry of a children array that moves. */
    method MoveChild(a: nat, i: nat)
      requires Valid() && a in nodes && i < |nodes[a].children|
      modifies `nodes, `next, `path, `at
      ensures Valid() && a in nodes && SameView(old(nodes), old(at), nodes, at) && a in path && path[a] == old(path)[a]
      ensures nodes[a] == old(nodes)[a].(children := old(nodes)[a].children[i := old(next)]) && next == old(next) + 1
      ensures at.Keys == old(at).Keys
    {
      assert NodeOk(nodes, path, at, root, a);
      assert ChildOk(nodes, path, a, i);
      NotOwnParent(nodes, path, at, root, a, i);
      var c, n := nodes[a].children[i], next;
      assert NodeOk(nodes, path, at, root, c);
      MoveTree(nodes, path, at, root, a, i, n);
      MoveSame(nodes, path, at, root, a, i, n);
      Relocate(a, i, n);
      next := next + 1;
      at := at[path[c] := n];
      path := MovedPaths(path, c, n);
    }

    /** The children array of `a` replaced by a longer one. */
    method GrowChildren(a: nat)
      requires Valid() && a in nodes
      modifies `nodes, `next, `path, `at
      ensures Valid() && a in nodes && SameView(old(nodes), old(at), nodes, at) && a in path && path[a] == old(path)[a]
      ensures nodes[a] == old(nodes)[a].(children := nodes[a].children, room := old(nodes)[a].room + 5)
      ensures |nodes[a].children| == |old(nodes)[a].children| && forall i | 0 <= i < |nodes[a].children| :: nodes[a].children[i] !in old(nodes)
      ensures at.Keys == old(at).Keys
    {
      assert NodeOk(nodes, path, at, root, a);
      var i := 0;
      while i < |nodes[a].children|
        invariant Valid() && a in nodes && i <= |nodes[a].children| && a in path && path[a] == old(path)[a]
        invariant nodes[a] == old(nodes)[a].(children := nodes[a].children) && |nodes[a].children| == |old(nodes)[a].children|
        invariant old(next) <= next && forall j | 0 <= j < i :: nodes[a].children[j] >= old(next)
        invariant SameView(old(nodes), old(at), nodes, at) && at.Keys == old(at).Keys
        decreases |nodes[a].children| - i
      {
        ghost var nodes1, at1 := nodes, at;
        MoveChild(a, i);
        SameTransitive(old(nodes), old(at), nodes1, at1, nodes, at);
        i := i + 1;
      }
      ghost var nodes1, at1 := nodes, at;
      assert NodeOk(nodes, path, at, root, a);
      Retag(nodes, path, at, root, a, nodes[a].kind, nodes[a].device, nodes[a].room + GROWTH);
      nodes := nodes[a := nodes[a].(room := nodes[a].room + GROWTH)];
      SameTransitive(old(nodes), old(at), nodes1, at1, nodes, at);
    }

    /** A new directory below `a`, its children array grown first when it is full. */
    method AddChild(a: nat, name: string) returns (n: nat)
      requires Valid() && a in nodes && a in path && IsName(name) && path[a] + [name] !in at
      modifies `nodes, `next, `path, `at
      ensures Valid() && SameView(old(nodes), old(at), nodes, at)
      ensures n in nodes && n in path && path[n] == old(path)[a] + [name] && nodes[n].kind == DIRECTORY
      ensures at.Keys == old(at).Keys + {path[n]}
    {
      SameReflexive(nodes, path, at, root);
      assert NodeOk(nodes, path, at, root, a);
      if nodes[a].room <= |nodes[a].children| + 1 { GrowChildren(a); }
      ghost var nodes1, at1 := nodes, at;
      n := next;
      next := next + 1;
      AddTree(nodes, path, at, root, a, n, name);
      nodes := Added(nodes, a, n, name);
      at := at[path[a] + [name] := n];
      path := path[n := path[a] + [name]];
      SameTransitive(old(nodes), old(at), nodes1, at1, nodes, at);
    }

    /** The child of `a` with that name, made if missing; 0 if it is there and no directory. */
    method Enter(a: nat, name: string) returns (n: nat, made: bool)
      requires Valid() && a in nodes && a in path && IsName(name)
      modifies `nodes, `next, `path, `at
      ensures Valid() && SameView(old(nodes), old(at), nodes, at)
      ensures made <==> old(path)[a] + [name] !in old(at)
      ensures n == 0 <==> Obstacle(old(nodes), old(at), old(path)[a] + [name])
      ensures !made ==> nodes == old(nodes) && path == old(path) && at == old(at)
      ensures made ==> at.Keys == old(at).Keys + {old(path)[a] + [name]}
      ensures n != 0 ==> n in nodes && n in path && path[n] == old(path)[a] + [name]
    {
      SameReflexive(nodes, path, at, root);
      n := FindChild(a, name);
      made := n == 0;
      if made {
        n := AddChild(a, name);
        assert NodeOk(nodes, path, at, root, n);
      } else {
        assert NodeOk(nodes, path, at, root, n);
        if nodes[n].kind != DIRECTORY { n := 0; }
      }
    }

    /**
     __vfs_insert_nodes on a clean path, from mount point `d` on the way: the node
     at the path, made with what is missing before it.  0 exactly when a node on
     the way is no directory; nothing has changed then.
     */
    method InsertNodes(p: string, d: nat) returns (n: nat)
      requires Valid() && Clean(p) && d in nodes && d in path
      requires |path[d]| <= |Components(p)| && path[d] == Components(p)[..|path[d]|]
      modifies `nodes, `next, `path, `at
      ensures Valid() && SameView(old(nodes), old(at), nodes, at)
      ensures n == 0 <==> Blocked(old(nodes), old(at), Components(p), |old(path)[d]|)
      ensures n == 0 || Components(p) in old(at) ==> nodes == old(nodes) && at == old(at)
      ensures n != 0 ==> n in nodes && n in path && path[n] == Components(p)
      ensures n != 0 && Components(p) !in old(at) ==> nodes[n].kind == 0
    {
      ghost var q, dd := Components(p), |path[d]|;
      ghost var nodes0, path0, at0 := nodes, path, at;
      AllNames(p);
      SameReflexive(nodes, path, at, root);
      var rest, depth, created := p, 0, false;
      n := d;
      while rest != ""
        invariant Valid() && Inserting(nodes0, at0, nodes, path, at, q, rest, depth, n, dd, created)
        decreases |rest|
      {
        DropPart(rest);
        ghost var rest0 := rest;
        if rest[0] == '/' { rest := rest[1..]; }
        var len := NextPartLen(rest);
        if len == 0 {
          NoPart(rest0);
          break;
        }
        PartIs(q, rest0, depth);
        n, created := InsertPart(n, rest[..len], depth, created, q, rest0, dd, nodes0, path0, at0);
        if n == 0 { return; }
        depth, rest := depth + 1, rest[len..];
      }
      Inserted(nodes0, at0, nodes, path, at, root, q, depth, n, dd, created);
      if created {
        RetagNew(nodes0, at0, nodes, path, at, root, n);
        nodes := Tagged(nodes, n, 0, nodes[n].device, nodes[n].room);
      }
    }

    /** One round of the loop, for component `depth` of `q`. */
    method InsertPart(n0: nat, name: string, depth: nat, created0: bool, ghost q: Path, ghost rest: string, ghost dd: nat,
                      ghost nodes0: Nodes, ghost path0: map<nat, Path>, ghost at0: map<Path, nat>)
      returns (n: nat, created: bool)
      requires Valid() && Inserting(nodes0, at0, nodes, path, at, q, rest, depth, n0, dd, created0)
      requires depth < |q| && name == q[depth] && Tree(nodes0, path0, at0, root)
      requires Clean(AfterPart(rest)) && Components(AfterPart(rest)) == q[depth + 1..]
      modifies `nodes, `next, `path, `at
      ensures n == 0 ==> Valid() && Blocked(nodes0, at0, q, dd) && nodes == nodes0 && at == at0
      ensures n != 0 ==> Valid() && Inserting(nodes0, at0, nodes, path, at, q, AfterPart(rest), depth + 1, n, dd, created)
    {
      n, created := n0, created0;
      assert NodeOk(nodes, path, at, root, n);
      if depth + 1 > nodes[n].depth {
        ghost var nodes1, path1, at1 := nodes, path, at;
        assert q[..depth + 1] == path[n] + [name];
        var made;
        n, made := Enter(n, name);
        if n == 0 {
          NowBlocked(nodes0, at0, nodes1, path1, at1, q, rest, depth, n0, dd, created);
          return;
        }
        Entered(nodes0, path0, at0, root, nodes1, path1, at1, nodes, path, at, q, rest, depth, n0, n, dd, created, made);
        created := created || made;
      }
    }

    /** __vfs_mount on an absolute path. */
    method Mount(p: string, device: nat) returns (r: int)
      requires Valid() && device != 0
      modifies `nodes, `next, `path, `at
      ensures Valid() && (r == 0 || r == -1)
      ensures r == 0 <==> CanMount(old(nodes), old(at), Components(p))
      ensures r == -1 ==> nodes == old(nodes) && at == old(at)
      ensures r == 0 ==> DeviceSet(old(nodes), old(at), nodes, at, Components(p), device)
    {
      var clean := Sanitize(p);
      CollapseClean(p);
      CollapseComponents(p);
      ghost var q := Components(p);
      var d, s := FindMount(clean);
      ghost var dd := |path[d]|;
      assert NodeOk(nodes, path, at, root, d);
      assert dd == |q| ==> q[..dd] == q;
      var n := InsertNodes(clean, d);
      if n == 0 { return -1; }
      assert NodeOk(nodes, path, at, root, n);
      assert q in old(at) ==> n == old(at)[q];
      if q in old(at) { MountTest(old(nodes), old(at), q, dd); }
      if nodes[n].kind != 0 && nodes[n].kind != DIRECTORY { return -1; }
      Retag(nodes, path, at, root, n, DIRECTORY, device, nodes[n].room);
      SetDevice(old(nodes), old(at), nodes, path, at, root, n, device);
      nodes := Tagged(nodes, n, DIRECTORY, device, nodes[n].room);
      return 0;
    }

    /** What every operation on a path starts with: the device of its longest mounted prefix, and the path inside it. */
    method Lookup(p: string) returns (device: nat, rest: string)
      requires Valid()
      ensures var q, m := Components(p), Mounted(nodes, at);
              var k := LongestPrefix(m, q, |q|);
              q[..k] in m && m[q[..k]] == device && Components(rest) == q[k..]
    {
      var clean := Sanitize(p);
      CollapseClean(p);
      CollapseComponents(p);
      var d, s := FindMount(clean);
      assert NodeOk(nodes, path, at, root, d);
      assert NodeOk(nodes, path, at, root, root);
      ghost var q := Components(p);
      DeepestIsLongest(nodes, at, q, |q|);
      device := nodes[d].device;
      rest := RootPath(clean, nodes[d].depth);
    }

    /** Any sequence of mounts keeps the tree; what is mounted is what the successful ones, in order, have put there. */
    method MountAll(mounts: seq<(string, nat)>) returns (done: seq<bool>)
      requires Valid() && forall i | 0 <= i < |mounts| :: mounts[i].1 != 0
      modifies `nodes, `next, `path, `at
      ensures Valid() && |done| == |mounts|
      ensures Mounted(nodes, at) == AllMounted(Mounted(old(nodes), old(at)), mounts, done, |mounts|)
    {
      done := [];
      for i := 0 to |mounts|
        invariant Valid() && |done| == i
        invariant Mounted(nodes, at) == AllMounted(Mounted(old(nodes), old(at)), mounts, done, i)
      {
        ghost var nodes1, at1 := nodes, at;
        ghost var done1 := done;
        var r := Mount(mounts[i].0, mounts[i].1);
        done := done + [r == 0];
        SameFold(Mounted(old(nodes), old(at)), mounts, done1, done, i);
        if r == 0 { MountedMore(nodes1, at1, nodes, at, Components(mounts[i].0), mounts[i].1); }
      }
    }
  }

  /** The mount points and their devices. */
  ghost function Mounted(nodes: Nodes, at: map<Path, nat>): map<Path, nat>
  {
    map p | p in at && HasDevice(nodes, at, p) :: nodes[at[p]].device
  }

  /** The length of the longest prefix of `q`, up to `k` components, that the map has; 0 if it has none. */
  ghost function LongestPrefix(m: map<Path, nat>, q: Path, k: nat): (j: nat)
    requires k <= |q|
    ensures j <= k && (j > 0 ==> q[..j] in m) && forall i | j < i <= k :: q[..i] !in m
  {
    if k == 0 || q[..k] in m then k else LongestPrefix(m, q, k - 1)
  }

  lemma {:induction false} DeepestIsLongest(nodes: Nodes, at: map<Path, nat>, q: Path, k: nat)
    requires k <= |q|
    ensures Deepest(nodes, at, q, k) == LongestPrefix(Mounted(nodes, at), q, k)
  {
    if k > 0 { DeepestIsLongest(nodes, at, q, k - 1); }
  }

  /** The map after the first `n` mounts, of which those that succeeded count. */
  ghost function AllMounted(m: map<Path, nat>, mounts: seq<(string, nat)>, done: seq<bool>, n: nat): map<Path, nat>
    requires n <= |mounts| && n <= |done|
  {
    if n == 0 then m
    else if done[n - 1] then AllMounted(m, mounts, done, n - 1)[Components(mounts[n - 1].0) := mounts[n - 1].1]
    else AllMounted(m, mounts, done, n - 1)
  }

  lemma {:induction false} SameFold(m: map<Path, nat>, mounts: seq<(string, nat)>, done: seq<bool>, done': seq<bool>, n: nat)
    requires n <= |mounts| && n <= |done| <= |done'| && done'[..|done|] == done
    ensures AllMounted(m, mounts, done', n) == AllMounted(m, mounts, done, n)
  {
    if n > 0 {
      assert done'[n - 1] == done'[..|done|][n - 1];
      SameFold(m, mounts, done, done', n - 1);
    }
  }

  lemma MountedMore(nodes: Nodes, at: map<Path, nat>, nodes': Nodes, at': map<Path, nat>, q: Path, device: nat)
    requires DeviceSet(nodes, at, nodes', at', q, device) && device != 0
    ensures Mounted(nodes', at') == Mounted(nodes, at)[q := device]
  {
    forall p: Path
      ensures p in Mounted(nodes', at') <==> p == q || p in Mounted(nodes, at)
    {
      assert p != q ==> (HasDevice(nodes', at', p) <==> HasDevice(nodes, at, p));
    }
  }

  /** Below the mount point of `q` everything on the way is a directory, and so is or becomes `q`. */
  ghost predicate CanMount(nodes: Nodes, at: map<Path, nat>, q: Path)
  {
    var dd := Deepest(nodes, at, q, |q|);
    && !Blocked(nodes, at, q, dd)
    && (dd == |q| && q in at && at[q] in nodes ==> nodes[at[q]].kind == 0 || nodes[at[q]].kind == DIRECTORY)
  }

  lemma MountTest(nodes: Nodes, at: map<Path, nat>, q: Path, dd: nat)
    requires dd == Deepest(nodes, at, q, |q|) && !Blocked(nodes, at, q, dd) && q in at && at[q] in nodes
    ensures CanMount(nodes, at, q) <==> nodes[at[q]].kind == 0 || nodes[at[q]].kind == DIRECTORY
  {
    assert q[..|q|] == q;
    if dd < |q| { assert !Obstacle(nodes, at, q[..|q|]); }
  }

  /** `device` is at `q`, and every other node has the device it had. */
  ghost predicate DeviceSet(nodes: Nodes, at: map<Path, nat>, nodes': Nodes, at': map<Path, nat>, q: Path, device: nat)
  {
    && q in at' && at'[q] in nodes' && nodes'[at'[q]].device == device
    && MountedAt(nodes, at, nodes', at', q)
    && forall p: Path {:trigger p in at'} | p in at && p != q ::
         at[p] in nodes && p in at' && at'[p] in nodes' && nodes'[at'[p]].device == nodes[at[p]].device
  }

  lemma SetDevice(nodes0: Nodes, at0: map<Path, nat>, nodes: Nodes, path: map<nat, Path>, at: map<Path, nat>, root: nat, n: nat, device: nat)
    requires SameView(nodes0, at0, nodes, at) && Tree(nodes, path, at, root) && n in nodes && n in path && device != 0
    ensures DeviceSet(nodes0, at0, Tagged(nodes, n, DIRECTORY, device, nodes[n].room), at, path[n], device)
  {
    var q, nodes' := path[n], Tagged(nodes, n, DIRECTORY, device, nodes[n].room);
    assert NodeOk(nodes, path, at, root, n);
    forall p: Path | p != q
      ensures HasDevice(nodes', at, p) <==> HasDevice(nodes0, at0, p)
      ensures p in at0 ==> at0[p] in nodes0 && p in at && at[p] in nodes' && nodes'[at[p]].device == nodes0[at0[p]].device
    {
      assert SameAt(nodes0, at0, nodes, at, p);
      assert p in at ==> at[p] != n;
    }
  }

  lemma Inserted(nodes0: Nodes, at0: map<Path, nat>, nodes: Nodes, path: map<nat, Path>, at: map<Path, nat>, root: nat,
                 q: Path, depth: nat, n: nat, dd: nat, created: bool)
    requires Tree(nodes, path, at, root) && depth == |q|
    requires Inserting(nodes0, at0, nodes, path, at, q, "", depth, n, dd, created)
    ensures path[n] == q && n > 0 && !Blocked(nodes0, at0, q, dd)
    ensures created <==> q !in at0
  {
    assert q[..|q|] == q;
    assert NodeOk(nodes, path, at, root, n);
  }

  /** A node on the way to `q`, below its first `from` components, is no directory. */
  ghost predicate Blocked(nodes: Nodes, at: map<Path, nat>, q: Path, from: nat)
  {
    exists k :: from < k <= |q| && Obstacle(nodes, at, q[..k])
  }

  predicate Obstacle(nodes: Nodes, at: map<Path, nat>, p: Path)
  {
    p in at && at[p] in nodes && nodes[at[p]].kind != DIRECTORY
  }

  /** After `depth` components of `q` the walk stands at `n`. */
  ghost predicate Inserting(nodes0: Nodes, at0: map<Path, nat>, nodes: Nodes, path: map<nat, Path>, at: map<Path, nat>,
                            q: Path, rest: string, depth: nat, n: nat, dd: nat, created: bool)
  {
    && depth <= |q| && dd <= |q| && Clean(rest) && Components(rest) == q[depth..]
    && (forall i | 0 <= i < |q| :: IsName(q[i]))
    && n in nodes && n in path && path[n] == q[..if depth < dd then dd else depth]
    && SameView(nodes0, at0, nodes, at)
    && (forall k | dd < k <= depth :: !Obstacle(nodes0, at0, q[..k]))
    && (created ==> depth > dd && NoneBeyond(at, q, depth) && NoneBeyond(at0, q, depth - 1))
    && (!created ==> nodes == nodes0 && at == at0)
  }

  lemma PartIs(q: Path, rest: string, depth: nat)
    requires Clean(rest) && depth <= |q| && Components(rest) == q[depth..]
    requires var t := if rest != "" && rest[0] == '/' then rest[1..] else rest; PartLen(t) > 0
    ensures var t := if rest != "" && rest[0] == '/' then rest[1..] else rest; depth < |q| && q[depth] == t[..PartLen(t)]
    ensures depth < |q| ==> q[depth..][1..] == q[depth + 1..] && q[..depth + 1] == q[..depth] + [q[depth]]
  {
    var t := if rest != "" && rest[0] == '/' then rest[1..] else rest;
    assert Components(rest) == Components(t);
    assert Components(t)[0] == t[..PartLen(t)];
  }

  lemma NoPart(rest: string)
    requires Clean(rest) && rest != ""
    requires PartLen(if rest[0] == '/' then rest[1..] else rest) == 0
    ensures Components(rest) == []
  {
    var t := if rest[0] == '/' then rest[1..] else rest;
    assert t == "";
  }

  lemma NowBlocked(nodes0: Nodes, at0: map<Path, nat>, nodes: Nodes, path: map<nat, Path>, at: map<Path, nat>,
                   q: Path, rest: string, depth: nat, n: nat, dd: nat, created: bool)
    requires Inserting(nodes0, at0, nodes, path, at, q, rest, depth, n, dd, created) && dd <= depth < |q|
    requires q[..depth + 1] in at && at[q[..depth + 1]] in nodes && nodes[at[q[..depth + 1]]].kind != DIRECTORY
    ensures !created && Blocked(nodes0, at0, q, dd)
  {
    assert Obstacle(nodes, at, q[..depth + 1]);
  }

  lemma Entered(nodes0: Nodes, path0: map<nat, Path>, at0: map<Path, nat>, root: nat,
                nodes1: Nodes, path1: map<nat, Path>, at1: map<Path, nat>, nodes: Nodes, path: map<nat, Path>, at: map<Path, nat>,
                q: Path, rest: string, depth: nat, n1: nat, n: nat, dd: nat, created: bool, made: bool)
    requires Inserting(nodes0, at0, nodes1, path1, at1, q, rest, depth, n1, dd, created) && dd <= depth < |q|
    requires Tree(nodes0, path0, at0, root) && Tree(nodes1, path1, at1, root) && Tree(nodes, path, at, root)
    requires SameView(nodes1, at1, nodes, at) && n in nodes && n in path && path[n] == q[..depth + 1]
    requires made <==> q[..depth + 1] !in at1
    requires made ==> at.Keys == at1.Keys + {q[..depth + 1]}
    requires !made ==> nodes == nodes1 && path == path1 && at == at1 && !Obstacle(nodes, at, q[..depth + 1])
    requires Clean(AfterPart(rest)) && Components(AfterPart(rest)) == q[depth + 1..]
    ensures Inserting(nodes0, at0, nodes, path, at, q, AfterPart(rest), depth + 1, n, dd, created || made)
  {
    SameTransitive(nodes0, at0, nodes1, at1, nodes, at);
    if made {
      StopsHere(nodes1, path1, at1, root, q, depth);
      assert NoneBeyond(at0, q, depth) by {
        forall i | depth < i <= |q|
          ensures q[..i] !in at0
        {
          assert SameAt(nodes0, at0, nodes1, at1, q[..i]);
        }
      }
      forall i | depth + 1 < i <= |q|
        ensures q[..i] !in at
      {
        assert |q[..i]| != |q[..depth + 1]|;
      }
    }
  }

  lemma RetagNew(nodes0: Nodes, at0: map<Path, nat>, nodes: Nodes, path: map<nat, Path>, at: map<Path, nat>, root: nat, n: nat)
    requires Tree(nodes, path, at, root) && SameView(nodes0, at0, nodes, at) && n in nodes && n in path && path[n] !in at0 && path[n] != []
    ensures Tree(Tagged(nodes, n, 0, nodes[n].device, nodes[n].room), path, at, root)
    ensures SameView(nodes0, at0, Tagged(nodes, n, 0, nodes[n].device, nodes[n].room), at)
  {
    var nodes' := Tagged(nodes, n, 0, nodes[n].device, nodes[n].room);
    assert NodeOk(nodes, path, at, root, n);
    Retag(nodes, path, at, root, n, 0, nodes[n].device, nodes[n].room);
    forall p: Path
      ensures SameAt(nodes0, at0, nodes', at, p)
    {
      assert SameAt(nodes0, at0, nodes, at, p);
      if p in at0 { assert at[p] != n; }
    }
  }

  lemma OwnChild(nodes: Nodes, path: map<nat, Path>, at: map<Path, nat>, root: nat, c: nat, j: nat)
    requires Tree(nodes, path, at, root) && c in nodes && j < |nodes[c].children|
    ensures nodes[c].children[j] in nodes && nodes[c].children[j] != c
  {
    assert NodeOk(nodes, path, at, root, c);
    assert ChildOk(nodes, path, c, j);
  }

  /** The parent of a node is not among its children. */
  lemma NotOwnParent(nodes: Nodes, path: map<nat, Path>, at: map<Path, nat>, root: nat, a: nat, i: nat)
    requires Tree(nodes, path, at, root) && a in nodes && i < |nodes[a].children|
    ensures nodes[a].children[i] in nodes && a !in nodes[nodes[a].children[i]].children && nodes[a].children[i] != a
  {
    var c := nodes[a].children[i];
    assert NodeOk(nodes, path, at, root, a);
    assert ChildOk(nodes, path, a, i);
    assert NodeOk(nodes, path, at, root, c);
    forall j: nat | j < |nodes[c].children|
      ensures nodes[c].children[j] != a
    {
      assert ChildOk(nodes, path, c, j);
    }
  }

  /** The first `j` children of `c` point to its copy `n`. */
  ghost predicate Adopting(nodes0: Nodes, nodes: Nodes, c: nat, n: nat, j: nat)
    requires c in nodes0
  {
    && n in nodes && c in nodes && nodes[n] == nodes0[c] && nodes[c] == nodes0[c] && j <= |nodes0[c].children|
    && forall x | x in nodes0 :: x in nodes && nodes[x] == if x in nodes0[c].children[..j] then nodes0[x].(parent := n) else nodes0[x]
  }

  lemma Adopted(nodes0: Nodes, path: map<nat, Path>, at: map<Path, nat>, root: nat, nodes: Nodes, a: nat, i: nat, n: nat)
    requires Tree(nodes0, path, at, root) && a in nodes0 && i < |nodes0[a].children| && n !in nodes0
    requires nodes0[a].children[i] in nodes0
    requires var c: nat := nodes0[a].children[i];
             && c != n && nodes.Keys == nodes0.Keys - {c} + {n} && nodes[n] == nodes0[c]
             && forall x | x in nodes0 && x != c :: nodes[x] ==
                  if x == a then nodes0[a].(children := nodes0[a].children[i := n])
                  else if x in nodes0[c].children then nodes0[x].(parent := n) else nodes0[x]
    ensures nodes == Moved(nodes0, a, i, n)
  {
    var c: nat := nodes0[a].children[i];
    forall x | x in nodes && x != n && x != a
      ensures x in nodes0[c].children <==> nodes0[x].parent == c
    {
      assert NodeOk(nodes0, path, at, root, x);
      assert NodeOk(nodes0, path, at, root, c);
      if x in nodes0[c].children {
        var j: nat :| j < |nodes0[c].children| && nodes0[c].children[j] == x;
        assert ChildOk(nodes0, path, c, j);
      }
    }
  }

  lemma SearchEnds(nodes: Nodes, path: map<nat, Path>, at: map<Path, nat>, root: nat, q: Path, rest: string, k: nat, s: nat, d: nat)
    requires Tree(nodes, path, at, root) && Searching(nodes, path, at, q, rest, k, s, d)
    requires rest == "" || nodes[s].children == [] || path[s] + [rest[..PartLen(rest)]] !in at
    ensures NoneBeyond(at, q, k) && |path[d]| == Deepest(nodes, at, q, |q|)
  {
    if k < |q| {
      AdvanceOk(rest);
      var name := rest[..PartLen(rest)];
      assert q[k..] == [name] + Components(Advance(rest));
      assert q[..k + 1] == path[s] + [name];
      if path[s] + [name] in at { AtIsChild(nodes, path, at, root, s, name); assert false; }
    }
    StopsHere(nodes, path, at, root, q, k);
    DeepestIs(nodes, at, q, |q|, |path[d]|);
  }
}
