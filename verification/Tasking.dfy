/**
 The life cycle of processes: the table of registered processes, the ready ring,
 waiting, sleeping, forking, executing, killing and round-robin scheduling.
 Each system call is one step.
 */
module Tasking {

  const READY: bv8 := 0
  const RUNNING: bv8 := 1
  const WAITING: bv8 := 2
  const DEAD: bv8 := 3
  const ZOMBIE: bv8 := 4
  const SLEEPING: bv8 := 5

  /** How many processes can wait for one. */
  const MAX_WAITERS: int := 5

  class Process {
    var pid: nat
    var state: bv8
    var waiting: seq<nat>
    var next: Process?
    var prev: Process?

    constructor (pid: nat)
      ensures this.pid == pid && state == READY && waiting == [] && next == null && prev == null
    {
      this.pid := pid;
      state := READY;
      waiting := [];
      next := null;
      prev := null;
    }
  }

  /** What can happen next: a timer tick, the creation of a process, or a system call of the running one. */
  datatype Step =
    | TickStep | SpawnStep | KillStep(pid: nat) | ExitStep | SleepStep | WakeStep(pid: nat) | WaitStep(pid: nat)
    | ExecStep(kill: bool, home: bool, argv: bool)

  /** What waking does to a state: the expected one becomes READY, any other loses the expected bits. */
  function Woken(state: bv8, expected: bv8): bv8 {
    if state == expected then READY else if state & expected != 0 then state ^ expected else state
  }

  /** The state of the process `pid` once the list `woken` has been woken. */
  function StateAfter(pid: nat, woken: seq<nat>, state: bv8): bv8 {
    if pid in woken then Woken(state, WAITING) else state
  }

  /** Waking the next of a list. */
  lemma StateAfterMore(pid: nat, woken: seq<nat>, next: nat, state: bv8)
    ensures StateAfter(pid, woken + [next], state) ==
            if pid == next then Woken(StateAfter(pid, woken, state), WAITING) else StateAfter(pid, woken, state)
  {
  }

  /** Behind `before` stand the processes of the list at the places `at`, in that order. */
  ghost predicate Joined(before: seq<Process>, after: seq<Process>, table: map<nat, Process>, list: seq<nat>, at: seq<nat>)
  {
    && |after| == |before| + |at| && before <= after
    && (forall j, k :: 0 <= j < k < |at| ==> at[j] < at[k])
    && (forall j :: 0 <= j < |at| ==> at[j] < |list| && list[at[j]] in table && after[|before| + j] == table[list[at[j]]])
  }

  /** Behind `before` stand some of the processes of the list, in its order. */
  ghost predicate JoinedInOrder(before: seq<Process>, after: seq<Process>, table: map<nat, Process>, list: seq<nat>)
  {
    exists at: seq<nat> :: Joined(before, after, table, list, at)
  }

  lemma NobodyJoined(before: seq<Process>, table: map<nat, Process>)
    ensures JoinedInOrder(before, before, table, [])
  {
    assert Joined(before, before, table, [], []);
  }

  lemma OneJoins(before: seq<Process>, after: seq<Process>, table: map<nat, Process>, list: seq<nat>, w: nat, more: bool)
    requires JoinedInOrder(before, after, table, list) && (more ==> w in table)
    ensures JoinedInOrder(before, after + if more then [table[w]] else [], table, list + [w])
  {
    var at: seq<nat> :| Joined(before, after, table, list, at);
    assert Joined(before, after + if more then [table[w]] else [], table, list + [w], at + if more then [|list|] else []);
  }

  lemma BehindTheRing(before: seq<Process>, after: seq<Process>, table: map<nat, Process>, list: seq<nat>)
    requires JoinedInOrder(before, after, table, list)
    ensures before <= after && (list == [] ==> after == before)
  {
    var at: seq<nat> :| Joined(before, after, table, list, at);
    assert |at| > 0 ==> at[0] < |list|;
  }

  function Succ(i: int, n: int): int { if i + 1 == n then 0 else i + 1 }

  ghost function Index(r: seq<Process>, p: Process): (k: int)
    requires p in r
    ensures 0 <= k < |r| && r[k] == p
  {
    var k :| 0 <= k < |r| && r[k] == p;
    k
  }

  ghost function Cut(r: seq<Process>, p: Process): seq<Process>
  {
    if p in r then r[..Index(r, p)] + r[Index(r, p) + 1..] else r
  }

  // ---- histories

  /** The kernel between two steps. */
  datatype Shot = Shot(ring: seq<Process>, running: Process?, table: map<nat, Process>,
                       waiting: map<nat, seq<nat>>, state: map<nat, bv8>, nextPid: nat)

  /** The first of a ring. */
  ghost function First(r: seq<Process>): Process? { if r == [] then null else r[0] }

  /** Who runs after `p` on the ring `r`; the first if nobody runs. */
  ghost function Turn(r: seq<Process>, p: Process?): Process? {
    if p != null && p in r then r[Succ(Index(r, p), |r|)] else First(r)
  }

  /** `p` off the ring, and the process behind it running, if there is one. */
  ghost function Stepped(a: Shot, p: Process): Shot {
    a.(ring := Cut(a.ring, p), running := if |a.ring| == 1 then null else Turn(a.ring, p))
  }

  ghost predicate Runs(a: Shot, pid: nat) { pid in a.table && a.table[pid] == a.running && pid in a.state && pid in a.waiting }

  ghost predicate Spawned(a: Shot, b: Shot) {
    var pid := a.nextPid + 1;
    && pid in b.table && pid !in a.table && b.table[pid] !in a.table.Values
    && b == Shot(a.ring + [b.table[pid]], a.running, a.table[pid := b.table[pid]], a.waiting[pid := []], a.state[pid := READY], pid)
  }

  /** Process `x` is gone, and those it listed are ready, behind the others, in the order of the list. */
  ghost predicate Died(a: Shot, b: Shot, x: nat)
    requires x in a.table && x in a.waiting
  {
    && b.table == a.table - {x} && b.waiting == a.waiting - {x} && b.nextPid == a.nextPid
    && b.state.Keys == a.state.Keys - {x} && (forall q | q in b.state :: b.state[q] == StateAfter(q, a.waiting[x], a.state[q]))
    && JoinedInOrder(Cut(a.ring, a.table[x]), b.ring, a.table, a.waiting[x])
    && b.running == if a.running == a.table[x] then First(b.ring) else a.running
  }

  ghost predicate Waited(a: Shot, b: Shot, pid: nat, target: nat)
    requires Runs(a, pid)
  {
    if target in a.waiting && |a.waiting[target]| < 5
    then b == Stepped(a, a.table[pid]).(waiting := a.waiting[target := a.waiting[target] + [pid]], state := a.state[pid := WAITING])
    else b == a
  }

  /** A new process in place of the running one: its pid, its waiters, last in the ring, and the second of the ring runs. */
  ghost predicate TookOver(a: Shot, b: Shot, pid: nat)
    requires Runs(a, pid)
  {
    && pid in b.table && b.table[pid] !in a.table.Values && b.table == a.table[pid := b.table[pid]] && b.nextPid == a.nextPid + 1
    && b.ring == Cut(a.ring, a.table[pid]) + [b.table[pid]] && b.waiting == a.waiting && b.state == a.state
    && b.running == b.ring[Succ(0, |b.ring|)]
  }

  /** What a step does. */
  ghost predicate Next(a: Shot, b: Shot, step: Step)
  {
    match step
    case TickStep => b == a.(running := Turn(a.ring, a.running))
    case SpawnStep => Spawned(a, b)
    case KillStep(x) => if x in a.table && x in a.waiting && x !in a.waiting[x] then Died(a, b, x) else b == a
    case WakeStep(x) =>
      b == if x in a.table && x in a.state && a.state[x] == SLEEPING then a.(ring := a.ring + [a.table[x]], state := a.state[x := READY]) else a
    case ExitStep => if a.running == null then b == a else exists pid :: Runs(a, pid) && Died(a, b, pid)
    case SleepStep =>
      if a.running == null then b == a
      else exists pid :: Runs(a, pid) && b == Stepped(a, a.table[pid]).(state := a.state[pid := SLEEPING])
    case WaitStep(target) => if a.running == null then b == a else exists pid :: Runs(a, pid) && Waited(a, b, pid, target)
    case ExecStep(kill, home, argv) =>
      if a.running == null then Spawned(a, b)
      else if !home then b == a.(nextPid := a.nextPid + 1)
      else if kill && argv then exists pid :: Runs(a, pid) && TookOver(a, b, pid)
      else b == a
  }

  ghost predicate WaitsFor(a: Shot, t: nat, w: nat) { t in a.waiting && w in a.state && w in a.waiting[t] }

  /** A registered process that is listed waits, and no pid has been used that was not handed out. */
  ghost predicate Sound(a: Shot)
  {
    && a.waiting.Keys == a.state.Keys && (forall t, w | WaitsFor(a, t, w) :: a.state[w] == WAITING)
    && forall pid | pid in a.state :: pid <= a.nextPid
  }

  /** A process that waits does so exactly as long as the one it waits for is registered; no pid comes back; a stuck process stays. */
  ghost predicate Keeps(a: Shot, b: Shot)
  {
    && (forall t, w | WaitsFor(a, t, w) && w in b.state :: if t in b.state then WaitsFor(b, t, w) else b.state[w] == READY)
    && (forall pid | pid in b.state :: pid in a.state || pid > a.nextPid) && a.nextPid <= b.nextPid
    && (forall pid | WaitsFor(a, pid, pid) :: pid in b.state)
  }

  /** What the first `k` steps did, shot by shot. */
  ghost predicate History(shots: seq<Shot>, steps: seq<Step>, k: nat)
    requires k <= |steps|
  {
    && |shots| == k + 1 && (forall c: nat | c <= k :: Sound(shots[c]))
    && (forall c: nat | c < k :: Next(shots[c], shots[c + 1], steps[c]) && Keeps(shots[c], shots[c + 1]))
  }

  lemma HistoryMore(shots: seq<Shot>, steps: seq<Step>, k: nat, b: Shot)
    requires k < |steps| && History(shots, steps, k) && Next(shots[k], b, steps[k]) && Keeps(shots[k], b) && Sound(b)
    ensures History(shots + [b], steps, k + 1)
  {
  }

  /** A pid registered at two moments was registered all the time between. */
  lemma {:induction false} Stays(shots: seq<Shot>, steps: seq<Step>, i: nat, j: nat, pid: nat)
    requires History(shots, steps, |steps|) && i < j <= |steps| && pid in shots[i].state && pid in shots[j].state
    ensures pid in shots[j - 1].state
  {
    PidsGrow(shots, steps, i, j - 1);
    assert Keeps(shots[j - 1], shots[j - 1 + 1]);
  }

  lemma {:induction false} PidsGrow(shots: seq<Shot>, steps: seq<Step>, i: nat, j: nat)
    requires History(shots, steps, |steps|) && i <= j <= |steps|
    ensures shots[i].nextPid <= shots[j].nextPid
    decreases j
  {
    if i < j {
      PidsGrow(shots, steps, i, j - 1);
      assert Keeps(shots[j - 1], shots[j - 1 + 1]);
    }
  }

  /** In every history, a process that waits for another goes on waiting for it as long as both are registered. */
  lemma {:induction false} WaitsOn(shots: seq<Shot>, steps: seq<Step>, i: nat, j: nat, t: nat, w: nat)
    requires History(shots, steps, |steps|) && i <= j <= |steps| && WaitsFor(shots[i], t, w)
    requires t in shots[j].state && w in shots[j].state
    ensures WaitsFor(shots[j], t, w) && shots[j].state[w] == WAITING
    decreases j
  {
    assert Sound(shots[i]);
    if i < j {
      Stays(shots, steps, i, j, t);
      Stays(shots, steps, i, j, w);
      WaitsOn(shots, steps, i, j - 1, t, w);
      assert Keeps(shots[j - 1], shots[j - 1 + 1]);
    }
    assert Sound(shots[j]);
  }

  /** In every history, a process that waits for itself stays registered, asleep. */
  lemma {:induction false} StuckForEver(shots: seq<Shot>, steps: seq<Step>, i: nat, j: nat, pid: nat)
    requires History(shots, steps, |steps|) && i <= j <= |steps| && WaitsFor(shots[i], pid, pid)
    ensures WaitsFor(shots[j], pid, pid) && shots[j].state[pid] == WAITING
    decreases j
  {
    if i < j {
      StuckForEver(shots, steps, i, j - 1, pid);
      assert Keeps(shots[j - 1], shots[j - 1 + 1]);
    }
    assert Sound(shots[j]);
  }

  class Kernel {
    var table: map<nat, Process>
    var head: Process?
    var tail: Process?
    var size: int
    var current: Process?
    var nextPid: nat
    ghost var ring: seq<Process>

    // ---- the ready ring

    ghost predicate Linked(i: int)
      reads `ring, ring`next, ring`prev
      requires 0 <= i < |ring|
    {
      ring[i].next == ring[Succ(i, |ring|)] && ring[Succ(i, |ring|)].prev == ring[i]
    }

    ghost predicate Apart(i: int, j: int)
      reads `ring
      requires 0 <= i < |ring| && 0 <= j < |ring|
    {
      i != j ==> ring[i] != ring[j]
    }

    /** The ready list is a circular doubly linked list that runs through `ring`. */
    ghost predicate RingOk()
      reads `ring, `head, `tail, `size, ring`next, ring`prev
    {
      && size == |ring|
      && (if ring == [] then head == null && tail == null else head == ring[0] && tail == ring[|ring| - 1])
      && (forall i {:trigger Linked(i)} :: 0 <= i < |ring| ==> Linked(i))
      && (forall i, j {:trigger Apart(i, j)} :: 0 <= i < |ring| && 0 <= j < |ring| ==> Apart(i, j))
    }

    method Enqueue(p: Process)
      requires RingOk() && p !in ring
      modifies `head, `tail, `size, `ring, p`next, p`prev, p`state
      modifies (if head == null then {} else {head})`prev
      modifies (if tail == null then {} else {tail})`next
      ensures RingOk() && ring == old(ring) + [p] && p.state == READY
    {
      if head == null {
        head := p;
        tail := p;
        p.next := p;
        p.prev := null;
      } else {
        assert Linked(|ring| - 1);
        p.next := head;
        p.prev := tail;
        tail.next := p;
        tail := p;
      }
      head.prev := tail;
      size := size + 1;
      p.state := READY;
      ring := ring + [p];
      forall i | 0 <= i < |ring| ensures Linked(i) {
        if i < |ring| - 2 { assert old(Linked(i)) && old(Apart(i, |ring| - 1)) && old(Apart(0, i + 1)); }
      }
      forall i, j | 0 <= i < |ring| && 0 <= j < |ring| ensures Apart(i, j) {
        if i < |ring| - 1 && j < |ring| - 1 { assert old(Apart(i, j)); }
      }
    }

    /** What unlinking the process at `k` does to the links. */
    twostate predicate Unlinked(was: seq<Process>, new k: int)
      reads this, was
    {
      var n := |was|;
      && was == old(ring) && 0 <= k < n && ring == was[..k] + was[k + 1..] && size == n - 1
      && head == (if n == 1 then null else if k == 0 then was[1] else was[0])
      && tail == (if n == 1 then null else if k == n - 1 then was[n - 2] else was[n - 1])
      && (n > 1 ==> was[if k == 0 then n - 1 else k - 1].next == was[Succ(k, n)])
      && (n > 1 ==> was[Succ(k, n)].prev == was[if k == 0 then n - 1 else k - 1])
      && (forall i :: 0 <= i < n && Succ(i, n) != k ==> was[i].next == old(was[i].next))
      && (forall i :: 0 <= i < n && i != Succ(k, n) ==> was[i].prev == old(was[i].prev))
    }

    twostate lemma UnlinkedRing(was: seq<Process>, new k: int)
      requires old(RingOk()) && Unlinked(was, k)
      ensures RingOk()
    {
      forall i | 0 <= i < |ring| ensures Linked(i) {
        assert old(Linked(if i < k then i else i + 1));
      }
      forall i, j | 0 <= i < |ring| && 0 <= j < |ring| ensures Apart(i, j) {
        assert old(Apart(if i < k then i else i + 1, if j < k then j else j + 1));
      }
    }

    /** __proc_transfert_to_wait on a process of the ring; its own links are left as they were. */
    method Unlink(p: Process, ghost k: int)
      requires RingOk() && 0 <= k < |ring| && ring[k] == p
      modifies `head, `tail, `size, `ring, ring`next, ring`prev
      ensures RingOk() && ring == old(ring)[..k] + old(ring)[k + 1..]
      ensures p.next == if old(|ring|) == 1 then p else old(ring)[Succ(k, old(|ring|))]
    {
      assert Linked(k) && Linked(if k == 0 then |ring| - 1 else k - 1);
      if size == 1 {
        head := null;
        tail := null;
      } else if p == head {
        assert Apart(0, k);
        p.next.prev := tail;
        tail.next := p.next;
        head := p.next;
      } else if p == tail {
        assert Apart(k, |ring| - 1);
        p.prev.next := head;
        head.prev := p.prev;
        tail := p.prev;
      } else {
        p.prev.next := p.next;
        p.next.prev := p.prev;
      }
      size := size - 1;
      ring := ring[..k] + ring[k + 1..];
      ghost var was, n := old(ring), old(|ring|);
      forall i | 0 <= i < n && Succ(i, n) != k ensures was[i].next == old(was[i].next) {
        assert old(Apart(i, if k == 0 then |ring| - 1 else k - 1));
      }
      forall i | 0 <= i < n && i != Succ(k, n) ensures was[i].prev == old(was[i].prev) {
        assert old(Apart(i, Succ(k, |ring|)));
      }
      UnlinkedRing(was, k);
    }

    // ---- the table and the waiters

    ghost predicate Entry(pid: nat)
      reads `table, `ring, `nextPid, table.Values`pid, table.Values`state, table.Values`waiting
      requires pid in table
    {
      var p := table[pid];
      && p.pid == pid && 0 < pid <= nextPid && |p.waiting| <= MAX_WAITERS
      && (p.state == READY || p.state == WAITING || p.state == SLEEPING)
      && (p.state == READY <==> p in ring)
    }

    ghost predicate Registered(i: int)
      reads `table, `ring, ring`pid
      requires 0 <= i < |ring|
    {
      ring[i].pid in table && table[ring[i].pid] == ring[i]
    }

    /** The process registered under `t` will wake the one registered under `pid`. */
    ghost predicate Awaits(t: nat, pid: nat)
      reads `table, table.Values`waiting
    {
      t in table && pid in table[t].waiting
    }

    /** The process registered under `pid` waits for itself. */
    predicate Stuck(pid: nat)
      reads `table, table.Values`waiting
    {
      pid in table && pid in table[pid].waiting
    }

    ghost predicate Keyed(pid: nat)
      reads `table, table.Values`pid
      requires pid in table
    {
      table[pid].pid == pid
    }

    /** Ring and table agree; `x` may be registered in any state but is not in the ring. */
    ghost predicate CoreBut(x: Process?)
      reads this, table.Values, ring
    {
      && RingOk()
      && (forall pid {:trigger Keyed(pid)} :: pid in table ==> Keyed(pid))
      && (forall pid {:trigger Entry(pid)} :: pid in table && table[pid] != x ==> Entry(pid))
      && (forall i {:trigger Registered(i)} :: 0 <= i < |ring| ==> Registered(i))
      && x !in ring
    }

    ghost predicate WaiterOk(pid: nat)
      reads `table, table.Values`waiting, table.Values`state
      requires pid in table
    {
      table[pid].state == WAITING ==> exists t :: Awaits(t, pid)
    }

    ghost predicate NoLostWaiter()
      reads `table, table.Values`waiting, table.Values`state
    {
      forall pid {:trigger WaiterOk(pid)} :: pid in table ==> WaiterOk(pid)
    }

    /** Place `i` of the list of `t` holds a pid that is in use or was, and if it is registered it waits. */
    ghost predicate ListOk(t: nat, i: int)
      reads `table, `nextPid, table.Values`waiting, table.Values`state
      requires t in table && 0 <= i < |table[t].waiting|
    {
      var w := table[t].waiting[i];
      w <= nextPid && (w in table ==> table[w].state == WAITING)
    }

    /** Two places that hold the same registered pid are one place. */
    ghost predicate Sole(t: nat, i: int, u: nat, j: int)
      reads `table, table.Values`waiting
      requires t in table && 0 <= i < |table[t].waiting| && u in table && 0 <= j < |table[u].waiting|
    {
      var w := table[t].waiting[i];
      w == table[u].waiting[j] && w in table ==> t == u && i == j
    }

    /** A registered process that is listed waits, and is listed by one process, once. */
    ghost predicate Listings()
      reads `table, `nextPid, table.Values`waiting, table.Values`state
    {
      && (forall t, i {:trigger ListOk(t, i)} :: t in table && 0 <= i < |table[t].waiting| ==> ListOk(t, i))
      && (forall t, i, u, j {:trigger Sole(t, i, u, j)} ::
            t in table && 0 <= i < |table[t].waiting| && u in table && 0 <= j < |table[u].waiting| ==> Sole(t, i, u, j))
    }

    /** A process that does not wait is in no list. */
    lemma NotListed(pid: nat)
      requires Listings() && pid in table && table[pid].state != WAITING
      ensures forall t :: t in table ==> pid !in table[t].waiting
    {
      forall t | t in table ensures pid !in table[t].waiting {
        forall i | 0 <= i < |table[t].waiting| ensures table[t].waiting[i] != pid { assert ListOk(t, i); }
      }
    }

    /** Nobody waits for two processes. */
    lemma AwaitsOne(t: nat, u: nat, pid: nat)
      requires Listings() && pid in table && Awaits(t, pid) && Awaits(u, pid)
      ensures t == u && table[pid].state == WAITING
    {
      var i :| 0 <= i < |table[t].waiting| && table[t].waiting[i] == pid;
      var j :| 0 <= j < |table[u].waiting| && table[u].waiting[j] == pid;
      assert Sole(t, i, u, j) && ListOk(t, i);
    }

    /** The lists stay as they are and whoever waits goes on waiting. */
    twostate lemma ListingsKept(was: set<Process>)
      requires table == old(table) && was == table.Values && nextPid == old(nextPid) && old(Listings())
      requires forall q :: q in was ==> q.waiting == old(q.waiting) && (old(q.state) == WAITING ==> q.state == WAITING)
      ensures Listings()
    {
      forall t, i | t in table && 0 <= i < |table[t].waiting| ensures ListOk(t, i) {
        assert table[t] in was && old(ListOk(t, i));
        assert table[t].waiting[i] in table ==> table[table[t].waiting[i]] in was;
      }
      forall t, i, u, j | t in table && 0 <= i < |table[t].waiting| && u in table && 0 <= j < |table[u].waiting| ensures Sole(t, i, u, j) {
        assert table[t] in was && table[u] in was && old(Sole(t, i, u, j));
      }
    }

    ghost predicate Valid()
      reads this, table.Values, ring
    {
      CoreBut(null) && NoLostWaiter() && Listings() && (current == null || current in ring)
    }

    constructor ()
      ensures Valid() && table == map[] && ring == [] && current == null
    {
      table := map[];
      head, tail, current := null, null, null;
      size, nextPid := 0, 0;
      ring := [];
    }

    /** proc_insert_to_ready_queue: register the process and append it to the ring. */
    method InsertReady(p: Process)
      requires RingOk() && p !in ring
      modifies `table, `head, `tail, `size, `ring, p`next, p`prev, p`state
      modifies (if head == null then {} else {head})`prev
      modifies (if tail == null then {} else {tail})`next
      ensures RingOk() && ring == old(ring) + [p] && p.state == READY && table == old(table)[p.pid := p]
    {
      table := table[p.pid := p];
      Enqueue(p);
    }

    /** No process of `was` but `p` and `x` has changed, apart from its links. */
    twostate predicate OthersSame(was: set<Process>, new p: Process?, new x: Process?)
      reads was
    {
      forall q :: q in was && q != p && q != x ==> q.pid == old(q.pid) && q.state == old(q.state) && q.waiting == old(q.waiting)
    }

    /** Appending `p` to the ring and registering it under its pid, which was free, its own, or held by `x`. */
    twostate lemma InsertedCore(was: set<Process>, new p: Process, new x: Process?)
      requires old(allocated(x)) && was == old(table.Values) && p != x
      requires old(CoreBut(x)) && OthersSame(was, p, x)
      requires p !in old(ring) && RingOk() && ring == old(ring) + [p] && table == old(table)[p.pid := p]
      requires p.pid in old(table) ==> old(table)[p.pid] == p || old(table)[p.pid] == x
      requires p in was ==> p.pid in old(table) && old(table)[p.pid] == p
      requires x != null && x in was ==> x.pid == old(x.pid) || (p.pid in old(table) && old(table)[p.pid] == x)
      requires 0 < p.pid <= nextPid && old(nextPid) <= nextPid && p.state == READY && |p.waiting| <= MAX_WAITERS
      ensures CoreBut(x)
    {
      var k := p.pid;
      assert k in old(table) ==> old(Keyed(k)) && old(table)[k] in was;
      forall pid | pid in table ensures Keyed(pid) {
        if pid != k { assert old(Keyed(pid)) && old(table)[pid] in was; }
      }
      forall pid | pid in table && table[pid] != x ensures Entry(pid) {
        if pid != k { assert old(Keyed(pid)) && old(table)[pid] in was && old(Entry(pid)); }
      }
      forall i | 0 <= i < |ring| ensures Registered(i) {
        if i < |ring| - 1 { assert old(Registered(i)) && old(ring)[i] in was && old(Keyed(ring[i].pid)); }
      }
    }

    /** The state of the process left out does not matter. */
    twostate lemma DeadCore(was: set<Process>, new p: Process)
      requires old(allocated(p)) && was == old(table.Values) && old(CoreBut(p)) && unchanged(this)
      requires forall q :: q in was || q in old(ring) ==> q.pid == old(q.pid) && q.waiting == old(q.waiting) && q.next == old(q.next) && q.prev == old(q.prev)
      requires forall q :: q in was && q != p ==> q.state == old(q.state)
      ensures CoreBut(p)
    {
      forall i | 0 <= i < |ring| ensures Linked(i) && Registered(i) {
        assert old(Linked(i)) && old(Registered(i)) && ring[i] in ring && ring[Succ(i, |ring|)] in ring;
      }
      forall i, j | 0 <= i < |ring| && 0 <= j < |ring| ensures Apart(i, j) {
        assert old(Apart(i, j));
      }
      forall pid | pid in table ensures Keyed(pid) && (table[pid] != p ==> Entry(pid)) {
        assert old(Keyed(pid)) && (table[pid] != p ==> old(Entry(pid))) && table[pid] in was;
      }
    }

    /** Write the state of the process left out. */
    method SetState(p: Process, state: bv8)
      requires CoreBut(p)
      modifies p`state
      ensures CoreBut(p) && p.state == state
    {
      p.state := state;
      DeadCore(old(table.Values), p);
    }

    /** Wake a process that is in state `expected`; one in another state loses the bits it shares with it. */
    method TransferToReady(pid: nat, expected: bv8, ghost x: Process?)
      requires CoreBut(x) && (expected == WAITING || expected == SLEEPING)
      requires pid in table && table[pid] == x ==> table[pid].state != expected
      modifies `table, `head, `tail, `size, `ring, table.Values`next, table.Values`prev, table.Values`state
      ensures CoreBut(x) && table == old(table)
      ensures ring == old(ring) + if pid in table && old(table[pid].state) == expected then [table[pid]] else []
      ensures forall q :: q in table ==> table[q].state == if q == pid then Woken(old(table[q].state), expected) else old(table[q].state)
    {
      forall q: nat | q in table ensures Keyed(q) { }
      if pid !in table {
        return;
      }
      var p := table[pid];
      assert p != x ==> Entry(pid);
      if p.state == expected {
        assert ring != [] ==> Registered(0) && Registered(|ring| - 1);
        InsertReady(p);
        InsertedCore(old(table.Values), p, x);
      }
      if p.state & expected != 0 {
        // the states in use share no bit, so this is a process that is dying
        SetState(p, p.state ^ expected);
      }
    }

    /** Unlinking `p` leaves it as the only process whose state the ring does not answer for. */
    twostate lemma UnlinkedCore(was: set<Process>, new p: Process, new k: int)
      requires old(allocated(p)) && was == old(table.Values) && old(CoreBut(null)) && OthersSame(was, p, null)
      requires 0 <= k < old(|ring|) && p == old(ring)[k] && p.pid == old(p.pid)
      requires RingOk() && ring == old(ring)[..k] + old(ring)[k + 1..] && table == old(table) && nextPid == old(nextPid)
      ensures CoreBut(p)
    {
      forall pid | pid in table ensures Keyed(pid) {
        assert old(Keyed(pid)) && old(table)[pid] in was;
      }
      forall i | 0 <= i < |ring| ensures ring[i] == old(ring)[if i < k then i else i + 1] && ring[i] != p && Registered(i) {
        assert old(Apart(if i < k then i else i + 1, k)) && old(Registered(if i < k then i else i + 1));
        assert old(ring)[if i < k then i else i + 1] in was;
      }
      forall q: Process | q in old(ring) && q != p ensures q in ring {
        var j :| 0 <= j < old(|ring|) && old(ring)[j] == q;
        assert ring[if j < k then j else j - 1] == q;
      }
      forall pid | pid in table && table[pid] != p ensures Entry(pid) {
        assert old(Entry(pid)) && old(table)[pid] in was;
      }
    }

    // ---- scheduling

    /** gothmog_schedule: the next process of the ring, or its head when nothing runs. */
    method Schedule()
      requires RingOk() && (current == null || current.next != null)
      modifies `current
      ensures head == null ==> current == old(current)
      ensures head != null ==> current == if old(current) == null then head else old(current).next
    {
      if head == null {
        return;
      }
      if current != null {
        current := current.next;
        return;
      }
      current := head;
    }

    // ---- dying

    /** Every waiting process but `x` is listed by some registered process. */
    ghost predicate NoLostWaiterBut(x: Process)
      reads `table, table.Values`waiting, table.Values`state
    {
      forall pid {:trigger WaiterOk(pid)} :: pid in table && table[pid] != x ==> WaiterOk(pid)
    }

    /** A waiting process stays listed while lists only grow. */
    twostate lemma WaiterGrown(was: set<Process>, new pid: nat)
      requires table == old(table) && was == table.Values && pid in table && old(WaiterOk(pid))
      requires forall t :: t in table && pid in old(table[t].waiting) ==> pid in table[t].waiting
      requires table[pid].state == WAITING ==> old(table[pid].state) == WAITING
      ensures WaiterOk(pid)
    {
      if table[pid].state == WAITING {
        var t :| old(Awaits(t, pid));
        assert Awaits(t, pid);
      }
    }

    twostate lemma WaiterKept(was: set<Process>, new pid: nat)
      requires table == old(table) && was == table.Values && pid in table && old(WaiterOk(pid))
      requires forall q :: q in was ==> q.waiting == old(q.waiting) && (q.state == WAITING ==> old(q.state) == WAITING)
      ensures WaiterOk(pid)
    {
      forall t | t in table ensures table[t] in was { }
      WaiterGrown(was, pid);
    }

    twostate lemma WaitersKept(was: set<Process>, new x: Process)
      requires old(allocated(x)) && table == old(table) && was == table.Values && old(NoLostWaiterBut(x))
      requires forall q :: q in was ==> q.waiting == old(q.waiting) && (q != x && q.state == WAITING ==> old(q.state) == WAITING)
      ensures NoLostWaiterBut(x)
    {
      forall pid | pid in table && table[pid] != x ensures WaiterOk(pid) {
        assert old(WaiterOk(pid)) && table[pid] in was;
        forall t | t in table ensures table[t] in was { }
        WaiterGrown(was, pid);
      }
    }

    /** Wake the next of the list of the dying process `p`. */
    method WakeNext(p: Process, w: nat, ghost done: seq<nat>)
      requires CoreBut(p) && (p.pid in table ==> table[p.pid] == p)
      requires p.state == if p.pid in table && p.pid in done then RUNNING else DEAD
      modifies `table, `head, `tail, `size, `ring, table.Values`next, table.Values`prev, table.Values`state
      ensures CoreBut(p) && table == old(table) && p.state == if p.pid in table && p.pid in done + [w] then RUNNING else DEAD
      ensures ring == old(ring) + if w in table && old(table[w].state) == WAITING then [table[w]] else []
      ensures forall q :: q in table ==> table[q].state == if q == w then Woken(old(table[q].state), WAITING) else old(table[q].state)
    {
      assert w in table ==> Keyed(w);
      TransferToReady(w, WAITING, p);
    }

    /** proc_wake_process on the list of the dying process `p`; if it lists itself it is no longer marked dead. */
    method WakeList(p: Process)
      requires CoreBut(p) && p.state == DEAD && (p.pid in table ==> table[p.pid] == p)
      modifies `table, `head, `tail, `size, `ring, table.Values`next, table.Values`prev, table.Values`state
      ensures CoreBut(p) && table == old(table)
      ensures p.state == if Stuck(p.pid) then RUNNING else DEAD
      ensures forall pid :: pid in table ==> table[pid].state == StateAfter(pid, p.waiting, old(table[pid].state))
      ensures JoinedInOrder(old(ring), ring, table, p.waiting)
    {
      var i := 0;
      NobodyJoined(ring, table);
      assert p.waiting[..0] == [];
      while i < |p.waiting|
        invariant 0 <= i <= |p.waiting| && CoreBut(p) && table == old(table)
        invariant p.state == if p.pid in table && p.pid in p.waiting[..i] then RUNNING else DEAD
        invariant forall pid :: pid in table ==> table[pid].state == StateAfter(pid, p.waiting[..i], old(table[pid].state))
        invariant JoinedInOrder(old(ring), ring, table, p.waiting[..i])
      {
        ghost var done := p.waiting[..i];
        var w := p.waiting[i];
        OneJoins(old(ring), ring, table, done, w, w in table && table[w].state == WAITING);
        WakeNext(p, w, done);
        assert p.waiting[..i + 1] == done + [w];
        forall pid | pid in table ensures table[pid].state == StateAfter(pid, done + [w], old(table[pid].state)) {
          StateAfterMore(pid, done, w, old(table[pid].state));
        }
        i := i + 1;
      }
      assert p.waiting[..i] == p.waiting;
    }

    /** Nobody but `p` loses the process it waits for. */
    method WakeWaiters(p: Process)
      requires CoreBut(p) && NoLostWaiterBut(p) && p.state == DEAD && (p.pid in table ==> table[p.pid] == p)
      modifies `table, `head, `tail, `size, `ring, table.Values`next, table.Values`prev, table.Values`state
      ensures CoreBut(p) && NoLostWaiterBut(p) && table == old(table)
      ensures p.state == if Stuck(p.pid) then RUNNING else DEAD
      ensures forall pid :: pid in table ==> table[pid].state == StateAfter(pid, p.waiting, old(table[pid].state))
      ensures JoinedInOrder(old(ring), ring, table, p.waiting)
    {
      WakeList(p);
      WaitersKept(old(table.Values), p);
    }

    /** Once everyone `p` lists is awake, `p` can leave the table. */
    twostate lemma ForgottenWaiters(new p: Process, was: set<Process>)
      requires old(allocated(p)) && was == old(table.Values) && old(CoreBut(p)) && old(NoLostWaiterBut(p))
      requires old(p.pid in table ==> table[p.pid] == p)
      requires table == old(table) - {old(p.pid)}
      requires forall q :: q in was ==> q.waiting == old(q.waiting) && q.state == old(q.state) && q.pid == old(q.pid)
      requires forall pid :: pid in old(table) && pid in old(p.waiting) ==> old(table[pid].state) != WAITING
      ensures NoLostWaiter()
    {
      forall pid | pid in table ensures WaiterOk(pid) {
        assert old(Keyed(pid)) && old(table)[pid] in was;
        if table[pid].state == WAITING {
          assert old(WaiterOk(pid));
          var t :| old(Awaits(t, pid));
          assert old(Keyed(t)) && old(table)[t] in was;
          assert Awaits(t, pid);
        }
      }
    }

    method Forget(p: Process)
      requires CoreBut(p) && NoLostWaiterBut(p) && (p.pid in table ==> table[p.pid] == p)
      requires forall pid :: pid in table && pid in p.waiting ==> table[pid].state != WAITING
      modifies `table
      ensures CoreBut(null) && NoLostWaiter() && table == old(table) - {p.pid}
    {
      ghost var was := table.Values;
      table := table - {p.pid};
      ForgottenWaiters(p, was);
      forall pid | pid in table ensures Keyed(pid) && Entry(pid) {
        assert old(Keyed(pid)) && old(table)[pid] in was && old(Entry(pid));
      }
      forall i | 0 <= i < |ring| ensures Registered(i) {
        assert old(Registered(i));
      }
    }

    method MarkDead(p: Process)
      requires CoreBut(p) && NoLostWaiterBut(p)
      modifies p`state
      ensures CoreBut(p) && NoLostWaiterBut(p) && p.state == DEAD
    {
      SetState(p, DEAD);
      WaitersKept(old(table.Values), p);
    }

    /** Once the process that listed them is gone, the processes it woke are in no list. */
    twostate lemma BuriedListings(new p: Process, was: set<Process>)
      requires old(allocated(p)) && was == old(table.Values) && old(Listings()) && nextPid == old(nextPid)
      requires old(if p.pid in table then table[p.pid] == p else p.waiting == [])
      requires table == old(table) - {old(p.pid)}
      requires forall q :: q in was ==> q.waiting == old(q.waiting)
      requires forall pid :: pid in table ==> table[pid].state == StateAfter(pid, old(p.waiting), old(table[pid].state))
      ensures Listings()
    {
      forall t, i | t in table && 0 <= i < |table[t].waiting| ensures ListOk(t, i) {
        assert old(table)[t] in was && old(ListOk(t, i));
        var w: nat := table[t].waiting[i];
        forall j | 0 <= j < old(|p.waiting|) ensures w in table ==> old(p.waiting[j]) != w {
          assert old(Sole(t, i, p.pid, j));
        }
      }
      forall t, i, u, j | t in table && 0 <= i < |table[t].waiting| && u in table && 0 <= j < |table[u].waiting| ensures Sole(t, i, u, j) {
        assert old(table)[t] in was && old(table)[u] in was && old(Sole(t, i, u, j));
      }
    }

    /** Mark `p` dead and wake its waiters. */
    method Rouse(p: Process)
      requires CoreBut(p) && NoLostWaiterBut(p) && (p.pid in table ==> table[p.pid] == p)
      modifies `table, `head, `tail, `size, `ring, p`state, table.Values`next, table.Values`prev, table.Values`state
      ensures CoreBut(p) && NoLostWaiterBut(p) && table == old(table)
      ensures p.state == if Stuck(p.pid) then RUNNING else DEAD
      ensures forall pid :: pid in table && pid != p.pid ==> table[pid].state == StateAfter(pid, p.waiting, old(table[pid].state))
      ensures JoinedInOrder(old(ring), ring, table, p.waiting)
    {
      forall pid | pid in table && table[pid] == p ensures pid == p.pid { assert Keyed(pid); }
      MarkDead(p);
      WakeWaiters(p);
    }

    /** Mark `p` dead, wake its waiters and take it out of the table; one that waits for itself is not taken out. */
    method Bury(p: Process)
      requires CoreBut(p) && NoLostWaiterBut(p) && Listings()
      requires if p.pid in table then table[p.pid] == p else p.waiting == []
      modifies `table, `head, `tail, `size, `ring, p`state, table.Values`next, table.Values`prev, table.Values`state
      ensures old(Stuck(p.pid)) ==> CoreBut(p) && table == old(table) && p.state == RUNNING
      ensures !old(Stuck(p.pid)) ==> CoreBut(null) && NoLostWaiter() && Listings() && table == old(table) - {p.pid} && p.state == DEAD
      ensures forall pid :: pid in table && pid != p.pid ==> table[pid].state == StateAfter(pid, p.waiting, old(table[pid].state))
      ensures JoinedInOrder(old(ring), ring, old(table), p.waiting) && p !in ring
    {
      ghost var was := table.Values;
      Rouse(p);
      if p.state == DEAD || p.state == ZOMBIE {
        Forget(p);
        BuriedListings(p, was);
      }
    }

    /** __proc_kill of a process that is not in the ring. */
    method Die(p: Process)
      requires CoreBut(p) && NoLostWaiterBut(p) && Listings()
      requires if p.pid in table then table[p.pid] == p else p.waiting == []
      requires current == null || current == p || current in ring
      modifies `table, `head, `tail, `size, `ring, `current, p`state, table.Values`next, table.Values`prev, table.Values`state
      ensures Valid() <==> !old(Stuck(p.pid))
      ensures table == if old(Stuck(p.pid)) then old(table) else old(table) - {p.pid}
      ensures p.state == if old(Stuck(p.pid)) then RUNNING else DEAD
      ensures forall pid :: pid in table && pid != p.pid ==> table[pid].state == StateAfter(pid, p.waiting, old(table[pid].state))
      ensures current == if old(current) == p then head else old(current)
      ensures p !in ring && JoinedInOrder(old(ring), ring, old(table), p.waiting)
    {
      Bury(p);
      BehindTheRing(old(ring), ring, old(table), p.waiting);
      Reschedule(p);
      assert Stuck(p.pid) ==> !Entry(p.pid);
    }

    /** If `p` was running, the head of the ring runs next. */
    method Reschedule(p: Process)
      requires RingOk() && (current == null || current == p || current in ring)
      modifies `current
      ensures current == (if old(current) == p then head else old(current)) && (current == null || current in ring)
    {
      if p == current {
        current := null;
        Schedule();
      }
    }

    // ---- leaving the ring

    ghost function Place(p: Process): (k: int)
      reads `ring
      requires p in ring
      ensures 0 <= k < |ring| && ring[k] == p
    {
      Index(ring, p)
    }

    /** The ring without `p`. */
    ghost function RingBut(p: Process): seq<Process>
      reads `ring
    {
      Cut(ring, p)
    }

    ghost function Snap(): Shot
      reads this, table.Values
    {
      Shot(ring, current, table, map pid | pid in table :: table[pid].waiting, map pid | pid in table :: table[pid].state, nextPid)
    }

    /** The running process is registered under its pid. */
    lemma RunsIs()
      requires Valid() && current != null
      ensures Runs(Snap(), current.pid)
    {
      assert Registered(Place(current));
    }

    /** Who comes after `p` on the ring; nobody if `p` is alone. */
    ghost function Successor(p: Process): Process?
      reads `ring
      requires p in ring
    {
      if |ring| == 1 then null else ring[Succ(Place(p), |ring|)]
    }

    /** Take a ready process off the ring; `next` still leads to its successor. */
    method TakeOff(p: Process)
      requires CoreBut(null) && p in ring
      modifies `head, `tail, `size, `ring, ring`next, ring`prev
      ensures CoreBut(p) && ring == old(ring[..Place(p)] + ring[Place(p) + 1..])
      ensures p.next == (if old(Successor(p)) == null then p else old(Successor(p)))
      ensures (p.next == p <==> ring == []) && (ring != [] ==> p.next in ring)
      ensures forall q :: q in old(ring) && q != p ==> q in ring
    {
      ghost var k := Place(p);
      Unlink(p, k);
      UnlinkedCore(old(table.Values), p, k);
      forall q: Process | q in old(ring) && q != p ensures q in ring {
        var j :| 0 <= j < old(|ring|) && old(ring)[j] == q;
        assert ring[if j < k then j else j - 1] == q;
      }
      if old(|ring|) > 1 {
        assert old(Apart(k, Succ(k, |ring|)));
      }
    }

    /** A process of the table that is in a known state and off the ring is accounted for. */
    lemma SettledCore(p: Process)
      requires CoreBut(p) && (p.state == WAITING || p.state == SLEEPING)
      requires p.pid in table ==> 0 < p.pid <= nextPid && |p.waiting| <= MAX_WAITERS
      ensures CoreBut(null)
    {
      forall pid | pid in table ensures Entry(pid) {
        assert Keyed(pid);
        if table[pid] != p { assert Entry(pid); }
      }
    }

    /** A ready process leaves the ring and gets the state `state`. */
    method Suspend(p: Process, state: bv8)
      requires CoreBut(null) && p in ring && (state == WAITING || state == SLEEPING)
      modifies `head, `tail, `size, `ring, ring`next, ring`prev, p`state
      ensures CoreBut(null) && p.state == state && ring == old(ring[..Place(p)] + ring[Place(p) + 1..])
      ensures p.next == (if old(Successor(p)) == null then p else old(Successor(p)))
      ensures (p.next == p <==> ring == []) && (ring != [] ==> p.next in ring)
      ensures forall q :: q in old(ring) && q != p ==> q in ring
      ensures forall pid :: pid in table && pid != p.pid ==> table[pid].state == old(table[pid].state)
    {
      assert Registered(Place(p)) && Entry(p.pid);
      forall pid | pid in table && table[pid] == p ensures pid == p.pid { assert Keyed(pid); }
      TakeOff(p);
      SetState(p, (p.state & !READY & !RUNNING) | state);
      SettledCore(p);
    }

    /** proc_to_sleep: if the process was running, its successor runs next. */
    method ToSleep(pid: nat, state: bv8)
      requires CoreBut(null) && (current == null || current in ring) && (state == WAITING || state == SLEEPING)
      modifies `head, `tail, `size, `ring, `current, ring`next, ring`prev, ring`state
      ensures CoreBut(null) && (current == null || current in ring)
      ensures if pid in table && old(table[pid].state) == READY
              then table[pid].state == state && ring == old(ring[..Place(table[pid])] + ring[Place(table[pid]) + 1..])
              else ring == old(ring) && (pid in table ==> table[pid].state == old(table[pid].state))
      ensures forall q :: q in table && q != pid ==> table[q].state == old(table[q].state)
      ensures current == if pid in table && old(table[pid].state) == READY && old(current) == table[pid]
                         then old(Successor(current)) else old(current)
    {
      if pid !in table {
        return;
      }
      var p := table[pid];
      assert Entry(pid);
      if p.state != READY && p.state != RUNNING {
        return;
      }
      Suspend(p, state);
      if p == current {
        if p == current.next {
          current := null;
        }
        Schedule();
      }
    }

    // ---- system calls

    method Tick()
      requires Valid()
      modifies `current
      ensures Valid()
      ensures ring == [] ==> current == null
      ensures ring != [] ==> current == if old(current) == null then ring[0] else ring[Succ(Place(old(current)), |ring|)]
    {
      assert current != null ==> Linked(Place(current));
      Schedule();
    }

    lemma PlaceIs(k: int)
      requires RingOk() && 0 <= k < |ring|
      ensures Place(ring[k]) == k
    {
      assert Apart(k, Place(ring[k]));
    }

    /** On a ring that does not change, one tick per process runs every process exactly once. */
    method Round() returns (visited: seq<Process>)
      requires Valid() && current != null
      modifies `current
      ensures Valid() && current == old(current) && |visited| == |ring|
      ensures forall i, j :: 0 <= i < j < |visited| ==> visited[i] != visited[j]
      ensures forall p :: p in ring <==> p in visited
    {
      visited := [];
      ghost var n, k := |ring|, Place(current);
      var i := 0;
      while i < size
        invariant Valid() && 0 <= i <= n == size && |visited| == i && ring == old(ring)
        invariant current == ring[if k + i < n then k + i else k + i - n]
        invariant forall j :: 0 <= j < i ==> visited[j] == ring[if k + j + 1 < n then k + j + 1 else k + j + 1 - n]
      {
        PlaceIs(if k + i < n then k + i else k + i - n);
        Tick();
        visited := visited + [current];
        i := i + 1;
      }
      forall a, b | 0 <= a < b < n ensures visited[a] != visited[b] {
        assert Apart(if k + a + 1 < n then k + a + 1 else k + a + 1 - n, if k + b + 1 < n then k + b + 1 else k + b + 1 - n);
      }
      forall p: Process | p in ring ensures p in visited {
        var m := Place(p);
        assert visited[if m > k then m - k - 1 else m - k - 1 + n] == p;
      }
    }

    /** A process with a pid that was never used, not registered yet. */
    method NewProcess() returns (p: Process)
      requires Valid()
      modifies `nextPid
      ensures Valid() && fresh(p) && nextPid == old(nextPid) + 1 == p.pid && p.pid !in table
      ensures p.state == READY && p.waiting == [] && (forall t :: t in table ==> p.pid !in table[t].waiting)
    {
      forall pid | pid in table ensures pid <= nextPid { assert Entry(pid); }
      nextPid := nextPid + 1;
      p := new Process(nextPid);
      forall pid | pid in table ensures Entry(pid) { assert old(Entry(pid)); }
      forall t, i | t in table && 0 <= i < |table[t].waiting| ensures ListOk(t, i) && table[t].waiting[i] != nextPid {
        assert old(ListOk(t, i));
      }
      forall t, i, u, j | t in table && 0 <= i < |table[t].waiting| && u in table && 0 <= j < |table[u].waiting| ensures Sole(t, i, u, j) {
        assert old(Sole(t, i, u, j));
      }
    }

    /** Registering a process that lists nobody and that nobody lists. */
    twostate lemma ListingsGrown(new p: Process, new pid: nat)
      requires old(Listings()) && nextPid == old(nextPid) && pid !in old(table) && table == old(table)[pid := p] && p.waiting == []
      requires forall t :: t in old(table) ==> pid !in table[t].waiting
      requires forall q :: q in old(table.Values) ==> q.waiting == old(q.waiting) && q.state == old(q.state)
      ensures Listings()
    {
      forall t, i | t in table && 0 <= i < |table[t].waiting| ensures ListOk(t, i) {
        assert old(table)[t] in old(table.Values) && old(ListOk(t, i));
        var w: nat := table[t].waiting[i];
        assert w in old(table) ==> old(table)[w] in old(table.Values);
      }
      forall t, i, u, j | t in table && 0 <= i < |table[t].waiting| && u in table && 0 <= j < |table[u].waiting| ensures Sole(t, i, u, j) {
        assert old(table)[t] in old(table.Values) && old(table)[u] in old(table.Values) && old(Sole(t, i, u, j));
      }
    }

    twostate lemma WaitersGrown(new p: Process, new pid: nat)
      requires old(NoLostWaiter()) && pid !in old(table) && table == old(table)[pid := p] && p.state == READY
      requires forall q :: q in old(table.Values) ==> q.waiting == old(q.waiting) && q.state == old(q.state)
      ensures NoLostWaiter()
    {
      forall w | w in table && w != pid ensures WaiterOk(w) {
        assert old(table)[w] in old(table.Values) && old(WaiterOk(w));
        if table[w].state == WAITING {
          var t :| old(Awaits(t, w));
          assert old(table)[t] in old(table.Values) && Awaits(t, w);
        }
      }
    }

    /** What fork and the creation of a process do to the table and the ring. */
    method Spawn() returns (pid: nat)
      requires Valid()
      modifies this, table.Values`next, table.Values`prev
      ensures Valid() && pid == old(nextPid) + 1 && pid !in old(table) && nextPid == pid && current == old(current)
      ensures pid in table && fresh(table[pid]) && table == old(table)[pid := table[pid]] && ring == old(ring) + [table[pid]]
      ensures table[pid].waiting == []
    {
      var p := NewProcess();
      pid := p.pid;
      label L:
      assert ring != [] ==> Registered(0) && Registered(|ring| - 1);
      InsertReady(p);
      InsertedCore@L(old(table.Values), p, null);
      ListingsGrown@L(p, pid);
      WaitersGrown@L(p, pid);
    }

    /** A process that no step of the life cycle can lose is left out of the ring, whatever its state. */
    lemma LeftOut(p: Process)
      requires CoreBut(null) && p.pid in table && table[p.pid] == p && p.state != READY
      ensures CoreBut(p)
    {
      assert Entry(p.pid);
    }

    /** A ready process, so one that is in no list, off the ring. */
    method LeaveRing(p: Process)
      requires Valid() && p in ring
      modifies `head, `tail, `size, `ring, ring`next, ring`prev
      ensures CoreBut(p) && NoLostWaiterBut(p) && Listings() && ring == old(RingBut(p))
      ensures p.pid in table && table[p.pid] == p && !Stuck(p.pid) && (current == null || current == p || current in ring)
    {
      assert Registered(Place(p)) && Entry(p.pid);
      NotListed(p.pid);
      TakeOff(p);
      WaitersKept(old(table.Values), p);
    }

    /** proc_kill_process: a ready process leaves the ring and dies. */
    method KillReady(p: Process)
      requires Valid() && p in ring
      modifies this, table.Values`next, table.Values`prev, table.Values`state, ring`next, ring`prev
      ensures Valid() && !old(Stuck(p.pid)) && table == old(table) - {p.pid} && nextPid == old(nextPid)
      ensures p.state == DEAD && p !in ring && JoinedInOrder(old(RingBut(p)), ring, old(table), p.waiting)
      ensures forall q :: q in table ==> table[q].state == StateAfter(q, p.waiting, old(table[q].state))
      ensures current == if old(current) == p then head else old(current)
    {
      LeaveRing(p);
      Die(p);
    }

    /** proc_kill of a registered process. */
    method KillProcess(p: Process)
      requires Valid() && p.pid in table && table[p.pid] == p
      modifies this, table.Values`next, table.Values`prev, table.Values`state, ring`next, ring`prev
      ensures Valid() <==> !old(Stuck(p.pid))
      ensures table == (if old(Stuck(p.pid)) then old(table) else old(table) - {p.pid}) && nextPid == old(nextPid)
      ensures p.state == (if old(Stuck(p.pid)) then RUNNING else DEAD) && p !in ring
      ensures JoinedInOrder(old(RingBut(p)), ring, old(table), p.waiting)
      ensures forall q :: q in table && q != p.pid ==> table[q].state == StateAfter(q, p.waiting, old(table[q].state))
      ensures current == if old(current) == p then head else old(current)
    {
      assert Entry(p.pid);
      if p.state & WAITING == 0 && p.state & SLEEPING == 0 && p.state != DEAD && p.state != ZOMBIE {
        KillReady(p);
      } else {
        LeftOut(p);
        Die(p);
      }
    }

    /**
     The kill system call with SIGKILL; -1 if there is no such process.  A process that waits for itself
     loses its dead mark when its own list is woken, so it stays in the table, in a state no process has.
     */
    method Kill(pid: nat) returns (r: int)
      requires Valid()
      modifies this, table.Values`next, table.Values`prev, table.Values`state, ring`next, ring`prev
      ensures Valid() <==> !old(Stuck(pid))
      ensures table == (if old(Stuck(pid)) then old(table) else old(table) - {pid}) && nextPid == old(nextPid)
      ensures old(Stuck(pid)) ==> table[pid].state == RUNNING && table[pid] !in ring
      ensures if pid in old(table) then JoinedInOrder(old(RingBut(table[pid])), ring, old(table), old(table[pid].waiting)) else ring == old(ring)
      ensures r == if pid in old(table) then 0 else -1
      ensures forall q :: q in table && q != pid ==>
                table[q].state == StateAfter(q, if pid in old(table) then old(table[pid].waiting) else [], old(table[q].state))
      ensures current == if pid in old(table) && old(current) == old(table)[pid] then head else old(current)
    {
      if pid !in table {
        return -1;
      }
      assert Keyed(pid);
      KillProcess(table[pid]);
      return 0;
    }

    method Exit()
      requires Valid() && current != null
      modifies this, table.Values`next, table.Values`prev, table.Values`state, ring`next, ring`prev
      ensures Valid() && table == old(table) - {old(current.pid)} && current == head && nextPid == old(nextPid)
      ensures !old(Stuck(current.pid)) && JoinedInOrder(old(RingBut(current)), ring, old(table), old(current.waiting))
      ensures forall q :: q in table ==> table[q].state == StateAfter(q, old(current.waiting), old(table[q].state))
    {
      assert Registered(Place(current));
      KillReady(table[current.pid]);
    }

    method Sleep()
      requires Valid() && current != null
      modifies `head, `tail, `size, `ring, `current, ring`next, ring`prev, ring`state
      ensures Valid() && old(current).state == SLEEPING && old(current) !in ring && ring == old(RingBut(current))
      ensures current == old(Successor(current))
      ensures forall q :: q in table && table[q] != old(current) ==> table[q].state == old(table[q].state)
      ensures old(current.state) == READY
    {
      assert Registered(Place(current)) && Entry(current.pid);
      ToSleep(current.pid, SLEEPING);
      assert Entry(old(current.pid));
      forall q | q in table.Values ensures old(q.state) == WAITING ==> q.state == WAITING {
        var w :| w in table && table[w] == q;
        assert Keyed(w);
      }
      ListingsKept(old(table.Values));
      forall w | w in table ensures WaiterOk(w) {
        assert old(WaiterOk(w)) && Keyed(w);
        WaiterKept(old(table.Values), w);
      }
    }

    /** The sleep timer wakes a process; one that is not asleep is left alone. */
    method WakeSleeper(pid: nat)
      requires Valid()
      modifies `table, `head, `tail, `size, `ring, table.Values`next, table.Values`prev, table.Values`state
      ensures Valid() && table == old(table) && current == old(current)
      ensures ring == old(ring) + if pid in table && old(table[pid].state) == SLEEPING then [table[pid]] else []
      ensures forall q :: q in table ==> table[q].state == if q == pid && old(table[q].state) == SLEEPING then READY else old(table[q].state)
    {
      assert pid in table ==> Entry(pid);
      TransferToReady(pid, SLEEPING, null);
      forall q | q in table.Values ensures old(q.state) == WAITING ==> q.state == WAITING {
        var w :| w in table && table[w] == q;
        assert old(Keyed(w)) && old(Entry(w));
      }
      ListingsKept(old(table.Values));
      forall w | w in table ensures WaiterOk(w) {
        assert old(WaiterOk(w)) && Keyed(w);
        WaiterKept(old(table.Values), w);
      }
    }

    /** proc_add_to_waiting */
    method AddToWaiting(pid: nat, target: nat) returns (r: int)
      requires CoreBut(null)
      modifies table.Values`waiting
      ensures CoreBut(null)
      ensures r == if target in table && old(|table[target].waiting|) < MAX_WAITERS then 0 else -1
      ensures forall q :: q in table ==>
                table[q].waiting == old(table[q].waiting) + if r == 0 && q == target then [pid] else []
      ensures r != 0 ==> unchanged(table.Values)
    {
      if target in table && |table[target].waiting| < MAX_WAITERS {
        var p := table[target];
        p.waiting := p.waiting + [pid];
        forall q | q in table ensures Keyed(q) && Entry(q) && (table[q] == p ==> q == target) {
          assert old(Keyed(q)) && old(Keyed(target)) && old(Entry(q));
        }
        return 0;
      }
      return -1;
    }

    /** A process that was in no list and now waits joins one. */
    twostate lemma ListingsJoined(was: set<Process>, new pid: nat, new target: nat)
      requires table == old(table) && was == table.Values && nextPid == old(nextPid) && old(Listings())
      requires pid in table && target in table && pid <= nextPid && table[pid].state == WAITING
      requires forall t :: t in table ==> pid !in old(table[t].waiting)
      requires forall t :: t in table ==> table[t].waiting == old(table[t].waiting) + if t == target then [pid] else []
      requires forall t :: t in table && t != pid ==> table[t].state == old(table[t].state)
      ensures Listings()
    {
      forall t, i | t in table && 0 <= i < |table[t].waiting| ensures ListOk(t, i) {
        if i < old(|table[t].waiting|) { assert old(ListOk(t, i)); }
      }
      forall t, i, u, j | t in table && 0 <= i < |table[t].waiting| && u in table && 0 <= j < |table[u].waiting| ensures Sole(t, i, u, j) {
        if i < old(|table[t].waiting|) && j < old(|table[u].waiting|) {
          assert old(Sole(t, i, u, j));
        } else {
          assert i < old(|table[t].waiting|) ==> table[t].waiting[i] in old(table[t].waiting);
          assert j < old(|table[u].waiting|) ==> table[u].waiting[j] in old(table[u].waiting);
        }
      }
    }

    twostate lemma WaitersJoined(was: set<Process>, new pid: nat, new target: nat)
      requires table == old(table) && was == table.Values && old(NoLostWaiter()) && pid in table && target in table
      requires forall t :: t in table ==> table[t].waiting == old(table[t].waiting) + if t == target then [pid] else []
      requires forall t :: t in table && t != pid ==> table[t].state == old(table[t].state)
      ensures NoLostWaiter()
    {
      forall w | w in table ensures WaiterOk(w) {
        assert old(WaiterOk(w));
        if w == pid {
          assert Awaits(target, w);
        } else {
          WaiterGrown(was, w);
        }
      }
    }

    twostate lemma JoinedOne(new pid: nat, new target: nat)
      requires table == old(table) && pid in table && forall t :: t in table ==> pid !in old(table[t].waiting)
      requires forall t :: t in table ==> table[t].waiting == old(table[t].waiting) + if t == target then [pid] else []
      ensures forall t :: t in table ==> (Awaits(t, pid) <==> t == target)
      ensures Stuck(pid) <==> target == pid
    {
    }

    /** Wait for `target`: on success no other process lists the caller, so one that waits for itself is stuck. */
    method Wait(target: nat) returns (r: int)
      requires Valid() && current != null
      modifies this, ring`next, ring`prev, ring`state, table.Values`waiting
      ensures Valid() && table == old(table) && nextPid == old(nextPid)
      ensures r == if target in table && old(|table[target].waiting|) < MAX_WAITERS then 0 else -1
      ensures forall q :: q in table ==> table[q].waiting == old(table[q].waiting) + if r == 0 && q == target then [old(current.pid)] else []
      ensures forall q :: q in table ==> table[q].state == if r == 0 && q == old(current.pid) then WAITING else old(table[q].state)
      ensures old(current.pid) in table && table[old(current.pid)] == old(current) && old(current.state) == READY
      ensures r == 0 ==> forall t :: t in table ==> (Awaits(t, old(current.pid)) <==> t == target)
      ensures r == 0 ==> ring == old(ring[..Place(current)] + ring[Place(current) + 1..]) && current == old(Successor(current))
      ensures r != 0 ==> ring == old(ring) && current == old(current)
      ensures Stuck(old(current.pid)) <==> r == 0 && target == old(current.pid)
    {
      assert Registered(Place(current)) && Entry(current.pid);
      NotListed(current.pid);
      r := AddToWaiting(current.pid, target);
      if r == 0 {
        ToSleep(current.pid, WAITING);
        ghost var pid := old(current.pid);
        forall q | q in table ensures table[q] == old(current) ==> q == pid { assert old(Keyed(q)); }
        ListingsJoined(old(table.Values), pid, target);
        WaitersJoined(old(table.Values), pid, target);
        JoinedOne(pid, target);
      }
    }

    /** The list of waiters goes from `c` to the process that replaces it. */
    method MoveList(c: Process, p: Process)
      requires CoreBut(null) && c in ring && p !in ring && p !in table.Values && p.waiting == []
      modifies c`waiting, p`waiting
      ensures CoreBut(null) && p.waiting == old(c.waiting) && c.waiting == []
    {
      assert Registered(Place(c));
      if |c.waiting| != 0 {
        p.waiting := c.waiting;
        c.waiting := [];
      }
      forall pid | pid in table ensures Keyed(pid) && Entry(pid) {
        assert old(Keyed(pid)) && old(Entry(pid));
      }
    }

    /** proc_transfert_to_waiting of the running process; the state it leaves is overwritten at once. */
    method StepAside(c: Process)
      requires CoreBut(null) && c in ring
      modifies `head, `tail, `size, `ring, ring`next, ring`prev, c`state
      ensures CoreBut(c) && ring == old(ring[..Place(c)] + ring[Place(c) + 1..])
    {
      assert Registered(Place(c)) && Entry(c.pid);
      TakeOff(c);
      SetState(c, (c.state ^ (READY | RUNNING)) | WAITING);
    }

    /** Exchange the pids of `c` and `p` and register `p`. */
    method SwapPids(c: Process, p: Process)
      requires CoreBut(c) && c.pid in table && table[c.pid] == c && p !in ring && p !in table.Values && p != c
      requires p.pid !in table && 0 < c.pid <= nextPid && |p.waiting| <= MAX_WAITERS
      modifies `table, `head, `tail, `size, `ring, c`pid, c`state, p`pid, p`state, p`next, p`prev
      modifies table.Values`next, table.Values`prev
      ensures CoreBut(null) && p.pid == old(c.pid) && c.pid == old(p.pid) && c.state == WAITING && p.state == READY
      ensures table == old(table)[old(c.pid) := p] && ring == old(ring) + [p] && c !in table.Values && c !in ring
    {
      assert ring != [] ==> Registered(0) && Registered(|ring| - 1);
      forall pid | pid in table && table[pid] == c ensures pid == c.pid { assert Keyed(pid); }
      c.pid, p.pid := p.pid, c.pid;
      c.state := WAITING;
      InsertReady(p);
      InsertedCore(old(table.Values), p, c);
      forall pid | pid in table ensures table[pid] != c { }
    }

    /** A waiting process stays listed when `p` takes over the pid and the list of `c`. */
    twostate lemma WaiterMoved(new p: Process, new pid: nat, new w: nat)
      requires pid in old(table) && table == old(table)[pid := p] && w in table && p.state == READY
      requires p.waiting == old(table[pid].waiting)
      requires forall t :: t in table && t != pid ==> table[t].waiting == old(table[t].waiting) && table[t].state == old(table[t].state)
      requires old(WaiterOk(w))
      ensures WaiterOk(w)
    {
      if table[w].state == WAITING {
        var t :| old(Awaits(t, w));
        assert Awaits(t, w);
      }
    }

    /** The lists stay disjoint when `p` takes over the pid and the list of a process that is in none. */
    twostate lemma ListingsMoved(new p: Process, new pid: nat)
      requires old(Listings()) && nextPid == old(nextPid) && pid in old(table) && table == old(table)[pid := p]
      requires p.waiting == old(table[pid].waiting) && old(table[pid].state) != WAITING
      requires forall t :: t in table && t != pid ==> table[t].waiting == old(table[t].waiting) && table[t].state == old(table[t].state)
      ensures Listings()
    {
      forall t, i | t in table && 0 <= i < |table[t].waiting| ensures ListOk(t, i) {
        assert old(ListOk(t, i));
      }
      forall t, i, u, j | t in table && 0 <= i < |table[t].waiting| && u in table && 0 <= j < |table[u].waiting| ensures Sole(t, i, u, j) {
        assert old(Sole(t, i, u, j));
      }
    }

    /** Lines 497 to 514 of exec: `p` takes the place of the running process in every respect but the ring. */
    method Replace(p: Process)
      requires Valid() && current != null && p !in ring && p !in table.Values && p.waiting == [] && p.pid !in table
      modifies this, ring, table.Values, p
      ensures CoreBut(null) && NoLostWaiter() && Listings()
      ensures table == old(table)[old(current.pid) := p] && p.pid == old(current.pid) && p.waiting == old(current.waiting)
      ensures ring == old(ring[..Place(current)] + ring[Place(current) + 1..]) + [p] && p.state == READY
      ensures current == old(current) && current !in ring && current !in table.Values && nextPid == old(nextPid)
      ensures current.state == WAITING && current.waiting == [] && current.pid == old(p.pid)
      ensures forall t :: t in table && t != p.pid ==> table[t].waiting == old(table[t].waiting) && table[t].state == old(table[t].state)
    {
      var c := current;
      assert Registered(Place(c)) && Entry(c.pid);
      MoveList(c, p);
      StepAside(c);
      SwapPids(c, p);
      ghost var pid := old(current.pid);
      forall w | w in table ensures WaiterOk(w) {
        assert old(Keyed(w)) && old(WaiterOk(w));
        WaiterMoved(p, pid, w);
      }
      ListingsMoved(p, pid);
    }

    /** The new process `p` has the pid, the registration and the waiters of the process `c`, and is last in the ring. */
    twostate predicate Replaced(c: Process, new p: Process)
      reads this, table.Values, c, p
    {
      && old(c in ring && c.pid in table && table[c.pid] == c) && p.pid == old(c.pid)
      && table == old(table)[p.pid := p] && p.waiting == old(c.waiting) && c !in ring && c !in table.Values
      && ring == old(ring[..Place(c)] + ring[Place(c) + 1..]) + [p]
      && (forall t :: t in table && t != p.pid ==> table[t].waiting == old(table[t].waiting) && table[t].state == old(table[t].state))
    }

    /** The old process goes on running although it has neither a place in the ring nor an entry in the table. */
    twostate predicate LeftRunning(c: Process, new p: Process)
      reads this, table.Values, c, p
    {
      Replaced(c, p) && current == c && c.state == WAITING && c.waiting == [] && c.pid == nextPid && p.state == READY
    }

    /**
     Execute a program.  `home` says that the running process has a working directory or its user has a home,
     `argv` that there is a frame for the arguments.  The result is -1 without either; what is left then differs:
     without `home` nothing but a used pid, without `argv` a process that takes over while the old one still runs.
     The same is left when `kill` is clear.
     */
    method Exec(kill: bool, home: bool, argv: bool) returns (r: int)
      requires Valid() && (kill ==> current != null)
      modifies this, ring, table.Values
      ensures nextPid == old(nextPid) + 1
      ensures r == if argv && (home || old(current) == null) then 0 else -1
      ensures Valid() <==> old(current) == null || !home || (kill && argv)
      ensures old(current) == null ==>
                && current == null && nextPid in table && fresh(table[nextPid]) && table == old(table)[nextPid := table[nextPid]]
                && ring == old(ring) + [table[nextPid]] && table[nextPid].waiting == []
                && forall q :: q in old(table) ==> table[q].waiting == old(table[q].waiting) && table[q].state == old(table[q].state)
      ensures old(current) != null && !home ==> current == old(current) && table == old(table) && ring == old(ring) && unchanged(table.Values)
      ensures old(current) != null && home ==>
                old(current.pid) in table && fresh(table[old(current.pid)]) && Replaced(old(current), table[old(current.pid)])
      ensures old(current) != null && home && !(kill && argv) ==> LeftRunning(old(current), table[old(current.pid)])
      ensures old(current) != null && home && kill && argv ==> old(current).state == DEAD && current == ring[Succ(0, |ring|)]
    {
      if current == null {
        var pid := Spawn();
        return if argv then 0 else -1;
      }
      var c := current;
      assert Registered(Place(c));
      var p := NewProcess();
      if !home {
        return -1;
      }
      TakeOver(p, argv && kill);
      return if argv then 0 else -1;
    }

    /** Lines 497 to 538 of exec: without a frame for the arguments it returns before the kill. */
    method TakeOver(p: Process, kill: bool)
      requires Valid() && current != null && p !in ring && p !in table.Values && p.waiting == [] && p.pid !in table && p.pid == nextPid
      modifies this, ring, table.Values, p
      ensures nextPid == old(nextPid) && old(current.pid) in table && table[old(current.pid)] == p && Replaced(old(current), p)
      ensures Valid() <==> kill
      ensures if kill then old(current).state == DEAD && current == ring[Succ(0, |ring|)] else LeftRunning(old(current), p)
    {
      assert Registered(Place(current));
      Replace(p);
      if kill {
        KillReplaced(p);
      }
    }

    /** The death of the running process `c`, which nobody can miss. */
    method BuryReplaced(c: Process)
      requires CoreBut(null) && NoLostWaiter() && Listings() && c == current && c !in ring && c.pid !in table && c.waiting == []
      modifies this, c`state, table.Values`next, table.Values`prev, table.Values`state
      ensures Valid() && table == old(table) && ring == old(ring) && current == head && nextPid == old(nextPid) && c.state == DEAD
      ensures forall pid :: pid in table ==> table[pid].state == old(table[pid].state)
    {
      Die(c);
      BehindTheRing(old(ring), ring, old(table), []);
    }

    /** proc_kill of the running process, which is neither registered nor in the ring, then a forced switch. */
    method KillReplaced(ghost p: Process)
      requires CoreBut(null) && NoLostWaiter() && Listings() && p in ring
      requires current != null && current !in ring && current.pid !in table && current.waiting == []
      modifies this, current`state, table.Values`next, table.Values`prev, table.Values`state
      ensures Valid() && table == old(table) && ring == old(ring) && current == ring[Succ(0, |ring|)] && nextPid == old(nextPid)
      ensures old(current).state == DEAD && old(current) !in ring
      ensures forall pid :: pid in table ==> table[pid].state == old(table[pid].state)
    {
      var c := current;
      BuryReplaced(c);
      assert Linked(0);
      Schedule();
    }

    lemma RingInTable()
      requires CoreBut(null)
      ensures forall p :: p in ring ==> p in table.Values
    {
      forall p | p in ring ensures p in table.Values {
        assert Registered(Place(p));
        assert table[p.pid] in table.Values;
      }
    }

    /** What a step does to a registered process `w` that waits for `t`: it waits exactly as long as `t` is registered. */
    twostate predicate Follows(new t: nat, new w: nat)
      reads this, table.Values
    {
      old(Awaits(t, w) && w in table) && w in table ==>
        if t in table then Awaits(t, w) && table[w].state == WAITING else table[w].state == READY
    }

    /** Every waiting process follows the one it waits for, no old pid comes back, and a stuck process stays. */
    twostate predicate StepKeeps()
      reads this, table.Values
    {
      && (forall t, w {:trigger Follows(t, w)} :: Follows(t, w))
      && (forall pid :: pid in table ==> pid in old(table) || pid > old(nextPid)) && old(nextPid) <= nextPid
      && (forall pid :: old(Stuck(pid)) ==> pid in table)
    }

    /** A step that takes no process out of the table and leaves lists and waiting processes as they are. */
    twostate lemma KeepsAll()
      requires old(Valid()) && old(nextPid) <= nextPid
      requires forall pid :: pid in old(table) ==> pid in table
      requires forall pid :: pid in table ==> pid in old(table) || pid > old(nextPid)
      requires forall pid :: pid in old(table) ==> old(table[pid].waiting) <= table[pid].waiting
      requires forall pid :: pid in old(table) && old(table[pid].state) == WAITING ==> table[pid].state == WAITING
      ensures StepKeeps()
    {
      forall t, w ensures Follows(t, w) {
        if old(Awaits(t, w) && w in table) {
          var i :| 0 <= i < old(|table[t].waiting|) && old(table[t].waiting[i]) == w;
          assert old(ListOk(t, i)) && table[t].waiting[i] == w;
        }
      }
    }
    /** The death of `x`. */
    twostate lemma KeepsDeath(new x: nat)
      requires old(Valid()) && nextPid == old(nextPid) && !old(Stuck(x)) && table == old(table) - {x}
      requires forall q :: q in table ==> table[q].waiting == old(table[q].waiting)
      requires forall q :: q in table ==>
                 table[q].state == StateAfter(q, if x in old(table) then old(table[x].waiting) else [], old(table[q].state))
      ensures StepKeeps()
    {
      forall t, w ensures Follows(t, w) {
        if old(Awaits(t, w) && w in table) && w in table {
          var i :| 0 <= i < old(|table[t].waiting|) && old(table[t].waiting[i]) == w;
          assert old(ListOk(t, i));
          if old(Awaits(x, w)) {
            var j :| 0 <= j < old(|table[x].waiting|) && old(table[x].waiting[j]) == w;
            assert old(Sole(t, i, x, j));
          }
        }
      }
    }

    /** The running process replaced by `p`. */
    twostate lemma KeepsReplaced(c: Process, new p: Process)
      requires old(Valid()) && Replaced(c, p) && old(nextPid) <= nextPid
      ensures StepKeeps()
    {
      assert old(Entry(c.pid));
      KeepsAll();
    }

    // ---- what the steps do, by snapshots

    twostate lemma SpawnedSnap()
      requires var pid := old(nextPid) + 1;
               && nextPid == pid && pid in table && pid !in old(table) && table == old(table)[pid := table[pid]] && current == old(current)
               && table[pid] !in old(table.Values) && table[pid].waiting == [] && table[pid].state == READY && ring == old(ring) + [table[pid]]
      requires forall q :: q in old(table) ==> table[q].waiting == old(table[q].waiting) && table[q].state == old(table[q].state)
      ensures Spawned(old(Snap()), Snap())
    {
      var pid := nextPid;
      assert Snap().waiting == old(Snap()).waiting[pid := []];
      assert Snap().state == old(Snap()).state[pid := READY];
    }

    twostate lemma DiedSnap(new x: nat)
      requires x in old(table) && table == old(table) - {x} && nextPid == old(nextPid)
      requires forall q :: q in table ==> table[q].waiting == old(table[q].waiting)
      requires forall q :: q in table ==> table[q].state == StateAfter(q, old(table[x].waiting), old(table[q].state))
      requires JoinedInOrder(old(RingBut(table[x])), ring, old(table), old(table[x].waiting))
      requires current == if old(current) == old(table)[x] then First(ring) else old(current)
      ensures Died(old(Snap()), Snap(), x)
    {
      assert Snap().waiting == old(Snap()).waiting - {x};
    }

    twostate lemma WokenSnap(new x: nat)
      requires table == old(table) && nextPid == old(nextPid) && current == old(current)
      requires ring == old(ring) + if x in table && old(table[x].state) == SLEEPING then [table[x]] else []
      requires forall q :: q in table ==> table[q].waiting == old(table[q].waiting)
      requires forall q :: q in table ==> table[q].state == if q == x && old(table[q].state) == SLEEPING then READY else old(table[q].state)
      ensures Next(old(Snap()), Snap(), WakeStep(x))
    {
      var a := old(Snap());
      assert Snap().waiting == a.waiting;
      assert Snap().state == if x in a.table && a.state[x] == SLEEPING then a.state[x := READY] else a.state;
    }

    /** The running process, registered under `pid`, off the ring and in another state. */
    twostate lemma SteppedSnap(new pid: nat, new state: bv8)
      requires old(current != null && current in ring && pid in table && table[pid] == current)
      requires table == old(table) && nextPid == old(nextPid) && ring == old(RingBut(current)) && current == old(Successor(current))
      requires forall q :: q in table ==> table[q].state == if q == pid then state else old(table[q].state)
      ensures Snap() == Stepped(old(Snap()), old(current)).(waiting := Snap().waiting, state := old(Snap()).state[pid := state])
    {
    }

    twostate lemma WaitedSnap(new pid: nat, new target: nat)
      requires table == old(table) && target in table
      requires forall q :: q in table ==> table[q].waiting == old(table[q].waiting) + if q == target then [pid] else []
      ensures Snap().waiting == old(Snap()).waiting[target := old(table[target].waiting) + [pid]]
    {
      forall q | q in table && q != target ensures table[q].waiting == old(table[q].waiting) { }
    }

    /** The wait of the running process, registered under `pid`. */
    twostate lemma WaitNext(new pid: nat, new target: nat, new r: int)
      requires old(current != null && current in ring && Runs(Snap(), pid))
      requires table == old(table) && nextPid == old(nextPid)
      requires r == if target in table && old(|table[target].waiting|) < MAX_WAITERS then 0 else -1
      requires forall q :: q in table ==> table[q].waiting == old(table[q].waiting) + if r == 0 && q == target then [pid] else []
      requires forall q :: q in table ==> table[q].state == if r == 0 && q == pid then WAITING else old(table[q].state)
      requires r == 0 ==> ring == old(RingBut(current)) && current == old(Successor(current))
      requires r != 0 ==> ring == old(ring) && current == old(current)
      ensures Next(old(Snap()), Snap(), WaitStep(target))
    {
      if r == 0 {
        SteppedSnap(pid, WAITING);
        WaitedSnap(pid, target);
      } else {
        SameSnap();
      }
      assert Waited(old(Snap()), Snap(), pid, target);
    }

    twostate lemma SameLists()
      requires table == old(table) && forall q :: q in table ==> table[q].waiting == old(table[q].waiting)
      ensures Snap().waiting == old(Snap()).waiting
    {
    }

    /** Nothing but the number of pids used. */
    twostate lemma SameSnap()
      requires table == old(table) && ring == old(ring) && current == old(current)
      requires forall q :: q in table ==> table[q].waiting == old(table[q].waiting) && table[q].state == old(table[q].state)
      ensures Snap() == old(Snap()).(nextPid := nextPid)
    {
      assert Snap().waiting == old(Snap()).waiting && Snap().state == old(Snap()).state;
    }

    twostate lemma TookOverSnap(c: Process, new p: Process, new pid: nat)
      requires Replaced(c, p) && pid == old(c.pid) && p !in old(table.Values) && nextPid == old(nextPid) + 1
      requires p.state == READY && old(c.state) == READY && old(current) == c && current == ring[Succ(0, |ring|)]
      ensures TookOver(old(Snap()), Snap(), pid)
    {
      assert Snap().waiting == old(Snap()).waiting && Snap().state == old(Snap()).state;
    }

    method ExitCall(step: Step)
      requires Valid() && step.ExitStep?
      modifies this, table.Values
      ensures Valid() && table.Values <= old(table.Values) && StepKeeps() && Next(old(Snap()), Snap(), step)
    {
      RingInTable();
      if current == null {
        KeepsAll();
      } else {
        RunsIs();
        ghost var pid := current.pid;
        Exit();
        KeepsDeath(pid);
        DiedSnap(pid);
      }
    }

    method KillCall(step: Step)
      requires Valid() && step.KillStep?
      modifies this, table.Values
      ensures Valid() && table.Values <= old(table.Values) && StepKeeps() && Next(old(Snap()), Snap(), step)
    {
      RingInTable();
      if step.pid in table && !Stuck(step.pid) {
        var _ := Kill(step.pid);
        KeepsDeath(step.pid);
        DiedSnap(step.pid);
      } else {
        KeepsAll();
      }
    }

    method WakeCall(step: Step)
      requires Valid() && step.WakeStep?
      modifies this, table.Values
      ensures Valid() && table == old(table) && StepKeeps() && Next(old(Snap()), Snap(), step)
    {
      RingInTable();
      WakeSleeper(step.pid);
      WokenSnap(step.pid);
      KeepsAll();
    }

    method SleepCall(step: Step)
      requires Valid() && step.SleepStep?
      modifies this, table.Values
      ensures Valid() && table == old(table) && StepKeeps() && Next(old(Snap()), Snap(), step)
    {
      RingInTable();
      if current != null {
        RunsIs();
        ghost var pid := current.pid;
        forall q | q in table && table[q] == current ensures q == pid { assert Keyed(q); }
        Sleep();
        SteppedSnap(pid, SLEEPING);
        SameLists();
      }
      KeepsAll();
    }

    method WaitCall(step: Step)
      requires Valid() && step.WaitStep?
      modifies this, table.Values
      ensures Valid() && table == old(table) && StepKeeps() && Next(old(Snap()), Snap(), step)
    {
      RingInTable();
      if current != null {
        RunsIs();
        ghost var pid := current.pid;
        var r := Wait(step.pid);
        WaitNext(pid, step.pid, r);
      }
      KeepsAll();
    }

    method SpawnCall(step: Step)
      requires Valid() && step.SpawnStep?
      modifies this, table.Values
      ensures Valid() && fresh(table.Values - old(table.Values)) && StepKeeps() && Next(old(Snap()), Snap(), step)
    {
      var pid := Spawn();
      assert Entry(pid);
      SpawnedSnap();
      KeepsAll();
    }

    method ExecCall(step: Step)
      requires Valid() && step.ExecStep?
      modifies this, table.Values
      ensures Valid() && fresh(table.Values - old(table.Values)) && StepKeeps() && Next(old(Snap()), Snap(), step)
    {
      RingInTable();
      if current == null {
        ExecFirst(step.home, step.argv);
      } else if !step.home {
        var _ := Exec(step.kill, step.home, step.argv);
        SameSnap();
        KeepsAll();
      } else if step.kill && step.argv {
        ExecKill();
      } else {
        KeepsAll();
      }
    }

    method ExecFirst(home: bool, argv: bool)
      requires Valid() && current == null
      modifies this, table.Values
      ensures Valid() && fresh(table.Values - old(table.Values)) && StepKeeps() && Spawned(old(Snap()), Snap())
    {
      RingInTable();
      forall pid | pid in table ensures pid <= nextPid { assert Entry(pid); }
      var _ := Exec(false, home, argv);
      assert Entry(nextPid);
      SpawnedSnap();
      KeepsAll();
    }

    method ExecKill()
      requires Valid() && current != null
      modifies this, table.Values
      ensures Valid() && fresh(table.Values - old(table.Values)) && StepKeeps() && old(Runs(Snap(), current.pid))
      ensures TookOver(old(Snap()), Snap(), old(current.pid))
    {
      RingInTable();
      RunsIs();
      assert Entry(current.pid);
      var _ := Exec(true, true, true);
      ghost var pid := old(current.pid);
      assert Entry(pid);
      KeepsReplaced(old(current), table[pid]);
      TookOverSnap(old(current), table[pid], pid);
    }

    method TickCall(step: Step)
      requires Valid() && step.TickStep?
      modifies this, table.Values
      ensures Valid() && table == old(table) && StepKeeps() && Next(old(Snap()), Snap(), step)
    {
      Tick();
      KeepsAll();
    }

    /** One step of any run.  A system call needs a running process; a stuck process is not killed, a running one not left behind. */
    method Do(step: Step)
      requires Valid()
      modifies this, table.Values
      ensures Valid() && fresh(table.Values - old(table.Values)) && StepKeeps() && Next(old(Snap()), Snap(), step)
    {
      match step
      case TickStep => TickCall(step);
      case SpawnStep => SpawnCall(step);
      case KillStep(_) => KillCall(step);
      case WakeStep(_) => WakeCall(step);
      case ExitStep => ExitCall(step);
      case SleepStep => SleepCall(step);
      case WaitStep(_) => WaitCall(step);
      case ExecStep(_, _, _) => ExecCall(step);
    }

    /** `shots` is what the first `k` steps did, up to now. */
    ghost predicate Logged(shots: seq<Shot>, steps: seq<Step>, k: nat)
      reads this, table.Values
      requires k <= |steps|
    {
      History(shots, steps, k) && shots[k] == Snap()
    }

    lemma SoundSnap()
      requires Valid()
      ensures Sound(Snap())
    {
      forall t, w | WaitsFor(Snap(), t, w) ensures table[w].state == WAITING {
        assert Awaits(t, w);
        AwaitsOne(t, t, w);
      }
      forall pid | pid in table ensures pid <= nextPid { assert Entry(pid); }
    }

    twostate lemma KeepsSnap()
      requires StepKeeps()
      ensures Keeps(old(Snap()), Snap())
    {
      forall t, w | WaitsFor(old(Snap()), t, w) && w in table
        ensures if t in table then WaitsFor(Snap(), t, w) else table[w].state == READY
      {
        assert old(Awaits(t, w)) && Follows(t, w);
      }
      forall pid | WaitsFor(old(Snap()), pid, pid) ensures pid in table { assert old(Stuck(pid)); }
    }

    /** Step `i` of a run. */
    method Advance(steps: seq<Step>, i: nat, ghost shots0: seq<Shot>) returns (ghost shots: seq<Shot>)
      requires Valid() && i < |steps| && Logged(shots0, steps, i)
      modifies this, table.Values
      ensures Valid() && fresh(table.Values - old(table.Values)) && Logged(shots, steps, i + 1) && shots0 <= shots
    {
      Do(steps[i]);
      SoundSnap();
      KeepsSnap();
      HistoryMore(shots0, steps, i, Snap());
      shots := shots0 + [Snap()];
    }

    /** `w` waited for `t`; if both are still registered it still does. */
    twostate predicate StillWaits(new t: nat, new w: nat)
      reads `table, table.Values`waiting, table.Values`state
    {
      old(Awaits(t, w) && w in table) && t in table && w in table ==> Awaits(t, w) && table[w].state == WAITING
    }

    /**
     Whatever happens, in whatever order: ring, table and states agree, every step does what it is there for,
     a process waits as long as the one it waits for is registered, and one that waits for itself is never woken.
     */
    method Run(steps: seq<Step>) returns (ghost shots: seq<Shot>)
      requires Valid()
      modifies this, table.Values
      ensures Valid() && Logged(shots, steps, |steps|) && shots[0] == old(Snap())
      ensures forall t, w {:trigger StillWaits(t, w)} :: StillWaits(t, w)
      ensures forall pid :: old(Stuck(pid)) ==> Stuck(pid) && table[pid].state == WAITING
    {
      SoundSnap();
      shots := [Snap()];
      var i := 0;
      while i < |steps|
        invariant i <= |steps| && Valid() && fresh(table.Values - old(table.Values))
        invariant Logged(shots, steps, i) && shots[0] == old(Snap())
      {
        shots := Advance(steps, i, shots);
        i := i + 1;
      }
      forall t, w ensures StillWaits(t, w) {
        if WaitsFor(shots[0], t, w) && t in table && w in table { WaitsOn(shots, steps, 0, |steps|, t, w); }
      }
      forall pid | old(Stuck(pid)) ensures Stuck(pid) && table[pid].state == WAITING {
        StuckForEver(shots, steps, 0, |steps|, pid);
      }
    }
  }

  /** The first process, waiting for itself: it is out of the ring and nobody else lists it. */
  method SelfWait() returns (k: Kernel, pid: nat)
    ensures fresh(k) && k.Valid() && k.Stuck(pid) && k.table[pid].state == WAITING && k.ring == []
    ensures k.table.Keys == {pid} && fresh(k.table.Values)
  {
    k := new Kernel();
    pid := k.Spawn();
    assert k.ring == [k.table[pid]] && k.Keyed(pid);
    k.Tick();
    var r := k.Wait(pid);
  }

  /** That process, killed: it stays in the table although it is in no state that a process has. */
  method KilledSelfWait() returns (k: Kernel, pid: nat)
    ensures fresh(k) && !k.Valid() && pid in k.table && k.table[pid].state == RUNNING && k.table[pid] !in k.ring
  {
    k, pid := SelfWait();
    var r := k.Kill(pid);
  }

  /** The first process, executing without being killed or without a frame for its arguments: it runs outside the ring. */
  method ExecWithoutKill(kill: bool) returns (k: Kernel, r: int)
    ensures fresh(k) && !k.Valid() && k.current != null && k.current !in k.ring && k.current !in k.table.Values
    ensures r == if kill then -1 else 0
  {
    k := new Kernel();
    var pid := k.Spawn();
    assert k.ring == [k.table[pid]] && k.table.Values == {k.table[pid]};
    k.Tick();
    r := k.Exec(kill, true, !kill);
  }
}
