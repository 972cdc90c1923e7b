/** The three heaps that own a block area: the fixed kernel heap, the growing kernel heap and the user heap. */
module HeapUsers {
  import opened Heap

  /** The bytes handed out in the blocks of `m` that start below `hi`. */
  ghost function Total(m: map<int, int>, hi: int): int {
    if hi <= 0 then 0 else Total(m, hi - 1) + if hi - 1 in m then m[hi - 1] else 0
  }

  lemma {:induction false} TotalAdd(m: map<int, int>, hi: int, a: int, size: int)
    requires a !in m && 0 <= a
    ensures Total(m[a := size], hi) == Total(m, hi) + if a < hi then size else 0
  {
    if hi > 0 { TotalAdd(m, hi - 1, a, size); }
  }

  lemma {:induction false} TotalRemove(m: map<int, int>, hi: int, a: int)
    requires a in m && 0 <= a
    ensures Total(m - {a}, hi) == Total(m, hi) - if a < hi then m[a] else 0
  {
    if hi > 0 { TotalRemove(m, hi - 1, a); }
  }

  lemma {:induction false} TotalAbove(m: map<int, int>, lo: int, hi: int)
    requires lo <= hi && forall a :: a in m ==> a < lo
    ensures Total(m, lo) == Total(m, hi)
    decreases hi - lo
  {
    if lo < hi && 0 < hi { TotalAbove(m, lo, hi - 1); }
  }

  /** Three headers of padding on every request. */
  const PAD: int := 3 * HDR

  /** Nothing free below `cur` can hold `request`. */
  ghost predicate TooSmallBelow(v: View, cur: int, request: int) {
    forall a :: v.IsFree(a) && a < cur ==> At(v.hdr, a).size < request
  }

  /** Where a walk along the free list can be: at a free block, or past the last one. */
  ghost predicate OnList(v: View, cur: int, prev: int) {
    && (cur == v.top || v.IsFree(cur))
    && (cur == v.first || (v.IsFree(prev) && At(v.hdr, prev).next == cur))
  }

  /** What an allocation of at least `size` bytes at `p` does to the live blocks. */
  ghost predicate Handed(before: map<int, int>, after: map<int, int>, p: int, size: int) {
    && p - HDR !in before && p - HDR in after && size <= after[p - HDR]
    && after == before[p - HDR := after[p - HDR]]
  }

  /** `p` was cut from the high end of the lowest free block that can hold `request`. */
  ghost predicate FirstFit(v: View, after: map<int, int>, p: int, request: int) {
    exists c :: v.IsFree(c) && TooSmallBelow(v, c, request) && p - HDR in after && v.End(c) == p + after[p - HDR]
  }

  lemma StepList(v: View, cur: int, prev: int, request: int)
    requires v.Wf() && OnList(v, cur, prev) && cur < v.top && TooSmallBelow(v, cur, request) && At(v.hdr, cur).size < request
    ensures OnList(v, At(v.hdr, cur).next, cur) && cur < At(v.hdr, cur).next <= v.top
    ensures TooSmallBelow(v, At(v.hdr, cur).next, request)
  {
    assert v.ChainOk(cur);
    NoneAbove(v);
  }

  // ---- runs

  /** `held` names the live blocks, each once, in some order. */
  ghost predicate Lists(live: map<int, int>, held: seq<int>) {
    if held == [] then live == map[] else held[0] - HDR in live && Lists(live - {held[0] - HDR}, held[1..])
  }

  function Without(held: seq<int>, k: nat): seq<int>
    requires k < |held|
  {
    held[..k] + held[k + 1..]
  }

  lemma ListsOneMore(before: map<int, int>, after: map<int, int>, p: int, size: int, held: seq<int>)
    requires Handed(before, after, p, size) && Lists(before, held)
    ensures Lists(after, [p] + held)
  {
    assert after - {p - HDR} == before;
    assert ([p] + held)[1..] == held;
  }

  lemma {:induction false} ListsOneLess(live: map<int, int>, held: seq<int>, k: nat)
    requires Lists(live, held) && k < |held|
    ensures held[k] - HDR in live && Lists(live - {held[k] - HDR}, Without(held, k))
  {
    if k == 0 {
      assert Without(held, 0) == held[1..];
    } else {
      var a, b := held[0] - HDR, held[k] - HDR;
      ListsOneLess(live - {a}, held[1..], k - 1);
      assert held[1..][k - 1] == held[k];
      assert live - {a} - {b} == live - {b} - {a};
      assert Without(held, k)[0] == held[0] && Without(held, k)[1..] == Without(held[1..], k - 1);
    }
  }

  /** A request for some bytes, or the return of one of the pointers held. */
  datatype Call = Get(bytes: nat) | Put(k: nat)

  /** The heap between two calls, and the pointers held. */
  datatype Stage = Stage(view: View, held: seq<int>)

  /** What one call does; a request that is refused, and the return of a pointer not held, change nothing. */
  ghost predicate Next(a: Stage, b: Stage, call: Call) {
    match call
    case Get(bytes) =>
      || b == a
      || (|b.held| == |a.held| + 1 && b.held[1..] == a.held && Handed(a.view.Live(), b.view.Live(), b.held[0], bytes + 72))
    case Put(k) =>
      if k < |a.held| then b.held == Without(a.held, k) && b.view.Live() == a.view.Live() - {a.held[k] - HDR} else b == a
  }

  lemma NextMore(v: View, v': View, held: seq<int>, p: int, bytes: nat)
    requires Handed(v.Live(), v'.Live(), p, bytes + PAD)
    ensures Next(Stage(v, held), Stage(v', [p] + held), Get(bytes))
  {
    assert ([p] + held)[1..] == held;
  }

  /** The kernel's heap refuses a request exactly if no free block can hold it. */
  ghost predicate KernelStep(a: Stage, b: Stage, call: Call) {
    && Next(a, b, call)
    && (call.Get? ==> (b.held == a.held <==> forall x :: a.view.IsFree(x) ==> At(a.view.hdr, x).size < call.bytes + 72))
  }

  ghost predicate KernelTrace(stages: seq<Stage>, calls: seq<Call>, n: nat)
    requires n <= |calls|
  {
    |stages| == n + 1 && forall c: nat | c < n :: KernelStep(stages[c], stages[c + 1], calls[c])
  }

  lemma KernelMore(stages: seq<Stage>, calls: seq<Call>, n: nat, b: Stage)
    requires n < |calls| && KernelTrace(stages, calls, n) && KernelStep(stages[n], b, calls[n])
    ensures KernelTrace(stages + [b], calls, n + 1)
  {
  }

  class KernelHeap {
    const area: Area
    var size: int

    constructor (start: int, end: int)
      requires 0 < start && start + HDR <= end
      ensures Valid() && fresh(area) && area.start == start && area.top == end && area.V().Live() == map[]
    {
      area := new Area(start, end);
      size := 0;
      new;
      TotalAbove(map[], 0, end);
    }

    ghost predicate Valid()
      reads this, area
    {
      area.Valid() && size == Total(area.V().Live(), area.top)
    }

    method Kmalloc(bytes: int) returns (p: int)
      requires Valid() && 0 <= bytes
      modifies this, area
      ensures Valid() && area.start == old(area.start) && area.top == old(area.top)
      ensures p == 0 <==> forall a :: old(area.V().IsFree(a)) ==> old(At(area.hdr, a).size) < bytes + PAD
      ensures p == 0 ==> area.V() == old(area.V()) && size == old(size)
      ensures p != 0 ==> Handed(old(area.V().Live()), area.V().Live(), p, bytes + PAD)
      ensures p != 0 ==> FirstFit(old(area.V()), area.V().Live(), p, bytes + PAD)
    {
      var current := area.first;
      var prev := current;
      var request := bytes + PAD;
      ghost var v := area.V();
      NoneAbove(v);
      while true
        invariant area.V() == v && size == old(size) && current <= v.top
        invariant OnList(v, current, prev) && TooSmallBelow(v, current, request)
        decreases v.top - current
      {
        if current < area.top {
          p := area.HeapAlloc(request, current, prev, true);
          if p != 0 {
            size := size + area.hdr[p - HDR].size;
            NoneAbove(area.V());
            TotalAdd(v.Live(), v.top, p - HDR, area.hdr[p - HDR].size);
            return;
          }
          StepList(v, current, prev, request);
          prev := current;
          current := area.hdr[current].next;
        } else {
          return 0;
        }
      }
    }

    method Kfree(p: int)
      requires Valid() && p - HDR in area.blocks
      modifies this, area
      ensures Valid() && area.start == old(area.start) && area.top == old(area.top)
      ensures area.V().Live() == old(area.V().Live()) - {p - HDR}
    {
      var block := p - HDR;
      ghost var v := area.V();
      assert v.Tile(block);
      var nextBlock := p + area.hdr[block].size;
      var bytes := area.hdr[block].size;
      if !area.hdr[block].mapped {
        return;
      }
      area.HeapFree(block, nextBlock, area.top - area.start);
      size := size - bytes;
      TotalRemove(v.Live(), v.top, block);
    }

    method Do(call: Call, held0: seq<int>) returns (held: seq<int>)
      requires Valid() && Lists(area.V().Live(), held0)
      modifies this, area
      ensures Valid() && area.start == old(area.start) && area.top == old(area.top)
      ensures Lists(area.V().Live(), held)
      ensures KernelStep(Stage(old(area.V()), held0), Stage(area.V(), held), call)
    {
      held := held0;
      ghost var v := area.V();
      ghost var live := v.Live();
      match call
      case Get(bytes) =>
        var p := Kmalloc(bytes);
        if p != 0 {
          ListsOneMore(live, area.V().Live(), p, bytes + PAD, held);
          NextMore(v, area.V(), held, p, bytes);
          held := [p] + held;
        }
      case Put(k) =>
        if k < |held| {
          ListsOneLess(live, held, k);
          Kfree(held[k]);
          held := Without(held, k);
        }
    }

    /** Any sequence of allocations and frees keeps the heap; the pointers held are the live blocks. */
    method Run(calls: seq<Call>, held0: seq<int>) returns (held: seq<int>, ghost stages: seq<Stage>)
      requires Valid() && Lists(area.V().Live(), held0)
      modifies this, area
      ensures Valid() && area.start == old(area.start) && area.top == old(area.top)
      ensures Lists(area.V().Live(), held)
      ensures KernelTrace(stages, calls, |calls|)
      ensures stages[0] == Stage(old(area.V()), held0) && stages[|calls|] == Stage(area.V(), held)
    {
      held, stages := held0, [Stage(area.V(), held0)];
      for c := 0 to |calls|
        invariant Valid() && area.start == old(area.start) && area.top == old(area.top) && Lists(area.V().Live(), held)
        invariant KernelTrace(stages, calls, c)
        invariant stages[0] == Stage(old(area.V()), held0) && stages[c] == Stage(area.V(), held)
      {
        held := Do(calls[c], held);
        KernelMore(stages, calls, c, Stage(area.V(), held));
        stages := stages + [Stage(area.V(), held)];
      }
    }

    /** Freeing everything, in whatever order, leaves one free block from bottom to top. */
    method FreeAll(held: seq<int>)
      requires Valid() && Lists(area.V().Live(), held)
      modifies this, area
      ensures Valid() && size == 0 && area.start == old(area.start) && area.top == old(area.top)
      ensures area.V().Live() == map[] && area.first == area.start
      ensures At(area.hdr, area.start) == At(area.hdr, area.start).(mapped := false, size := area.top - area.start - HDR, next := area.top)
    {
      for k := 0 to |held|
        invariant Valid() && area.start == old(area.start) && area.top == old(area.top)
        invariant Lists(area.V().Live(), held[k..])
      {
        Kfree(held[k]);
        assert held[k..][1..] == held[k + 1..];
      }
      AllFree(area.V());
      TotalAbove(map[], 0, area.top);
    }
  }

  // ---- growing heaps

  const PAGE: int := 0x1000

  /** The pages a failed search asks for: enough for the tail to hold the request, or for a new block to. */
  ghost predicate GrowsBy(v: View, request: int, pages: int) {
    if exists t :: v.IsFree(t) && v.End(t) == v.top
    then exists t :: v.IsFree(t) && v.End(t) == v.top && pages == (request + HDR - At(v.hdr, t).size) / PAGE + 1
    else pages == (request + 2 * HDR) / PAGE + 1
  }

  /** The last free block of the list ends at the top, or nothing free does. */
  lemma TailIsLast(v: View, prev: int)
    requires v.Wf() && v.IsFree(prev) && At(v.hdr, prev).next == v.top && v.End(prev) != v.top
    ensures forall a :: v.IsFree(a) ==> v.End(a) != v.top
  {
    forall a | v.IsFree(a) ensures v.End(a) != v.top {
      assert v.ChainOk(prev) && v.Tile(a) && v.Tile(prev) && v.Apart(a, prev);
    }
  }

  lemma NoFreeAtAll(v: View)
    requires v.Wf() && v.first == v.top
    ensures forall a :: !v.IsFree(a)
  {
    NoneAbove(v);
  }

  /** Where a search that found nothing stops: past the last free block `prev`, or past an empty list. */
  ghost predicate Exhausted(v: View, prev: int, request: int) {
    && v.Wf() && prev <= v.top && TooSmallBelow(v, v.top, request)
    && if prev == v.top then v.first == v.top else v.IsFree(prev) && At(v.hdr, prev).next == v.top
  }

  method PlanGrowth(area: Area, prev: int, request: int) returns (extend: bool, pages: int)
    requires Exhausted(area.V(), prev, request) && 0 <= request
    ensures 0 < pages && GrowsBy(area.V(), request, pages)
    ensures extend <==> prev < area.top && area.V().End(prev) == area.top
    ensures if extend then request + HDR < At(area.hdr, prev).size + pages * PAGE else request + 2 * HDR < pages * PAGE
  {
    ghost var v := area.V();
    var empty := prev >= area.top;
    if empty { NoFreeAtAll(v); } else { assert v.Tile(prev); }
    extend := !empty && prev + HDR + area.hdr[prev].size == area.top;
    if !empty && !extend { TailIsLast(v, prev); }
    var needed := if extend then request + HDR - area.hdr[prev].size else request + 2 * HDR;
    pages := needed / PAGE + 1;
  }

  /** After the growth the block to try is strictly larger than the request and a header. */
  method Grow(area: Area, prev: int, extend: bool, pages: int, ghost request: int) returns (current: int)
    requires Exhausted(area.V(), prev, request) && 0 <= request && 0 < pages
    requires extend <==> prev < area.top && area.V().End(prev) == area.top
    requires if extend then request + HDR < At(area.hdr, prev).size + pages * PAGE else request + 2 * HDR < pages * PAGE
    modifies area
    ensures area.Valid() && area.start == old(area.start) && area.V().Live() == old(area.V().Live())
    ensures area.top == old(area.top) + pages * PAGE
    ensures area.V().IsFree(current) && request + HDR < At(area.hdr, current).size
  {
    ghost var v := area.V();
    if extend {
      area.ExtendTail(prev, pages * PAGE);
      current := prev;
    } else {
      if prev == area.top { NoFreeAtAll(v); } else { TailIsLast(v, prev); }
      current := area.AppendBlock(prev, prev >= area.top, pages * PAGE);
    }
  }

  /** No free block fits and the growth that would is not possible. */
  ghost predicate CannotGrow(v: View, request: int, frames: int, limit: int) {
    TooSmallBelow(v, v.top, request) && exists pages :: GrowsBy(v, request, pages) && (v.top + pages * PAGE > limit || frames < pages)
  }

  /** No free block fitted and the heap grew, once, by what the request needed. */
  ghost predicate GrewFor(v: View, request: int, top: int) {
    TooSmallBelow(v, v.top, request) && exists pages :: GrowsBy(v, request, pages) && top == v.top + pages * PAGE
  }

  lemma GrowsByUnique(v: View, request: int, p: int, q: int)
    requires v.Wf() && GrowsBy(v, request, p) && GrowsBy(v, request, q)
    ensures p == q
  {
    forall t, u | v.IsFree(t) && v.IsFree(u) && v.End(t) == v.top && v.End(u) == v.top ensures t == u {
      assert v.Tile(t) && v.Tile(u) && v.Apart(t, u) && v.Apart(u, t);
    }
  }

  lemma GrowthAllowed(v: View, request: int, frames: int, limit: int, pages: int)
    requires v.Wf() && GrowsBy(v, request, pages) && v.top + pages * PAGE <= limit && pages <= frames
    ensures !CannotGrow(v, request, frames, limit)
  {
    forall q | GrowsBy(v, request, q) ensures q == pages {
      GrowsByUnique(v, request, pages, q);
    }
  }

  lemma LiveBelow(v: View)
    requires v.Wf()
    ensures forall a :: a in v.Live() ==> v.start <= a < v.top
  {
    NoneAbove(v);
  }

  lemma Added(m: map<int, int>, hi: int, a: int, size: int)
    requires a !in m && 0 <= a < hi
    ensures Total(m[a := size], hi) == Total(m, hi) + size && |m[a := size]| == |m| + 1
  {
    TotalAdd(m, hi, a, size);
    assert m[a := size].Keys == m.Keys + {a};
  }

  lemma Removed(m: map<int, int>, hi: int, a: int)
    requires a in m && 0 <= a < hi
    ensures Total(m - {a}, hi) == Total(m, hi) - m[a] && |m - {a}| == |m| - 1
  {
    TotalRemove(m, hi, a);
    assert (m - {a}).Keys == m.Keys - {a};
  }

  /** A search that has not found anything yet and has changed nothing. */
  ghost predicate Searching(v: View, now: View, current: int, prev: int, firstBlock: bool, request: int) {
    && now == v && current <= v.top && TooSmallBelow(v, current, request)
    && (current == v.top || v.IsFree(current))
    && if firstBlock then current == v.first && prev == current else v.IsFree(prev) && At(v.hdr, prev).next == current
  }

  ghost predicate Ready(v: View, current: int, request: int) {
    v.IsFree(current) && request + HDR < At(v.hdr, current).size
  }

  // Kernel heap addresses, 128 GiB apart.
  const KERNEL_VIRTUAL_START: int := 0xffffffc000000000
  const KERNEL_VIRTUAL_TOP: int := 0xffffffe000000000
  const VMHEAP_MAX: int := KERNEL_VIRTUAL_TOP - KERNEL_VIRTUAL_START

  /** The request is larger than the window, or nothing fits and the heap cannot grow. */
  ghost predicate Refused(v: View, bytes: int, frames: int) {
    bytes > 0x2000000000 - 72 || CannotGrow(v, bytes + 72, frames, 0xffffffe000000000)
  }

  ghost predicate VirtualStep(a: Stage, b: Stage, call: Call, frames: int) {
    Next(a, b, call) && (call.Get? ==> (b.held == a.held <==> Refused(a.view, call.bytes, frames)))
  }

  ghost predicate VirtualTrace(stages: seq<Stage>, calls: seq<Call>, frames: seq<int>, n: nat)
    requires n <= |calls| == |frames|
  {
    && |stages| == n + 1
    && forall c: nat | c < n :: VirtualStep(stages[c], stages[c + 1], calls[c], frames[c])
  }

  lemma VirtualMore(stages: seq<Stage>, calls: seq<Call>, frames: seq<int>, n: nat, b: Stage)
    requires n < |calls| == |frames| && VirtualTrace(stages, calls, frames, n)
    requires VirtualStep(stages[n], b, calls[n], frames[n])
    ensures VirtualTrace(stages + [b], calls, frames, n + 1)
  {
  }

  class VirtualHeap {
    const area: Area
    var size: int
    var used: int
    var allocCount: int
    var freeCount: int

    /** The first MiB is mapped at boot. */
    constructor ()
      ensures Valid() && fresh(area) && area.V() == OneFree(0xffffffc000000000, 0xffffffc000100000) && area.V().Live() == map[]
    {
      area := new Area(KERNEL_VIRTUAL_START, KERNEL_VIRTUAL_START + 256 * PAGE);
      size, used, allocCount, freeCount := 256 * PAGE, 0, 0, 0;
      new;
      TotalAbove(map[], 0, area.top);
    }

    ghost predicate Valid()
      reads this, area
    {
      && area.Valid() && area.start == KERNEL_VIRTUAL_START && area.top <= KERNEL_VIRTUAL_TOP
      && size == area.top - area.start
      && used == Total(area.V().Live(), area.top)
      && allocCount == |area.V().Live()|
    }

    /** `frames` is the number of physical frames that are left. */
    method Vmalloc(bytes: int, frames: int) returns (p: int)
      requires Valid() && 0 <= bytes
      modifies this, area
      ensures Valid()
      ensures p != 0 ==> Handed(old(area.V().Live()), area.V().Live(), p, bytes + PAD)
      ensures p == 0 ==> area.V() == old(area.V()) && used == old(used)
      ensures p == 0 <==> Refused(old(area.V()), bytes, frames)
      ensures freeCount == old(freeCount)
      ensures area.top != old(area.top) ==> GrewFor(old(area.V()), bytes + PAD, area.top)
    {
      if bytes > VMHEAP_MAX - PAD {
        return 0;
      }
      ghost var v := area.V();
      p := Search(bytes + PAD, frames);
      LiveBelow(v);
      TotalAbove(v.Live(), v.top, area.top);
      if p != 0 {
        assert p - HDR in area.V().Live();
        assert area.V().Tile(p - HDR);
        used := used + area.hdr[p - HDR].size;
        allocCount := allocCount + 1;
        LiveBelow(area.V());
        Added(v.Live(), area.top, p - HDR, area.hdr[p - HDR].size);
      }
    }

    /** The growth of an exhausted search, unless it would leave the window or run out of frames. */
    method GrowFor(prev: int, request: int, frames: int) returns (ok: bool, current: int)
      requires Exhausted(area.V(), prev, request) && 0 <= request && area.top <= KERNEL_VIRTUAL_TOP
      modifies this`size, area
      ensures area.Valid() && area.start == old(area.start) && area.V().Live() == old(area.V().Live())
      ensures old(area.top) <= area.top <= KERNEL_VIRTUAL_TOP && size - area.top == old(size - area.top)
      ensures ok <==> !CannotGrow(old(area.V()), request, frames, KERNEL_VIRTUAL_TOP)
      ensures ok ==> Ready(area.V(), current, request) && GrewFor(old(area.V()), request, area.top)
      ensures !ok ==> area.V() == old(area.V())
    {
      ghost var v := area.V();
      var extend, pages := PlanGrowth(area, prev, request);
      if area.top + pages * PAGE > KERNEL_VIRTUAL_TOP || frames < pages {
        return false, 0;
      }
      GrowthAllowed(v, request, frames, KERNEL_VIRTUAL_TOP, pages);
      current := Grow(area, prev, extend, pages, request);
      size := size + pages * PAGE;
      ok := true;
    }

    method Search(request: int, frames: int) returns (p: int)
      requires Valid() && 0 <= request
      modifies this`size, area
      ensures area.Valid() && area.start == old(area.start) && old(area.top) <= area.top <= KERNEL_VIRTUAL_TOP
      ensures size == area.top - area.start
      ensures p != 0 ==> Handed(old(area.V().Live()), area.V().Live(), p, request)
      ensures p == 0 ==> area.V() == old(area.V())
      ensures p == 0 <==> CannotGrow(old(area.V()), request, frames, KERNEL_VIRTUAL_TOP)
      ensures area.top != old(area.top) ==> GrewFor(old(area.V()), request, area.top)
    {
      var current := area.first;
      var prev := current;
      var firstBlock := true;
      ghost var v := area.V();
      NoneAbove(v);
      ghost var grown := false;
      while true
        invariant area.Valid() && area.start == v.start && v.top <= area.top <= KERNEL_VIRTUAL_TOP
        invariant area.V().Live() == v.Live() && size == area.top - area.start
        invariant !grown ==> Searching(v, area.V(), current, prev, firstBlock, request)
        invariant grown ==> !firstBlock && Ready(area.V(), current, request) && GrewFor(v, request, area.top)
        invariant grown ==> !CannotGrow(v, request, frames, KERNEL_VIRTUAL_TOP)
        decreases !grown, area.top - current
      {
        assert area.V().IsFree(current) ==> area.V().Tile(current);
        if KERNEL_VIRTUAL_START <= current < area.top {
          p := area.HeapAlloc(request, current, prev, firstBlock);
          if p != 0 {
            return;
          }
          StepList(v, current, prev, request);
          prev := current;
          current := area.hdr[current].next;
        } else {
          var ok;
          ok, current := GrowFor(prev, request, frames);
          if !ok {
            return 0;
          }
          grown := true;
        }
        firstBlock := false;
      }
    }

    method Vmfree(p: int)
      requires Valid() && p - HDR in area.blocks
      modifies this, area
      ensures Valid() && area.top == old(area.top)
      ensures area.V().Live() == old(area.V().Live()) - {p - HDR}
      ensures freeCount == old(freeCount) + if p - HDR in old(area.V().Live()) then 1 else 0
    {
      var block := p - HDR;
      ghost var v := area.V();
      assert v.Tile(block);
      var nextBlock := p + area.hdr[block].size;
      var bytes := area.hdr[block].size;
      if !area.hdr[block].mapped {
        return;
      }
      var maxBlock := if size < VMHEAP_MAX then size else VMHEAP_MAX;
      area.HeapFree(block, nextBlock, maxBlock);
      used := used - bytes;
      freeCount := freeCount + 1;
      allocCount := allocCount - 1;
      Removed(v.Live(), v.top, block);
    }

    method DoGet(bytes: nat, frames: int, held0: seq<int>) returns (held: seq<int>)
      requires Valid() && Lists(area.V().Live(), held0)
      modifies this, area
      ensures Valid() && Lists(area.V().Live(), held)
      ensures VirtualStep(Stage(old(area.V()), held0), Stage(area.V(), held), Get(bytes), frames)
    {
      held := held0;
      ghost var v := area.V();
      var p := Vmalloc(bytes, frames);
      if p != 0 {
        ListsOneMore(v.Live(), area.V().Live(), p, bytes + PAD, held);
        NextMore(v, area.V(), held, p, bytes);
        held := [p] + held;
      }
    }

    method DoPut(k: nat, held0: seq<int>) returns (held: seq<int>)
      requires Valid() && Lists(area.V().Live(), held0)
      modifies this, area
      ensures Valid() && Lists(area.V().Live(), held)
      ensures Next(Stage(old(area.V()), held0), Stage(area.V(), held), Put(k))
    {
      held := held0;
      if k < |held| {
        ListsOneLess(area.V().Live(), held, k);
        Vmfree(held[k]);
        held := Without(held, k);
      }
    }

    method Do(call: Call, frames: int, held0: seq<int>) returns (held: seq<int>)
      requires Valid() && Lists(area.V().Live(), held0)
      modifies this, area
      ensures Valid() && Lists(area.V().Live(), held)
      ensures VirtualStep(Stage(old(area.V()), held0), Stage(area.V(), held), call, frames)
    {
      match call
      case Get(bytes) => held := DoGet(bytes, frames, held0);
      case Put(k) => held := DoPut(k, held0);
    }

    /** As for the fixed heap; `frames` gives, call by call, the frames that are left. */
    method Run(calls: seq<Call>, frames: seq<int>, held0: seq<int>) returns (held: seq<int>, ghost stages: seq<Stage>)
      requires Valid() && Lists(area.V().Live(), held0) && |frames| == |calls|
      modifies this, area
      ensures Valid() && Lists(area.V().Live(), held)
      ensures VirtualTrace(stages, calls, frames, |calls|)
      ensures stages[0] == Stage(old(area.V()), held0) && stages[|calls|] == Stage(area.V(), held)
    {
      held, stages := held0, [Stage(area.V(), held0)];
      for c := 0 to |calls|
        invariant Valid() && Lists(area.V().Live(), held)
        invariant VirtualTrace(stages, calls, frames, c)
        invariant stages[0] == Stage(old(area.V()), held0) && stages[c] == Stage(area.V(), held)
      {
        held := Do(calls[c], frames[c], held);
        VirtualMore(stages, calls, frames, c, Stage(area.V(), held));
        stages := stages + [Stage(area.V(), held)];
      }
    }

    /** However far it has grown: freeing everything, in whatever order, leaves one free block from bottom to top. */
    method FreeAll(held: seq<int>)
      requires Valid() && Lists(area.V().Live(), held)
      modifies this, area
      ensures Valid() && used == 0 && allocCount == 0 && area.top == old(area.top)
      ensures area.V().Live() == map[] && area.first == area.start
      ensures At(area.hdr, area.start) == At(area.hdr, area.start).(mapped := false, size := area.top - area.start - HDR, next := area.top)
    {
      for k := 0 to |held|
        invariant Valid() && area.top == old(area.top)
        invariant Lists(area.V().Live(), held[k..])
      {
        Vmfree(held[k]);
        assert held[k..][1..] == held[k + 1..];
      }
      AllFree(area.V());
      TotalAbove(map[], 0, area.top);
    }
  }

  // User heap addresses.
  const PROCESS_HEAP_START: int := 0x000055c0603d3000
  const PROCESS_HEAP_END: int := 0x00007ffd0d812000
  const MALLOC_MAX: int := PROCESS_HEAP_END - PROCESS_HEAP_START

  /** No free block fits and the break cannot move far enough. */
  ghost predicate HeapFull(v: View, request: int, brkPages: int) {
    && TooSmallBelow(v, v.top, request)
    && (v.top >= PROCESS_HEAP_END || exists pages :: GrowsBy(v, request, pages) && brkPages < pages)
  }

  lemma BreakAllowed(v: View, request: int, brkPages: int, pages: int)
    requires v.Wf() && GrowsBy(v, request, pages) && v.top < PROCESS_HEAP_END && pages <= brkPages
    ensures !HeapFull(v, request, brkPages)
  {
    forall q | GrowsBy(v, request, q) ensures q == pages {
      GrowsByUnique(v, request, pages, q);
    }
  }

  /** The request is larger than the whole heap can be, or the heap is full. */
  ghost predicate Denied(v: View, bytes: int, brkPages: int) {
    bytes > 0x7ffd0d812000 - 0x55c0603d3000 - 72 || HeapFull(v, bytes + 72, brkPages)
  }

  ghost predicate UserStep(a: Stage, b: Stage, call: Call, brkPages: int) {
    Next(a, b, call) && (call.Get? ==> (b.held == a.held <==> Denied(a.view, call.bytes, brkPages)))
  }

  ghost predicate UserTrace(stages: seq<Stage>, calls: seq<Call>, brkPages: seq<int>, n: nat)
    requires n <= |calls| == |brkPages|
  {
    |stages| == n + 1 && forall c: nat | c < n :: UserStep(stages[c], stages[c + 1], calls[c], brkPages[c])
  }

  lemma UserMore(stages: seq<Stage>, calls: seq<Call>, brkPages: seq<int>, n: nat, b: Stage)
    requires n < |calls| == |brkPages| && UserTrace(stages, calls, brkPages, n) && UserStep(stages[n], b, calls[n], brkPages[n])
    ensures UserTrace(stages + [b], calls, brkPages, n + 1)
  {
  }

  class UserHeap {
    /** Null until the first call. */
    var area: Area?

    ghost predicate Valid()
      reads this, area
    {
      area != null ==> area.Valid() && area.start == PROCESS_HEAP_START
    }

    ghost function Live(): map<int, int>
      reads this, area
    {
      if area == null then map[] else area.V().Live()
    }

    /** The heap as the next call finds it: the first page is one free block from the start. */
    ghost function Found(): View
      reads this, area
    {
      if area == null then OneFree(0x55c0603d3000, 0x55c0603d4000) else area.V()
    }

    constructor ()
      ensures Valid() && area == null && Live() == map[]
    {
      area := null;
    }

    /** The first call turns the first page into one free block. */
    method Start()
      requires Valid()
      modifies this
      ensures Valid() && area != null && Live() == old(Live()) && area.V() == old(Found())
      ensures if old(area) == null then fresh(area) else area == old(area)
    {
      if area == null {
        area := new Area(PROCESS_HEAP_START, PROCESS_HEAP_START + PAGE);
      }
    }

    /** `brkPages` is the number of pages the kernel is still willing to add. */
    method Malloc(bytes: int, brkPages: int) returns (p: int)
      requires Valid() && 0 <= bytes
      modifies this, area
      ensures Valid() && if old(area) != null then area == old(area) else area == null || fresh(area)
      ensures p != 0 ==> Handed(old(Live()), Live(), p, bytes + PAD)
      ensures p == 0 ==> Found() == old(Found()) && Live() == old(Live())
      ensures p == 0 <==> Denied(old(Found()), bytes, brkPages)
    {
      if bytes > MALLOC_MAX - PAD {
        return 0;
      }
      Start();
      p := Search(bytes + PAD, brkPages);
    }

    method Search(request: int, brkPages: int) returns (p: int)
      requires Valid() && area != null && 0 <= request
      modifies area
      ensures Valid()
      ensures p != 0 ==> Handed(old(Live()), Live(), p, request)
      ensures p == 0 ==> area.V() == old(area.V())
      ensures p == 0 <==> HeapFull(old(area.V()), request, brkPages)
      ensures area.top != old(area.top) ==> GrewFor(old(area.V()), request, area.top)
    {
      var current := area.first;
      var prev := current;
      var firstBlock := true;
      ghost var v := area.V();
      NoneAbove(v);
      ghost var grown := false;
      while true
        invariant Valid() && area.V().Live() == v.Live()
        invariant !grown ==> Searching(v, area.V(), current, prev, firstBlock, request)
        invariant grown ==> !firstBlock && Ready(area.V(), current, request) && GrewFor(v, request, area.top)
        invariant grown ==> !HeapFull(v, request, brkPages)
        decreases !grown, area.top - current
      {
        assert area.V().IsFree(current) ==> area.V().Tile(current);
        if PROCESS_HEAP_START <= current < area.top {
          p := area.HeapAlloc(request, current, prev, firstBlock);
          if p != 0 {
            return;
          }
          StepList(v, current, prev, request);
          prev := current;
          current := area.hdr[current].next;
        } else {
          if current >= PROCESS_HEAP_END {
            return 0;
          }
          var extend, pages := PlanGrowth(area, prev, request);
          if brkPages < pages {
            return 0;
          }
          BreakAllowed(v, request, brkPages, pages);
          current := Grow(area, prev, extend, pages, request);
          grown := true;
        }
        firstBlock := false;
      }
    }

    /** A block that is already free ends the process instead. */
    method Free(p: int) returns (exits: bool)
      requires Valid() && area != null && p - HDR in area.blocks
      modifies area
      ensures Valid() && area.top == old(area.top) && (exits <==> p - HDR !in old(Live()))
      ensures Live() == old(Live()) - {p - HDR}
    {
      var block := p - HDR;
      assert area.V().Tile(block);
      var nextBlock := p + area.hdr[block].size;
      if !area.hdr[block].mapped {
        return true;
      }
      area.HeapFree(block, nextBlock, area.top - PROCESS_HEAP_START);
      exits := false;
    }

    method Do(call: Call, brkPages: int, held0: seq<int>) returns (held: seq<int>)
      requires Valid() && Lists(Live(), held0)
      modifies this, area
      ensures Valid() && if old(area) != null then area == old(area) else area == null || fresh(area)
      ensures Lists(Live(), held)
      ensures UserStep(Stage(old(Found()), held0), Stage(Found(), held), call, brkPages)
    {
      held := held0;
      ghost var v, live := Found(), Live();
      match call
      case Get(bytes) =>
        var p := Malloc(bytes, brkPages);
        if p != 0 {
          ListsOneMore(live, Live(), p, bytes + PAD, held);
          assert v.Live() == live;
          NextMore(v, Found(), held, p, bytes);
          held := [p] + held;
        }
      case Put(k) =>
        if k < |held| {
          ListsOneLess(live, held, k);
          var _ := Free(held[k]);
          held := Without(held, k);
        }
    }

    /** As for the kernel's heaps, from before the first call on; `brkPages` gives, call by call, how far the break can move. */
    method Run(calls: seq<Call>, brkPages: seq<int>, held0: seq<int>) returns (held: seq<int>, ghost stages: seq<Stage>)
      requires Valid() && Lists(Live(), held0) && |brkPages| == |calls|
      modifies this, area
      ensures Valid() && if old(area) != null then area == old(area) else area == null || fresh(area)
      ensures Lists(Live(), held)
      ensures UserTrace(stages, calls, brkPages, |calls|)
      ensures stages[0] == Stage(old(Found()), held0) && stages[|calls|] == Stage(Found(), held)
    {
      held, stages := held0, [Stage(Found(), held0)];
      for c := 0 to |calls|
        invariant Valid() && if old(area) != null then area == old(area) else area == null || fresh(area)
        invariant Lists(Live(), held)
        invariant UserTrace(stages, calls, brkPages, c)
        invariant stages[0] == Stage(old(Found()), held0) && stages[c] == Stage(Found(), held)
      {
        held := Do(calls[c], brkPages[c], held);
        UserMore(stages, calls, brkPages, c, Stage(Found(), held));
        stages := stages + [Stage(Found(), held)];
      }
    }

    method FreeAll(held: seq<int>)
      requires Valid() && area != null && Lists(Live(), held)
      modifies area
      ensures Valid() && area.top == old(area.top) && Live() == map[] && area.first == area.start
      ensures At(area.hdr, area.start) == At(area.hdr, area.start).(mapped := false, size := area.top - area.start - HDR, next := area.top)
    {
      for k := 0 to |held|
        invariant Valid() && area.top == old(area.top) && Lists(Live(), held[k..])
      {
        var exits := Free(held[k]);
        assert !exits && held[k..][1..] == held[k + 1..];
      }
      AllFree(area.V());
    }
  }
}
