/**
 The transfer ring between the driver and an xHCI controller, and the event ring
 back.  Ownership of a slot passes by its cycle bit; the last slot of a transfer
 ring links back to the first and makes the controller toggle.  The controller
 follows sections 4.9.2 to 4.9.4 of the xHCI specification.
 */
module XhciRing {
  import opened Arithmetic

  const TRBS: nat := 256
  const USABLE: nat := 255

  datatype Trb = Trb(parameter: nat, status: nat, control: nat)

  function CycleOf(t: Trb): nat { t.control % 2 }

  /** `out` is the entry `t`, with the lap's number in the lowest bit of its control word. */
  predicate Carries(out: Trb, t: Trb, lap: nat)
  {
    && out.parameter == t.parameter && out.status == t.status
    && out.control / 2 == t.control / 2 && out.control % 2 == lap
  }

  /** The entry with its cycle bit set to `cycle`. */
  function Stamp(t: Trb, cycle: nat): (r: Trb)
    requires cycle < 2
    ensures Carries(r, t, cycle)
  {
    t.(control := t.control - t.control % 2 + cycle)
  }

  /** The producer's cycle while it writes entry `k` of a ring of `size` slots. */
  function Lap(k: nat, size: nat): nat
    requires size > 0
  {
    (1 + k / size) % 2
  }

  // ---------------------------------------------------------------- what the slots hold

  predicate SlotOk(slots: seq<Trb>, sent: seq<Trb>, size: nat, k: nat)
    requires 0 < size <= |slots| && k < |sent|
  {
    Carries(slots[k % size], sent[k], Lap(k, size))
  }

  /** The last lap of entries is in the slots; slots never written belong to the producer. */
  ghost predicate Holds(slots: seq<Trb>, sent: seq<Trb>, size: nat)
  {
    && 0 < size <= |slots|
    && (forall k: nat {:trigger SlotOk(slots, sent, size, k)} | |sent| <= k + size && k < |sent| :: SlotOk(slots, sent, size, k))
    && (forall i | |sent| <= i < size :: CycleOf(slots[i]) == 0)
  }

  lemma Residue(k: nat, j: nat, size: nat)
    requires 0 < size && k <= j < k + size && k % size == j % size
    ensures k == j
  {
    var a, b := k / size, j / size;
    if a < b { Multiple(size, a, b); } else if b < a { Multiple(size, b, a); }
  }

  lemma NextLap(k: nat, size: nat)
    requires 0 < size
    ensures (k + size) % size == k % size && (k + size) / size == k / size + 1
    ensures Lap(k + size, size) != Lap(k, size)
  {
    var q, r := k / size, k % size;
    assert k + size == size * (q + 1) + r;
    DivMod(k + size, size, q + 1, r);
  }

  /** Entry `|sent|` written over the oldest. */
  lemma HoldsWrite(slots: seq<Trb>, sent: seq<Trb>, size: nat, t: Trb)
    requires Holds(slots, sent, size)
    ensures Holds(slots[|sent| % size := Stamp(t, Lap(|sent|, size))], sent + [t], size)
  {
    var n := |sent|;
    var slots', sent' := slots[n % size := Stamp(t, Lap(n, size))], sent + [t];
    forall k: nat | |sent'| <= k + size && k < |sent'|
      ensures SlotOk(slots', sent', size, k)
    {
      if k < n {
        assert SlotOk(slots, sent, size, k);
        if k % size == n % size { Residue(k, n, size); }
      }
    }
    if n < size { DivMod(n, size, 0, n); }
  }

  /** The slot at consumer position `c` matches its cycle exactly when entry `c` has been sent, and holds it then. */
  lemma HoldsRead(slots: seq<Trb>, sent: seq<Trb>, size: nat, c: nat)
    requires Holds(slots, sent, size) && c <= |sent| <= c + size
    ensures CycleOf(slots[c % size]) == Lap(c, size) <==> c < |sent|
    ensures c < |sent| ==> Carries(slots[c % size], sent[c], Lap(c, size))
  {
    if c < |sent| {
      assert SlotOk(slots, sent, size, c);
    } else if c < size {
      DivMod(c, size, 0, c);
    } else {
      NextLap(c - size, size);
      assert SlotOk(slots, sent, size, c - size);
    }
  }

  // ---------------------------------------------------------------- the transfer ring

  /** A link entry that toggles the cycle, back to the head of the ring. */
  const LINK: nat := 6 * 1024 + 2

  predicate IsLink(t: Trb, base: nat) { t.parameter == base && t.control / 2 == LINK / 2 }

  /** The consumer side: a controller that has taken entries and stands at slot `pos`. */
  datatype Controller = Controller(pos: nat, cycle: nat, taken: seq<Trb>)

  /** One look of the controller at its slot. */
  function Step(trbs: seq<Trb>, base: nat, c: Controller): Controller
    requires |trbs| == TRBS && c.pos < TRBS
  {
    if CycleOf(trbs[c.pos]) != c.cycle then c
    else if c.pos == USABLE then Follow(trbs[USABLE], base, c)
    else Controller(c.pos + 1, c.cycle, c.taken + [trbs[c.pos]])
  }

  /** A link of type 6 leads back to the head of the ring, and makes the cycle toggle if its toggle bit is set. */
  function Follow(link: Trb, base: nat, c: Controller): Controller
  {
    if link.control / 1024 % 64 == 6 && link.parameter == base
    then Controller(0, if link.control / 2 % 2 == 1 then 1 - c.cycle % 2 else c.cycle, c.taken)
    else c
  }

  /** Times the controller has followed the link. */
  function Laps(c: Controller): nat
  {
    if |c.taken| < c.pos then 0 else (|c.taken| - c.pos) / USABLE
  }

  predicate Tracks(c: Controller)
  {
    c.pos <= USABLE && |c.taken| == USABLE * Laps(c) + c.pos && c.cycle == (1 + Laps(c)) % 2
  }

  /** What has been taken is what was sent, in order, as far as it goes. */
  predicate InOrder(sent: seq<Trb>, taken: seq<Trb>)
  {
    |taken| <= |sent| && forall k | 0 <= k < |taken| :: Carries(taken[k], sent[k], Lap(k, USABLE))
  }

  /** The producer's view after `wraps` links written. */
  ghost predicate Producing(trbs: seq<Trb>, base: nat, enqueue: nat, cycle: nat, sent: seq<Trb>, wraps: nat)
  {
    && |trbs| == TRBS && Holds(trbs, sent, USABLE)
    && enqueue <= USABLE && |sent| == USABLE * wraps + enqueue
    && cycle == (1 + wraps) % 2
    && IsLink(trbs[USABLE], base) && CycleOf(trbs[USABLE]) == (if wraps == 0 then 1 else wraps % 2)
  }

  ghost predicate Linked(trbs: seq<Trb>, base: nat, sent: seq<Trb>, c: Controller)
  {
    && |trbs| == TRBS && Holds(trbs, sent, USABLE) && IsLink(trbs[USABLE], base)
    && Tracks(c) && InOrder(sent, c.taken) && |sent| <= |c.taken| + USABLE
  }

  lemma LapOf(n: nat, laps: nat, pos: nat)
    requires pos < USABLE && n == USABLE * laps + pos
    ensures n % USABLE == pos && Lap(n, USABLE) == (1 + laps) % 2
  {
    DivMod(n, USABLE, laps, pos);
  }

  lemma TracksTake(c: Controller, t: Trb)
    requires Tracks(c) && c.pos < USABLE
    ensures Tracks(Controller(c.pos + 1, c.cycle, c.taken + [t]))
  {
    var c' := Controller(c.pos + 1, c.cycle, c.taken + [t]);
    assert |c'.taken| - c'.pos == |c.taken| - c.pos;
  }

  lemma TracksLink(c: Controller)
    requires Tracks(c) && c.pos == USABLE
    ensures Tracks(Controller(0, 1 - c.cycle % 2, c.taken))
  {
    DivMod(|c.taken|, USABLE, Laps(c) + 1, 0);
  }

  /** A controller's step keeps the order: it takes the next entry, or waits, or follows the link. */
  lemma StepKeeps(trbs: seq<Trb>, base: nat, sent: seq<Trb>, c: Controller)
    requires Linked(trbs, base, sent, c)
    ensures Linked(trbs, base, sent, Step(trbs, base, c))
    ensures c.pos < USABLE ==> |Step(trbs, base, c).taken| == if |c.taken| < |sent| then |c.taken| + 1 else |c.taken|
    ensures c.pos == USABLE ==> Step(trbs, base, c).taken == c.taken
  {
    var n := |c.taken|;
    if c.pos < USABLE {
      LapOf(n, Laps(c), c.pos);
      HoldsRead(trbs, sent, USABLE, n);
      TracksTake(c, trbs[c.pos]);
    } else {
      TracksLink(c);
    }
  }

  /** At the link the controller goes on exactly when the producer has written as many links as it is about to follow. */
  lemma AtLink(trbs: seq<Trb>, base: nat, enqueue: nat, cycle: nat, sent: seq<Trb>, wraps: nat, c: Controller)
    requires Producing(trbs, base, enqueue, cycle, sent, wraps) && Linked(trbs, base, sent, c) && c.pos == USABLE
    ensures Step(trbs, base, c).pos == 0 <==> wraps == Laps(c) + 1 || (wraps == 0 && Laps(c) == 0)
    ensures wraps == Laps(c) || wraps == Laps(c) + 1 || wraps == Laps(c) + 2
    ensures wraps == Laps(c) + 2 <==> enqueue < USABLE && |sent| == |c.taken| + USABLE
    ensures wraps == Laps(c) <==> enqueue == USABLE && |sent| == |c.taken|
  {
  }

  /** The controller makes no further progress on what is in the slots. */
  predicate Stalled(trbs: seq<Trb>, base: nat, c: Controller)
    requires |trbs| == TRBS && c.pos < TRBS
  {
    Step(trbs, base, c) == c
  }

  /**
   Between pushes a controller with entries to take stalls exactly when it waits
   at the link while the ring holds all its usable entries.
   */
  lemma StallsWhen(trbs: seq<Trb>, base: nat, enqueue: nat, cycle: nat, sent: seq<Trb>, wraps: nat, c: Controller)
    requires Producing(trbs, base, enqueue, cycle, sent, wraps) && enqueue < USABLE
    requires Linked(trbs, base, sent, c) && |c.taken| < |sent|
    ensures Stalled(trbs, base, c) <==> c.pos == USABLE && |sent| == |c.taken| + USABLE
  {
    StepKeeps(trbs, base, sent, c);
    if c.pos == USABLE { AtLink(trbs, base, enqueue, cycle, sent, wraps, c); }
  }

  function Steps(trbs: seq<Trb>, base: nat, c: Controller, n: nat): Controller
    requires |trbs| == TRBS && c.pos < TRBS
    decreases n
  {
    if n == 0 then c else Steps(trbs, base, Step(trbs, base, c), n - 1)
  }

  /** Short of a full ring everything sent is taken, in at most two looks an entry. */
  lemma {:induction false} Drains(trbs: seq<Trb>, base: nat, enqueue: nat, cycle: nat, sent: seq<Trb>, wraps: nat, c: Controller, n: nat)
    requires Producing(trbs, base, enqueue, cycle, sent, wraps) && enqueue < USABLE
    requires Linked(trbs, base, sent, c) && (c.pos < USABLE || |sent| < |c.taken| + USABLE)
    requires n >= 2 * (|sent| - |c.taken|)
    ensures Linked(trbs, base, sent, Steps(trbs, base, c, n)) && |Steps(trbs, base, c, n).taken| == |sent|
    decreases n
  {
    if n > 0 {
      StepKeeps(trbs, base, sent, c);
      if c.pos == USABLE {
        AtLink(trbs, base, enqueue, cycle, sent, wraps, c);
        var c1 := Step(trbs, base, c);
        StepKeeps(trbs, base, sent, c1);
        if n > 1 { Drains(trbs, base, enqueue, cycle, sent, wraps, Step(trbs, base, c1), n - 2); }
      } else {
        Drains(trbs, base, enqueue, cycle, sent, wraps, Step(trbs, base, c), n - 1);
      }
    }
  }

  class Ring {
    const physical: nat
    var trbs: seq<Trb>
    var enqueue: nat
    var cycle: nat
    ghost var sent: seq<Trb>
    ghost var wraps: nat

    ghost predicate Valid()
      reads this
    {
      Producing(trbs, physical, enqueue, cycle, sent, wraps)
    }

    /** __xhci_ring_alloc with a link, over a zeroed page. */
    constructor (physical: nat)
      ensures Valid() && sent == [] && enqueue == 0 && this.physical == physical
    {
      this.physical := physical;
      var zero := seq(TRBS, i => Trb(0, 0, 0));
      trbs := zero[USABLE := Trb(physical, 0, LINK + 1)];
      enqueue, cycle := 0, 1;
      sent, wraps := [], 0;
    }

    /** The first half of __xhci_ring_push: the entry, its cycle bit last. */
    method WriteSlot(t: Trb)
      requires Valid() && enqueue < USABLE
      modifies this
      ensures Valid() && sent == old(sent) + [t] && wraps == old(wraps) && enqueue == old(enqueue) + 1
    {
      LapOf(|sent|, wraps, enqueue);
      HoldsWrite(trbs, sent, USABLE, t);
      trbs := trbs[enqueue := Stamp(t, cycle)];
      enqueue := enqueue + 1;
      sent := sent + [t];
    }

    /** The second half: the link handed over and the lap begun. */
    method Wrap()
      requires Valid() && enqueue == USABLE
      modifies this
      ensures Valid() && sent == old(sent) && enqueue == 0 && wraps == old(wraps) + 1
    {
      HoldsLink(trbs, sent, Stamp(trbs[USABLE], cycle));
      trbs := trbs[enqueue := Stamp(trbs[enqueue], cycle)];
      cycle := 1 - cycle;
      enqueue := 0;
      wraps := wraps + 1;
    }

    /** __xhci_ring_push. */
    method Push(t: Trb)
      requires Valid() && enqueue < USABLE
      modifies this
      ensures Valid() && sent == old(sent) + [t] && enqueue < USABLE
    {
      WriteSlot(t);
      if enqueue == USABLE { Wrap(); }
    }

    /**
     Any interleaving of pushes, each of two steps, with a controller that looks
     whenever it likes: what it has taken is always a prefix of what was sent.
     A push waits while the ring is full.
     */
    method Run(acts: seq<Act>, c0: Controller, outstanding: nat) returns (c: Controller)
      requires Valid() && Linked(trbs, physical, sent, c0) && |sent| == |c0.taken| + outstanding
      modifies this
      ensures Valid() && Linked(trbs, physical, sent, c)
      ensures |old(sent)| <= |sent| && sent[..|old(sent)|] == old(sent)
      ensures |c0.taken| <= |c.taken| <= |sent|
      ensures forall k: nat | k < |c.taken| :: Carries(c.taken[k], sent[k], (1 + k / 255) % 2)
    {
      c := c0;
      var left := outstanding;
      for k := 0 to |acts|
        invariant Valid() && Linked(trbs, physical, sent, c) && |sent| == |c.taken| + left
        invariant |old(sent)| <= |sent| && sent[..|old(sent)|] == old(sent)
        invariant |c0.taken| <= |c.taken|
      {
        match acts[k]
        case Send(t) =>
          if enqueue < USABLE && left < USABLE {
            WriteSlot(t);
            left := left + 1;
          }
        case Finish =>
          if enqueue == USABLE { Wrap(); }
        case Look =>
          StepKeeps(trbs, physical, sent, c);
          var next := Step(trbs, physical, c);
          left := left - (|next.taken| - |c.taken|);
          c := next;
      }
    }
  }

  datatype Act = Send(t: Trb) | Finish | Look

  lemma HoldsLink(trbs: seq<Trb>, sent: seq<Trb>, t: Trb)
    requires |trbs| == TRBS && Holds(trbs, sent, USABLE)
    ensures Holds(trbs[USABLE := t], sent, USABLE)
  {
    var trbs' := trbs[USABLE := t];
    forall k: nat | |sent| <= k + USABLE && k < |sent|
      ensures SlotOk(trbs', sent, USABLE, k)
    {
      assert SlotOk(trbs, sent, USABLE, k);
    }
  }

  /** One lap taken entry by entry, then a whole lap pushed: the controller stays at the link for ever. */
  method FullRingStalls(t: Trb) returns (ring: Ring, c: Controller)
    ensures ring.Valid() && ring.enqueue < USABLE && Linked(ring.trbs, ring.physical, ring.sent, c)
    ensures |ring.sent| == |c.taken| + USABLE && Stalled(ring.trbs, ring.physical, c)
  {
    ring := new Ring(0x1000);
    c := Controller(0, 1, []);
    var i := 0;
    while i < USABLE
      invariant i <= USABLE && fresh(ring) && ring.Valid() && ring.enqueue < USABLE
      invariant |ring.sent| == i && |c.taken| == i && c.pos == i && Linked(ring.trbs, ring.physical, ring.sent, c)
    {
      ring.Push(t);
      StepKeeps(ring.trbs, ring.physical, ring.sent, c);
      c := Step(ring.trbs, ring.physical, c);
      i := i + 1;
    }
    i := 0;
    while i < USABLE
      invariant i <= USABLE && fresh(ring) && ring.Valid() && ring.enqueue < USABLE
      invariant |ring.sent| == USABLE + i && |c.taken| == USABLE && c.pos == USABLE
      invariant Linked(ring.trbs, ring.physical, ring.sent, c)
    {
      ring.Push(t);
      i := i + 1;
    }
    StallsWhen(ring.trbs, ring.physical, ring.enqueue, ring.cycle, ring.sent, ring.wraps, c);
  }

  // ---------------------------------------------------------------- the event ring

  function TypeOf(t: Trb): nat { t.control / 1024 % 64 }

  /** The controller's side of the event ring: it wraps by size and toggles. */
  datatype Poster = Poster(pos: nat, cycle: nat)

  function Advance(p: Poster): Poster
  {
    if p.pos + 1 == TRBS then Poster(0, 1 - p.cycle % 2) else Poster(p.pos + 1, p.cycle)
  }

  /** Place and cycle of an end of the ring that has handled `n` entries. */
  predicate AtEntry(pos: nat, cycle: nat, n: nat)
  {
    pos == n % TRBS && cycle == Lap(n, TRBS)
  }

  lemma NextEntry(pos: nat, cycle: nat, n: nat)
    requires AtEntry(pos, cycle, n)
    ensures AtEntry(Advance(Poster(pos, cycle)).pos, Advance(Poster(pos, cycle)).cycle, n + 1)
  {
    var q := n / TRBS;
    assert n == TRBS * q + pos;
    if pos + 1 == TRBS { DivMod(n + 1, TRBS, q + 1, 0); } else { DivMod(n + 1, TRBS, q, pos + 1); }
  }

  class EventRing {
    var trbs: seq<Trb>
    var dequeue: nat
    var cycle: nat
    var poster: Poster
    ghost var sent: seq<Trb>
    ghost var taken: nat

    ghost predicate Valid()
      reads this
    {
      && |trbs| == TRBS && Holds(trbs, sent, TRBS)
      && AtEntry(dequeue, cycle, taken) && AtEntry(poster.pos, poster.cycle, |sent|)
      && taken <= |sent| <= taken + TRBS
    }

    /** __xhci_ring_alloc without a link, over a zeroed page. */
    constructor ()
      ensures Valid() && sent == [] && taken == 0
    {
      trbs := seq(TRBS, i => Trb(0, 0, 0));
      dequeue, cycle := 0, 1;
      poster := Poster(0, 1);
      sent, taken := [], 0;
    }

    /** The controller posts an event; there is a slot that the driver has read. */
    method Post(t: Trb)
      requires Valid() && |sent| < taken + TRBS
      modifies `trbs, `poster, `sent
      ensures Valid() && sent == old(sent) + [t]
    {
      HoldsWrite(trbs, sent, TRBS, t);
      NextEntry(poster.pos, poster.cycle, |sent|);
      trbs := trbs[poster.pos := Stamp(t, poster.cycle)];
      poster := Advance(poster);
      sent := sent + [t];
    }

    /** One look of __xhci_wait_event: the next event, exactly when there is one. */
    method Take() returns (got: bool, out: Trb)
      requires Valid()
      modifies `dequeue, `cycle, `taken
      ensures Valid()
      ensures got <==> old(taken) < |sent|
      ensures got ==> taken == old(taken) + 1 && Carries(out, sent[old(taken)], Lap(old(taken), TRBS))
      ensures !got ==> taken == old(taken)
    {
      HoldsRead(trbs, sent, TRBS, taken);
      out := trbs[dequeue];
      got := CycleOf(out) == cycle;
      if got {
        NextEntry(dequeue, cycle, taken);
        dequeue := dequeue + 1;
        taken := taken + 1;
        if dequeue == TRBS {
          dequeue := 0;
          cycle := 1 - cycle;
        }
      }
    }

    /** The controller knows how far the driver has read from the pointer the driver reports. */
    predicate Full()
      requires Valid()
      reads this
      ensures Full() <==> |sent| == taken + TRBS
    {
      OneLap(taken, |sent|);
      poster.pos == dequeue && poster.cycle != cycle
    }

    /** What the ring stands for. */
    ghost function Q(): Queue
      reads this
    {
      Queue(sent, taken)
    }

    /** One move of either side; the controller holds back what finds no room. */
    method Do(act: EventAct) returns (out: seq<Trb>)
      requires Valid()
      modifies this
      ensures Valid() && Q() == Move(old(Q()), act) && old(sent) <= sent
      ensures |out| == taken - old(taken) && (out != [] ==> Carries(out[0], sent[old(taken)], Lap(old(taken), TRBS)))
    {
      out := [];
      match act
      case Arrive(t) => if !Full() { Post(t); }
      case Read =>
        var more, t := Take();
        if more { out := [t]; }
    }

    /**
     Controller and driver in any order: the ring is a queue of 256 places.  What the controller could post and
     what the driver read are what such a queue takes and gives, stamped by their lap, over any number of wraps.
     */
    method Run(acts: seq<EventAct>) returns (got: seq<Trb>)
      requires Valid()
      modifies this
      ensures Valid() && Q() == Play(old(Q()), acts)
      ensures |got| == taken - old(taken)
      ensures forall k: nat | k < |got| :: Carries(got[k], sent[old(taken) + k], (1 + (old(taken) + k) / 256) % 2)
    {
      got := [];
      var i := 0;
      while i < |acts|
        invariant i <= |acts| && Valid() && Q() == Play(old(Q()), acts[..i])
        invariant |got| == taken - old(taken)
        invariant forall k: nat | k < |got| :: Carries(got[k], sent[old(taken) + k], (1 + (old(taken) + k) / 256) % 2)
      {
        PlayOne(old(Q()), acts, i);
        var out := Do(acts[i]);
        got := got + out;
        i := i + 1;
      }
      assert acts[..i] == acts;
    }

    /** One turn of __xhci_wait_event's loop: whether there was an event, and whether of the wanted kind. */
    method Look(kind: nat, arrivals: seq<Trb>) returns (got: bool, wanted: bool, out: Trb)
      requires Valid()
      modifies this
      ensures Valid() && Q() == Play(old(Q()), TurnOf(arrivals)) && old(sent) <= sent && (arrivals == [] ==> sent == old(sent))
      ensures taken == old(taken) + if got then 1 else 0
      ensures got && wanted ==> Answers(sent, taken, kind, Completion(out), out)
      ensures got && !wanted ==> OtherKind(sent, kind, taken - 1)
      ensures !got ==> taken == |sent|
    {
      got, out := Turn(arrivals);
      wanted := TypeOf(out) == kind;
      if got { SameType(out, sent[taken - 1]); }
    }

    /** What happens from one look to the next. */
    method Turn(arrivals: seq<Trb>) returns (got: bool, out: Trb)
      requires Valid()
      modifies this
      ensures Valid() && Q() == Play(old(Q()), TurnOf(arrivals)) && old(sent) <= sent && (arrivals == [] ==> sent == old(sent))
      ensures got <==> taken == old(taken) + 1
      ensures got ==> Carries(out, sent[old(taken)], Lap(old(taken), TRBS))
      ensures !got ==> taken == old(taken) == |sent|
    {
      ghost var acts := TurnOf(arrivals);
      var i := 0;
      while i < |arrivals|
        invariant i <= |arrivals| && Valid() && Q() == Play(old(Q()), acts[..i])
        invariant old(sent) <= sent && taken == old(taken) && (i == 0 ==> sent == old(sent))
      {
        PlayOne(old(Q()), acts, i);
        var _ := Do(Arrive(arrivals[i]));
        i := i + 1;
      }
      PlayOne(old(Q()), acts, i);
      assert acts[..i + 1] == acts;
      got, out := Take();
    }

    /**
     __xhci_wait_event while the controller posts `posts[i]` before look `i` and the deadline passes before
     look `deadline`: the completion code of the first event of the wanted kind, those before it dropped; -1
     only after the deadline, when none that was posted is of that kind and all have been dropped.  `looks` is
     the number of looks it took.
     */
    method WaitEvent(kind: nat, posts: seq<seq<Trb>>, deadline: nat) returns (r: int, out: Trb, ghost looks: nat)
      requires Valid()
      modifies this
      ensures Valid() && looks > 0 && Q() == Looked(old(Q()), posts, looks)
      ensures Dropped(sent, old(taken), if r == -1 then taken else taken - 1, kind)
      ensures r != -1 ==> old(taken) < taken && Answers(sent, taken, kind, r, out)
      ensures r == -1 ==> taken == |sent| && looks > deadline
    {
      var i := 0;
      while true
        invariant Valid() && old(taken) <= taken && Q() == Looked(old(Q()), posts, i)
        invariant Dropped(sent, old(taken), taken, kind)
        decreases if i < |posts| + deadline then |posts| + deadline - i else 0, |sent| - taken
      {
        ghost var sent1, taken1 := sent, taken;
        var got, wanted;
        got, wanted, out := Look(kind, At(posts, i));
        DroppedMore(sent1, sent, old(taken), taken1, kind, got && !wanted);
        i := i + 1;
        if got {
          if wanted { return Completion(out), out, i; }
        } else if i > deadline {
          return -1, out, i;
        }
      }
    }
  }

  predicate OtherKind(sent: seq<Trb>, kind: nat, k: nat)
    requires k < |sent|
  {
    sent[k].control / 1024 % 64 != kind
  }

  /** The last entry taken is of the wanted kind, `out` carries it, and `r` is its completion code. */
  predicate Answers(sent: seq<Trb>, taken: nat, kind: nat, r: int, out: Trb)
  {
    && 0 < taken <= |sent| && sent[taken - 1].control / 1024 % 64 == kind && r == sent[taken - 1].status / 0x1000000 % 256
    && Carries(out, sent[taken - 1], (1 + (taken - 1) / 256) % 2)
  }

  /** None of these entries is of the wanted kind. */
  ghost predicate Dropped(sent: seq<Trb>, lo: nat, hi: int, kind: nat)
  {
    hi <= |sent| && forall k: nat {:trigger OtherKind(sent, kind, k)} | lo <= k < hi :: OtherKind(sent, kind, k)
  }

  lemma DroppedMore(sent: seq<Trb>, sent': seq<Trb>, lo: nat, hi: nat, kind: nat, more: bool)
    requires Dropped(sent, lo, hi, kind) && sent <= sent'
    requires more ==> hi < |sent'| && OtherKind(sent', kind, hi)
    ensures Dropped(sent', lo, if more then hi + 1 else hi, kind)
  {
    forall k: nat | lo <= k < hi ensures OtherKind(sent', kind, k) { assert OtherKind(sent, kind, k); }
  }

  /** The completion code in the top byte of the status. */
  function Completion(t: Trb): nat { t.status / 0x1000000 % 256 }

  // ---------------------------------------------------------------- a queue of 256 places

  datatype EventAct = Arrive(t: Trb) | Read

  /** Everything that ever entered, and how much of it has left. */
  datatype Queue = Queue(sent: seq<Trb>, taken: nat)

  function Move(q: Queue, act: EventAct): Queue
  {
    match act
    case Arrive(t) => if |q.sent| < q.taken + TRBS then Queue(q.sent + [t], q.taken) else q
    case Read => if q.taken < |q.sent| then Queue(q.sent, q.taken + 1) else q
  }

  function Play(q: Queue, acts: seq<EventAct>): Queue
  {
    if acts == [] then q else Move(Play(q, acts[..|acts| - 1]), acts[|acts| - 1])
  }

  lemma PlayOne(q: Queue, acts: seq<EventAct>, i: nat)
    requires i < |acts|
    ensures Play(q, acts[..i + 1]) == Move(Play(q, acts[..i]), acts[i])
  {
    assert acts[..i + 1][..i] == acts[..i];
  }

  /** What arrives before look `i`. */
  function At(posts: seq<seq<Trb>>, i: nat): seq<Trb> { if i < |posts| then posts[i] else [] }

  /** Arrivals, then a look. */
  function TurnOf(arrivals: seq<Trb>): (acts: seq<EventAct>)
    ensures |acts| == |arrivals| + 1 && acts[|arrivals|] == Read
    ensures forall i | 0 <= i < |arrivals| :: acts[i] == Arrive(arrivals[i])
  {
    seq(|arrivals|, i requires 0 <= i < |arrivals| => Arrive(arrivals[i])) + [Read]
  }

  /** The queue after `k` looks. */
  function Looked(q: Queue, posts: seq<seq<Trb>>, k: nat): Queue
  {
    if k == 0 then q else Play(Looked(q, posts, k - 1), TurnOf(At(posts, k - 1)))
  }

  /** Two ends at most one lap apart are at the same place in different laps exactly when they are one lap apart. */
  lemma OneLap(a: nat, b: nat)
    requires a <= b <= a + TRBS
    ensures a % TRBS == b % TRBS && Lap(a, TRBS) != Lap(b, TRBS) <==> b == a + TRBS
  {
    var q, p := a / TRBS, a % TRBS;
    var d := b - a;
    if p + d < TRBS {
      DivMod(b, TRBS, q, p + d);
    } else if p + d < 2 * TRBS {
      DivMod(b, TRBS, q + 1, p + d - TRBS);
    }
  }

  lemma SameType(out: Trb, t: Trb)
    requires out.control / 2 == t.control / 2
    ensures TypeOf(out) == TypeOf(t)
  {
    ByHalves(out.control);
    ByHalves(t.control);
  }

  lemma ByHalves(x: nat)
    ensures x / 1024 == x / 2 / 512
  {
  }
}
