/** The overwrite-oldest event ring of src/anticheat_module.c and the fate of every event over a run. */
module EventRing {
  import opened Arithmetic
  import opened Common

  // What the module uses; everything below holds for any ring size and batch size.
  const RING_SIZE: nat := 256
  const MAX_GET: nat := 64

  /** What the ring stands for: the undelivered events, oldest first, and the drop counter. */
  datatype Queue<E> = Queue(pending: seq<E>, dropped: nat)

  function Emitted<E>(q: Queue<E>, size: nat, e: E): Queue<E> {
    if |q.pending| >= size && q.pending != [] then Queue(q.pending[1..] + [e], q.dropped + 1)
    else Queue(q.pending + [e], q.dropped)
  }

  /** How many events one GET_EVENTS takes. */
  function Batch<E>(q: Queue<E>, max: nat): nat {
    Min(|q.pending|, max)
  }

  /** The slot i places after tail in a ring of n slots. */
  function Slot(tail: nat, i: nat, n: nat): (k: nat)
    requires tail < n && i <= n
    ensures k < n
  {
    if tail + i < n then tail + i else tail + i - n
  }

  lemma SlotIsModulo(tail: nat, i: nat, n: nat)
    requires tail < n && i <= n
    ensures (tail + i) % n == Slot(tail, i, n)
  {
    DivUnique(tail + i, n, if tail + i < n then 0 else 1, Slot(tail, i, n));
  }

  /** The count occupied slots from tail onwards. */
  ghost function Occupied<E>(slots: seq<E>, tail: nat, count: nat): (p: seq<E>)
    requires tail < |slots| && count <= |slots|
    ensures |p| == count
  {
    seq(count, i requires 0 <= i < count => slots[Slot(tail, i, |slots|)])
  }

  lemma OccupiedPop<E>(slots: seq<E>, tail: nat, count: nat)
    requires tail < |slots| && 0 < count <= |slots|
    ensures Occupied(slots, tail, count)[0] == slots[tail]
    ensures Occupied(slots, Slot(tail, 1, |slots|), count - 1) == Occupied(slots, tail, count)[1..]
    ensures Slot(Slot(tail, 1, |slots|), count - 1, |slots|) == Slot(tail, count, |slots|)
  {
    var n := |slots|;
    forall i | 0 <= i < count - 1
      ensures Slot(Slot(tail, 1, n), i, n) == Slot(tail, i + 1, n)
    {
    }
  }

  lemma OccupiedPush<E>(slots: seq<E>, tail: nat, count: nat, e: E)
    requires tail < |slots| && count < |slots|
    ensures var head := Slot(tail, count, |slots|);
            && Occupied(slots[head := e], tail, count + 1) == Occupied(slots, tail, count) + [e]
            && Slot(head, 1, |slots|) == Slot(tail, count + 1, |slots|)
  {
    var head := Slot(tail, count, |slots|);
    forall i | 0 <= i < count
      ensures Slot(tail, i, |slots|) != head
    {
    }
  }

  class Ring<E(0)> {
    const max: nat
    const ring: array<E>
    var head: nat
    var tail: nat
    var count: nat
    var dropped: nat

    ghost predicate Valid()
      reads this
    {
      && 0 < ring.Length
      && head < ring.Length && tail < ring.Length && count <= ring.Length
      && head == Slot(tail, count, ring.Length)
    }

    ghost function Pending(): (p: seq<E>)
      requires Valid()
      reads this, ring
      ensures |p| == count
    {
      Occupied(ring[..], tail, count)
    }

    ghost function Abstract(): Queue<E>
      requires Valid()
      reads this, ring
    {
      Queue(Pending(), dropped)
    }

    constructor (size: nat := RING_SIZE, max: nat := MAX_GET)
      requires 0 < size
      ensures Valid() && fresh(ring) && ring.Length == size && this.max == max
      ensures Abstract() == Queue([], 0)
    {
      ring := new E[size];
      this.max := max;
      head, tail, count, dropped := 0, 0, 0, 0;
    }

    method Emit(e: E)
      requires Valid()
      modifies this, ring
      ensures Valid()
      ensures Abstract() == Emitted(old(Abstract()), ring.Length, e)
    {
      hide Occupied, Slot;
      if count >= ring.Length {
        OccupiedPop(ring[..], tail, count);
        SlotIsModulo(tail, 1, ring.Length);
        tail := (tail + 1) % ring.Length;
        count := count - 1;
        dropped := dropped + 1;
      }
      OccupiedPush(ring[..], tail, count, e);
      ghost var slots := ring[..];
      ring[head] := e;
      assert ring[..] == slots[head := e];
      SlotIsModulo(head, 1, ring.Length);
      head := (head + 1) % ring.Length;
      count := count + 1;
    }

    method Pop() returns (e: E)
      requires Valid() && count > 0
      modifies this`tail, this`count
      ensures Valid() && count == old(count) - 1
      ensures e == old(Pending())[0] && Pending() == old(Pending())[1..]
    {
      hide Occupied, Slot;
      OccupiedPop(ring[..], tail, count);
      SlotIsModulo(tail, 1, ring.Length);
      e := ring[tail];
      tail := (tail + 1) % ring.Length;
      count := count - 1;
    }

    /** One drain: of a batch into the caller's list, or of everything into nothing. */
    method Drain(deliver: bool) returns (events: seq<E>, reported: nat)
      requires Valid()
      modifies this`tail, this`count
      ensures Valid()
      ensures reported == dropped
      ensures var n := if deliver then Batch(old(Abstract()), max) else |old(Pending())|;
              && Pending() == old(Pending())[n..]
              && events == if deliver then old(Pending())[..n] else []
      ensures deliver ==> |events| == if |old(Pending())| < max then |old(Pending())| else max
    {
      hide Occupied, Slot, Valid;
      reported := dropped;
      events := [];
      ghost var all := Pending();
      ghost var taken := 0;
      while count > 0 && (!deliver || |events| < max)
        invariant Valid()
        invariant taken <= |all| && Pending() == all[taken..]
        invariant events == if deliver then all[..taken] else []
        invariant deliver ==> taken <= max
        decreases count
      {
        var e := Pop();
        if deliver {
          events := events + [e];
        }
        taken := taken + 1;
      }
    }
  }

  // ---- runs ----

  /** Drain(true) is Get and Drain(false) is Flush. */
  datatype Step<E> = Emit(e: E) | Get | Flush

  datatype Fate = Delivered | Dropped | Flushed

  /** The queue with its history: everything emitted, what became of the events that have left the
      ring, oldest first, and everything the Get calls returned. */
  datatype Ledger<E> = Ledger(queue: Queue<E>, emitted: seq<E>, fates: seq<Fate>, delivered: seq<E>)

  ghost function Times(f: Fate, n: nat): (s: seq<Fate>)
    ensures |s| == n
  {
    if n == 0 then [] else Times(f, n - 1) + [f]
  }

  ghost function Record<E>(l: Ledger<E>, size: nat, max: nat, step: Step<E>): Ledger<E> {
    var q := l.queue;
    match step
    case Emit(e) =>
      Ledger(Emitted(q, size, e), l.emitted + [e], l.fates + Times(Dropped, if |q.pending| >= size then 1 else 0),
             l.delivered)
    case Get =>
      var k := Batch(q, max);
      Ledger(Queue(q.pending[k..], q.dropped), l.emitted, l.fates + Times(Delivered, k), l.delivered + q.pending[..k])
    case Flush =>
      Ledger(Queue([], q.dropped), l.emitted, l.fates + Times(Flushed, |q.pending|), l.delivered)
  }

  ghost function Replay<E>(l: Ledger<E>, size: nat, max: nat, run: seq<Step<E>>): Ledger<E> {
    if run == [] then l else Record(Replay(l, size, max, run[..|run| - 1]), size, max, run[|run| - 1])
  }

  ghost function Fresh<E>(): Ledger<E> {
    Ledger(Queue([], 0), [], [], [])
  }

  /** The events with a given fate, in emission order. */
  ghost function Select<E>(events: seq<E>, fates: seq<Fate>, f: Fate): seq<E>
    requires |fates| <= |events|
  {
    if fates == [] then [] else
      var n := |fates| - 1;
      Select(events, fates[..n], f) + if fates[n] == f then [events[n]] else []
  }

  /** What is pending is the emissions that have no fate yet; what was delivered is the emissions fated
      so, in emission order; and the drop counter counts the dropped ones. */
  ghost predicate Balanced<E>(l: Ledger<E>, size: nat) {
    && |l.queue.pending| <= size
    && |l.fates| <= |l.emitted|
    && l.queue.pending == l.emitted[|l.fates|..]
    && l.delivered == Select(l.emitted, l.fates, Delivered)
    && l.queue.dropped == |Select(l.emitted, l.fates, Dropped)|
  }

  lemma SelectOneMore<E>(events: seq<E>, fates: seq<Fate>, f: Fate, g: Fate)
    requires |fates| < |events|
    ensures Select(events, fates + [g], f) == Select(events, fates, f) + if f == g then [events[|fates|]] else []
  {
    assert (fates + [g])[..|fates|] == fates;
  }

  lemma {:induction false} SelectTimes<E>(events: seq<E>, fates: seq<Fate>, f: Fate, g: Fate, n: nat)
    requires |fates| + n <= |events|
    ensures Select(events, fates + Times(g, n), f)
         == Select(events, fates, f) + if f == g then events[|fates|..|fates| + n] else []
  {
    hide Select;
    if n == 0 {
      assert fates + Times(g, n) == fates;
    } else {
      SelectTimes(events, fates, f, g, n - 1);
      var some := fates + Times(g, n - 1);
      SelectOneMore(events, some, f, g);
      assert fates + Times(g, n) == some + [g];
      assert events[|fates|..|some| + 1] == events[|fates|..|some|] + [events[|some|]];
    }
  }

  lemma {:induction false} SelectPrefix<E>(events: seq<E>, more: seq<E>, fates: seq<Fate>, f: Fate)
    requires |fates| <= |events|
    ensures Select(events + more, fates, f) == Select(events, fates, f)
  {
    if fates != [] {
      SelectPrefix(events, more, fates[..|fates| - 1], f);
    }
  }

  lemma EmitBalances<E>(l: Ledger<E>, size: nat, max: nat, e: E)
    requires 0 < size && Balanced(l, size)
    ensures Balanced(Record(l, size, max, Emit(e)), size)
  {
    hide Select, Times;
    var k := if |l.queue.pending| >= size then 1 else 0;
    SelectPrefix(l.emitted, [e], l.fates, Delivered);
    SelectPrefix(l.emitted, [e], l.fates, Dropped);
    SelectTimes(l.emitted + [e], l.fates, Delivered, Dropped, k);
    SelectTimes(l.emitted + [e], l.fates, Dropped, Dropped, k);
  }

  lemma DrainBalances<E>(l: Ledger<E>, size: nat, max: nat, step: Step<E>)
    requires Balanced(l, size) && !step.Emit?
    ensures Balanced(Record(l, size, max, step), size)
  {
    hide Select, Times;
    var k := if step.Get? then Batch(l.queue, max) else |l.queue.pending|;
    var f := if step.Get? then Delivered else Flushed;
    SelectTimes(l.emitted, l.fates, Delivered, f, k);
    SelectTimes(l.emitted, l.fates, Dropped, f, k);
  }

  /** Every event of every run is delivered, dropped, flushed or pending, and delivery keeps the order. */
  lemma {:induction false} EveryEventIsAccountedFor<E>(size: nat, max: nat, run: seq<Step<E>>)
    requires 0 < size
    ensures Balanced(Replay(Fresh(), size, max, run), size)
  {
    hide Balanced, Record;
    if run == [] {
      FreshBalances<E>(size);
    } else {
      EveryEventIsAccountedFor(size, max, run[..|run| - 1]);
      var l := Replay(Fresh(), size, max, run[..|run| - 1]);
      if run[|run| - 1].Emit? {
        EmitBalances(l, size, max, run[|run| - 1].e);
      } else {
        DrainBalances(l, size, max, run[|run| - 1]);
      }
    }
  }

  lemma FreshBalances<E>(size: nat)
    ensures Balanced(Fresh<E>(), size)
  {
  }

  /** What the next step does, after any run, to the events that are neither delivered, dropped nor flushed: an
      emission adds its event, and takes the oldest away and counts it only if the ring is full; a get delivers the
      oldest, as many as fit in the batch; a flush takes all and delivers none. */
  lemma StepMeans<E>(size: nat, max: nat, run: seq<Step<E>>, step: Step<E>)
    requires 0 < size
    ensures var l := Replay(Fresh(), size, max, run);
            var l' := Record(l, size, max, step);
            |l.fates| <= |l.emitted| &&
            var left := l.emitted[|l.fates|..];
            match step
            case Emit(e) =>
              && l'.emitted == l.emitted + [e] && l'.delivered == l.delivered
              && if |left| == size then l'.queue == Queue(left[1..] + [e], l.queue.dropped + 1)
                 else l'.queue == Queue(left + [e], l.queue.dropped)
            case Get =>
              var k := if |left| < max then |left| else max;
              l'.delivered == l.delivered + left[..k] && l'.queue == Queue(left[k..], l.queue.dropped)
            case Flush =>
              l'.delivered == l.delivered && l'.queue == Queue([], l.queue.dropped)
  {
    hide Replay, Select;
    EveryEventIsAccountedFor(size, max, run);
  }

  lemma {:induction false} SelectPartitions<E>(events: seq<E>, fates: seq<Fate>)
    requires |fates| <= |events|
    ensures |Select(events, fates, Delivered)| + |Select(events, fates, Dropped)| + |Select(events, fates, Flushed)|
         == |fates|
  {
    if fates != [] {
      SelectPartitions(events, fates[..|fates| - 1]);
    }
  }

  /** emitted = delivered + dropped + flushed + pending */
  lemma Conservation<E>(size: nat, max: nat, run: seq<Step<E>>)
    requires 0 < size
    ensures var l := Replay(Fresh(), size, max, run);
            && |l.fates| <= |l.emitted|
            && |l.emitted|
               == |l.delivered| + l.queue.dropped + |Select(l.emitted, l.fates, Flushed)| + |l.queue.pending|
  {
    var l := Replay(Fresh(), size, max, run);
    EveryEventIsAccountedFor(size, max, run);
    SelectPartitions(l.emitted, l.fates);
  }

  // ---- gap detection by the reader ----

  /** Between two reports of the drop counter with no flush between them, the counter grows by exactly the
      number of events lost, so it is unchanged if and only if none was. */
  lemma {:induction false} DropCounterDetectsLoss<E>(l: Ledger<E>, size: nat, max: nat, run: seq<Step<E>>)
    requires 0 < size && |l.queue.pending| <= size
    requires Flush !in run
    ensures var l' := Replay(l, size, max, run);
            && |l'.queue.pending| <= size && l.emitted <= l'.emitted && l.queue.dropped <= l'.queue.dropped
            && |l.delivered + l.queue.pending| + (|l'.emitted| - |l.emitted|)
               == |l'.delivered + l'.queue.pending| + (l'.queue.dropped - l.queue.dropped)
            && (l'.queue.dropped == l.queue.dropped <==>
                  l'.delivered + l'.queue.pending == l.delivered + l.queue.pending + l'.emitted[|l.emitted|..])
  {
    if run != [] {
      DropCounterDetectsLoss(l, size, max, run[..|run| - 1]);
      NothingMovesWithoutLoss(Replay(l, size, max, run[..|run| - 1]), size, max, run[|run| - 1]);
    }
  }

  lemma NothingMovesWithoutLoss<E>(l: Ledger<E>, size: nat, max: nat, step: Step<E>)
    requires 0 < size && |l.queue.pending| <= size && !step.Flush?
    ensures var l' := Record(l, size, max, step);
            var news := if step.Emit? then [step.e] else [];
            && |l'.queue.pending| <= size && l'.emitted == l.emitted + news
            && l.queue.dropped <= l'.queue.dropped
            && |l.delivered + l.queue.pending| + |news|
               == |l'.delivered + l'.queue.pending| + (l'.queue.dropped - l.queue.dropped)
            && (l'.queue.dropped == l.queue.dropped ==>
                  l'.delivered + l'.queue.pending == l.delivered + l.queue.pending + news)
  {
  }
}
