/**
 * What every run of the event sender keeps within bounds (internal/api/events.go): the size of the queue and
 * of its bytes, when the next batch is due, how long the waits between tries are, what shutdown saves, and
 * that the urgency noted with each event is the one its type and severity give.
 */
module EventBounds {
  import opened Sequences
  import opened EventQueue
  import opened EventDelivery

  /** The drop counters are 64 bits wide in the source. */
  const COUNTER_LIMIT := 0x1_0000_0000_0000_0000

  predicate Sized(e: Event) {
    EVENT_SIZE_MIN <= e.Size() <= EVENT_SIZE_MAX
  }

  predicate AllSized(q: seq<Queued>) {
    forall i | 0 <= i < |q| :: EVENT_SIZE_MIN <= q[i].size <= EVENT_SIZE_MAX
  }

  /** Callers report events as limitEvent leaves them. */
  predicate SizedReports(ops: seq<Op>) {
    forall op | op in ops && op.Add? :: forall e | e in op.events :: Sized(e)
  }

  predicate Bounded(w: Waiting) {
    && |w.queue| <= EVENT_QUEUE_MAX
    && Bytes(w.queue) <= EVENT_QUEUE_BYTES
    && AllSized(w.queue)
    && w.losses.refused <= w.losses.dropped <= w.losses.total
  }

  lemma {:induction false} BytesBounds(q: seq<Queued>)
    requires AllSized(q)
    ensures EVENT_SIZE_MIN * |q| <= Bytes(q) <= EVENT_SIZE_MAX * |q|
  {
    if q != [] {
      BytesBounds(q[1..]);
    }
  }

  lemma {:induction false} DigitsBound(n: nat, k: nat, p: nat)
    requires k > 0 && p == Pow10(k) && n < p
    ensures Digits(n) <= k
    decreases k
  {
    if n >= 10 {
      DigitsBound(n / 10, k - 1, Pow10(k - 1));
    }
  }

  function Pow10(k: nat): nat {
    if k == 0 then 1 else 10 * Pow10(k - 1)
  }

  lemma CounterDigits(n: nat)
    requires n < COUNTER_LIMIT
    ensures Digits(n) <= 20
  {
    assert Pow10(10) == 10_000_000_000;
    assert Pow10(20) == 100_000_000_000_000_000_000;
    DigitsBound(n, 20, Pow10(20));
  }

  lemma WarningIsSmall(l: Losses)
    requires l.dropped < COUNTER_LIMIT && l.refused < COUNTER_LIMIT
    ensures EVENT_SIZE_MIN <= Warning(l).Size() <= EVENT_SIZE_MIN * EVENT_BATCH_MAX
    ensures Warning(l).Size() <= EVENT_SIZE_MAX
  {
    CounterDigits(l.dropped);
    CounterDigits(l.refused);
  }

  lemma SubseqSized(a: seq<Queued>, b: seq<Queued>)
    requires Subseq(a, b) && AllSized(b)
    ensures AllSized(a)
  {
    SubseqLength(a, b);
    forall i | 0 <= i < |a|
      ensures EVENT_SIZE_MIN <= a[i].size <= EVENT_SIZE_MAX
    {
      assert a[i] in b;
    }
  }

  /** An event as limitEvent leaves it always gets its room: the reduced budgets hold once anything was dropped. */
  lemma SizedEventHasRoom(q: seq<Queued>, e: Event)
    requires Sized(e)
    ensures Fits(MadeRoom(q, e.Size()), e.Size())
    ensures !Fits(q, e.Size()) ==> Room(MadeRoom(q, e.Size()), e.Size())
  {
    MakeRoomDropsEnoughAndNoMore(q, e.Size());
  }

  lemma EnqueueStaysBounded(w: Waiting, x: Queued)
    requires Bounded(w) && Fits(w.queue, x.size) && EVENT_SIZE_MIN <= x.size <= EVENT_SIZE_MAX
    ensures Bounded(w.(queue := w.queue + [x]))
  {
    BytesConcat(w.queue, [x]);
  }

  lemma MakeRoomStaysBounded(s: State, now: int, size: nat)
    requires Bounded(s.w)
    ensures Bounded(MakeRoom(s, now, size).w)
    ensures MakeRoom(s, now, size).w.losses.total >= s.w.losses.total
  {
    var kept := MadeRoom(s.w.queue, size);
    MakeRoomDropsTheRightEvents(s.w.queue, size);
    SubseqLength(kept, s.w.queue);
    SubseqSized(kept, s.w.queue);
    SubseqBytes(kept, s.w.queue);
  }

  lemma {:induction false} SubseqBytes(a: seq<Queued>, b: seq<Queued>)
    requires Subseq(a, b)
    ensures Bytes(a) <= Bytes(b)
  {
    if b != [] {
      if a != [] && a[0] == b[0] {
        SubseqBytes(a[1..], b[1..]);
      } else {
        SubseqBytes(a, b[1..]);
      }
    }
  }

  lemma AddOneStaysBounded(s: State, now: int, e: Event)
    requires Bounded(s.w) && Sized(e)
    ensures Bounded(AddOne(s, now, e).w)
    ensures AddOne(s, now, e).w.losses.total >= s.w.losses.total
  {
    MakeRoomStaysBounded(s, now, e.Size());
    SizedEventHasRoom(s.w.queue, e);
    EnqueueStaysBounded(MakeRoom(s, now, e.Size()).w, Entry(e, now));
  }

  lemma {:induction false} AddStaysBounded(s: State, now: int, events: seq<Event>)
    requires Bounded(s.w) && forall e | e in events :: Sized(e)
    ensures Bounded(AddAll(s, now, events).w)
    ensures AddAll(s, now, events).w.losses.total >= s.w.losses.total
    decreases |events|
  {
    if !s.w.stopped && events != [] {
      assert events[0] in events;
      AddOneStaysBounded(s, now, events[0]);
      AddStaysBounded(AddOne(s, now, events[0]), now, events[1..]);
    }
  }

  /** Past the budgets by one entry and a hundred of the smallest ones, as a new warning may leave it. */
  predicate NearlyBounded(w: Waiting) {
    && |w.queue| <= EVENT_QUEUE_MAX + 1
    && Bytes(w.queue) <= EVENT_QUEUE_BYTES + EVENT_SIZE_MIN * EVENT_BATCH_MAX
    && AllSized(w.queue)
    && w.losses.refused <= w.losses.dropped <= w.losses.total
  }

  lemma EnqueueOverrun(w: Waiting, x: Queued)
    requires Bounded(w) && EVENT_SIZE_MIN <= x.size <= EVENT_SIZE_MIN * EVENT_BATCH_MAX
    ensures NearlyBounded(w.(queue := w.queue + [x], losses := w.losses.(dropped := 0, refused := 0)))
  {
    BytesConcat(w.queue, [x]);
  }

  lemma WarnOverrun(s: State)
    requires Bounded(s.w) && s.w.losses.total < COUNTER_LIMIT
    ensures NearlyBounded(Warn(s).w)
  {
    WarningIsSmall(s.w.losses);
    EnqueueOverrun(s.w, WarningEntry(s.w.losses));
  }

  lemma FullBatchFrees(q: seq<Queued>)
    requires AllSized(q) && |q| >= EVENT_BATCH_MAX
    ensures Bytes(q[EVENT_BATCH_MAX..]) + EVENT_SIZE_MIN * EVENT_BATCH_MAX <= Bytes(q)
  {
    assert q == q[..EVENT_BATCH_MAX] + q[EVENT_BATCH_MAX..];
    BytesConcat(q[..EVENT_BATCH_MAX], q[EVENT_BATCH_MAX..]);
    BytesBounds(q[..EVENT_BATCH_MAX]);
  }

  lemma BatchFrees(t: State, now: int, force: bool)
    requires NearlyBounded(t.w)
    ensures BatchDue(t.w, now, force) ==> Bounded(TakeFirst(t, now, Min(|t.w.queue|, EVENT_BATCH_MAX)).w)
    ensures !BatchDue(t.w, now, force) ==> Bounded(t.w)
  {
    var q := t.w.queue;
    if |q| >= EVENT_BATCH_MAX {
      FullBatchFrees(q);
    } else {
      BytesBounds(q);
      assert q[|q|..] == [];
    }
  }

  /** take itself brings the queue back within its budgets. */
  lemma TakeStaysBounded(s: State, now: int, force: bool)
    requires Bounded(s.w) && s.w.losses.total < COUNTER_LIMIT
    ensures Bounded(Take(s, now, force).w)
  {
    WarnOverrun(s);
    BatchFrees(Warn(s), now, force);
  }

  /**
   * Over every run the queue holds at most 5000 events and 16 MB, warnings included, as long as the loss
   * counter fits its 64 bits.
   */
  lemma {:induction false} QueueBoundedOverRuns(ops: seq<Op>)
    requires SizedReports(ops) && Run(Init, ops).w.losses.total < COUNTER_LIMIT
    ensures Bounded(Run(Init, ops).w)
    ensures ops != [] ==> Run(Init, ops[..|ops| - 1]).w.losses.total <= Run(Init, ops).w.losses.total
  {
    if ops != [] {
      var before, op := ops[..|ops| - 1], ops[|ops| - 1];
      assert op in ops && forall o | o in before :: o in ops;
      TotalGrows(Run(Init, before), op);
      QueueBoundedOverRuns(before);
      var s := Run(Init, before);
      match op
      case Add(now, events) => AddStaysBounded(s, now, events);
      case TakeBatch(now) => TakeStaysBounded(s, now, s.b.flushing);
      case Answered(_, _) =>
      case Flush(_) =>
      case Close =>
    }
  }

  lemma {:induction false} AddTotalGrows(s: State, now: int, events: seq<Event>)
    ensures AddAll(s, now, events).w.losses.total >= s.w.losses.total
    decreases |events|
  {
    if !s.w.stopped && events != [] {
      AddTotalGrows(AddOne(s, now, events[0]), now, events[1..]);
    }
  }

  lemma TotalGrows(s: State, op: Op)
    ensures Step(s, op).w.losses.total >= s.w.losses.total
  {
    if op.Add? {
      AddTotalGrows(s, op.now, op.events);
    }
  }

  // ---- waiting times

  /** What is queued, and the last urgent batch, lie in the past. */
  predicate Timely(w: Waiting, now: int) {
    && w.lastUrgent <= now
    && (w.losses.dropped > 0 ==> w.losses.firstDrop <= now)
    && forall i | 0 <= i < |w.queue| :: w.queue[i].at <= now
  }

  /**
   * When take returns nothing although events wait, the next batch is due within five seconds, and within
   * one second when an urgent event waits.
   */
  lemma NextBatchIsDueSoon(s: State, now: int)
    requires Timely(s.w, now) && s.b.pending == []
    requires Take(s, now, false).b.pending == [] && Take(s, now, false).w.queue != []
    ensures var w := Take(s, now, false).w;
            && now < Due(w) <= now + EVENT_FLUSH_EVERY
            && (Urgents(w.queue) != [] ==> Due(w) <= now + EVENT_URGENT_GAP)
  {
    var t := Warn(s);
    assert Take(s, now, false) == t;
    assert t.w.queue[0].at <= now;
  }

  function TimeOf(op: Op, otherwise: int): int {
    match op
    case Add(now, _) => now
    case TakeBatch(now) => now
    case Answered(now, _) => now
    case Flush(_) => otherwise
    case Close => otherwise
  }

  lemma {:induction false} AddTimely(s: State, at: int, events: seq<Event>, now: int)
    requires Timely(s.w, now) && at <= now
    ensures Timely(AddAll(s, at, events).w, now)
    decreases |events|
  {
    if !s.w.stopped && events != [] {
      var kept := MadeRoom(s.w.queue, events[0].Size());
      MakeRoomDropsTheRightEvents(s.w.queue, events[0].Size());
      SubseqLength(kept, s.w.queue);
      forall i | 0 <= i < |kept|
        ensures kept[i].at <= now
      {
        assert kept[i] in s.w.queue;
      }
      AddTimely(AddOne(s, at, events[0]), at, events[1..], now);
    }
  }

  /** NextBatchIsDueSoon applies after every run whose clock readings do not lie in the future. */
  lemma {:induction false} TimelyOverRuns(ops: seq<Op>, now: int)
    requires now >= ZERO_TIME && forall i | 0 <= i < |ops| :: TimeOf(ops[i], now) <= now
    ensures Timely(Run(Init, ops).w, now)
  {
    if ops != [] {
      var op := ops[|ops| - 1];
      TimelyOverRuns(ops[..|ops| - 1], now);
      var s := Run(Init, ops[..|ops| - 1]);
      if op.Add? {
        AddTimely(s, op.now, op.events, now);
      }
    }
  }

  /**
   * The wait after an answer: none after a delivery, 200 ms after a batch was split or an event given up. When the
   * same request is tried again it is half a second while a Flush waits that is not held back by an earlier
   * refusal, and otherwise between a second and five minutes, or half an hour after a refusal of the agent.
   */
  lemma RetryWaitBounds(s: State, now: int, ans: Answer)
    requires Sendable(s.b)
    ensures var b := Reply(s, now, ans).b;
            var again := b.parts == s.b.parts;
            && (b.retryIn == 0 <==> ans.Accepted?)
            && (b.retryIn == EVENT_SPLIT_GAP <==> !again && !ans.Accepted?)
            && (b.retryIn == EVENT_FLUSH_RETRY <==> again && s.b.flushing && !ans.Held())
            && (again && (!s.b.flushing || ans.Held()) ==> EVENT_RETRY_MIN <= b.retryIn <= REFUSAL_MAX)
            && (b.retryIn > EVENT_RETRY_MAX ==> ans.Status? && b.retryIn <= ans.retryAfter)
            && (b.retryIn > EVENT_RETRY_AFTER_MAX ==> ans.RefusesAgent())
  {
    FirstPartFits(s.b);
    assert |s.b.parts[1..]| == |s.b.parts| - 1;
  }

  // ---- shutdown

  lemma {:induction false} UrgentEntries(q: seq<Queued>)
    requires forall x | x in q :: Faithful(x)
    ensures Events(Urgents(q)) == Filter(UrgentEvent, Events(q))
  {
    if q != [] {
      assert q[0] in q && forall x | x in q[1..] :: x in q;
      UrgentEntries(q[1..]);
    }
  }

  /**
   * Shutdown saves exactly the urgent events that were not delivered, in queueing order, and only past
   * 5000 the oldest of them are left out.
   */
  lemma SpoolIsTheUrgentRemainder(s: State)
    requires forall x | x in s.w.queue :: Faithful(x)
    ensures IsSuffix(Spool(s), Filter(UrgentEvent, Remaining(s)))
    ensures |Filter(UrgentEvent, Remaining(s))| <= EVENT_QUEUE_MAX ==> Spool(s) == Filter(UrgentEvent, Remaining(s))
    ensures |Spool(s)| <= EVENT_QUEUE_MAX
  {
    UrgentEntries(s.w.queue);
    FilterConcat(UrgentEvent, s.b.pending, Events(s.w.queue));
  }

  ghost predicate AllFaithful(q: seq<Queued>) {
    forall i | 0 <= i < |q| :: Faithful(q[i])
  }

  lemma MakeRoomFaithful(q: seq<Queued>, size: nat)
    requires AllFaithful(q)
    ensures AllFaithful(MadeRoom(q, size))
  {
    var kept := MadeRoom(q, size);
    MakeRoomDropsTheRightEvents(q, size);
    SubseqLength(kept, q);
    forall i | 0 <= i < |kept|
      ensures Faithful(kept[i])
    {
      assert kept[i] in q;
    }
  }

  lemma {:induction false} AddFaithful(s: State, now: int, events: seq<Event>)
    requires AllFaithful(s.w.queue)
    ensures AllFaithful(AddAll(s, now, events).w.queue)
    decreases |events|
  {
    if !s.w.stopped && events != [] {
      MakeRoomFaithful(s.w.queue, events[0].Size());
      AddFaithful(AddOne(s, now, events[0]), now, events[1..]);
    }
  }

  lemma TakeFaithful(s: State, now: int, force: bool)
    requires AllFaithful(s.w.queue)
    ensures AllFaithful(Take(s, now, force).w.queue)
  {
    var l := s.w.losses;
    OverflowIsNotUrgent(l.dropped, l.refused, l.firstDrop);
    assert Faithful(WarningEntry(l));
  }

  /** Over every run the queue's own marks agree with the classification of its events, warnings included. */
  lemma {:induction false} FaithfulOverRuns(ops: seq<Op>)
    ensures AllFaithful(Run(Init, ops).w.queue)
  {
    if ops != [] {
      var op := ops[|ops| - 1];
      FaithfulOverRuns(ops[..|ops| - 1]);
      var s := Run(Init, ops[..|ops| - 1]);
      if op.Add? {
        AddFaithful(s, op.now, op.events);
      } else if op.TakeBatch? {
        TakeFaithful(s, op.now, s.b.flushing);
      }
    }
  }
}
