/**
 * Event delivery (internal/api/events.go) as steps on a state, one for each lock section; the history says
 * what happened to every event that was ever queued.
 */
module EventDelivery {
  import opened Sequences
  import opened EventQueue

  // Times are milliseconds; the zero time of the source is far before any clock reading.
  const ZERO_TIME: int := -62135596800000
  const EVENT_FLUSH_EVERY := 5000
  const EVENT_URGENT_GAP := 1000
  const EVENT_POISON_TRIES := 10
  const EVENT_RETRY_MIN := 1000
  const EVENT_RETRY_MAX := 30000
  const EVENT_RETRY_AFTER_MAX := 300000
  const REFUSAL_MAX := 1800000
  const EVENT_FLUSH_RETRY := 500
  const EVENT_SPLIT_GAP := 200

  /** The server's answer to one request; held: nothing was sent, an earlier refusal still runs. */
  datatype Answer = Accepted | Status(code: int, retryAfter: nat, held: bool) | Unreachable
  {
    /** A refusal of the events themselves, which sending them again would not change. */
    predicate Permanent() {
      Status? && code in {400, 413, 422}
    }

    /** An error of the server itself, not of a proxy in front of it. */
    predicate ServerFault() {
      Status? && code !in {502, 503, 504} && code >= 500
    }

    /** A refusal of the agent (401, 403). */
    predicate RefusesAgent() {
      Status? && code in {401, 403}
    }

    predicate Held() {
      Status? && held
    }
  }

  /** The queue and what the next warning will say. */
  datatype Waiting = Waiting(queue: seq<Queued>, stopped: bool, lastUrgent: int, losses: Losses)
  datatype Losses = Losses(dropped: nat, refused: nat, firstDrop: int, total: nat)

  /**
   * The loop's own variables: the batch taken from the queue, the parts of it still to send, the wait before the
   * next try, and whether a Flush caller waits.
   */
  datatype Batch = Batch(pending: seq<Event>, parts: seq<nat>, sending: nat, fails: nat, someDelivered: bool,
                         backoff: nat, retryIn: nat, flushing: bool)

  /** What became of the events, in order: queued so far, delivered, lost and counted, lost uncounted. */
  datatype History = History(log: seq<Event>, delivered: seq<Event>, lost: seq<Event>, uncounted: seq<Event>)

  datatype State = State(w: Waiting, b: Batch, h: History)

  const Init := State(Waiting([], false, ZERO_TIME, Losses(0, 0, ZERO_TIME, 0)),
                      Batch([], [], 0, 0, false, 0, 0, false),
                      History([], [], [], []))

  // ---- the steps

  function NoteDropped(l: Losses, now: int, n: nat, refused: nat): Losses {
    if n == 0 then l
    else Losses(l.dropped + n, l.refused + refused, if l.dropped == 0 then now else l.firstDrop, l.total + n)
  }

  function Entry(e: Event, at: int): Queued {
    Queued(e, UrgentEvent(e), e.Size(), at)
  }

  /** The events of q that are not in its subsequence kept. */
  function Gone(q: seq<Queued>, kept: seq<Queued>): seq<Event> {
    if q == [] then []
    else if kept != [] && kept[0] == q[0] then Gone(q[1..], kept[1..])
    else [q[0].ev] + Gone(q[1..], kept)
  }

  function MakeRoom(s: State, now: int, size: nat): State {
    var q := s.w.queue;
    var kept := MadeRoom(q, size);
    assert |kept| <= |q|;
    s.(w := s.w.(queue := kept, losses := NoteDropped(s.w.losses, now, |q| - |kept|, 0)),
       h := s.h.(lost := s.h.lost + Gone(q, kept)))
  }

  function Enqueue(s: State, x: Queued): State {
    s.(w := s.w.(queue := s.w.queue + [x]), h := s.h.(log := s.h.log + [x.ev]))
  }

  function AddOne(s: State, now: int, e: Event): State {
    Enqueue(MakeRoom(s, now, e.Size()), Entry(e, now))
  }

  function AddAll(s: State, now: int, events: seq<Event>): State
    decreases |events|
  {
    if s.w.stopped || events == [] then s
    else AddAll(AddOne(s, now, events[0]), now, events[1..])
  }

  function Warning(l: Losses): Event {
    Overflow(l.dropped, l.refused, l.firstDrop)
  }

  /** The queue does not classify its own warning: it enters it as not urgent. */
  function WarningEntry(l: Losses): Queued {
    Queued(Warning(l), false, Warning(l).Size(), l.firstDrop)
  }

  /** The warning about the events lost so far joins the end of the queue. */
  function Warn(s: State): State {
    var l := s.w.losses;
    if l.dropped == 0 then s
    else
      var t := Enqueue(s, WarningEntry(l));
      t.(w := t.w.(losses := l.(dropped := 0, refused := 0)))
  }

  /** When the next batch is due; the queue holds something. */
  function Due(w: Waiting): int
    requires w.queue != []
  {
    var due := w.queue[0].at + EVENT_FLUSH_EVERY;
    var gap := w.lastUrgent + EVENT_URGENT_GAP;
    if Urgents(w.queue) != [] && gap < due then gap else due
  }

  predicate BatchDue(w: Waiting, now: int, force: bool) {
    w.queue != [] && (force || |w.queue| >= EVENT_BATCH_MAX || now >= Due(w))
  }

  function Min(a: nat, b: nat): nat {
    if a < b then a else b
  }

  /** The n oldest events leave the queue as one batch. */
  function TakeFirst(s: State, now: int, n: nat): State
    requires n <= |s.w.queue|
  {
    var q := s.w.queue;
    s.(w := s.w.(queue := q[n..], lastUrgent := if Urgents(q[..n]) != [] then now else s.w.lastUrgent),
       b := s.b.(pending := Events(q[..n]), parts := [n], sending := n, fails := 0, someDelivered := false))
  }

  /** take */
  function Take(s: State, now: int, force: bool): State {
    var t := Warn(s);
    if BatchDue(t.w, now, force) then TakeFirst(t, now, Min(|t.w.queue|, EVENT_BATCH_MAX)) else t
  }

  /**
   * The loop takes a batch when nothing is pending, at once for a waiting Flush; that is answered when there is
   * nothing to take.
   */
  function TakeNext(s: State, now: int): State {
    var t := Take(s, now, s.b.flushing);
    if t.b.pending == [] then t.(b := t.b.(flushing := false)) else t
  }

  predicate AllPositive(parts: seq<nat>) {
    forall p | p in parts :: p > 0
  }

  /** There is a batch, and parts say how to send it. */
  predicate Sendable(b: Batch) {
    b.pending != [] && b.parts != [] && AllPositive(b.parts) && Sum(b.parts) == |b.pending| == b.sending
  }

  predicate Idle(b: Batch) {
    b.pending == [] && b.parts == [] && b.sending == 0
  }

  lemma FirstPartFits(b: Batch)
    requires Sendable(b)
    ensures 0 < b.parts[0] <= |b.pending|
  {
    assert b.parts[0] in b.parts;
  }

  /** The first part leaves the batch. */
  function Advance(b: Batch): Batch
    requires Sendable(b)
  {
    FirstPartFits(b);
    b.(pending := b.pending[b.parts[0]..], parts := b.parts[1..], sending := b.sending - b.parts[0], fails := 0)
  }

  function NextBackoff(backoff: nat): nat {
    Min(if 2 * backoff > EVENT_RETRY_MIN then 2 * backoff else EVENT_RETRY_MIN, EVENT_RETRY_MAX)
  }

  /** The wait before the next try. */
  function RetryWait(backoff: nat, ans: Answer, flushing: bool): nat {
    if flushing && !ans.Held() then EVENT_FLUSH_RETRY
    else if ans.Status? && ans.retryAfter > backoff then
      Min(ans.retryAfter, if ans.RefusesAgent() then REFUSAL_MAX else EVENT_RETRY_AFTER_MAX)
    else backoff
  }

  predicate Poisoned(b: Batch, ans: Answer) {
    ans.ServerFault() && b.fails + 1 >= EVENT_POISON_TRIES
  }

  function Deliver(s: State): State
    requires Sendable(s.b)
  {
    FirstPartFits(s.b);
    s.(b := Advance(s.b).(backoff := 0, someDelivered := true, retryIn := 0),
       h := s.h.(delivered := s.h.delivered + s.b.pending[..s.b.parts[0]]))
  }

  function Halve(s: State): State
    requires Sendable(s.b)
  {
    var n := s.b.parts[0];
    s.(b := s.b.(parts := [n / 2, n - n / 2] + s.b.parts[1..], fails := 0, retryIn := EVENT_SPLIT_GAP))
  }

  /** The refused event is given up; an overflow warning is not counted, that would queue a new one. */
  function GiveUp(s: State, now: int): State
    requires Sendable(s.b)
  {
    var e := s.b.pending[0];
    if e.Type() == "event_queue_overflow" then
      s.(b := Advance(s.b).(retryIn := EVENT_SPLIT_GAP), h := s.h.(uncounted := s.h.uncounted + [e]))
    else
      s.(b := Advance(s.b).(retryIn := EVENT_SPLIT_GAP), h := s.h.(lost := s.h.lost + [e]),
         w := s.w.(losses := NoteDropped(s.w.losses, now, 1, 1)))
  }

  /** The same request again; a Flush caller is told when an earlier refusal still holds every request back. */
  function Again(b: Batch, ans: Answer): Batch {
    var k := NextBackoff(b.backoff);
    b.(fails := b.fails + 1, backoff := k, retryIn := RetryWait(k, ans, b.flushing),
       flushing := b.flushing && !ans.Held())
  }

  function Retry(s: State, ans: Answer): State {
    s.(b := Again(s.b, ans))
  }

  /** One answer to the request that carried the first part of the batch. */
  function Reply(s: State, now: int, ans: Answer): State
    requires Sendable(s.b)
  {
    var n := s.b.parts[0];
    var poisoned := Poisoned(s.b, ans);
    if ans.Accepted? then Deliver(s)
    else if (ans.Permanent() || poisoned) && n > 1 then Halve(s)
    else if ans.Permanent() || (poisoned && s.b.someDelivered) then GiveUp(s, now)
    else Retry(s, ans)
  }

  /** What shutdown keeps for the next start: the urgent events not delivered, the newest if too many. */
  function Spool(s: State): seq<Event> {
    Newest(Filter(UrgentEvent, s.b.pending) + Events(Urgents(s.w.queue)))
  }

  function Newest(keep: seq<Event>): seq<Event> {
    if |keep| > EVENT_QUEUE_MAX then keep[|keep| - EVENT_QUEUE_MAX..] else keep
  }

  // ---- runs

  datatype Op =
    | Add(now: int, events: seq<Event>)
    | TakeBatch(now: int)
    | Answered(now: int, ans: Answer)
    | Flush(waits: bool)
    | Close

  /**
   * The loop takes a batch only when it has none, and an answer only comes to a request. A Flush caller comes and
   * ends the wait for the next try, or gives up.
   */
  function Step(s: State, op: Op): State {
    match op
    case Add(now, events) => AddAll(s, now, events)
    case TakeBatch(now) => if s.b.pending == [] then TakeNext(s, now) else s
    case Answered(now, ans) => if Sendable(s.b) then Reply(s, now, ans) else s
    case Flush(waits) => s.(b := s.b.(flushing := waits, retryIn := if waits then 0 else s.b.retryIn))
    case Close => s.(w := s.w.(stopped := true))
  }

  function Run(s: State, ops: seq<Op>): State {
    if ops == [] then s else Step(Run(s, ops[..|ops| - 1]), ops[|ops| - 1])
  }

  /** Callers report events; only the queue creates overflow warnings. */
  predicate ReportsOnly(ops: seq<Op>) {
    forall op | op in ops && op.Add? :: forall e | e in op.events :: e.Reported?
  }

  // ---- the ledger

  /** The losses that the warnings in es report. */
  function Warned(es: seq<Event>): nat {
    if es == [] then 0 else (if es[0].Overflow? then es[0].dropped else 0) + Warned(es[1..])
  }

  /** What is still to be delivered, in queueing order. */
  function Remaining(s: State): seq<Event> {
    s.b.pending + Events(s.w.queue)
  }

  /** Every queued event is in exactly one place, and what was or will be delivered is in queueing order. */
  ghost predicate Accounted(h: History, remaining: seq<Event>) {
    && multiset(h.log) == multiset(h.delivered) + multiset(h.lost) + multiset(h.uncounted) + multiset(remaining)
    && Subseq(h.delivered + remaining, h.log)
  }

  ghost predicate Ledger(s: State) {
    && (Idle(s.b) || Sendable(s.b))
    && Accounted(s.h, Remaining(s))
    && s.w.losses.total == |s.h.lost|
    && Warned(s.h.log) + s.w.losses.dropped == s.w.losses.total
    && (forall e | e in s.h.uncounted :: e.Type() == "event_queue_overflow")
  }

  lemma AccountedEnqueue(h: History, remaining: seq<Event>, e: Event)
    requires Accounted(h, remaining)
    ensures Accounted(h.(log := h.log + [e]), remaining + [e])
  {
    SubseqRefl([e]);
    SubseqConcat(h.delivered + remaining, h.log, [e], [e]);
    ConcatAssoc(h.delivered, remaining, [e]);
  }

  lemma AccountedDeliver(h: History, batch: seq<Event>, rest: seq<Event>)
    requires Accounted(h, batch + rest)
    ensures Accounted(h.(delivered := h.delivered + batch), rest)
  {
    ConcatAssoc(h.delivered, batch, rest);
  }

  lemma AccountedShrink(h: History, kept: seq<Event>, remaining: seq<Event>)
    requires Accounted(h, remaining) && Subseq(kept, remaining)
    ensures Subseq(h.delivered + kept, h.log)
  {
    SubseqRefl(h.delivered);
    SubseqConcat(h.delivered, h.delivered, kept, remaining);
    SubseqTrans(h.delivered + kept, h.delivered + remaining, h.log);
  }

  lemma AccountedTail(h: History, e: Event, rest: seq<Event>)
    requires Accounted(h, [e] + rest)
    ensures Subseq(h.delivered + rest, h.log)
    ensures multiset(h.log) ==
            multiset(h.delivered) + multiset(h.lost) + multiset(h.uncounted) + multiset{e} + multiset(rest)
  {
    SubseqRefl([e] + rest);
    SubseqWeaken([e] + rest, [e] + rest);
    assert ([e] + rest)[1..] == rest;
    AccountedShrink(h, rest, [e] + rest);
  }

  lemma AccountedLose(h: History, e: Event, rest: seq<Event>)
    requires Accounted(h, [e] + rest)
    ensures Accounted(h.(lost := h.lost + [e]), rest)
  {
    AccountedTail(h, e, rest);
  }

  lemma AccountedForget(h: History, e: Event, rest: seq<Event>)
    requires Accounted(h, [e] + rest)
    ensures Accounted(h.(uncounted := h.uncounted + [e]), rest)
  {
    AccountedTail(h, e, rest);
  }

  lemma {:induction false} GoneCount(q: seq<Queued>, kept: seq<Queued>)
    requires Subseq(kept, q)
    ensures |Gone(q, kept)| == |q| - |kept|
  {
    if q != [] {
      if kept != [] && kept[0] == q[0] {
        GoneCount(q[1..], kept[1..]);
      } else {
        GoneCount(q[1..], kept);
      }
    }
  }

  lemma {:induction false} GoneSplits(q: seq<Queued>, kept: seq<Queued>)
    requires Subseq(kept, q)
    ensures multiset(Events(q)) == multiset(Events(kept)) + multiset(Gone(q, kept))
  {
    if q != [] {
      if kept != [] && kept[0] == q[0] {
        GoneSplits(q[1..], kept[1..]);
      } else {
        GoneSplits(q[1..], kept);
      }
    }
  }

  lemma AccountedDrop(h: History, pending: seq<Event>, q: seq<Queued>, kept: seq<Queued>)
    requires Accounted(h, pending + Events(q)) && Subseq(kept, q)
    ensures Accounted(h.(lost := h.lost + Gone(q, kept)), pending + Events(kept))
    ensures |Gone(q, kept)| == |q| - |kept|
  {
    GoneSplits(q, kept);
    GoneCount(q, kept);
    EventsSubseq(kept, q);
    SubseqRefl(pending);
    SubseqConcat(pending, pending, Events(kept), Events(q));
    AccountedShrink(h, pending + Events(kept), pending + Events(q));
  }

  lemma {:induction false} WarnedConcat(a: seq<Event>, b: seq<Event>)
    ensures Warned(a + b) == Warned(a) + Warned(b)
  {
    if a == [] {
      assert a + b == b;
    } else {
      WarnedConcat(a[1..], b);
      assert (a + b)[0] == a[0] && (a + b)[1..] == a[1..] + b;
    }
  }

  lemma EventsOfOne(x: Queued)
    ensures Events([x]) == [x.ev]
  {
    assert Events([x][1..]) == [];
  }

  lemma MakeRoomKeepsLedger(s: State, now: int, size: nat)
    requires Ledger(s)
    ensures Ledger(MakeRoom(s, now, size))
  {
    var kept := MadeRoom(s.w.queue, size);
    MakeRoomDropsTheRightEvents(s.w.queue, size);
    AccountedDrop(s.h, s.b.pending, s.w.queue, kept);
  }

  /** A reported event or the warning about all unreported losses joins the end of the queue. */
  lemma EnqueueKeepsLedger(s: State, x: Queued, l: Losses)
    requires Ledger(s)
    requires l.dropped + (if x.ev.Overflow? then x.ev.dropped else 0) == s.w.losses.dropped
    requires l.total == s.w.losses.total
    ensures var t := Enqueue(s, x); Ledger(t.(w := t.w.(losses := l)))
  {
    EventsConcat(s.w.queue, [x]);
    EventsOfOne(x);
    AccountedEnqueue(s.h, Remaining(s), x.ev);
    ConcatAssoc(s.b.pending, Events(s.w.queue), [x.ev]);
    WarnedConcat(s.h.log, [x.ev]);
  }

  lemma {:induction false} AddKeepsLedger(s: State, now: int, events: seq<Event>)
    requires Ledger(s) && forall e | e in events :: e.Reported?
    ensures Ledger(AddAll(s, now, events))
    decreases |events|
  {
    if !s.w.stopped && events != [] {
      var e := events[0];
      assert e in events;
      MakeRoomKeepsLedger(s, now, e.Size());
      var t := MakeRoom(s, now, e.Size());
      EnqueueKeepsLedger(t, Entry(e, now), t.w.losses);
      AddKeepsLedger(AddOne(s, now, e), now, events[1..]);
    }
  }

  lemma TakeFirstMovesOnly(s: State, now: int, n: nat)
    requires s.b.pending == [] && n <= |s.w.queue|
    ensures Remaining(TakeFirst(s, now, n)) == Remaining(s)
  {
    var q := s.w.queue;
    assert q == q[..n] + q[n..];
    EventsConcat(q[..n], q[n..]);
    assert [] + Events(q) == Events(q);
  }

  lemma TakeFirstIsSendable(s: State, now: int, n: nat)
    requires 0 < n <= |s.w.queue|
    ensures Sendable(TakeFirst(s, now, n).b)
  {
    assert [n][1..] == [] && Sum([]) == 0;
    assert Sum([n]) == n;
  }

  lemma TakeFirstKeepsLedger(s: State, now: int, n: nat)
    requires Ledger(s) && s.b.pending == [] && 0 < n <= |s.w.queue|
    ensures Ledger(TakeFirst(s, now, n))
  {
    TakeFirstMovesOnly(s, now, n);
    TakeFirstIsSendable(s, now, n);
  }

  lemma WarnKeepsLedger(s: State)
    requires Ledger(s)
    ensures Ledger(Warn(s)) && Warn(s).b == s.b
  {
    var l := s.w.losses;
    if l.dropped > 0 {
      EnqueueKeepsLedger(s, WarningEntry(l), l.(dropped := 0, refused := 0));
    }
  }

  lemma TakeKeepsLedger(s: State, now: int, force: bool)
    requires Ledger(s) && s.b.pending == []
    ensures Ledger(Take(s, now, force))
  {
    var t := Warn(s);
    WarnKeepsLedger(s);
    if BatchDue(t.w, now, force) {
      TakeFirstKeepsLedger(t, now, Min(|t.w.queue|, EVENT_BATCH_MAX));
    }
  }

  /** Answering a Flush moves no event. */
  lemma LoopKeepsLedger(s: State)
    requires Ledger(s) && s.b.pending == []
    ensures Ledger(s.(b := s.b.(flushing := false)))
  {
    assert Remaining(s.(b := s.b.(flushing := false))) == Remaining(s);
  }

  lemma AdvanceKeepsBatch(b: Batch)
    requires Sendable(b)
    ensures Idle(Advance(b)) || Sendable(Advance(b))
  {
    FirstPartFits(b);
    var rest := b.parts[1..];
    forall p | p in rest
      ensures p > 0
    {
      assert p in b.parts;
    }
    if rest != [] {
      assert rest[0] in rest && Sum(rest) >= rest[0];
    } else {
      assert Sum(rest) == 0;
    }
  }

  lemma AdvanceSplits(s: State)
    requires Sendable(s.b)
    ensures 0 < s.b.parts[0] <= |s.b.pending|
    ensures Remaining(s) == s.b.pending[..s.b.parts[0]] + (Advance(s.b).pending + Events(s.w.queue))
  {
    FirstPartFits(s.b);
    var n := s.b.parts[0];
    assert s.b.pending == s.b.pending[..n] + s.b.pending[n..];
    ConcatAssoc(s.b.pending[..n], s.b.pending[n..], Events(s.w.queue));
  }

  lemma HalveKeepsBatch(s: State)
    requires Sendable(s.b) && s.b.parts[0] > 1
    ensures Sendable(Halve(s).b)
  {
    var n := s.b.parts[0];
    var rest := s.b.parts[1..];
    forall p | p in rest
      ensures p > 0
    {
      assert p in s.b.parts;
    }
    SumConcat([n / 2, n - n / 2], rest);
    assert Sum([n / 2, n - n / 2]) == n by {
      assert [n / 2, n - n / 2][1..] == [n - n / 2] && [n - n / 2][1..] == [];
    }
  }

  lemma DeliverKeepsLedger(s: State)
    requires Ledger(s) && Sendable(s.b)
    ensures Ledger(Deliver(s))
  {
    AdvanceSplits(s);
    AdvanceKeepsBatch(s.b);
    AccountedDeliver(s.h, s.b.pending[..s.b.parts[0]], Remaining(Deliver(s)));
  }

  lemma GiveUpKeepsLedger(s: State, now: int)
    requires Ledger(s) && Sendable(s.b) && s.b.parts[0] == 1
    ensures Ledger(GiveUp(s, now))
  {
    AdvanceSplits(s);
    AdvanceKeepsBatch(s.b);
    var e := s.b.pending[0];
    assert s.b.pending[..1] == [e];
    if e.Type() == "event_queue_overflow" {
      AccountedForget(s.h, e, Remaining(GiveUp(s, now)));
    } else {
      AccountedLose(s.h, e, Remaining(GiveUp(s, now)));
    }
  }

  lemma HalveKeepsLedger(s: State)
    requires Ledger(s) && Sendable(s.b) && s.b.parts[0] > 1
    ensures Ledger(Halve(s))
  {
    HalveKeepsBatch(s);
    assert Remaining(Halve(s)) == Remaining(s);
  }

  lemma RetryKeepsLedger(s: State, ans: Answer)
    requires Ledger(s) && Sendable(s.b)
    ensures Ledger(Retry(s, ans))
  {
    assert Sendable(Retry(s, ans).b);
    assert Remaining(Retry(s, ans)) == Remaining(s);
  }

  lemma ReplyKeepsLedger(s: State, now: int, ans: Answer)
    requires Ledger(s) && Sendable(s.b)
    ensures Ledger(Reply(s, now, ans))
  {
    FirstPartFits(s.b);
    if ans.Accepted? {
      DeliverKeepsLedger(s);
    } else if (ans.Permanent() || Poisoned(s.b, ans)) && s.b.parts[0] > 1 {
      HalveKeepsLedger(s);
    } else if ans.Permanent() || (Poisoned(s.b, ans) && s.b.someDelivered) {
      GiveUpKeepsLedger(s, now);
    } else {
      RetryKeepsLedger(s, ans);
    }
  }

  lemma FlushKeepsLedger(s: State, waits: bool)
    requires Ledger(s)
    ensures Ledger(Step(s, Flush(waits)))
  {
    assert Remaining(Step(s, Flush(waits))) == Remaining(s);
  }

  lemma StepKeepsLedger(s: State, op: Op)
    requires Ledger(s) && (op.Add? ==> forall e | e in op.events :: e.Reported?)
    ensures Ledger(Step(s, op))
  {
    match op
    case Add(now, events) => AddKeepsLedger(s, now, events);
    case TakeBatch(now) =>
      if s.b.pending == [] {
        TakeKeepsLedger(s, now, s.b.flushing);
        var t := Take(s, now, s.b.flushing);
        if t.b.pending == [] {
          LoopKeepsLedger(t);
        }
      }
    case Answered(now, ans) =>
      if Sendable(s.b) {
        ReplyKeepsLedger(s, now, ans);
      }
    case Flush(waits) => FlushKeepsLedger(s, waits);
    case Close =>
  }

  /**
   * Ledger and order, over every run and every pattern of answers: no event is delivered twice, lost
   * unseen or delivered out of order, and every counted loss is reported by a warning or about to be.
   */
  lemma {:induction false} LedgerOverRuns(ops: seq<Op>)
    requires ReportsOnly(ops)
    ensures Ledger(Run(Init, ops))
  {
    if ops != [] {
      var before, op := ops[..|ops| - 1], ops[|ops| - 1];
      assert op in ops && forall o | o in before :: o in ops;
      LedgerOverRuns(before);
      StepKeepsLedger(Run(Init, before), op);
    }
  }

  /**
   * A waiting Flush is answered by the loop exactly when nothing is left: no event in the batch or in the queue,
   * and no loss left to warn about.
   */
  lemma FlushedIffNothingLeft(s: State, now: int)
    requires s.b.pending == [] && s.b.flushing
    ensures var t := Step(s, TakeBatch(now));
            && (!t.b.flushing <==> Remaining(t) == [])
            && (!t.b.flushing <==> s.w.queue == [] && s.w.losses.dropped == 0)
            && t.w.losses.dropped == 0
  {
    var t := Take(s, now, true);
    if t.b.pending == [] {
      assert t.w.queue == [];
    }
  }
}
