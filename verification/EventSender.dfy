/** The event sender of internal/api/events.go with its fields, refining the steps of EventDelivery. */
module EventSender {
  import opened Collections
  import opened Sequences
  import opened EventQueue
  import opened EventDelivery

  /** The entries not marked, in place of the whole queue; u counts the urgent ones. */
  method Compact(q: seq<Queued>, drop: seq<bool>, u: nat) returns (kept: seq<Queued>, left: nat)
    requires |q| == |drop| && u == |Urgents(q)|
    ensures kept == Kept(q, drop) && left == |Urgents(kept)|
  {
    kept, left := [], u;
    var i := 0;
    while i < |q|
      invariant 0 <= i <= |q|
      invariant kept == Kept(q[..i], drop[..i])
      invariant left == |Urgents(kept)| + |Urgents(q[i..])|
    {
      KeptAround(q, drop, i);
      assert q[i..] == [q[i]] + q[i + 1..];
      SelectConcat([q[i]], q[i + 1..], true);
      SelectOne(q[i], true);
      if !drop[i] {
        SelectConcat(kept, [q[i]], true);
        kept := kept + [q[i]];
      } else if q[i].urgent {
        left := left - 1;
      }
      i := i + 1;
    }
    assert q[..i] == q && drop[..i] == drop;
  }

  /** The first n events of the queue, and the counters without them. */
  method FirstBatch(q: seq<Queued>, n: nat, bytes: nat, urgent: nat, lastUrgent: int, now: int)
    returns (batch: seq<Event>, b: nat, u: nat, last: int)
    requires n <= |q| && bytes == Bytes(q) && urgent == |Urgents(q)|
    ensures batch == Events(q[..n]) && b == Bytes(q[n..]) && u == |Urgents(q[n..])|
    ensures last == if Urgents(q[..n]) != [] then now else lastUrgent
  {
    batch, b, u, last := [], bytes, urgent, lastUrgent;
    var i := 0;
    assert q[0..] == q;
    while i < n
      invariant 0 <= i <= n
      invariant batch == Events(q[..i]) && b == Bytes(q[i..]) && u == |Urgents(q[i..])|
      invariant last == if Urgents(q[..i]) != [] then now else lastUrgent
    {
      var x := q[i];
      assert q[i..][1..] == q[i + 1..] && q[..i + 1] == q[..i] + [x];
      EventsConcat(q[..i], [x]);
      EventsOfOne(x);
      SelectConcat(q[..i], [x], true);
      SelectOne(x, true);
      batch, b := batch + [x.ev], b - x.size;
      if x.urgent {
        u, last := u - 1, now;
      }
      i := i + 1;
    }
  }

  lemma TakenBatch(s: State, now: int, n: nat)
    requires n <= |s.w.queue|
    ensures var q := s.w.queue;
            TakeFirst(s, now, n) ==
            State(Waiting(q[n..], s.w.stopped, if Urgents(q[..n]) != [] then now else s.w.lastUrgent, s.w.losses),
                  Batch(Events(q[..n]), [n], n, 0, false, s.b.backoff, s.b.retryIn, s.b.flushing), s.h)
  {
  }

  class Sender {
    var queue: seq<Queued>
    var urgent: nat
    var bytes: nat
    var sending: nat
    var stopped: bool
    var lastUrgent: int
    var dropped: nat
    var refused: nat
    var firstDrop: int
    var droppedTotal: nat

    // The variables of the delivery loop.
    var pending: seq<Event>
    var parts: seq<nat>
    var fails: nat
    var someDelivered: bool
    var backoff: nat
    var retryIn: nat
    var flushing: bool

    ghost var history: History

    /** The counters are the queue's true counts. */
    ghost predicate Valid()
      reads this
    {
      urgent == |Urgents(queue)| && bytes == Bytes(queue)
    }

    ghost function Queueing(): Waiting
      reads this`queue, this`stopped, this`lastUrgent, this`dropped, this`refused, this`firstDrop, this`droppedTotal
    {
      Waiting(queue, stopped, lastUrgent, Losses(dropped, refused, firstDrop, droppedTotal))
    }

    ghost function Loop(): Batch
      reads this`pending, this`parts, this`sending, this`fails, this`someDelivered, this`backoff, this`retryIn,
            this`flushing
    {
      Batch(pending, parts, sending, fails, someDelivered, backoff, retryIn, flushing)
    }

    ghost function View(): State
      reads this
    {
      State(Queueing(), Loop(), history)
    }

    constructor ()
      ensures Valid() && View() == Init
    {
      queue, urgent, bytes, sending, stopped, lastUrgent := [], 0, 0, 0, false, ZERO_TIME;
      dropped, refused, firstDrop, droppedTotal := 0, 0, ZERO_TIME, 0;
      pending, parts, fails, someDelivered, backoff, retryIn, flushing := [], [], 0, false, 0, 0, false;
      history := History([], [], [], []);
    }

    method NoteLosses(now: int, n: nat, refusals: nat)
      modifies this`dropped, this`refused, this`firstDrop, this`droppedTotal
      ensures Queueing().losses == NoteDropped(old(Queueing().losses), now, n, refusals)
    {
      if n == 0 {
        return;
      }
      if dropped == 0 {
        firstDrop := now;
      }
      dropped := dropped + n;
      refused := refused + refusals;
      droppedTotal := droppedTotal + n;
    }

    method MakeRoomFor(now: int, size: nat)
      requires Valid()
      modifies this
      ensures Valid() && View() == MakeRoom(old(View()), now, size)
    {
      if |queue| < EVENT_QUEUE_MAX && bytes + size <= EVENT_QUEUE_BYTES {
        GoneNothing(queue);
        return;
      }
      var drop, left := ChooseDrops(queue, bytes, size);
      var kept, leftUrgent := Compact(queue, drop, urgent);
      Shrink(now, kept, left, leftUrgent);
    }

    method Shrink(now: int, kept: seq<Queued>, left: nat, leftUrgent: nat)
      requires |kept| <= |queue| && left == Bytes(kept) && leftUrgent == |Urgents(kept)|
      modifies this`queue, this`bytes, this`urgent, this`history,
               this`dropped, this`refused, this`firstDrop, this`droppedTotal
      ensures Valid() && queue == kept && history == old(history).(lost := old(history).lost + Gone(old(queue), kept))
      ensures Queueing() == old(Queueing()).(queue := kept,
                losses := NoteDropped(old(Queueing().losses), now, old(|queue|) - |kept|, 0))
    {
      NoteLosses(now, |queue| - |kept|, 0);
      history := history.(lost := history.lost + Gone(queue, kept));
      queue, bytes, urgent := kept, left, leftUrgent;
    }

    /** add: room is made for every event, then it joins the queue; nothing after a stop. */
    method AddEvents(now: int, events: seq<Event>) returns (ok: bool)
      requires Valid()
      modifies this
      ensures Valid() && View() == AddAll(old(View()), now, events)
      ensures ok == !old(stopped)
    {
      if stopped {
        return false;
      }
      var i := 0;
      assert events[0..] == events;
      while i < |events|
        invariant 0 <= i <= |events| && Valid() && !stopped
        invariant AddAll(View(), now, events[i..]) == AddAll(old(View()), now, events)
      {
        var e := events[i];
        assert events[i..][1..] == events[i + 1..];
        MakeRoomFor(now, e.Size());
        Append(Entry(e, now));
        i := i + 1;
      }
      return true;
    }

    method Append(x: Queued)
      requires Valid()
      modifies this`queue, this`urgent, this`bytes, this`history
      ensures Valid() && View() == Enqueue(old(View()), x)
    {
      Put(x);
    }

    method Put(x: Queued)
      requires Valid()
      modifies this`queue, this`urgent, this`bytes, this`history
      ensures Valid() && queue == old(queue) + [x] && history == old(history).(log := old(history).log + [x.ev])
    {
      SelectConcat(queue, [x], true);
      SelectOne(x, true);
      BytesConcat(queue, [x]);
      assert Bytes([x]) == x.size by { assert [x][1..] == []; }
      if x.urgent {
        urgent := urgent + 1;
      }
      queue := queue + [x];
      bytes := bytes + x.size;
      history := history.(log := history.log + [x.ev]);
    }

    method QueueWarning()
      requires Valid()
      modifies this`queue, this`urgent, this`bytes, this`history, this`dropped, this`refused
      ensures Valid() && Queueing() == Warn(old(View())).w && history == Warn(old(View())).h
    {
      if dropped > 0 {
        var warn := Overflow(dropped, refused, firstDrop);
        Put(Queued(warn, false, warn.Size(), firstDrop));
        dropped, refused := 0, 0;
      }
    }

    method TakeOut(now: int, n: nat)
      requires Valid() && n <= |queue|
      modifies this
      ensures Valid() && View() == TakeFirst(old(View()), now, n)
    {
      TakenBatch(View(), now, n);
      var batch := RemoveFirst(now, n);
      StartBatch(batch, n);
    }

    method RemoveFirst(now: int, n: nat) returns (batch: seq<Event>)
      requires Valid() && n <= |queue|
      modifies this`queue, this`bytes, this`urgent, this`lastUrgent
      ensures Valid() && batch == Events(old(queue)[..n]) && queue == old(queue)[n..]
      ensures lastUrgent == if Urgents(old(queue)[..n]) != [] then now else old(lastUrgent)
    {
      var b, u, last;
      batch, b, u, last := FirstBatch(queue, n, bytes, urgent, lastUrgent, now);
      queue, bytes, urgent, lastUrgent := queue[n..], b, u, last;
    }

    method StartBatch(batch: seq<Event>, n: nat)
      modifies this`pending, this`parts, this`sending, this`fails, this`someDelivered
      ensures Loop() == Batch(batch, [n], n, 0, false, backoff, retryIn, flushing)
    {
      pending, parts, sending, fails, someDelivered := batch, [n], n, 0, false;
    }

    /** When the next batch is due. */
    method NextDue() returns (at: int)
      requires Valid() && queue != []
      ensures at == Due(View().w)
    {
      at := queue[0].at + EVENT_FLUSH_EVERY;
      var gap := lastUrgent + EVENT_URGENT_GAP;
      if urgent > 0 && gap < at {
        at := gap;
      }
    }

    /** take; without a batch, when the next one is due. */
    method TakeBatch(now: int, force: bool) returns (due: Option<int>)
      requires Valid() && pending == []
      modifies this
      ensures Valid() && View() == Take(old(View()), now, force)
      ensures due == if pending == [] && queue != [] then Some(Due(View().w)) else None
    {
      QueueWarning();
      if |queue| == 0 {
        return None;
      }
      var at := NextDue();
      if !force && |queue| < EVENT_BATCH_MAX && now < at {
        return Some(at);
      }
      var n := if |queue| < EVENT_BATCH_MAX then |queue| else EVENT_BATCH_MAX;
      TakeFirstIsSendable(View(), now, n);
      TakeOut(now, n);
      return None;
    }

    /** The loop with nothing pending: the next batch, or the answer to a waiting Flush. */
    method TakeNextBatch(now: int) returns (due: Option<int>)
      requires Valid() && pending == []
      modifies this
      ensures Valid() && View() == TakeNext(old(View()), now)
      ensures due == if pending == [] && queue != [] then Some(Due(View().w)) else None
    {
      due := TakeBatch(now, flushing);
      if pending == [] {
        flushing := false;
      }
    }

    /** The first part leaves the batch. */
    method DropPart()
      requires Sendable(Loop())
      modifies this`pending, this`parts, this`sending, this`fails
      ensures Loop() == Advance(old(Loop()))
    {
      FirstPartFits(Loop());
      sending := sending - parts[0];
      pending, parts, fails := pending[parts[0]..], parts[1..], 0;
    }

    /** The first part was delivered. */
    method PartDelivered()
      requires Sendable(Loop())
      modifies this`pending, this`parts, this`sending, this`fails, this`someDelivered, this`backoff, this`retryIn,
               this`history
      ensures View() == Deliver(old(View()))
    {
      history := history.(delivered := history.delivered + pending[..parts[0]]);
      DropPart();
      backoff, someDelivered, retryIn := 0, true, 0;
    }

    method HalvePart()
      requires Sendable(Loop())
      modifies this`parts, this`fails, this`retryIn
      ensures View() == Halve(old(View()))
    {
      var n := parts[0];
      parts, fails, retryIn := [n / 2, n - n / 2] + parts[1..], 0, EVENT_SPLIT_GAP;
    }

    /** The event the server does not take is given up. */
    method GiveUpFirst(now: int)
      requires Sendable(Loop())
      modifies this`pending, this`parts, this`sending, this`fails, this`retryIn, this`history,
               this`dropped, this`refused, this`firstDrop, this`droppedTotal
      ensures View() == GiveUp(old(View()), now)
    {
      NoteGivenUp(now, pending[0]);
      DropPart();
      retryIn := EVENT_SPLIT_GAP;
    }

    /** An overflow warning is not counted: that would queue a new one. */
    method NoteGivenUp(now: int, e: Event)
      modifies this`history, this`dropped, this`refused, this`firstDrop, this`droppedTotal
      ensures e.Type() == "event_queue_overflow" ==>
                Queueing() == old(Queueing()) && history == old(history).(uncounted := old(history.uncounted) + [e])
      ensures e.Type() != "event_queue_overflow" ==>
                && Queueing() == old(Queueing()).(losses := NoteDropped(old(Queueing().losses), now, 1, 1))
                && history == old(history).(lost := old(history.lost) + [e])
    {
      if e.Type() == "event_queue_overflow" {
        history := history.(uncounted := history.uncounted + [e]);
      } else {
        history := history.(lost := history.lost + [e]);
        NoteLosses(now, 1, 1);
      }
    }

    /** One answer in the delivery loop. */
    method HandleReply(now: int, ans: Answer)
      requires Valid() && Sendable(Loop())
      modifies this
      ensures Valid() && View() == Reply(old(View()), now, ans)
    {
      FirstPartFits(Loop());
      var n := parts[0];
      var refusedByServer := ans.Permanent();
      var poisoned := ans.ServerFault() && fails + 1 >= EVENT_POISON_TRIES;
      if ans.Accepted? {
        PartDelivered();
      } else if (refusedByServer || poisoned) && n > 1 {
        HalvePart();
      } else if refusedByServer || (poisoned && someDelivered) {
        GiveUpFirst(now);
      } else {
        TryAgain(ans);
      }
    }

    method TryAgain(ans: Answer)
      modifies this`fails, this`backoff, this`retryIn, this`flushing
      ensures Loop() == Again(old(Loop()), ans)
    {
      fails := fails + 1;
      var doubled := if 2 * backoff > EVENT_RETRY_MIN then 2 * backoff else EVENT_RETRY_MIN;
      backoff := if doubled < EVENT_RETRY_MAX then doubled else EVENT_RETRY_MAX;
      retryIn := backoff;
      if ans.Status? && ans.retryAfter > retryIn {
        var limit := if ans.RefusesAgent() then REFUSAL_MAX else EVENT_RETRY_AFTER_MAX;
        retryIn := if ans.retryAfter < limit then ans.retryAfter else limit;
      }
      if flushing {
        if ans.Held() {
          flushing := false;
        } else {
          retryIn := EVENT_FLUSH_RETRY;
        }
      }
    }

    /** What shutdown writes: the urgent events of the batch, then those of the queue, the newest if too many. */
    method SpoolEvents() returns (keep: seq<Event>)
      ensures keep == Spool(View())
    {
      var first := UrgentOf(pending);
      var second := UrgentQueued(queue);
      keep := CutToNewest(first + second);
    }
  }

  method CutToNewest(all: seq<Event>) returns (keep: seq<Event>)
    ensures keep == Newest(all)
  {
    keep := all;
    if |keep| > EVENT_QUEUE_MAX {
      keep := keep[|keep| - EVENT_QUEUE_MAX..];
    }
  }

  method UrgentOf(es: seq<Event>) returns (keep: seq<Event>)
    ensures keep == Filter(UrgentEvent, es)
  {
    keep := [];
    for i := 0 to |es|
      invariant keep == Filter(UrgentEvent, es[..i])
    {
      assert es[..i + 1] == es[..i] + [es[i]];
      FilterConcat(UrgentEvent, es[..i], [es[i]]);
      if UrgentEvent(es[i]) {
        keep := keep + [es[i]];
      }
    }
    assert es[..|es|] == es;
  }

  method UrgentQueued(q: seq<Queued>) returns (keep: seq<Event>)
    ensures keep == Events(Urgents(q))
  {
    keep := [];
    for i := 0 to |q|
      invariant keep == Events(Urgents(q[..i]))
    {
      assert q[..i + 1] == q[..i] + [q[i]];
      SelectConcat(q[..i], [q[i]], true);
      SelectOne(q[i], true);
      if q[i].urgent {
        EventsConcat(Urgents(q[..i]), [q[i]]);
        EventsOfOne(q[i]);
        keep := keep + [q[i].ev];
      } else {
        assert Urgents(q[..i]) + [] == Urgents(q[..i]);
      }
    }
    assert q[..|q|] == q;
  }

  lemma SelectOne(x: Queued, urgent: bool)
    ensures Select([x], urgent) == if x.urgent == urgent then [x] else []
  {
    assert Select([x][1..], urgent) == [];
  }

  lemma {:induction false} GoneNothing(q: seq<Queued>)
    ensures Gone(q, q) == []
  {
    if q != [] {
      GoneNothing(q[1..]);
    }
  }
}
