/**
 * How the delivery loop finds the events a server cannot take (internal/api/events.go): a request that
 * holds one is refused, and the batch is split until the event stands alone.
 */
module EventIsolation {
  import opened Arithmetic
  import opened Sequences
  import opened EventQueue
  import opened EventDelivery

  /** What becomes of an event when the server takes exactly the requests without a bad one. */
  datatype Fate = Delivered | Lost | Uncounted

  function FateOf(e: Event, bad: Event -> bool): Fate {
    if !bad(e) then Delivered
    else if e.Type() == "event_queue_overflow" then Uncounted
    else Lost
  }

  function Pick(es: seq<Event>, bad: Event -> bool, fate: Fate): seq<Event> {
    if es == [] then []
    else if FateOf(es[0], bad) == fate then [es[0]] + Pick(es[1..], bad, fate)
    else Pick(es[1..], bad, fate)
  }

  predicate AnyBad(es: seq<Event>, bad: Event -> bool) {
    exists e | e in es :: bad(e)
  }

  /** What a bad event does to its request: the server refuses it for good, or fails (5xx) on it. */
  datatype Harm = Refused | Faulting

  predicate IsHarm(ans: Answer, harm: Harm) {
    match harm
    case Refused => ans.Permanent()
    case Faulting => ans.ServerFault()
  }

  /** An answer that says nothing about the events: the network, a proxy, a refusal of the agent. */
  predicate Transient(ans: Answer) {
    !ans.Accepted? && !ans.Permanent() && !ans.ServerFault()
  }

  /** The answer to the first part harms it exactly for a bad event in it. */
  predicate Blames(b: Batch, ans: Answer, bad: Event -> bool, harm: Harm)
    requires Sendable(b)
  {
    FirstPartFits(b);
    Transient(ans) || if AnyBad(b.pending[..b.parts[0]], bad) then IsHarm(ans, harm) else ans.Accepted?
  }

  /**
   * What happens while a batch is sent: answers that blame bad events only, any of them different, transient
   * failures, new events, Flush callers and a stop, in any order.
   */
  predicate Blaming(s: State, ops: seq<Op>, bad: Event -> bool, harm: Harm)
    decreases |ops|
  {
    ops == [] ||
    (&& !ops[0].TakeBatch?
     && (ops[0].Answered? && Sendable(s.b) ==> Blames(s.b, ops[0].ans, bad, harm))
     && Blaming(Step(s, ops[0]), ops[1..], bad, harm))
  }

  function After(s: State, ops: seq<Op>): State
    decreases |ops|
  {
    if ops == [] then s else After(Step(s, ops[0]), ops[1..])
  }

  /** The state without the answers: what the others made of the queue. */
  function Others(s: State, ops: seq<Op>): State
    decreases |ops|
  {
    if ops == [] then s else Others(if ops[0].Answered? then s else Step(s, ops[0]), ops[1..])
  }

  /** The requests that were answered, without the transient failures. */
  function Tries(ops: seq<Op>): nat {
    if ops == [] then 0 else (if ops[0].Answered? && !Transient(ops[0].ans) then 1 else 0) + Tries(ops[1..])
  }

  // ---- what is done with the events

  predicate SameQueue(u: State, t: State) {
    t.w.queue == u.w.queue && t.w.stopped == u.w.stopped && t.h.log == u.h.log
  }

  /** On top of u, the good events of done were delivered in order and the bad ones given up in order. */
  ghost predicate Fated(u: History, t: History, lost: seq<Event>, done: seq<Event>, bad: Event -> bool) {
    && t.delivered == u.delivered + Pick(done, bad, Delivered)
    && t.uncounted == u.uncounted + Pick(done, bad, Uncounted)
    && multiset(t.lost) == multiset(u.lost) + multiset(Pick(done, bad, Lost))
    && Subseq(lost + Pick(done, bad, Lost), t.lost)
  }

  predicate Counted(u: Losses, t: Losses, n: nat) {
    t.total == u.total + n && t.dropped == u.dropped + n && t.refused == u.refused + n
  }

  /** t is u, where nothing was sent, with the events of done dealt with; lost were the lost ones before. */
  ghost predicate Tracks(u: State, t: State, lost: seq<Event>, done: seq<Event>, bad: Event -> bool) {
    SameQueue(u, t) && Fated(u.h, t.h, lost, done, bad) && Counted(u.w.losses, t.w.losses, |Pick(done, bad, Lost)|)
  }

  lemma TracksItself(s: State, bad: Event -> bool)
    ensures Tracks(s, s, s.h.lost, [], bad)
  {
    assert s.h.lost + [] == s.h.lost && s.h.delivered + [] == s.h.delivered && s.h.uncounted + [] == s.h.uncounted;
    SubseqRefl(s.h.lost);
  }

  lemma {:induction false} PickConcat(a: seq<Event>, b: seq<Event>, bad: Event -> bool, fate: Fate)
    ensures Pick(a + b, bad, fate) == Pick(a, bad, fate) + Pick(b, bad, fate)
  {
    if a == [] {
      assert a + b == b;
    } else {
      var rest := a[1..];
      PickConcat(rest, b, bad, fate);
      assert (a + b)[0] == a[0] && (a + b)[1..] == rest + b;
      if FateOf(a[0], bad) == fate {
        ConcatAssoc([a[0]], Pick(rest, bad, fate), Pick(b, bad, fate));
      }
    }
  }

  lemma {:induction false} PickGood(es: seq<Event>, bad: Event -> bool, fate: Fate)
    requires !AnyBad(es, bad)
    ensures Pick(es, bad, fate) == if fate == Delivered then es else []
  {
    if es != [] {
      assert es[0] in es;
      assert forall e | e in es[1..] :: e in es;
      PickGood(es[1..], bad, fate);
    }
  }

  lemma PickOne(e: Event, bad: Event -> bool, fate: Fate)
    ensures Pick([e], bad, fate) == if FateOf(e, bad) == fate then [e] else []
  {
    assert Pick([e][1..], bad, fate) == [];
  }

  /** The first part was delivered. */
  lemma FatedDelivered(u: History, t: History, lost: seq<Event>, done: seq<Event>, sent: seq<Event>,
                       bad: Event -> bool)
    requires Fated(u, t, lost, done, bad) && !AnyBad(sent, bad)
    ensures Fated(u, t.(delivered := t.delivered + sent), lost, done + sent, bad)
    ensures Pick(done + sent, bad, Lost) == Pick(done, bad, Lost)
  {
    PickConcat(done, sent, bad, Delivered);
    PickConcat(done, sent, bad, Lost);
    PickConcat(done, sent, bad, Uncounted);
    PickGood(sent, bad, Delivered);
    PickGood(sent, bad, Lost);
    PickGood(sent, bad, Uncounted);
    ConcatAssoc(u.delivered, Pick(done, bad, Delivered), sent);
    assert Pick(done, bad, Lost) + [] == Pick(done, bad, Lost);
    assert Pick(done, bad, Uncounted) + [] == Pick(done, bad, Uncounted);
  }

  /** A bad event was given up and counted. */
  lemma FatedLost(u: History, t: History, lost: seq<Event>, done: seq<Event>, e: Event, bad: Event -> bool)
    requires Fated(u, t, lost, done, bad) && FateOf(e, bad) == Lost
    ensures Fated(u, t.(lost := t.lost + [e]), lost, done + [e], bad)
    ensures Pick(done + [e], bad, Lost) == Pick(done, bad, Lost) + [e]
  {
    PickConcat(done, [e], bad, Delivered);
    PickConcat(done, [e], bad, Lost);
    PickConcat(done, [e], bad, Uncounted);
    PickOne(e, bad, Delivered);
    PickOne(e, bad, Lost);
    PickOne(e, bad, Uncounted);
    assert Pick(done, bad, Delivered) + [] == Pick(done, bad, Delivered);
    assert Pick(done, bad, Uncounted) + [] == Pick(done, bad, Uncounted);
    SubseqRefl([e]);
    SubseqConcat(lost + Pick(done, bad, Lost), t.lost, [e], [e]);
    ConcatAssoc(lost, Pick(done, bad, Lost), [e]);
  }

  /** An overflow warning was given up uncounted. */
  lemma FatedUncounted(u: History, t: History, lost: seq<Event>, done: seq<Event>, e: Event, bad: Event -> bool)
    requires Fated(u, t, lost, done, bad) && FateOf(e, bad) == Uncounted
    ensures Fated(u, t.(uncounted := t.uncounted + [e]), lost, done + [e], bad)
    ensures Pick(done + [e], bad, Lost) == Pick(done, bad, Lost)
  {
    PickConcat(done, [e], bad, Delivered);
    PickConcat(done, [e], bad, Lost);
    PickConcat(done, [e], bad, Uncounted);
    PickOne(e, bad, Delivered);
    PickOne(e, bad, Lost);
    PickOne(e, bad, Uncounted);
    assert Pick(done, bad, Delivered) + [] == Pick(done, bad, Delivered);
    assert Pick(done, bad, Lost) + [] == Pick(done, bad, Lost);
    ConcatAssoc(u.uncounted, Pick(done, bad, Uncounted), [e]);
  }

  /** Events that were dropped from the queue meanwhile. */
  lemma FatedGone(u: History, t: History, lost: seq<Event>, done: seq<Event>, gone: seq<Event>, bad: Event -> bool)
    requires Fated(u, t, lost, done, bad)
    ensures Fated(u.(lost := u.lost + gone), t.(lost := t.lost + gone), lost, done, bad)
  {
    var all := lost + Pick(done, bad, Lost);
    SubseqConcat(all, t.lost, [], gone);
    assert all + [] == all;
  }

  // ---- one step

  /** Nothing but the wait for the next try and the Flush callers changed. */
  predicate SameBatch(b: Batch, c: Batch) {
    c == b.(flushing := c.flushing, retryIn := c.retryIn)
  }

  lemma AddOneTracks(u: State, t: State, now: int, e: Event, lost: seq<Event>, done: seq<Event>, bad: Event -> bool)
    requires Tracks(u, t, lost, done, bad)
    ensures Tracks(AddOne(u, now, e), AddOne(t, now, e), lost, done, bad)
    ensures AddOne(t, now, e).b == t.b
  {
    var kept := MadeRoom(t.w.queue, e.Size());
    FatedGone(u.h, t.h, lost, done, Gone(t.w.queue, kept), bad);
  }

  lemma {:induction false} AddTracks(u: State, t: State, now: int, events: seq<Event>,
                                     lost: seq<Event>, done: seq<Event>, bad: Event -> bool)
    requires Tracks(u, t, lost, done, bad)
    ensures Tracks(AddAll(u, now, events), AddAll(t, now, events), lost, done, bad)
    ensures AddAll(t, now, events).b == t.b
    decreases |events|
  {
    if !t.w.stopped && events != [] {
      AddOneTracks(u, t, now, events[0], lost, done, bad);
      AddTracks(AddOne(u, now, events[0]), AddOne(t, now, events[0]), now, events[1..], lost, done, bad);
    }
  }

  lemma OtherTracks(u: State, t: State, op: Op, lost: seq<Event>, done: seq<Event>, bad: Event -> bool)
    requires Tracks(u, t, lost, done, bad) && !op.Answered? && !op.TakeBatch?
    ensures Tracks(Step(u, op), Step(t, op), lost, done, bad)
    ensures SameBatch(t.b, Step(t, op).b)
  {
    if op.Add? {
      AddTracks(u, t, op.now, op.events, lost, done, bad);
    }
  }

  /** The events that left the batch between two states of it. */
  function Done(before: Batch, after: Batch): seq<Event>
    requires |after.pending| <= |before.pending|
  {
    before.pending[..|before.pending| - |after.pending|]
  }

  lemma DeliverTracks(u: State, t: State, lost: seq<Event>, done: seq<Event>, bad: Event -> bool)
    requires Tracks(u, t, lost, done, bad) && Sendable(t.b)
    requires t.b.parts[0] <= |t.b.pending| && !AnyBad(t.b.pending[..t.b.parts[0]], bad)
    ensures Tracks(u, Deliver(t), lost, done + t.b.pending[..t.b.parts[0]], bad)
  {
    FatedDelivered(u.h, t.h, lost, done, t.b.pending[..t.b.parts[0]], bad);
  }

  lemma GiveUpTracks(u: State, t: State, now: int, lost: seq<Event>, done: seq<Event>, bad: Event -> bool)
    requires Tracks(u, t, lost, done, bad) && Sendable(t.b) && bad(t.b.pending[0])
    ensures Tracks(u, GiveUp(t, now), lost, done + [t.b.pending[0]], bad)
  {
    var e := t.b.pending[0];
    if FateOf(e, bad) == Lost {
      FatedLost(u.h, t.h, lost, done, e, bad);
    } else {
      FatedUncounted(u.h, t.h, lost, done, e, bad);
    }
  }

  /** What leaves the batch leaves it from the front. */
  lemma ReplySplits(t: State, now: int, ans: Answer)
    requires Sendable(t.b)
    ensures var r := Reply(t, now, ans);
            && (Idle(r.b) || Sendable(r.b))
            && |r.b.pending| <= |t.b.pending|
            && t.b.pending == Done(t.b, r.b) + r.b.pending
  {
    FirstPartFits(t.b);
    var n := t.b.parts[0];
    if !ans.Accepted? && (ans.Permanent() || Poisoned(t.b, ans)) && n > 1 {
      HalveKeepsBatch(t);
    } else if ans.Accepted? || ans.Permanent() || (Poisoned(t.b, ans) && t.b.someDelivered) {
      AdvanceKeepsBatch(t.b);
      assert t.b.pending == t.b.pending[..n] + t.b.pending[n..];
    }
  }

  /** One answer: what leaves the batch has the right fate. */
  lemma ReplyTracks(u: State, t: State, now: int, ans: Answer, lost: seq<Event>, done: seq<Event>,
                    bad: Event -> bool, harm: Harm)
    requires Tracks(u, t, lost, done, bad) && Sendable(t.b) && Blames(t.b, ans, bad, harm)
    ensures |Reply(t, now, ans).b.pending| <= |t.b.pending|
    ensures Tracks(u, Reply(t, now, ans), lost, done + Done(t.b, Reply(t, now, ans).b), bad)
  {
    FirstPartFits(t.b);
    var r := Reply(t, now, ans);
    if ans.Accepted? {
      DeliverTracks(u, t, lost, done, bad);
    } else if |r.b.pending| < |t.b.pending| {
      assert t.b.pending[..1] == [t.b.pending[0]];
      GiveUpTracks(u, t, now, lost, done, bad);
    } else {
      assert done + Done(t.b, r.b) == done;
    }
  }

  // ---- how many requests it takes

  /** Twice the events minus the parts: what every request that says something brings down. */
  function Cost(b: Batch): int {
    2 * |b.pending| - |b.parts|
  }

  lemma {:induction false} PartsAreFew(parts: seq<nat>)
    requires AllPositive(parts)
    ensures |parts| <= Sum(parts)
  {
    if parts != [] {
      assert parts[0] in parts;
      forall p | p in parts[1..]
        ensures p > 0
      {
        assert p in parts;
      }
      PartsAreFew(parts[1..]);
    }
  }

  lemma CostOfBatch(b: Batch)
    requires Sendable(b)
    ensures Cost(b) >= |b.pending| > 0
  {
    PartsAreFew(b.parts);
  }

  /** The requests the batch may still need; ten server errors in a row count as one refusal. */
  function Need(b: Batch, harm: Harm): int {
    match harm
    case Refused => Cost(b)
    case Faulting => EVENT_POISON_TRIES * Cost(b) - Min(b.fails, EVENT_POISON_TRIES - 1)
  }

  /** Server errors are blamed on an event once a part was delivered; a good one in front will be. */
  predicate Ready(b: Batch, bad: Event -> bool, harm: Harm) {
    harm.Faulting? && b.pending != [] ==> b.someDelivered || !bad(b.pending[0])
  }

  lemma ReplyProgress(t: State, now: int, ans: Answer, bad: Event -> bool, harm: Harm)
    requires Sendable(t.b) && Blames(t.b, ans, bad, harm) && Ready(t.b, bad, harm)
    ensures var r := Reply(t, now, ans).b;
            && Need(r, harm) <= Need(t.b, harm) - (if Transient(ans) then 0 else 1)
            && Ready(r, bad, harm)
  {
    FirstPartFits(t.b);
    if t.b.parts[0] == 1 {
      assert t.b.pending[..1] == [t.b.pending[0]];
    }
  }

  /** The steps of others keep the batch. */
  lemma {:induction false} AddKeepsBatch(s: State, now: int, events: seq<Event>)
    ensures AddAll(s, now, events).b == s.b
    decreases |events|
  {
    if !s.w.stopped && events != [] {
      AddKeepsBatch(AddOne(s, now, events[0]), now, events[1..]);
    }
  }

  lemma OtherKeepsBatch(s: State, op: Op)
    requires !op.Answered? && !op.TakeBatch?
    ensures SameBatch(s.b, Step(s, op).b)
  {
    if op.Add? {
      AddKeepsBatch(s, op.now, op.events);
    }
  }

  /** The batch is a number of events behind what it was. */
  function Left(before: Batch, after: Batch): seq<Event> {
    if |after.pending| <= |before.pending| then Done(before, after) else before.pending
  }

  lemma LeftMore(t: Batch, r: Batch, z: Batch, done: seq<Event>)
    requires |r.pending| <= |t.pending| && t.pending == Done(t, r) + r.pending
    requires |z.pending| <= |r.pending|
    ensures done + Done(t, r) + Left(r, z) == done + Left(t, z)
  {
    ConcatAssoc(done, Done(t, r), Left(r, z));
    assert Done(t, r) + Done(r, z) == Done(t, z);
  }

  lemma StepFates(u: State, t: State, op: Op, lost: seq<Event>, done: seq<Event>, bad: Event -> bool, harm: Harm)
    requires Tracks(u, t, lost, done, bad) && (Idle(t.b) || Sendable(t.b)) && !op.TakeBatch?
    requires op.Answered? && Sendable(t.b) ==> Blames(t.b, op.ans, bad, harm)
    ensures var r := Step(t, op);
            && (Idle(r.b) || Sendable(r.b)) && |r.b.pending| <= |t.b.pending|
            && t.b.pending == Done(t.b, r.b) + r.b.pending
            && Tracks(if op.Answered? then u else Step(u, op), r, lost, done + Done(t.b, r.b), bad)
  {
    if op.Answered? && Sendable(t.b) {
      ReplySplits(t, op.now, op.ans);
      ReplyTracks(u, t, op.now, op.ans, lost, done, bad, harm);
    } else {
      assert done + [] == done;
      if !op.Answered? {
        OtherTracks(u, t, op, lost, done, bad);
      }
    }
  }

  /** At any time, what has left the batch has the right fate. */
  lemma {:induction false} FatesOverRuns(u: State, t: State, ops: seq<Op>, lost: seq<Event>, done: seq<Event>,
                                         bad: Event -> bool, harm: Harm)
    requires Tracks(u, t, lost, done, bad) && (Idle(t.b) || Sendable(t.b)) && Blaming(t, ops, bad, harm)
    ensures |After(t, ops).b.pending| <= |t.b.pending| && (Idle(After(t, ops).b) || Sendable(After(t, ops).b))
    ensures Tracks(Others(u, ops), After(t, ops), lost, done + Left(t.b, After(t, ops).b), bad)
    decreases |ops|
  {
    hide Tracks, Step, Sendable;
    if ops == [] {
      assert done + [] == done;
    } else {
      var r := Step(t, ops[0]);
      StepFates(u, t, ops[0], lost, done, bad, harm);
      FatesOverRuns(if ops[0].Answered? then u else Step(u, ops[0]), r, ops[1..], lost, done + Done(t.b, r.b), bad, harm);
      LeftMore(t.b, r.b, After(t, ops).b, done);
    }
  }

  /** A batch that is done has dealt with all its events. */
  lemma DoneIsTracked(s: State, ops: seq<Op>, bad: Event -> bool, harm: Harm)
    requires (Idle(s.b) || Sendable(s.b)) && Blaming(s, ops, bad, harm) && Idle(After(s, ops).b)
    ensures Tracks(Others(s, ops), After(s, ops), s.h.lost, s.b.pending, bad)
  {
    TracksItself(s, bad);
    FatesOverRuns(s, s, ops, s.h.lost, [], bad, harm);
    assert [] + Left(s.b, After(s, ops).b) == s.b.pending;
  }

  lemma {:induction false} DoneWithinNeed(t: State, ops: seq<Op>, bad: Event -> bool, harm: Harm)
    requires (Idle(t.b) || Sendable(t.b)) && Ready(t.b, bad, harm)
    requires Blaming(t, ops, bad, harm) && Tries(ops) >= Need(t.b, harm)
    ensures Idle(After(t, ops).b)
    decreases |ops|
  {
    if Sendable(t.b) {
      CostOfBatch(t.b);
    }
    if ops != [] {
      var op := ops[0];
      if !op.Answered? {
        OtherKeepsBatch(t, op);
      } else if Sendable(t.b) {
        ReplySplits(t, op.now, op.ans);
        ReplyProgress(t, op.now, op.ans, bad, harm);
      }
      DoneWithinNeed(Step(t, op), ops[1..], bad, harm);
    }
  }

  lemma IsolatesBatch(s: State, ops: seq<Op>, bad: Event -> bool, harm: Harm)
    requires (Idle(s.b) || Sendable(s.b)) && Ready(s.b, bad, harm)
    requires Blaming(s, ops, bad, harm) && Tries(ops) >= Need(s.b, harm)
    ensures Idle(After(s, ops).b) && Tracks(Others(s, ops), After(s, ops), s.h.lost, s.b.pending, bad)
  {
    DoneWithinNeed(s, ops, bad, harm);
    DoneIsTracked(s, ops, bad, harm);
  }

  /**
   * Bisection isolates bad events: against a server that permanently refuses a request exactly when it holds a bad
   * event, the batch is done after at most Cost requests. Exactly the good events are delivered, in order; each
   * bad one is given up and, unless it is an overflow warning, counted once. Everything else is as the others
   * left it.
   */
  lemma PermanentIsolation(s: State, ops: seq<Op>, bad: Event -> bool)
    requires (Idle(s.b) || Sendable(s.b)) && Blaming(s, ops, bad, Refused)
    requires Tries(ops) >= Cost(s.b)
    ensures Idle(After(s, ops).b) && Tracks(Others(s, ops), After(s, ops), s.h.lost, s.b.pending, bad)
  {
    IsolatesBatch(s, ops, bad, Refused);
  }

  /** The same against server faults, once a part was delivered or with a good event in front. */
  lemma PoisonIsolation(s: State, ops: seq<Op>, bad: Event -> bool)
    requires (Idle(s.b) || Sendable(s.b)) && Blaming(s, ops, bad, Faulting)
    requires s.b.pending != [] ==> s.b.someDelivered || !bad(s.b.pending[0])
    requires Tries(ops) >= Need(s.b, Faulting)
    ensures Idle(After(s, ops).b) && Tracks(Others(s, ops), After(s, ops), s.h.lost, s.b.pending, bad)
  {
    IsolatesBatch(s, ops, bad, Faulting);
  }

  // ---- no fewer requests

  predicate AllBad(es: seq<Event>, bad: Event -> bool) {
    forall i | 0 <= i < |es| :: bad(es[i])
  }

  lemma RefusalCostsOne(s: State, now: int, ans: Answer, bad: Event -> bool)
    requires Sendable(s.b) && AllBad(s.b.pending, bad) && Blames(s.b, ans, bad, Refused)
    ensures var t := Reply(s, now, ans).b;
            && Cost(t) == Cost(s.b) - (if Transient(ans) then 0 else 1)
            && AllBad(t.pending, bad)
  {
    FirstPartFits(s.b);
    assert s.b.pending[0] in s.b.pending[..s.b.parts[0]];
  }

  /** The bound is reached: when every event is bad, no fewer requests do. */
  lemma {:induction false} PermanentIsolationTight(s: State, ops: seq<Op>, bad: Event -> bool)
    requires (Idle(s.b) || Sendable(s.b)) && AllBad(s.b.pending, bad) && Blaming(s, ops, bad, Refused)
    requires Tries(ops) < Cost(s.b)
    ensures Sendable(After(s, ops).b)
    decreases |ops|
  {
    if ops != [] {
      var op := ops[0];
      if op.Answered? {
        ReplySplits(s, op.now, op.ans);
        RefusalCostsOne(s, op.now, op.ans, bad);
      } else {
        OtherKeepsBatch(s, op);
      }
      PermanentIsolationTight(Step(s, op), ops[1..], bad);
    }
  }

  /** A fresh batch of n events, as take leaves it. */
  predicate Fresh(b: Batch) {
    b.pending != [] && b.parts == [|b.pending|] && b.sending == |b.pending| && b.fails == 0 && !b.someDelivered
  }

  lemma FreshIsSendable(b: Batch)
    requires Fresh(b)
    ensures Sendable(b) && Cost(b) == 2 * |b.pending| - 1
  {
    assert b.parts[1..] == [] && Sum(b.parts) == |b.pending|;
  }

  /** The headline for one batch as take leaves it: 2n-1 requests, and no fewer when all its events are bad. */
  lemma FreshBatchIsolated(s: State, ops: seq<Op>, bad: Event -> bool)
    requires Fresh(s.b) && Blaming(s, ops, bad, Refused)
    ensures Tries(ops) >= 2 * |s.b.pending| - 1 ==>
              Idle(After(s, ops).b) && Tracks(Others(s, ops), After(s, ops), s.h.lost, s.b.pending, bad)
    ensures AllBad(s.b.pending, bad) ==> (Idle(After(s, ops).b) <==> Tries(ops) >= 2 * |s.b.pending| - 1)
  {
    FreshIsSendable(s.b);
    if Tries(ops) >= Cost(s.b) {
      PermanentIsolation(s, ops, bad);
    } else if AllBad(s.b.pending, bad) {
      PermanentIsolationTight(s, ops, bad);
    }
  }

  // ---- few bad events

  /** The halvings that take n events apart: the base-2 logarithm, rounded up. */
  function Log2Up(n: nat): nat {
    if n <= 1 then 0 else 1 + Log2Up((n + 1) / 2)
  }

  /** Log2Up(n) halvings are enough, and no fewer. */
  lemma {:induction false} Log2UpIsLeast(n: nat, k: nat)
    ensures Log2Up(n) <= k <==> n <= Pow2(k)
    decreases k
  {
    if n > 1 && k > 0 {
      Log2UpIsLeast((n + 1) / 2, k - 1);
    }
  }

  lemma {:induction false} Log2UpGrows(m: nat, n: nat)
    requires m <= n
    ensures Log2Up(m) <= Log2Up(n)
    decreases n
  {
    if m > 1 {
      Log2UpGrows((m + 1) / 2, (n + 1) / 2);
    }
  }

  function Bads(es: seq<Event>, bad: Event -> bool): (n: nat)
    ensures n <= |es|
  {
    if es == [] then 0 else (if bad(es[0]) then 1 else 0) + Bads(es[1..], bad)
  }

  lemma {:induction false} BadsConcat(a: seq<Event>, b: seq<Event>, bad: Event -> bool)
    ensures Bads(a + b, bad) == Bads(a, bad) + Bads(b, bad)
  {
    if a == [] {
      assert a + b == b;
    } else {
      BadsConcat(a[1..], b, bad);
      assert (a + b)[1..] == a[1..] + b;
    }
  }

  lemma {:induction false} BadsNone(es: seq<Event>, bad: Event -> bool)
    ensures Bads(es, bad) == 0 <==> !AnyBad(es, bad)
  {
    if es != [] {
      BadsNone(es[1..], bad);
      assert es == [es[0]] + es[1..];
      assert es[0] in es;
    }
  }

  /** What a part of n events with h bad ones may take: itself, and two requests for each halving of a bad one. */
  function PartWork(n: nat, h: nat): nat {
    1 + 2 * (h * Log2Up(n))
  }

  function Work(pending: seq<Event>, parts: seq<nat>, bad: Event -> bool): nat
    requires Sum(parts) == |pending|
    decreases |parts|
  {
    if parts == [] then 0
    else
      PartWork(parts[0], Bads(pending[..parts[0]], bad)) + Work(pending[parts[0]..], parts[1..], bad)
  }

  /** A bad part of more than one event costs its request and what its two pieces may take. */
  lemma SplitIsCheaper(m: nat, k: nat, g: nat, h: nat)
    requires 0 < m && 0 < k && m <= k <= m + 1 && g + h > 0
    ensures PartWork(m, g) + PartWork(k, h) + 1 <= PartWork(m + k, g + h)
  {
    assert (m + k + 1) / 2 == k;
    Log2UpGrows(m, k);
    PiecesAreCheaper(Log2Up(m), Log2Up(k), Log2Up(m + k) - 1, g, h);
  }

  lemma PiecesAreCheaper(p: nat, q: nat, l: nat, g: nat, h: nat)
    requires p <= l && q <= l && g + h > 0
    ensures 1 + 2 * (g * p) + 1 + 2 * (h * q) + 1 <= 1 + 2 * ((g + h) * (l + 1))
  {
    MulAtLeast(l, p, g);
    MulAtLeast(l, q, h);
    assert (g + h) * (l + 1) == g * l + h * l + g + h;
  }

  lemma PartsWork(pending: seq<Event>, m: nat, k: nat, rest: seq<nat>, bad: Event -> bool)
    requires m + k + Sum(rest) == |pending|
    ensures Sum([m, k] + rest) == |pending|
    ensures Work(pending, [m, k] + rest, bad) ==
            PartWork(m, Bads(pending[..m], bad)) + PartWork(k, Bads(pending[m..m + k], bad))
            + Work(pending[m + k..], rest, bad)
  {
    assert ([m, k] + rest)[1..] == [k] + rest && ([k] + rest)[1..] == rest;
    assert pending[m..][..k] == pending[m..m + k] && pending[m..][k..] == pending[m + k..];
  }

  lemma BadsSplit(pending: seq<Event>, m: nat, n: nat, bad: Event -> bool)
    requires m <= n <= |pending|
    ensures Bads(pending[..n], bad) == Bads(pending[..m], bad) + Bads(pending[m..n], bad)
    ensures AnyBad(pending[..n], bad) ==> Bads(pending[..n], bad) > 0
  {
    assert pending[..n] == pending[..m] + pending[m..n];
    BadsConcat(pending[..m], pending[m..n], bad);
    BadsNone(pending[..n], bad);
  }

  /** Two pieces of nearly the same size are cheaper than the refused part. */
  lemma SplitWorks(pending: seq<Event>, m: nat, k: nat, rest: seq<nat>, bad: Event -> bool)
    requires m + k + Sum(rest) == |pending| && 0 < m <= k <= m + 1 && AnyBad(pending[..m + k], bad)
    ensures Sum([m, k] + rest) == |pending|
    ensures Work(pending, [m, k] + rest, bad) <
            PartWork(m + k, Bads(pending[..m + k], bad)) + Work(pending[m + k..], rest, bad)
  {
    hide *;
    var g, h := Bads(pending[..m], bad), Bads(pending[m..m + k], bad);
    PartsWork(pending, m, k, rest, bad);
    BadsSplit(pending, m, m + k, bad);
    SplitIsCheaper(m, k, g, h);
  }

  function WorkOf(b: Batch, bad: Event -> bool): nat
    requires Idle(b) || Sendable(b)
  {
    if Sendable(b) then Work(b.pending, b.parts, bad) else 0
  }

  /** What the batch may still take; ten server errors in a row count as one refusal. */
  function WorkLeft(b: Batch, bad: Event -> bool, harm: Harm): int
    requires Idle(b) || Sendable(b)
  {
    match harm
    case Refused => WorkOf(b, bad)
    case Faulting => EVENT_POISON_TRIES * WorkOf(b, bad) - Min(b.fails, EVENT_POISON_TRIES - 1)
  }

  lemma WorkOfBatch(b: Batch, bad: Event -> bool)
    requires Sendable(b)
    ensures WorkOf(b, bad) >= 1
  {
  }

  lemma AdvanceWorks(b: Batch, bad: Event -> bool)
    requires Sendable(b)
    ensures Idle(Advance(b)) || Sendable(Advance(b))
    ensures WorkOf(Advance(b), bad) < WorkOf(b, bad)
  {
    FirstPartFits(b);
    AdvanceKeepsBatch(b);
  }

  lemma FirstPartWorks(pending: seq<Event>, parts: seq<nat>, bad: Event -> bool)
    requires Sum(parts) == |pending| && parts != []
    ensures Work(pending, parts, bad) ==
            PartWork(parts[0], Bads(pending[..parts[0]], bad)) + Work(pending[parts[0]..], parts[1..], bad)
  {
  }

  /** A refused part of several events is taken apart into two of nearly the same size. */
  lemma HalfWorks(s: State, bad: Event -> bool)
    requires Sendable(s.b) && s.b.parts[0] > 1 && AnyBad(s.b.pending[..s.b.parts[0]], bad)
    ensures Sendable(Halve(s).b) && WorkOf(Halve(s).b, bad) < WorkOf(s.b, bad)
  {
    hide PartWork, Bads, Work;
    HalveKeepsBatch(s);
    var n, rest := s.b.parts[0], s.b.parts[1..];
    FirstPartWorks(s.b.pending, s.b.parts, bad);
    SplitWorks(s.b.pending, n / 2, n - n / 2, rest, bad);
  }

  lemma LessWorkLeft(b: Batch, r: Batch, bad: Event -> bool, harm: Harm)
    requires Sendable(b) && (Idle(r) || Sendable(r)) && WorkOf(r, bad) < WorkOf(b, bad)
    ensures WorkLeft(r, bad, harm) < WorkLeft(b, bad, harm)
  {
  }

  lemma RetryWorks(t: State, ans: Answer, bad: Event -> bool, harm: Harm)
    requires Sendable(t.b) && !ans.Accepted? && !ans.Permanent() && (ans.ServerFault() ==> harm.Faulting?)
    requires ans.ServerFault() ==> !Poisoned(t.b, ans)
    ensures Sendable(Retry(t, ans).b)
    ensures WorkLeft(Retry(t, ans).b, bad, harm) <= WorkLeft(t.b, bad, harm) - (if Transient(ans) then 0 else 1)
  {
  }

  /** Every answer that says something is worked off. */
  lemma ReplyWorks(t: State, now: int, ans: Answer, bad: Event -> bool, harm: Harm)
    requires Sendable(t.b) && Blames(t.b, ans, bad, harm) && Ready(t.b, bad, harm)
    ensures var r := Reply(t, now, ans).b;
            && (Idle(r) || Sendable(r))
            && WorkLeft(r, bad, harm) <= WorkLeft(t.b, bad, harm) - (if Transient(ans) then 0 else 1)
  {
    FirstPartFits(t.b);
    var n, r := t.b.parts[0], Reply(t, now, ans).b;
    if ans.Accepted? || (n == 1 && (ans.Permanent() || (Poisoned(t.b, ans) && t.b.someDelivered))) {
      AdvanceWorks(t.b, bad);
      WorkIgnoresWaits(Advance(t.b), r, bad);
      LessWorkLeft(t.b, r, bad, harm);
    } else if ans.Permanent() || Poisoned(t.b, ans) {
      OneIsTaken(t.b, ans, bad, harm);
      HalfWorks(t, bad);
      LessWorkLeft(t.b, r, bad, harm);
    } else {
      RetryWorks(t, ans, bad, harm);
    }
  }

  lemma WorkIgnoresWaits(b: Batch, c: Batch, bad: Event -> bool)
    requires (Idle(b) || Sendable(b)) && c.pending == b.pending && c.parts == b.parts && c.sending == b.sending
    ensures (Idle(c) || Sendable(c)) && WorkOf(c, bad) == WorkOf(b, bad)
  {
  }

  /** A blamed event that stands alone is given up. */
  lemma OneIsTaken(b: Batch, ans: Answer, bad: Event -> bool, harm: Harm)
    requires Sendable(b) && Blames(b, ans, bad, harm) && Ready(b, bad, harm)
    requires !ans.Accepted? && (ans.Permanent() || Poisoned(b, ans))
    requires b.parts[0] == 1 ==> !ans.Permanent() && !b.someDelivered
    ensures b.parts[0] > 1 && AnyBad(b.pending[..b.parts[0]], bad)
  {
    FirstPartFits(b);
    assert b.pending[..1] == [b.pending[0]];
  }

  lemma {:induction false} DoneWithinWork(t: State, ops: seq<Op>, bad: Event -> bool, harm: Harm)
    requires (Idle(t.b) || Sendable(t.b)) && Ready(t.b, bad, harm)
    requires Blaming(t, ops, bad, harm) && Tries(ops) >= WorkLeft(t.b, bad, harm)
    ensures Idle(After(t, ops).b)
    decreases |ops|
  {
    if Sendable(t.b) {
      WorkOfBatch(t.b, bad);
    }
    if ops != [] {
      StepWorks(t, ops[0], bad, harm);
      DoneWithinWork(Step(t, ops[0]), ops[1..], bad, harm);
    }
  }

  lemma StepWorks(t: State, op: Op, bad: Event -> bool, harm: Harm)
    requires (Idle(t.b) || Sendable(t.b)) && Ready(t.b, bad, harm) && !op.TakeBatch?
    requires op.Answered? && Sendable(t.b) ==> Blames(t.b, op.ans, bad, harm)
    ensures var r := Step(t, op).b;
            && (Idle(r) || Sendable(r)) && Ready(r, bad, harm)
            && (Sendable(t.b) ==>
                  WorkLeft(r, bad, harm) <=
                  WorkLeft(t.b, bad, harm) - (if op.Answered? && !Transient(op.ans) then 1 else 0))
            && (Idle(t.b) ==> Idle(r))
  {
    if !op.Answered? {
      OtherKeepsBatch(t, op);
      WorkIgnoresWaits(t.b, Step(t, op).b, bad);
    } else if Sendable(t.b) {
      ReplyWorks(t, op.now, op.ans, bad, harm);
      ReplyProgress(t, op.now, op.ans, bad, harm);
    }
  }

  lemma FreshWork(b: Batch, bad: Event -> bool)
    requires Fresh(b)
    ensures Sendable(b) && WorkOf(b, bad) == PartWork(|b.pending|, Bads(b.pending, bad))
  {
    var n := |b.pending|;
    FreshIsSendable(b);
    assert b.pending[..n] == b.pending && Work(b.pending[n..], [], bad) == 0 && [n][1..] == [];
  }

  function FewTries(n: nat, h: nat, harm: Harm): nat {
    (if harm.Faulting? then 10 else 1) * (1 + 2 * (h * Log2Up(n)))
  }

  lemma FewBadWork(b: Batch, bad: Event -> bool, harm: Harm, h: nat)
    requires Fresh(b) && Bads(b.pending, bad) <= h
    ensures Sendable(b) && WorkLeft(b, bad, harm) <= FewTries(|b.pending|, h, harm)
  {
    FreshWork(b, bad);
    MulAtLeast(h, Bads(b.pending, bad), Log2Up(|b.pending|));
  }

  /**
   * Halving is fast when few events are bad: with at most h bad ones a fresh batch of n events is done after
   * 1 + 2 h log2 n requests that say something, or ten times that when the server fails instead of refusing and
   * the first event is good.
   */
  lemma FewBadIsolated(s: State, ops: seq<Op>, bad: Event -> bool, harm: Harm, h: nat)
    requires Fresh(s.b) && Bads(s.b.pending, bad) <= h && Blaming(s, ops, bad, harm)
    requires harm.Faulting? ==> !bad(s.b.pending[0])
    requires Tries(ops) >= FewTries(|s.b.pending|, h, harm)
    ensures Idle(After(s, ops).b) && Tracks(Others(s, ops), After(s, ops), s.h.lost, s.b.pending, bad)
  {
    hide WorkLeft, FewTries, Blaming, Tracks;
    FewBadWork(s.b, bad, harm, h);
    DoneWithinWork(s, ops, bad, harm);
    DoneIsTracked(s, ops, bad, harm);
  }

  // ---- a poisonous event in front

  lemma {:induction false} AddIgnoresBatch(u: State, t: State, now: int, events: seq<Event>)
    requires t.w == u.w && t.h == u.h
    ensures AddAll(t, now, events).w == AddAll(u, now, events).w && AddAll(t, now, events).h == AddAll(u, now, events).h
    decreases |events|
  {
    if !t.w.stopped && events != [] {
      AddIgnoresBatch(AddOne(u, now, events[0]), AddOne(t, now, events[0]), now, events[1..]);
    }
  }

  lemma PoisonInFrontStays(s: State, now: int, ans: Answer, bad: Event -> bool)
    requires Sendable(s.b) && !s.b.someDelivered && bad(s.b.pending[0]) && Blames(s.b, ans, bad, Faulting)
    ensures var t := Reply(s, now, ans);
            t.b.pending == s.b.pending && t.h == s.h && t.w == s.w && !t.b.someDelivered && Sendable(t.b)
  {
    FirstPartFits(s.b);
    assert s.b.pending[0] in s.b.pending[..s.b.parts[0]];
    if s.b.parts[0] > 1 {
      HalveKeepsBatch(s);
    }
  }

  lemma {:induction false} PoisonStays(u: State, t: State, ops: seq<Op>, bad: Event -> bool)
    requires t.w == u.w && t.h == u.h && Sendable(t.b) && !t.b.someDelivered && bad(t.b.pending[0])
    requires Blaming(t, ops, bad, Faulting)
    ensures var r, o := After(t, ops), Others(u, ops);
            Sendable(r.b) && r.b.pending == t.b.pending && r.w == o.w && r.h == o.h
    decreases |ops|
  {
    if ops != [] {
      var op := ops[0];
      if op.Answered? {
        PoisonInFrontStays(t, op.now, op.ans, bad);
        PoisonStays(u, Step(t, op), ops[1..], bad);
      } else {
        OtherKeepsBatch(t, op);
        if op.Add? {
          AddIgnoresBatch(u, t, op.now, op.events);
        }
        PoisonStays(Step(u, op), Step(t, op), ops[1..], bad);
      }
    }
  }

  /**
   * A poisonous event in front of an undelivered batch stops it for as long as the server fails on it: nothing is
   * delivered or given up, and everything else is as the others left it.
   */
  lemma PoisonInFrontBlocks(s: State, ops: seq<Op>, bad: Event -> bool)
    requires Sendable(s.b) && !s.b.someDelivered && bad(s.b.pending[0]) && Blaming(s, ops, bad, Faulting)
    ensures var t, o := After(s, ops), Others(s, ops);
            Sendable(t.b) && t.b.pending == s.b.pending && t.h == o.h && t.w == o.w
  {
    PoisonStays(s, s, ops, bad);
  }

  /**
   * Against a server that fails (5xx, not a proxy) exactly on the requests that hold a bad event, a fresh batch
   * is done after ten times 2n-1 answers exactly when its first event is good, with the same outcome as for a
   * permanent refusal; with a bad one in front no number of answers does it.
   */
  lemma PoisonIsolatedIffFirstGood(s: State, ops: seq<Op>, bad: Event -> bool)
    requires Fresh(s.b) && Blaming(s, ops, bad, Faulting)
    ensures bad(s.b.pending[0]) ==> Sendable(After(s, ops).b) && After(s, ops).b.pending == s.b.pending
    ensures Tries(ops) >= EVENT_POISON_TRIES * (2 * |s.b.pending| - 1) ==>
              && (Idle(After(s, ops).b) <==> !bad(s.b.pending[0]))
              && (!bad(s.b.pending[0]) ==>
                    Tracks(Others(s, ops), After(s, ops), s.h.lost, s.b.pending, bad))
  {
    FreshIsSendable(s.b);
    if bad(s.b.pending[0]) {
      PoisonInFrontBlocks(s, ops, bad);
    } else if Tries(ops) >= EVENT_POISON_TRIES * Cost(s.b) {
      PoisonIsolation(s, ops, bad);
    }
  }
}
