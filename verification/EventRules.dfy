/**
 * What the event sender decides, told from the queue, the times and the answers alone (internal/api/events.go): when
 * a batch is taken and what is in it, what its warning says, what an answer costs and how long the next try waits.
 */
module EventRules {
  import opened Arithmetic
  import opened Collections
  import opened EventQueue
  import opened EventDelivery

  // ---- taking a batch

  predicate AnyUrgent(q: seq<Queued>) {
    exists i | 0 <= i < |q| :: q[i].urgent
  }

  lemma {:induction false} UrgentsIffAny(q: seq<Queued>)
    ensures Urgents(q) != [] <==> AnyUrgent(q)
  {
    if q != [] {
      UrgentsIffAny(q[1..]);
      assert q == [q[0]] + q[1..];
      if AnyUrgent(q[1..]) {
        var i :| 0 <= i < |q[1..]| && q[1..][i].urgent;
        assert q[i + 1].urgent;
      }
    }
  }

  /** The queue with the warning about all losses since the last one, the size of which is its own. */
  function WithWarning(w: Waiting): seq<Queued> {
    var l := w.losses;
    if l.dropped == 0 then w.queue
    else
      var warning := Overflow(l.dropped, l.refused, l.firstDrop);
      w.queue + [Queued(warning, false, warning.Size(), l.firstDrop)]
  }

  /**
   * A batch is taken exactly when something is queued, the warning included, and the take is forced, a hundred
   * events wait, the oldest waits for 5 s, or an urgent one waits and the last urgent batch is a second ago. It is
   * the oldest events, a hundred at most; the others stay.
   */
  lemma TakesIff(s: State, now: int, force: bool)
    requires s.b.pending == []
    ensures var q, t := WithWarning(s.w), Take(s, now, force);
            var due := q != [] && (force || |q| >= 100 || now - q[0].at >= 5000 ||
                                   (AnyUrgent(q) && now - s.w.lastUrgent >= 1000));
            var n := if !due then 0 else if |q| < 100 then |q| else 100;
            && t.b.pending == Events(q[..n]) && t.w.queue == q[n..]
            && t.w.lastUrgent == (if AnyUrgent(q[..n]) then now else s.w.lastUrgent)
            && t.w.losses == s.w.losses.(dropped := 0, refused := if s.w.losses.dropped == 0 then s.w.losses.refused else 0)
            && (due ==> t.b.parts == [n] && t.b.fails == 0 && !t.b.someDelivered)
  {
    var q := WithWarning(s.w);
    assert Warn(s).w.queue == q && q[0..] == q;
    UrgentsIffAny(q);
    UrgentsIffAny(q[..Min(|q|, EVENT_BATCH_MAX)]);
  }

  /** A reported event joins the end of the queue with its own urgency, size and the time it came. */
  lemma EventWaitsAsItCame(s: State, now: int, e: Event)
    ensures var q := AddOne(s, now, e).w.queue;
            q != [] && q[|q| - 1] == Queued(e, UrgentEvent(e), e.Size(), now)
  {
  }

  /** A Flush that waits has the next batch taken and a failed one sent at once; one that gave up has not. */
  lemma FlushHurries(s: State, waits: bool, now: int)
    requires s.b.pending == []
    ensures var t := Step(s, Flush(waits));
            && t.b.retryIn == (if waits then 0 else s.b.retryIn)
            && Step(t, TakeBatch(now)).b.pending == Take(t, now, waits).b.pending
            && t.w == s.w && t.h == s.h
  {
    hide Take;
  }

  // ---- losses

  /** Whether an operation lost events, and when the first one did since the last warning. */
  function LostSince(ops: seq<Op>): Option<int> {
    if ops == [] then None
    else
      var before, op := ops[..|ops| - 1], ops[|ops| - 1];
      var s, since := Run(Init, before), LostSince(before);
      if op.TakeBatch? && s.b.pending == [] then None
      else if Run(Init, ops).w.losses.total > s.w.losses.total && since.None? && (op.Add? || op.Answered?) then
        Some(op.now)
      else since
  }

  predicate Dated(l: Losses, since: Option<int>) {
    (l.dropped > 0 <==> since.Some?) && (since.Some? ==> l.firstDrop == since.value)
  }

  lemma {:induction false} AddIsDated(s: State, now: int, events: seq<Event>)
    ensures var l, m := s.w.losses, AddAll(s, now, events).w.losses;
            && m.total - l.total == m.dropped - l.dropped >= 0 && m.refused == l.refused
            && m.firstDrop == if l.dropped == 0 && m.dropped > 0 then now else l.firstDrop
    decreases |events|
  {
    if !s.w.stopped && events != [] {
      AddIsDated(AddOne(s, now, events[0]), now, events[1..]);
    }
  }

  /** The next warning is dated from the first loss since the last one; that loss may have been any. */
  lemma {:induction false} LossesAreDated(ops: seq<Op>)
    ensures Dated(Run(Init, ops).w.losses, LostSince(ops))
  {
    if ops != [] {
      var before, op := ops[..|ops| - 1], ops[|ops| - 1];
      var s := Run(Init, before);
      LossesAreDated(before);
      if op.Add? {
        AddIsDated(s, op.now, op.events);
      }
    }
  }

  /** The losses the warnings in es put down to the server. */
  function WarnedRefused(es: seq<Event>): nat {
    if es == [] then 0
    else WarnedRefused(es[..|es| - 1]) + if es[|es| - 1].Overflow? then es[|es| - 1].refused else 0
  }

  /** The events lost by an answer, not for want of room. */
  function LostByAnswers(ops: seq<Op>): nat {
    if ops == [] then 0
    else
      var before := ops[..|ops| - 1];
      var n, m := |Run(Init, before).h.lost|, |Run(Init, ops).h.lost|;
      LostByAnswers(before) + if ops[|ops| - 1].Answered? && n < m then m - n else 0
  }

  lemma WarnedRefusedMore(es: seq<Event>, e: Event)
    ensures WarnedRefused(es + [e]) == WarnedRefused(es) + if e.Overflow? then e.refused else 0
  {
    assert (es + [e])[..|es|] == es;
  }

  lemma {:induction false} AddBlamesNone(s: State, now: int, events: seq<Event>)
    requires forall e | e in events :: e.Reported?
    ensures AddAll(s, now, events).w.losses.refused == s.w.losses.refused
    ensures WarnedRefused(AddAll(s, now, events).h.log) == WarnedRefused(s.h.log)
    decreases |events|
  {
    if !s.w.stopped && events != [] {
      assert events[0] in events;
      WarnedRefusedMore(s.h.log, events[0]);
      AddBlamesNone(AddOne(s, now, events[0]), now, events[1..]);
    }
  }

  lemma StepBlames(s: State, op: Op)
    requires op.Add? ==> forall e | e in op.events :: e.Reported?
    requires s.w.losses.dropped == 0 ==> s.w.losses.refused == 0
    ensures var t := Step(s, op);
            && WarnedRefused(t.h.log) + t.w.losses.refused ==
               WarnedRefused(s.h.log) + s.w.losses.refused
               + (if op.Answered? && |s.h.lost| < |t.h.lost| then |t.h.lost| - |s.h.lost| else 0)
            && (t.w.losses.dropped == 0 ==> t.w.losses.refused == 0)
  {
    if op.Add? {
      AddBlamesNone(s, op.now, op.events);
      AddIsDated(s, op.now, op.events);
    } else if op.TakeBatch? && s.b.pending == [] && s.w.losses.dropped > 0 {
      WarnedRefusedMore(s.h.log, Warning(s.w.losses));
    }
  }

  /** Over every run the warnings, with the one to come, put exactly the events lost by answers down to the server. */
  lemma {:induction false} BlameOverRuns(ops: seq<Op>)
    requires ReportsOnly(ops)
    ensures var s := Run(Init, ops);
            WarnedRefused(s.h.log) + s.w.losses.refused == LostByAnswers(ops)
    ensures Run(Init, ops).w.losses.dropped == 0 ==> Run(Init, ops).w.losses.refused == 0
  {
    if ops != [] {
      var before, op := ops[..|ops| - 1], ops[|ops| - 1];
      assert op in ops && forall o | o in before :: o in ops;
      BlameOverRuns(before);
      StepBlames(Run(Init, before), op);
    }
  }

  /** Nothing is queued after a stop, whatever happens. */
  lemma {:induction false} StopIsFinal(s: State, ops: seq<Op>)
    ensures var t := Run(Step(s, Close), ops);
            t.w.stopped && forall now, events :: Step(t, Add(now, events)) == t
  {
    if ops != [] {
      StopIsFinal(s, ops[..|ops| - 1]);
    }
  }

  // ---- answers

  /** An answer that refuses the events themselves. */
  predicate Refuses(ans: Answer) {
    ans.Status? && (ans.code == 400 || ans.code == 413 || ans.code == 422)
  }

  /** An error of the server, not of a proxy in front of it. */
  predicate Fails(ans: Answer) {
    ans.Status? && ans.code >= 500 && ans.code != 502 && ans.code != 503 && ans.code != 504
  }

  /** The part just sent is taken apart or given up for an answer after the given number of failures in a row. */
  predicate IsBlamed(b: Batch, ans: Answer, failures: nat)
    requires Sendable(b)
  {
    Refuses(ans) || (Fails(ans) && failures + 1 >= 10 && (b.parts[0] > 1 || b.someDelivered))
  }

  function Replies(s: State, now: int, answers: seq<Answer>): State
    decreases |answers|
  {
    if answers == [] then s
    else
      var t := Replies(s, now, answers[..|answers| - 1]);
      if Sendable(t.b) then Reply(t, now, answers[|answers| - 1]) else t
  }

  /** No answer accepted the part, and none was blamed on it. */
  predicate AllFail(b: Batch, answers: seq<Answer>)
    requires Sendable(b)
  {
    forall i | 0 <= i < |answers| :: !answers[i].Accepted? && !IsBlamed(b, answers[i], i)
  }

  /** The failures of a part sent for the first time keep it as it is. */
  lemma {:induction false} FailuresKeepPart(s: State, now: int, answers: seq<Answer>)
    requires Sendable(s.b) && s.b.fails == 0 && AllFail(s.b, answers)
    ensures var t := Replies(s, now, answers);
            && Sendable(t.b) && t.b.fails == |answers| && t.b.someDelivered == s.b.someDelivered
            && t.b.pending == s.b.pending && t.b.parts == s.b.parts && t.w == s.w && t.h == s.h
    decreases |answers|
  {
    if answers != [] {
      var before := answers[..|answers| - 1];
      assert forall i | 0 <= i < |before| :: before[i] == answers[i];
      FailuresKeepPart(s, now, before);
      assert !IsBlamed(s.b, answers[|before|], |before|);
    }
  }

  /**
   * A part is delivered exactly by an accepting answer. It is taken apart, or given up when it is one event, exactly
   * by a refusal of the events (400, 413, 422), or by a fault of the server, not of a proxy, that is at least the
   * tenth failure in a row and, for one event, comes after another part was delivered. Any other answer changes
   * neither batch nor queue.
   */
  lemma AnswerDecides(s: State, now: int, answers: seq<Answer>, ans: Answer)
    requires Sendable(s.b) && s.b.fails == 0 && AllFail(s.b, answers)
    ensures 0 < s.b.parts[0] <= |s.b.pending|
    ensures var t, n := Replies(s, now, answers + [ans]), s.b.parts[0];
            if ans.Accepted? then
              t.h == s.h.(delivered := s.h.delivered + s.b.pending[..n]) && t.b.pending == s.b.pending[n..]
            else if !IsBlamed(s.b, ans, |answers|) then
              t.b.pending == s.b.pending && t.b.parts == s.b.parts && t.h == s.h && t.w == s.w
            else if n > 1 then
              t.b.pending == s.b.pending && |t.b.parts| == |s.b.parts| + 1 && t.h == s.h && t.w == s.w
            else
              var e := s.b.pending[0];
              && t.b.pending == s.b.pending[1..] && t.w.queue == s.w.queue
              && if e.Type() == "event_queue_overflow" then
                   t.h == s.h.(uncounted := s.h.uncounted + [e]) && t.w.losses == s.w.losses
                 else
                   && t.h == s.h.(lost := s.h.lost + [e])
                   && t.w.losses.dropped == s.w.losses.dropped + 1 && t.w.losses.refused == s.w.losses.refused + 1
  {
    FailuresKeepPart(s, now, answers);
    FirstPartFits(s.b);
    assert (answers + [ans])[..|answers|] == answers;
  }

  // ---- waits

  function Smaller(a: nat, b: nat): nat {
    if a < b then a else b
  }

  lemma {:induction false} BackoffAfter(s: State, now: int, answers: seq<Answer>)
    requires Sendable(s.b) && s.b.fails == 0 && s.b.backoff == 0 && AllFail(s.b, answers) && answers != []
    ensures Replies(s, now, answers).b.backoff == Smaller(1000 * Pow2(|answers| - 1), 30000)
    decreases |answers|
  {
    var before, last := answers[..|answers| - 1], answers[|answers| - 1];
    assert forall i | 0 <= i < |before| :: before[i] == answers[i];
    FailuresKeepPart(s, now, before);
    FailureDoubles(Replies(s, now, before), now, last);
    if before != [] {
      BackoffAfter(s, now, before);
    }
  }

  lemma FailureDoubles(t: State, now: int, ans: Answer)
    requires Sendable(t.b) && !ans.Accepted? && !IsBlamed(t.b, ans, t.b.fails)
    ensures Reply(t, now, ans).b.backoff ==
            Smaller(if 2 * t.b.backoff > 1000 then 2 * t.b.backoff else 1000, 30000)
  {
    FirstPartFits(t.b);
  }

  /**
   * The wait before the next try doubles from a second to half a minute over failures in a row. An answer that asks
   * for more gets it, up to five minutes, or half an hour when it refuses the agent (401, 403). While a Flush waits
   * that is not held back it is half a second.
   */
  lemma WaitIsExact(s: State, now: int, answers: seq<Answer>, ans: Answer)
    requires Sendable(s.b) && s.b.fails == 0 && s.b.backoff == 0 && AllFail(s.b, answers + [ans])
    ensures var b, t := Replies(s, now, answers).b, Replies(s, now, answers + [ans]).b;
            var wait := Smaller(1000 * Pow2(|answers|), 30000);
            var limit := if ans.Status? && (ans.code == 401 || ans.code == 403) then 1800000 else 300000;
            && t.flushing == (b.flushing && !(ans.Status? && ans.held))
            && t.retryIn == if t.flushing then 500
                            else if ans.Status? && ans.retryAfter > wait then Smaller(ans.retryAfter, limit) else wait
  {
    var all := answers + [ans];
    assert all[..|answers|] == answers && all[|answers|] == ans;
    assert forall i | 0 <= i < |answers| :: answers[i] == all[i];
    FailuresKeepPart(s, now, answers);
    BackoffAfter(s, now, all);
    assert !IsBlamed(s.b, all[|answers|], |answers|);
  }

  /** A delivery ends the back-off, so the next failure waits a second again. */
  lemma DeliveryEndsBackoff(s: State, now: int, ans: Answer)
    requires Sendable(s.b) && ans.Accepted?
    ensures var t := Reply(s, now, ans).b; t.backoff == 0 && t.retryIn == 0 && t.fails == 0 && t.someDelivered
  {
    FirstPartFits(s.b);
  }
}
