/**
 * The guard that puts the firewall chains back (cmd/infrafence-agent/fwguard.go). Times and durations are in
 * seconds; a zero time of the source is None.
 */
module FirewallGuard {
  import opened Collections
  import Sequences

  const QUICK := 5
  const FULL := 60
  const FOLLOW_UP := 2
  const BACK_TO_BACK := 30
  const BACKOFF_MIN := 5
  const BACKOFF_MAX := 60
  const QUIET := 300
  const CSF_WAIT := 120
  const EVENT_EVERY := 60
  const CONFLICT_EVERY := 3600
  const HOUR := 3600
  const MAX_REPAIRS := 120

  /** The back-off; a delay of 0 is none. */
  datatype Backoff = Backoff(delay: int, retryAt: Option<int>, lastTrouble: int)

  /** The csf lock holder seen last, since when, and whether it was waited for long enough. */
  datatype Csf = Csf(pid: int, since: Option<int>, forced: bool)

  /** The repairs of the last hour and those not reported yet. */
  datatype Log = Log(repairs: seq<int>, lastConflict: Option<int>, lastEvent: Option<int>,
                     pendingN: nat, pendingWhat: set<string>)

  datatype Guard = Guard(nextQuick: int, nextFull: int, followUp: Option<int>, lastRepair: Option<int>,
                         back: Backoff, csf: Csf, log: Log)

  datatype Check = InPlace | Missing | CheckFailed

  /** What firewall.Ensure says: an error, or the repairs; the first setup is no repair. */
  datatype Ensured = EnsureFailed | Done(first: bool, repairs: seq<string>)

  /** What one tick would see; took is how long the quick check lasts, holder the process that holds the csf lock. */
  datatype In = In(now: int, check: Check, took: nat, holder: Option<int>, ensured: Ensured)

  datatype Event = Restored(at: int, count: nat, what: set<string>) | Conflict(at: int, lastHour: nat, backToBack: bool)

  /** What one tick did: asked for the csf lock, ran Ensure, backed off, repaired something, sent events. */
  datatype Out = Out(consulted: bool, ran: bool, trouble: bool, repaired: bool, events: seq<Event>)

  datatype Ticked = Ticked(g: Guard, out: Out)

  const IDLE := Out(false, false, false, false, [])

  function Start(now: int): Guard {
    Guard(now + QUICK, now + FULL, None, None, Backoff(0, None, 0), Csf(0, None, false), Log([], None, None, 0, {}))
  }

  // ---- the back-off

  /** trouble */
  function Troubled(b: Backoff, now: int): Backoff {
    var d := if b.delay == 0 then BACKOFF_MIN
             else if b.delay < BACKOFF_MAX then (if 2 * b.delay < BACKOFF_MAX then 2 * b.delay else BACKOFF_MAX)
             else b.delay;
    Backoff(d, Some(now + d), now)
  }

  /** The back-off is forgotten after 5 quiet minutes. */
  function Calmed(b: Backoff, now: int): Backoff {
    if b.delay > 0 && now - b.lastTrouble >= QUIET then Backoff(0, None, b.lastTrouble) else b
  }

  predicate Holds(b: Backoff, now: int) {
    b.retryAt.Some? && now < b.retryAt.value
  }

  // ---- csf

  /** The csf wait after asking who holds the lock. */
  function Observed(c: Csf, now: int, holder: Option<int>): Csf {
    if holder.None? then Csf(0, None, false)
    else
      var h := if holder.value != c.pid || c.since.None? then Csf(holder.value, Some(now), false) else c;
      if !h.forced && now - h.since.value >= CSF_WAIT then h.(forced := true) else h
  }

  /** waitForCSF */
  predicate Waits(c: Csf, now: int, holder: Option<int>) {
    holder.Some? && !Observed(c, now, holder).forced
  }

  // ---- the reports

  predicate EventIsDue(l: Log, now: int) {
    l.pendingN > 0 && (l.lastEvent.None? || now - l.lastEvent.value >= EVENT_EVERY)
  }

  /** flushEvents */
  function Flushed(l: Log, now: int): Log {
    if EventIsDue(l, now) then l.(lastEvent := Some(now), pendingN := 0, pendingWhat := {}) else l
  }

  function FlushEvents(l: Log, now: int): seq<Event> {
    if EventIsDue(l, now) then [Restored(now, l.pendingN, l.pendingWhat)] else []
  }

  function Recent(repairs: seq<int>, now: int): seq<int> {
    if repairs == [] then []
    else
      var init, t := Recent(repairs[..|repairs| - 1], now), repairs[|repairs| - 1];
      if now - t < HOUR then init + [t] else init
  }

  function WithRepair(repairs: seq<int>, now: int): seq<int> {
    var recent := Recent(repairs, now);
    if recent == [] || now - recent[|recent| - 1] >= BACK_TO_BACK then recent + [now] else recent
  }

  function Members(what: seq<string>): set<string> {
    set w | w in what
  }

  predicate ConflictIsDue(l: Log, now: int, backToBack: bool) {
    (backToBack || |l.repairs| >= 3) && (l.lastConflict.None? || now - l.lastConflict.value >= CONFLICT_EVERY)
  }

  /** The repair counted and remembered, before anything is sent. */
  function Counted(l: Log, now: int, what: seq<string>): Log {
    l.(pendingN := l.pendingN + 1, pendingWhat := l.pendingWhat + Members(what), repairs := WithRepair(l.repairs, now))
  }

  /** noteRepair */
  function Noted(l: Log, now: int, what: seq<string>, backToBack: bool): Log {
    var f := Flushed(Counted(l, now, what), now);
    if ConflictIsDue(f, now, backToBack) then f.(lastConflict := Some(now)) else f
  }

  function ConflictEvents(l: Log, now: int, backToBack: bool): seq<Event> {
    if ConflictIsDue(l, now, backToBack) then [Conflict(now, |l.repairs|, backToBack)] else []
  }

  function NotedEvents(l: Log, now: int, what: seq<string>, backToBack: bool): seq<Event> {
    var c := Counted(l, now, what);
    FlushEvents(c, now) + ConflictEvents(Flushed(c, now), now, backToBack)
  }

  // ---- one tick

  datatype Due = FollowUp | Full | Quick | NotDue

  function WhatIsDue(g: Guard, now: int): Due {
    if g.followUp.Some? && now >= g.followUp.value then FollowUp
    else if now >= g.nextFull then Full
    else if now >= g.nextQuick then Quick
    else NotDue
  }

  predicate IsBackToBack(g: Guard, due: Due, now: int) {
    due != FollowUp && g.lastRepair.Some? && now - g.lastRepair.value < BACK_TO_BACK
  }

  /** The repair itself, when neither the back-off nor csf is in the way. */
  function Repair(g: Guard, due: Due, i: In): Ticked {
    var h := if due == FollowUp then g.(followUp := None) else if due == Full then g.(nextFull := i.now + FULL) else g;
    match i.ensured
    case EnsureFailed => Ticked(h.(back := Troubled(h.back, i.now)), Out(true, true, true, false, []))
    case Done(first, what) =>
      if first || what == [] then Ticked(h, Out(true, true, false, false, []))
      else
        var backToBack := IsBackToBack(g, due, i.now);
        Ticked(h.(followUp := if due == Quick then Some(i.now + FOLLOW_UP) else h.followUp,
                  lastRepair := Some(i.now),
                  back := if backToBack then Troubled(h.back, i.now) else h.back,
                  log := Noted(h.log, i.now, what, backToBack)),
               Out(true, true, backToBack, true, NotedEvents(h.log, i.now, what, backToBack)))
  }

  function Attempt(g: Guard, due: Due, i: In): Ticked {
    if Holds(g.back, i.now) then Ticked(g, IDLE)
    else
      var o := g.(csf := Observed(g.csf, i.now, i.holder));
      if Waits(g.csf, i.now, i.holder) then Ticked(o, Out(true, false, false, false, [])) else Repair(o, due, i)
  }

  function Acted(g: Guard, i: In): Ticked {
    match WhatIsDue(g, i.now)
    case NotDue => Ticked(g, IDLE)
    case Quick =>
      (match i.check
       case CheckFailed =>
         var t := Troubled(g.back, i.now);
         Ticked(g.(back := t, nextQuick := t.retryAt.value), Out(false, false, true, false, []))
       case InPlace => Ticked(g.(nextQuick := i.now + if 10 * i.took > QUICK then 10 * i.took else QUICK), IDLE)
       case Missing => Attempt(g.(nextQuick := i.now + QUICK), Quick, i))
    case due => Attempt(g, due, i)
  }

  /** Reports what is due and forgets an old back-off. */
  function Begun(g: Guard, now: int): Guard {
    g.(log := Flushed(g.log, now), back := Calmed(g.back, now))
  }

  function Tick(g: Guard, i: In): Ticked {
    var a := Acted(Begun(g, i.now), i);
    Ticked(a.g, a.out.(events := FlushEvents(g.log, i.now) + a.out.events))
  }

  predicate TickIsBackToBack(g: Guard, i: In) {
    var b := Begun(g, i.now);
    IsBackToBack(b, WhatIsDue(b, i.now), i.now)
  }

  /** What a tick does to the log. */
  lemma TickAndLog(g: Guard, i: In)
    ensures var n := Tick(g, i);
            var l, b := Flushed(g.log, i.now), TickIsBackToBack(g, i);
            if n.out.repaired then
              && i.ensured.Done?
              && n.g.log == Noted(l, i.now, i.ensured.repairs, b)
              && n.out.events == FlushEvents(g.log, i.now) + NotedEvents(l, i.now, i.ensured.repairs, b)
            else n.g.log == l && n.out.events == FlushEvents(g.log, i.now)
  {
  }

  // ---- runs

  predicate StepAt(g: seq<Guard>, ins: seq<In>, outs: seq<Out>, i: nat)
    requires i < |ins| == |outs| && |g| == |ins| + 1
  {
    Ticked(g[i + 1], outs[i]) == Tick(g[i], ins[i])
  }

  /** The clock never goes back. */
  ghost predicate Run(g: seq<Guard>, ins: seq<In>, outs: seq<Out>) {
    && |g| == |ins| + 1 && |outs| == |ins|
    && (exists start :: g[0] == Start(start))
    && (forall i | 0 <= i < |ins| :: StepAt(g, ins, outs, i))
    && (forall i, j | 0 <= i < j < |ins| :: ins[i].now <= ins[j].now)
  }

  // ---- the back-off over runs

  predicate InRange(b: Backoff) {
    && (b.delay == 0 || BACKOFF_MIN <= b.delay <= BACKOFF_MAX)
    && b.retryAt == if b.delay > 0 then Some(b.lastTrouble + b.delay) else None
  }

  /** A back-off of d from time t is over at now, or the present one lasts at least as long. */
  predicate Honoured(b: Backoff, t: int, d: int, now: int) {
    t + d <= now || (b.delay >= d && b.delay > 0 && b.lastTrouble >= t)
  }

  lemma StepHonours(g: seq<Guard>, ins: seq<In>, outs: seq<Out>, k: nat, t: int, d: int, before: int)
    requires Run(g, ins, outs) && k < |ins|
    requires InRange(g[k].back) && Honoured(g[k].back, t, d, before) && t <= before <= ins[k].now && d <= BACKOFF_MAX
    ensures InRange(g[k + 1].back) && Honoured(g[k + 1].back, t, d, ins[k].now)
    ensures outs[k].consulted || outs[k].ran ==> ins[k].now >= t + d
    ensures outs[k].trouble ==>
              && BACKOFF_MIN <= g[k + 1].back.delay <= BACKOFF_MAX
              && Honoured(g[k + 1].back, ins[k].now, g[k + 1].back.delay, ins[k].now)
  {
    assert StepAt(g, ins, outs, k);
  }

  lemma {:induction false} BackoffOverRuns(g: seq<Guard>, ins: seq<In>, outs: seq<Out>, n: nat)
    requires Run(g, ins, outs) && n <= |ins|
    ensures InRange(g[n].back)
    decreases n
  {
    if n > 0 {
      BackoffOverRuns(g, ins, outs, n - 1);
      StepHonours(g, ins, outs, n - 1, ins[n - 1].now - BACKOFF_MAX, 0, ins[n - 1].now);
    }
  }

  lemma {:induction false} TroubleIsHonoured(g: seq<Guard>, ins: seq<In>, outs: seq<Out>, i: nat, n: nat)
    requires Run(g, ins, outs) && i < n <= |ins| && outs[i].trouble
    ensures BACKOFF_MIN <= g[i + 1].back.delay <= BACKOFF_MAX
    ensures Honoured(g[n].back, ins[i].now, g[i + 1].back.delay, ins[n - 1].now)
    decreases n
  {
    var last := n - 1;
    BackoffOverRuns(g, ins, outs, last);
    if last == i {
      StepHonours(g, ins, outs, i, ins[i].now - BACKOFF_MAX, 0, ins[i].now);
    } else {
      TroubleIsHonoured(g, ins, outs, i, last);
      StepHonours(g, ins, outs, last, ins[i].now, g[i + 1].back.delay, ins[last - 1].now);
    }
  }

  /**
   * Every trouble sets a back-off of 5 s to 60 s, and no tick runs a repair, or even asks for the csf lock, before
   * the back-off of every earlier trouble is over.
   */
  lemma NoRepairBeforeBackoff(g: seq<Guard>, ins: seq<In>, outs: seq<Out>, i: nat, k: nat)
    requires Run(g, ins, outs) && i < k < |ins| && outs[i].trouble
    ensures BACKOFF_MIN <= g[i + 1].back.delay <= BACKOFF_MAX
    ensures outs[k].consulted || outs[k].ran ==> ins[k].now >= ins[i].now + g[i + 1].back.delay
  {
    TroubleIsHonoured(g, ins, outs, i, k);
    BackoffOverRuns(g, ins, outs, k);
    StepHonours(g, ins, outs, k, ins[i].now, g[i + 1].back.delay, ins[k - 1].now);
  }

  // ---- csf over runs

  /** The look at j found p holding the lock, and so did every look after it, before k. */
  predicate HeldSince(ins: seq<In>, outs: seq<Out>, j: int, k: int, p: int)
    requires |outs| == |ins|
  {
    && 0 <= j < k <= |ins|
    && outs[j].consulted && ins[j].holder == Some(p)
    && forall m | j <= m < k && outs[m].consulted :: ins[m].holder == Some(p)
  }

  ghost predicate HeldLongEnough(ins: seq<In>, outs: seq<Out>, k: nat, p: int)
    requires |outs| == |ins| && k < |ins|
  {
    exists j :: HeldSince(ins, outs, j, k + 1, p) && ins[k].now - ins[j].now >= CSF_WAIT
  }

  /** The wait remembers the first look of the unbroken series that found the present holder. */
  ghost predicate Tracks(c: Csf, ins: seq<In>, outs: seq<Out>, k: nat, j: int)
    requires |outs| == |ins| && k <= |ins|
  {
    if c.since.None? then !c.forced && forall i, p :: !HeldSince(ins, outs, i, k, p)
    else
      && HeldSince(ins, outs, j, k, c.pid) && ins[j].now == c.since.value
      && (forall i, p :: HeldSince(ins, outs, i, k, p) ==> p == c.pid && c.since.value <= ins[i].now)
      && (c.forced ==> ins[k - 1].now - c.since.value >= CSF_WAIT)
  }

  lemma TracksStep(c: Csf, ins: seq<In>, outs: seq<Out>, k: nat, j: int) returns (j2: int)
    requires |outs| == |ins| && k < |ins| && Tracks(c, ins, outs, k, j)
    requires forall i | 0 <= i < k :: ins[i].now <= ins[k].now
    ensures Tracks(if outs[k].consulted then Observed(c, ins[k].now, ins[k].holder) else c, ins, outs, k + 1, j2)
  {
    var n := if outs[k].consulted then Observed(c, ins[k].now, ins[k].holder) else c;
    var e := k + 1;
    forall i, p
      ensures HeldSince(ins, outs, i, e, p) <==>
              if outs[k].consulted then ins[k].holder == Some(p) && (i == k || HeldSince(ins, outs, i, k, p))
              else HeldSince(ins, outs, i, k, p)
    {
    }
    j2 := if outs[k].consulted && ins[k].holder.Some? && (c.since.None? || ins[k].holder.value != c.pid) then k else j;
    assert n.since.Some? ==> HeldSince(ins, outs, j2, e, n.pid);
    assert Tracks(n, ins, outs, e, j2);
  }

  lemma {:induction false} CsfOverRuns(g: seq<Guard>, ins: seq<In>, outs: seq<Out>, k: nat) returns (j: int)
    requires Run(g, ins, outs) && k <= |ins|
    ensures Tracks(g[k].csf, ins, outs, k, j)
    decreases k
  {
    j := 0;
    if k > 0 {
      j := CsfOverRuns(g, ins, outs, k - 1);
      assert StepAt(g, ins, outs, k - 1);
      j := TracksStep(g[k - 1].csf, ins, outs, k - 1, j);
    }
  }

  /**
   * A tick that asks for the csf lock repairs if and only if the lock is free, or every look since one at least 2
   * minutes ago found the same process holding it: never in the first two minutes of a holder, and never longer.
   */
  lemma RunsIffCsfWaitIsOver(g: seq<Guard>, ins: seq<In>, outs: seq<Out>, k: nat)
    requires Run(g, ins, outs) && k < |ins| && outs[k].consulted
    ensures outs[k].ran <==> ins[k].holder.None? || HeldLongEnough(ins, outs, k, ins[k].holder.value)
  {
    assert StepAt(g, ins, outs, k);
    if ins[k].holder.Some? {
      var j := CsfOverRuns(g, ins, outs, k);
      var j2 := TracksStep(g[k].csf, ins, outs, k, j);
      var o := Observed(g[k].csf, ins[k].now, ins[k].holder);
      assert Tracks(o, ins, outs, k + 1, j2) && o.pid == ins[k].holder.value;
      if o.forced {
        assert HeldSince(ins, outs, j2, k + 1, o.pid);
      }
      if HeldLongEnough(ins, outs, k, o.pid) {
        var m :| HeldSince(ins, outs, m, k + 1, o.pid) && ins[k].now - ins[m].now >= CSF_WAIT;
        assert o.since.value <= ins[m].now;
      }
    }
  }

  // ---- the reports over runs

  /** Everything sent in the first n ticks. */
  function Sent(outs: seq<Out>, n: nat): seq<Event>
    requires n <= |outs|
  {
    if n == 0 then [] else Sent(outs, n - 1) + outs[n - 1].events
  }

  /** How many of the first n ticks repaired something. */
  function Repairs(outs: seq<Out>, n: nat): nat
    requires n <= |outs|
  {
    if n == 0 then 0 else Repairs(outs, n - 1) + if outs[n - 1].repaired then 1 else 0
  }

  function Reported(sent: seq<Event>): nat {
    if sent == [] then 0
    else Reported(sent[..|sent| - 1]) + if sent[|sent| - 1].Restored? then sent[|sent| - 1].count else 0
  }

  predicate Spaced(sent: seq<Event>) {
    && (forall i, j | 0 <= i < j < |sent| && sent[i].Restored? && sent[j].Restored? ::
          sent[j].at - sent[i].at >= EVENT_EVERY)
    && (forall i, j | 0 <= i < j < |sent| && sent[i].Conflict? && sent[j].Conflict? ::
          sent[j].at - sent[i].at >= CONFLICT_EVERY)
  }

  /** The last reports of each kind are known, and the reports keep their distances. */
  predicate Timely(lastEvent: Option<int>, lastConflict: Option<int>, sent: seq<Event>) {
    && Spaced(sent)
    && (forall i | 0 <= i < |sent| && sent[i].Restored? :: lastEvent.Some? && sent[i].at <= lastEvent.value)
    && (forall i | 0 <= i < |sent| && sent[i].Conflict? :: lastConflict.Some? && sent[i].at <= lastConflict.value)
  }

  /** The reports keep their distances, and the repairs are reported or pending. */
  predicate Logged(l: Log, sent: seq<Event>, repairs: nat) {
    Timely(l.lastEvent, l.lastConflict, sent) && Reported(sent) + l.pendingN == repairs
  }

  lemma ConflictIsTimely(lastEvent: Option<int>, lastConflict: Option<int>, sent: seq<Event>, e: Event)
    requires Timely(lastEvent, lastConflict, sent) && e.Conflict?
    requires lastConflict.None? || e.at - lastConflict.value >= CONFLICT_EVERY
    ensures Timely(lastEvent, Some(e.at), sent + [e])
  {
  }

  lemma FlushIsLogged(l: Log, sent: seq<Event>, repairs: nat, now: int)
    requires Logged(l, sent, repairs)
    ensures Logged(Flushed(l, now), sent + FlushEvents(l, now), repairs)
  {
    if EventIsDue(l, now) {
      var e := Restored(now, l.pendingN, l.pendingWhat);
    } else {
      assert sent + FlushEvents(l, now) == sent;
    }
  }

  lemma NoteIsLogged(l: Log, sent: seq<Event>, repairs: nat, now: int, what: seq<string>, backToBack: bool)
    requires Logged(l, sent, repairs)
    ensures Logged(Noted(l, now, what, backToBack), sent + NotedEvents(l, now, what, backToBack), repairs + 1)
  {
    var c := Counted(l, now, what);
    FlushIsLogged(c, sent, repairs + 1, now);
    ConflictIsLogged(Flushed(c, now), sent + FlushEvents(c, now), repairs + 1, now, backToBack);
    Sequences.ConcatAssoc(sent, FlushEvents(c, now), ConflictEvents(Flushed(c, now), now, backToBack));
  }

  lemma ConflictIsLogged(f: Log, sent: seq<Event>, repairs: nat, now: int, backToBack: bool)
    requires Logged(f, sent, repairs)
    ensures Logged(if ConflictIsDue(f, now, backToBack) then f.(lastConflict := Some(now)) else f,
                   sent + ConflictEvents(f, now, backToBack), repairs)
  {
    if ConflictIsDue(f, now, backToBack) {
      ConflictIsTimely(f.lastEvent, f.lastConflict, sent, Conflict(now, |f.repairs|, backToBack));
    } else {
      assert sent + [] == sent;
    }
  }

  lemma RepairIsLogged(l: Log, sent: seq<Event>, repairs: nat, now: int, what: seq<string>, backToBack: bool)
    requires Logged(l, sent, repairs)
    ensures Logged(Noted(Flushed(l, now), now, what, backToBack),
                   sent + (FlushEvents(l, now) + NotedEvents(Flushed(l, now), now, what, backToBack)), repairs + 1)
  {
    var first, second := FlushEvents(l, now), NotedEvents(Flushed(l, now), now, what, backToBack);
    FlushIsLogged(l, sent, repairs, now);
    NoteIsLogged(Flushed(l, now), sent + first, repairs, now, what, backToBack);
    assert sent + (first + second) == sent + first + second;
  }

  lemma TickIsLogged(g: Guard, i: In, sent: seq<Event>, repairs: nat)
    requires Logged(g.log, sent, repairs)
    ensures var n := Tick(g, i);
            Logged(n.g.log, sent + n.out.events, repairs + if n.out.repaired then 1 else 0)
  {
    TickAndLog(g, i);
    if Tick(g, i).out.repaired {
      RepairIsLogged(g.log, sent, repairs, i.now, i.ensured.repairs, TickIsBackToBack(g, i));
    } else {
      FlushIsLogged(g.log, sent, repairs, i.now);
    }
  }

  /** What the log says of the first n ticks is right. */
  predicate LoggedUpTo(g: seq<Guard>, outs: seq<Out>, n: nat)
    requires n < |g| && n <= |outs|
  {
    Logged(g[n].log, Sent(outs, n), Repairs(outs, n))
  }

  lemma StartIsLogged(g: seq<Guard>, ins: seq<In>, outs: seq<Out>)
    requires Run(g, ins, outs)
    ensures LoggedUpTo(g, outs, 0)
  {
  }

  lemma StepIsLogged(g: seq<Guard>, ins: seq<In>, outs: seq<Out>, k: nat)
    requires Run(g, ins, outs) && k < |ins| && LoggedUpTo(g, outs, k)
    ensures LoggedUpTo(g, outs, k + 1)
  {
    assert StepAt(g, ins, outs, k);
    TickIsLogged(g[k], ins[k], Sent(outs, k), Repairs(outs, k));
  }

  lemma {:induction false} LoggedOverRuns(g: seq<Guard>, ins: seq<In>, outs: seq<Out>, n: nat)
    requires Run(g, ins, outs) && n <= |ins|
    ensures LoggedUpTo(g, outs, n)
    decreases n
  {
    hide *;
    if n == 0 {
      StartIsLogged(g, ins, outs);
    } else {
      LoggedOverRuns(g, ins, outs, n - 1);
      StepIsLogged(g, ins, outs, n - 1);
    }
  }

  /**
   * Restore reports are at least a minute apart and conflict reports an hour, through any run; every repair is
   * counted in exactly one restore report or still pending.
   */
  lemma ReportsOverRuns(g: seq<Guard>, ins: seq<In>, outs: seq<Out>, n: nat)
    requires Run(g, ins, outs) && n <= |ins|
    ensures Spaced(Sent(outs, n)) && Reported(Sent(outs, n)) + g[n].log.pendingN == Repairs(outs, n)
    ensures Logged(g[n].log, Sent(outs, n), Repairs(outs, n))
  {
    LoggedOverRuns(g, ins, outs, n);
  }

  // ---- the repair times

  predicate Spread(repairs: seq<int>) {
    forall i | 0 <= i < |repairs| - 1 :: repairs[i + 1] - repairs[i] >= BACK_TO_BACK
  }

  /** At least 30 s apart, within an hour, none later than now. */
  predicate Kept(repairs: seq<int>, now: int) {
    Spread(repairs) && (repairs != [] ==> repairs[|repairs| - 1] <= now && repairs[|repairs| - 1] - repairs[0] < HOUR)
  }

  lemma {:induction false} SpreadIsLong(repairs: seq<int>)
    requires Spread(repairs) && repairs != []
    ensures repairs[|repairs| - 1] - repairs[0] >= BACK_TO_BACK * (|repairs| - 1)
    decreases |repairs|
  {
    if |repairs| > 1 {
      SpreadIsLong(repairs[..|repairs| - 1]);
    }
  }

  /** An hour has room for 120 repair times. */
  lemma KeptIsBounded(repairs: seq<int>, now: int)
    requires Kept(repairs, now)
    ensures |repairs| <= MAX_REPAIRS
  {
    if repairs != [] {
      SpreadIsLong(repairs);
    }
  }

  lemma {:induction false} RecentIsSpread(repairs: seq<int>, now: int)
    requires Spread(repairs)
    ensures var r := Recent(repairs, now);
            && Spread(r)
            && (r != [] ==> now - r[0] < HOUR && repairs != [] && r[|r| - 1] <= repairs[|repairs| - 1])
    decreases |repairs|
  {
    if repairs != [] {
      var init := repairs[..|repairs| - 1];
      RecentIsSpread(init, now);
      if init != [] {
        assert repairs[|init| - 1 + 1] - repairs[|init| - 1] >= BACK_TO_BACK;
      }
    }
  }

  lemma RepairIsKept(repairs: seq<int>, before: int, now: int)
    requires Kept(repairs, before) && before <= now
    ensures Kept(WithRepair(repairs, now), now)
  {
    RecentIsSpread(repairs, now);
  }

  lemma TickKeepsRepairs(g: Guard, i: In, before: int)
    requires Kept(g.log.repairs, before) && before <= i.now
    ensures Kept(Tick(g, i).g.log.repairs, i.now)
  {
    TickAndLog(g, i);
    RepairIsKept(g.log.repairs, before, i.now);
  }

  lemma StepKeepsRepairs(g: seq<Guard>, ins: seq<In>, outs: seq<Out>, k: nat, before: int)
    requires Run(g, ins, outs) && k < |ins| && Kept(g[k].log.repairs, before) && before <= ins[k].now
    ensures Kept(g[k + 1].log.repairs, ins[k].now)
  {
    assert StepAt(g, ins, outs, k);
    TickKeepsRepairs(g[k], ins[k], before);
  }

  /** At most 120 repair times are kept, whatever happens. */
  lemma {:induction false} RepairsOverRuns(g: seq<Guard>, ins: seq<In>, outs: seq<Out>, n: nat)
    requires Run(g, ins, outs) && n <= |ins|
    ensures |g[n].log.repairs| <= MAX_REPAIRS
    ensures n > 0 ==> Kept(g[n].log.repairs, ins[n - 1].now)
    decreases n
  {
    if n > 0 {
      RepairsOverRuns(g, ins, outs, n - 1);
      StepKeepsRepairs(g, ins, outs, n - 1, if n > 1 then ins[n - 2].now else ins[n - 1].now);
      KeptIsBounded(g[n].log.repairs, ins[n - 1].now);
    }
  }

  // ---- the code

  class GuardCell {
    var nextQuick: int
    var nextFull: int
    var followUp: Option<int>
    var lastRepair: Option<int>
    var back: Backoff
    var csf: Csf
    var log: Log

    ghost function State(): Guard
      reads this
    {
      Guard(nextQuick, nextFull, followUp, lastRepair, back, csf, log)
    }

    constructor (now: int)
      ensures State() == Start(now)
    {
      nextQuick, nextFull, followUp, lastRepair := now + QUICK, now + FULL, None, None;
      back, csf, log := Backoff(0, None, 0), Csf(0, None, false), Log([], None, None, 0, {});
    }

    /** trouble */
    method Trouble(now: int)
      modifies this`back
      ensures back == Troubled(old(back), now)
    {
      if back.delay == 0 {
        back := back.(delay := BACKOFF_MIN);
      } else if back.delay < BACKOFF_MAX {
        back := back.(delay := if 2 * back.delay < BACKOFF_MAX then 2 * back.delay else BACKOFF_MAX);
      }
      back := back.(retryAt := Some(now + back.delay), lastTrouble := now);
    }

    /** waitForCSF */
    method WaitForCSF(now: int, holder: Option<int>) returns (wait: bool)
      modifies this`csf
      ensures csf == Observed(old(csf), now, holder) && wait == Waits(old(csf), now, holder)
    {
      if holder.None? {
        csf := Csf(0, None, false);
        return false;
      }
      if holder.value != csf.pid || csf.since.None? {
        csf := Csf(holder.value, Some(now), false);
      }
      if csf.forced {
        return false;
      }
      if now - csf.since.value < CSF_WAIT {
        return true;
      }
      csf := csf.(forced := true);
      wait := false;
    }

    /** flushEvents */
    method FlushPending(now: int) returns (events: seq<Event>)
      modifies this`log
      ensures log == Flushed(old(log), now) && events == FlushEvents(old(log), now)
    {
      if log.pendingN == 0 || (log.lastEvent.Some? && now - log.lastEvent.value < EVENT_EVERY) {
        return [];
      }
      events := [Restored(now, log.pendingN, log.pendingWhat)];
      log := log.(lastEvent := Some(now), pendingN := 0, pendingWhat := {});
    }

    /** The repair times of the last hour, and this one unless the last is less than 30 s ago. */
    method RecentRepairs(now: int) returns (recent: seq<int>)
      ensures recent == WithRepair(log.repairs, now)
    {
      recent := [];
      for i := 0 to |log.repairs|
        invariant recent == Recent(log.repairs[..i], now)
      {
        assert log.repairs[..i + 1][..i] == log.repairs[..i];
        if now - log.repairs[i] < HOUR {
          recent := recent + [log.repairs[i]];
        }
      }
      assert log.repairs[..|log.repairs|] == log.repairs;
      if recent == [] || now - recent[|recent| - 1] >= BACK_TO_BACK {
        recent := recent + [now];
      }
    }

    /** noteRepair */
    method NoteRepair(now: int, what: seq<string>, backToBack: bool) returns (events: seq<Event>)
      modifies this`log
      ensures log == Noted(old(log), now, what, backToBack) && events == NotedEvents(old(log), now, what, backToBack)
    {
      var recent := RecentRepairs(now);
      log := log.(pendingN := log.pendingN + 1, pendingWhat := log.pendingWhat + (set w | w in what),
                 repairs := recent);
      assert log == Counted(old(log), now, what);
      events := FlushPending(now);
      if && (backToBack || |log.repairs| >= 3)
         && (log.lastConflict.None? || now - log.lastConflict.value >= CONFLICT_EVERY) {
        events := events + [Conflict(now, |log.repairs|, backToBack)];
        log := log.(lastConflict := Some(now));
      }
    }

    /** tick, after what is due is known: the repair unless the back-off or csf is in the way. */
    method AttemptRepair(due: Due, i: In) returns (out: Out)
      requires due != NotDue
      modifies this
      ensures Ticked(State(), out) == Attempt(old(State()), due, i)
    {
      if back.retryAt.Some? && i.now < back.retryAt.value {
        return IDLE;
      }
      var wait := WaitForCSF(i.now, i.holder);
      if wait {
        return Out(true, false, false, false, []);
      }
      if due == FollowUp {
        followUp := None;
      }
      if due == Full {
        nextFull := i.now + FULL;
      }
      match i.ensured
      case EnsureFailed =>
        Trouble(i.now);
        out := Out(true, true, true, false, []);
      case Done(first, what) =>
        if first || |what| == 0 {
          return Out(true, true, false, false, []);
        }
        if due == Quick {
          followUp := Some(i.now + FOLLOW_UP);
        }
        var backToBack := due != FollowUp && lastRepair.Some? && i.now - lastRepair.value < BACK_TO_BACK;
        lastRepair := Some(i.now);
        if backToBack {
          Trouble(i.now);
        }
        var events := NoteRepair(i.now, what, backToBack);
        out := Out(true, true, backToBack, true, events);
    }

    /** tick */
    method TickOnce(i: In) returns (out: Out)
      modifies this
      ensures Ticked(State(), out) == Tick(old(State()), i)
    {
      var events := FlushPending(i.now);
      if back.delay > 0 && i.now - back.lastTrouble >= QUIET {
        back := back.(delay := 0, retryAt := None);
      }
      assert State() == Begun(old(State()), i.now);
      if followUp.Some? && i.now >= followUp.value {
        out := AttemptRepair(FollowUp, i);
      } else if i.now >= nextFull {
        out := AttemptRepair(Full, i);
      } else if i.now >= nextQuick {
        match i.check
        case CheckFailed =>
          Trouble(i.now);
          nextQuick := back.retryAt.value;
          out := Out(false, false, true, false, []);
        case InPlace =>
          nextQuick := i.now + if 10 * i.took > QUICK then 10 * i.took else QUICK;
          out := IDLE;
        case Missing =>
          nextQuick := i.now + QUICK;
          out := AttemptRepair(Quick, i);
      } else {
        out := IDLE;
      }
      out := out.(events := events + out.events);
    }
  }
}
