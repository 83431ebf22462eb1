/**
 * What every tick of the firewall guard does (cmd/infrafence-agent/fwguard.go), told from what the ticks before it
 * saw and did: when a check is due, when it asks for the csf lock, repairs, backs off and reports.
 */
module GuardRules {
  import opened Collections
  import opened FirewallGuard
  import Sequences

  /** The inputs and outcomes of a guard's ticks since its start. */
  datatype History = History(start: int, ins: seq<In>, outs: seq<Out>)
  {
    predicate Holds(k: int) {
      0 <= k <= |ins| == |outs|
    }

    /** The last tick before k that was a trouble. */
    function Trouble(k: nat): (p: Option<nat>)
      requires Holds(k)
      ensures p.Some? ==> p.value < k && outs[p.value].trouble
      ensures forall m | (if p.Some? then p.value else -1) < m < k :: !outs[m].trouble
    {
      if k == 0 then None else if outs[k - 1].trouble then Some(k - 1) else Trouble(k - 1)
    }

    /** The back-off of the trouble at k: 5 s, or twice that of a trouble less than 5 minutes before, up to 60 s. */
    function Delay(k: nat): (d: int)
      requires Holds(k + 1)
      ensures 5 <= d <= 60
    {
      var p := Trouble(k);
      if p.None? || ins[k].now - ins[p.value].now >= 300 then 5
      else if 2 * Delay(p.value) < 60 then 2 * Delay(p.value)
      else 60
    }

    /** The back-off of the last trouble before k is over at now. */
    predicate IsOver(k: nat, now: int)
      requires Holds(k)
    {
      var p := Trouble(k);
      p.None? || now >= ins[p.value].now + Delay(p.value)
    }

    /** A follow-up is due 2 s after a quick look led to a repair, until one has run. */
    function FollowUpAt(k: nat): Option<int>
      requires Holds(k)
      decreases k, 0
    {
      if k == 0 then None
      else if outs[k - 1].ran && Kind(k - 1) == FollowUp then None
      else if outs[k - 1].repaired && Kind(k - 1) == Quick then Some(ins[k - 1].now + 2)
      else FollowUpAt(k - 1)
    }

    /** A full check is due a minute after the start or after the last one that ran. */
    function FullAt(k: nat): int
      requires Holds(k)
      decreases k, 0
    {
      if k == 0 then start + 60
      else if outs[k - 1].ran && Kind(k - 1) == Full then ins[k - 1].now + 60
      else FullAt(k - 1)
    }

    /**
     * A quick look is due 5 s after the start and after the last look, or later: ten times as long after a slow look
     * that found all in place, and the back-off after one that failed.
     */
    function LookAt(k: nat): int
      requires Holds(k)
      decreases k, 0
    {
      if k == 0 then start + 5
      else if Kind(k - 1) == Quick then
        ins[k - 1].now +
        match ins[k - 1].check
        case InPlace => if 10 * ins[k - 1].took > 5 then 10 * ins[k - 1].took else 5
        case Missing => 5
        case CheckFailed => Delay(k - 1)
      else LookAt(k - 1)
    }

    /** What is due first: a follow-up, a full check, a quick look. */
    function Kind(k: nat): Due
      requires Holds(k + 1)
      decreases k, 1
    {
      if FollowUpAt(k).Some? && ins[k].now >= FollowUpAt(k).value then FollowUp
      else if ins[k].now >= FullAt(k) then Full
      else if ins[k].now >= LookAt(k) then Quick
      else NotDue
    }

    predicate IsLook(k: nat)
      requires Holds(k + 1)
    {
      Kind(k) == Quick
    }

    /** Something was repaired less than 30 s before. */
    ghost predicate JustRepaired(k: nat)
      requires Holds(k + 1)
    {
      exists m | 0 <= m < k :: outs[m].repaired && ins[k].now - ins[m].now < 30
    }

    /** The time of the last repair before k. */
    function RepairedAt(k: nat): Option<int>
      requires Holds(k)
    {
      if k == 0 then None else if outs[k - 1].repaired then Some(ins[k - 1].now) else RepairedAt(k - 1)
    }
  }

  /** The back-off of the guard is that of the last trouble, or was forgotten after 5 minutes without one. */
  predicate BackoffKnown(b: Backoff, h: History, k: nat)
    requires h.Holds(k)
  {
    var p := h.Trouble(k);
    if p.None? then b.delay == 0 && b.retryAt.None?
    else
      && b.lastTrouble == h.ins[p.value].now
      && if b.delay == 0 then b.retryAt.None? && h.ins[k - 1].now - b.lastTrouble >= 300
         else b.delay == h.Delay(p.value) && b.retryAt == Some(b.lastTrouble + b.delay)
  }

  /** The guard's times are those the history gives. */
  predicate Known(g: Guard, h: History, k: nat)
    requires h.Holds(k)
  {
    && g.followUp == h.FollowUpAt(k) && g.nextFull == h.FullAt(k) && g.nextQuick == h.LookAt(k)
    && g.lastRepair == h.RepairedAt(k)
    && BackoffKnown(g.back, h, k)
  }

  /** What tick k did, all of it. */
  ghost predicate Exact(h: History, k: nat)
    requires h.Holds(k + 1)
  {
    var i, o, due := h.ins[k], h.outs[k], h.Kind(k);
    && (o.consulted <==> (due == FollowUp || due == Full || (due == Quick && i.check == Missing)) && h.IsOver(k, i.now))
    && (o.ran ==> o.consulted)
    && (o.repaired <==> o.ran && i.ensured.Done? && !i.ensured.first && i.ensured.repairs != [])
    && (o.trouble <==>
          || (due == Quick && i.check == CheckFailed)
          || (o.ran && i.ensured.EnsureFailed?)
          || (o.repaired && due != FollowUp && h.JustRepaired(k)))
  }

  lemma BegunKnown(g: Guard, h: History, k: nat)
    requires h.Holds(k + 1) && Known(g, h, k) && (k > 0 ==> h.ins[k - 1].now <= h.ins[k].now)
    ensures var b := Begun(g, h.ins[k].now);
            && WhatIsDue(b, h.ins[k].now) == h.Kind(k)
            && (FirewallGuard.Holds(b.back, h.ins[k].now) <==> !h.IsOver(k, h.ins[k].now))
            && Troubled(b.back, h.ins[k].now).delay == h.Delay(k)
            && IsBackToBack(b, h.Kind(k), h.ins[k].now) ==
               (h.Kind(k) != FollowUp && h.RepairedAt(k).Some? && h.ins[k].now - h.RepairedAt(k).value < 30)
  {
  }

  lemma {:induction false} LastRepairIsLatest(h: History, k: nat, now: int)
    requires h.Holds(k) && forall m | 0 <= m < k :: h.ins[m].now <= now
    requires forall m, n | 0 <= m < n < k :: h.ins[m].now <= h.ins[n].now
    ensures (h.RepairedAt(k).Some? && now - h.RepairedAt(k).value < 30) <==>
            exists m | 0 <= m < k :: h.outs[m].repaired && now - h.ins[m].now < 30
    decreases k
  {
    if k > 0 && !h.outs[k - 1].repaired {
      LastRepairIsLatest(h, k - 1, now);
    }
  }

  /** What a tick does to the times, by what was due and what it did. */
  lemma TickAndTimes(g: Guard, i: In)
    ensures var n, b := Tick(g, i), Begun(g, i.now);
            var due := WhatIsDue(b, i.now);
            && n.g.followUp == (if n.out.ran && due == FollowUp then None
                                else if n.out.repaired && due == Quick then Some(i.now + FOLLOW_UP) else g.followUp)
            && n.g.nextFull == (if n.out.ran && due == Full then i.now + FULL else g.nextFull)
            && n.g.lastRepair == (if n.out.repaired then Some(i.now) else g.lastRepair)
            && n.g.back == (if n.out.trouble then Troubled(b.back, i.now) else b.back)
  {
  }

  lemma TickAndLook(g: Guard, i: In)
    ensures var n, b := Tick(g, i), Begun(g, i.now);
            n.g.nextQuick ==
            if WhatIsDue(b, i.now) != Quick then g.nextQuick
            else match i.check {
                   case InPlace => i.now + if 10 * i.took > QUICK then 10 * i.took else QUICK
                   case Missing => i.now + QUICK
                   case CheckFailed => i.now + Troubled(b.back, i.now).delay
                 }
  {
  }

  lemma TickDecides(g: Guard, i: In)
    ensures var o, b := Tick(g, i).out, Begun(g, i.now);
            var due := WhatIsDue(b, i.now);
            && (o.consulted <==> (due == FollowUp || due == Full || (due == Quick && i.check == Missing))
                                 && !FirewallGuard.Holds(b.back, i.now))
            && (o.ran ==> o.consulted)
            && (o.repaired <==> o.ran && i.ensured.Done? && !i.ensured.first && i.ensured.repairs != [])
            && (o.trouble <==>
                  || (due == Quick && i.check == CheckFailed)
                  || (o.ran && i.ensured.EnsureFailed?)
                  || (o.repaired && IsBackToBack(b, due, i.now)))
  {
  }

  lemma TickIsExact(g: Guard, h: History, k: nat)
    requires h.Holds(k + 1) && Known(g, h, k) && IsForward(h, k) && Tick(g, h.ins[k]).out == h.outs[k]
    ensures Exact(h, k)
  {
    hide Tick, Begun, WhatIsDue, IsBackToBack, FirewallGuard.Holds;
    BegunKnown(g, h, k);
    TickDecides(g, h.ins[k]);
    LastRepairIsLatest(h, k, h.ins[k].now);
  }

  /** The clock does not go back up to tick k. */
  predicate IsForward(h: History, k: nat)
    requires h.Holds(k + 1)
  {
    forall m, n | 0 <= m < n <= k :: h.ins[m].now <= h.ins[n].now
  }

  lemma TickKeepsTimes(g: Guard, h: History, k: nat)
    requires h.Holds(k + 1) && Known(g, h, k) && IsForward(h, k) && Tick(g, h.ins[k]).out == h.outs[k]
    ensures var n := Tick(g, h.ins[k]).g;
            && n.followUp == h.FollowUpAt(k + 1) && n.nextFull == h.FullAt(k + 1)
            && n.lastRepair == h.RepairedAt(k + 1)
  {
    hide Tick, Begun, WhatIsDue;
    BegunKnown(g, h, k);
    TickAndTimes(g, h.ins[k]);
  }

  lemma TickKeepsLook(g: Guard, h: History, k: nat)
    requires h.Holds(k + 1) && Known(g, h, k) && IsForward(h, k)
    ensures Tick(g, h.ins[k]).g.nextQuick == h.LookAt(k + 1)
  {
    hide Tick, Begun, WhatIsDue;
    BegunKnown(g, h, k);
    TickAndLook(g, h.ins[k]);
  }

  lemma TickKeepsBackoff(g: Guard, h: History, k: nat)
    requires h.Holds(k + 1) && Known(g, h, k) && IsForward(h, k) && Tick(g, h.ins[k]).out == h.outs[k]
    ensures BackoffKnown(Tick(g, h.ins[k]).g.back, h, k + 1)
  {
    hide Tick, WhatIsDue;
    BegunKnown(g, h, k);
    TickAndTimes(g, h.ins[k]);
  }

  lemma TickKeepsAllTimes(g: Guard, h: History, k: nat)
    requires h.Holds(k + 1) && Known(g, h, k) && IsForward(h, k) && Tick(g, h.ins[k]).out == h.outs[k]
    ensures Known(Tick(g, h.ins[k]).g, h, k + 1)
  {
    hide Tick, BackoffKnown;
    TickKeepsTimes(g, h, k);
    TickKeepsLook(g, h, k);
    TickKeepsBackoff(g, h, k);
  }

  lemma StartIsKnown(h: History)
    requires h.Holds(0)
    ensures Known(Start(h.start), h, 0)
  {
  }

  lemma {:induction false} KnownOverRuns(g: seq<Guard>, h: History, k: nat)
    requires Run(g, h.ins, h.outs) && g[0] == Start(h.start) && k <= |h.ins|
    ensures Known(g[k], h, k)
    decreases k
  {
    if k > 0 {
      KnownOverRuns(g, h, k - 1);
      hide Tick, Known;
      assert StepAt(g, h.ins, h.outs, k - 1);
      TickKeepsAllTimes(g[k - 1], h, k - 1);
    } else {
      StartIsKnown(h);
    }
  }

  /**
   * Over every run: a tick asks for the csf lock if and only if a follow-up or a full check is due, or a quick look
   * that is due found a chain missing, and the back-off of the last trouble is over. It repairs what is missing when
   * it runs. It is a trouble if and only if the quick look or the repair failed, or, no follow-up, it repaired within
   * 30 s of another repair.
   */
  lemma TicksAreExact(g: seq<Guard>, h: History, k: nat)
    requires Run(g, h.ins, h.outs) && g[0] == Start(h.start) && k < |h.ins|
    ensures Exact(h, k)
  {
    KnownOverRuns(g, h, k);
    assert StepAt(g, h.ins, h.outs, k);
    TickIsExact(g[k], h, k);
  }

  // ---- a missing chain comes back

  /** From tick i to k a chain is missing, and nobody holds the csf lock. */
  predicate MissingFrom(h: History, i: nat, k: nat)
    requires h.Holds(k + 1)
  {
    forall j | i <= j <= k :: h.ins[j].check == Missing && h.ins[j].holder.None?
  }

  /** When the back-off that holds at tick i is over: the time of the tick itself without one. */
  function FreeAt(h: History, i: nat): int
    requires h.Holds(i + 1)
  {
    var p := h.Trouble(i);
    if h.IsOver(i, h.ins[i].now) then h.ins[i].now else h.ins[p.value].now + h.Delay(p.value)
  }

  /** A tick that finds a chain missing with something due runs Ensure unless the back-off holds. */
  lemma DueIsRun(g: seq<Guard>, h: History, k: nat)
    requires Run(g, h.ins, h.outs) && g[0] == Start(h.start) && k < |h.ins|
    requires h.ins[k].check == Missing && h.ins[k].holder.None?
    ensures h.outs[k].ran <==> h.Kind(k) != NotDue && h.IsOver(k, h.ins[k].now)
    ensures h.outs[k].trouble ==> h.outs[k].ran
  {
    TicksAreExact(g, h, k);
    if h.outs[k].consulted {
      RunsIffCsfWaitIsOver(g, h.ins, h.outs, k);
    }
  }

  /** While nothing runs, the next look is due at most 5 s after the back-off. */
  lemma {:induction false} LooksAgain(g: seq<Guard>, h: History, i: nat, k: nat)
    requires Run(g, h.ins, h.outs) && g[0] == Start(h.start) && i < k < |h.ins|
    requires h.IsLook(i) && MissingFrom(h, i, k) && forall j | i <= j < k :: !h.outs[j].ran
    ensures h.LookAt(k) <= FreeAt(h, i) + 5 && h.Trouble(k) == h.Trouble(i)
    decreases k
  {
    DueIsRun(g, h, k - 1);
    if i < k - 1 {
      LooksAgain(g, h, i, k - 1);
    }
  }

  /**
   * Once a quick look found a chain missing, and as long as one is and nobody holds the csf lock, Ensure runs: at
   * that look, or at the latest 5 s after the end of the back-off that holds then.
   */
  lemma MissingIsRepaired(g: seq<Guard>, h: History, i: nat, k: nat)
    requires Run(g, h.ins, h.outs) && g[0] == Start(h.start) && i <= k < |h.ins|
    requires h.IsLook(i) && MissingFrom(h, i, k) && h.ins[k].now >= FreeAt(h, i) + (if k == i then 0 else 5)
    ensures exists j | i <= j <= k :: h.outs[j].ran
  {
    DueIsRun(g, h, k);
    if k > i && forall j | i <= j < k :: !h.outs[j].ran {
      LooksAgain(g, h, i, k);
    }
  }

  // ---- the reports

  predicate Has(sent: seq<Event>, conflict: bool, at: int) {
    exists i | 0 <= i < |sent| :: sent[i].Conflict? == conflict && sent[i].at == at
  }

  /** A report of the kind less than d seconds before now. */
  predicate ReportedWithin(sent: seq<Event>, conflict: bool, d: int, now: int) {
    exists i | 0 <= i < |sent| :: sent[i].Conflict? == conflict && now - sent[i].at < d
  }

  /** The last report of a kind is the one remembered. */
  predicate LastIs(sent: seq<Event>, conflict: bool, last: Option<int>) {
    && (last.Some? ==> Has(sent, conflict, last.value))
    && forall i | 0 <= i < |sent| && sent[i].Conflict? == conflict :: last.Some? && sent[i].at <= last.value
  }

  /** All that was named in restore reports. */
  function Named(sent: seq<Event>): set<string> {
    if sent == [] then {}
    else Named(sent[..|sent| - 1]) + if sent[|sent| - 1].Restored? then sent[|sent| - 1].what else {}
  }

  /** All that was put back in the first n ticks. */
  function PutBack(ins: seq<In>, outs: seq<Out>, n: nat): set<string>
    requires n <= |ins| == |outs|
  {
    if n == 0 then {}
    else
      PutBack(ins, outs, n - 1) +
      if outs[n - 1].repaired && ins[n - 1].ensured.Done? then Members(ins[n - 1].ensured.repairs) else {}
  }

  /** What the log says of what was sent and put back. */
  predicate Told(l: Log, sent: seq<Event>, all: set<string>) {
    && LastIs(sent, false, l.lastEvent) && LastIs(sent, true, l.lastConflict)
    && Named(sent) + l.pendingWhat == all
  }

  lemma NamedMore(sent: seq<Event>, e: Event)
    ensures Named(sent + [e]) == Named(sent) + if e.Restored? then e.what else {}
  {
    assert (sent + [e])[..|sent|] == sent;
  }

  lemma LastIsMore(sent: seq<Event>, conflict: bool, last: Option<int>, e: Event)
    requires LastIs(sent, conflict, last) && (e.Conflict? == conflict ==> last.None? || last.value <= e.at)
    ensures LastIs(sent + [e], conflict, if e.Conflict? == conflict then Some(e.at) else last)
  {
    var all := sent + [e];
    assert all[|sent|] == e;
    if e.Conflict? != conflict && last.Some? {
      var i :| 0 <= i < |sent| && sent[i].Conflict? == conflict && sent[i].at == last.value;
      assert all[i] == sent[i];
    }
  }

  lemma FlushTells(l: Log, sent: seq<Event>, all: set<string>, now: int)
    requires Told(l, sent, all)
    ensures Told(Flushed(l, now), sent + FlushEvents(l, now), all)
  {
    if EventIsDue(l, now) {
      var e := Restored(now, l.pendingN, l.pendingWhat);
      NamedMore(sent, e);
      LastIsMore(sent, false, l.lastEvent, e);
      LastIsMore(sent, true, l.lastConflict, e);
    } else {
      assert sent + [] == sent;
    }
  }

  lemma ConflictTells(l: Log, sent: seq<Event>, all: set<string>, now: int, backToBack: bool)
    requires Told(l, sent, all)
    ensures Told(if ConflictIsDue(l, now, backToBack) then l.(lastConflict := Some(now)) else l,
                 sent + ConflictEvents(l, now, backToBack), all)
  {
    if ConflictIsDue(l, now, backToBack) {
      var e := Conflict(now, |l.repairs|, backToBack);
      NamedMore(sent, e);
      LastIsMore(sent, false, l.lastEvent, e);
      LastIsMore(sent, true, l.lastConflict, e);
    } else {
      assert sent + [] == sent;
    }
  }

  lemma RepairTells(l: Log, sent: seq<Event>, all: set<string>, now: int, what: seq<string>, backToBack: bool)
    requires Told(l, sent, all)
    ensures Told(Noted(l, now, what, backToBack), sent + NotedEvents(l, now, what, backToBack), all + Members(what))
  {
    var c := Counted(l, now, what);
    assert Named(sent) + (l.pendingWhat + Members(what)) == all + Members(what);
    FlushTells(c, sent, all + Members(what), now);
    ConflictTells(Flushed(c, now), sent + FlushEvents(c, now), all + Members(what), now, backToBack);
    Sequences.ConcatAssoc(sent, FlushEvents(c, now), ConflictEvents(Flushed(c, now), now, backToBack));
  }

  lemma TickTells(g: Guard, i: In, sent: seq<Event>, all: set<string>)
    requires Told(g.log, sent, all)
    ensures var n := Tick(g, i);
            Told(n.g.log, sent + n.out.events,
                 all + if n.out.repaired && i.ensured.Done? then Members(i.ensured.repairs) else {})
  {
    hide Tick, Told, Noted, NotedEvents;
    TickAndLog(g, i);
    var l, b := Flushed(g.log, i.now), TickIsBackToBack(g, i);
    FlushTells(g.log, sent, all, i.now);
    if Tick(g, i).out.repaired {
      RepairTells(l, sent + FlushEvents(g.log, i.now), all, i.now, i.ensured.repairs, b);
      Sequences.ConcatAssoc(sent, FlushEvents(g.log, i.now), NotedEvents(l, i.now, i.ensured.repairs, b));
    } else {
      assert all + {} == all;
    }
  }

  lemma {:induction false} ToldOverRuns(g: seq<Guard>, h: History, k: nat)
    requires Run(g, h.ins, h.outs) && g[0] == Start(h.start) && k <= |h.ins|
    ensures Told(g[k].log, Sent(h.outs, k), PutBack(h.ins, h.outs, k))
    decreases k
  {
    if k > 0 {
      ToldOverRuns(g, h, k - 1);
      assert StepAt(g, h.ins, h.outs, k - 1);
      TickTells(g[k - 1], h.ins[k - 1], Sent(h.outs, k - 1), PutBack(h.ins, h.outs, k - 1));
    }
  }

  lemma LastIsWithin(sent: seq<Event>, conflict: bool, last: Option<int>, d: int, now: int)
    requires LastIs(sent, conflict, last)
    ensures ReportedWithin(sent, conflict, d, now) <==> last.Some? && now - last.value < d
  {
  }

  /** The restore report of a tick is sent unless one was less than a minute before. */
  lemma NothingWaitsLong(g: Guard, i: In)
    ensures var l := Tick(g, i).g.log; l.pendingN > 0 ==> l.lastEvent.Some? && i.now - l.lastEvent.value < 60
  {
    TickAndLog(g, i);
  }

  /**
   * After every tick all repairs are in restore reports, unless one was sent less than a minute before; and exactly
   * what was put back is named in them or about to be.
   */
  lemma ReportsAreTimely(g: seq<Guard>, h: History, k: nat)
    requires Run(g, h.ins, h.outs) && g[0] == Start(h.start) && k < |h.ins|
    ensures var sent := Sent(h.outs, k + 1);
            && (Reported(sent) < Repairs(h.outs, k + 1) ==> ReportedWithin(sent, false, 60, h.ins[k].now))
            && Named(sent) + g[k + 1].log.pendingWhat == PutBack(h.ins, h.outs, k + 1)
  {
    hide LastIs, Named, PutBack, Reported, Repairs, Tick, Logged;
    ToldOverRuns(g, h, k + 1);
    ReportsOverRuns(g, h.ins, h.outs, k + 1);
    assert StepAt(g, h.ins, h.outs, k);
    NothingWaitsLong(g[k], h.ins[k]);
    LastIsWithin(Sent(h.outs, k + 1), false, g[k + 1].log.lastEvent, 60, h.ins[k].now);
  }

  /** The conflict report of a tick, if any. */
  predicate Conflicts(events: seq<Event>) {
    exists i | 0 <= i < |events| :: events[i].Conflict?
  }

  lemma TickConflicts(g: Guard, i: In)
    ensures var n := Tick(g, i);
            && (Conflicts(n.out.events) <==>
                  && n.out.repaired
                  && (TickIsBackToBack(g, i) || |n.g.log.repairs| >= 3)
                  && (g.log.lastConflict.None? || i.now - g.log.lastConflict.value >= 3600))
            && (forall j | 0 <= j < |n.out.events| && n.out.events[j].Conflict? ::
                  n.out.events[j] == Conflict(i.now, |n.g.log.repairs|, TickIsBackToBack(g, i)))
  {
    TickAndLog(g, i);
    var n, l, b := Tick(g, i), Flushed(g.log, i.now), TickIsBackToBack(g, i);
    if n.out.repaired {
      var f := Flushed(Counted(l, i.now, i.ensured.repairs), i.now);
      assert f.repairs == n.g.log.repairs && f.lastConflict == g.log.lastConflict;
      if ConflictIsDue(f, i.now, b) {
        assert n.out.events[|n.out.events| - 1] == Conflict(i.now, |f.repairs|, b);
      }
    }
  }

  /**
   * A tick reports a conflict if and only if it repairs, back to back or as one of three repair times kept, and no
   * conflict was reported within the hour before. The report says which.
   */
  lemma ConflictIff(g: seq<Guard>, h: History, k: nat)
    requires Run(g, h.ins, h.outs) && g[0] == Start(h.start) && k < |h.ins|
    ensures var backToBack := h.Kind(k) != FollowUp && h.JustRepaired(k);
            && (Conflicts(h.outs[k].events) <==>
                  && h.outs[k].repaired
                  && (backToBack || |g[k + 1].log.repairs| >= 3)
                  && !ReportedWithin(Sent(h.outs, k), true, 3600, h.ins[k].now))
            && (forall j | 0 <= j < |h.outs[k].events| && h.outs[k].events[j].Conflict? ::
                  h.outs[k].events[j] == Conflict(h.ins[k].now, |g[k + 1].log.repairs|, backToBack))
  {
    KnownOverRuns(g, h, k);
    ToldOverRuns(g, h, k);
    assert StepAt(g, h.ins, h.outs, k);
    BegunKnown(g[k], h, k);
    LastRepairIsLatest(h, k, h.ins[k].now);
    TickConflicts(g[k], h.ins[k]);
    LastIsWithin(Sent(h.outs, k), true, g[k].log.lastConflict, 3600, h.ins[k].now);
  }

  // ---- the repair times

  /** Every time kept is that of a repair. */
  predicate AreRepairs(repairs: seq<int>, h: History, k: nat)
    requires h.Holds(k)
  {
    forall i | 0 <= i < |repairs| :: IsRepair(repairs[i], h, k)
  }

  predicate IsRepair(t: int, h: History, k: nat)
    requires h.Holds(k)
  {
    exists m | 0 <= m < k :: h.outs[m].repaired && h.ins[m].now == t
  }

  /** A time kept, at t or less than 30 s before. */
  predicate IsKept(repairs: seq<int>, t: int) {
    exists i | 0 <= i < |repairs| :: repairs[i] <= t < repairs[i] + 30
  }

  /** The repairs before k within an hour of now, less the 30 s that one time stands for, are kept. */
  predicate AllKept(repairs: seq<int>, h: History, k: nat, now: int)
    requires h.Holds(k)
  {
    forall m | 0 <= m < k && h.outs[m].repaired && now - h.ins[m].now <= 3600 - 30 :: IsKept(repairs, h.ins[m].now)
  }

  lemma {:induction false} RecentIff(repairs: seq<int>, now: int, t: int)
    ensures t in Recent(repairs, now) <==> t in repairs && now - t < 3600
  {
    if repairs != [] {
      RecentIff(repairs[..|repairs| - 1], now, t);
      assert repairs == repairs[..|repairs| - 1] + [repairs[|repairs| - 1]];
    }
  }

  lemma RecentKeeps(repairs: seq<int>, now: int, t: int)
    requires IsKept(repairs, t) && now - t <= 3600 - 30
    ensures IsKept(WithRepair(repairs, now), t)
  {
    var i :| 0 <= i < |repairs| && repairs[i] <= t < repairs[i] + 30;
    RecentIff(repairs, now, repairs[i]);
    var r := Recent(repairs, now);
    var j :| 0 <= j < |r| && r[j] == repairs[i];
    assert WithRepair(repairs, now)[j] == repairs[i];
  }

  lemma NowIsKept(repairs: seq<int>, before: int, now: int)
    requires Kept(repairs, before) && before <= now
    ensures IsKept(WithRepair(repairs, now), now)
  {
    RepairIsKept(repairs, before, now);
    RecentIsSpread(repairs, now);
    var r, w := Recent(repairs, now), WithRepair(repairs, now);
    assert w[|w| - 1] <= now < w[|w| - 1] + 30;
  }

  lemma NoteKeepsRepairs(repairs: seq<int>, h: History, k: nat, before: int)
    requires h.Holds(k + 1) && h.outs[k].repaired && Kept(repairs, before) && before <= h.ins[k].now
    requires AreRepairs(repairs, h, k) && AllKept(repairs, h, k, h.ins[k].now)
    ensures AreRepairs(WithRepair(repairs, h.ins[k].now), h, k + 1)
    ensures AllKept(WithRepair(repairs, h.ins[k].now), h, k + 1, h.ins[k].now)
  {
    var now, w := h.ins[k].now, WithRepair(repairs, h.ins[k].now);
    NowIsKept(repairs, before, now);
    forall m | 0 <= m < k && h.outs[m].repaired && now - h.ins[m].now <= 3600 - 30
      ensures IsKept(w, h.ins[m].now)
    {
      RecentKeeps(repairs, now, h.ins[m].now);
    }
    forall i | 0 <= i < |w|
      ensures IsRepair(w[i], h, k + 1)
    {
      RecentIff(repairs, now, w[i]);
      if w[i] != now {
        assert w[i] in repairs;
        var j :| 0 <= j < |repairs| && repairs[j] == w[i];
        assert IsRepair(repairs[j], h, k);
      }
    }
  }

  lemma TickAndRepairs(g: Guard, i: In)
    ensures var n := Tick(g, i);
            n.g.log.repairs == if n.out.repaired then WithRepair(g.log.repairs, i.now) else g.log.repairs
  {
    TickAndLog(g, i);
  }

  lemma {:induction false} KeptSince(g: seq<Guard>, h: History, k: nat, now: int)
    requires Run(g, h.ins, h.outs) && g[0] == Start(h.start) && k <= |h.ins|
    requires forall m | 0 <= m < k :: h.ins[m].now <= now
    ensures AreRepairs(g[k].log.repairs, h, k) && AllKept(g[k].log.repairs, h, k, now)
    decreases k
  {
    if k > 0 {
      KeptSince(g, h, k - 1, h.ins[k - 1].now);
      TickKeepsAll(g, h, k - 1);
      RepairsStay(g[k].log.repairs, h, k, h.ins[k - 1].now, now);
    }
  }

  lemma TickKeepsAll(g: seq<Guard>, h: History, k: nat)
    requires Run(g, h.ins, h.outs) && k < |h.ins|
    requires AreRepairs(g[k].log.repairs, h, k) && AllKept(g[k].log.repairs, h, k, h.ins[k].now)
    ensures AreRepairs(g[k + 1].log.repairs, h, k + 1) && AllKept(g[k + 1].log.repairs, h, k + 1, h.ins[k].now)
  {
    hide Tick, Kept, WithRepair, IsKept;
    RepairsOverRuns(g, h.ins, h.outs, k);
    assert StepAt(g, h.ins, h.outs, k);
    TickAndRepairs(g[k], h.ins[k]);
    if h.outs[k].repaired {
      if k == 0 {
        NothingIsKept(g);
      }
      NoteKeepsRepairs(g[k].log.repairs, h, k, if k > 0 then h.ins[k - 1].now else h.ins[k].now);
    } else {
      assert forall t :: IsRepair(t, h, k) ==> IsRepair(t, h, k + 1);
    }
  }

  lemma NothingIsKept(g: seq<Guard>)
    requires |g| > 0 && exists start :: g[0] == Start(start)
    ensures forall now :: Kept(g[0].log.repairs, now)
  {
  }

  lemma RepairsStay(repairs: seq<int>, h: History, k: nat, before: int, now: int)
    requires h.Holds(k) && before <= now && AllKept(repairs, h, k, before)
    ensures AllKept(repairs, h, k, now)
  {
  }

  /**
   * The times kept after a repair are those of repairs, and each repair of the last hour is within 30 s after one
   * that is kept; the bound of 120 does not cut any off.
   */
  lemma RepairTimesAreKept(g: seq<Guard>, h: History, k: nat)
    requires Run(g, h.ins, h.outs) && g[0] == Start(h.start) && k < |h.ins|
    ensures AreRepairs(g[k + 1].log.repairs, h, k + 1)
    ensures AllKept(g[k + 1].log.repairs, h, k + 1, h.ins[k].now)
  {
    KeptSince(g, h, k + 1, h.ins[k].now);
  }
}
