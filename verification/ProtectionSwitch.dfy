/**
 * Switching protection off after a day of refusal, and on again (cmd/infrafence-agent/refusal.go). The
 * check and the switch-off are two steps: answers may arrive between them.
 */
module ProtectionSwitch {
  import opened RefusalGate

  const REFUSAL_LIMIT := 24 * HOUR
  const REFUSAL_RECENT := HOUR

  /** What a passed check saw: the clock, the first mark of its streak, all marks so far, and when it was. */
  datatype Check = NoCheck | Passed(since: int, last: int, start: nat, marks: nat, at: int)

  datatype Protection = Protection(agent: Agent, off: bool, savedOff: bool, check: Check)

  datatype Happening =
    | Request(e: Event)
    | CheckRefusal(t: int)
    | SwitchOff(t: int)
    | SwitchOn

  /** Restarts and saves are events of the agent; only the switch itself makes the gate idle. */
  predicate Can(p: Protection, h: Happening) {
    match h
    case Request(e) => Happens(p.agent, e) && !e.SetIdle?
    case CheckRefusal(t) => p.agent.clock <= t
    case SwitchOff(t) => p.agent.clock <= t && p.check.Passed?
    case SwitchOn => true
  }

  predicate TurnsOff(p: Protection, t: int) {
    !p.off && RefusedFor(p.agent.gate, t, REFUSAL_RECENT) != 0
  }

  function Idle(a: Agent, on: bool): Agent {
    After(a, SetIdle(on))
  }

  function Next(p: Protection, h: Happening): Protection
    requires Can(p, h)
  {
    match h
    case Request(e) =>
      var q := p.(agent := After(p.agent, e));
      if e.Save? then q.(savedOff := p.off)
      else if e.Restart? then q.(agent := Idle(q.agent, p.savedOff), off := p.savedOff, check := NoCheck)
      else q
    case CheckRefusal(t) =>
      var a := p.agent.(clock := t);
      if p.check.NoCheck? && !p.off && RefusedFor(a.gate, t, REFUSAL_RECENT) >= REFUSAL_LIMIT then
        p.(agent := a, check := Passed(a.gate.since.ms, a.gate.last.ms, a.start, |a.marks|, t))
      else p.(agent := a)
    case SwitchOff(t) =>
      var q := p.(agent := p.agent.(clock := t), check := NoCheck);
      if TurnsOff(p, t) then q.(agent := Idle(q.agent, true), off := true) else q
    case SwitchOn => if p.off then p.(agent := Idle(p.agent, false), off := false) else p
  }

  const Beginning := Protection(Start, false, false, NoCheck)

  predicate Runs(p: Protection, hs: seq<Happening>)
    decreases |hs|
  {
    hs == [] || (Can(p, hs[0]) && Runs(Next(p, hs[0]), hs[1..]))
  }

  /** Every restart finds a current file. */
  predicate FilesCurrentIn(p: Protection, hs: seq<Happening>)
    requires Runs(p, hs)
    decreases |hs|
  {
    hs == [] ||
    ((hs[0].Request? && hs[0].e.Restart? ==> !Outdated(p.agent)) && FilesCurrentIn(Next(p, hs[0]), hs[1..]))
  }

  function End(p: Protection, hs: seq<Happening>): Protection
    requires Runs(p, hs)
    decreases |hs|
  {
    if hs == [] then p else End(Next(p, hs[0]), hs[1..])
  }

  /** The latest refusal by the dashboard among the marks from n on, before if there is none. */
  function LatestJson(marks: seq<Mark>, n: nat, before: int): int
    requires n <= |marks|
  {
    var ts := JsonTimes(marks[n..]);
    if ts == [] then before else ts[|ts| - 1]
  }

  /** Since the check nothing was accepted or left unanswered, and the dashboard refused at least once an hour. */
  predicate Quiet(marks: seq<Mark>, c: Check)
    requires c.Passed? && c.marks <= |marks|
  {
    Unbroken(marks, c.marks) && Close([c.last] + JsonTimes(marks[c.marks..]))
  }

  /** While it stays quiet the clock is the one the check saw; any clock that runs later started after the check. */
  predicate CheckSound(a: Agent, c: Check)
    requires c.Passed?
  {
    && c.start < c.marks <= |a.marks|
    && c.since <= c.at - REFUSAL_LIMIT && c.last <= c.at <= a.clock
    && (Quiet(a.marks, c) ==>
          a.start == c.start && a.gate.since == At(c.since) && a.gate.last == At(LatestJson(a.marks, c.marks, c.last)))
    && (!Quiet(a.marks, c) && a.gate.since.At? ==> a.start >= c.marks && a.gate.since.ms >= c.at)
  }

  /** The clock is sound; off means idle; since a check the clock is the one it saw or a later one. */
  predicate SwitchSound(p: Protection) {
    && ClockSound(p.agent) && FileSound(p.agent)
    && (p.off <==> p.agent.gate.idle)
    && (p.check.Passed? ==> CheckSound(p.agent, p.check))
  }

  /** One more mark keeps it quiet when it is a refusal, and by the dashboard only within the hour. */
  lemma QuietStep(marks: seq<Mark>, m: Mark, c: Check)
    requires c.Passed? && c.marks <= |marks|
    ensures Quiet(marks + [m], c) <==>
              Quiet(marks, c) && (m.Foreign? || (m.Json? && m.t - LatestJson(marks, c.marks, c.last) <= CLOCK_GAP))
    ensures LatestJson(marks + [m], c.marks, c.last) == if m.Json? then m.t else LatestJson(marks, c.marks, c.last)
  {
    var ts, more := JsonTimes(marks[c.marks..]), JsonTimes((marks + [m])[c.marks..]);
    JsonTimesStep(marks, m, c.marks);
    assert more == if m.Json? then ts + [m.t] else ts;
    assert Unbroken(marks + [m], c.marks) <==> Unbroken(marks, c.marks) && (m.Json? || m.Foreign?) by {
      assert (marks + [m])[|marks|] == m;
      assert forall i | 0 <= i < |marks| :: (marks + [m])[i] == marks[i];
    }
    if m.Json? {
      CloseStep([c.last] + ts, m.t);
      assert [c.last] + more == [c.last] + ts + [m.t];
      assert ([c.last] + ts)[|ts|] == LatestJson(marks, c.marks, c.last);
    }
  }

  lemma CloseStep(ts: seq<int>, t: int)
    requires ts != []
    ensures Close(ts + [t]) <==> Close(ts) && t - ts[|ts| - 1] <= CLOCK_GAP
  {
    var more := ts + [t];
    assert forall i | 0 <= i < |ts| :: more[i] == ts[i];
    if Close(more) {
      assert more[|ts|] - more[|ts| - 1] <= CLOCK_GAP;
      assert forall i | 0 < i < |ts| :: more[i] - more[i - 1] <= CLOCK_GAP;
    }
  }

  /** How a refusal moves the clock: it starts, starts again, or goes on. */
  lemma RefusalMovesClock(a: Agent, e: Event)
    requires Happens(a, e) && e.GotRefusal?
    ensures var b := After(a, e);
            && b.gate.idle == a.gate.idle
            && |b.marks| >= |a.marks| && b.clock == e.t2
            && ((b.gate.since == a.gate.since && b.start == a.start)
                || (b.gate.since == At(e.t0) && b.start == |a.marks|))
  {
  }

  lemma RefusalKeepsCheck(a: Agent, c: Check, e: Event)
    requires ClockSound(a) && c.Passed? && CheckSound(a, c) && Happens(a, e) && e.GotRefusal?
    ensures CheckSound(After(a, e), c)
  {
    RefusalMovesClock(a, e);
    if Refusal(e.status) {
      QuietStep(a.marks, if e.body.dashboard then Json(e.t0) else Foreign(e.t0), c);
    }
  }

  lemma RequestKeepsCheck(a: Agent, c: Check, e: Event)
    requires ClockSound(a) && c.Passed? && CheckSound(a, c) && Happens(a, e) && !e.Restart?
    ensures CheckSound(After(a, e), c)
  {
    match e
    case GotRefusal(_, _, _, _, _, _, _) => RefusalKeepsCheck(a, c, e);
    case GotAccepted(t) => QuietStep(a.marks, Accepted(t), c);
    case GotNothing(t) => QuietStep(a.marks, NoAnswer(t), c);
    case _ =>
  }

  /** A check that passes now sees the running clock. */
  lemma NewCheckIsSound(a: Agent, t: int)
    requires ClockSound(a) && a.clock == t && RefusedFor(a.gate, t, REFUSAL_RECENT) >= REFUSAL_LIMIT
    ensures CheckSound(a, Passed(a.gate.since.ms, a.gate.last.ms, a.start, |a.marks|, t))
  {
    assert a.marks[|a.marks|..] == [];
  }

  lemma RequestStaysSound(p: Protection, e: Event)
    requires SwitchSound(p) && Can(p, Request(e)) && (e.Restart? ==> !Outdated(p.agent))
    ensures SwitchSound(Next(p, Request(e)))
  {
    StaysSound(p.agent, e);
    if p.check.Passed? && !e.Restart? {
      RequestKeepsCheck(p.agent, p.check, e);
    }
    if !e.Restart? {
      KeepsIdle(p.agent, e);
    }
  }

  lemma KeepsIdle(a: Agent, e: Event)
    requires Happens(a, e) && !e.SetIdle? && !e.Restart?
    ensures After(a, e).gate.idle == a.gate.idle
  {
  }

  lemma CheckStaysSound(p: Protection, t: int)
    requires SwitchSound(p) && Can(p, CheckRefusal(t))
    ensures SwitchSound(Next(p, CheckRefusal(t)))
  {
    if p.check.NoCheck? && RefusedFor(p.agent.gate, t, REFUSAL_RECENT) >= REFUSAL_LIMIT {
      NewCheckIsSound(p.agent.(clock := t), t);
    }
  }

  lemma NextStaysSound(p: Protection, h: Happening)
    requires SwitchSound(p) && Can(p, h)
    requires h.Request? && h.e.Restart? ==> !Outdated(p.agent)
    ensures SwitchSound(Next(p, h))
  {
    match h
    case Request(e) => RequestStaysSound(p, e);
    case CheckRefusal(t) => CheckStaysSound(p, t);
    case _ =>
  }

  /** Over every run the gate is idle exactly while protection is off, and the clocks stay sound. */
  lemma {:induction false} SwitchSoundOverRuns(p: Protection, hs: seq<Happening>)
    requires SwitchSound(p) && Runs(p, hs) && FilesCurrentIn(p, hs)
    ensures SwitchSound(End(p, hs))
    decreases |hs|
  {
    if hs != [] {
      NextStaysSound(p, hs[0]);
      SwitchSoundOverRuns(Next(p, hs[0]), hs[1..]);
    }
  }

  /**
   * When protection goes off within 24 hours of the check, 24 hours of refusal are behind it if and only if it
   * stayed quiet since the check; later also when the clock that started after the check has run for 24 hours again.
   * Then there were at least 24 refusals by the dashboard without a break. The code does not ask for the 24 hours
   * again, only that some clock runs.
   */
  lemma OffIsJustifiedIff(hs: seq<Happening>, t: int)
    requires Runs(Beginning, hs) && FilesCurrentIn(Beginning, hs)
    requires Can(End(Beginning, hs), SwitchOff(t)) && TurnsOff(End(Beginning, hs), t)
    ensures var p := End(Beginning, hs);
            && p.agent.gate.since.At? && p.check.marks <= |p.agent.marks|
            && (Quiet(p.agent.marks, p.check) <==> p.agent.gate.since.ms == p.check.since)
            && (t < p.check.at + REFUSAL_LIMIT ==>
                  (RefusedFor(p.agent.gate, t, HOUR) >= REFUSAL_LIMIT <==> Quiet(p.agent.marks, p.check)))
            && (RefusedFor(p.agent.gate, t, HOUR) >= REFUSAL_LIMIT <==>
                  Quiet(p.agent.marks, p.check) || t >= p.agent.gate.since.ms + REFUSAL_LIMIT)
            && (RefusedFor(p.agent.gate, t, HOUR) >= REFUSAL_LIMIT ==> LongRefusal(p.agent.marks, t, 24))
  {
    SwitchSoundOverRuns(Beginning, hs);
    var p := End(Beginning, hs);
    if RefusedFor(p.agent.gate, t, HOUR) >= REFUSAL_LIMIT {
      StreakIsLong(p.agent, t, 24);
    }
  }

  /**
   * Protection goes off exactly when the second look finds a refusal by the dashboard within the last hour, with the
   * clock running before it; on again by the switch; and it comes back from a restart as it was saved.
   */
  lemma SwitchIsExact(p: Protection, t: int)
    ensures Can(p, SwitchOff(t)) ==>
              var g, q := p.agent.gate, Next(p, SwitchOff(t));
              (q.off <==>
                 || p.off
                 || (&& g.since.At? && g.last.At? && t - g.last.ms <= 3600000 && t != g.since.ms
                     && (g.unreachable.At? ==> g.unreachable.ms < g.last.ms)))
              && (q.off && !p.off ==> q.agent.gate.idle)
    ensures var q := Next(p, SwitchOn); !q.off && (p.off ==> !q.agent.gate.idle)
    ensures Can(p, Request(Restart(t))) ==>
              var q := Next(p, Request(Restart(t)));
              q.off == p.savedOff && q.agent.gate.idle == p.savedOff && q.check.NoCheck?
    ensures Next(p, Request(Save)).savedOff == p.off && Next(p, Request(Save)).off == p.off
  {
  }

  /**
   * Whenever a check has passed, an accepted request followed by a single refusal still lets the switch-off
   * through, with a clock as short as the time since that refusal.
   */
  lemma AcceptedBetweenCheckAndOff(p: Protection, t1: int, t2: int, t3: int)
    requires p.check.Passed? && !p.off && p.agent.clock <= t1 <= t2 < t3 <= t2 + HOUR
    requires p.agent.gate.unreachable.At? ==> p.agent.gate.unreachable.ms < t2
    ensures var e := GotRefusal(401, Body(true, false), t2, t2, t2, 0.0, 0.0);
            && Can(p, Request(GotAccepted(t1)))
            && var q := Next(p, Request(GotAccepted(t1)));
            && Can(q, Request(e))
            && var r := Next(q, Request(e));
            && TurnsOff(r, t3) && RefusedFor(r.agent.gate, t3, HOUR) == t3 - t2
            && r.agent.marks == p.agent.marks + [Accepted(t1), Json(t2)]
  {
    var q := Next(p, Request(GotAccepted(t1)));
    assert q.agent.gate.since.Never? && q.agent.gate.failures == 0;
  }

  // ---- a check can pass: a refusal every hour for a day

  function Hourly(a: Agent, n: nat): Agent
    requires 0 < a.clock
    decreases n
  {
    if n == 0 then a
    else
      var t := a.clock + HOUR;
      Hourly(After(a, GotRefusal(401, Body(true, false), t, t, t, 0.0, 0.0)), n - 1)
  }

  lemma {:induction false} HourlyKeepsClock(a: Agent, n: nat)
    requires 0 < a.clock && a.gate.since.At? && a.gate.last == At(a.clock) && a.gate.unreachable.Never?
    ensures var b := Hourly(a, n);
            b.gate.since == a.gate.since && b.gate.last == At(b.clock) && b.clock == a.clock + n * HOUR
            && b.gate.unreachable.Never?
    decreases n
  {
    if n > 0 {
      var t := a.clock + HOUR;
      HourlyKeepsClock(After(a, GotRefusal(401, Body(true, false), t, t, t, 0.0, 0.0)), n - 1);
    }
  }

  /** After a first refusal, 24 more at hourly distance make the check pass. */
  lemma DayOfRefusalPassesCheck()
    ensures var p := Beginning.(agent := Hourly(After(Start, FirstRefusal), 24));
            && Can(p, CheckRefusal(p.agent.clock))
            && Next(p, CheckRefusal(p.agent.clock)).check.Passed?
  {
    var first := After(Start, FirstRefusal);
    HourlyKeepsClock(first, 24);
  }
}
