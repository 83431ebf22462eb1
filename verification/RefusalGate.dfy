/**
 * The gate every request to the dashboard waits on, and its refusal clock (internal/backoff/gate.go).
 * Times are milliseconds; None is the zero time.
 */
module RefusalGate {
  import opened Arithmetic

  const MIN_WAIT := 60 * 1000
  const MAX_WAIT := 30 * 60 * 1000
  const SUSPENDED_WAIT := 30 * 60 * 1000
  const HOUR := 60 * 60 * 1000
  const CLOCK_GAP := HOUR

  datatype Time = Never | At(ms: int)

  /** What a reply's body says: a JSON object, as the dashboard answers, and whether it says "suspended". */
  datatype Body = Body(dashboard: bool, saysSuspended: bool)

  datatype Gate = Gate(failures: nat, until: int, code: int, suspended: bool, since: Time, last: Time,
                       unreachable: Time, idle: bool)

  const NewGate := Gate(0, 0, 0, false, Never, Never, Never, false)

  predicate Refusal(status: int) {
    status == 401 || status == 403
  }

  predicate IsSuspended(status: int, body: Body) {
    status == 403 && body.saysSuspended
  }

  function Doubled(n: nat): nat {
    if n == 0 then MIN_WAIT else 2 * Doubled(n - 1)
  }

  /** The wait after the n-th refusal in a row, r a random number of [0, 1). */
  function Delay(n: int, r: real): int
    requires 0.0 <= r < 1.0
  {
    var k := if n < 1 then 1 else n;
    var base := if k > 6 || Doubled(k - 1) > MAX_WAIT then MAX_WAIT else Doubled(k - 1);
    var d := base + (r * base as real / 5.0).Floor;
    var e := if d > MAX_WAIT then MAX_WAIT - (r * MAX_WAIT as real / 10.0).Floor else d;
    if e < MIN_WAIT then MIN_WAIT else e
  }

  /** The refusal clock after the dashboard's own answer at now; other bodies leave it alone. */
  function Tick(g: Gate, now: int, body: Body): Gate {
    if !body.dashboard then g
    else
      var stale := g.since.At? && (g.last.Never? || now - g.last.ms > CLOCK_GAP);
      g.(since := if g.since.Never? || stale then At(now) else g.since, last := At(now))
  }

  /** The requests sent when a wait ended are one try: another refusal of that round changes nothing. */
  predicate SameRound(g: Gate, now: int, status: int, suspended: bool) {
    g.failures > 0 && now < g.until && suspended == g.suspended && status == g.code
  }

  /** The wait a counted refusal imposes; r1 and r2 are the two random numbers drawn. */
  function NewWait(g: Gate, suspended: bool, r1: real, r2: real): int
    requires 0.0 <= r1 < 1.0 && 0.0 <= r2 < 1.0
  {
    if suspended || g.idle then SUSPENDED_WAIT - (r2 * SUSPENDED_WAIT as real / 10.0).Floor
    else Delay(g.failures + 1, r1)
  }

  /** Refused reads its clock three times: for the refusal clock, for the round, for the wait. */
  function Refused(g: Gate, status: int, body: Body, t0: int, t1: int, t2: int, r1: real, r2: real): (r: (Gate, int))
    requires 0.0 <= r1 < 1.0 && 0.0 <= r2 < 1.0
  {
    if !Refusal(status) then (g, 0)
    else
      var suspended := IsSuspended(status, body);
      var h := Tick(g, t0, body);
      if SameRound(h, t1, status, suspended) then (h, h.until - t1)
      else
        var wait := NewWait(h, suspended, r1, r2);
        (h.(failures := h.failures + 1, code := status, suspended := suspended, until := t2 + wait), wait)
  }

  function ClearClock(g: Gate): Gate {
    g.(since := Never, last := Never)
  }

  function OK(g: Gate): Gate {
    var h := ClearClock(g);
    if h.failures == 0 then h else h.(failures := 0, code := 0, suspended := false, until := 0)
  }

  function Unreachable(g: Gate, now: int): Gate {
    ClearClock(g.(unreachable := At(now)))
  }

  function RestoreClock(g: Gate, now: int, since: Time, last: Time): Gate {
    if since.Never? || last.Never? || now - last.ms > CLOCK_GAP then g else g.(since := since, last := last)
  }

  function RefusedFor(g: Gate, now: int, within: int): int {
    if g.since.Never? || g.last.Never? || now - g.last.ms > within then 0
    else if g.unreachable.At? && g.unreachable.ms >= g.last.ms then 0
    else now - g.since.ms
  }

  function Wait(g: Gate, now: int): int {
    if g.failures == 0 || g.until - now < 0 then 0 else g.until - now
  }

  // ---- waits

  lemma RandomPart(r: real, b: real)
    requires 0.0 <= r < 1.0 && b >= 0.0
    ensures 0.0 <= r * b <= b
  {
  }

  /** The share of base that a random number adds or takes off. */
  lemma Share(r: real, base: nat)
    requires 0.0 <= r < 1.0
    ensures 0 <= (r * base as real / 5.0).Floor <= base / 5
    ensures 0 <= (r * base as real / 10.0).Floor <= base / 10
  {
    RandomPart(r, base as real);
    FloorOfPart(r * base as real, base);
  }

  lemma FloorOfPart(x: real, base: nat)
    requires 0.0 <= x <= base as real
    ensures 0 <= (x / 5.0).Floor <= base / 5
    ensures 0 <= (x / 10.0).Floor <= base / 10
  {
    var f, g := (x / 5.0).Floor, (x / 10.0).Floor;
    assert f as real <= x / 5.0 && g as real <= x / 10.0;
    assert (5 * f) as real <= x && (10 * g) as real <= x;
  }

  /** Delay doubles from a minute, with up to a fifth added, and stays between a minute and half an hour. */
  lemma DelayBounds(n: int, r: real)
    requires 0.0 <= r < 1.0
    ensures MIN_WAIT <= Delay(n, r) <= MAX_WAIT
    ensures 1 <= n <= 5 ==> Doubled(n - 1) <= Delay(n, r) <= Doubled(n - 1) + Doubled(n - 1) / 5
    ensures n >= 6 ==> Delay(n, r) >= MAX_WAIT - MAX_WAIT / 10
  {
    assert Doubled(1) == 120000 && Doubled(2) == 240000 && Doubled(3) == 480000 && Doubled(4) == 960000;
    assert Doubled(5) == 1920000;
    var k := if n < 1 then 1 else n;
    var base := if k > 6 || Doubled(k - 1) > MAX_WAIT then MAX_WAIT else Doubled(k - 1);
    assert k == 1 || k == 2 || k == 3 || k == 4 || k == 5 || base == MAX_WAIT;
    Share(r, base);
    Share(r, MAX_WAIT);
  }

  /** The wait in force never reaches further than half an hour past the latest clock reading. */
  predicate WaitBounded(g: Gate, clock: int) {
    g.failures > 0 ==> g.until <= clock + MAX_WAIT
  }

  /** A refusal imposes and returns a wait of at most half an hour; each new one is at least a minute. */
  lemma RefusedWaits(g: Gate, status: int, body: Body, t0: int, t1: int, t2: int, r1: real, r2: real)
    requires 0.0 <= r1 < 1.0 && 0.0 <= r2 < 1.0 && t0 <= t1 <= t2 && WaitBounded(g, t0)
    ensures var (h, wait) := Refused(g, status, body, t0, t1, t2, r1, r2);
            && WaitBounded(h, t2)
            && 0 <= wait <= MAX_WAIT
            && (h.failures > g.failures ==> wait >= MIN_WAIT && h.until == t2 + wait)
            && (Refusal(status) && (g.idle || IsSuspended(status, body)) && h.failures > g.failures ==>
                  wait >= SUSPENDED_WAIT - SUSPENDED_WAIT / 10)
  {
    Share(r2, SUSPENDED_WAIT);
    DelayBounds(Tick(g, t0, body).failures + 1, r1);
  }

  /**
   * A reply is counted if and only if it is a 401 or 403 and no wait for the same kind of refusal runs; any other
   * refusal of that round is told to wait as long as the others and changes nothing but the clock.
   */
  lemma CountedIff(g: Gate, status: int, body: Body, t0: int, t1: int, t2: int, r1: real, r2: real)
    requires 0.0 <= r1 < 1.0 && 0.0 <= r2 < 1.0
    ensures var (h, wait) := Refused(g, status, body, t0, t1, t2, r1, r2);
            var refuses, suspended := status == 401 || status == 403, status == 403 && body.saysSuspended;
            var waits := g.failures > 0 && t1 < g.until && g.code == status && g.suspended == suspended;
            && (refuses && !waits ==>
                  h.failures == g.failures + 1 && h.until == t2 + wait && h.code == status && h.suspended == suspended)
            && (!refuses || waits ==>
                  h.failures == g.failures && h.until == g.until && h.code == g.code && h.suspended == g.suspended)
            && (refuses && waits ==> wait == g.until - t1)
            && (!refuses ==> wait == 0 && h == g)
            && h.idle == g.idle && h.unreachable == g.unreachable
  {
  }

  /** When the next refusal after h can come: t, or the end of the wait. */
  function NextTry(h: Gate, t: int): int {
    if h.failures > 0 && h.until > t then h.until else t
  }

  /** Refusals that follow one another, each after the wait of the one before; none is a suspension. */
  function RefusedInARow(g: Gate, n: nat, t: int, body: Body, r: real): Gate
    requires 0.0 <= r < 1.0
    decreases n
  {
    if n == 0 then g
    else
      var h := RefusedInARow(g, n - 1, t, body, r);
      var now := NextTry(h, t);
      Refused(h, 401, body, now, now, now, r, r).0
  }

  lemma {:induction false} RowIsCounted(g: Gate, n: nat, t: int, body: Body, r: real)
    requires 0.0 <= r < 1.0
    ensures var h := RefusedInARow(g, n, t, body, r);
            h.failures == g.failures + n && h.idle == g.idle
    decreases n
  {
    if n > 0 {
      RowIsCounted(g, n - 1, t, body, r);
    }
  }

  lemma {:induction false} DoubledIsPower(n: nat)
    ensures Doubled(n) == 60000 * Pow2(n)
  {
    if n > 0 {
      DoubledIsPower(n - 1);
    }
  }

  lemma NextIsCounted(h: Gate, t: int, body: Body, r: real)
    requires 0.0 <= r < 1.0 && !h.idle
    ensures var now := NextTry(h, t);
            Wait(Refused(h, 401, body, now, now, now, r, r).0, now) == Delay(h.failures + 1, r)
  {
    DelayBounds(h.failures + 1, r);
  }

  /**
   * After an accepted request nothing waits; then the waits double over refusals in a row: the n-th is a minute times
   * 2 to the n-1 and up to a fifth more, from the sixth on nearly half an hour.
   */
  lemma WaitsDouble(g: Gate, n: nat, t: int, body: Body, r: real)
    requires 0.0 <= r < 1.0 && !g.idle && n > 0
    ensures Wait(OK(g), t) == 0
    ensures var now := NextTry(RefusedInARow(OK(g), n - 1, t, body, r), t);
            var wait := Wait(RefusedInARow(OK(g), n, t, body, r), now);
            && (n <= 5 ==> 60000 * Pow2(n - 1) <= wait <= 60000 * Pow2(n - 1) + 12000 * Pow2(n - 1))
            && (n >= 6 ==> 27 * 60000 <= wait <= 30 * 60000)
  {
    hide Delay, Refused;
    RowIsCounted(OK(g), n - 1, t, body, r);
    NextIsCounted(RefusedInARow(OK(g), n - 1, t, body, r), t, body, r);
    DelayBounds(n, r);
    DoubledIsPower(n - 1);
  }

  /** A request without an answer ends the clock, and a refusal in the same instant does not count against it. */
  lemma NoAnswerEndsClock(g: Gate, t: int, now: int, within: int, body: Body, r: real)
    requires 0.0 <= r < 1.0
    ensures RefusedFor(Unreachable(g, t), now, within) == 0
    ensures RefusedFor(Refused(Unreachable(g, t), 401, body, t, t, t, r, r).0, now, within) == 0
  {
  }

  // ---- the refusal clock over whole histories, restarts included

  /** What happened, in order: the dashboard's own refusal, another one, an accepted request, no answer. */
  datatype Mark = Json(t: int) | Foreign(t: int) | Accepted(t: int) | NoAnswer(t: int)

  /** The clock as the state file keeps it, in whole seconds; its streak's first mark and all marks so far. */
  datatype Saved = Nothing | Clock(since: int, last: int, start: nat, upTo: nat)

  /** The agent with its history: its gate, the mark the running streak began with, the file, the time. */
  datatype Agent = Agent(gate: Gate, start: nat, saved: Saved, marks: seq<Mark>, clock: int)

  datatype Event =
    | GotRefusal(status: int, body: Body, t0: int, t1: int, t2: int, r1: real, r2: real)
    | GotAccepted(t: int)
    | GotNothing(t: int)
    | SetIdle(on: bool)
    | Save
    | Restart(t: int)

  function Seconds(ms: int): int {
    ms - ms % 1000
  }

  /** The clock moves forward and the random numbers are of [0, 1). */
  predicate Happens(a: Agent, e: Event) {
    match e
    case GotRefusal(_, _, t0, t1, t2, r1, r2) => a.clock <= t0 <= t1 <= t2 && 0.0 <= r1 < 1.0 && 0.0 <= r2 < 1.0
    case GotAccepted(t) => a.clock <= t
    case GotNothing(t) => a.clock <= t
    case Restart(t) => a.clock <= t
    case _ => true
  }

  /** The file keeps a clock only when both its times are after the epoch. */
  function ToDisk(a: Agent): Saved {
    if a.gate.since.Never? || a.gate.last.Never? || Seconds(a.gate.since.ms) <= 0 then Nothing
    else Clock(Seconds(a.gate.since.ms), Seconds(a.gate.last.ms), a.start, |a.marks|)
  }

  function After(a: Agent, e: Event): Agent
    requires Happens(a, e)
  {
    match e
    case GotRefusal(status, body, t0, t1, t2, r1, r2) =>
      var g := Refused(a.gate, status, body, t0, t1, t2, r1, r2).0;
      if !Refusal(status) then a.(clock := t2)
      else if !body.dashboard then a.(gate := g, marks := a.marks + [Foreign(t0)], clock := t2)
      else a.(gate := g, start := if g.since == a.gate.since then a.start else |a.marks|,
              marks := a.marks + [Json(t0)], clock := t2)
    case GotAccepted(t) => a.(gate := OK(a.gate), marks := a.marks + [Accepted(t)], clock := t)
    case GotNothing(t) => a.(gate := Unreachable(a.gate, t), marks := a.marks + [NoAnswer(t)], clock := t)
    case SetIdle(on) => a.(gate := a.gate.(idle := on))
    case Save => a.(saved := ToDisk(a))
    case Restart(t) =>
      match a.saved
      case Nothing => a.(gate := NewGate, clock := t)
      case Clock(since, last, start, _) =>
        a.(gate := RestoreClock(NewGate, t, At(since), At(last)), start := start, clock := t)
  }

  /** The times of the dashboard's own refusals. */
  function JsonTimes(marks: seq<Mark>): seq<int> {
    if marks == [] then []
    else JsonTimes(marks[..|marks| - 1]) + if marks[|marks| - 1].Json? then [marks[|marks| - 1].t] else []
  }

  /** No accepted request and no unanswered one from start on. */
  predicate Unbroken(marks: seq<Mark>, start: nat) {
    forall i | start <= i < |marks| :: marks[i].Json? || marks[i].Foreign?
  }

  predicate Close(ts: seq<int>) {
    forall i | 0 < i < |ts| :: ts[i] - ts[i - 1] <= CLOCK_GAP
  }

  /** since and last stand for an unbroken run of refusals that began with mark start. */
  predicate Streak(marks: seq<Mark>, start: nat, since: int, last: int) {
    && start < |marks| && marks[start].Json?
    && Unbroken(marks, start)
    && since <= last
    && var ts := JsonTimes(marks[start..]);
    && ts != [] && Close(ts)
    && (since == ts[0] || since == Seconds(ts[0]))
    && last <= ts[|ts| - 1]
  }

  lemma JsonTimesStep(marks: seq<Mark>, m: Mark, start: nat)
    requires start <= |marks|
    ensures JsonTimes((marks + [m])[start..]) == JsonTimes(marks[start..]) + if m.Json? then [m.t] else []
  {
    var tail := (marks + [m])[start..];
    assert tail[..|tail| - 1] == marks[start..];
  }

  /** Another refusal continues a streak when it comes within an hour of its latest one. */
  lemma StreakContinues(marks: seq<Mark>, start: nat, since: int, last: int, m: Mark)
    requires Streak(marks, start, since, last)
    requires m.Foreign? || (m.Json? && last <= m.t && m.t - last <= CLOCK_GAP)
    ensures Streak(marks + [m], start, since, last)
    ensures m.Json? ==> Streak(marks + [m], start, since, m.t)
  {
    JsonTimesStep(marks, m, start);
  }

  lemma StreakBegins(marks: seq<Mark>, m: Mark)
    requires m.Json?
    ensures Streak(marks + [m], |marks|, m.t, m.t)
  {
    assert (marks + [m])[|marks|..] == [m];
  }

  /** The running clock stands for an unbroken streak. */
  predicate ClockSound(a: Agent) {
    && (a.gate.since.Never? <==> a.gate.last.Never?)
    && (a.gate.since.At? ==> a.gate.last.ms <= a.clock && Streak(a.marks, a.start, a.gate.since.ms, a.gate.last.ms))
  }

  /** A request was accepted, or found no answer, since the file was written. */
  predicate Outdated(a: Agent) {
    a.saved.Clock? && !Unbroken(a.marks, a.saved.upTo)
  }

  /** The saved clock stood for an unbroken streak, and still does while it is not outdated and may be restored. */
  predicate FileSound(a: Agent) {
    a.saved.Clock? ==>
      && a.saved.start < a.saved.upTo <= |a.marks|
      && Unbroken(a.marks[..a.saved.upTo], a.saved.start)
      && a.saved.last <= a.clock
      && (!Outdated(a) && a.clock - a.saved.last <= CLOCK_GAP ==>
            Streak(a.marks, a.saved.start, a.saved.since, a.saved.last))
  }

  lemma FileStaysSound(a: Agent, m: Mark, clock: int)
    requires FileSound(a) && a.clock <= clock && (m.Json? ==> a.clock <= m.t <= clock)
    ensures var b := a.(marks := a.marks + [m], clock := clock); FileSound(b)
  {
    var b := a.(marks := a.marks + [m], clock := clock);
    if a.saved.Clock? {
      assert b.marks[..a.saved.upTo] == a.marks[..a.saved.upTo];
      if !Outdated(b) && b.clock - a.saved.last <= CLOCK_GAP {
        assert b.marks[|a.marks|] == m;
        assert forall i | a.saved.upTo <= i < |a.marks| :: b.marks[i] == a.marks[i];
        StreakContinues(a.marks, a.saved.start, a.saved.since, a.saved.last, m);
      }
    }
  }

  lemma RefusalStaysSound(a: Agent, e: Event)
    requires ClockSound(a) && FileSound(a) && Happens(a, e) && e.GotRefusal?
    ensures ClockSound(After(a, e)) && FileSound(After(a, e))
  {
    if Refusal(e.status) {
      var m := if e.body.dashboard then Json(e.t0) else Foreign(e.t0);
      FileStaysSound(a, m, e.t2);
      if a.gate.since.At? && (m.Foreign? || e.t0 - a.gate.last.ms <= CLOCK_GAP) {
        StreakContinues(a.marks, a.start, a.gate.since.ms, a.gate.last.ms, m);
      } else if m.Json? {
        StreakBegins(a.marks, m);
      }
    }
  }

  /** Everything keeps the clocks sound, except a restart from an outdated file. */
  lemma StaysSound(a: Agent, e: Event)
    requires ClockSound(a) && FileSound(a) && Happens(a, e)
    requires e.Restart? ==> !Outdated(a)
    ensures ClockSound(After(a, e)) && FileSound(After(a, e))
  {
    match e
    case GotRefusal(_, _, _, _, _, _, _) => RefusalStaysSound(a, e);
    case GotAccepted(t) => FileStaysSound(a, Accepted(t), t);
    case GotNothing(t) => FileStaysSound(a, NoAnswer(t), t);
    case SetIdle(_) =>
    case Save =>
      if a.gate.since.At? {
        assert a.marks[..|a.marks|] == a.marks;
      }
    case Restart(_) =>
  }

  /** A run of events from a fresh start. */
  predicate Valid(a: Agent, es: seq<Event>)
    decreases |es|
  {
    es == [] || (Happens(a, es[0]) && Valid(After(a, es[0]), es[1..]))
  }

  /** Every restart finds a file that was written after the latest accepted or unanswered request. */
  predicate FilesCurrent(a: Agent, es: seq<Event>)
    requires Valid(a, es)
    decreases |es|
  {
    es == [] || ((es[0].Restart? ==> !Outdated(a)) && FilesCurrent(After(a, es[0]), es[1..]))
  }

  function AfterAll(a: Agent, es: seq<Event>): Agent
    requires Valid(a, es)
    decreases |es|
  {
    if es == [] then a else AfterAll(After(a, es[0]), es[1..])
  }

  const Start := Agent(NewGate, 0, Nothing, [], 0)

  lemma {:induction false} SoundOverRuns(a: Agent, es: seq<Event>)
    requires ClockSound(a) && FileSound(a) && Valid(a, es) && FilesCurrent(a, es)
    ensures ClockSound(AfterAll(a, es)) && FileSound(AfterAll(a, es))
    decreases |es|
  {
    if es != [] {
      StaysSound(a, es[0]);
      SoundOverRuns(After(a, es[0]), es[1..]);
    }
  }

  /** Over every run, restarts included, no wait the gate imposes is longer than half an hour. */
  lemma {:induction false} WaitsOverRuns(a: Agent, es: seq<Event>, now: int)
    requires WaitBounded(a.gate, a.clock) && Valid(a, es) && now >= AfterAll(a, es).clock
    ensures Wait(AfterAll(a, es).gate, now) <= MAX_WAIT
    decreases |es|
  {
    if es != [] {
      if es[0].GotRefusal? {
        RefusedWaits(a.gate, es[0].status, es[0].body, es[0].t0, es[0].t1, es[0].t2, es[0].r1, es[0].r2);
      }
      WaitsOverRuns(After(a, es[0]), es[1..], now);
    }
  }

  /**
   * The history up to now ends in at least n refusals by the dashboard itself, each at most an hour after
   * the previous one and the last at most an hour ago, with no accepted or unanswered request in between.
   */
  ghost predicate LongRefusal(marks: seq<Mark>, now: int, n: nat) {
    exists start: nat ::
      && start < |marks| && marks[start].Json? && Unbroken(marks, start)
      && var ts := JsonTimes(marks[start..]);
      && |ts| >= n && ts != [] && Close(ts) && now - ts[|ts| - 1] <= HOUR
  }

  lemma {:induction false} CloseSpan(ts: seq<int>)
    requires ts != [] && Close(ts)
    ensures ts[|ts| - 1] - ts[0] <= (|ts| - 1) * CLOCK_GAP
  {
    if |ts| > 1 {
      CloseSpan(ts[..|ts| - 1]);
    }
  }

  /**
   * Unbroken refusal: over any run whose restarts find current files, a refusal counted as n hours with
   * answers fresh within the hour stands for at least n refusals without a break.
   */
  lemma RefusedForIsUnbroken(es: seq<Event>, now: int, n: nat)
    requires Valid(Start, es) && FilesCurrent(Start, es) && n > 0
    requires now >= AfterAll(Start, es).clock && RefusedFor(AfterAll(Start, es).gate, now, HOUR) >= n * HOUR
    ensures LongRefusal(AfterAll(Start, es).marks, now, n)
  {
    SoundOverRuns(Start, es);
    StreakIsLong(AfterAll(Start, es), now, n);
  }

  lemma StreakIsLong(a: Agent, now: int, n: nat)
    requires ClockSound(a) && n > 0 && RefusedFor(a.gate, now, HOUR) >= n * HOUR
    ensures LongRefusal(a.marks, now, n)
  {
    assert a.gate.since.At?;
    var ts := JsonTimes(a.marks[a.start..]);
    CloseSpan(ts);
    assert now - ts[0] > n * HOUR - 1000;
    assert now - ts[|ts| - 1] <= HOUR;
    assert |ts| >= n;
  }

  /**
   * A restart that takes the saved clock back stands for an unbroken streak exactly when the file is not
   * outdated: an acceptance between the last save and the restart is forgotten.
   */
  lemma RestartKeepsStreakIffFileCurrent(a: Agent, t: int)
    requires FileSound(a) && a.clock <= t && a.saved.Clock? && t - a.saved.last <= CLOCK_GAP
    ensures var b := After(a, Restart(t));
            && b.gate.since == At(a.saved.since)
            && (Unbroken(b.marks, b.start) <==> !Outdated(a))
  {
    if Outdated(a) {
      var i :| a.saved.upTo <= i < |a.marks| && !(a.marks[i].Json? || a.marks[i].Foreign?);
      assert !Unbroken(a.marks, a.saved.start);
    }
  }

  lemma RunsFrom(a: Agent, e: Event, rest: seq<Event>)
    requires Happens(a, e) && Valid(After(a, e), rest)
    ensures Valid(a, [e] + rest) && AfterAll(a, [e] + rest) == AfterAll(After(a, e), rest)
  {
    assert ([e] + rest)[1..] == rest;
  }

  const FirstRefusal := GotRefusal(401, Body(true, false), 5000, 5000, 5000, 0.0, 0.0)

  /** Such a run: refused, saved, accepted, restarted; the clock then counts across the acceptance. */
  lemma OutdatedFileExample() returns (es: seq<Event>)
    ensures Valid(Start, es)
    ensures RefusedFor(AfterAll(Start, es).gate, 8000, HOUR) == 3000
    ensures AfterAll(Start, es).marks == [Json(5000), Accepted(6000)]
  {
    var a1 := After(Start, FirstRefusal);
    var a2 := After(a1, Save);
    var a3 := After(a2, GotAccepted(6000));
    RunsFrom(a3, Restart(7000), []);
    RunsFrom(a2, GotAccepted(6000), [Restart(7000)]);
    RunsFrom(a1, Save, [GotAccepted(6000)] + [Restart(7000)]);
    RunsFrom(Start, FirstRefusal, [Save] + ([GotAccepted(6000)] + [Restart(7000)]));
    es := [FirstRefusal] + ([Save] + ([GotAccepted(6000)] + [Restart(7000)]));
    assert [Restart(7000)] + [] == [Restart(7000)];
  }

  // ---- the gate with its fields

  class GateCell {
    var failures: nat
    var until: int
    var code: int
    var suspended: bool
    var since: Time
    var last: Time
    var unreachable: Time
    var idle: bool

    ghost function View(): Gate
      reads this
    {
      Gate(failures, until, code, suspended, since, last, unreachable, idle)
    }

    constructor ()
      ensures View() == NewGate
    {
      failures, until, code, suspended, idle := 0, 0, 0, false, false;
      since, last, unreachable := Never, Never, Never;
    }

    /** A 401 or 403 reply; the wait it imposes, and whether the refusal clock started. */
    method NoteRefused(status: int, body: Body, t0: int, t1: int, t2: int, r1: real, r2: real)
      returns (wait: int, notify: bool)
      requires 0.0 <= r1 < 1.0 && 0.0 <= r2 < 1.0
      modifies this
      ensures (View(), wait) == Refused(old(View()), status, body, t0, t1, t2, r1, r2)
      ensures notify <==>
                && Refusal(status) && body.dashboard
                && (old(since).Never? || old(last).Never? || t0 - old(last).ms > CLOCK_GAP)
      ensures !notify ==> since == old(since)
    {
      notify := false;
      if !Refusal(status) {
        return 0, false;
      }
      var says := IsSuspended(status, body);
      if body.dashboard {
        if since.At? && (last.Never? || t0 - last.ms > CLOCK_GAP) {
          since := Never;
        }
        if since.Never? {
          since, notify := At(t0), true;
        }
        last := At(t0);
      }
      if failures > 0 && t1 < until && says == suspended && status == code {
        return until - t1, notify;
      }
      failures := failures + 1;
      code, suspended := status, says;
      wait := Delay(failures, r1);
      if says || idle {
        wait := SUSPENDED_WAIT - (r2 * SUSPENDED_WAIT as real / 10.0).Floor;
      }
      until := t2 + wait;
    }

    method NoteOK() returns (wasRefused: bool)
      modifies this
      ensures View() == OK(old(View()))
      ensures wasRefused == (old(failures) > 0)
    {
      since, last := Never, Never;
      if failures == 0 {
        return false;
      }
      failures, code, suspended, until := 0, 0, false, 0;
      return true;
    }

    method NoteUnreachable(now: int)
      modifies this
      ensures View() == Unreachable(old(View()), now)
    {
      unreachable := At(now);
      since, last := Never, Never;
    }

    method Restore(now: int, savedSince: Time, savedLast: Time)
      modifies this
      ensures View() == RestoreClock(old(View()), now, savedSince, savedLast)
    {
      if savedSince.Never? || savedLast.Never? || now - savedLast.ms > CLOCK_GAP {
        return;
      }
      since, last := savedSince, savedLast;
    }
  }
}
