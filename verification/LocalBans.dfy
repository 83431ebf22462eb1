/**
 * The bans the agent made itself, until the dashboard lists them (cmd/infrafence-agent/protstate.go). Times are
 * seconds; zero marks a ban not reported yet.
 */
module LocalBans {
  import opened Collections

  const MAX_WAITING := 5000
  const GRACE := 600

  datatype Item = Item(at: int, reported: int)

  type Outbox = map<nat, Item>

  /** The ban waits longest; with equal times any of them. */
  predicate IsOldest(o: Outbox, v: nat) {
    v in o && forall k | k in o :: o[v].at <= o[k].at
  }

  /**
   * What happens to the outbox, one held lock each, and the moments between them that matter: Send is the report
   * of a ban on its way to the dashboard and Mark the note that it was accepted; Judge is the moment
   * flushLocalBans finds that a ban is not in force or that the dashboard rejects it, and Drop the deletion.
   */
  datatype Step = Note(ip: nat, now: int, displaced: Option<nat>) | Send(ip: nat) | Mark(ip: nat, now: int)
    | Judge(ip: nat) | Drop(ip: nat) | Cleanup(listed: set<nat>, now: int)

  /** Room is made whenever the outbox is full, also for an address that already waits. */
  predicate Possible(o: Outbox, s: Step) {
    match s
    case Note(_, _, displaced) =>
      if |o| >= MAX_WAITING then displaced.Some? && IsOldest(o, displaced.value) else displaced.None?
    case Mark(_, now) => now > 0
    case _ => true
  }

  function Apply(o: Outbox, s: Step): Outbox {
    match s
    case Note(ip, now, displaced) => (if displaced.Some? then o - {displaced.value} else o)[ip := Item(now, 0)]
    case Send(_) => o
    case Mark(ip, now) => if ip in o then o[ip := o[ip].(reported := now)] else o
    case Judge(_) => o
    case Drop(ip) => o - {ip}
    case Cleanup(listed, now) => map ip | ip in Kept(o, listed, now) :: o[ip]
  }

  /** The bans a cleanup spares. */
  function Kept(o: Outbox, listed: set<nat>, now: int): set<nat> {
    set ip | ip in o && ip !in listed && (o[ip].reported == 0 || now - o[ip].reported < GRACE)
  }

  predicate Runs(o: Outbox, steps: seq<Step>)
    decreases |steps|
  {
    steps == [] || (Runs(o, steps[..|steps| - 1]) && Possible(After(o, steps[..|steps| - 1]), steps[|steps| - 1]))
  }

  function After(o: Outbox, steps: seq<Step>): Outbox {
    if steps == [] then o else Apply(After(o, steps[..|steps| - 1]), steps[|steps| - 1])
  }

  lemma RunsMore(o: Outbox, steps: seq<Step>, s: Step)
    requires Runs(o, steps) && Possible(After(o, steps), s)
    ensures Runs(o, steps + [s]) && After(o, steps + [s]) == Apply(After(o, steps), s)
  {
    assert (steps + [s])[..|steps|] == steps;
  }

  /** The steps are a run, and s is possible after it. */
  predicate Continues(o: Outbox, steps: seq<Step>, s: Step) {
    Runs(o, steps) && Possible(After(o, steps), s)
  }

  lemma {:induction false} ContinuesUpTo(o: Outbox, steps: seq<Step>, k: nat)
    requires Runs(o, steps) && k < |steps|
    ensures Continues(o, steps[..k], steps[k])
    decreases |steps|
  {
    var init := steps[..|steps| - 1];
    if k < |init| {
      ContinuesUpTo(o, init, k);
      assert init[..k] == steps[..k] && init[k] == steps[k];
    } else {
      assert steps[..k] == init;
    }
  }

  /** The steps up to k of a run are a run, and step k is possible then. */
  lemma RunsUpTo(o: Outbox, steps: seq<Step>, k: nat)
    requires Runs(o, steps) && k < |steps|
    ensures Runs(o, steps[..k]) && Possible(After(o, steps[..k]), steps[k])
    ensures After(o, steps[..k + 1]) == Apply(After(o, steps[..k]), steps[k])
  {
    hide *;
    ContinuesUpTo(o, steps, k);
    StepIsTaken(o, steps[..k], steps[k]);
    assert steps[..k + 1] == steps[..k] + [steps[k]];
  }

  lemma StepIsTaken(o: Outbox, steps: seq<Step>, s: Step)
    requires Continues(o, steps, s)
    ensures Runs(o, steps) && Possible(After(o, steps), s)
    ensures After(o, steps + [s]) == Apply(After(o, steps), s)
  {
    RunsMore(o, steps, s);
  }

  // ---- when a ban is settled, told from the steps alone

  predicate Notes(steps: seq<Step>, i: int, ip: nat) {
    0 <= i < |steps| && steps[i].Note? && steps[i].ip == ip
  }

  predicate Marks(steps: seq<Step>, i: int, ip: nat) {
    0 <= i < |steps| && steps[i].Mark? && steps[i].ip == ip
  }

  /** The last mark of the ban noted at i before step k. */
  function LastMark(steps: seq<Step>, i: nat, k: nat, ip: nat): (j: Option<nat>)
    requires i < k <= |steps|
    ensures j.Some? ==> i < j.value < k && Marks(steps, j.value, ip)
    ensures forall m | (if j.Some? then j.value else i) < m < k :: !Marks(steps, m, ip)
  {
    if k == i + 1 then None
    else if Marks(steps, k - 1, ip) then Some(k - 1)
    else LastMark(steps, i, k - 1, ip)
  }

  /** The ban noted at i was marked as reported before step k, the last time ten minutes before now. */
  predicate LongReported(steps: seq<Step>, i: nat, k: nat, ip: nat, now: int)
    requires i < k <= |steps|
  {
    var j := LastMark(steps, i, k, ip);
    j.Some? && now - steps[j.value].now >= GRACE
  }

  /** Step k settles the ban noted at i: listed, long reported and not listed, dropped, or displaced as the oldest. */
  predicate Settles(steps: seq<Step>, i: nat, k: nat, ip: nat)
    requires i < k < |steps|
  {
    match steps[k]
    case Note(other, _, displaced) => displaced == Some(ip) && other != ip
    case Drop(x) => x == ip
    case Cleanup(listed, now) => ip in listed || LongReported(steps, i, k, ip, now)
    case _ => false
  }

  /** The ban noted at i is the latest of its address and unsettled before step k. */
  predicate Pending(steps: seq<Step>, i: nat, k: nat, ip: nat) {
    && Notes(steps, i, ip) && i < k <= |steps|
    && forall m | i < m < k :: !Notes(steps, m, ip) && !Settles(steps, i, m, ip)
  }

  /** The record of a pending ban carries the time it was noted and that of its last mark. */
  predicate Recorded(o: Outbox, steps: seq<Step>, i: nat, k: nat, ip: nat)
    requires i < k <= |steps|
  {
    var j := LastMark(steps, i, k, ip);
    && ip in o
    && (Notes(steps, i, ip) ==> o[ip].at == steps[i].now)
    && o[ip].reported == (if j.None? then 0 else steps[j.value].now)
    && (j.Some? ==> steps[j.value].now > 0)
  }

  /** One step more: the record stays right unless the step settles the ban, and then it is gone. */
  lemma RecordedStep(o: Outbox, steps: seq<Step>, i: nat, k: nat, ip: nat)
    requires i < k < |steps| && Recorded(o, steps, i, k, ip) && Possible(o, steps[k]) && !Notes(steps, k, ip)
    ensures if Settles(steps, i, k, ip) then ip !in Apply(o, steps[k])
            else Recorded(Apply(o, steps[k]), steps, i, k + 1, ip)
    ensures steps[k].Cleanup? && !Settles(steps, i, k, ip) ==> ip in Kept(o, steps[k].listed, steps[k].now)
  {
  }

  lemma {:induction false} PendingIsRecorded(o: Outbox, steps: seq<Step>, i: nat, k: nat, ip: nat)
    requires Runs(o, steps) && Pending(steps, i, k, ip)
    ensures Recorded(After(o, steps[..k]), steps, i, k, ip)
    decreases k
  {
    hide *;
    PendingBounds(steps, i, k, ip);
    var e := k - 1;
    RunsUpTo(o, steps, e);
    assert steps[..e + 1] == steps[..k];
    if k == i + 1 {
      NotedIsRecorded(After(o, steps[..i]), steps, i, ip);
    } else {
      PendingBefore(steps, i, k, ip);
      PendingIsRecorded(o, steps, i, e, ip);
      RecordedStep(After(o, steps[..e]), steps, i, e, ip);
    }
  }

  lemma PendingBounds(steps: seq<Step>, i: nat, k: nat, ip: nat)
    requires Pending(steps, i, k, ip)
    ensures i < k <= |steps| && Notes(steps, i, ip)
  {
  }

  lemma PendingBefore(steps: seq<Step>, i: nat, k: nat, ip: nat)
    requires Pending(steps, i, k, ip) && k > i + 1
    ensures Pending(steps, i, k - 1, ip) && !Notes(steps, k - 1, ip) && !Settles(steps, i, k - 1, ip)
  {
  }

  lemma NotedIsRecorded(o: Outbox, steps: seq<Step>, i: nat, ip: nat)
    requires Notes(steps, i, ip) && Possible(o, steps[i])
    ensures Recorded(Apply(o, steps[i]), steps, i, i + 1, ip)
  {
  }

  /**
   * Through any steps a local ban stays in the outbox until it is settled: it leaves by exactly the step that
   * settles it, and every cleanup before spares it.
   */
  lemma LeavesExactlyWhenSettled(o: Outbox, steps: seq<Step>, i: nat, k: nat, ip: nat)
    requires Runs(o, steps) && Pending(steps, i, k, ip) && k < |steps| && !Notes(steps, k, ip)
    ensures ip in After(o, steps[..k])
    ensures ip !in After(o, steps[..k + 1]) <==> Settles(steps, i, k, ip)
    ensures steps[k].Cleanup? && !Settles(steps, i, k, ip) ==>
              ip in Kept(After(o, steps[..k]), steps[k].listed, steps[k].now)
  {
    PendingIsRecorded(o, steps, i, k, ip);
    RunsUpTo(o, steps, k);
    RecordedStep(After(o, steps[..k]), steps, i, k, ip);
  }

  /** A full outbox displaces a ban that waits longest, told from the notes themselves. */
  lemma DisplacedWaitsLongest(o: Outbox, steps: seq<Step>, i: nat, j: nat, k: nat, ip: nat, victim: nat)
    requires Runs(o, steps) && k < |steps| && steps[k].Note? && steps[k].displaced == Some(victim)
    requires Pending(steps, i, k, ip) && Pending(steps, j, k, victim)
    ensures steps[j].now <= steps[i].now
  {
    PendingIsRecorded(o, steps, i, k, ip);
    PendingIsRecorded(o, steps, j, k, victim);
    RunsUpTo(o, steps, k);
  }

  // ---- drops and marks of a ban's own

  /** A drop follows a judgement and a mark a report, each with a lock of its own. */
  predicate Completes(s: Step, cause: Step) {
    match s
    case Drop(ip) => cause == Judge(ip)
    case Mark(ip, _) => cause == Send(ip)
    case _ => false
  }

  /** What step k completes came after the note at i. */
  predicate IsOwn(steps: seq<Step>, i: nat, k: nat)
    requires k < |steps|
  {
    exists c | i < c < k :: Completes(steps[k], steps[c])
  }

  /** What step k completes came with nothing noted for the address in between. */
  predicate IsTimely(steps: seq<Step>, k: nat, ip: nat)
    requires k < |steps|
  {
    exists c | 0 <= c < k :: Completes(steps[k], steps[c]) && forall m | c < m < k :: !Notes(steps, m, ip)
  }

  /**
   * A pending ban that is dropped was itself judged, and one that is marked was itself reported, not an earlier
   * ban of the address, if and only if nothing was noted for the address in between.
   */
  lemma OwnIffTimely(steps: seq<Step>, i: nat, k: nat, ip: nat)
    requires Pending(steps, i, k, ip) && k < |steps| && (steps[k] == Drop(ip) || Marks(steps, k, ip))
    ensures IsOwn(steps, i, k) <==> IsTimely(steps, k, ip)
  {
    if IsOwn(steps, i, k) {
      var c :| i < c < k && Completes(steps[k], steps[c]);
      assert forall m | c < m < k :: !Notes(steps, m, ip);
      assert IsTimely(steps, k, ip);
    }
    if IsTimely(steps, k, ip) {
      var c :| 0 <= c < k && Completes(steps[k], steps[c]) && forall m | c < m < k :: !Notes(steps, m, ip);
      assert !(c < i < k);
      assert c != i;
      assert IsOwn(steps, i, k);
    }
  }

  /**
   * A ban that a cleanup gives up as reported and not listed was itself reported ten minutes before if and only
   * if its last mark came with nothing noted for the address since the report it stands for.
   */
  lemma ForgottenWasReportedIff(steps: seq<Step>, i: nat, k: nat, ip: nat)
    requires Pending(steps, i, k, ip) && k < |steps| && steps[k].Cleanup?
    requires ip !in steps[k].listed && Settles(steps, i, k, ip)
    ensures var j := LastMark(steps, i, k, ip);
            && j.Some? && steps[k].now - steps[j.value].now >= GRACE
            && (IsOwn(steps, i, j.value) <==> IsTimely(steps, j.value, ip))
  {
    OwnIffTimely(steps, i, LastMark(steps, i, k, ip).value, ip);
  }

  /** Bans lost to an earlier one of their address: judged, detected again, then dropped. */
  lemma StaleDropLosesBan(t: int)
    requires t > 0
    ensures var steps := [Note(7, t, None), Judge(7), Note(7, t, None), Drop(7)];
            && Runs(map[], steps) && Pending(steps, 2, 3, 7)
            && !IsTimely(steps, 3, 7) && 7 !in After(map[], steps)
  {
    var steps := [Note(7, t, None), Judge(7), Note(7, t, None)];
    var o: Outbox := map[];
    TwoNotes(t, Judge(7));
    RunsMore(o, steps, Drop(7));
    assert steps + [Drop(7)] == [Note(7, t, None), Judge(7), Note(7, t, None), Drop(7)];
    assert Notes(steps + [Drop(7)], 2, 7);
  }

  /** Reported, detected again, then marked: ten minutes later the cleanup gives up a ban that was never reported. */
  lemma StaleMarkLosesBan(t: int)
    requires t > 0
    ensures var steps := [Note(7, t, None), Send(7), Note(7, t, None), Mark(7, t), Cleanup({}, t + GRACE)];
            && Runs(map[], steps) && Pending(steps, 2, 4, 7)
            && !IsTimely(steps, 3, 7) && 7 !in After(map[], steps)
  {
    var steps := [Note(7, t, None), Send(7), Note(7, t, None)];
    var o: Outbox := map[];
    TwoNotes(t, Send(7));
    RunsMore(o, steps, Mark(7, t));
    RunsMore(o, steps + [Mark(7, t)], Cleanup({}, t + GRACE));
    var all := [Note(7, t, None), Send(7), Note(7, t, None), Mark(7, t), Cleanup({}, t + GRACE)];
    assert steps + [Mark(7, t)] + [Cleanup({}, t + GRACE)] == all;
    assert Notes(all, 2, 7);
  }

  lemma TwoNotes(t: int, between: Step)
    requires between == Judge(7) || between == Send(7)
    ensures var steps := [Note(7, t, None), between, Note(7, t, None)];
            Runs(map[], steps) && After(map[], steps) == map[7 := Item(t, 0)]
  {
    var o: Outbox := map[];
    var a: seq<Step> := [];
    RunsMore(o, a, Note(7, t, None));
    assert a + [Note(7, t, None)] == [Note(7, t, None)];
    assert After(o, [Note(7, t, None)]) == map[7 := Item(t, 0)];
    RunsMore(o, [Note(7, t, None)], between);
    assert |map[7 := Item(t, 0)]| == 1;
    RunsMore(o, [Note(7, t, None)] + [between], Note(7, t, None));
    assert [Note(7, t, None)] + [between] + [Note(7, t, None)] == [Note(7, t, None), between, Note(7, t, None)];
  }

  // ---- bounds

  lemma StaysBounded(o: Outbox, s: Step)
    requires Possible(o, s) && |o| <= MAX_WAITING
    ensures |Apply(o, s)| <= MAX_WAITING
  {
    match s
    case Note(ip, now, displaced) =>
      var left := if displaced.Some? then o - {displaced.value} else o;
      if displaced.Some? {
        assert left.Keys == o.Keys - {displaced.value};
        assert |left| == |left.Keys| == |o| - 1;
      }
      assert Apply(o, s).Keys == left.Keys + {ip};
      assert |Apply(o, s)| == |Apply(o, s).Keys|;
    case _ => SubmapSize(Apply(o, s), o);
  }

  /** At most 5000 bans wait. */
  lemma {:induction false} BoundedOverRuns(o: Outbox, steps: seq<Step>)
    requires Runs(o, steps) && |o| <= MAX_WAITING
    ensures |After(o, steps)| <= MAX_WAITING
  {
    if steps != [] {
      BoundedOverRuns(o, steps[..|steps| - 1]);
      StaysBounded(After(o, steps[..|steps| - 1]), steps[|steps| - 1]);
    }
  }

  /** A full outbox loses a ban to every note, also to one that needs no room, unless that ban is noted itself. */
  lemma NoteDisplacesIff(o: Outbox, s: Step)
    requires Possible(o, s) && s.Note?
    ensures (forall ip | ip in o :: ip in Apply(o, s)) <==> |o| < MAX_WAITING || s.displaced == Some(s.ip)
  {
    if |o| >= MAX_WAITING && s.displaced != Some(s.ip) {
      assert s.displaced.value in o && s.displaced.value !in Apply(o, s);
    }
  }

  // ---- the code

  datatype Answer = Accepted | Rejected | Failed

  predicate ByAge(o: Outbox, todo: seq<nat>) {
    && (forall i | 0 <= i < |todo| :: todo[i] in o)
    && (forall i, j | 0 <= i < j < |todo| :: o[todo[i]].at <= o[todo[j]].at && todo[i] != todo[j])
  }

  function Unreported(o: Outbox): set<nat> {
    set ip | ip in o && o[ip].reported == 0
  }

  /**
   * A flush: whether a ban is in force and what the dashboard answers to its report, when it is marked, and what
   * others do to the outbox between its judgement or report and its deletion or mark.
   */
  datatype World = World(inForce: nat -> bool, answer: nat -> Answer, clock: nat -> int,
                         others: (nat, Outbox) -> seq<Step>)

  predicate Drops(w: World, ip: nat) {
    !w.inForce(ip) || w.answer(ip) == Rejected
  }

  /** What a flush does about one ban that does not fail, before and after others come in. */
  function First(w: World, ip: nat): Step {
    if Drops(w, ip) then Judge(ip) else Send(ip)
  }

  function Second(w: World, ip: nat): Step {
    if Drops(w, ip) then Drop(ip) else Mark(ip, w.clock(ip))
  }

  /** The steps that happen while one ban is handled in the outbox o. */
  function Handling(w: World, ip: nat, o: Outbox): seq<Step> {
    [First(w, ip)] + w.others(ip, o) + [Second(w, ip)]
  }

  /** What is left when the first n bans have been handled. */
  function Flushed(o: Outbox, todo: seq<nat>, n: nat, w: World): Outbox
    requires n <= |todo|
  {
    if n == 0 then o
    else
      var before := Flushed(o, todo, n - 1, w);
      After(before, Handling(w, todo[n - 1], before))
  }

  /** The clock is past 1970, and others do what can be done. */
  predicate IsProper(w: World, ip: nat, o: Outbox) {
    w.clock(ip) > 0 && Runs(o, w.others(ip, o))
  }

  predicate ProperUpTo(o: Outbox, todo: seq<nat>, n: nat, w: World)
    requires n <= |todo|
  {
    n == 0 || (ProperUpTo(o, todo, n - 1, w) && IsProper(w, todo[n - 1], Flushed(o, todo, n - 1, w)))
  }

  /** All the steps that happen while the first n bans are handled. */
  function FlushSteps(o: Outbox, todo: seq<nat>, n: nat, w: World): seq<Step>
    requires n <= |todo|
  {
    if n == 0 then []
    else FlushSteps(o, todo, n - 1, w) + Handling(w, todo[n - 1], Flushed(o, todo, n - 1, w))
  }

  lemma {:induction false} RunsOn(o: Outbox, a: seq<Step>, b: seq<Step>)
    ensures After(o, a + b) == After(After(o, a), b)
    ensures Runs(o, a) && Runs(After(o, a), b) ==> Runs(o, a + b)
    decreases |b|
  {
    if b == [] {
      assert a + b == a;
    } else {
      RunsOn(o, a, b[..|b| - 1]);
      assert (a + b)[..|a + b| - 1] == a + b[..|b| - 1];
    }
  }

  lemma HandlingRuns(w: World, ip: nat, o: Outbox)
    requires IsProper(w, ip, o)
    ensures Runs(o, Handling(w, ip, o))
  {
    var first, others := [First(w, ip)], w.others(ip, o);
    RunsMore(o, [], First(w, ip));
    assert [] + first == first && Apply(o, First(w, ip)) == o;
    RunsOn(o, first, others);
    RunsMore(o, first + others, Second(w, ip));
  }

  lemma HandlingRunsOn(o: Outbox, steps: seq<Step>, before: Outbox, ip: nat, w: World)
    requires IsProper(w, ip, before) && Runs(o, steps) && After(o, steps) == before
    ensures Runs(o, steps + Handling(w, ip, before))
    ensures After(o, steps + Handling(w, ip, before)) == After(before, Handling(w, ip, before))
  {
    HandlingRuns(w, ip, before);
    RunsOn(o, steps, Handling(w, ip, before));
  }

  /** A flush among the steps of others is a run, so what holds of every run holds of it. */
  lemma {:induction false} FlushIsARun(o: Outbox, todo: seq<nat>, n: nat, w: World)
    requires n <= |todo| && ProperUpTo(o, todo, n, w)
    ensures Runs(o, FlushSteps(o, todo, n, w))
    ensures After(o, FlushSteps(o, todo, n, w)) == Flushed(o, todo, n, w)
    decreases n
  {
    if n > 0 {
      FlushIsARun(o, todo, n - 1, w);
      HandlingRunsOn(o, FlushSteps(o, todo, n - 1, w), Flushed(o, todo, n - 1, w), todo[n - 1], w);
    }
  }

  /** What the steps between two lock holds leave. */
  lemma HandlingIs(w: World, ip: nat, o: Outbox)
    ensures After(o, Handling(w, ip, o)) == Apply(After(o, w.others(ip, o)), Second(w, ip))
  {
    var steps := [First(w, ip)] + w.others(ip, o);
    assert (steps + [Second(w, ip)])[..|steps|] == steps;
    FirstChangesNothing(o, First(w, ip), w.others(ip, o));
  }

  lemma {:induction false} FirstChangesNothing(o: Outbox, s: Step, steps: seq<Step>)
    requires s.Judge? || s.Send?
    ensures After(o, [s] + steps) == After(o, steps)
    decreases |steps|
  {
    if steps == [] {
      assert [s] + steps == [s] && [s][..0] == [];
    } else {
      var init := steps[..|steps| - 1];
      FirstChangesNothing(o, s, init);
      assert ([s] + steps)[..|steps|] == [s] + init;
    }
  }

  /** What a flush does to each ban it reached; the others are as they were. */
  ghost predicate FlushResult(o: Outbox, todo: seq<nat>, n: nat, f: Outbox, w: World)
    requires n <= |todo|
  {
    && f.Keys <= o.Keys
    && (forall ip | ip in o && ip in todo[..n] :: ip in f <==> w.inForce(ip) && w.answer(ip) != Rejected)
    && (forall ip | ip in f :: f[ip] == if ip in todo[..n] then o[ip].(reported := w.clock(ip)) else o[ip])
    && (forall ip | ip in o && ip !in todo[..n] :: ip in f)
  }

  lemma {:induction false} FlushedIsExact(o: Outbox, todo: seq<nat>, n: nat, w: World)
    requires ByAge(o, todo) && n <= |todo| && forall ip, x :: w.others(ip, x) == []
    ensures FlushResult(o, todo, n, Flushed(o, todo, n, w), w)
    decreases n
  {
    if n == 0 {
      assert todo[..0] == [];
    } else {
      var before := Flushed(o, todo, n - 1, w);
      FlushedIsExact(o, todo, n - 1, w);
      HandlingIs(w, todo[n - 1], before);
      FlushStep(o, todo, n, before, w);
    }
  }

  lemma FlushStep(o: Outbox, todo: seq<nat>, n: nat, f: Outbox, w: World)
    requires ByAge(o, todo) && 0 < n <= |todo| && FlushResult(o, todo, n - 1, f, w)
    ensures FlushResult(o, todo, n, Apply(f, Second(w, todo[n - 1])), w)
  {
    var ip := todo[n - 1];
    assert todo[..n] == todo[..n - 1] + [ip];
    assert forall i | 0 <= i < n - 1 :: todo[i] != ip;
    assert ip !in todo[..n - 1] && ip in f;
  }

  /**
   * The steps of a flush for one ban, told from the world: found not in force or rejected it is dropped, else its
   * report was accepted and it is marked; what others do comes in between.
   */
  lemma HandlingEnds(w: World, ip: nat, o: Outbox)
    ensures var taken := w.inForce(ip) && w.answer(ip) != Rejected;
            Handling(w, ip, o) == [if taken then Send(ip) else Judge(ip)] + w.others(ip, o)
                                  + [if taken then Mark(ip, w.clock(ip)) else Drop(ip)]
  {
  }

  /** The step does not touch the ban, which no cleanup before until gives up. */
  predicate Spares(s: Step, ip: nat, until: int) {
    match s
    case Note(other, _, displaced) => other != ip && displaced != Some(ip)
    case Mark(other, _) => other != ip
    case Drop(other) => other != ip
    case Cleanup(listed, now) => ip !in listed && now < until
    case _ => true
  }

  predicate AllSpare(steps: seq<Step>, ip: nat, until: int) {
    forall i | 0 <= i < |steps| :: Spares(steps[i], ip, until)
  }

  /** Not there, or there and not given up before until. */
  predicate IsSafe(o: Outbox, ip: nat, until: int) {
    ip in o ==> o[ip].reported == 0 || until <= o[ip].reported + GRACE
  }

  /** The two outboxes agree about the ban. */
  predicate SameBan(o: Outbox, p: Outbox, ip: nat) {
    (ip in o <==> ip in p) && (ip in o ==> o[ip] == p[ip])
  }

  lemma {:induction false} UntouchedStays(o: Outbox, steps: seq<Step>, ip: nat, until: int)
    requires AllSpare(steps, ip, until) && IsSafe(o, ip, until)
    ensures SameBan(After(o, steps), o, ip)
    decreases |steps|
  {
    if steps != [] {
      UntouchedStays(o, steps[..|steps| - 1], ip, until);
      assert Spares(steps[|steps| - 1], ip, until);
    }
  }

  /** Nobody but the flush touches the ban while the first n bans are handled. */
  ghost predicate NobodyElse(w: World, todo: seq<nat>, n: nat, ip: nat, until: int)
    requires n <= |todo|
  {
    forall i, o | 0 <= i < n :: AllSpare(w.others(todo[i], o), ip, until)
  }

  /** The handling of another ban. */
  lemma OtherIsHandled(w: World, other: nat, o: Outbox, ip: nat, until: int)
    requires other != ip && AllSpare(w.others(other, o), ip, until) && IsSafe(o, ip, until)
    ensures SameBan(After(o, Handling(w, other, o)), o, ip)
  {
    HandlingIs(w, other, o);
    UntouchedStays(o, w.others(other, o), ip, until);
  }

  /** The ban as the flush leaves it when it handles it. */
  lemma ThisIsHandled(w: World, o: Outbox, ip: nat, until: int)
    requires ip in o && o[ip].reported == 0 && AllSpare(w.others(ip, o), ip, until)
    ensures var p := After(o, Handling(w, ip, o));
            && (ip in p <==> w.inForce(ip) && w.answer(ip) != Rejected)
            && (ip in p ==> p[ip] == o[ip].(reported := w.clock(ip)))
  {
    HandlingIs(w, ip, o);
    UntouchedStays(o, w.others(ip, o), ip, until);
  }

  lemma {:induction false} HandledAs(o: Outbox, todo: seq<nat>, i: nat, n: nat, w: World, until: int)
    requires ByAge(o, todo) && i < |todo| && n <= |todo| && o[todo[i]].reported == 0
    requires until <= w.clock(todo[i]) + GRACE && NobodyElse(w, todo, n, todo[i], until)
    ensures var p, ip := Flushed(o, todo, n, w), todo[i];
            if n <= i then SameBan(p, o, ip)
            else
              && (ip in p <==> w.inForce(ip) && w.answer(ip) != Rejected)
              && (ip in p ==> p[ip] == o[ip].(reported := w.clock(ip)))
    decreases n
  {
    if n > 0 {
      var before := Flushed(o, todo, n - 1, w);
      HandledAs(o, todo, i, n - 1, w, until);
      assert AllSpare(w.others(todo[n - 1], before), todo[i], until);
      if n - 1 == i {
        ThisIsHandled(w, before, todo[i], until);
      } else {
        assert todo[n - 1] != todo[i];
        OtherIsHandled(w, todo[n - 1], before, todo[i], until);
      }
    }
  }

  /**
   * What becomes of a ban that a flush handled and nobody else touched, then or later: it is gone if and only if it
   * was not in force or the dashboard rejected it. Else it carries the time its report was accepted, and for ten
   * minutes every cleanup that does not list it spares it.
   */
  lemma HandledIsSettled(o: Outbox, todo: seq<nat>, i: nat, n: nat, w: World, later: seq<Step>, listed: set<nat>,
                         now: int)
    requires ByAge(o, todo) && i < n <= |todo| && o[todo[i]].reported == 0
    requires NobodyElse(w, todo, n, todo[i], w.clock(todo[i]) + GRACE)
    requires AllSpare(later, todo[i], w.clock(todo[i]) + GRACE)
    ensures var p, ip := After(Flushed(o, todo, n, w), later), todo[i];
            && (ip in p <==> w.inForce(ip) && w.answer(ip) != Rejected)
            && (ip in p ==> p[ip] == o[ip].(reported := w.clock(ip)))
            && (ip in p && ip !in listed && now < w.clock(ip) + GRACE ==> ip in Kept(p, listed, now))
  {
    HandledAs(o, todo, i, n, w, w.clock(todo[i]) + GRACE);
    UntouchedStays(Flushed(o, todo, n, w), later, todo[i], w.clock(todo[i]) + GRACE);
  }

  class BanOutbox {
    var items: Outbox

    constructor ()
      ensures items == map[]
    {
      items := map[];
    }

    /** noteLocalBan */
    method NoteBan(ip: nat, now: int) returns (displaced: Option<nat>)
      modifies this
      ensures Possible(old(items), Note(ip, now, displaced))
      ensures items == Apply(old(items), Note(ip, now, displaced))
    {
      displaced := None;
      if |items| >= MAX_WAITING {
        var oldest := Oldest();
        displaced := Some(oldest);
        items := items - {oldest};
      }
      items := items[ip := Item(now, 0)];
    }

    method Oldest() returns (oldest: nat)
      requires |items| > 0
      ensures IsOldest(items, oldest)
    {
      var todo := items.Keys;
      assert |items.Keys| == |items|;
      oldest := Pick(todo);
      while todo != {}
        invariant todo <= items.Keys && oldest in items
        invariant forall k | k in items && k !in todo :: items[oldest].at <= items[k].at
        decreases todo
      {
        var k := Pick(todo);
        if items[k].at < items[oldest].at {
          oldest := k;
        }
        todo := todo - {k};
      }
    }

    /** noteBanReported */
    method NoteReported(ip: nat, now: int)
      modifies this
      ensures items == Apply(old(items), Mark(ip, now))
    {
      if ip in items {
        items := items[ip := items[ip].(reported := now)];
      }
    }

    /** localBansToKeep */
    method ToKeep(listed: set<nat>, now: int) returns (keep: set<nat>)
      modifies this
      ensures keep == Kept(old(items), listed, now)
      ensures items == Apply(old(items), Cleanup(listed, now))
    {
      keep := {};
      var all, left := items, items;
      var todo := all.Keys;
      while todo != {}
        invariant todo <= all.Keys && keep == Kept(all, listed, now) - todo
        invariant left == map ip | ip in all && (ip in todo || ip in Kept(all, listed, now)) :: all[ip]
        modifies {}
        decreases todo
      {
        var ip := Pick(todo);
        var p := all[ip];
        if ip in listed {
          left := left - {ip};
        } else if p.reported == 0 || now - p.reported < GRACE {
          keep := keep + {ip};
        } else {
          left := left - {ip};
        }
        todo := todo - {ip};
      }
      items := left;
      assert items == Apply(all, Cleanup(listed, now));
    }

    /** The unreported bans, oldest first. */
    method Waiting() returns (todo: seq<nat>)
      ensures ByAge(items, todo) && forall ip :: ip in todo <==> ip in Unreported(items)
    {
      todo := [];
      var rest := items.Keys;
      while rest != {}
        invariant rest <= items.Keys && ByAge(items, todo)
        invariant forall ip :: ip in todo <==> ip in Unreported(items) && ip !in rest
        decreases rest
      {
        var ip := Pick(rest);
        assert ip !in todo;
        if items[ip].reported == 0 {
          todo := Place(items, todo, ip);
        }
        rest := rest - {ip};
      }
    }

    /**
     * flushLocalBans: the bans that waited are reported oldest first up to the first failure; the ones not in force
     * or rejected are dropped. The lock is free between what the flush finds out and what it does about it.
     */
    method Flush(w: World) returns (todo: seq<nat>, reached: nat)
      modifies this
      ensures ByAge(old(items), todo) && forall ip :: ip in todo <==> ip in Unreported(old(items))
      ensures reached <= |todo| && items == Flushed(old(items), todo, reached, w)
      ensures forall i | 0 <= i < reached :: !w.inForce(todo[i]) || w.answer(todo[i]) != Failed
      ensures reached < |todo| ==> w.inForce(todo[reached]) && w.answer(todo[reached]) == Failed
      ensures forall i, j | 0 <= i < reached <= j < |todo| :: old(items)[todo[i]].at <= old(items)[todo[j]].at
    {
      todo := Waiting();
      reached := 0;
      ghost var all := items;
      while reached < |todo|
        invariant reached <= |todo| && items == Flushed(all, todo, reached, w)
        invariant forall i | 0 <= i < reached :: !w.inForce(todo[i]) || w.answer(todo[i]) != Failed
      {
        var failed := FlushOne(todo[reached], w);
        if failed {
          return;
        }
        reached := reached + 1;
      }
    }

    /** One ban of a flush; failed ends it. */
    method FlushOne(ip: nat, w: World) returns (failed: bool)
      modifies this
      ensures failed <==> w.inForce(ip) && w.answer(ip) == Failed
      ensures items == if failed then old(items) else After(old(items), Handling(w, ip, old(items)))
    {
      HandlingIs(w, ip, items);
      failed := w.inForce(ip) && w.answer(ip) == Failed;
      if failed {
        return;
      }
      var dropped := !w.inForce(ip) || w.answer(ip) == Rejected;
      Others(w.others(ip, items));
      if dropped {
        items := items - {ip};
      } else {
        NoteReported(ip, w.clock(ip));
      }
    }

    /** What others do while the lock is free. */
    method Others(steps: seq<Step>)
      modifies this
      ensures items == After(old(items), steps)
    {
      for n := 0 to |steps|
        invariant items == After(old(items), steps[..n])
      {
        assert steps[..n + 1][..n] == steps[..n];
        items := Apply(items, steps[n]);
      }
      assert steps[..|steps|] == steps;
    }
  }

  method Place(o: Outbox, todo: seq<nat>, ip: nat) returns (r: seq<nat>)
    requires ByAge(o, todo) && ip in o && ip !in todo
    ensures ByAge(o, r) && forall x :: x in r <==> x == ip || x in todo
  {
    var i := 0;
    while i < |todo| && o[todo[i]].at <= o[ip].at
      invariant 0 <= i <= |todo| && forall k | 0 <= k < i :: o[todo[k]].at <= o[ip].at
    {
      i := i + 1;
    }
    assert forall k | i <= k < |todo| :: o[ip].at <= o[todo[k]].at;
    r := todo[..i] + [ip] + todo[i..];
  }
}
