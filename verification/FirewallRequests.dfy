/**
 * Carrying out the dashboard's requests (cmd/infrafence-agent/fwactions.go), with syncs arriving at any time.
 */
module FirewallRequests {
  import opened Collections
  import opened FirewallDesired

  const MAX_ACTIONS_PER_SYNC := 10

  /** The result event of a request. */
  datatype Result = Result(status: string, reason: string)

  /** How far the request being handled has come. */
  datatype Phase = Checking | Applied | RolledBack

  datatype Current = Idle | Running(action: Action, phase: Phase) | Reporting(id: int, result: Result)

  /** One call of applyFirewallActions: what is left of its list, the ids seen in it, the requests run. */
  datatype Batch = NoBatch | Batch(todo: seq<Action>, listed: set<int>, ran: nat, current: Current)

  /** What happened: a request was run, undone, its result sent; the agent was started again. */
  datatype Mark = Ran(id: int) | Undone(id: int) | Sent(id: int, result: Result, ok: bool) | Restarted

  datatype Agent = Agent(desired: Desired, done: set<int>, unsent: map<int, Result>, batch: Batch, marks: seq<Mark>)

  datatype Step =
    | SyncState(state: Option<Base>, pending: seq<Action>, monitor: bool)
    | Begin(actions: seq<Action>)
    | TakeNext
    | Apply(applied: Action)
    | RollBack
    | Finish(result: Result)
    | Report(ok: bool)
    | End
    | Restart(saved: Option<Base>)

  /** An agent as it starts: only what was enforced was saved, as the state. */
  function Started(saved: Option<Base>, marks: seq<Mark>): Agent {
    Agent(Desired(saved, [], false, map[]), {}, map[], NoBatch, marks)
  }

  const Fresh := Started(None, [])

  /** The next request of the list: left for a later sync, passed over, its result resent, or run. */
  function Take(a: Agent): Agent
    requires a.batch.Batch? && a.batch.todo != [] && a.batch.current == Idle
  {
    var r, b := a.batch.todo[0], a.batch;
    var c := b.(todo := b.todo[1..], listed := b.listed + {r.id});
    if r.id !in a.done && b.ran >= MAX_ACTIONS_PER_SYNC then a.(batch := c)
    else if r.id in a.unsent then
      a.(done := a.done + {r.id}, batch := c.(current := Reporting(r.id, a.unsent[r.id])))
    else if r.id in a.done then a.(batch := c)
    else
      a.(done := a.done + {r.id}, batch := c.(ran := b.ran + 1, current := Running(r, Checking)),
         marks := a.marks + [Ran(r.id)])
  }

  /** Requests the dashboard no longer lists are settled. */
  function Settle(a: Agent): Agent
    requires a.batch.Batch?
  {
    var gone := a.done - a.batch.listed;
    a.(done := a.done - gone, unsent := a.unsent - gone, batch := NoBatch)
  }

  predicate Can(a: Agent, s: Step) {
    match s
    case SyncState(_, _, _) => true
    case Begin(_) => true
    case TakeNext => a.batch.Batch? && a.batch.todo != [] && a.batch.current == Idle
    case Apply(r) => a.batch.Batch? && a.batch.current.Running? && a.batch.current.phase == Checking
                     && r == a.batch.current.action.(ip := r.ip)
    case RollBack => a.batch.Batch? && a.batch.current.Running? && a.batch.current.phase == Applied
    case Finish(_) => a.batch.Batch? && a.batch.current.Running?
    case Report(_) => a.batch.Batch? && a.batch.current.Reporting?
    case End => a.batch.Batch? && a.batch.todo == [] && a.batch.current == Idle
    case Restart(_) => true
  }

  function Next(a: Agent, s: Step): Agent
    requires Can(a, s)
  {
    match s
    case SyncState(state, pending, monitor) => a.(desired := Sync(a.desired, state, pending, monitor))
    case Begin(actions) =>
      // A sync arriving while requests run starts nothing.
      if a.batch.Batch? then a else a.(batch := Batch(actions, {}, 0, Idle))
    case TakeNext => Take(a)
    case Apply(r) =>
      a.(desired := Put(a.desired, r), batch := a.batch.(current := a.batch.current.(phase := Applied)))
    case RollBack =>
      var id := a.batch.current.action.id;
      a.(desired := Undo(a.desired, id), batch := a.batch.(current := a.batch.current.(phase := RolledBack)),
         marks := a.marks + [Undone(id)])
    case Finish(result) =>
      a.(batch := a.batch.(current := Reporting(a.batch.current.action.id, result)))
    case Report(ok) =>
      var id, result := a.batch.current.id, a.batch.current.result;
      a.(unsent := if ok then a.unsent - {id} else a.unsent[id := result],
         batch := a.batch.(current := Idle), marks := a.marks + [Sent(id, result, ok)])
    case End => Settle(a)
    case Restart(saved) => Started(saved, a.marks + [Restarted])
  }

  predicate Runs(a: Agent, steps: seq<Step>)
    decreases |steps|
  {
    steps == [] || (Can(a, steps[0]) && Runs(Next(a, steps[0]), steps[1..]))
  }

  function After(a: Agent, steps: seq<Step>): Agent
    requires Runs(a, steps)
    decreases |steps|
  {
    if steps == [] then a else After(Next(a, steps[0]), steps[1..])
  }

  /** The dashboard keeps listing the request: every list handed to the agent has it. */
  predicate KeepsListing(steps: seq<Step>, id: int) {
    forall i | 0 <= i < |steps| && steps[i].Begin? :: Listed(steps[i].actions, id)
  }

  /**
   * What the marks say about one request since the last start: how often it ran, whether it was undone, how it was
   * reported.
   */
  datatype Story = Story(ran: nat, undone: bool, sends: seq<(Result, bool)>)

  function StoryOf(marks: seq<Mark>, id: int): Story {
    if marks == [] then Story(0, false, [])
    else
      var s := StoryOf(marks[..|marks| - 1], id);
      match marks[|marks| - 1]
      case Ran(i) => if i == id then s.(ran := s.ran + 1) else s
      case Undone(i) => if i == id then s.(undone := true) else s
      case Sent(i, r, ok) => if i == id then s.(sends := s.sends + [(r, ok)]) else s
      case Restarted => Story(0, false, [])
  }

  lemma StoryStep(marks: seq<Mark>, m: Mark, id: int)
    ensures StoryOf(marks + [m], id) ==
            var s := StoryOf(marks, id);
            match m {
              case Ran(i) => if i == id then s.(ran := s.ran + 1) else s
              case Undone(i) => if i == id then s.(undone := true) else s
              case Sent(i, r, ok) => if i == id then s.(sends := s.sends + [(r, ok)]) else s
              case Restarted => Story(0, false, [])
            }
  {
    assert (marks + [m])[..|marks|] == marks;
  }

  /** Every delivery carries the same result, and only the last one may have succeeded. */
  predicate OneResult(sends: seq<(Result, bool)>) {
    forall i | 0 <= i < |sends| - 1 :: sends[i].0 == sends[|sends| - 1].0 && !sends[i].1
  }

  /** The last delivery, if any, failed. */
  predicate Owed(sends: seq<(Result, bool)>) {
    sends != [] && !sends[|sends| - 1].1
  }

  /** What holds of a request that stays listed, over every run. */
  predicate Orderly(a: Agent, id: int) {
    var s := StoryOf(a.marks, id);
    && s.ran == (if id in a.done then 1 else 0)
    && OneResult(s.sends)
    && (id in a.unsent <==> Owed(s.sends))
    && (id in a.unsent ==> id in a.done && a.unsent[id] == s.sends[|s.sends| - 1].0)
    && (s.sends != [] || s.undone || id in a.desired.overlay ==> id in a.done)
    && (s.undone ==> id !in a.desired.overlay)
    && (a.batch.Batch? ==>
          && (Listed(a.batch.todo, id) || id in a.batch.listed)
          && (a.batch.current.Running? && a.batch.current.action.id == id ==>
                id in a.done && s.sends == [] && (s.undone <==> a.batch.current.phase == RolledBack))
          && (a.batch.current.Reporting? && a.batch.current.id == id ==>
                id in a.done && (s.sends == [] || (Owed(s.sends) && a.batch.current.result == a.unsent[id]))))
  }

  lemma ListedRest(todo: seq<Action>, id: int)
    requires todo != [] && Listed(todo, id)
    ensures todo[0].id == id || Listed(todo[1..], id)
  {
    var i :| 0 <= i < |todo| && todo[i].id == id;
    if i > 0 {
      assert todo[1..][i - 1].id == id;
    }
  }

  lemma TakeOtherIsOrderly(a: Agent, id: int)
    requires Orderly(a, id) && Can(a, TakeNext) && a.batch.todo[0].id != id
    ensures Orderly(Take(a), id)
  {
    StoryStep(a.marks, Ran(a.batch.todo[0].id), id);
    assert StoryOf(Take(a).marks, id) == StoryOf(a.marks, id);
    if Listed(a.batch.todo, id) {
      ListedRest(a.batch.todo, id);
    }
  }

  lemma TakeThisIsOrderly(a: Agent, id: int)
    requires Orderly(a, id) && Can(a, TakeNext) && a.batch.todo[0].id == id
    ensures Orderly(Take(a), id)
  {
    StoryStep(a.marks, Ran(id), id);
  }

  lemma TakeIsOrderly(a: Agent, id: int)
    requires Orderly(a, id) && Can(a, TakeNext)
    ensures Orderly(Take(a), id)
  {
    if a.batch.todo[0].id == id {
      TakeThisIsOrderly(a, id);
    } else {
      TakeOtherIsOrderly(a, id);
    }
  }

  lemma RollBackIsOrderly(a: Agent, id: int)
    requires Orderly(a, id) && Can(a, RollBack)
    ensures Orderly(Next(a, RollBack), id)
  {
    StoryStep(a.marks, Undone(a.batch.current.action.id), id);
  }

  lemma ReportIsOrderly(a: Agent, ok: bool, id: int)
    requires Orderly(a, id) && Can(a, Report(ok))
    ensures Orderly(Next(a, Report(ok)), id)
  {
    StoryStep(a.marks, Sent(a.batch.current.id, a.batch.current.result, ok), id);
  }

  lemma RestartIsOrderly(a: Agent, saved: Option<Base>, id: int)
    ensures Orderly(Next(a, Restart(saved)), id)
  {
    StoryStep(a.marks, Restarted, id);
  }

  lemma NextIsOrderly(a: Agent, s: Step, id: int)
    requires Orderly(a, id) && Can(a, s) && (s.Begin? ==> Listed(s.actions, id))
    ensures Orderly(Next(a, s), id)
  {
    match s
    case TakeNext => TakeIsOrderly(a, id);
    case RollBack => RollBackIsOrderly(a, id);
    case Report(ok) => ReportIsOrderly(a, ok, id);
    case Restart(saved) => RestartIsOrderly(a, saved, id);
    case _ =>
  }

  lemma {:induction false} OrderlyOverRuns(a: Agent, steps: seq<Step>, id: int)
    requires Orderly(a, id) && Runs(a, steps) && KeepsListing(steps, id)
    ensures Orderly(After(a, steps), id)
    decreases |steps|
  {
    if steps != [] {
      NextIsOrderly(a, steps[0], id);
      OrderlyOverRuns(Next(a, steps[0]), steps[1..], id);
    }
  }

  /** While the dashboard keeps listing a request, it is run at most once a start, whatever else happens. */
  lemma RunAtMostOnce(steps: seq<Step>, id: int)
    requires Runs(Fresh, steps) && KeepsListing(steps, id)
    ensures StoryOf(After(Fresh, steps).marks, id).ran <= 1
  {
    OrderlyOverRuns(Fresh, steps, id);
  }

  /** When its turn comes and there is room it is run exactly if it was not run since the last start. */
  lemma TurnIsRunIff(steps: seq<Step>, id: int)
    requires Runs(Fresh, steps) && KeepsListing(steps, id)
    requires var a := After(Fresh, steps);
             Can(a, TakeNext) && a.batch.todo[0].id == id && a.batch.ran < MAX_ACTIONS_PER_SYNC
    ensures var a := After(Fresh, steps);
            Next(a, TakeNext).marks == a.marks + [Ran(id)] <==> StoryOf(a.marks, id).ran == 0
  {
    OrderlyOverRuns(Fresh, steps, id);
    assert After(Fresh, steps).marks != After(Fresh, steps).marks + [Ran(id)];
  }

  /**
   * Its result is recorded once a start: every delivery carries it, each one before the last has failed, and it is
   * kept for another try exactly while the last one failed.
   */
  lemma ResultIsResentUntilDelivered(steps: seq<Step>, id: int)
    requires Runs(Fresh, steps) && KeepsListing(steps, id)
    ensures var a := After(Fresh, steps);
            var sends := StoryOf(a.marks, id).sends;
            && OneResult(sends)
            && (id in a.unsent <==> Owed(sends))
            && (id in a.unsent ==> a.unsent[id] == sends[|sends| - 1].0)
  {
    OrderlyOverRuns(Fresh, steps, id);
  }

  /**
   * What its turn comes to, told from what happened to it since the last start: left for a later list when it has
   * not run and ten have; sent again, with the result of its last delivery, if and only if that failed; run if it
   * has not; passed over once it was delivered.
   */
  lemma TurnIsExact(steps: seq<Step>, id: int)
    requires Runs(Fresh, steps) && KeepsListing(steps, id)
    requires Can(After(Fresh, steps), TakeNext) && After(Fresh, steps).batch.todo[0].id == id
    ensures var a := After(Fresh, steps);
            var s, b := StoryOf(a.marks, id), Next(a, TakeNext).batch;
            && b.todo == a.batch.todo[1..]
            && b.current ==
               if s.sends != [] && !s.sends[|s.sends| - 1].1 then Reporting(id, s.sends[|s.sends| - 1].0)
               else if s.ran == 0 && a.batch.ran < 10 then Running(a.batch.todo[0], Checking)
               else Idle
  {
    OrderlyOverRuns(Fresh, steps, id);
  }

  /** What is sent for a request that was run is what its run ended with, and it stays owed if that fails. */
  lemma FinishedIsSent(a: Agent, result: Result, ok: bool)
    requires Can(a, Finish(result))
    ensures var id, b := a.batch.current.action.id, Next(a, Finish(result));
            && Can(b, Report(ok))
            && var c := Next(b, Report(ok));
            && c.marks == a.marks + [Sent(id, result, ok)]
            && c.unsent == (if ok then a.unsent - {id} else a.unsent[id := result])
            && c.batch == a.batch.(current := Idle)
  {
  }

  /** A request rolled back since the last start is never among the applied ones again while it stays listed. */
  lemma RolledBackStaysOut(steps: seq<Step>, id: int)
    requires Runs(Fresh, steps) && KeepsListing(steps, id)
    ensures var a := After(Fresh, steps);
            StoryOf(a.marks, id).undone ==> id !in a.desired.overlay
  {
    OrderlyOverRuns(Fresh, steps, id);
  }

  /**
   * So the target of a close or block that was rolled back is in effect, while the last sync lists the request,
   * exactly when the highest applied request about it closes it: never through the state, even if that has it.
   */
  lemma RolledBackHasNoEffect(steps: seq<Step>, i: nat, t: Target, norm: string -> string)
    requires Runs(Fresh, steps) && i < |After(Fresh, steps).desired.pending|
    requires KeepsListing(steps, After(Fresh, steps).desired.pending[i].id)
    requires var a := After(Fresh, steps);
             var r := a.desired.pending[i];
             StoryOf(a.marks, r.id).undone && WouldClose(r, t, norm)
    ensures var d := After(Fresh, steps).desired;
            Effective(d, t, norm) <==> exists id :: Decides(d.overlay, t, id) && Closes(d.overlay[id].kind)
  {
    RolledBackStaysOut(steps, After(Fresh, steps).desired.pending[i].id);
    UnappliedHasNoEffect(After(Fresh, steps).desired, i, t, norm);
  }

  /** A request that has run is the highest applied one about t. */
  ghost predicate Rules(a: Agent, id: int, t: Target) {
    && id in a.done && Decides(a.desired.overlay, t, id)
    && (a.batch.Batch? ==>
          && (Listed(a.batch.todo, id) || id in a.batch.listed)
          && !(a.batch.current.Running? && a.batch.current.action.id == id))
  }

  /**
   * Nothing in the step takes id's place for t: it stays listed, no later request about t is applied, and the agent
   * is not started again.
   */
  predicate Leaves(s: Step, id: int, t: Target) {
    match s
    case SyncState(_, pending, _) => Listed(pending, id)
    case Begin(actions) => Listed(actions, id)
    case Apply(r) => About(r, t) ==> r.id <= id
    case Restart(_) => false
    case _ => true
  }

  lemma RulesStep(a: Agent, s: Step, id: int, t: Target)
    requires Rules(a, id, t) && Can(a, s) && Leaves(s, id, t)
    ensures Rules(Next(a, s), id, t) && Next(a, s).desired.overlay[id] == a.desired.overlay[id]
  {
    if s.TakeNext? && a.batch.todo[0].id != id && Listed(a.batch.todo, id) {
      ListedRest(a.batch.todo, id);
    }
  }

  /**
   * Over any run of syncs, requests, deliveries and rollbacks an applied request that stays listed keeps its
   * effect, whatever states arrive, until a later request about the same target is applied.
   */
  lemma {:induction false} AppliedKeepsEffect(a: Agent, steps: seq<Step>, id: int, t: Target, norm: string -> string)
    requires Rules(a, id, t) && Runs(a, steps) && forall i | 0 <= i < |steps| :: Leaves(steps[i], id, t)
    ensures Effective(a.desired, t, norm) <==> Closes(a.desired.overlay[id].kind)
    ensures Effective(After(a, steps).desired, t, norm) <==> Closes(a.desired.overlay[id].kind)
    decreases |steps|
  {
    DecidesIsUnique(a.desired.overlay, t, id);
    if steps != [] {
      RulesStep(a, steps[0], id, t);
      AppliedKeepsEffect(Next(a, steps[0]), steps[1..], id, t, norm);
    }
  }

  /** A listed request would close t. */
  ghost predicate ListsClose(pending: seq<Action>, t: Target, norm: string -> string) {
    exists i :: 0 <= i < |pending| && WouldClose(pending[i], t, norm)
  }

  /**
   * What a restart makes of the effects, applied requests included: the saved targets are in effect until the next
   * sync; then those of its state, or the saved ones if it has none, that no listed request would close. So an
   * applied close that is still listed is taken back by the first sync after a restart, until it has run again.
   */
  lemma EffectAfterRestartIff(a: Agent, saved: Option<Base>, state: Option<Base>, pending: seq<Action>, monitor: bool,
                              t: Target, norm: string -> string)
    ensures var b := Next(a, Restart(saved));
            && (Effective(b.desired, t, norm) <==> BaseLists(saved, t, norm))
            && (Effective(Next(b, SyncState(state, pending, monitor)).desired, t, norm) <==>
                  BaseLists(if state.Some? then state else saved, t, norm) && !ListsClose(pending, t, norm))
  {
    var b := Next(a, Restart(saved));
    var c := Next(b, SyncState(state, pending, monitor));
    assert c.desired.overlay == map[];
    if ListsClose(pending, t, norm) {
      var i :| 0 <= i < |pending| && WouldClose(pending[i], t, norm);
      assert pending[i].id !in c.desired.overlay;
      assert PendingCloses(c.desired, t, norm);
    }
  }

  /** A close that was applied, saved and is still listed: the first sync after a restart takes it back. */
  lemma RestartReopens(a: Agent, id: int, port: int, state: Option<Base>, norm: string -> string)
    requires Decides(a.desired.overlay, Port(port), id) && a.desired.overlay[id].kind == ClosePort
    ensures var saved := Some(Base([(port, "tcp")], []));
            var b := Next(a, Restart(saved));
            var c := Next(b, SyncState(state, [a.desired.overlay[id]], false));
            && Effective(a.desired, Port(port), norm) && Effective(b.desired, Port(port), norm)
            && !Effective(c.desired, Port(port), norm)
  {
    var r, saved := a.desired.overlay[id], Some(Base([(port, "tcp")], []));
    EffectAfterRestartIff(a, saved, state, [r], false, Port(port), norm);
    DecidesIsUnique(a.desired.overlay, Port(port), id);
    assert saved.value.ports[0] == (port, "tcp") && IsTcp("tcp");
    assert WouldClose([r][0], Port(port), norm);
  }

  function Ids(actions: seq<Action>): (r: set<int>)
    ensures forall id :: id in r <==> Listed(actions, id)
  {
    set i | 0 <= i < |actions| :: actions[i].id
  }

  /** The requests the marks from k on say were run. */
  function RanIds(marks: seq<Mark>, k: nat): set<int> {
    if |marks| <= k then {}
    else
      RanIds(marks[..|marks| - 1], k) +
      if marks[|marks| - 1].Ran? then {marks[|marks| - 1].id} else {}
  }

  lemma RanIdsStep(marks: seq<Mark>, m: Mark, k: nat)
    requires k <= |marks|
    ensures RanIds(marks + [m], k) == RanIds(marks, k) + if m.Ran? then {m.id} else {}
  {
    assert (marks + [m])[..|marks|] == marks;
  }

  /** At most ten requests run per list; fewer only when nothing seen of it is left to run. */
  predicate Paced(a: Agent) {
    && a.unsent.Keys <= a.done
    && (a.batch.Batch? ==>
          && a.batch.ran <= MAX_ACTIONS_PER_SYNC
          && (a.batch.ran < MAX_ACTIONS_PER_SYNC ==> a.batch.listed <= a.done)
          && (a.batch.current.Running? ==> a.batch.current.action.id in a.done)
          && (a.batch.current.Reporting? ==> a.batch.current.id in a.done))
  }

  lemma {:induction false} PacedOverRuns(a: Agent, steps: seq<Step>)
    requires Paced(a) && Runs(a, steps)
    ensures Paced(After(a, steps))
    decreases |steps|
  {
    if steps != [] {
      PacedOverRuns(Next(a, steps[0]), steps[1..]);
    }
  }

  /**
   * A list of the requests ids is being handled. It began with k marks and the requests done as handled; those
   * it ran since are the marked ones, each once.
   */
  predicate Handling(a: Agent, ids: set<int>, handled: set<int>, k: nat) {
    && Paced(a) && a.batch.Batch? && k <= |a.marks|
    && Ids(a.batch.todo) + a.batch.listed == ids
    && RanIds(a.marks, k) <= ids - handled && |RanIds(a.marks, k)| == a.batch.ran
    && a.done == handled + RanIds(a.marks, k)
  }

  lemma IdsStep(todo: seq<Action>)
    requires todo != []
    ensures Ids(todo) == {todo[0].id} + Ids(todo[1..])
  {
    forall id
      ensures Listed(todo, id) <==> Listed(todo[1..], id) || id == todo[0].id
    {
      if Listed(todo, id) && id != todo[0].id {
        ListedRest(todo, id);
      }
    }
  }

  /** The list and what was seen of it stay the requests ids. */
  lemma TakeKeepsIds(a: Agent, ids: set<int>)
    requires Can(a, TakeNext) && Ids(a.batch.todo) + a.batch.listed == ids
    ensures Take(a).batch.Batch? && Ids(Take(a).batch.todo) + Take(a).batch.listed == ids
    ensures a.batch.todo[0].id in ids
  {
    var id, rest := a.batch.todo[0].id, Ids(a.batch.todo[1..]);
    IdsStep(a.batch.todo);
    assert rest + (a.batch.listed + {id}) == ({id} + rest) + a.batch.listed;
  }

  /** Passing over a request, or sending its result, runs nothing. */
  lemma PassHandles(a: Agent, ids: set<int>, handled: set<int>, k: nat)
    requires Handling(a, ids, handled, k) && Can(a, TakeNext)
    requires a.batch.todo[0].id in a.done || a.batch.ran == MAX_ACTIONS_PER_SYNC
    ensures Handling(Take(a), ids, handled, k)
  {
    TakeKeepsIds(a, ids);
    assert Take(a).marks == a.marks && Take(a).done == a.done;
  }

  lemma RunHandles(a: Agent, ids: set<int>, handled: set<int>, k: nat)
    requires Handling(a, ids, handled, k) && Can(a, TakeNext)
    requires a.batch.todo[0].id !in a.done && a.batch.ran < MAX_ACTIONS_PER_SYNC
    ensures Handling(Take(a), ids, handled, k)
  {
    var id, ran, b := a.batch.todo[0].id, RanIds(a.marks, k), Take(a);
    TakeKeepsIds(a, ids);
    RanIdsStep(a.marks, Ran(id), k);
    RunMore(ids, handled, ran, id);
    assert b.marks == a.marks + [Ran(id)] && b.done == a.done + {id} && b.batch.ran == a.batch.ran + 1;
  }

  lemma RunMore(ids: set<int>, handled: set<int>, ran: set<int>, id: int)
    requires ran <= ids - handled && id in ids && id !in handled + ran
    ensures ran + {id} <= ids - handled && |ran + {id}| == |ran| + 1
    ensures handled + ran + {id} == handled + (ran + {id})
  {
  }

  lemma HandlingStep(a: Agent, s: Step, ids: set<int>, handled: set<int>, k: nat)
    requires Handling(a, ids, handled, k) && Can(a, s) && !s.End? && !s.Restart?
    ensures Handling(Next(a, s), ids, handled, k)
  {
    match s
    case TakeNext =>
      if a.batch.todo[0].id in a.done || a.batch.ran == MAX_ACTIONS_PER_SYNC {
        PassHandles(a, ids, handled, k);
      } else {
        RunHandles(a, ids, handled, k);
      }
    case RollBack => RanIdsStep(a.marks, Undone(a.batch.current.action.id), k);
    case Report(ok) => RanIdsStep(a.marks, Sent(a.batch.current.id, a.batch.current.result, ok), k);
    case _ =>
  }

  lemma {:induction false} HandlingOverRuns(a: Agent, steps: seq<Step>, ids: set<int>, handled: set<int>, k: nat)
    requires Handling(a, ids, handled, k) && Runs(a, steps)
    requires forall i | 0 <= i < |steps| :: !steps[i].End? && !steps[i].Restart?
    ensures Handling(After(a, steps), ids, handled, k)
    decreases |steps|
  {
    if steps != [] {
      HandlingStep(a, steps[0], ids, handled, k);
      HandlingOverRuns(Next(a, steps[0]), steps[1..], ids, handled, k);
    }
  }

  function Least(m: int, n: int): int {
    if m < n then m else n
  }

  /** How many a list of new requests runs, and that it leaves exactly the others not done. */
  lemma HandledRunsTen(a: Agent, ids: set<int>, handled: set<int>, k: nat)
    requires Handling(a, ids, handled, k) && Can(a, End)
    ensures a.batch.ran == Least(MAX_ACTIONS_PER_SYNC, |ids - handled|)
    ensures Settle(a).done == ids * (handled + RanIds(a.marks, k))
  {
    SubsetSize(RanIds(a.marks, k), ids - handled);
    if a.batch.ran < MAX_ACTIONS_PER_SYNC {
      assert ids - handled <= RanIds(a.marks, k);
      assert ids - handled == RanIds(a.marks, k);
    }
  }

  /**
   * One list from its beginning to its end, whatever syncs and answers come meanwhile: it runs ten of its
   * requests that were not done, or all of them when there are fewer, each once and no other. Done afterwards
   * are exactly its requests that were done or were run, so the skipped ones are still to be run.
   */
  lemma BatchRunsTen(a: Agent, actions: seq<Action>, steps: seq<Step>)
    requires Paced(a) && a.batch.NoBatch? && Runs(Next(a, Begin(actions)), steps)
    requires forall i | 0 <= i < |steps| :: !steps[i].End? && !steps[i].Restart?
    requires Can(After(Next(a, Begin(actions)), steps), End)
    ensures var b := After(Next(a, Begin(actions)), steps);
            var ran := RanIds(b.marks, |a.marks|);
            && ran <= Ids(actions) - a.done
            && |ran| == b.batch.ran == Least(MAX_ACTIONS_PER_SYNC, |Ids(actions) - a.done|)
            && Next(b, End).done == Ids(actions) * (a.done + ran)
  {
    var s := Next(a, Begin(actions));
    HandlingOverRuns(s, steps, Ids(actions), a.done, |a.marks|);
    HandledRunsTen(After(s, steps), Ids(actions), a.done, |a.marks|);
  }

  // ---- the results of one list

  /** How often a list has the request. */
  function Times(actions: seq<Action>, id: int): nat {
    if actions == [] then 0 else (if actions[0].id == id then 1 else 0) + Times(actions[1..], id)
  }

  /** The deliveries tried for the request since the marks were k, each with its result and whether it succeeded. */
  function SendsSince(marks: seq<Mark>, k: nat, id: int): seq<(Result, bool)> {
    if |marks| <= k then []
    else
      var m := marks[|marks| - 1];
      SendsSince(marks[..|marks| - 1], k, id) + if m.Sent? && m.id == id then [(m.result, m.ok)] else []
  }

  lemma SendsStep(marks: seq<Mark>, m: Mark, k: nat, id: int)
    requires k <= |marks|
    ensures SendsSince(marks + [m], k, id) ==
            SendsSince(marks, k, id) + if m.Sent? && m.id == id then [(m.result, m.ok)] else []
  {
    assert (marks + [m])[..|marks|] == marks;
  }

  /** What is owed for the request. */
  function OwedFor(a: Agent, id: int): Option<Result> {
    if id in a.unsent then Some(a.unsent[id]) else None
  }

  /** All deliveries but the last have failed, and all carry the same result. */
  predicate UpToSuccess(sends: seq<(Result, bool)>, result: Result) {
    && (forall i | 0 <= i < |sends| - 1 :: !sends[i].1)
    && (forall i | 0 <= i < |sends| :: sends[i].0 == result)
  }

  predicate IsCurrent(a: Agent, id: int)
    requires a.batch.Batch?
  {
    (a.batch.current.Running? && a.batch.current.action.id == id) ||
    (a.batch.current.Reporting? && a.batch.current.id == id)
  }

  /**
   * A list that has the request n times is being handled; it began with k marks and owed for the request. Before its
   * first turn nothing has changed about it; after its turns it was sent at each of them up to the first success, if
   * it was owed or has run, and else not at all.
   */
  predicate Delivering(a: Agent, id: int, k: nat, owed: Option<Result>, n: nat) {
    && Paced(a) && a.batch.Batch? && k <= |a.marks| && Times(a.batch.todo, id) <= n
    && if Times(a.batch.todo, id) == n then
         SendsSince(a.marks, k, id) == [] && id !in RanIds(a.marks, k) && OwedFor(a, id) == owed && !IsCurrent(a, id)
       else TurnsTaken(a, id, SendsSince(a.marks, k, id), id in RanIds(a.marks, k), owed, n - Times(a.batch.todo, id))
  }

  predicate TurnsTaken(a: Agent, id: int, sends: seq<(Result, bool)>, ran: bool, owed: Option<Result>, turns: nat)
    requires a.batch.Batch?
  {
    && (ran ==> owed.None?)
    && if IsCurrent(a, id) then
         && (ran || owed.Some?)
         && (a.batch.current.Running? ==> ran && sends == [] && turns == 1)
         && (a.batch.current.Reporting? ==>
               && |sends| == turns - 1 && (forall i | 0 <= i < |sends| :: !sends[i].1)
               && UpToSuccess(sends, a.batch.current.result)
               && (owed.Some? ==> a.batch.current.result == owed.value))
       else WasDelivered(a, id, sends, ran, owed, turns)
  }

  predicate WasDelivered(a: Agent, id: int, sends: seq<(Result, bool)>, ran: bool, owed: Option<Result>, turns: nat)
    requires a.batch.Batch?
  {
    if !ran && owed.None? then
      sends == [] && id !in a.unsent && (id in a.done || a.batch.ran >= MAX_ACTIONS_PER_SYNC)
    else
      && 0 < |sends| <= turns && UpToSuccess(sends, sends[0].0) && (owed.Some? ==> sends[0].0 == owed.value)
      && id in a.done
      && if sends[|sends| - 1].1 then id !in a.unsent
         else |sends| == turns && OwedFor(a, id) == Some(sends[0].0)
  }

  /** Nothing about the request changed between a and b. */
  predicate SameFor(a: Agent, b: Agent, id: int, k: nat) {
    && a.batch.Batch? && b.batch.Batch? && Paced(b) && k <= |b.marks|
    && SendsSince(b.marks, k, id) == SendsSince(a.marks, k, id)
    && (id in RanIds(b.marks, k) <==> id in RanIds(a.marks, k))
    && Times(b.batch.todo, id) == Times(a.batch.todo, id)
    && OwedFor(b, id) == OwedFor(a, id) && (id in a.done ==> id in b.done) && b.batch.ran >= a.batch.ran
    && !IsCurrent(a, id) && !IsCurrent(b, id)
  }

  lemma SameDelivers(a: Agent, b: Agent, id: int, k: nat, owed: Option<Result>, n: nat)
    requires Delivering(a, id, k, owed, n) && SameFor(a, b, id, k)
    ensures Delivering(b, id, k, owed, n)
  {
  }

  lemma TakeOtherChangesNothing(a: Agent, id: int, k: nat)
    requires Paced(a) && k <= |a.marks| && Can(a, TakeNext) && a.batch.todo[0].id != id
    ensures SameFor(a, Take(a), id, k)
  {
    RanIdsStep(a.marks, Ran(a.batch.todo[0].id), k);
    SendsStep(a.marks, Ran(a.batch.todo[0].id), k, id);
    TakeIsPaced(a);
  }

  lemma TakeOtherDelivers(a: Agent, id: int, k: nat, owed: Option<Result>, n: nat)
    requires Delivering(a, id, k, owed, n) && Can(a, TakeNext) && a.batch.todo[0].id != id
    ensures Delivering(Take(a), id, k, owed, n)
  {
    TakeOtherChangesNothing(a, id, k);
    SameDelivers(a, Take(a), id, k, owed, n);
  }

  lemma TakeThisDelivers(a: Agent, id: int, k: nat, owed: Option<Result>, n: nat)
    requires Delivering(a, id, k, owed, n) && Can(a, TakeNext) && a.batch.todo[0].id == id
    ensures Delivering(Take(a), id, k, owed, n)
  {
    RanIdsStep(a.marks, Ran(id), k);
    SendsStep(a.marks, Ran(id), k, id);
    assert Times(Take(a).batch.todo, id) == Times(a.batch.todo, id) - 1;
  }

  lemma ReportOtherDelivers(a: Agent, ok: bool, id: int, k: nat, owed: Option<Result>, n: nat)
    requires Delivering(a, id, k, owed, n) && Can(a, Report(ok)) && a.batch.current.id != id
    ensures Delivering(Next(a, Report(ok)), id, k, owed, n)
  {
    var m, b := Sent(a.batch.current.id, a.batch.current.result, ok), Next(a, Report(ok));
    RanIdsStep(a.marks, m, k);
    SendsStep(a.marks, m, k, id);
    assert SameFor(a, b, id, k);
    SameDelivers(a, b, id, k, owed, n);
  }

  lemma ReportThisDelivers(a: Agent, ok: bool, id: int, k: nat, owed: Option<Result>, n: nat)
    requires Delivering(a, id, k, owed, n) && Can(a, Report(ok)) && a.batch.current.id == id
    ensures Delivering(Next(a, Report(ok)), id, k, owed, n)
  {
    var m := Sent(a.batch.current.id, a.batch.current.result, ok);
    RanIdsStep(a.marks, m, k);
    SendsStep(a.marks, m, k, id);
    OneMoreSend(SendsSince(a.marks, k, id), a.batch.current.result, ok);
  }

  lemma OneMoreSend(sends: seq<(Result, bool)>, result: Result, ok: bool)
    requires UpToSuccess(sends, result) && forall i | 0 <= i < |sends| :: !sends[i].1
    ensures UpToSuccess(sends + [(result, ok)], result) && (sends + [(result, ok)])[0].0 == result
  {
  }

  lemma NextDelivers(a: Agent, s: Step, id: int, k: nat, owed: Option<Result>, n: nat)
    requires Delivering(a, id, k, owed, n) && Can(a, s) && !s.End? && !s.Restart?
    ensures Delivering(Next(a, s), id, k, owed, n)
  {
    match s
    case TakeNext =>
      if a.batch.todo[0].id == id {
        TakeThisDelivers(a, id, k, owed, n);
      } else {
        TakeOtherDelivers(a, id, k, owed, n);
      }
    case Report(ok) =>
      if a.batch.current.id == id {
        ReportThisDelivers(a, ok, id, k, owed, n);
      } else {
        ReportOtherDelivers(a, ok, id, k, owed, n);
      }
    case RollBack => RollBackDelivers(a, id, k, owed, n);
    case _ =>
  }

  lemma RollBackDelivers(a: Agent, id: int, k: nat, owed: Option<Result>, n: nat)
    requires Delivering(a, id, k, owed, n) && Can(a, RollBack)
    ensures Delivering(Next(a, RollBack), id, k, owed, n)
  {
    RanIdsStep(a.marks, Undone(a.batch.current.action.id), k);
    SendsStep(a.marks, Undone(a.batch.current.action.id), k, id);
  }

  lemma {:induction false} DeliveringOverRuns(a: Agent, steps: seq<Step>, id: int, k: nat, owed: Option<Result>, n: nat)
    requires Delivering(a, id, k, owed, n) && Runs(a, steps)
    requires forall i | 0 <= i < |steps| :: !steps[i].End? && !steps[i].Restart?
    ensures Delivering(After(a, steps), id, k, owed, n)
    decreases |steps|
  {
    if steps != [] {
      NextDelivers(a, steps[0], id, k, owed, n);
      DeliveringOverRuns(Next(a, steps[0]), steps[1..], id, k, owed, n);
    }
  }

  /**
   * One list from its beginning to its end, whatever else comes meanwhile: a request in it that was owed before, or
   * has run, is delivered at least once and no more than it stands in the list, always with the same result, the one
   * owed, up to the first success; any other request is not delivered. Afterwards a result is owed if and only if the
   * last delivery failed, and then every turn was used.
   */
  lemma ListDelivers(a: Agent, actions: seq<Action>, steps: seq<Step>, id: int)
    requires Paced(a) && a.batch.NoBatch? && Times(actions, id) > 0 && Runs(Next(a, Begin(actions)), steps)
    requires forall i | 0 <= i < |steps| :: !steps[i].End? && !steps[i].Restart?
    requires Can(After(Next(a, Begin(actions)), steps), End)
    ensures var b := After(Next(a, Begin(actions)), steps);
            var sends := SendsSince(b.marks, |a.marks|, id);
            if id !in a.unsent && id !in RanIds(b.marks, |a.marks|) then sends == [] && id !in b.unsent
            else
              && 0 < |sends| <= Times(actions, id) && UpToSuccess(sends, sends[0].0)
              && (id in a.unsent ==> sends[0].0 == a.unsent[id])
              && if sends[|sends| - 1].1 then id !in b.unsent
                 else |sends| == Times(actions, id) && id in b.unsent && b.unsent[id] == sends[0].0
  {
    DeliveringOverRuns(Next(a, Begin(actions)), steps, id, |a.marks|, OwedFor(a, id), Times(actions, id));
  }

  /** How many lists have come to their end since the last start, m of them before these steps. */
  function Ends(steps: seq<Step>, m: nat): nat {
    if steps == [] then m
    else Ends(steps[1..], if steps[0].Restart? then 0 else if steps[0].End? then m + 1 else m)
  }

  predicate ListsExactly(steps: seq<Step>, ids: set<int>) {
    forall i | 0 <= i < |steps| && steps[i].Begin? :: Ids(steps[i].actions) == ids
  }

  /** Of the requests ids, left were not done when the list being handled, or the next one, began. */
  predicate LeftToRun(a: Agent, ids: set<int>, left: nat) {
    && Paced(a)
    && (a.batch.NoBatch? ==> |ids - a.done| == left)
    && (a.batch.Batch? ==> Ids(a.batch.todo) + a.batch.listed == ids && |ids - a.done| + a.batch.ran == left)
  }

  function Minus(n: nat, m: nat): nat {
    if n < m then 0 else n - m
  }

  lemma OneLess(ids: set<int>, done: set<int>, id: int)
    requires id in ids && id !in done
    ensures |ids - (done + {id})| == |ids - done| - 1
  {
    assert ids - (done + {id}) == (ids - done) - {id};
  }

  lemma TakeIsPaced(a: Agent)
    requires Paced(a) && Can(a, TakeNext)
    ensures Paced(Take(a))
  {
  }

  lemma TakeLeaves(a: Agent, ids: set<int>, left: nat)
    requires LeftToRun(a, ids, left) && Can(a, TakeNext)
    ensures LeftToRun(Take(a), ids, left)
  {
    TakeKeepsIds(a, ids);
    TakeIsPaced(a);
    hide Paced, Ids;
    var id, b := a.batch.todo[0].id, Take(a);
    if id !in a.done && a.batch.ran < MAX_ACTIONS_PER_SYNC {
      assert b.batch.ran == a.batch.ran + 1;
      OneLess(ids, a.done, id);
    } else {
      assert b.done == a.done && b.batch.ran == a.batch.ran;
    }
  }

  lemma EndLeaves(a: Agent, ids: set<int>, left: nat)
    requires LeftToRun(a, ids, left) && Can(a, End)
    ensures LeftToRun(Settle(a), ids, Minus(left, MAX_ACTIONS_PER_SYNC))
  {
    assert Ids(a.batch.todo) == {};
    assert ids - Settle(a).done == ids - a.done;
    if a.batch.ran < MAX_ACTIONS_PER_SYNC {
      assert ids - a.done == {};
    }
  }

  /** What is left of the requests ids after m lists since the last start. */
  function LeftAfter(ids: set<int>, m: nat): nat {
    Minus(|ids|, MAX_ACTIONS_PER_SYNC * m)
  }

  lemma LeftToRunStep(a: Agent, s: Step, ids: set<int>, m: nat)
    requires LeftToRun(a, ids, LeftAfter(ids, m)) && Can(a, s) && (s.Begin? ==> Ids(s.actions) == ids)
    ensures LeftToRun(Next(a, s), ids, LeftAfter(ids, if s.Restart? then 0 else if s.End? then m + 1 else m))
  {
    match s
    case TakeNext => TakeLeaves(a, ids, LeftAfter(ids, m));
    case End => EndLeaves(a, ids, LeftAfter(ids, m));
    case Restart(_) => assert ids - {} == ids;
    case _ =>
  }

  lemma {:induction false} LeftToRunOverRuns(a: Agent, steps: seq<Step>, ids: set<int>, m: nat)
    requires LeftToRun(a, ids, LeftAfter(ids, m)) && Runs(a, steps) && ListsExactly(steps, ids)
    ensures LeftToRun(After(a, steps), ids, LeftAfter(ids, Ends(steps, m)))
    decreases |steps|
  {
    if steps != [] {
      var s := steps[0];
      LeftToRunStep(a, s, ids, m);
      LeftToRunOverRuns(Next(a, s), steps[1..], ids, if s.Restart? then 0 else if s.End? then m + 1 else m);
    }
  }

  /**
   * Syncs that keep listing the same n requests run ten of them each until all have run, once each, in exactly
   * n / 10 lists rounded up: between two lists n - 10 m are left after m of them since the last start, whatever else
   * happens.
   */
  lemma RepeatedListRunsAll(steps: seq<Step>, ids: set<int>)
    requires Runs(Fresh, steps) && ListsExactly(steps, ids) && After(Fresh, steps).batch.NoBatch?
    ensures var a := After(Fresh, steps);
            && |ids - a.done| == Minus(|ids|, MAX_ACTIONS_PER_SYNC * Ends(steps, 0))
            && forall id | id in ids :: StoryOf(a.marks, id).ran == if id in a.done then 1 else 0
  {
    assert ids - Fresh.done == ids;
    LeftToRunOverRuns(Fresh, steps, ids, 0);
    forall id | id in ids
      ensures StoryOf(After(Fresh, steps).marks, id).ran == if id in After(Fresh, steps).done then 1 else 0
    {
      OrderlyOverRuns(Fresh, steps, id);
    }
  }

  /** The source's variables, with its loops, refining the steps. */
  class RequestRunner {
    var base: Option<Base>
    var pending: seq<Action>
    var monitor: bool
    var overlay: map<int, Action>
    var done: set<int>
    var unsent: map<int, Result>
    var batch: Batch
    ghost var marks: seq<Mark>

    ghost function View(): Agent
      reads this
    {
      Agent(Desired(base, pending, monitor, overlay), done, unsent, batch, marks)
    }

    /** A start with what was saved; nothing else survives one. */
    constructor (saved: Option<Base>, ghost before: seq<Mark>)
      ensures View() == Started(saved, before)
    {
      base, pending, monitor, overlay := saved, [], false, map[];
      done, unsent, batch, marks := {}, map[], NoBatch, before;
    }

    /** applyFirewallState, up to the enforcement: requests no longer listed leave the overlay. */
    method ApplyFirewallState(state: Option<Base>, listed: seq<Action>, monitorMode: bool)
      modifies this`base, this`pending, this`monitor, this`overlay
      ensures View() == Next(old(View()), SyncState(state, listed, monitorMode))
    {
      if state.Some? {
        base := state;
      }
      pending, monitor := listed, monitorMode;
      var open: set<int> := {};
      for i := 0 to |listed|
        invariant forall id :: id in open <==> Listed(listed[..i], id)
        modifies {}
      {
        assert listed[..i + 1] == listed[..i] + [listed[i]];
        ListedStep(listed[..i], listed[i]);
        open := open + {listed[i].id};
      }
      assert listed[..|listed|] == listed;
      var ids := overlay.Keys;
      ghost var before := overlay;
      while ids != {}
        invariant ids <= before.Keys
        invariant overlay == map id | id in before && (id in ids || id in open) :: before[id]
        modifies this`overlay
        decreases ids
      {
        var id := Pick(ids);
        ids := ids - {id};
        if id !in open {
          overlay := overlay - {id};
        }
      }
      assert forall id :: id in open <==> Listed(listed, id);
      assert ids == {} && overlay == map id | id in before && Listed(listed, id) :: before[id];
      assert overlay == Sync(old(View()).desired, state, listed, monitorMode).overlay;
    }

    /** One request of the list, up to the point where it has to be run or its result sent. */
    method TakeRequest()
      requires Can(View(), TakeNext)
      modifies this`done, this`batch, this`marks
      ensures View() == Next(old(View()), TakeNext)
    {
      var r := batch.todo[0];
      batch := batch.(todo := batch.todo[1..], listed := batch.listed + {r.id});
      var seen := r.id in done;
      var resend := r.id in unsent;
      if !seen && batch.ran >= MAX_ACTIONS_PER_SYNC {
        return;
      }
      done := done + {r.id};
      if resend {
        batch := batch.(current := Reporting(r.id, unsent[r.id]));
      } else if !seen {
        batch := batch.(ran := batch.ran + 1, current := Running(r, Checking));
        marks := marks + [Ran(r.id)];
      }
    }

    method SendResult(ok: bool)
      requires Can(View(), Report(ok))
      modifies this`unsent, this`batch, this`marks
      ensures View() == Next(old(View()), Report(ok))
    {
      var id, result := batch.current.id, batch.current.result;
      if ok {
        unsent := unsent - {id};
      } else {
        unsent := unsent[id := result];
      }
      batch := batch.(current := Idle);
      marks := marks + [Sent(id, result, ok)];
    }

    /** The end of a list: requests the dashboard no longer lists are settled. */
    method SettleRequests()
      requires Can(View(), End)
      modifies this`done, this`unsent, this`batch
      ensures View() == Next(old(View()), End)
    {
      var ids := done;
      ghost var gone: set<int> := {};
      while ids != {}
        invariant ids <= old(done) && gone == old(done) - ids - batch.listed
        invariant done == old(done) - gone && unsent == old(unsent) - gone
        modifies this`done, this`unsent
        decreases ids
      {
        var id := Pick(ids);
        ids := ids - {id};
        if id !in batch.listed {
          done, unsent := done - {id}, unsent - {id};
          gone := gone + {id};
        }
      }
      assert ids == {} && gone == old(done) - {} - batch.listed;
      batch := NoBatch;
    }
  }

  lemma ListedStep(actions: seq<Action>, a: Action)
    ensures forall id :: Listed(actions + [a], id) <==> Listed(actions, id) || id == a.id
  {
    forall id
      ensures Listed(actions + [a], id) <==> Listed(actions, id) || id == a.id
    {
      if Listed(actions, id) {
        var i :| 0 <= i < |actions| && actions[i].id == id;
        assert (actions + [a])[i].id == id;
      }
      assert (actions + [a])[|actions|] == a;
    }
  }
}
