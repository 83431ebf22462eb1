/**
 * The events of the hosting panel that wait for the dashboard (panelReport and flushOutboxLocked in
 * cmd/infrafence-agent/panelstate.go). Every send holds one lock, so the steps here follow one another; an
 * answer says whether the dashboard accepted what was sent.
 */
module PanelOutbox {
  import opened Sequences

  const MAX_OUTBOX := 500
  const MAX_AGE := 604800

  /** id is the place of the event among all that were reported; at is None when its time cannot be read. */
  datatype Event = Event(id: nat, at: Time)

  datatype Time = At(seconds: int) | Unreadable

  datatype Item = Item(seqNo: nat, event: Event)

  /** The outbox with what happened to the events so far: reported, accepted by the dashboard, given up. */
  datatype State = State(items: seq<Item>, nextSeq: nat,
                         reported: seq<Event>, accepted: seq<Event>, dropped: seq<Event>)

  function Events(items: seq<Item>): seq<Event> {
    if items == [] then [] else [items[0].event] + Events(items[1..])
  }

  lemma {:induction false} EventsConcat(a: seq<Item>, b: seq<Item>)
    ensures Events(a + b) == Events(a) + Events(b)
    ensures |Events(a)| == |a|
  {
    if a == [] {
      assert a + b == b;
    } else {
      EventsConcat(a[1..], b);
      assert (a + b)[0] == a[0] && (a + b)[1..] == a[1..] + b;
      ConcatAssoc([a[0].event], Events(a[1..]), Events(b));
    }
  }

  predicate Stale(e: Event, now: int) {
    e.at.At? && e.at.seconds < now - MAX_AGE
  }

  function Sendable(events: seq<Event>, now: int): seq<Event> {
    Filter((e: Event) => !Stale(e, now), events)
  }

  function StaleOnes(events: seq<Event>, now: int): seq<Event> {
    Filter((e: Event) => Stale(e, now), events)
  }

  // ---- the steps

  /** flushOutboxLocked: everything waiting goes in one request, the events older than a week left out. */
  function Flush(s: State, accepts: bool, now: int): State {
    var events := Events(s.items);
    if s.items == [] || (Sendable(events, now) != [] && !accepts) then s
    else s.(items := [], accepted := s.accepted + Sendable(events, now), dropped := s.dropped + StaleOnes(events, now))
  }

  function Numbered(events: seq<Event>, from: nat): seq<Item> {
    if events == [] then [] else [Item(from + 1, events[0])] + Numbered(events[1..], from + 1)
  }

  /** The newest items, up to the bound. */
  function Newest(items: seq<Item>): seq<Item> {
    if |items| > MAX_OUTBOX then items[|items| - MAX_OUTBOX..] else items
  }

  function Oldest(items: seq<Item>): seq<Item> {
    if |items| > MAX_OUTBOX then items[..|items| - MAX_OUTBOX] else []
  }

  function Queue(s: State, events: seq<Event>): State {
    var all := Waiting(s, events);
    State(Newest(all), s.nextSeq + |events|, s.reported + events, s.accepted, s.dropped + Events(Oldest(all)))
  }

  /** panelReport: directly when nothing waits, else behind what waits. */
  function Report(s: State, events: seq<Event>, first: bool, second: bool, now: int): State {
    if s.items == [] && first then s.(reported := s.reported + events, accepted := s.accepted + events)
    else Flush(Queue(s, events), second, now)
  }

  datatype Op = Reporting(events: seq<Event>, first: bool, second: bool, at: int) | Flushing(accepts: bool, now: int)

  function Apply(s: State, op: Op): State {
    match op
    case Reporting(events, first, second, at) => Report(s, events, first, second, at)
    case Flushing(accepts, now) => Flush(s, accepts, now)
  }

  // ---- what holds over every run

  predicate Balanced(reported: seq<Event>, accepted: seq<Event>, dropped: seq<Event>, waiting: seq<Event>) {
    multiset(reported) == multiset(accepted) + multiset(dropped) + multiset(waiting)
  }

  predicate Ascending(items: seq<Item>, nextSeq: nat) {
    && (forall i, j | 0 <= i < j < |items| :: items[i].seqNo < items[j].seqNo)
    && (forall i | 0 <= i < |items| :: items[i].seqNo <= nextSeq)
  }

  /**
   * The ledger: every reported event was accepted, given up or waits; what the dashboard has is in the order of
   * the reports and what waits comes after it; the numbers of the waiting events ascend.
   */
  predicate Sound(s: State) {
    && Balanced(s.reported, s.accepted, s.dropped, Events(s.items))
    && Subseq(s.accepted + Events(s.items), s.reported)
    && |s.items| <= MAX_OUTBOX
    && Ascending(s.items, s.nextSeq)
  }

  lemma {:induction false} FilterSplits(events: seq<Event>, now: int)
    ensures multiset(events) == multiset(Sendable(events, now)) + multiset(StaleOnes(events, now))
    ensures Subseq(Sendable(events, now), events)
  {
    if events != [] {
      FilterSplits(events[1..], now);
      assert events == [events[0]] + events[1..];
      if Stale(events[0], now) {
        assert StaleOnes(events, now) == [events[0]] + StaleOnes(events[1..], now);
        SkipFirst(Sendable(events[1..], now), events);
      } else {
        assert Sendable(events, now) == [events[0]] + Sendable(events[1..], now);
      }
    }
  }

  lemma SkipFirst<T>(a: seq<T>, b: seq<T>)
    requires b != [] && Subseq(a, b[1..])
    ensures Subseq(a, b)
  {
    if a != [] && a[0] == b[0] {
      SubseqWeaken(a, b[1..]);
    }
  }

  lemma FlushIsSound(s: State, accepts: bool, now: int)
    requires Sound(s)
    ensures Sound(Flush(s, accepts, now))
  {
    var events := Events(s.items);
    FilterSplits(events, now);
    var t := Flush(s, accepts, now);
    if t != s {
      SubseqRefl(s.accepted);
      SubseqConcat(s.accepted, s.accepted, Sendable(events, now), events);
      SubseqTrans(t.accepted, s.accepted + events, s.reported);
      assert t.accepted + Events(t.items) == t.accepted;
    }
  }

  lemma {:induction false} NumberedIsAscending(events: seq<Event>, from: nat)
    ensures |Numbered(events, from)| == |events| && Events(Numbered(events, from)) == events
    ensures forall i | 0 <= i < |events| :: Numbered(events, from)[i].seqNo == from + 1 + i
  {
    if events != [] {
      NumberedIsAscending(events[1..], from + 1);
      assert events == [events[0]] + events[1..];
    }
  }

  lemma {:induction false} SuffixIsSubseq<T>(s: seq<T>, k: nat)
    requires k <= |s|
    ensures Subseq(s[k..], s)
  {
    if k == 0 {
      SubseqRefl(s);
      assert s[0..] == s;
    } else {
      SuffixIsSubseq(s[1..], k - 1);
      assert s[1..][k - 1..] == s[k..];
      SkipFirst(s[k..], s);
    }
  }

  /** Everything that waits when events are queued, before room is made. */
  function Waiting(s: State, events: seq<Event>): seq<Item> {
    s.items + Numbered(events, s.nextSeq)
  }

  lemma WaitingEvents(s: State, events: seq<Event>)
    ensures Events(Waiting(s, events)) == Events(s.items) + events
    ensures |Waiting(s, events)| == |s.items| + |events|
  {
    NumberedIsAscending(events, s.nextSeq);
    EventsConcat(s.items, Numbered(events, s.nextSeq));
  }

  lemma TrimmedEvents(all: seq<Item>)
    ensures Events(all) == Events(Oldest(all)) + Events(Newest(all))
    ensures Subseq(Events(Newest(all)), Events(all))
  {
    assert all == Oldest(all) + Newest(all);
    EventsConcat(Oldest(all), Newest(all));
    SuffixIsSubseq(Events(all), |Events(Oldest(all))|);
    assert Events(all)[|Events(Oldest(all))|..] == Events(Newest(all));
  }

  lemma QueueIsSound(s: State, events: seq<Event>)
    requires Sound(s)
    ensures Sound(Queue(s, events))
  {
    var all := Waiting(s, events);
    var given, kept := Events(Oldest(all)), Events(Newest(all));
    WaitingEvents(s, events);
    TrimmedEvents(all);
    QueueKeepsBalance(s.reported, s.accepted, s.dropped, Events(s.items), events, given, kept);
    QueueKeepsSubseq(s.accepted, Events(s.items), events, kept, s.reported);
    QueueKeepsOrder(s, events);
  }

  lemma QueueKeepsBalance(reported: seq<Event>, accepted: seq<Event>, dropped: seq<Event>, waiting: seq<Event>,
                          events: seq<Event>, given: seq<Event>, kept: seq<Event>)
    requires Balanced(reported, accepted, dropped, waiting) && waiting + events == given + kept
    ensures Balanced(reported + events, accepted, dropped + given, kept)
  {
    var a, d, w := multiset(accepted), multiset(dropped), multiset(waiting);
    var e, g, k := multiset(events), multiset(given), multiset(kept);
    assert w + e == multiset(waiting + events) == multiset(given + kept) == g + k;
    assert multiset(reported + events) == (a + d + w) + e == a + d + (w + e);
    assert multiset(dropped + given) == d + g;
    assert a + d + (g + k) == a + (d + g) + k;
  }

  /** What waits now follows what was accepted, in the order of the reports. */
  lemma QueueKeepsSubseq(accepted: seq<Event>, waiting: seq<Event>, events: seq<Event>, kept: seq<Event>,
                         reported: seq<Event>)
    requires Subseq(accepted + waiting, reported) && Subseq(kept, waiting + events)
    ensures Subseq(accepted + kept, reported + events)
  {
    SubseqRefl(events);
    SubseqConcat(accepted + waiting, reported, events, events);
    ConcatAssoc(accepted, waiting, events);
    SubseqRefl(accepted);
    SubseqConcat(accepted, accepted, kept, waiting + events);
    SubseqTrans(accepted + kept, accepted + (waiting + events), reported + events);
  }

  lemma AscendingConcat(a: seq<Item>, b: seq<Item>, m: nat, n: nat)
    requires Ascending(a, m) && Ascending(b, n) && m <= n && forall i | 0 <= i < |b| :: b[i].seqNo > m
    ensures Ascending(a + b, n)
  {
    forall i, j | 0 <= i < j < |a + b|
      ensures (a + b)[i].seqNo < (a + b)[j].seqNo
    {
      if j >= |a| && i < |a| {
        assert b[j - |a|].seqNo > m && a[i].seqNo <= m;
      }
    }
  }

  lemma QueueKeepsOrder(s: State, events: seq<Event>)
    requires Ascending(s.items, s.nextSeq)
    ensures Ascending(Queue(s, events).items, s.nextSeq + |events|)
  {
    var more := Numbered(events, s.nextSeq);
    NumberedIsAscending(events, s.nextSeq);
    AscendingConcat(s.items, more, s.nextSeq, s.nextSeq + |events|);
  }

  lemma ApplyIsSound(s: State, op: Op)
    requires Sound(s)
    ensures Sound(Apply(s, op))
  {
    match op
    case Flushing(accepts, now) => FlushIsSound(s, accepts, now);
    case Reporting(events, first, second, at) =>
      if s.items == [] && first {
        SubseqRefl(events);
        assert s.accepted + Events(s.items) == s.accepted;
        SubseqConcat(s.accepted, s.reported, events, events);
        var t := Apply(s, op);
        assert t.accepted + Events(t.items) == t.accepted;
      } else {
        QueueIsSound(s, events);
        FlushIsSound(Queue(s, events), second, at);
      }
  }

  function Run(s: State, ops: seq<Op>): State
    decreases |ops|
  {
    if ops == [] then s else Run(Apply(s, ops[0]), ops[1..])
  }

  /** Over any reports, syncs and answers the ledger holds, so the dashboard never gets two events out of order. */
  lemma {:induction false} SoundOverRuns(s: State, ops: seq<Op>)
    requires Sound(s)
    ensures Sound(Run(s, ops))
    decreases |ops|
  {
    if ops != [] {
      ApplyIsSound(s, ops[0]);
      SoundOverRuns(Apply(s, ops[0]), ops[1..]);
    }
  }

  /** An event is given up only when it is older than a week at a flush or 500 newer ones wait. */
  lemma GivenUpOnlyFor(s: State, op: Op, e: Event)
    requires e !in s.dropped
    ensures e in Apply(s, op).dropped ==>
              match op
              case Flushing(_, now) => Stale(e, now) && e in Events(s.items)
              case Reporting(events, _, _, at) =>
                var all := Waiting(s, events);
                || (|all| > MAX_OUTBOX && e in Events(all[..|all| - MAX_OUTBOX]))
                || (Stale(e, at) && e in Events(Newest(all)))
  {
    match op
    case Flushing(_, now) => FilterMember((x: Event) => Stale(x, now), Events(s.items), e);
    case Reporting(events, _, _, at) =>
      var all := Waiting(s, events);
      FilterMember((x: Event) => Stale(x, at), Events(Newest(all)), e);
  }

  /** What a flush sends: all but the events known to be older than a week. */
  lemma SentUnlessOld(events: seq<Event>, now: int, e: Event)
    ensures e in Sendable(events, now) <==> e in events && (e.at.Unreadable? || e.at.seconds >= now - 7 * 24 * 60 * 60)
  {
    FilterMember((x: Event) => !Stale(x, now), events, e);
  }

  /**
   * A flush moves what it sends to the dashboard's side if and only if the dashboard accepts it, and then nothing
   * waits; refused, all of it waits on, the old events too. It does not ask when all that waits is old.
   */
  lemma FlushIsExact(s: State, accepts: bool, now: int)
    ensures var t, send := Apply(s, Flushing(accepts, now)), Sendable(Events(s.items), now);
            && t.accepted == s.accepted + (if accepts then send else [])
            && t.items == (if accepts || send == [] then [] else s.items)
            && t.reported == s.reported
  {
    assert s.accepted + [] == s.accepted;
    if s.items == [] {
      assert Sendable([], now) == [];
    }
  }

  /** The events that wait once these are reported, the newest 500. */
  function NewestEvents(all: seq<Event>): seq<Event> {
    if |all| > 500 then all[|all| - 500..] else all
  }

  lemma NewestWait(s: State, events: seq<Event>)
    ensures Events(Queue(s, events).items) == NewestEvents(Events(s.items) + events)
  {
    var all := Waiting(s, events);
    WaitingEvents(s, events);
    TrimmedEvents(all);
    EventsConcat(all, []);
    EventsConcat(Oldest(all), Newest(all));
    assert Events(all)[|Oldest(all)|..] == Events(Newest(all));
  }

  /**
   * A report is sent on its own if and only if nothing waits; accepted then it is done. Otherwise it waits behind the
   * others, and all that fits goes in one request, accepted or left to wait as a whole. The answer to the direct
   * send counts for nothing while something waits.
   */
  lemma ReportIsExact(s: State, events: seq<Event>, first: bool, second: bool, now: int)
    ensures var t := Apply(s, Reporting(events, first, second, now));
            var wait := NewestEvents(Events(s.items) + events);
            var send := Sendable(wait, now);
            if s.items == [] && first then t.accepted == s.accepted + events && t.items == []
            else
              && t.accepted == s.accepted + (if second then send else [])
              && Events(t.items) == (if second || send == [] then [] else wait)
  {
    NewestWait(s, events);
    FlushIsExact(Queue(s, events), second, now);
  }

  // ---- the code

  class Outbox {
    var items: seq<Item>
    var nextSeq: nat
    ghost var reported: seq<Event>
    ghost var accepted: seq<Event>
    ghost var dropped: seq<Event>

    ghost function Now(): State
      reads this
    {
      State(items, nextSeq, reported, accepted, dropped)
    }

    constructor ()
      ensures Now() == State([], 0, [], [], [])
    {
      items, nextSeq, reported, accepted, dropped := [], 0, [], [], [];
    }

    /** flushOutboxLocked; accepts is the answer of the dashboard, if it is asked. */
    method FlushOutbox(accepts: bool, now: int)
      requires Ascending(items, nextSeq)
      modifies this
      ensures Ascending(items, nextSeq) && Now() == Flush(old(Now()), accepts, now)
    {
      var pending := items;
      if |pending| == 0 {
        return;
      }
      var send := ToSend(pending, now);
      if |send| > 0 && !accepts {
        return;
      }
      var sent := pending[|pending| - 1].seqNo;
      NoneLeft(items, sent);
      items := Later(items, sent);
      accepted := accepted + send;
      dropped := dropped + StaleOnes(Events(pending), now);
    }

    /** Puts events behind those that wait; the oldest beyond the bound are given up. */
    method QueueEvents(events: seq<Event>)
      requires Ascending(items, nextSeq)
      modifies this
      ensures Ascending(items, nextSeq) && Now() == Queue(old(Now()), events)
    {
      hide Events, Numbered, Ascending;
      QueueKeepsOrder(Now(), events);
      NumberedIsAscending(events, nextSeq);
      items := items + Numbered(events, nextSeq);
      nextSeq := nextSeq + |events|;
      reported := reported + events;
      dropped := dropped + Events(Oldest(items));
      if |items| > MAX_OUTBOX {
        items := items[|items| - MAX_OUTBOX..];
      }
    }

    /** panelReport; the answers are of the direct send and of the send through the outbox. */
    method ReportEvents(events: seq<Event>, first: bool, second: bool, now: int) returns (delivered: bool)
      requires Ascending(items, nextSeq)
      modifies this
      ensures Ascending(items, nextSeq) && Now() == Report(old(Now()), events, first, second, now)
      ensures events != [] ==> (delivered <==> items == [])
    {
      if |items| == 0 && first {
        reported := reported + events;
        accepted := accepted + events;
        return true;
      }
      if events != [] {
        LastIsNewest(Now(), events);
      }
      QueueEvents(events);
      FlushOutbox(second, now);
      delivered := !Waits(items, nextSeq);
    }
  }

  predicate Waits(items: seq<Item>, seqNo: nat) {
    exists i | 0 <= i < |items| :: items[i].seqNo == seqNo
  }

  lemma LastIsNewest(s: State, events: seq<Event>)
    requires events != []
    ensures var q := Queue(s, events);
            q.items != [] && q.items[|q.items| - 1].seqNo == q.nextSeq
  {
    NumberedIsAscending(events, s.nextSeq);
  }

  /** The events of a flush that are not older than a week. */
  method ToSend(pending: seq<Item>, now: int) returns (send: seq<Event>)
    ensures send == Sendable(Events(pending), now)
  {
    send := [];
    for i := 0 to |pending|
      invariant send == Sendable(Events(pending[..i]), now)
    {
      MoreEvents(pending, i, now);
      if !Stale(pending[i].event, now) {
        send := send + [pending[i].event];
      }
    }
    assert pending[..|pending|] == pending;
  }

  function Later(items: seq<Item>, sent: nat): seq<Item> {
    Filter((it: Item) => it.seqNo > sent, items)
  }

  lemma {:induction false} NoneLeft(items: seq<Item>, sent: nat)
    requires forall i | 0 <= i < |items| :: items[i].seqNo <= sent
    ensures Later(items, sent) == []
  {
    if items != [] {
      NoneLeft(items[1..], sent);
    }
  }

  lemma MoreEvents(items: seq<Item>, i: nat, now: int)
    requires i < |items|
    ensures Sendable(Events(items[..i + 1]), now) ==
            Sendable(Events(items[..i]), now) + if Stale(items[i].event, now) then [] else [items[i].event]
  {
    assert items[..i + 1] == items[..i] + [items[i]];
    EventsConcat(items[..i], [items[i]]);
    assert Events([items[i]]) == [items[i].event];
    FilterConcat((e: Event) => !Stale(e, now), Events(items[..i]), [items[i].event]);
  }
}
