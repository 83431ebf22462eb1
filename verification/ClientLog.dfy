/**
 * The log of the addresses that use the database ports (internal/dbclients/dbclients.go); norm numbers the
 * public addresses in the order of their text.
 */
module ClientLog {
  import opened Collections

  const WINDOW_DAYS := 7
  const MIN_DAYS := 3
  const MAX_PER_PORT_DAY := 200
  const MAX_PER_PORT := 1000
  const MAX_PORTS := 64

  /** One address on one port on one day; times are unix seconds. */
  datatype Entry = Entry(first: int, last: int, samples: nat, sent: nat)

  type Days = map<int, Entry>
  type PortLog = map<nat, Days>
  type Ports = map<int, PortLog>

  /** The addresses recorded for a day. */
  function OnDay(log: PortLog, day: int): set<nat> {
    set a | a in log && day in log[a]
  }

  /** Seen on one day only, and not today. */
  predicate Evictable(log: PortLog, a: nat, today: int) {
    a in log && |log[a]| == 1 && today !in log[a]
  }

  /** a comes before b when room is made: fewer samples, then the lower address. */
  predicate Before(log: PortLog, a: nat, b: nat)
    requires a in log && b in log
  {
    forall d, e | d in log[a] && e in log[b] ::
      log[a][d].samples < log[b][e].samples || (log[a][d].samples == log[b][e].samples && a <= b)
  }

  predicate IsVictim(log: PortLog, a: nat, today: int) {
    Evictable(log, a, today) && forall b | b in log && Evictable(log, b, today) :: Before(log, a, b)
  }

  function Candidates(log: PortLog, today: int): set<nat> {
    set a | a in log && Evictable(log, a, today)
  }

  /** The only day of a candidate. */
  lemma OneDay(days: Days) returns (d: int)
    requires |days| == 1
    ensures days.Keys == {d}
  {
    d := SomeMember(days.Keys);
    assert |days.Keys - {d}| == 0;
    assert days.Keys == {d};
  }

  lemma BeforeIsOrder(log: PortLog, a: nat, b: nat, c: nat, today: int)
    requires Evictable(log, a, today) && Evictable(log, b, today) && Evictable(log, c, today)
    ensures Before(log, a, b) || Before(log, b, a)
    ensures Before(log, a, a)
    ensures Before(log, a, b) && Before(log, b, c) ==> Before(log, a, c)
    ensures Before(log, a, b) && Before(log, b, a) ==> a == b
  {
    var d := OneDay(log[a]);
    var e := OneDay(log[b]);
    var f := OneDay(log[c]);
  }

  lemma {:induction false} LeastExists(log: PortLog, today: int, cs: set<nat>) returns (v: nat)
    requires cs != {} && cs <= Candidates(log, today)
    ensures v in cs && forall b | b in cs :: Before(log, v, b)
    decreases |cs|
  {
    v := SomeMember(cs);
    BeforeIsOrder(log, v, v, v, today);
    var rest := cs - {v};
    if rest != {} {
      var w := LeastExists(log, today, rest);
      BeforeIsOrder(log, v, w, w, today);
      if !Before(log, v, w) {
        v := w;
      } else {
        forall b | b in cs
          ensures Before(log, v, b)
        {
          BeforeIsOrder(log, v, w, if b in rest then b else v, today);
        }
      }
    }
  }

  ghost function Victim(log: PortLog, today: int): (v: nat)
    requires Candidates(log, today) != {}
    ensures IsVictim(log, v, today)
  {
    var w := LeastWitness(log, today);
    var v: nat :| IsVictim(log, v, today);
    v
  }

  ghost function LeastWitness(log: PortLog, today: int): (b: bool)
    requires Candidates(log, today) != {}
    ensures exists v: nat :: IsVictim(log, v, today)
  {
    VictimExists(log, today);
    true
  }

  lemma VictimExists(log: PortLog, today: int)
    requires Candidates(log, today) != {}
    ensures exists v: nat :: IsVictim(log, v, today)
  {
    var v := LeastExists(log, today, Candidates(log, today));
    assert IsVictim(log, v, today);
  }

  lemma VictimIsUnique(log: PortLog, today: int, v: nat)
    requires IsVictim(log, v, today)
    ensures Candidates(log, today) != {} && v == Victim(log, today)
  {
    assert v in Candidates(log, today);
    BeforeIsOrder(log, v, Victim(log, today), v, today);
  }

  // ---- one sample, as functions

  /** The entry after one more sample at now. */
  function Sampled(days: Days, today: int, now: int): Days {
    var e := if today in days then days[today] else Entry(now, now, 0, 0);
    days[today := e.(last := now, samples := e.samples + 1)]
  }

  /** Room for a new address, if there is any: None when it is not counted today. */
  ghost function RoomFor(log: PortLog, today: int): Option<PortLog> {
    if |OnDay(log, today)| >= MAX_PER_PORT_DAY then None
    else if |log| < MAX_PER_PORT then Some(log)
    else if Candidates(log, today) == {} then None
    else Some(log - {Victim(log, today)})
  }

  /** One address of a sample; an address already recorded is always counted. */
  ghost function Count(log: PortLog, a: nat, today: int, now: int): PortLog {
    if a in log then log[a := Sampled(log[a], today, now)]
    else
      match RoomFor(log, today)
      case None => log
      case Some(room) => room[a := Sampled(map[], today, now)]
  }

  /** The addresses of a sample, each once, in their order. */
  function Addresses(raw: seq<string>, norm: string -> Option<nat>): seq<nat> {
    if raw == [] then []
    else
      var before := Addresses(raw[..|raw| - 1], norm);
      match norm(raw[|raw| - 1])
      case None => before
      case Some(a) => if a in before then before else before + [a]
  }

  lemma AddressesMore(raw: seq<string>, i: nat, norm: string -> Option<nat>)
    requires i < |raw|
    ensures var before := Addresses(raw[..i], norm);
            Addresses(raw[..i + 1], norm) ==
              if norm(raw[i]).Some? && norm(raw[i]).value !in before then before + [norm(raw[i]).value] else before
  {
    assert raw[..i + 1][..i] == raw[..i];
  }

  ghost function CountAll(log: PortLog, addrs: seq<nat>, today: int, now: int): PortLog {
    if addrs == [] then log
    else Count(CountAll(log, addrs[..|addrs| - 1], today, now), addrs[|addrs| - 1], today, now)
  }

  lemma CountAllMore(log: PortLog, addrs: seq<nat>, a: nat, today: int, now: int)
    ensures CountAll(log, addrs + [a], today, now) == Count(CountAll(log, addrs, today, now), a, today, now)
  {
    assert (addrs + [a])[..|addrs|] == addrs;
  }

  /** The sample of one port; a new port is recorded while there are fewer than 64. */
  ghost function CountPort(ports: Ports, port: int, raw: seq<string>, norm: string -> Option<nat>,
                           today: int, now: int): Ports {
    if !IsCounted(ports, port) then ports
    else ports[port := CountAll(LogOf(ports, port), Addresses(raw, norm), today, now)]
  }

  predicate IsCounted(ports: Ports, port: int) {
    1 <= port <= 65535 && (port in ports || |ports| < MAX_PORTS)
  }

  function LogOf(ports: Ports, port: int): PortLog {
    if port in ports then ports[port] else map[]
  }

  ghost function CountPorts(ports: Ports, seen: seq<(int, seq<string>)>, norm: string -> Option<nat>,
                            today: int, now: int): Ports {
    if seen == [] then ports
    else
      var last := seen[|seen| - 1];
      CountPort(CountPorts(ports, seen[..|seen| - 1], norm, today, now), last.0, last.1, norm, today, now)
  }

  predicate InWindow(d: int, today: int) {
    today - WINDOW_DAYS < d <= today + 1
  }

  function PrunedDays(days: Days, today: int): Days {
    map d | d in days && InWindow(d, today) :: days[d]
  }

  function PrunedPort(log: PortLog, today: int): PortLog {
    map a | a in log && PrunedDays(log[a], today) != map[] :: PrunedDays(log[a], today)
  }

  function Pruned(ports: Ports, today: int): Ports {
    map p | p in ports && PrunedPort(ports[p], today) != map[] :: PrunedPort(ports[p], today)
  }

  /** One call of Observe; seen lists the ports in the order they are visited. */
  ghost function Observed(ports: Ports, seen: seq<(int, seq<string>)>, norm: string -> Option<nat>,
                          today: int, now: int): Ports {
    Pruned(CountPorts(ports, seen, norm, today, now), today)
  }

  // ---- flood resistance

  predicate Recorded(log: PortLog, a: nat, d: int) {
    a in log && d in log[a] && log[a][d].samples > 0
  }

  predicate RecordedAt(ports: Ports, port: int, a: nat, d: int) {
    port in ports && Recorded(ports[port], a, d)
  }

  /** Recorded on two days: making room never takes it. */
  lemma CountKeepsKnown(log: PortLog, b: nat, today: int, now: int, a: nat, d1: int, d2: int, d: int)
    requires d1 != d2 && Recorded(log, a, d1) && Recorded(log, a, d2) && Recorded(log, a, d)
    ensures Recorded(Count(log, b, today, now), a, d)
  {
    if b !in log && |OnDay(log, today)| < MAX_PER_PORT_DAY && |log| >= MAX_PER_PORT && Candidates(log, today) != {} {
      var v := Victim(log, today);
      if v == a {
        assert d1 in log[a].Keys && d2 in log[a].Keys;
        var e := OneDay(log[a]);
      }
    }
  }

  lemma CountSeesKnown(log: PortLog, a: nat, today: int, now: int)
    requires a in log
    ensures Recorded(Count(log, a, today, now), a, today)
  {
  }

  lemma {:induction false} CountAllKeepsKnown(log: PortLog, addrs: seq<nat>, today: int, now: int,
                                              a: nat, d1: int, d2: int)
    requires d1 != d2 && Recorded(log, a, d1) && Recorded(log, a, d2)
    ensures var r := CountAll(log, addrs, today, now);
            && Recorded(r, a, d1) && Recorded(r, a, d2)
            && (a in addrs ==> Recorded(r, a, today))
    decreases |addrs|
  {
    if addrs != [] {
      var init, b := addrs[..|addrs| - 1], addrs[|addrs| - 1];
      CountAllKeepsKnown(log, init, today, now, a, d1, d2);
      var mid := CountAll(log, init, today, now);
      CountKeepsKnown(mid, b, today, now, a, d1, d2, d1);
      CountKeepsKnown(mid, b, today, now, a, d1, d2, d2);
      if a in init {
        CountKeepsKnown(mid, b, today, now, a, d1, d2, today);
      } else if a in addrs {
        assert a == b;
      }
    }
  }

  lemma {:induction false} CountPortsKeepsKnown(ports: Ports, seen: seq<(int, seq<string>)>,
                                                norm: string -> Option<nat>, today: int, now: int,
                                                port: int, a: nat, d1: int, d2: int)
    requires d1 != d2 && RecordedAt(ports, port, a, d1) && RecordedAt(ports, port, a, d2) && 1 <= port <= 65535
    ensures var r := CountPorts(ports, seen, norm, today, now);
            && RecordedAt(r, port, a, d1) && RecordedAt(r, port, a, d2)
            && (Sees(seen, port, a, norm) ==> RecordedAt(r, port, a, today))
    decreases |seen|
  {
    if seen != [] {
      var init, last := seen[..|seen| - 1], seen[|seen| - 1];
      CountPortsKeepsKnown(ports, init, norm, today, now, port, a, d1, d2);
      var mid := CountPorts(ports, init, norm, today, now);
      if last.0 == port {
        CountAllKeepsKnown(mid[port], Addresses(last.1, norm), today, now, a, d1, d2);
        if Sees(init, port, a, norm) && today != d1 {
          CountAllKeepsKnown(mid[port], Addresses(last.1, norm), today, now, a, d1, today);
        }
      }
    }
  }

  /** The sample has the address on the port. */
  predicate Sees(seen: seq<(int, seq<string>)>, port: int, a: nat, norm: string -> Option<nat>) {
    exists i | 0 <= i < |seen| :: seen[i].0 == port && a in Addresses(seen[i].1, norm)
  }

  lemma PruneKeepsWindow(ports: Ports, today: int, port: int, a: nat, d: int)
    requires RecordedAt(ports, port, a, d) && InWindow(d, today)
    ensures RecordedAt(Pruned(ports, today), port, a, d)
  {
    assert d in PrunedDays(ports[port][a], today);
    assert a in PrunedPort(ports[port], today);
  }

  /** One call of Observe: a sample, its time and its day. */
  datatype Call = Call(seen: seq<(int, seq<string>)>, today: int, now: int)

  ghost function ObservedAll(ports: Ports, calls: seq<Call>, norm: string -> Option<nat>): Ports
    decreases |calls|
  {
    if calls == [] then ports
    else ObservedAll(Observed(ports, calls[0].seen, norm, calls[0].today, calls[0].now), calls[1..], norm)
  }

  /**
   * Flood resistance: whatever other addresses the samples hold, an address recorded on two days of a port
   * keeps them as long as both lie in the window of every call, and any day it is seen on adds to them.
   */
  lemma {:induction false} KnownDaysSurvive(ports: Ports, calls: seq<Call>, norm: string -> Option<nat>,
                                            port: int, a: nat, d1: int, d2: int)
    requires d1 != d2 && RecordedAt(ports, port, a, d1) && RecordedAt(ports, port, a, d2) && 1 <= port <= 65535
    requires forall i | 0 <= i < |calls| :: InWindow(d1, calls[i].today) && InWindow(d2, calls[i].today)
    ensures RecordedAt(ObservedAll(ports, calls, norm), port, a, d1)
    ensures RecordedAt(ObservedAll(ports, calls, norm), port, a, d2)
    decreases |calls|
  {
    if calls != [] {
      var c := calls[0];
      CountPortsKeepsKnown(ports, c.seen, norm, c.today, c.now, port, a, d1, d2);
      var counted := CountPorts(ports, c.seen, norm, c.today, c.now);
      PruneKeepsWindow(counted, c.today, port, a, d1);
      PruneKeepsWindow(counted, c.today, port, a, d2);
      KnownDaysSurvive(Observed(ports, c.seen, norm, c.today, c.now), calls[1..], norm, port, a, d1, d2);
    }
  }

  /** The days of the window, today included, an address was seen on. */
  function CountedDays(days: Days, today: int): set<int> {
    set d | d in days && today - WINDOW_DAYS < d <= today && days[d].samples > 0
  }

  predicate IsRegular(ports: Ports, port: int, a: nat, today: int) {
    port in ports && a in ports[port] && |CountedDays(ports[port][a], today)| >= MIN_DAYS
  }

  lemma ThreeMembers(s: set<int>, x: int, y: int, z: int)
    requires x in s && y in s && z in s && x != y && x != z && y != z
    ensures |s| >= 3
  {
    assert |s - {x} - {y} - {z}| == |s| - 3;
  }

  /** One more sample on a third day inside the window makes it a regular client, in any flood. */
  lemma ThirdDayMakesRegular(ports: Ports, calls: seq<Call>, last: Call, norm: string -> Option<nat>,
                             port: int, a: nat, d1: int, d2: int)
    requires d1 != d2 && RecordedAt(ports, port, a, d1) && RecordedAt(ports, port, a, d2) && 1 <= port <= 65535
    requires forall i | 0 <= i < |calls| :: InWindow(d1, calls[i].today) && InWindow(d2, calls[i].today)
    requires Sees(last.seen, port, a, norm)
    requires last.today - WINDOW_DAYS < d1 < last.today && last.today - WINDOW_DAYS < d2 < last.today
    ensures var r := Observed(ObservedAll(ports, calls, norm), last.seen, norm, last.today, last.now);
            IsRegular(r, port, a, last.today)
  {
    KnownDaysSurvive(ports, calls, norm, port, a, d1, d2);
    var before := ObservedAll(ports, calls, norm);
    CountPortsKeepsKnown(before, last.seen, norm, last.today, last.now, port, a, d1, d2);
    var counted := CountPorts(before, last.seen, norm, last.today, last.now);
    PruneKeepsWindow(counted, last.today, port, a, d1);
    PruneKeepsWindow(counted, last.today, port, a, d2);
    PruneKeepsWindow(counted, last.today, port, a, last.today);
    var r := Pruned(counted, last.today);
    ThreeMembers(CountedDays(r[port][a], last.today), d1, d2, last.today);
  }

  // ---- bounds

  predicate WithinBounds(ports: Ports) {
    |ports| <= MAX_PORTS && forall p | p in ports :: |ports[p]| <= MAX_PER_PORT
  }

  lemma CountStaysWithin(log: PortLog, a: nat, today: int, now: int)
    requires |log| <= MAX_PER_PORT
    ensures |Count(log, a, today, now)| <= MAX_PER_PORT
    ensures a !in log && a in Count(log, a, today, now) ==> |OnDay(log, today)| < MAX_PER_PORT_DAY
  {
    if a !in log && RoomFor(log, today).Some? {
      var room := RoomFor(log, today).value;
      if |log| >= MAX_PER_PORT {
        assert room.Keys == log.Keys - {Victim(log, today)};
        assert |room| == |room.Keys| == |log.Keys| - 1;
      }
      AddKey(room, a, Sampled(map[], today, now));
    } else if a in log {
      AddKey(log, a, Sampled(log[a], today, now));
    }
  }

  lemma AddKey<K, V>(m: map<K, V>, k: K, v: V)
    ensures |m[k := v]| == if k in m then |m| else |m| + 1
  {
    assert m[k := v].Keys == m.Keys + {k};
    assert |m[k := v]| == |m[k := v].Keys| && |m| == |m.Keys|;
  }

  lemma {:induction false} CountAllStaysWithin(log: PortLog, addrs: seq<nat>, today: int, now: int)
    requires |log| <= MAX_PER_PORT
    ensures |CountAll(log, addrs, today, now)| <= MAX_PER_PORT
    decreases |addrs|
  {
    if addrs != [] {
      var init := addrs[..|addrs| - 1];
      CountAllStaysWithin(log, init, today, now);
      CountStaysWithin(CountAll(log, init, today, now), addrs[|addrs| - 1], today, now);
    }
  }

  lemma {:induction false} CountPortsStaysWithin(ports: Ports, seen: seq<(int, seq<string>)>,
                                                 norm: string -> Option<nat>, today: int, now: int)
    requires WithinBounds(ports)
    ensures WithinBounds(CountPorts(ports, seen, norm, today, now))
    decreases |seen|
  {
    if seen != [] {
      var init, last := seen[..|seen| - 1], seen[|seen| - 1];
      CountPortsStaysWithin(ports, init, norm, today, now);
      var mid := CountPorts(ports, init, norm, today, now);
      var log := LogOf(mid, last.0);
      assert forall p | p in mid :: |mid[p]| <= MAX_PER_PORT;
      CountAllStaysWithin(log, Addresses(last.1, norm), today, now);
      AddKey(mid, last.0, CountAll(log, Addresses(last.1, norm), today, now));
    }
  }

  /** Every call of Observe keeps at most 64 ports and 1000 addresses a port. */
  lemma ObserveStaysWithin(ports: Ports, seen: seq<(int, seq<string>)>, norm: string -> Option<nat>,
                           today: int, now: int)
    requires WithinBounds(ports)
    ensures WithinBounds(Observed(ports, seen, norm, today, now))
  {
    var counted := CountPorts(ports, seen, norm, today, now);
    CountPortsStaysWithin(ports, seen, norm, today, now);
    SubmapSize(Pruned(counted, today), counted);
    forall p | p in Pruned(counted, today)
      ensures |Pruned(counted, today)[p]| <= MAX_PER_PORT
    {
      SubmapSize(PrunedPort(counted[p], today), counted[p]);
    }
  }

  /** So does every run of calls. */
  lemma {:induction false} BoundsOverRuns(ports: Ports, calls: seq<Call>, norm: string -> Option<nat>)
    requires WithinBounds(ports)
    ensures WithinBounds(ObservedAll(ports, calls, norm))
    decreases |calls|
  {
    if calls != [] {
      ObserveStaysWithin(ports, calls[0].seen, norm, calls[0].today, calls[0].now);
      BoundsOverRuns(Observed(ports, calls[0].seen, norm, calls[0].today, calls[0].now), calls[1..], norm);
    }
  }

  // ---- the bound of 200 addresses per port and day

  /** An address seen on another day comes when 200 are recorded today. */
  predicate Overfills(log: PortLog, a: nat, today: int) {
    a in log && today !in log[a] && |OnDay(log, today)| == MAX_PER_PORT_DAY
  }

  /** What one address adds to the day; the address that makes room for it is of another day. */
  lemma CountOnDay(log: PortLog, a: nat, today: int, now: int)
    ensures OnDay(Count(log, a, today, now), today) ==
            OnDay(log, today) + if a in log || RoomFor(log, today).Some? then {a} else {}
  {
    if a !in log && RoomFor(log, today).Some? {
      var room := RoomFor(log, today).value;
      assert OnDay(room, today) == OnDay(log, today);
    }
  }

  /** The bound breaks exactly by an address of another day that comes when 200 are recorded. */
  lemma DayBoundBreaksIff(log: PortLog, a: nat, today: int, now: int)
    ensures |OnDay(Count(log, a, today, now), today)| <= MAX_PER_PORT_DAY <==>
            |OnDay(log, today)| <= MAX_PER_PORT_DAY && !Overfills(log, a, today)
  {
    CountOnDay(log, a, today, now);
    var before := OnDay(log, today);
    if a in before {
      assert before + {a} == before;
    } else {
      assert |before + {a}| == |before| + 1;
    }
  }

  /** No address of the sample overfills the day. */
  ghost predicate SampleFits(log: PortLog, addrs: seq<nat>, today: int, now: int) {
    addrs == [] ||
    var init := addrs[..|addrs| - 1];
    && SampleFits(log, init, today, now)
    && !Overfills(CountAll(log, init, today, now), addrs[|addrs| - 1], today)
  }

  ghost predicate SamplesFit(ports: Ports, seen: seq<(int, seq<string>)>, norm: string -> Option<nat>,
                             today: int, now: int, port: int) {
    seen == [] ||
    var init, last := seen[..|seen| - 1], seen[|seen| - 1];
    var mid := CountPorts(ports, init, norm, today, now);
    && SamplesFit(ports, init, norm, today, now, port)
    && (last.0 == port && IsCounted(mid, port) ==>
          SampleFits(LogOf(mid, port), Addresses(last.1, norm), today, now))
  }

  ghost predicate CallsFit(ports: Ports, calls: seq<Call>, norm: string -> Option<nat>, port: int)
    decreases |calls|
  {
    calls == [] ||
    var c := calls[0];
    && SamplesFit(ports, c.seen, norm, c.today, c.now, port)
    && CallsFit(Observed(ports, c.seen, norm, c.today, c.now), calls[1..], norm, port)
  }

  lemma {:induction false} SampleBoundIff(log: PortLog, addrs: seq<nat>, today: int, now: int)
    ensures |OnDay(CountAll(log, addrs, today, now), today)| <= MAX_PER_PORT_DAY <==>
            |OnDay(log, today)| <= MAX_PER_PORT_DAY && SampleFits(log, addrs, today, now)
    decreases |addrs|
  {
    if addrs != [] {
      var init := addrs[..|addrs| - 1];
      SampleBoundIff(log, init, today, now);
      DayBoundBreaksIff(CountAll(log, init, today, now), addrs[|addrs| - 1], today, now);
    }
  }

  ghost predicate DayFits(ports: Ports, port: int, day: int) {
    |OnDay(LogOf(ports, port), day)| <= MAX_PER_PORT_DAY
  }

  lemma {:induction false} SamplesBoundIff(ports: Ports, seen: seq<(int, seq<string>)>,
                                           norm: string -> Option<nat>, today: int, now: int, port: int)
    ensures DayFits(CountPorts(ports, seen, norm, today, now), port, today) <==>
            DayFits(ports, port, today) && SamplesFit(ports, seen, norm, today, now, port)
    decreases |seen|
  {
    if seen != [] {
      var init, last := seen[..|seen| - 1], seen[|seen| - 1];
      SamplesBoundIff(ports, init, norm, today, now, port);
      var mid := CountPorts(ports, init, norm, today, now);
      if last.0 == port && IsCounted(mid, port) {
        SampleBoundIff(LogOf(mid, port), Addresses(last.1, norm), today, now);
      }
    }
  }

  lemma PruneKeepsToday(ports: Ports, today: int, port: int)
    ensures OnDay(LogOf(Pruned(ports, today), port), today) == OnDay(LogOf(ports, port), today)
  {
    forall a | a in OnDay(LogOf(ports, port), today)
      ensures a in OnDay(LogOf(Pruned(ports, today), port), today)
    {
      assert today in PrunedDays(ports[port][a], today);
      assert a in PrunedPort(ports[port], today);
    }
  }

  /**
   * Over the calls of one day a port stays within 200 addresses of that day exactly when it started within them
   * and no address of another day came while 200 were recorded.
   */
  lemma {:induction false} DayBoundOverRuns(ports: Ports, calls: seq<Call>, norm: string -> Option<nat>,
                                            port: int, today: int)
    requires forall i | 0 <= i < |calls| :: calls[i].today == today
    ensures DayFits(ObservedAll(ports, calls, norm), port, today) <==>
            DayFits(ports, port, today) && CallsFit(ports, calls, norm, port)
    decreases |calls|
  {
    if calls != [] {
      var c := calls[0];
      SamplesBoundIff(ports, c.seen, norm, today, c.now, port);
      PruneKeepsToday(CountPorts(ports, c.seen, norm, today, c.now), today, port);
      DayBoundOverRuns(Observed(ports, c.seen, norm, today, c.now), calls[1..], norm, port, today);
    }
  }

  /** The addresses below n. */
  function FirstAddresses(n: nat): seq<nat> {
    if n == 0 then [] else FirstAddresses(n - 1) + [n - 1]
  }

  /** Address 1000 was seen on another day, and n addresses, those below n, are recorded today. */
  predicate Filled(log: PortLog, n: nat, today: int) {
    && |log| == n + 1 && |OnDay(log, today)| == n
    && 1000 in log && today !in log[1000]
    && forall a | a in log :: a < n || a == 1000
  }

  lemma FillOne(log: PortLog, n: nat, today: int, now: int)
    requires n < MAX_PER_PORT_DAY && Filled(log, n, today)
    ensures Filled(Count(log, n, today, now), n + 1, today)
  {
    assert n !in log && RoomFor(log, today) == Some(log);
    CountOnDay(log, n, today, now);
    AddKey(log, n, Sampled(map[], today, now));
  }

  /** New addresses are all recorded up to the bound. */
  lemma {:induction false} NewOnesAreRecorded(log: PortLog, n: nat, today: int, now: int)
    requires n <= MAX_PER_PORT_DAY && Filled(log, 0, today)
    ensures Filled(CountAll(log, FirstAddresses(n), today, now), n, today)
  {
    if n > 0 {
      NewOnesAreRecorded(log, n - 1, today, now);
      FillMore(log, n - 1, today, now);
    }
  }

  lemma FillMore(log: PortLog, n: nat, today: int, now: int)
    requires n < MAX_PER_PORT_DAY && Filled(CountAll(log, FirstAddresses(n), today, now), n, today)
    ensures Filled(CountAll(log, FirstAddresses(n + 1), today, now), n + 1, today)
  {
    CountAllMore(log, FirstAddresses(n), n, today, now);
    FillOne(CountAll(log, FirstAddresses(n), today, now), n, today, now);
  }

  lemma FirstIsRecorded(day: int, now: int)
    ensures CountAll(map[], [1000], day, now) == map[1000 := Sampled(map[], day, now)]
  {
    var none: PortLog := map[];
    assert [] + [1000] == [1000];
    CountAllMore(none, [], 1000, day, now);
    assert OnDay(none, day) == {} && RoomFor(none, day) == Some(none);
  }

  /** Address 1000 on one day, then 200 others and it again on the next: 201 are recorded for that day. */
  lemma DayBoundBreaks(n: nat, today: int, now: int)
    requires n == MAX_PER_PORT_DAY
    ensures var log := CountAll(CountAll(map[], [1000], today - 1, now), FirstAddresses(n) + [1000], today, now);
            |OnDay(log, today)| == n + 1
  {
    var start := CountAll(map[], [1000], today - 1, now);
    FirstIsRecorded(today - 1, now);
    NewOnesAreRecorded(start, n, today, now);
    CountAllMore(start, FirstAddresses(n), 1000, today, now);
    CountOnDay(CountAll(start, FirstAddresses(n), today, now), 1000, today, now);
  }

  // ---- the log itself

  lemma OneLess<T>(s: set<T>, todo: set<T>, x: T)
    requires x in todo
    ensures |s - (todo - {x})| == |s - todo| + if x in s then 1 else 0
  {
    if x in s {
      assert s - (todo - {x}) == (s - todo) + {x};
    } else {
      assert s - (todo - {x}) == s - todo;
    }
  }

  /** The days left of one address. */
  method KeepWindow(days: Days, today: int) returns (r: Days)
    ensures r == PrunedDays(days, today)
  {
    r := days;
    var todo := days.Keys;
    while todo != {}
      invariant todo <= days.Keys
      invariant r == map d | d in days && (d in todo || InWindow(d, today)) :: days[d]
      decreases todo
    {
      var d := Pick(todo);
      if d <= today - WINDOW_DAYS || d > today + 1 {
        r := r - {d};
      }
      todo := todo - {d};
    }
  }

  /** The addresses left on one port. */
  method KeepKnown(log: PortLog, today: int) returns (r: PortLog)
    ensures r == PrunedPort(log, today)
  {
    r := log;
    var todo := log.Keys;
    while todo != {}
      invariant todo <= log.Keys
      invariant r == map a | a in log && (a in todo || PrunedDays(log[a], today) != map[]) ::
          if a in todo then log[a] else PrunedDays(log[a], today)
      decreases todo
    {
      var a := Pick(todo);
      var days := KeepWindow(log[a], today);
      if days == map[] {
        r := r - {a};
      } else {
        r := r[a := days];
      }
      todo := todo - {a};
    }
  }

  /** A regular client with its first and last sample of the window. */
  datatype Client = Client(ip: nat, days: nat, first: int, last: int)

  /** first and last are the extremes of the samples of the days ds. */
  predicate Extremes(days: Days, ds: set<int>, first: int, last: int)
    requires ds <= days.Keys
  {
    && (forall d | d in ds :: first <= days[d].first && days[d].last <= last)
    && (exists d :: d in ds && first == days[d].first)
    && (exists d :: d in ds && last == days[d].last)
  }

  predicate Describes(c: Client, days: Days, today: int) {
    c.days == |CountedDays(days, today)| && Extremes(days, CountedDays(days, today), c.first, c.last)
  }

  lemma OneMoreDay(days: Days, ds: set<int>, d: int, first: int, last: int)
    requires d in days && ds <= days.Keys && (ds == {} || Extremes(days, ds, first, last))
    ensures Extremes(days, ds + {d}, if ds == {} || days[d].first < first then days[d].first else first,
                     if ds == {} || days[d].last > last then days[d].last else last)
  {
    assert d in ds + {d};
    if ds != {} {
      var f :| f in ds && first == days[f].first;
      var l :| l in ds && last == days[l].last;
      assert f in ds + {d} && l in ds + {d};
    }
  }

  lemma SeenStep(counted: set<int>, todo: set<int>, d: int)
    requires d in todo
    ensures counted - (todo - {d}) == if d in counted then (counted - todo) + {d} else counted - todo
  {
  }

  /** What Regular makes of one address; None when too few days count. */
  method Summary(a: nat, days: Days, today: int) returns (c: Option<Client>)
    ensures c.Some? <==> |CountedDays(days, today)| >= MIN_DAYS
    ensures c.Some? ==> c.value.ip == a && Describes(c.value, days, today)
  {
    var n, first, last := 0, 0, 0;
    var todo := days.Keys;
    ghost var counted := CountedDays(days, today);
    ghost var seen: set<int> := {};
    while todo != {}
      invariant todo <= days.Keys && seen == counted - todo && n == |seen|
      invariant seen == {} || Extremes(days, seen, first, last)
      decreases todo
    {
      var d := Pick(todo);
      var e := days[d];
      SeenStep(counted, todo, d);
      todo := todo - {d};
      if !(d <= today - WINDOW_DAYS || d > today || e.samples <= 0) {
        OneMoreDay(days, seen, d, first, last);
        first := if n == 0 || e.first < first then e.first else first;
        last := if n == 0 || e.last > last then e.last else last;
        n, seen := n + 1, seen + {d};
      }
    }
    assert seen == counted;
    c := if n >= MIN_DAYS then Some(Client(a, n, first, last)) else None;
  }

  predicate ByAddress(out: seq<Client>) {
    forall i, j | 0 <= i < j < |out| :: out[i].ip < out[j].ip
  }

  /** The clients with one more, in the order of their addresses. */
  method InsertClient(out: seq<Client>, c: Client) returns (r: seq<Client>)
    requires ByAddress(out) && forall i | 0 <= i < |out| :: out[i].ip != c.ip
    ensures ByAddress(r) && forall x :: x in r <==> x in out || x == c
  {
    var i := 0;
    while i < |out| && out[i].ip < c.ip
      invariant 0 <= i <= |out| && forall k | 0 <= k < i :: out[k].ip < c.ip
    {
      i := i + 1;
    }
    r := out[..i] + [c] + out[i..];
    InsertMembers(out, i, c);
  }

  class Log {
    var ports: Ports

    constructor ()
      ensures ports == map[]
    {
      ports := map[];
    }

    /** countDayLocked */
    method CountDay(port: int, day: int) returns (n: nat)
      requires port in ports
      ensures n == |OnDay(ports[port], day)|
    {
      n := 0;
      var log := ports[port];
      var todo := log.Keys;
      while todo != {}
        invariant todo <= log.Keys
        invariant n == |OnDay(log, day) - todo|
        decreases todo
      {
        var a := Pick(todo);
        OneLess(OnDay(log, day), todo, a);
        if day in log[a] {
          n := n + 1;
        }
        todo := todo - {a};
      }
      assert OnDay(log, day) - todo == OnDay(log, day);
    }

    /** evictLocked: the least seen address of a single day, not today. */
    method Evict(port: int, today: int) returns (ok: bool)
      requires port in ports
      modifies this
      ensures ok <==> Candidates(old(ports)[port], today) != {}
      ensures ok ==> ports == old(ports)[port := old(ports)[port] - {Victim(old(ports)[port], today)}]
      ensures !ok ==> ports == old(ports)
    {
      var log := ports[port];
      var victim: Option<nat>, least := None, 0;
      var todo := log.Keys;
      ghost var cs := Candidates(log, today);
      while todo != {}
        invariant todo <= log.Keys
        invariant victim.None? ==> cs <= todo
        invariant victim.Some? ==> victim.value in cs && victim.value !in todo
        invariant victim.Some? ==> forall b | b in cs && b !in todo :: Before(log, victim.value, b)
        invariant victim.Some? ==> forall d | d in log[victim.value] :: log[victim.value][d].samples == least
        modifies {}
        decreases todo
      {
        var a := Pick(todo);
        if |log[a]| == 1 && today !in log[a] {
          ghost var only := OneDay(log[a]);
          assert only in log[a].Keys;
          var d := Pick(log[a].Keys);
          var e := log[a][d];
          if victim.Some? {
            BeforeIsOrder(log, victim.value, a, a, today);
            forall b | b in cs && b !in todo
              ensures Before(log, a, victim.value) ==> Before(log, a, b)
            {
              BeforeIsOrder(log, a, victim.value, b, today);
            }
          } else {
            BeforeIsOrder(log, a, a, a, today);
          }
          if victim.None? || e.samples < least || (e.samples == least && a < victim.value) {
            victim, least := Some(a), e.samples;
          }
        }
        todo := todo - {a};
      }
      if victim.None? {
        assert cs == {};
        return false;
      }
      assert forall b | b in log && Evictable(log, b, today) :: b in cs;
      VictimIsUnique(log, today, victim.value);
      ports := ports[port := log - {victim.value}];
      ok := true;
    }

    /** One address of the sample of a port. */
    method CountAddress(port: int, a: nat, today: int, now: int)
      requires port in ports
      modifies this
      ensures ports == old(ports)[port := Count(old(ports)[port], a, today, now)]
    {
      ghost var all: Ports, was: PortLog := ports, ports[port];
      ghost var room: PortLog := was;
      var known: Days := map[];
      if a in ports[port] {
        known := ports[port][a];
      } else {
        var n := CountDay(port, today);
        if n >= MAX_PER_PORT_DAY {
          assert ports == all[port := was];
          return;
        }
        if |ports[port]| >= MAX_PER_PORT {
          var ok := Evict(port, today);
          if !ok {
            assert ports == all[port := was];
            return;
          }
          room := was - {Victim(was, today)};
        }
        assert RoomFor(was, today) == Some(room);
      }
      assert ports == all[port := room];
      var days: Days := known;
      if today !in days {
        days := days[today := Entry(now, now, 0, 0)];
      }
      days := days[today := days[today].(last := now, samples := days[today].samples + 1)];
      assert days == Sampled(known, today, now);
      var log: PortLog := ports[port];
      log := log[a := days];
      assert log == Count(was, a, today, now);
      ports := ports[port := log];
      assert ports == all[port := log];
    }

    /** The addresses of a sample on a recorded port; an address listed twice is counted once. */
    method CountSample(port: int, ips: seq<string>, norm: string -> Option<nat>, today: int, now: int)
      requires port in ports
      modifies this
      ensures ports == old(ports)[port := CountAll(old(ports)[port], Addresses(ips, norm), today, now)]
    {
      ghost var all: Ports, start: PortLog := ports, ports[port];
      var counted: set<nat> := {};
      ghost var done: seq<nat>, log: PortLog := [], start;
      assert all == all[port := log];
      for i := 0 to |ips|
        invariant done == Addresses(ips[..i], norm) && log == CountAll(start, done, today, now)
        invariant ports == all[port := log]
        invariant forall a :: a in counted <==> a in done
      {
        AddressesMore(ips, i, norm);
        var ip := norm(ips[i]);
        if ip.Some? && ip.value !in counted {
          counted := counted + {ip.value};
          CountAllMore(start, done, ip.value, today, now);
          assert ports[port] == log;
          CountAddress(port, ip.value, today, now);
          done, log := done + [ip.value], Count(log, ip.value, today, now);
        }
      }
      assert ips[..|ips|] == ips;
    }

    /** The sample of one port. */
    method SamplePort(port: int, ips: seq<string>, norm: string -> Option<nat>, today: int, now: int)
      modifies this
      ensures ports == CountPort(old(ports), port, ips, norm, today, now)
    {
      if port < 1 || port > 65535 {
        return;
      }
      ghost var all := ports;
      if port !in ports {
        if |ports| >= MAX_PORTS {
          return;
        }
        ports := ports[port := map[]];
      }
      ghost var mid, start := ports, ports[port];
      CountSample(port, ips, norm, today, now);
      ghost var log := CountAll(start, Addresses(ips, norm), today, now);
      assert mid[port := log] == all[port := log];
    }

    /** pruneLocked */
    method Prune(today: int)
      modifies this
      ensures ports == Pruned(old(ports), today)
    {
      var all := ports;
      var left := all;
      var todo := all.Keys;
      while todo != {}
        invariant todo <= all.Keys
        invariant left == map p | p in all && (p in todo || PrunedPort(all[p], today) != map[]) ::
            if p in todo then all[p] else PrunedPort(all[p], today)
        decreases todo
      {
        var p := Pick(todo);
        var log := KeepKnown(all[p], today);
        left := if log == map[] then left - {p} else left[p := log];
        todo := todo - {p};
      }
      ports := left;
    }

    /** Observe; seen lists the ports in the order they are visited. */
    method Observe(seen: seq<(int, seq<string>)>, norm: string -> Option<nat>, today: int, now: int)
      modifies this
      ensures ports == Observed(old(ports), seen, norm, today, now)
    {
      for i := 0 to |seen|
        invariant ports == CountPorts(old(ports), seen[..i], norm, today, now)
      {
        assert seen[..i + 1][..i] == seen[..i];
        SamplePort(seen[i].0, seen[i].1, norm, today, now);
      }
      assert seen[..|seen|] == seen;
      Prune(today);
    }

    /** The regular clients of a port, in the order of their addresses. */
    method Regular(port: int, today: int) returns (out: seq<Client>)
      ensures ByAddress(out)
      ensures forall a: nat :: IsRegular(ports, port, a, today) <==> exists c :: c in out && c.ip == a
      ensures forall c | c in out ::
        port in ports && c.ip in ports[port] && Describes(c, ports[port][c.ip], today)
    {
      out := [];
      if port !in ports {
        return;
      }
      var log := ports[port];
      var todo := log.Keys;
      while todo != {}
        invariant todo <= log.Keys && ByAddress(out)
        invariant forall c | c in out :: c.ip in log && c.ip !in todo && Describes(c, log[c.ip], today)
        invariant forall a | a in log && a !in todo && IsRegular(ports, port, a, today) ::
          exists c :: c in out && c.ip == a
        invariant forall c | c in out :: IsRegular(ports, port, c.ip, today)
        decreases todo
      {
        var a := Pick(todo);
        var c := Summary(a, log[a], today);
        ghost var before := out;
        if c.Some? {
          assert forall i | 0 <= i < |out| :: out[i] in out;
          out := InsertClient(out, c.value);
          assert c.value in out;
        }
        forall b | b in log && b !in todo && IsRegular(ports, port, b, today)
          ensures exists c :: c in out && c.ip == b
        {
          var c :| c in before && c.ip == b;
          assert c in out;
        }
        todo := todo - {a};
      }
    }
  }
}
