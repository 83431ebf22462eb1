/**
 * What one call of Observe makes of every entry of the client log (internal/dbclients/dbclients.go), told from the
 * log before it and the sample: which addresses are recorded, which one makes room, what their entries say.
 */
module ClientCounts {
  import opened Collections
  import opened ClientLog

  /** The entry of an address for a day, if there is one. */
  function EntryOf(log: PortLog, a: nat, d: int): Option<Entry> {
    if a in log && d in log[a] then Some(log[a][d]) else None
  }

  /** What one more sample makes of an entry. */
  predicate IsSampled(before: Option<Entry>, after: Option<Entry>, now: int) {
    after == Some(if before.Some? then Entry(before.value.first, now, before.value.samples + 1, before.value.sent)
                  else Entry(now, now, 1, 0))
  }

  // ---- who is recorded

  /** A single day is recorded for the address, and it is not today. */
  ghost predicate IsOneDayOnly(log: PortLog, b: nat, today: int) {
    b in log && exists d :: log[b].Keys == {d} && d != today
  }

  lemma OneDayOnlyIff(log: PortLog, b: nat, today: int)
    ensures IsOneDayOnly(log, b, today) <==> Evictable(log, b, today)
  {
    if Evictable(log, b, today) {
      var d := OneDay(log[b]);
      assert log[b].Keys == {d} && d in log[b].Keys;
    }
    if IsOneDayOnly(log, b, today) {
      var d :| log[b].Keys == {d} && d != today;
      assert |log[b]| == |log[b].Keys|;
    }
  }

  /** The address was seen less than b on its day, or as much and is the lower one. */
  predicate SeenLess(log: PortLog, v: nat, b: nat)
    requires v in log && b in log
  {
    forall d, e | d in log[v] && e in log[b] ::
      log[v][d].samples < log[b][e].samples || (log[v][d].samples == log[b][e].samples && v <= b)
  }

  lemma VictimIsLeast(log: PortLog, today: int)
    ensures Candidates(log, today) == {} <==> forall b :: !IsOneDayOnly(log, b, today)
    ensures Candidates(log, today) != {} ==>
              && IsOneDayOnly(log, Victim(log, today), today)
              && forall b | IsOneDayOnly(log, b, today) :: SeenLess(log, Victim(log, today), b)
  {
    forall b: nat
      ensures IsOneDayOnly(log, b, today) <==> b in Candidates(log, today)
    {
      OneDayOnlyIff(log, b, today);
    }
    if Candidates(log, today) != {} {
      var v := Victim(log, today);
      forall b | IsOneDayOnly(log, b, today)
        ensures SeenLess(log, v, b)
      {
        assert Before(log, v, b);
      }
    }
  }

  /**
   * A new address is recorded if and only if fewer than 200 are for the day, and fewer than 1000 at all or one of a
   * single other day is there. It takes the place of the least seen of these, and of nobody else.
   */
  lemma NewIsRecordedIff(log: PortLog, a: nat, today: int, now: int)
    requires a !in log
    ensures var r, full := Count(log, a, today, now), |log| >= 1000;
            && (a in r <==> |OnDay(log, today)| < 200 && (!full || exists b :: IsOneDayOnly(log, b, today)))
            && (a in r && !full ==> forall b | b in log :: b in r && r[b] == log[b])
            && (a in r && full ==>
                  exists v :: IsOneDayOnly(log, v, today) && r.Keys == log.Keys - {v} + {a}
                              && forall b | IsOneDayOnly(log, b, today) :: SeenLess(log, v, b))
            && (a !in r ==> r == log)
            && (forall b | b in r && b != a :: b in log && r[b] == log[b])
  {
    VictimIsLeast(log, today);
  }

  // ---- what the entries say

  predicate Distinct(addrs: seq<nat>) {
    forall i, j | 0 <= i < j < |addrs| :: addrs[i] != addrs[j]
  }

  lemma {:induction false} AddressesAreDistinct(raw: seq<string>, norm: string -> Option<nat>)
    ensures Distinct(Addresses(raw, norm))
    ensures forall a :: a in Addresses(raw, norm) <==> exists i :: 0 <= i < |raw| && norm(raw[i]) == Some(a)
    decreases |raw|
  {
    if raw != [] {
      var init := raw[..|raw| - 1];
      AddressesAreDistinct(init, norm);
      assert raw == init + [raw[|raw| - 1]];
      forall a
        ensures a in Addresses(raw, norm) <==> exists i :: 0 <= i < |raw| && norm(raw[i]) == Some(a)
      {
        if a in Addresses(init, norm) {
          var i :| 0 <= i < |init| && norm(init[i]) == Some(a);
          assert norm(raw[i]) == Some(a);
        }
        if i: int :| 0 <= i < |raw| && norm(raw[i]) == Some(a) {
          assert i < |init| ==> norm(init[i]) == Some(a);
        }
      }
    }
  }

  /** One address: its own entry of today counts the sample, every other entry that stays is as it was. */
  lemma CountIsExact(log: PortLog, b: nat, today: int, now: int, a: nat, d: int)
    requires EntryOf(Count(log, b, today, now), a, d).Some?
    ensures var before, after := EntryOf(log, a, d), EntryOf(Count(log, b, today, now), a, d);
            if a == b && d == today then IsSampled(before, after, now) else after == before
  {
  }

  /** An entry of today stays, whatever comes. */
  lemma TodayStays(log: PortLog, b: nat, today: int, now: int, a: nat)
    requires EntryOf(log, a, today).Some?
    ensures EntryOf(Count(log, b, today, now), a, today).Some?
  {
  }

  lemma {:induction false} SampleStays(log: PortLog, addrs: seq<nat>, today: int, now: int, a: nat)
    requires EntryOf(log, a, today).Some?
    ensures EntryOf(CountAll(log, addrs, today, now), a, today).Some?
    decreases |addrs|
  {
    if addrs != [] {
      SampleStays(log, addrs[..|addrs| - 1], today, now, a);
    }
  }

  /** The sample of a port counts each address it has once, and changes no other entry that stays. */
  lemma {:induction false} SampleIsExact(log: PortLog, addrs: seq<nat>, today: int, now: int, a: nat, d: int)
    requires Distinct(addrs) && EntryOf(CountAll(log, addrs, today, now), a, d).Some?
    ensures var before, after := EntryOf(log, a, d), EntryOf(CountAll(log, addrs, today, now), a, d);
            if a in addrs && d == today then IsSampled(before, after, now) else after == before
    decreases |addrs|
  {
    if addrs != [] {
      hide CountAll, Count, IsSampled;
      var init, b := addrs[..|addrs| - 1], addrs[|addrs| - 1];
      var mid := CountAll(log, init, today, now);
      assert addrs == init + [b] && b !in init;
      CountAllMore(log, init, b, today, now);
      CountIsExact(mid, b, today, now, a, d);
      if EntryOf(mid, a, d).Some? {
        SampleIsExact(log, init, today, now, a, d);
      } else if EntryOf(log, a, today).Some? {
        SampleStays(log, init, today, now, a);
      }
    }
  }

  function EntryAt(ports: Ports, port: int, a: nat, d: int): Option<Entry> {
    EntryOf(LogOf(ports, port), a, d)
  }

  /** The port has a sample of its own, at place i; every port has one at most. */
  predicate IsSampleOf(seen: seq<(int, seq<string>)>, port: int, i: nat) {
    i < |seen| && seen[i].0 == port && forall j | 0 <= j < |seen| && j != i :: seen[j].0 != port
  }

  lemma {:induction false} OthersKeepPort(ports: Ports, seen: seq<(int, seq<string>)>, norm: string -> Option<nat>,
                                          today: int, now: int, port: int)
    requires forall j | 0 <= j < |seen| :: seen[j].0 != port
    ensures var r := CountPorts(ports, seen, norm, today, now);
            (port in r <==> port in ports) && LogOf(r, port) == LogOf(ports, port)
    decreases |seen|
  {
    if seen != [] {
      OthersKeepPort(ports, seen[..|seen| - 1], norm, today, now, port);
    }
  }

  /** A port is recorded once it is sampled: from 1 to 65535, the first 64 of them. */
  lemma PortIsRecordedIff(ports: Ports, port: int, raw: seq<string>, norm: string -> Option<nat>, today: int, now: int)
    ensures var r := CountPort(ports, port, raw, norm, today, now);
            && (port in r <==> port in ports
                               || (1 <= port <= 65535 && |ports| < 64))
            && (forall p | p != port :: (p in r <==> p in ports) && LogOf(r, p) == LogOf(ports, p))
            && (LogOf(r, port) ==
                if 1 <= port <= 65535 && (port in ports || |ports| < 64) then
                  CountAll(LogOf(ports, port), Addresses(raw, norm), today, now)
                else LogOf(ports, port))
  {
  }

  /** Pruning takes exactly the entries that are not of the last 7 days or tomorrow. */
  lemma PrunedIff(ports: Ports, today: int, port: int, a: nat, d: int)
    ensures EntryAt(Pruned(ports, today), port, a, d) ==
            if today - 7 < d <= today + 1 then EntryAt(ports, port, a, d) else None
  {
    if today - 7 < d <= today + 1 && EntryAt(ports, port, a, d).Some? {
      assert d in PrunedDays(ports[port][a], today);
      assert a in PrunedPort(ports[port], today);
    }
  }

  /** The samples before and after that of the port leave it alone. */
  lemma {:induction false} PortIsSampledOnce(ports: Ports, seen: seq<(int, seq<string>)>, norm: string -> Option<nat>,
                                             today: int, now: int, port: int, i: nat)
    returns (before: Ports)
    requires IsSampleOf(seen, port, i)
    ensures (port in before <==> port in ports) && LogOf(before, port) == LogOf(ports, port)
    ensures LogOf(CountPorts(ports, seen, norm, today, now), port) ==
            LogOf(CountPort(before, port, seen[i].1, norm, today, now), port)
    decreases |seen|
  {
    var init := seen[..|seen| - 1];
    if i == |init| {
      before := CountPorts(ports, init, norm, today, now);
      OthersKeepPort(ports, init, norm, today, now, port);
    } else {
      assert forall j | 0 <= j < |init| :: init[j] == seen[j];
      before := PortIsSampledOnce(ports, init, norm, today, now, port, i);
    }
  }

  /**
   * One call of Observe: an entry that is there afterwards is of the last 7 days or tomorrow. It counts one sample
   * more, of this moment, if it is today's and its address is in the sample of its port; else it is what it was.
   */
  lemma ObservedIsExact(ports: Ports, seen: seq<(int, seq<string>)>, norm: string -> Option<nat>, today: int, now: int,
                        port: int, i: nat, a: nat, d: int)
    requires IsSampleOf(seen, port, i)
    requires EntryAt(Observed(ports, seen, norm, today, now), port, a, d).Some?
    ensures var before, after := EntryAt(ports, port, a, d), EntryAt(Observed(ports, seen, norm, today, now), port, a, d);
            && today - 7 < d <= today + 1
            && if d == today && 1 <= port <= 65535 && exists k :: 0 <= k < |seen[i].1| && norm(seen[i].1[k]) == Some(a) then
                 IsSampled(before, after, now)
               else after == before
  {
    var addrs := Addresses(seen[i].1, norm);
    PrunedIff(CountPorts(ports, seen, norm, today, now), today, port, a, d);
    var mid := PortIsSampledOnce(ports, seen, norm, today, now, port, i);
    PortIsRecordedIff(mid, port, seen[i].1, norm, today, now);
    AddressesAreDistinct(seen[i].1, norm);
    if IsCounted(mid, port) {
      SampleIsExact(LogOf(mid, port), addrs, today, now, a, d);
    }
  }

  /** The address was seen on the day, which is today or one of the 6 days before. */
  predicate IsCountedDay(ports: Ports, port: int, a: nat, d: int, today: int) {
    today - 7 < d <= today && EntryAt(ports, port, a, d).Some? && EntryAt(ports, port, a, d).value.samples > 0
  }

  /** An address is a regular client of a port exactly when it was seen on three such days. */
  lemma RegularIff(ports: Ports, port: int, a: nat, today: int)
    ensures IsRegular(ports, port, a, today) <==>
            exists x, y, z ::
              && x < y < z
              && IsCountedDay(ports, port, a, x, today) && IsCountedDay(ports, port, a, y, today)
              && IsCountedDay(ports, port, a, z, today)
  {
    if port in ports && a in ports[port] {
      var s := CountedDays(ports[port][a], today);
      assert forall d :: d in s <==> IsCountedDay(ports, port, a, d, today);
      if x: int, y: int, z: int :| x < y < z && x in s && y in s && z in s {
        ThreeMembers(s, x, y, z);
      }
      if |s| >= 3 {
        var x, y, z := ThreeOf(s);
      }
    }
  }

  /** Three members of a set of numbers, in ascending order. */
  lemma ThreeOf(s: set<int>) returns (x: int, y: int, z: int)
    requires |s| >= 3
    ensures x in s && y in s && z in s && x < y < z
  {
    var a := SomeMember(s);
    assert |s - {a}| == |s| - 1;
    var b := SomeMember(s - {a});
    assert |s - {a} - {b}| == |s| - 2;
    var c := SomeMember(s - {a} - {b});
    var low, high := if a < b then a else b, if a < b then b else a;
    x, y, z := if c < low then c else low, if c < low then low else if c < high then c else high,
               if c < high then high else c;
  }
}
