/**
 * Keeping the four InfraFence chains as desired (internal/firewall/chain.go). show is how iptables -S prints
 * what was loaded.
 */
module ChainSync {
  import opened Collections

  datatype Chain = Main | Rules | Ports | Egress

  /** One value for each chain. */
  datatype Four<T> = Four(main: T, rules: T, ports: T, egress: T)
  {
    function At(c: Chain): T {
      match c
      case Main => main
      case Rules => rules
      case Ports => ports
      case Egress => egress
    }
  }

  type Lines = seq<string>
  type Want = Four<Lines>
  type Listed = Four<Option<Lines>>

  // ---- chainsKey

  /** strings.Join with line feeds, and a line feed at the end. */
  function Joined(lines: Lines): string {
    if lines == [] then "\n"
    else if |lines| == 1 then lines[0] + "\n"
    else lines[0] + "\n" + Joined(lines[1..])
  }

  function Key(w: Want): string {
    Joined(w.main) + "--\n" + (Joined(w.rules) + "--\n" + (Joined(w.ports) + "--\n" + (Joined(w.egress) + "--\n")))
  }

  /** Every rule starts with -A and is one line. */
  predicate IsRule(line: string) {
    |line| >= 3 && line[..3] == "-A " && '\n' !in line
  }

  predicate AreRules(lines: Lines) {
    forall i | 0 <= i < |lines| :: IsRule(lines[i])
  }

  predicate Valid(w: Want) {
    AreRules(w.main) && AreRules(w.rules) && AreRules(w.ports) && AreRules(w.egress)
  }

  lemma FirstFeed(a: string, rest: string)
    requires '\n' !in a
    ensures (a + "\n" + rest)[|a|] == '\n'
    ensures forall i | 0 <= i < |a| :: (a + "\n" + rest)[i] != '\n'
  {
  }

  /** The first line of a text decides where it ends. */
  lemma SameFirstLine(a: string, b: string, restA: string, restB: string)
    requires '\n' !in a && '\n' !in b && a + "\n" + restA == b + "\n" + restB
    ensures a == b && restA == restB
  {
    var x, y := a + "\n" + restA, b + "\n" + restB;
    FirstFeed(a, restA);
    FirstFeed(b, restB);
    assert |a| == |b|;
    assert a == x[..|a|] && b == y[..|b|];
    assert restA == x[|a| + 1..] && restB == y[|b| + 1..];
  }

  /** Joined(lines) + "--\n" as its lines one after the other. */
  function Closed(lines: Lines, rest: string): string {
    if lines == [] then "--" + "\n" + rest else lines[0] + "\n" + Closed(lines[1..], rest)
  }

  lemma {:induction false} JoinedIsClosed(lines: Lines, rest: string)
    ensures Joined(lines) + "--\n" + rest == if lines == [] then "" + "\n" + Closed([], rest) else Closed(lines, rest)
  {
    if |lines| == 1 {
      assert lines[1..] == [];
      assert Closed(lines, rest) == lines[0] + "\n" + ("--" + "\n" + rest);
    } else if lines != [] {
      JoinedIsClosed(lines[1..], rest);
      assert Joined(lines) + "--\n" + rest == lines[0] + "\n" + (Joined(lines[1..]) + "--\n" + rest);
    }
  }

  function HeadOf(lines: Lines, none: string): string {
    if lines == [] then none else lines[0]
  }

  function TailOf(lines: Lines, rest: string): string {
    if lines == [] then rest else Closed(lines[1..], rest)
  }

  lemma RuleIsNoEnd(lines: Lines)
    requires AreRules(lines)
    ensures '\n' !in HeadOf(lines, "--") && '\n' !in HeadOf(lines, "")
    ensures lines != [] ==> lines[0] != "--" && lines[0] != ""
  {
    if lines != [] {
      assert IsRule(lines[0]);
    }
  }

  lemma {:induction false} ClosedIsInjective(a: Lines, b: Lines, restA: string, restB: string)
    requires AreRules(a) && AreRules(b) && Closed(a, restA) == Closed(b, restB)
    ensures a == b && restA == restB
  {
    RuleIsNoEnd(a);
    RuleIsNoEnd(b);
    SameFirstLine(HeadOf(a, "--"), HeadOf(b, "--"), TailOf(a, restA), TailOf(b, restB));
    assert a == [] <==> b == [];
    if a != [] {
      ClosedIsInjective(a[1..], b[1..], restA, restB);
      assert a == [a[0]] + a[1..] && b == [b[0]] + b[1..];
    }
  }

  lemma PartIsInjective(a: Lines, b: Lines, restA: string, restB: string)
    requires AreRules(a) && AreRules(b) && Joined(a) + "--\n" + restA == Joined(b) + "--\n" + restB
    ensures a == b && restA == restB
  {
    JoinedIsClosed(a, restA);
    JoinedIsClosed(b, restB);
    RuleIsNoEnd(a);
    RuleIsNoEnd(b);
    var none: Lines := [];
    SameFirstLine(HeadOf(a, ""), HeadOf(b, ""), if a == [] then Closed(none, restA) else TailOf(a, restA),
                  if b == [] then Closed(none, restB) else TailOf(b, restB));
    assert a == [] <==> b == [];
    ClosedIsInjective(a, b, restA, restB);
  }

  /** The text chainsKey builds is the same only for the same contents of all four chains. */
  lemma KeyIsInjective(a: Want, b: Want)
    requires Valid(a) && Valid(b)
    ensures Key(a) == Key(b) <==> a == b
    ensures Key(a) != ""
  {
    if Key(a) == Key(b) {
      var a3, b3 := Joined(a.egress) + "--\n", Joined(b.egress) + "--\n";
      var a2, b2 := Joined(a.ports) + "--\n" + a3, Joined(b.ports) + "--\n" + b3;
      var a1, b1 := Joined(a.rules) + "--\n" + a2, Joined(b.rules) + "--\n" + b2;
      PartIsInjective(a.main, b.main, a1, b1);
      PartIsInjective(a.rules, b.rules, a2, b2);
      PartIsInjective(a.ports, b.ports, a3, b3);
      assert a3 + "" == a3 && b3 + "" == b3;
      PartIsInjective(a.egress, b.egress, "", "");
    }
  }

  // ---- one sync

  /** What the agent remembers of its last rebuild; an empty text stands for none. */
  datatype Memory = Memory(lastDesired: string, applied: Want, peFailedKey: string, peInForce: bool)

  datatype Repair = MissingChain | Contents

  datatype Error = PortsEgressRefused | Refused

  /** What a sync reports, and the contents it sent to iptables-restore, in their order. */
  datatype Report = Report(repaired: Option<Repair>, error: Option<Error>, sent: seq<Want>)

  /** How iptables prints what was loaded into a chain. */
  function Shown(w: Want, show: (Chain, Lines) -> Lines): Want {
    Four(show(Main, w.main), show(Rules, w.rules), show(Ports, w.ports), show(Egress, w.egress))
  }

  function AsListed(w: Want): Listed {
    Four(Some(w.main), Some(w.rules), Some(w.ports), Some(w.egress))
  }

  function LinesOf(l: Option<Lines>): Lines {
    if l.Some? then l.value else []
  }

  /** The lines read back after a rebuild; a chain that cannot be listed reads as empty. */
  function ReadBack(w: Want, readable: Four<bool>): Want {
    Four(if readable.main then w.main else [], if readable.rules then w.rules else [],
         if readable.ports then w.ports else [], if readable.egress then w.egress else [])
  }

  /** The desired chains without the port and egress rules. */
  function Bare(w: Want): Want {
    w.(ports := [], egress := [])
  }

  function Attempted(m: Memory, want: Want): Want {
    if Key(want) == m.peFailedKey then Bare(want) else want
  }

  predicate AllPresent(have: Listed) {
    have.main.Some? && have.rules.Some? && have.ports.Some? && have.egress.Some?
  }

  predicate SameLines(have: Listed, applied: Want) {
    && LinesOf(have.main) == applied.main && LinesOf(have.rules) == applied.rules
    && LinesOf(have.ports) == applied.ports && LinesOf(have.egress) == applied.egress
  }

  /** The answers of iptables during one sync. */
  datatype Answers = Answers(first: bool, second: bool, readable: Four<bool>)

  datatype Done = Done(memory: Memory, chains: Listed, report: Report)

  function Sync(m: Memory, have: Listed, want: Want, show: (Chain, Lines) -> Lines, iptables: Answers): Done {
    var w := Attempted(m, want);
    var withPE := Key(want) != m.peFailedKey;
    var repaired := if !AllPresent(have) then Some(MissingChain)
                    else if m.lastDesired != "" && Key(w) == m.lastDesired then Some(Contents)
                    else None;
    if AllPresent(have) && Key(w) == m.lastDesired && SameLines(have, m.applied) then
      Done(m.(peInForce := withPE), have, Report(None, None, []))
    else if iptables.first then
      Done(Memory(Key(w), ReadBack(Shown(w, show), iptables.readable), m.peFailedKey, withPE),
           AsListed(Shown(w, show)), Report(repaired, None, [w]))
    else if |w.ports| + |w.egress| == 0 then
      Done(m, have, Report(None, Some(Refused), [w]))
    else if !iptables.second then
      Done(m.(peInForce := false), have, Report(None, Some(Refused), [w, Bare(w)]))
    else
      Done(Memory(Key(Bare(w)), ReadBack(Shown(Bare(w), show), iptables.readable), Key(w), false),
           AsListed(Shown(Bare(w), show)), Report(repaired, Some(PortsEgressRefused), [w, Bare(w)]))
  }

  /** The memory is of what a rebuild with w left in the chains. */
  predicate Remembers(m: Memory, w: Want, show: (Chain, Lines) -> Lines) {
    Valid(w) && m.lastDesired == Key(w) && m.applied == Shown(w, show)
  }

  /** Nothing was rebuilt yet, or the memory is of the last rebuild, last. */
  predicate Sound(m: Memory, last: Option<Want>, show: (Chain, Lines) -> Lines) {
    if last.None? then m.lastDesired == "" else Remembers(m, last.value, show)
  }

  /** The rebuild a sync leaves behind. */
  function Last(last: Option<Want>, report: Report): Option<Want> {
    if report.sent == [] || report.error == Some(Refused) then last else Some(report.sent[|report.sent| - 1])
  }

  /** Every chain that has rules was read back after the rebuild. */
  predicate ReadAll(w: Want, readable: Four<bool>, show: (Chain, Lines) -> Lines) {
    && (readable.main || show(Main, w.main) == []) && (readable.rules || show(Rules, w.rules) == [])
    && (readable.ports || show(Ports, w.ports) == []) && (readable.egress || show(Egress, w.egress) == [])
  }

  /** A rebuild, if there was one, was read back. */
  predicate IsReadBack(r: Report, readable: Four<bool>, show: (Chain, Lines) -> Lines) {
    r.sent == [] || r.error == Some(Refused) || ReadAll(r.sent[|r.sent| - 1], readable, show)
  }

  /** A sync keeps the memory sound exactly when a chain with rules is never read back in vain. */
  lemma StaysSoundIff(m: Memory, last: Option<Want>, have: Listed, want: Want, show: (Chain, Lines) -> Lines,
                      iptables: Answers)
    requires Valid(want) && Sound(m, last, show)
    ensures var d := Sync(m, have, want, show, iptables);
            Sound(d.memory, Last(last, d.report), show) <==> IsReadBack(d.report, iptables.readable, show)
  {
    var d := Sync(m, have, want, show, iptables);
    if d.report.sent != [] && d.report.error != Some(Refused) {
      var w := d.report.sent[|d.report.sent| - 1];
      assert Valid(w) && d.memory.lastDesired == Key(w);
    }
  }

  /**
   * What a sync that is not refused leaves: the rules as desired, the port and egress rules unless iptables
   * refuses them.
   */
  predicate InForce(chains: Listed, want: Want, withPE: bool, show: (Chain, Lines) -> Lines) {
    && chains.main == Some(show(Main, want.main)) && chains.rules == Some(show(Rules, want.rules))
    && chains.ports == Some(show(Ports, if withPE then want.ports else []))
    && chains.egress == Some(show(Egress, if withPE then want.egress else []))
  }

  /**
   * A sync ends with the chains exactly as desired, or without the port and egress rules after iptables refused
   * them for this state, or refused and unchanged; peInForce says which.
   */
  lemma SyncIsExact(m: Memory, last: Option<Want>, have: Listed, want: Want, show: (Chain, Lines) -> Lines,
                    iptables: Answers)
    requires Valid(want) && Sound(m, last, show)
    ensures var d := Sync(m, have, want, show, iptables);
            && (d.report.error != Some(Refused) ==> InForce(d.chains, want, d.memory.peInForce, show))
            && (d.report.error == Some(Refused) ==> d.chains == have)
            && (d.report.error == Some(PortsEgressRefused) ==>
                  !d.memory.peInForce && d.memory.peFailedKey == Key(want))
            && (!d.memory.peInForce && d.report.error.None? ==> m.peFailedKey == Key(want))
  {
    var d := Sync(m, have, want, show, iptables);
    var w := Attempted(m, want);
    if d.report.sent == [] {
      KeyIsInjective(w, w);
      KeyIsInjective(w, last.value);
    }
  }

  /**
   * What a sync sends to iptables, if anything: first the desired chains, the port and egress rules left out if
   * iptables refused them before; if it refuses that and there are such rules, the others alone. It is refused
   * exactly when iptables refuses the last of these.
   */
  lemma SentIsExact(m: Memory, have: Listed, want: Want, show: (Chain, Lines) -> Lines, iptables: Answers)
    requires Valid(want)
    ensures var r := Sync(m, have, want, show, iptables).report;
            var whole, others := Key(want) != m.peFailedKey, Four(want.main, want.rules, [], []);
            && (r.sent != [] ==> r.sent[0] == if whole then want else others)
            && (|r.sent| > 1 <==> r.sent != [] && !iptables.first && whole && want != others)
            && (|r.sent| > 1 ==> r.sent == [want, others])
            && (r.error == Some(PortsEgressRefused) <==> |r.sent| > 1 && iptables.second)
            && (r.error == Some(Refused) <==>
                  (|r.sent| == 1 && !iptables.first) || (|r.sent| > 1 && !iptables.second))
  {
  }

  /** Before any rebuild a repair is reported exactly for a missing chain. */
  lemma FirstRepairIff(m: Memory, have: Listed, want: Want, show: (Chain, Lines) -> Lines, iptables: Answers)
    requires Valid(want) && m.lastDesired == ""
    ensures var r := Sync(m, have, want, show, iptables).report;
            r.repaired == if r.error != Some(Refused) && !AllPresent(have) then Some(MissingChain) else None
  {
    KeyIsInjective(Attempted(m, want), Attempted(m, want));
  }

  /** Trusting a chain that could not be read back: emptied from outside it stays empty. */
  lemma UnreadChainIsTrusted(rule: string, show: (Chain, Lines) -> Lines)
    requires IsRule(rule) && show(Main, [rule]) != []
    ensures var want := Four([rule], [], [], []);
            var empty := Four(Some([]), Some([]), Some([]), Some([]));
            var unread, read := Four(false, false, false, false), Four(true, true, true, true);
            var d := Sync(Memory("", Four([], [], [], []), "", false), empty, want, show, Answers(true, true, unread));
            var again := Sync(d.memory, empty, want, show, Answers(true, true, read));
            d.report.error.None? && again.report == Report(None, None, []) && again.chains == empty
  {
    KeyIsInjective(Four([rule], [], [], []), Four([], [], [], []));
  }

  /** The memory is of a rebuild with w, as far as it could be read back. */
  predicate Recalls(m: Memory, w: Want, readable: Four<bool>, show: (Chain, Lines) -> Lines) {
    Valid(w) && m.lastDesired == Key(w) && m.applied == ReadBack(Shown(w, show), readable)
  }

  /** Every rebuild leaves such a memory, and the chains as it shows them. */
  lemma RebuildIsRecalled(m: Memory, have: Listed, want: Want, show: (Chain, Lines) -> Lines, iptables: Answers)
    requires Valid(want)
    ensures var d := Sync(m, have, want, show, iptables);
            d.report.sent != [] && d.report.error != Some(Refused) ==>
              var w := d.report.sent[|d.report.sent| - 1];
              Recalls(d.memory, w, iptables.readable, show) && d.chains == AsListed(Shown(w, show))
  {
  }

  /** A listing differs from what was read back. */
  lemma SeenAsLeftIff(w: Want, readable: Four<bool>, have: Listed, show: (Chain, Lines) -> Lines)
    ensures have == AsListed(Shown(w, show)) ==>
              (SameLines(have, ReadBack(Shown(w, show), readable)) <==> ReadAll(w, readable, show))
    ensures AllPresent(have) && ReadAll(w, readable, show) ==>
              (SameLines(have, ReadBack(Shown(w, show), readable)) <==> have == AsListed(Shown(w, show)))
  {
  }

  /** The sync after a rebuild, when nothing changed, sends nothing exactly when the rebuild was read back. */
  lemma NextSyncIff(m: Memory, w: Want, readable: Four<bool>, want: Want, show: (Chain, Lines) -> Lines,
                    again: Answers)
    requires Recalls(m, w, readable, show) && Attempted(m, want) == w
    ensures var e := Sync(m, AsListed(Shown(w, show)), want, show, again);
            && (e.report.sent == [] <==> ReadAll(w, readable, show))
            && (e.report.sent == [] ==>
                  e == Done(m.(peInForce := Key(want) != m.peFailedKey), AsListed(Shown(w, show)),
                            Report(None, None, [])))
  {
    SeenAsLeftIff(w, readable, AsListed(Shown(w, show)), show);
  }

  /**
   * A second sync with nothing changed from outside does nothing, whatever iptables would answer, if and only if
   * the first was not refused and what it rebuilt could be read back.
   */
  lemma SecondSyncDoesNothingIff(m: Memory, have: Listed, want: Want, show: (Chain, Lines) -> Lines,
                                 iptables: Answers, again: Answers)
    requires Valid(want)
    ensures var d := Sync(m, have, want, show, iptables);
            var e := Sync(d.memory, d.chains, want, show, again);
            && (e.report.sent == [] <==>
                  d.report.error != Some(Refused) && IsReadBack(d.report, iptables.readable, show))
            && (e.report.sent == [] ==> e == Done(d.memory, d.chains, Report(None, None, [])))
  {
    var d := Sync(m, have, want, show, iptables);
    if d.report.sent != [] && d.report.error != Some(Refused) {
      RebuildIsRecalled(m, have, want, show, iptables);
      KeyIsInjective(want, Bare(want));
      NextSyncIff(d.memory, d.report.sent[|d.report.sent| - 1], iptables.readable, want, show, again);
    }
  }

  /**
   * What a sync after a rebuild reports as a repair. It is reported exactly when a chain is missing or, for the same
   * desired state, the chains differ from what was read back, and the rebuild is not refused. So it is reported for
   * the agent's own rebuild, with nothing changed from outside, exactly when a chain with rules was not read back;
   * otherwise, for the same state, exactly for a change from outside.
   */
  lemma RepairsAreForeignIff(m: Memory, w: Want, readable: Four<bool>, have: Listed, want: Want,
                             show: (Chain, Lines) -> Lines, iptables: Answers)
    requires Valid(want) && Recalls(m, w, readable, show)
    ensures var r := Sync(m, have, want, show, iptables).report;
            var left := AsListed(Shown(w, show));
            && (r.repaired.Some? <==>
                  && r.error != Some(Refused)
                  && (!AllPresent(have) || (Attempted(m, want) == w && !SameLines(have, m.applied))))
            && (have == left ==>
                  (r.repaired.Some? <==>
                     && r.error != Some(Refused) && Attempted(m, want) == w && !ReadAll(w, readable, show)))
            && (ReadAll(w, readable, show) && Attempted(m, want) == w && r.error != Some(Refused) ==>
                  (r.repaired.Some? <==> have != left))
            && (r.repaired.Some? ==> (r.repaired == Some(MissingChain) <==> !AllPresent(have)))
  {
    KeyIsInjective(Attempted(m, want), w);
    SeenAsLeftIff(w, readable, have, show);
  }

  /** The agent's own rebuild reported as a repair: nothing changed, but the rules could not be read back. */
  lemma OwnRebuildIsReported(rule: string, have: Listed, show: (Chain, Lines) -> Lines)
    requires IsRule(rule) && show(Main, [rule]) != []
    ensures var want := Four([rule], [], [], []);
            var unread, read := Four(false, false, false, false), Four(true, true, true, true);
            var d := Sync(Memory("", Four([], [], [], []), "", false), have, want, show, Answers(true, true, unread));
            var again := Sync(d.memory, d.chains, want, show, Answers(true, true, read)).report;
            d.chains == AsListed(Shown(want, show)) && again == Report(Some(Contents), None, [want])
  {
    var want := Four([rule], [], [], []);
    KeyIsInjective(want, want);
  }

  // ---- runs

  /** One sync of a run: what it found, whatever happened before, and what was desired. */
  datatype Round = Round(have: Listed, want: Want, iptables: Answers)

  function Rounds(m: Memory, rounds: seq<Round>, show: (Chain, Lines) -> Lines): (reports: seq<Report>)
    ensures |reports| == |rounds|
    decreases |rounds|
  {
    if rounds == [] then []
    else
      var d := Sync(m, rounds[0].have, rounds[0].want, show, rounds[0].iptables);
      [d.report] + Rounds(d.memory, rounds[1..], show)
  }

  /** In every round the chains end as desired, or without the port and egress rules, or refused and as found. */
  predicate EachExact(m: Memory, rounds: seq<Round>, show: (Chain, Lines) -> Lines)
    decreases |rounds|
  {
    rounds == []
    || (var r := rounds[0];
        var d := Sync(m, r.have, r.want, show, r.iptables);
        && (if d.report.error == Some(Refused) then d.chains == r.have
            else InForce(d.chains, r.want, d.memory.peInForce, show))
        && EachExact(d.memory, rounds[1..], show))
  }

  /** After every rebuild of the run each chain that has rules was read back. */
  predicate AllReadBack(m: Memory, rounds: seq<Round>, show: (Chain, Lines) -> Lines)
    decreases |rounds|
  {
    rounds == []
    || (var r := rounds[0];
        var d := Sync(m, r.have, r.want, show, r.iptables);
        IsReadBack(d.report, r.iptables.readable, show) && AllReadBack(d.memory, rounds[1..], show))
  }

  /** Whatever happens to the chains between the syncs of a run, each sync puts them right. */
  lemma {:induction false} ExactOverRuns(m: Memory, last: Option<Want>, rounds: seq<Round>,
                                         show: (Chain, Lines) -> Lines)
    requires Sound(m, last, show) && AllReadBack(m, rounds, show)
    requires forall k | 0 <= k < |rounds| :: Valid(rounds[k].want)
    ensures EachExact(m, rounds, show)
    decreases |rounds|
  {
    if rounds != [] {
      var r := rounds[0];
      var d := Sync(m, r.have, r.want, show, r.iptables);
      SyncIsExact(m, last, r.have, r.want, show, r.iptables);
      StaysSoundIff(m, last, r.have, r.want, show, r.iptables);
      ExactOverRuns(d.memory, Last(last, d.report), rounds[1..], show);
    }
  }

  lemma RefusedIsRemembered(m: Memory, r: Round, show: (Chain, Lines) -> Lines, refused: Want)
    requires Valid(refused) && Valid(r.want) && m.peFailedKey == Key(refused) && |refused.ports| + |refused.egress| > 0
    ensures var d := Sync(m, r.have, r.want, show, r.iptables);
            && refused !in d.report.sent
            && (d.report.error != Some(PortsEgressRefused) ==> d.memory.peFailedKey == m.peFailedKey)
  {
    KeyIsInjective(r.want, refused);
    assert Bare(r.want) != refused && Attempted(m, r.want) != refused;
  }

  /**
   * A state whose port or egress rules iptables refused is never sent again as a whole, through any outside
   * changes and any other desired states, until it refuses those of another state.
   */
  lemma {:induction false} RefusedIsNotRetried(m: Memory, rounds: seq<Round>, show: (Chain, Lines) -> Lines,
                                               refused: Want, i: nat)
    requires Valid(refused) && m.peFailedKey == Key(refused) && |refused.ports| + |refused.egress| > 0
    requires forall k | 0 <= k < |rounds| :: Valid(rounds[k].want)
    requires i < |rounds| && forall k | 0 <= k < i :: Rounds(m, rounds, show)[k].error != Some(PortsEgressRefused)
    ensures refused !in Rounds(m, rounds, show)[i].sent
    decreases i
  {
    var r := rounds[0];
    var d := Sync(m, r.have, r.want, show, r.iptables);
    RefusedIsRemembered(m, r, show, refused);
    if i > 0 {
      var all, rest := Rounds(m, rounds, show), Rounds(d.memory, rounds[1..], show);
      assert all[0] == d.report && forall k | 0 <= k < |rest| :: rest[k] == all[k + 1];
      RefusedIsNotRetried(d.memory, rounds[1..], show, refused, i - 1);
    }
  }

  // ---- the code

  /** The chains in the kernel. */
  class Kernel {
    var chains: Listed

    constructor (initial: Listed)
      ensures chains == initial
    {
      chains := initial;
    }

    /** restoreChains: one iptables-restore, all four chains or none. */
    method Restore(w: Want, show: (Chain, Lines) -> Lines, accepts: bool)
      modifies this
      ensures chains == if accepts then AsListed(Shown(w, show)) else old(chains)
    {
      if accepts {
        chains := AsListed(Shown(w, show));
      }
    }
  }

  class FwState {
    var lastDesired: string
    var applied: Want
    var peFailedKey: string
    var peInForce: bool

    ghost function Remembered(): Memory
      reads this
    {
      Memory(lastDesired, applied, peFailedKey, peInForce)
    }

    constructor ()
      ensures Remembered() == Memory("", Four([], [], [], []), "", false)
    {
      lastDesired, applied, peFailedKey, peInForce := "", Four([], [], [], []), "", false;
    }

    /** Whether all chains are there, and whether they are as this state's last rebuild left them. */
    method Compare(kernel: Kernel, key: string) returns (allPresent: bool, same: bool)
      ensures allPresent == AllPresent(kernel.chains)
      ensures same == (key == lastDesired && SameLines(kernel.chains, applied))
    {
      allPresent, same := true, key == lastDesired;
      var order := [Main, Rules, Ports, Egress];
      for i := 0 to 4
        invariant allPresent == forall k | 0 <= k < i :: kernel.chains.At(order[k]).Some?
        invariant same == (key == lastDesired &&
                           forall k | 0 <= k < i :: LinesOf(kernel.chains.At(order[k])) == applied.At(order[k]))
      {
        var lines := kernel.chains.At(order[i]);
        if lines.None? {
          allPresent := false;
        }
        if LinesOf(lines) != applied.At(order[i]) {
          same := false;
        }
      }
      ByChain(kernel.chains, applied);
    }

    /** syncChains */
    method SyncChains(kernel: Kernel, desired: Want, show: (Chain, Lines) -> Lines, iptables: Answers)
        returns (repaired: Option<Repair>, error: Option<Error>, ghost sent: seq<Want>)
      modifies this, kernel
      ensures Done(Remembered(), kernel.chains, Report(repaired, error, sent)) ==
              Sync(old(Remembered()), old(kernel.chains), desired, show, iptables)
    {
      var want := desired;
      var key := Key(want);
      var withPE := true;
      sent := [];
      if key == peFailedKey {
        want := want.(ports := [], egress := []);
        key := Key(want);
        withPE := false;
      }
      var allPresent, same := Compare(kernel, key);
      if allPresent && same {
        peInForce := withPE;
        return None, None, sent;
      }
      var drift := lastDesired != "" && key == lastDesired;
      error := None;
      kernel.Restore(want, show, iptables.first);
      sent := sent + [want];
      if !iptables.first {
        if |want.ports| + |want.egress| == 0 {
          return None, Some(Refused), sent;
        }
        error := Some(PortsEgressRefused);
        var failedKey := key;
        want := want.(ports := [], egress := []);
        kernel.Restore(want, show, iptables.second);
        sent := sent + [want];
        if !iptables.second {
          peInForce := false;
          return None, Some(Refused), sent;
        }
        peFailedKey := failedKey;
        key := Key(want);
        withPE := false;
      }
      peInForce := withPE;
      lastDesired := key;
      applied := ReadBack(Shown(want, show), iptables.readable);
      repaired := if !allPresent then Some(MissingChain) else if drift then Some(Contents) else None;
    }
  }

  lemma ByChain(have: Listed, applied: Want)
    ensures var order := [Main, Rules, Ports, Egress];
            && ((forall k | 0 <= k < 4 :: have.At(order[k]).Some?) <==> AllPresent(have))
            && ((forall k | 0 <= k < 4 :: LinesOf(have.At(order[k])) == applied.At(order[k])) <==>
                SameLines(have, applied))
  {
    var order := [Main, Rules, Ports, Egress];
    assert order[0] == Main && order[1] == Rules && order[2] == Ports && order[3] == Egress;
  }
}
