/**
 * Keeping the jumps to the InfraFence chains in front (internal/firewall/chain.go). A rule is the list of its
 * fields; lower is strings.ToLower.
 */
module JumpOrder {
  import opened Sequences

  type Line = seq<string>

  const MAIN_CHAIN := "INFRAFENCE"
  const RULES_CHAIN := "INFRAFENCE-RULES"
  const OUR_CHAINS := {MAIN_CHAIN, RULES_CHAIN, "INFRAFENCE-PORTS", "INFRAFENCE-EGRESS"}
  const ENDINGS := {"DROP", "REJECT", "RETURN", "LOG"}

  predicate HasPrefix(t: string, p: string) {
    |p| <= |t| && t[..|p|] == p
  }

  /** Targets that do not accept: they drop, return or log, are ours, or belong to fail2ban or CrowdSec. */
  predicate Harmless(t: string, lower: string -> string) {
    && t != "ACCEPT"
    && (|| t in ENDINGS || t in OUR_CHAINS
        || HasPrefix(t, "f2b-") || HasPrefix(t, "fail2ban") || HasPrefix(lower(t), "crowdsec"))
  }

  predicate IsMark(f: Line, i: int) {
    0 <= i && i + 1 < |f| && (f[i] == "-j" || f[i] == "-g")
  }

  /** The rule's target is the field after its first -j or -g. */
  predicate IsTarget(f: Line, i: int) {
    IsMark(f, i) && forall k | 0 <= k < i :: !IsMark(f, k)
  }

  /** The code's test of a rule: its first -j or -g names no harmless target. */
  predicate Accepts(f: Line, lower: string -> string) {
    exists i | 0 <= i < |f| - 1 :: IsTarget(f, i) && !Harmless(f[i + 1], lower)
  }

  /** A target the test takes for one that does not accept, by name. */
  lemma HarmlessIff(t: string, lower: string -> string)
    ensures Harmless(t, lower) <==>
            && t != "ACCEPT"
            && (|| t == "DROP" || t == "REJECT" || t == "RETURN" || t == "LOG"
                || t == "INFRAFENCE" || t == "INFRAFENCE-RULES" || t == "INFRAFENCE-PORTS" || t == "INFRAFENCE-EGRESS"
                || "f2b-" <= t || "fail2ban" <= t || "crowdsec" <= lower(t))
  {
  }

  /** What is in front of the first -j or -g does not count, nor what is behind its target. */
  lemma FirstTargetDecides(before: Line, flag: string, t: string, after: Line, lower: string -> string)
    requires (flag == "-j" || flag == "-g") && forall i | 0 <= i < |before| :: before[i] != "-j" && before[i] != "-g"
    ensures Accepts(before + [flag, t] + after, lower) <==> !Harmless(t, lower)
  {
    var f, k := before + [flag, t] + after, |before|;
    assert f[k] == flag && f[k + 1] == t && forall i | 0 <= i < k :: f[i] == before[i];
    assert IsTarget(f, k);
    assert forall i | 0 <= i < |f| - 1 && IsTarget(f, i) :: i == k;
  }

  /** mayAccept */
  method MayAccept(f: Line, lower: string -> string) returns (r: bool)
    ensures r <==> Accepts(f, lower)
  {
    var i := 0;
    while i + 1 < |f|
      invariant 0 <= i && forall k | 0 <= k < i :: !IsMark(f, k)
    {
      if f[i] != "-j" && f[i] != "-g" {
        i := i + 1;
        continue;
      }
      assert IsTarget(f, i);
      var t := f[i + 1];
      if t == "ACCEPT" {
        return true;
      }
      if t in ENDINGS {
        return false;
      }
      if t in OUR_CHAINS {
        return false;
      }
      if HasPrefix(t, "f2b-") || HasPrefix(t, "fail2ban") || HasPrefix(lower(t), "crowdsec") {
        return false;
      }
      return true;
    }
    return false;
  }

  // ---- where the jump is

  /** k is where the jump first is, -1 without one. */
  predicate FirstJump(rules: seq<Line>, jump: Line, k: int) {
    if k < 0 then k == -1 && jump !in rules
    else k < |rules| && rules[k] == jump && forall i | 0 <= i < k :: rules[i] != jump
  }

  /** k is the first rule that may accept, -1 without one. */
  predicate FirstAccept(rules: seq<Line>, lower: string -> string, k: int) {
    if k < 0 then k == -1 && forall i | 0 <= i < |rules| :: !Accepts(rules[i], lower)
    else k < |rules| && Accepts(rules[k], lower) && forall i | 0 <= i < k :: !Accepts(rules[i], lower)
  }

  /** jumpPosition */
  method JumpPosition(rules: seq<Line>, jump: Line, lower: string -> string) returns (ours: int, firstAccept: int)
    ensures FirstJump(rules, jump, ours) && FirstAccept(rules, lower, firstAccept)
  {
    ours, firstAccept := -1, -1;
    for i := 0 to |rules|
      invariant if ours < 0 then ours == -1 && jump !in rules[..i]
                else ours < i && rules[ours] == jump && forall k | 0 <= k < ours :: rules[k] != jump
      invariant if firstAccept < 0 then firstAccept == -1 && forall k | 0 <= k < i :: !Accepts(rules[k], lower)
                else
                  && firstAccept < i && Accepts(rules[firstAccept], lower)
                  && forall k | 0 <= k < firstAccept :: !Accepts(rules[k], lower)
    {
      if rules[i] == jump && ours < 0 {
        ours := i;
      }
      var accepts := false;
      if firstAccept < 0 {
        accepts := MayAccept(rules[i], lower);
      }
      if accepts {
        firstAccept := i;
      }
      assert rules[..i + 1] == rules[..i] + [rules[i]];
    }
    assert rules[..|rules|] == rules;
  }

  /** The jump is there and no rule ahead of it accepts by the code's test. */
  predicate Guarded(rules: seq<Line>, jump: Line, lower: string -> string) {
    exists k | 0 <= k < |rules| :: rules[k] == jump && forall i | 0 <= i < k :: !Accepts(rules[i], lower)
  }

  /** NeedsRepair on the listed INPUT chain: exactly when the jump does not guard it. */
  method NeedsRepair(rules: seq<Line>, jump: Line, lower: string -> string) returns (r: bool)
    ensures r <==> !Guarded(rules, jump, lower)
  {
    var ours, firstAccept := JumpPosition(rules, jump, lower);
    r := ours < 0 || (firstAccept >= 0 && ours > firstAccept);
  }

  predicate IsFirst(rules: seq<Line>, jump: Line) {
    |rules| > 0 && rules[0] == jump
  }

  // ---- what a guarded chain means for a packet

  /** What iptables makes of a rule: it has no target, or jumps or goes to one, a chain or a built-in. */
  datatype Aim = Nothing | Target(name: string, goto: bool)

  /**
   * The host: what iptables means by each printed rule, and which targets can accept a packet. Neither is asked of
   * the code's own test.
   */
  datatype Host = Host(aim: Line -> Aim, accepts: string -> bool)
  {
    /** The rule can accept a packet. */
    predicate Opens(f: Line) {
      aim(f).Target? && accepts(aim(f).name)
    }

    /** The rule can hand a packet to the policy: RETURN, or a goto. */
    predicate Leaves(f: Line) {
      aim(f).Target? && (aim(f).name == "RETURN" || aim(f).goto)
    }
  }

  /**
   * The host is as the code takes it to be: no ending and none of the chains it counts as harmless accepts, except
   * that INFRAFENCE-RULES may, as it holds the rules of the dashboard.
   */
  ghost predicate AsTrusted(h: Host, lower: string -> string) {
    forall t :: h.accepts(t) ==> t == RULES_CHAIN || !Harmless(t, lower)
  }

  /** What a rule does with one packet: it ends the chain, leaves it to the policy, or passes the packet on. */
  datatype Fate = Accepted | Dropped | Left | Passed

  /** A behaviour of the rules for one packet that the jump's chain drops, in line with what each rule can do. */
  ghost predicate Possible(act: Line -> Fate, jump: Line, h: Host) {
    && act(jump) == Dropped
    && (forall f :: act(f) == Accepted ==> h.Opens(f))
    && (forall f :: act(f) == Left ==> h.Leaves(f))
  }

  /** What a built-in chain with an accepting policy does with the packet. */
  predicate Admits(rules: seq<Line>, act: Line -> Fate) {
    if rules == [] then true
    else match act(rules[0])
      case Accepted => true
      case Dropped => false
      case Left => true
      case Passed => Admits(rules[1..], act)
  }

  /** With a policy that drops, only a rule that accepts lets the packet in. */
  predicate Accepting(rules: seq<Line>, act: Line -> Fate) {
    if rules == [] then false
    else match act(rules[0])
      case Accepted => true
      case Dropped => false
      case Left => false
      case Passed => Accepting(rules[1..], act)
  }

  /** The rules ahead of the jump, all of them without one. */
  function Ahead(rules: seq<Line>, jump: Line): seq<Line> {
    if rules == [] || rules[0] == jump then [] else [rules[0]] + Ahead(rules[1..], jump)
  }

  /** Every packet the jump's chain drops is dropped, whatever else the rules do, when the policy accepts. */
  ghost predicate Shielded(rules: seq<Line>, jump: Line, h: Host) {
    forall act: Line -> Fate | Possible(act, jump, h) :: !Admits(rules, act)
  }

  /** The same when the policy drops. */
  ghost predicate Barred(rules: seq<Line>, jump: Line, h: Host) {
    forall act: Line -> Fate | Possible(act, jump, h) :: !Accepting(rules, act)
  }

  /** Some rule ahead of the jump can accept. */
  predicate OpensAhead(rules: seq<Line>, jump: Line, h: Host) {
    exists f | f in Ahead(rules, jump) :: h.Opens(f)
  }

  predicate LeavesAhead(rules: seq<Line>, jump: Line, h: Host) {
    exists f | f in Ahead(rules, jump) :: h.Leaves(f)
  }

  /** No packet gets past rules of which none can accept; it reaches the jump if none can leave the chain. */
  lemma {:induction false} NoneGetsPast(rules: seq<Line>, jump: Line, h: Host, act: Line -> Fate)
    requires Possible(act, jump, h) && !OpensAhead(rules, jump, h)
    ensures !Accepting(rules, act)
    ensures jump in rules && !LeavesAhead(rules, jump, h) ==> !Admits(rules, act)
  {
    if rules != [] && rules[0] != jump {
      assert rules[0] in Ahead(rules, jump);
      assert forall f | f in Ahead(rules[1..], jump) :: f in Ahead(rules, jump);
      NoneGetsPast(rules[1..], jump, h, act);
    }
  }

  /** Every rule that can accept does, and, if they may, every other that can leave the chain. */
  function Worst(jump: Line, h: Host, leave: bool): Line -> Fate {
    f => if f == jump then Dropped
         else if h.Opens(f) then Accepted
         else if leave && h.Leaves(f) then Left
         else Passed
  }

  lemma {:induction false} WorstCase(rules: seq<Line>, jump: Line, h: Host)
    ensures OpensAhead(rules, jump, h) ==> Accepting(rules, Worst(jump, h, false))
    ensures OpensAhead(rules, jump, h) || LeavesAhead(rules, jump, h) || jump !in rules ==>
              Admits(rules, Worst(jump, h, true))
  {
    if rules != [] && rules[0] != jump {
      var ahead := Ahead(rules[1..], jump);
      assert Ahead(rules, jump) == [rules[0]] + ahead;
      assert rules == [rules[0]] + rules[1..];
      WorstCase(rules[1..], jump, h);
    }
  }

  /**
   * A built-in chain that accepts by default drops every packet the InfraFence chain drops, whatever its rules
   * match, if and only if the jump is there and no rule ahead of it can accept or leave the chain; one that drops
   * by default, if and only if no rule ahead of it can accept.
   */
  lemma ShieldedIff(rules: seq<Line>, jump: Line, h: Host)
    ensures Shielded(rules, jump, h) <==>
            jump in rules && !OpensAhead(rules, jump, h) && !LeavesAhead(rules, jump, h)
    ensures Barred(rules, jump, h) <==> !OpensAhead(rules, jump, h)
  {
    forall act: Line -> Fate | Possible(act, jump, h) && !OpensAhead(rules, jump, h)
      ensures !Accepting(rules, act)
      ensures jump in rules && !LeavesAhead(rules, jump, h) ==> !Admits(rules, act)
    {
      NoneGetsPast(rules, jump, h, act);
    }
    WorstCase(rules, jump, h);
    assert Possible(Worst(jump, h, false), jump, h) && Possible(Worst(jump, h, true), jump, h);
  }

  /** What the code's test takes for the target of a rule. */
  ghost predicate ReadsAs(f: Line, a: Aim) {
    match a
    case Nothing => forall i :: !IsMark(f, i)
    case Target(name, goto) =>
      exists i | 0 <= i < |f| - 1 :: IsTarget(f, i) && f[i + 1] == name && (f[i] == "-g" <==> goto)
  }

  /** The target is another than the code's test reads, as when a comment holds a -j. */
  ghost predicate Misread(f: Line, h: Host) {
    !ReadsAs(f, h.aim(f))
  }

  predicate LeadsToRules(f: Line, h: Host) {
    h.aim(f).Target? && h.aim(f).name == RULES_CHAIN
  }

  lemma {:induction false} GuardedAhead(rules: seq<Line>, jump: Line, lower: string -> string)
    ensures Guarded(rules, jump, lower) <==>
            jump in rules && forall f | f in Ahead(rules, jump) :: !Accepts(f, lower)
  {
    if rules != [] && rules[0] != jump {
      hide Guarded, Accepts;
      var rest := rules[1..];
      GuardedAhead(rest, jump, lower);
      GuardedBehind(rules, jump, lower);
      assert Ahead(rules, jump) == [rules[0]] + Ahead(rest, jump) && rules == [rules[0]] + rest;
    } else if rules != [] {
      assert rules[0] == jump;
    }
  }

  lemma GuardedBehind(rules: seq<Line>, jump: Line, lower: string -> string)
    requires rules != [] && rules[0] != jump
    ensures Guarded(rules, jump, lower) <==> !Accepts(rules[0], lower) && Guarded(rules[1..], jump, lower)
  {
    hide Accepts;
    var rest := rules[1..];
    if Guarded(rules, jump, lower) {
      var k :| 0 <= k < |rules| && rules[k] == jump && forall i | 0 <= i < k :: !Accepts(rules[i], lower);
      assert rest[k - 1] == jump && forall i | 0 <= i < k - 1 :: rest[i] == rules[i + 1];
    }
    if Guarded(rest, jump, lower) && !Accepts(rules[0], lower) {
      var k :| 0 <= k < |rest| && rest[k] == jump && forall i | 0 <= i < k :: !Accepts(rest[i], lower);
      assert rules[k + 1] == jump && forall i | 0 < i < k + 1 :: rules[i] == rest[i - 1];
    }
  }

  /** A rule the code's test passes can accept only by leading to INFRAFENCE-RULES, or when it was misread. */
  lemma PassedRule(f: Line, h: Host, lower: string -> string)
    requires AsTrusted(h, lower) && !Accepts(f, lower) && h.Opens(f)
    ensures LeadsToRules(f, h) || Misread(f, h)
  {
    if ReadsAs(f, h.aim(f)) {
      var i :| 0 <= i < |f| - 1 && IsTarget(f, i) && f[i + 1] == h.aim(f).name;
      assert Harmless(f[i + 1], lower);
    }
  }

  /** A rule ahead of the jump that can accept although the code's test passes it. */
  ghost predicate Slips(f: Line, h: Host) {
    h.Opens(f) && (LeadsToRules(f, h) || Misread(f, h))
  }

  /**
   * What the code keeps, a guarded chain, drops every packet the InfraFence chain drops exactly unless a rule ahead
   * of the jump leads to INFRAFENCE-RULES while that can accept, or is misread and can accept; with a policy that
   * accepts also unless one can leave the chain.
   */
  lemma GuardedProtectsIff(rules: seq<Line>, jump: Line, h: Host, lower: string -> string)
    requires Guarded(rules, jump, lower) && AsTrusted(h, lower)
    ensures Barred(rules, jump, h) <==> !exists f | f in Ahead(rules, jump) :: Slips(f, h)
    ensures Shielded(rules, jump, h) <==> Barred(rules, jump, h) && !LeavesAhead(rules, jump, h)
  {
    ShieldedIff(rules, jump, h);
    GuardedAhead(rules, jump, lower);
    forall f | f in Ahead(rules, jump) && h.Opens(f)
      ensures Slips(f, h)
    {
      PassedRule(f, h, lower);
    }
  }

  /** A jump to INFRAFENCE-RULES ahead of the main one lets a banned source in that a rule there accepts. */
  lemma RulesAheadExposes(rules: seq<Line>, main: Line, rulesJump: Line, h: Host)
    requires main != rulesJump && IsFirst(rules, rulesJump)
    requires h.aim(rulesJump) == Target(RULES_CHAIN, false) && h.accepts(RULES_CHAIN)
    ensures var act := Worst(main, h, false);
            Possible(act, main, h) && Accepting(rules, act) && Admits(rules, act)
    ensures !Barred(rules, main, h) && !Shielded(rules, main, h)
  {
  }

  /** A rule that accepts everything, with a comment whose words hide it from the code's test. */
  lemma CommentHidesAccept(main: Line, h: Host, lower: string -> string)
    requires !Accepts(main, lower) && h.accepts("ACCEPT")
    requires var f := ["-A", "INPUT", "-m", "comment", "--comment", "\"x", "-j", "DROP", "y\"", "-j", "ACCEPT"];
             main != f && h.aim(f) == Target("ACCEPT", false)
    ensures var f := ["-A", "INPUT", "-m", "comment", "--comment", "\"x", "-j", "DROP", "y\"", "-j", "ACCEPT"];
            !Accepts(f, lower) && Misread(f, h) && Guarded([f, main], main, lower) && !Barred([f, main], main, h)
  {
    var f := ["-A", "INPUT", "-m", "comment", "--comment", "\"x", "-j", "DROP", "y\"", "-j", "ACCEPT"];
    assert IsMark(f, 6) && forall i | 0 <= i < |f| - 1 && IsTarget(f, i) :: i == 6;
    assert [f, main][1] == main && [f, main][0] == f;
    assert Possible(Worst(main, h, false), main, h) && Accepting([f, main], Worst(main, h, false));
  }

  /** The rules written by jumpLine; comment and chain are names, not options. */
  function JumpLine(chain: string, comment: string, target: string): Line {
    ["-A", chain, "-m", "comment", "--comment", comment, "-j", target]
  }

  lemma OurJumpIsHarmless(chain: string, comment: string, target: string, lower: string -> string)
    requires target in OUR_CHAINS && {chain, comment} !! {"-j", "-g"}
    ensures !Accepts(JumpLine(chain, comment, target), lower)
  {
    var f := JumpLine(chain, comment, target);
    assert chain in {chain, comment} && comment in {chain, comment};
    assert "-j" in {"-j", "-g"} && "-g" in {"-j", "-g"};
    assert IsMark(f, 6);
    forall i | 0 <= i < |f| - 1 && IsTarget(f, i)
      ensures Harmless(f[i + 1], lower)
    {
      assert i == 6;
    }
  }

  // ---- the repairs

  function Without(rules: seq<Line>, k: int): seq<Line>
    requires 0 <= k < |rules|
  {
    rules[..k] + rules[k + 1..]
  }

  /** A chain of the host; seen are its contents after each command, oldest first. */
  class HostChain {
    var rules: seq<Line>
    ghost var seen: seq<seq<Line>>

    constructor (initial: seq<Line>)
      ensures rules == initial && seen == []
    {
      rules, seen := initial, [];
    }

    /** iptables -I; accepted says whether iptables did it. */
    method Insert(at: nat, line: Line, accepted: bool)
      requires at <= |rules|
      modifies this
      ensures rules == if accepted then old(rules)[..at] + [line] + old(rules)[at..] else old(rules)
      ensures at == 0 && accepted ==> rules == [line] + old(rules)
      ensures seen == old(seen) + [rules]
    {
      if accepted {
        rules := rules[..at] + [line] + rules[at..];
      }
      seen := seen + [rules];
    }

    /** iptables -D by number, counted from 0 here. */
    method Delete(at: nat, accepted: bool)
      requires at < |rules|
      modifies this
      ensures rules == if accepted then Without(old(rules), at) else old(rules)
      ensures seen == old(seen) + [rules]
    {
      if accepted {
        rules := rules[..at] + rules[at + 1..];
      }
      seen := seen + [rules];
    }
  }

  datatype Outcome = Unchanged | Inserted | Moved | Failed

  /** The rules of others, in their order. */
  function Rest(rules: seq<Line>, jump: Line): seq<Line> {
    Filter(l => l != jump, rules)
  }

  lemma RestConcat(a: seq<Line>, b: seq<Line>, jump: Line)
    ensures Rest(a + b, jump) == Rest(a, jump) + Rest(b, jump)
  {
    FilterConcat(l => l != jump, a, b);
  }

  lemma RestMember(rules: seq<Line>, jump: Line, x: Line)
    ensures x in Rest(rules, jump) <==> x in rules && x != jump
  {
    FilterMember(l => l != jump, rules, x);
  }

  /** The chain as ensureJumpAheadOf leaves it. */
  ghost predicate AheadOf(before: seq<Line>, after: seq<Line>, jump: Line, lower: string -> string,
                          listed: bool, o: Outcome) {
    match o
    case Unchanged => listed && Guarded(before, jump, lower) && after == before
    case Inserted => listed && jump !in before && after == [jump] + before
    case Moved =>
      && listed && jump in before && !Guarded(before, jump, lower)
      && exists k | 0 <= k < |before| :: FirstJump(before, jump, k) && after == [jump] + Without(before, k)
    case Failed =>
      && (listed ==> !Guarded(before, jump, lower))
      && (after == before || (jump in before && after == [jump] + before))
  }

  /** The chain was never without the jump since seen had n contents. */
  ghost predicate NeverWithout(seen: seq<seq<Line>>, n: nat, jump: Line) {
    forall i | n <= i < |seen| :: jump in seen[i]
  }

  /** Moves a jump to the front: the new one is inserted before the old one is deleted. */
  method MoveToFront(host: HostChain, jump: Line, ours: nat, inserts: bool, deletes: bool)
      returns (ok: bool)
    requires ours < |host.rules| && host.rules[ours] == jump
    modifies host
    ensures ok <==> inserts && deletes
    ensures ok ==> host.rules == [jump] + Without(old(host.rules), ours)
    ensures !ok ==> host.rules == old(host.rules) || host.rules == [jump] + old(host.rules)
    ensures old(host.seen) <= host.seen && NeverWithout(host.seen, |old(host.seen)|, jump)
  {
    FrontShifts(host.rules, jump, ours);
    host.Insert(0, jump, inserts);
    if !inserts {
      return false;
    }
    host.Delete(ours + 1, deletes);
    ok := deletes;
  }

  lemma FrontShifts(rules: seq<Line>, jump: Line, ours: nat)
    requires ours < |rules|
    ensures Without([jump] + rules, ours + 1) == [jump] + Without(rules, ours)
    ensures jump in [jump] + Without(rules, ours)
  {
  }

  /** ensureJumpAheadOf; the flags say whether iptables listed, inserted and deleted. */
  method EnsureJumpAhead(host: HostChain, jump: Line, lower: string -> string,
                         listed: bool, inserts: bool, deletes: bool)
      returns (o: Outcome)
    modifies host
    ensures AheadOf(old(host.rules), host.rules, jump, lower, listed, o)
    ensures o == Failed <==>
            || !listed
            || (!Guarded(old(host.rules), jump, lower) && !(inserts && (deletes || jump !in old(host.rules))))
    ensures old(host.seen) <= host.seen
    ensures jump in old(host.rules) ==> NeverWithout(host.seen, |old(host.seen)|, jump)
    ensures o == Unchanged ==> host.seen == old(host.seen)
  {
    if !listed {
      return Failed;
    }
    var ours, firstAccept := JumpPosition(host.rules, jump, lower);
    if ours < 0 {
      host.Insert(0, jump, inserts);
      return if inserts then Inserted else Failed;
    }
    if firstAccept >= 0 && ours > firstAccept {
      var ok := MoveToFront(host, jump, ours, inserts, deletes);
      return if ok then Moved else Failed;
    }
    return Unchanged;
  }

  lemma RestWithout(rules: seq<Line>, jump: Line, k: nat)
    requires k < |rules| && rules[k] == jump
    ensures Rest(Without(rules, k), jump) == Rest(rules, jump)
  {
    assert rules == rules[..k] + ([rules[k]] + rules[k + 1..]);
    RestConcat(rules[..k], [rules[k]] + rules[k + 1..], jump);
    RestConcat([rules[k]], rules[k + 1..], jump);
    RestConcat(rules[..k], rules[k + 1..], jump);
    assert Rest([rules[k]], jump) == [];
  }

  /** Whatever happens the other rules keep their order, and unless it fails the chain is guarded. */
  lemma AheadGuards(before: seq<Line>, after: seq<Line>, jump: Line, lower: string -> string,
                    listed: bool, o: Outcome)
    requires AheadOf(before, after, jump, lower, listed, o)
    ensures Rest(after, jump) == Rest(before, jump)
    ensures o != Failed ==> Guarded(after, jump, lower)
    ensures jump in before ==> jump in after
  {
    if after != before {
      assert after[0] == jump;
      assert Guarded(after, jump, lower);
      assert after[1..] == before ||
             exists k | 0 <= k < |before| :: FirstJump(before, jump, k) && after[1..] == Without(before, k);
      if after[1..] != before {
        var k :| 0 <= k < |before| && FirstJump(before, jump, k) && after[1..] == Without(before, k);
        RestWithout(before, jump, k);
      }
    }
  }

  /** A second call right after a successful one does nothing. */
  lemma AheadIsIdempotent(a: seq<Line>, b: seq<Line>, c: seq<Line>, jump: Line, lower: string -> string,
                          o: Outcome, o2: Outcome)
    requires AheadOf(a, b, jump, lower, true, o) && o != Failed
    requires AheadOf(b, c, jump, lower, true, o2)
    ensures c == b && o2 == Unchanged
  {
    AheadGuards(a, b, jump, lower, true, o);
  }

  /** rulesJump is the rule after the first main. */
  predicate DirectlyAfter(rules: seq<Line>, main: Line, rulesJump: Line) {
    exists k | 0 <= k < |rules| - 1 :: FirstJump(rules, main, k) && rules[k + 1] == rulesJump
  }

  /** The place for the rules jump: after the main one, or in front when INPUT could not be listed again. */
  method RulesPlace(rules: seq<Line>, main: Line, listedAgain: bool) returns (at: nat)
    ensures at <= |rules|
    ensures listedAgain && main in rules ==> at > 0 && FirstJump(rules, main, at - 1)
    ensures !listedAgain || main !in rules ==> at == 0
  {
    at := 0;
    var lines := if listedAgain then rules else [];
    for i := 0 to |lines|
      invariant at == 0 && main !in lines[..i]
    {
      if lines[i] == main {
        at := i + 1;
        return;
      }
      assert lines[..i + 1] == lines[..i] + [lines[i]];
    }
    assert lines[..|lines|] == lines;
  }

  function With(rules: seq<Line>, at: nat, line: Line): seq<Line>
    requires at <= |rules|
  {
    rules[..at] + [line] + rules[at..]
  }

  /** A harmless line leaves the chain guarded wherever it is put. */
  lemma InsertKeepsGuard(rules: seq<Line>, at: nat, line: Line, jump: Line, lower: string -> string)
    requires at <= |rules| && Guarded(rules, jump, lower) && !Accepts(line, lower)
    ensures Guarded(With(rules, at, line), jump, lower)
  {
    var r := With(rules, at, line);
    var k :| 0 <= k < |rules| && rules[k] == jump && forall i | 0 <= i < k :: !Accepts(rules[i], lower);
    var e := if at <= k then k + 1 else k;
    assert r[e] == jump;
    forall i | 0 <= i < e
      ensures !Accepts(r[i], lower)
    {
      if i != at {
        assert r[i] == rules[if i < at then i else i - 1];
      }
    }
  }

  lemma {:induction false} AheadIsPrefix(rules: seq<Line>, jump: Line, k: nat)
    requires k < |rules| && FirstJump(rules, jump, k)
    ensures Ahead(rules, jump) == rules[..k]
  {
    if k > 0 {
      assert forall i | 0 <= i < |rules[1..]| :: rules[1..][i] == rules[i + 1];
      AheadIsPrefix(rules[1..], jump, k - 1);
      assert rules[..k] == [rules[0]] + rules[1..][..k - 1];
    }
  }

  /** Where a rules jump that was not there has been put. */
  lemma PlacedAfter(rules: seq<Line>, at: nat, main: Line, rulesJump: Line)
    requires main in rules && rulesJump !in rules && main != rulesJump
    requires at == 0 || (at <= |rules| && FirstJump(rules, main, at - 1))
    ensures DirectlyAfter(With(rules, at, rulesJump), main, rulesJump) <==> at > 0
    ensures rulesJump in Ahead(With(rules, at, rulesJump), main) <==> at == 0
  {
    var r := With(rules, at, rulesJump);
    if at > 0 {
      assert r[at - 1] == main && r[at] == rulesJump;
      assert forall i | 0 <= i < at - 1 :: r[i] == rules[i];
      assert FirstJump(r, main, at - 1);
      AheadIsPrefix(r, main, at - 1);
      assert r[..at - 1] == rules[..at - 1];
    } else {
      assert r[1..] == rules;
      assert !DirectlyAfter(r, main, rulesJump) by {
        forall k | 0 <= k < |r| - 1
          ensures !(FirstJump(r, main, k) && r[k + 1] == rulesJump)
        {
          assert r[k + 1] == r[1..][k] && rules[k] in rules;
        }
      }
    }
  }

  lemma PlacedRightAfter(rules: seq<Line>, at: nat, main: Line, rulesJump: Line)
    requires 0 < at <= |rules| && FirstJump(rules, main, at - 1)
    ensures DirectlyAfter(With(rules, at, rulesJump), main, rulesJump)
  {
    var r := With(rules, at, rulesJump);
    assert r[at - 1] == main && r[at] == rulesJump && forall i | 0 <= i < at - 1 :: r[i] == rules[i];
    assert FirstJump(r, main, at - 1);
  }

  lemma InsertKeepsRest(rules: seq<Line>, at: nat, main: Line, rulesJump: Line)
    requires at <= |rules|
    ensures Rest(Rest(With(rules, at, rulesJump), main), rulesJump) == Rest(Rest(rules, main), rulesJump)
  {
    var a, b := rules[..at], rules[at..];
    assert rules == a + b;
    RestConcat(a + [rulesJump], b, main);
    RestConcat(a, [rulesJump], main);
    RestConcat(a, b, main);
    var x := Rest([rulesJump], main);
    RestConcat(Rest(a, main) + x, Rest(b, main), rulesJump);
    RestConcat(Rest(a, main), x, rulesJump);
    RestConcat(Rest(a, main), Rest(b, main), rulesJump);
    assert Rest(x, rulesJump) == [];
    assert Rest(Rest(a, main), rulesJump) + [] == Rest(Rest(a, main), rulesJump);
  }

  /**
   * ensureInputJumps: the jump to INFRAFENCE ends ahead of any accept and the jump to INFRAFENCE-RULES is there.
   * A new rules jump directly follows the main one exactly when INPUT could be listed again; otherwise it comes
   * first, ahead of the main one, where RulesAheadExposes applies, and stays there. checks says whether iptables -C
   * ran: a rules jump it could not see is added again.
   */
  method EnsureInputJumps(host: HostChain, main: Line, rulesJump: Line, lower: string -> string, listed: bool,
                          inserts: bool, deletes: bool, checks: bool, listedAgain: bool, insertsRules: bool)
      returns (ok: bool)
    requires main != rulesJump && !Accepts(main, lower) && !Accepts(rulesJump, lower)
    modifies host
    ensures ok ==> Guarded(host.rules, main, lower) && rulesJump in host.rules
    ensures ok && rulesJump !in old(host.rules) ==>
              && (DirectlyAfter(host.rules, main, rulesJump) <==> listedAgain)
              && (IsFirst(host.rules, rulesJump) <==> !listedAgain)
              && (rulesJump in Ahead(host.rules, main) <==> !listedAgain)
    ensures ok && rulesJump in old(host.rules) && Guarded(old(host.rules), main, lower) ==>
              (host.rules == old(host.rules) <==> checks)
    ensures ok && !checks ==>
              if listedAgain then DirectlyAfter(host.rules, main, rulesJump) else IsFirst(host.rules, rulesJump)
    ensures Rest(Rest(host.rules, main), rulesJump) == Rest(Rest(old(host.rules), main), rulesJump)
  {
    var o := EnsureJumpAhead(host, main, lower, listed, inserts, deletes);
    AheadGuards(old(host.rules), host.rules, main, lower, listed, o);
    KeepsMember(old(host.rules), host.rules, main, rulesJump);
    if o == Failed {
      return false;
    }
    ghost var before := host.rules;
    if !checks || rulesJump !in host.rules {
      var at := RulesPlace(host.rules, main, listedAgain);
      InsertKeepsRest(before, at, main, rulesJump);
      host.Insert(at, rulesJump, insertsRules);
      if !insertsRules {
        return false;
      }
      assert host.rules == With(before, at, rulesJump);
      InsertKeepsGuard(before, at, rulesJump, main, lower);
      assert host.rules[at] == rulesJump;
      if rulesJump !in before {
        PlacedAfter(before, at, main, rulesJump);
      }
      if at > 0 {
        PlacedRightAfter(before, at, main, rulesJump);
      }
    }
    ok := true;
  }

  lemma KeepsMember(a: seq<Line>, b: seq<Line>, jump: Line, x: Line)
    requires Rest(a, jump) == Rest(b, jump) && x != jump
    ensures x in a <==> x in b
  {
    RestMember(a, jump, x);
    RestMember(b, jump, x);
  }

  lemma {:induction false} RestHasNoJump(rules: seq<Line>, jump: Line)
    ensures jump !in Rest(rules, jump)
    ensures jump !in rules ==> Rest(rules, jump) == rules
  {
    RestMember(rules, jump, jump);
    if rules != [] {
      RestHasNoJump(rules[1..], jump);
      assert rules == [rules[0]] + rules[1..];
    }
  }

  /** iptables refuses to delete some copy of the jump. */
  predicate Spared(rules: seq<Line>, jump: Line, deletes: int -> bool) {
    exists i | 0 <= i < |rules| :: rules[i] == jump && !deletes(i)
  }

  /** The chain when the copies of the jump at i and later are gone. */
  function Cleared(lines: seq<Line>, i: nat, jump: Line): seq<Line>
    requires i <= |lines|
  {
    lines[..i] + Rest(lines[i..], jump)
  }

  lemma ClearedStep(lines: seq<Line>, i: nat, jump: Line)
    requires i < |lines|
    ensures i < |Cleared(lines, i + 1, jump)|
    ensures Cleared(lines, i, jump) ==
            if lines[i] == jump then Without(Cleared(lines, i + 1, jump), i) else Cleared(lines, i + 1, jump)
  {
    assert lines[i..][1..] == lines[i + 1..];
    assert lines[..i + 1] == lines[..i] + [lines[i]];
  }

  /** iptables refuses to delete a copy at i or later. */
  predicate SparedFrom(lines: seq<Line>, jump: Line, deletes: int -> bool, i: nat) {
    exists k | i <= k < |lines| :: lines[k] == jump && !deletes(k)
  }

  /** The chain when the copies at i and later have been tried. */
  ghost predicate Tried(lines: seq<Line>, rules: seq<Line>, i: nat, jump: Line, deletes: int -> bool) {
    && i <= |lines| && i <= |rules| && rules[..i] == lines[..i]
    && Rest(rules, jump) == Rest(lines, jump)
    && if SparedFrom(lines, jump, deletes, i) then jump in rules[i..] else rules == Cleared(lines, i, jump)
  }

  function TryOne(rules: seq<Line>, i: nat, jump: Line, deletes: int -> bool): seq<Line>
    requires i < |rules|
  {
    if rules[i] == jump && deletes(i) then Without(rules, i) else rules
  }

  lemma TriedStep(lines: seq<Line>, rules: seq<Line>, i: nat, jump: Line, deletes: int -> bool)
    requires Tried(lines, rules, i + 1, jump, deletes)
    ensures rules[i] == lines[i] && Tried(lines, TryOne(rules, i, jump, deletes), i, jump, deletes)
  {
    assert rules[i] == rules[..i + 1][i] && rules[..i] == rules[..i + 1][..i] && lines[..i] == lines[..i + 1][..i];
    assert rules[i..] == [rules[i]] + rules[i + 1..];
    ClearedStep(lines, i, jump);
    var r := TryOne(rules, i, jump, deletes);
    if r != rules {
      RestWithout(rules, jump, i);
      assert r[..i] == rules[..i] && r[i..] == rules[i + 1..];
    }
    if SparedFrom(lines, jump, deletes, i) && !SparedFrom(lines, jump, deletes, i + 1) {
      assert r == rules && rules[i..][0] == jump;
    }
  }

  /** With a copy that iptables keeps, the jump is in the chain at every moment. */
  lemma TriedHasJump(lines: seq<Line>, rules: seq<Line>, i: nat, jump: Line, deletes: int -> bool)
    requires Tried(lines, rules, i, jump, deletes) && Spared(lines, jump, deletes)
    ensures jump in rules
  {
    var k :| 0 <= k < |lines| && lines[k] == jump && !deletes(k);
    if k < i {
      assert rules[..i][k] == jump;
    }
  }

  /** One round of the loop below: the copy at i, if there is one, is deleted if iptables does it. */
  method TryCopy(host: HostChain, lines: seq<Line>, i: nat, jump: Line, deletes: int -> bool)
    requires Tried(lines, host.rules, i + 1, jump, deletes)
    modifies host
    ensures Tried(lines, host.rules, i, jump, deletes)
    ensures host.seen == old(host.seen) + [host.rules] || (host.seen == old(host.seen) && host.rules == old(host.rules))
  {
    TriedStep(lines, host.rules, i, jump, deletes);
    if lines[i] == jump {
      host.Delete(i, deletes(i));
    }
  }

  /** Deletes every copy of the jump, from the last; deletes says which deletions iptables does. */
  method ClearJump(host: HostChain, jump: Line, deletes: int -> bool)
    modifies host
    ensures Rest(host.rules, jump) == Rest(old(host.rules), jump)
    ensures !Spared(old(host.rules), jump, deletes) ==> host.rules == Rest(old(host.rules), jump)
    ensures jump in host.rules <==> Spared(old(host.rules), jump, deletes)
    ensures old(host.seen) <= host.seen
    ensures jump in host.rules ==> NeverWithout(host.seen, |old(host.seen)|, jump)
    ensures host.rules == old(host.rules) ||
            (|host.seen| > |old(host.seen)| && host.seen[|host.seen| - 1] == host.rules)
  {
    var lines := host.rules;
    ghost var start := host.seen;
    var i := |lines|;
    assert lines[..i] == lines && Cleared(lines, i, jump) == lines;
    while i > 0
      invariant 0 <= i && Tried(lines, host.rules, i, jump, deletes)
      invariant start <= host.seen
      invariant Spared(lines, jump, deletes) ==> NeverWithout(host.seen, |start|, jump)
      invariant host.rules == lines || (|host.seen| > |start| && host.seen[|host.seen| - 1] == host.rules)
    {
      i := i - 1;
      TryCopy(host, lines, i, jump, deletes);
      if Spared(lines, jump, deletes) {
        TriedHasJump(lines, host.rules, i, jump, deletes);
      }
    }
    RestHasNoJump(lines, jump);
    assert lines[0..] == lines && host.rules[0..] == host.rules;
  }

  /**
   * ensureFirstJump for the Docker chain. Unlike the other repairs it deletes a jump that is not first before it
   * inserts it again. So a jump that was there is missing for a moment, unless the chain could not be listed, the
   * jump was first, or iptables refused to delete some copy; and it is gone when iptables refuses to insert it.
   */
  method EnsureFirstJump(host: HostChain, jump: Line, listed: bool, deletes: int -> bool, inserts: bool)
      returns (repaired: bool)
    modifies host
    ensures repaired <==> listed && inserts && !IsFirst(old(host.rules), jump)
    ensures !listed || IsFirst(old(host.rules), jump) ==> host.rules == old(host.rules)
    ensures repaired ==> IsFirst(host.rules, jump)
    ensures Rest(host.rules, jump) == Rest(old(host.rules), jump)
    ensures repaired && !Spared(old(host.rules), jump, deletes) ==>
              host.rules == [jump] + Rest(old(host.rules), jump)
    ensures jump in old(host.rules) ==>
              (NeverWithout(host.seen, |old(host.seen)|, jump) <==>
               !listed || IsFirst(old(host.rules), jump) || Spared(old(host.rules), jump, deletes))
    ensures jump in old(host.rules) ==>
              (jump !in host.rules <==>
               && listed && !IsFirst(old(host.rules), jump)
               && !Spared(old(host.rules), jump, deletes) && !inserts)
    ensures old(host.seen) <= host.seen
  {
    if !listed || (|host.rules| > 0 && host.rules[0] == jump) {
      return false;
    }
    ghost var before, start := host.rules, host.seen;
    RestHasNoJump(before, jump);
    ClearJump(host, jump, deletes);
    ghost var cleared, seen := host.rules, host.seen;
    host.Insert(0, jump, inserts);
    assert host.seen == seen + [host.rules];
    if inserts {
      assert host.rules[1..] == cleared;
    }
    if jump in before && jump !in cleared {
      assert host.seen[|seen| - 1] == cleared && |start| <= |seen| - 1;
    }
    repaired := inserts;
  }
}
