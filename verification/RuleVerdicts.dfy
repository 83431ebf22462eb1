/**
 * What the INFRAFENCE chain does with a packet (desiredRules in internal/firewall/chain.go): the rules over
 * ipsets and the rules per address are two forms of the same decision.
 */
module RuleVerdicts {
  import opened Collections
  import opened GeoSplit

  datatype SubChain = Ports | Egress

  datatype SetName = AllowSet | BanSet | ThreatSet | CountrySet(name: string)

  datatype Match = FromSet(name: SetName) | FromNet(net: Net) | Any

  datatype Target = Return | Drop | Jump(chain: SubChain)

  datatype Rule = Rule(on: Match, target: Target)

  /** How a chain ends for a packet; Passed returns to the chain it was called from. */
  datatype Verdict = Accepted | Dropped | Passed

  datatype Address = HostV4(value: nat) | HostV6(text: string)

  /** The allow entries and active sets in the order of their text, the bans in the order of the map. */
  datatype State = State(allow: seq<Net>, bans: seq<Address>, threat: bool, countries: seq<string>)

  predicate Allowed(s: State, src: nat) {
    exists i | 0 <= i < |s.allow| :: s.allow[i].Holds(src)
  }

  /** What the ipsets hold; the threat and country lists are given. */
  predicate Member(name: SetName, src: nat, s: State, lists: SetName -> set<nat>) {
    match name
    case AllowSet => Allowed(s, src)
    case BanSet => HostV4(src) in s.bans
    case _ => src in lists(name)
  }

  predicate Matches(m: Match, src: nat, s: State, lists: SetName -> set<nat>) {
    match m
    case FromSet(name) => Member(name, src, s, lists)
    case FromNet(net) => net.Holds(src)
    case Any => true
  }

  /** The first rule that matches and ends the chain decides; a sub-chain that passes goes on. */
  function Evaluate(rules: seq<Rule>, src: nat, s: State, lists: SetName -> set<nat>,
                    sub: SubChain -> Verdict): Verdict {
    if rules == [] then Passed
    else if !Matches(rules[0].on, src, s, lists) then Evaluate(rules[1..], src, s, lists, sub)
    else
      match rules[0].target
      case Return => Passed
      case Drop => Dropped
      case Jump(c) => if sub(c) != Passed then sub(c) else Evaluate(rules[1..], src, s, lists, sub)
  }

  // ---- the rules

  const SUB_JUMPS := [Rule(Any, Jump(Ports)), Rule(Any, Jump(Egress))]

  function AllowRules(allow: seq<Net>): seq<Rule> {
    if allow == [] then [] else AllowRules(allow[..|allow| - 1]) + [Rule(FromNet(allow[|allow| - 1]), Return)]
  }

  function BanRules(bans: seq<Net>): seq<Rule> {
    if bans == [] then [] else BanRules(bans[..|bans| - 1]) + [Rule(FromNet(bans[|bans| - 1]), Drop)]
  }

  function CountryRules(countries: seq<string>): seq<Rule> {
    if countries == [] then []
    else CountryRules(countries[..|countries| - 1]) + [Rule(FromSet(CountrySet(countries[|countries| - 1])), Drop)]
  }

  function ThreatRules(s: State): seq<Rule> {
    (if s.threat then [Rule(FromSet(ThreatSet), Drop)] else []) + CountryRules(s.countries)
  }

  function SetRules(s: State): seq<Rule> {
    (if |s.allow| > 0 then [Rule(FromSet(AllowSet), Return)] else [])
    + (SUB_JUMPS + ([Rule(FromSet(BanSet), Drop)] + ThreatRules(s)))
  }

  function AddressRules(s: State, bans: seq<Net>): seq<Rule> {
    AllowRules(s.allow) + (SUB_JUMPS + BanRules(bans))
  }

  function Host(a: nat): Net
    requires a < ADDRESSES
  {
    Network(a, 32)
  }

  predicate WellFormed(s: State) {
    forall i | 0 <= i < |s.bans| :: s.bans[i].HostV4? ==> s.bans[i].value < ADDRESSES
  }

  /** The nets name exactly the IPv4 bans. */
  predicate NamesBans(bans: seq<Net>, s: State) {
    && (forall i | 0 <= i < |bans| :: bans[i].ones == 32 && HostV4(bans[i].base) in s.bans)
    && (forall i | 0 <= i < |s.bans| && s.bans[i].HostV4? ::
          exists j :: 0 <= j < |bans| && bans[j] == Network(s.bans[i].value, 32))
  }

  predicate Sorted(bans: seq<Net>, text: Net -> int) {
    forall i, j | 0 <= i < j < |bans| :: text(bans[i]) <= text(bans[j])
  }

  const RULES_PREFIX := "-A INFRAFENCE-RULES "

  /** strings.Join with blanks. */
  function Words(fields: seq<string>): string {
    if fields == [] then "" else if |fields| == 1 then fields[0] else fields[0] + " " + Words(fields[1..])
  }

  /** A text is its parts with blanks between them. */
  lemma {:induction false} WordsConcat(x: seq<string>, y: seq<string>)
    requires x != [] && y != []
    ensures Words(x + y) == Words(x) + " " + Words(y)
    ensures |x| == 1 ==> Words(x) == x[0]
  {
    if |x| > 1 {
      WordsConcat(x[1..], y);
      assert (x + y)[1..] == x[1..] + y;
    } else {
      assert (x + y)[1..] == y;
    }
  }

  /**
   * desiredRules: the ban rules come in the order of text, which decides nothing; the dashboard's rules come as they
   * are in the chain for them.
   */
  method DesiredRules(s: State, userRules: seq<seq<string>>, ipset: bool, text: Net -> int)
    returns (main: seq<Rule>, user: seq<string>, bans: seq<Net>)
    requires WellFormed(s)
    ensures NamesBans(bans, s) && Sorted(bans, text)
    ensures main == if ipset then SetRules(s) else AddressRules(s, bans)
    ensures |user| == |userRules| && forall i | 0 <= i < |user| :: user[i] == RULES_PREFIX + Words(userRules[i])
  {
    user := [];
    for i := 0 to |userRules|
      invariant |user| == i && forall k | 0 <= k < i :: user[k] == RULES_PREFIX + Words(userRules[k])
    {
      user := user + [RULES_PREFIX + Words(userRules[i])];
    }
    bans := SortedBans(s, text);
    if ipset {
      main := OverSets(s);
    } else {
      main := PerAddress(s, bans);
    }
  }

  method OverSets(s: State) returns (main: seq<Rule>)
    ensures main == SetRules(s)
  {
    var lists: seq<Rule> := [];
    if s.threat {
      lists := lists + [Rule(FromSet(ThreatSet), Drop)];
    }
    ghost var threat := lists;
    for i := 0 to |s.countries|
      invariant lists == threat + CountryRules(s.countries[..i])
    {
      assert s.countries[..i + 1][..i] == s.countries[..i];
      lists := lists + [Rule(FromSet(CountrySet(s.countries[i])), Drop)];
    }
    assert s.countries[..|s.countries|] == s.countries;
    main := [];
    if |s.allow| > 0 {
      main := main + [Rule(FromSet(AllowSet), Return)];
    }
    main := main + (SUB_JUMPS + ([Rule(FromSet(BanSet), Drop)] + lists));
  }

  method PerAddress(s: State, bans: seq<Net>) returns (main: seq<Rule>)
    ensures main == AddressRules(s, bans)
  {
    main := [];
    for i := 0 to |s.allow|
      invariant main == AllowRules(s.allow[..i])
    {
      assert s.allow[..i + 1][..i] == s.allow[..i];
      main := main + [Rule(FromNet(s.allow[i]), Return)];
    }
    assert s.allow[..|s.allow|] == s.allow;
    main := main + SUB_JUMPS;
    ghost var head := main;
    for i := 0 to |bans|
      invariant main == head + BanRules(bans[..i])
    {
      assert bans[..i + 1][..i] == bans[..i];
      main := main + [Rule(FromNet(bans[i]), Drop)];
    }
    assert bans[..|bans|] == bans;
  }

  /** The IPv4 bans, sorted by their text. */
  method SortedBans(s: State, text: Net -> int) returns (bans: seq<Net>)
    requires WellFormed(s)
    ensures NamesBans(bans, s) && Sorted(bans, text)
  {
    bans := [];
    for n := 0 to |s.bans|
      invariant Sorted(bans, text)
      invariant forall b :: b in bans ==> b.ones == 32 && HostV4(b.base) in s.bans
      invariant forall i | 0 <= i < n && s.bans[i].HostV4? :: Network(s.bans[i].value, 32) in bans
    {
      if s.bans[n].HostV4? {
        var net := Host(s.bans[n].value);
        bans := InsertSorted(bans, net, text);
      }
    }
  }

  method InsertSorted(bans: seq<Net>, net: Net, text: Net -> int) returns (r: seq<Net>)
    requires Sorted(bans, text)
    ensures Sorted(r, text) && forall b :: b in r <==> b == net || b in bans
  {
    var i := 0;
    while i < |bans| && text(bans[i]) <= text(net)
      invariant 0 <= i <= |bans| && forall k | 0 <= k < i :: text(bans[k]) <= text(net)
    {
      i := i + 1;
    }
    InsertMembers(bans, i, net);
    r := bans[..i] + [net] + bans[i..];
    assert forall k | i <= k < |bans| :: text(net) <= text(bans[k]);
  }

  // ---- what they decide

  lemma {:induction false} AllowRulesDecide(allow: seq<Net>, rest: seq<Rule>, src: nat, s: State,
                                           lists: SetName -> set<nat>, sub: SubChain -> Verdict)
    ensures Evaluate(AllowRules(allow) + rest, src, s, lists, sub) ==
            if exists i :: 0 <= i < |allow| && allow[i].Holds(src) then Passed else Evaluate(rest, src, s, lists, sub)
    decreases |allow|
  {
    if allow == [] {
      assert AllowRules(allow) + rest == rest;
    } else {
      var init, last := allow[..|allow| - 1], Rule(FromNet(allow[|allow| - 1]), Return);
      assert AllowRules(allow) + rest == AllowRules(init) + ([last] + rest);
      AllowRulesDecide(init, [last] + rest, src, s, lists, sub);
      assert ([last] + rest)[1..] == rest;
      assert forall i | 0 <= i < |init| :: init[i] == allow[i];
    }
  }

  lemma {:induction false} BanRulesDecide(bans: seq<Net>, rest: seq<Rule>, src: nat, s: State,
                                         lists: SetName -> set<nat>, sub: SubChain -> Verdict)
    ensures Evaluate(BanRules(bans) + rest, src, s, lists, sub) ==
            if exists i :: 0 <= i < |bans| && bans[i].Holds(src) then Dropped else Evaluate(rest, src, s, lists, sub)
    decreases |bans|
  {
    if bans == [] {
      assert BanRules(bans) + rest == rest;
    } else {
      var init, last := bans[..|bans| - 1], Rule(FromNet(bans[|bans| - 1]), Drop);
      assert BanRules(bans) + rest == BanRules(init) + ([last] + rest);
      BanRulesDecide(init, [last] + rest, src, s, lists, sub);
      assert ([last] + rest)[1..] == rest;
      assert forall i | 0 <= i < |init| :: init[i] == bans[i];
    }
  }

  predicate InCountry(countries: seq<string>, src: nat, lists: SetName -> set<nat>) {
    exists i | 0 <= i < |countries| :: src in lists(CountrySet(countries[i]))
  }

  lemma {:induction false} CountryRulesDecide(countries: seq<string>, rest: seq<Rule>, src: nat, s: State,
                                             lists: SetName -> set<nat>, sub: SubChain -> Verdict)
    ensures Evaluate(CountryRules(countries) + rest, src, s, lists, sub) ==
            if InCountry(countries, src, lists) then Dropped else Evaluate(rest, src, s, lists, sub)
    decreases |countries|
  {
    if countries == [] {
      assert CountryRules(countries) + rest == rest;
    } else {
      var init, last := countries[..|countries| - 1], Rule(FromSet(CountrySet(countries[|countries| - 1])), Drop);
      assert CountryRules(countries) + rest == CountryRules(init) + ([last] + rest);
      CountryRulesDecide(init, [last] + rest, src, s, lists, sub);
      assert ([last] + rest)[1..] == rest;
      assert forall i | 0 <= i < |init| :: init[i] == countries[i];
    }
  }

  lemma JumpsDecide(rest: seq<Rule>, src: nat, s: State, lists: SetName -> set<nat>, sub: SubChain -> Verdict)
    ensures Evaluate(SUB_JUMPS + rest, src, s, lists, sub) ==
            if sub(Ports) != Passed then sub(Ports)
            else if sub(Egress) != Passed then sub(Egress)
            else Evaluate(rest, src, s, lists, sub)
  {
    assert (SUB_JUMPS + rest)[1..] == [SUB_JUMPS[1]] + rest;
    assert ([SUB_JUMPS[1]] + rest)[1..] == rest;
  }

  /** The decision: allow-listed sources leave first, then the sub-chains decide, then the listed are dropped. */
  function Decision(allowed: bool, sub: SubChain -> Verdict, listed: bool): Verdict {
    if allowed then Passed
    else if sub(Ports) != Passed then sub(Ports)
    else if sub(Egress) != Passed then sub(Egress)
    else if listed then Dropped
    else Passed
  }

  predicate OnActiveList(s: State, src: nat, lists: SetName -> set<nat>) {
    (s.threat && src in lists(ThreatSet)) || InCountry(s.countries, src, lists)
  }

  lemma ThreatRulesDecide(s: State, src: nat, lists: SetName -> set<nat>, sub: SubChain -> Verdict)
    ensures Evaluate(ThreatRules(s), src, s, lists, sub) == if OnActiveList(s, src, lists) then Dropped else Passed
  {
    var countries := CountryRules(s.countries);
    assert countries + [] == countries;
    CountryRulesDecide(s.countries, [], src, s, lists, sub);
    assert !s.threat ==> ThreatRules(s) == countries;
  }

  /** The rules over ipsets drop the banned and the sources of an active threat or country list. */
  lemma SetRulesDecide(s: State, src: nat, lists: SetName -> set<nat>, sub: SubChain -> Verdict)
    ensures Evaluate(SetRules(s), src, s, lists, sub) ==
            Decision(Allowed(s, src), sub, HostV4(src) in s.bans || OnActiveList(s, src, lists))
  {
    var banned := [Rule(FromSet(BanSet), Drop)] + ThreatRules(s);
    var jumps := SUB_JUMPS + banned;
    ThreatRulesDecide(s, src, lists, sub);
    JumpsDecide(banned, src, s, lists, sub);
    if |s.allow| > 0 {
      var first := Rule(FromSet(AllowSet), Return);
      assert SetRules(s) == [first] + jumps;
      assert ([first] + jumps)[1..] == jumps;
    } else {
      assert SetRules(s) == jumps;
    }
  }

  /** The rules per address drop exactly the banned. */
  lemma AddressRulesDecide(s: State, bans: seq<Net>, src: nat, lists: SetName -> set<nat>, sub: SubChain -> Verdict)
    requires NamesBans(bans, s)
    ensures Evaluate(AddressRules(s, bans), src, s, lists, sub) == Decision(Allowed(s, src), sub, HostV4(src) in s.bans)
  {
    var drops := BanRules(bans);
    assert drops + [] == drops;
    BanRulesDecide(bans, [], src, s, lists, sub);
    if HostV4(src) in s.bans {
      var i :| 0 <= i < |s.bans| && s.bans[i] == HostV4(src);
      var j :| 0 <= j < |bans| && bans[j] == Network(s.bans[i].value, 32);
      assert bans[j].Holds(src);
    } else {
      forall j | 0 <= j < |bans|
        ensures !bans[j].Holds(src)
      {
        assert bans[j].Size() == 1;
      }
    }
    JumpsDecide(drops, src, s, lists, sub);
    AllowRulesDecide(s.allow, SUB_JUMPS + drops, src, s, lists, sub);
  }

  /**
   * The two forms give the same verdict for every source and any sub-chains unless the source is dropped for a
   * threat or country list alone.
   */
  lemma FormsAgreeIff(s: State, bans: seq<Net>, src: nat, lists: SetName -> set<nat>, sub: SubChain -> Verdict)
    requires NamesBans(bans, s)
    ensures Evaluate(SetRules(s), src, s, lists, sub) == Evaluate(AddressRules(s, bans), src, s, lists, sub)
        <==>
           || Allowed(s, src) || sub(Ports) != Passed || sub(Egress) != Passed || HostV4(src) in s.bans
           || !OnActiveList(s, src, lists)
  {
    SetRulesDecide(s, src, lists, sub);
    AddressRulesDecide(s, bans, src, lists, sub);
  }

  /** With no threat or country set active the two forms are the same for every source. */
  lemma FormsAgree(s: State, bans: seq<Net>, src: nat, lists: SetName -> set<nat>, sub: SubChain -> Verdict)
    requires NamesBans(bans, s) && !s.threat && s.countries == []
    ensures Evaluate(SetRules(s), src, s, lists, sub) == Evaluate(AddressRules(s, bans), src, s, lists, sub)
  {
    FormsAgreeIff(s, bans, src, lists, sub);
  }

  /** Neither form accepts a packet of its own: an accept comes from a sub-chain, never for an allow-listed source. */
  lemma NeverAccepts(s: State, bans: seq<Net>, src: nat, lists: SetName -> set<nat>, sub: SubChain -> Verdict,
                    rules: seq<Rule>)
    requires NamesBans(bans, s) && (rules == SetRules(s) || rules == AddressRules(s, bans))
    ensures Evaluate(rules, src, s, lists, sub) == Accepted ==>
              !Allowed(s, src) && (sub(Ports) == Accepted || (sub(Ports) == Passed && sub(Egress) == Accepted))
  {
    SetRulesDecide(s, src, lists, sub);
    AddressRulesDecide(s, bans, src, lists, sub);
  }
}
