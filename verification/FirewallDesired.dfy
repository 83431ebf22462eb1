/**
 * What the agent enforces from the dashboard's state, its pending requests and the requests it has applied
 * itself (cmd/infrafence-agent/fwactions.go).
 */
module FirewallDesired {
  import opened Collections

  datatype Kind = ClosePort | OpenPort | BlockEgress | UnblockEgress | OtherKind

  datatype Action = Action(id: int, kind: Kind, port: int, proto: string, ip: string, approved: bool)

  /** The dashboard's state: closed ports with their protocol, blocked addresses as written. */
  datatype Base = Base(ports: seq<(int, string)>, egress: seq<string>)

  /** What a request or a state entry is about. */
  datatype Target = Port(port: int) | Address(ip: string)

  /**
   * The last sync (base, pending, monitor) and the requests applied and still listed (overlay, by id);
   * addresses in the overlay are in canonical form.
   */
  datatype Desired = Desired(base: Option<Base>, pending: seq<Action>, monitor: bool, overlay: map<int, Action>)

  function Lower(c: char): char {
    if 'A' <= c <= 'Z' then c + 32 as char else c
  }

  predicate EqualFold(s: string, t: string) {
    |s| == |t| && forall i | 0 <= i < |s| :: Lower(s[i]) == Lower(t[i])
  }

  predicate IsTcp(proto: string) {
    proto == "" || EqualFold(proto, "tcp")
  }

  predicate Closes(k: Kind) {
    k.ClosePort? || k.BlockEgress?
  }

  /** An applied request is about t. */
  predicate About(a: Action, t: Target) {
    match a.kind
    case ClosePort => t == Port(a.port)
    case OpenPort => t == Port(a.port)
    case BlockEgress => t == Address(a.ip)
    case UnblockEgress => t == Address(a.ip)
    case OtherKind => false
  }

  /** A listed request would close t; norm is the canonical IPv4 form, "" for anything else. */
  predicate WouldClose(a: Action, t: Target, norm: string -> string) {
    match a.kind
    case ClosePort => t == Port(a.port)
    case BlockEgress => t == Address(norm(a.ip))
    case _ => false
  }

  ghost predicate BaseLists(base: Option<Base>, t: Target, norm: string -> string) {
    base.Some? &&
    match t
    case Port(p) =>
      exists i :: 0 <= i < |base.value.ports| && base.value.ports[i].0 == p && IsTcp(base.value.ports[i].1)
    case Address(ip) => ip != "" && exists i :: 0 <= i < |base.value.egress| && norm(base.value.egress[i]) == ip
  }

  /** A listed request that is not applied would close t. */
  ghost predicate PendingCloses(d: Desired, t: Target, norm: string -> string) {
    exists i :: 0 <= i < |d.pending| && d.pending[i].id !in d.overlay && WouldClose(d.pending[i], t, norm)
  }

  /** id is the highest applied request about t. */
  ghost predicate Decides(overlay: map<int, Action>, t: Target, id: int) {
    && id in overlay && About(overlay[id], t)
    && forall j | j in overlay && About(overlay[j], t) :: j <= id
  }

  /**
   * t is in the effective state: the highest applied request about it closes it; or no applied request is
   * about it, the base lists it and no listed request that is not applied would close it.
   */
  ghost predicate Effective(d: Desired, t: Target, norm: string -> string) {
    if exists id :: id in d.overlay && About(d.overlay[id], t) then
      exists id :: Decides(d.overlay, t, id) && Closes(d.overlay[id].kind)
    else BaseLists(d.base, t, norm) && !PendingCloses(d, t, norm)
  }

  /** The entries of the state that count are those of TCP, which is also meant by no protocol. */
  lemma TcpIff(proto: string)
    ensures IsTcp(proto) <==>
            || proto == ""
            || (&& |proto| == 3 && (proto[0] == 't' || proto[0] == 'T') && (proto[1] == 'c' || proto[1] == 'C')
                && (proto[2] == 'p' || proto[2] == 'P'))
  {
    if |proto| == 3 {
      LowerIs(proto[0], 't', 'T');
      LowerIs(proto[1], 'c', 'C');
      LowerIs(proto[2], 'p', 'P');
    }
  }

  lemma LowerIs(c: char, small: char, large: char)
    requires 'a' <= small <= 'z' && large as int + 32 == small as int
    ensures Lower(c) == Lower(small) <==> c == small || c == large
  {
  }

  /** Only a listed close or block that is not applied takes its target out of the state, never an open or unblock. */
  lemma OnlyClosesWait(d: Desired, t: Target, norm: string -> string)
    ensures PendingCloses(d, t, norm) <==>
            exists i :: 0 <= i < |d.pending| && d.pending[i].id !in d.overlay
                        && (|| (d.pending[i].kind == ClosePort && t == Port(d.pending[i].port))
                            || (d.pending[i].kind == BlockEgress && t == Address(norm(d.pending[i].ip))))
  {
  }

  // ---- the steps

  function Sync(d: Desired, state: Option<Base>, pending: seq<Action>, monitor: bool): Desired {
    Desired(if state.Some? then state else d.base, pending, monitor,
            map id | id in d.overlay && Listed(pending, id) :: d.overlay[id])
  }

  predicate Listed(pending: seq<Action>, id: int) {
    exists i | 0 <= i < |pending| :: pending[i].id == id
  }

  function Put(d: Desired, a: Action): Desired {
    d.(overlay := d.overlay[a.id := a])
  }

  function Undo(d: Desired, id: int): Desired {
    d.(overlay := d.overlay - {id})
  }

  /** A sync that still lists an applied request leaves its effect as it was, whatever state it carries. */
  lemma CrossingSyncKeepsApplied(d: Desired, id: int, t: Target, norm: string -> string,
                                 state: Option<Base>, pending: seq<Action>, monitor: bool)
    requires Decides(d.overlay, t, id) && Listed(pending, id)
    ensures Decides(Sync(d, state, pending, monitor).overlay, t, id)
    ensures Effective(Sync(d, state, pending, monitor), t, norm) <==> Closes(d.overlay[id].kind)
    ensures Effective(d, t, norm) <==> Closes(d.overlay[id].kind)
  {
    var e := Sync(d, state, pending, monitor);
    assert e.overlay[id] == d.overlay[id];
    DecidesIsUnique(d.overlay, t, id);
    DecidesIsUnique(e.overlay, t, id);
  }

  lemma DecidesIsUnique(overlay: map<int, Action>, t: Target, id: int)
    requires Decides(overlay, t, id)
    ensures forall j :: Decides(overlay, t, j) ==> j == id
  {
  }

  /**
   * A close or block that is listed but not applied takes no effect through the state: its target is in effect
   * exactly when the highest applied request about it closes it.
   */
  lemma UnappliedHasNoEffect(d: Desired, i: nat, t: Target, norm: string -> string)
    requires i < |d.pending| && d.pending[i].id !in d.overlay && WouldClose(d.pending[i], t, norm)
    ensures Effective(d, t, norm) <==> exists id :: Decides(d.overlay, t, id) && Closes(d.overlay[id].kind)
  {
    assert PendingCloses(d, t, norm);
  }

  /** The target a request is about; norm is idle on the canonical addresses of applied requests. */
  function TargetOf(a: Action): Option<Target> {
    match a.kind
    case ClosePort => Some(Port(a.port))
    case OpenPort => Some(Port(a.port))
    case BlockEgress => Some(Address(a.ip))
    case UnblockEgress => Some(Address(a.ip))
    case OtherKind => None
  }

  /**
   * A request applied after all others has exactly its effect: a closed port and a blocked address are in the
   * effective state, an opened port and an unblocked address are not, whatever the state and other requests say; and
   * every other target stays as it was, if no listed request of that id would close it.
   */
  lemma AppliedHasItsEffect(d: Desired, a: Action, t: Target, norm: string -> string)
    requires forall id | id in d.overlay :: id < a.id
    ensures a.kind == ClosePort ==> Effective(Put(d, a), Port(a.port), norm)
    ensures a.kind == BlockEgress ==> Effective(Put(d, a), Address(a.ip), norm)
    ensures a.kind == OpenPort ==> !Effective(Put(d, a), Port(a.port), norm)
    ensures a.kind == UnblockEgress ==> !Effective(Put(d, a), Address(a.ip), norm)
    ensures TargetOf(a) != Some(t) && (forall i | 0 <= i < |d.pending| && d.pending[i].id == a.id ::
                                         !WouldClose(d.pending[i], t, norm)) ==>
              (Effective(Put(d, a), t, norm) <==> Effective(d, t, norm))
  {
    var e := Put(d, a);
    if TargetOf(a).Some? {
      var u := TargetOf(a).value;
      assert Decides(e.overlay, u, a.id);
      DecidesIsUnique(e.overlay, u, a.id);
    }
    if TargetOf(a) != Some(t) {
      PutKeepsOthers(d, a, t);
      if forall i | 0 <= i < |d.pending| && d.pending[i].id == a.id :: !WouldClose(d.pending[i], t, norm) {
        PutKeepsPending(d, a, t, norm);
      }
    }
  }

  lemma PutKeepsOthers(d: Desired, a: Action, t: Target)
    requires a.id !in d.overlay && !About(a, t)
    ensures forall id :: (id in d.overlay && About(d.overlay[id], t)) <==>
                         (id in Put(d, a).overlay && About(Put(d, a).overlay[id], t))
    ensures forall id :: Decides(Put(d, a).overlay, t, id) <==> Decides(d.overlay, t, id)
  {
  }

  lemma PutKeepsPending(d: Desired, a: Action, t: Target, norm: string -> string)
    requires forall i | 0 <= i < |d.pending| && d.pending[i].id == a.id :: !WouldClose(d.pending[i], t, norm)
    ensures PendingCloses(Put(d, a), t, norm) <==> PendingCloses(d, t, norm)
  {
    if i: int :| 0 <= i < |d.pending| && d.pending[i].id !in d.overlay && WouldClose(d.pending[i], t, norm) {
      assert d.pending[i].id != a.id && d.pending[i].id !in Put(d, a).overlay;
    }
    if i: int :| 0 <= i < |d.pending| && d.pending[i].id !in Put(d, a).overlay && WouldClose(d.pending[i], t, norm) {
      assert d.pending[i].id !in d.overlay;
    }
  }

  /** Undoing it, or a sync that no longer lists it, takes the effect back. */
  lemma UndoneHasNoEffect(d: Desired, a: Action, t: Target, norm: string -> string)
    requires a.id !in d.overlay
    ensures Undo(Put(d, a), a.id) == d
    ensures forall state, pending, monitor :: !Listed(pending, a.id) ==>
              Sync(Put(d, a), state, pending, monitor) == Sync(d, state, pending, monitor)
  {
    assert Put(d, a).overlay - {a.id} == d.overlay;
    forall state, pending, monitor | !Listed(pending, a.id)
      ensures Sync(Put(d, a), state, pending, monitor) == Sync(d, state, pending, monitor)
    {
      assert Sync(Put(d, a), state, pending, monitor).overlay == Sync(d, state, pending, monitor).overlay;
    }
  }

  // ---- effectiveFirewall

  predicate Ascending(ids: seq<int>) {
    forall i, j | 0 <= i < j < |ids| :: ids[i] < ids[j]
  }

  /** Ids in request order, ports by number. */
  method SortedIds(given: set<int>) returns (ids: seq<int>)
    ensures Ascending(ids) && forall id :: id in ids <==> id in given
  {
    ids := [];
    var rest := given;
    while rest != {}
      invariant Ascending(ids) && rest <= given
      invariant forall id :: id in ids <==> id in given && id !in rest
      decreases rest
    {
      var x := Pick(rest);
      var i := 0;
      while i < |ids| && ids[i] < x
        invariant 0 <= i <= |ids| && forall k | 0 <= k < i :: ids[k] < x
      {
        i := i + 1;
      }
      assert x !in ids;
      assert forall k | i <= k < |ids| :: ids[k] > x;
      ghost var before := ids;
      ids := ids[..i] + [x] + ids[i..];
      InsertMembers(before, i, x);
      rest := rest - {x};
    }
  }

  /** s is before t in the order of their characters. */
  predicate Before(s: string, t: string) {
    t != [] && (s == [] || s[0] < t[0] || (s[0] == t[0] && Before(s[1..], t[1..])))
  }

  lemma {:induction false} BeforeIsTransitive(s: string, t: string, u: string)
    requires Before(s, t) && Before(t, u)
    ensures Before(s, u)
  {
    if s != [] && s[0] == t[0] == u[0] {
      BeforeIsTransitive(s[1..], t[1..], u[1..]);
    }
  }

  lemma {:induction false} BeforeIsTotal(s: string, t: string)
    ensures Before(s, t) || s == t || Before(t, s)
  {
    if s != [] && t != [] && s[0] == t[0] {
      BeforeIsTotal(s[1..], t[1..]);
      assert s == [s[0]] + s[1..] && t == [t[0]] + t[1..];
    }
  }

  predicate InOrder(texts: seq<string>) {
    forall i, j | 0 <= i < j < |texts| :: Before(texts[i], texts[j])
  }

  /** A text goes between the ones before it and the ones after it. */
  lemma InsertInOrder(texts: seq<string>, i: nat, x: string)
    requires InOrder(texts) && i <= |texts|
    requires (i > 0 ==> Before(texts[i - 1], x)) && (i < |texts| ==> Before(x, texts[i]))
    ensures InOrder(texts[..i] + [x] + texts[i..])
  {
    var r := texts[..i] + [x] + texts[i..];
    forall k | 0 <= k < i
      ensures Before(texts[k], x)
    {
      if k < i - 1 {
        BeforeIsTransitive(texts[k], texts[i - 1], x);
      }
    }
    forall k | i <= k < |texts|
      ensures Before(x, texts[k])
    {
      if k > i {
        BeforeIsTransitive(x, texts[i], texts[k]);
      }
    }
    forall k, l | 0 <= k < l < |r|
      ensures Before(r[k], r[l])
    {
      if k < i && l > i {
        assert r[k] == texts[k] && r[l] == texts[l - 1];
      }
    }
  }

  /** Addresses by their text. */
  method SortedTexts(given: set<string>) returns (texts: seq<string>)
    ensures InOrder(texts) && forall s :: s in texts <==> s in given
  {
    texts := [];
    var rest := given;
    while rest != {}
      invariant InOrder(texts) && rest <= given
      invariant forall s :: s in texts <==> s in given && s !in rest
      decreases rest
    {
      var x := Pick(rest);
      var i := 0;
      while i < |texts| && Before(texts[i], x)
        invariant 0 <= i <= |texts| && (i > 0 ==> Before(texts[i - 1], x))
      {
        i := i + 1;
      }
      if i < |texts| {
        BeforeIsTotal(texts[i], x);
        assert texts[i] in texts;
      }
      InsertInOrder(texts, i, x);
      InsertMembers(texts, i, x);
      texts := texts[..i] + [x] + texts[i..];
      rest := rest - {x};
    }
  }

  /** The targets of the state's entries. */
  method BaseTargets(base: Base, norm: string -> string) returns (r: set<Target>)
    ensures forall t :: t in r <==> BaseLists(Some(base), t, norm)
  {
    r := {};
    for i := 0 to |base.ports|
      invariant forall t :: t in r <==>
                  t.Port? && exists k :: 0 <= k < i && base.ports[k].0 == t.port && IsTcp(base.ports[k].1)
    {
      if IsTcp(base.ports[i].1) {
        r := r + {Port(base.ports[i].0)};
      }
    }
    ghost var ports := r;
    for i := 0 to |base.egress|
      invariant forall t :: t in r <==>
                  || t in ports
                  || (t.Address? && t.ip != "" && exists k :: 0 <= k < i && norm(base.egress[k]) == t.ip)
    {
      var n := norm(base.egress[i]);
      if n != "" {
        r := r + {Address(n)};
      }
    }
  }

  predicate AllApplied(overlay: map<int, Action>, ids: seq<int>) {
    forall i | 0 <= i < |ids| :: ids[i] in overlay
  }

  /** What the first n applied requests make of t, on top of the state without pending closes. */
  ghost predicate EffectiveUpTo(d: Desired, ids: seq<int>, n: nat, t: Target, norm: string -> string)
    requires n <= |ids| && AllApplied(d.overlay, ids)
  {
    if n == 0 then BaseLists(d.base, t, norm) && !PendingCloses(d, t, norm)
    else
      var a := d.overlay[ids[n - 1]];
      if About(a, t) then Closes(a.kind) else EffectiveUpTo(d, ids, n - 1, t, norm)
  }

  /** The last request about t decides. */
  lemma {:induction false} LastDecides(d: Desired, ids: seq<int>, n: nat, i: nat, t: Target, norm: string -> string)
    requires i < n <= |ids| && AllApplied(d.overlay, ids)
    requires About(d.overlay[ids[i]], t) && forall j | i < j < n :: !About(d.overlay[ids[j]], t)
    ensures EffectiveUpTo(d, ids, n, t, norm) <==> Closes(d.overlay[ids[i]].kind)
    decreases n
  {
    if i < n - 1 {
      LastDecides(d, ids, n - 1, i, t, norm);
    }
  }

  /** The state decides when no request is about t. */
  lemma {:induction false} StateDecides(d: Desired, ids: seq<int>, n: nat, t: Target, norm: string -> string)
    requires n <= |ids| && AllApplied(d.overlay, ids) && forall i | 0 <= i < n :: !About(d.overlay[ids[i]], t)
    ensures EffectiveUpTo(d, ids, n, t, norm) <==> BaseLists(d.base, t, norm) && !PendingCloses(d, t, norm)
    decreases n
  {
    if n > 0 {
      StateDecides(d, ids, n - 1, t, norm);
    }
  }

  lemma {:induction false} LastAbout(d: Desired, ids: seq<int>, n: nat, k: nat, t: Target) returns (i: nat)
    requires k < n <= |ids| && AllApplied(d.overlay, ids) && About(d.overlay[ids[k]], t)
    ensures k <= i < n && About(d.overlay[ids[i]], t) && forall j | i < j < n :: !About(d.overlay[ids[j]], t)
    decreases n
  {
    if About(d.overlay[ids[n - 1]], t) {
      i := n - 1;
    } else {
      i := LastAbout(d, ids, n - 1, k, t);
    }
  }

  lemma EffectiveUpToAll(d: Desired, ids: seq<int>, t: Target, norm: string -> string)
    requires Ascending(ids) && AllApplied(d.overlay, ids) && forall id | id in d.overlay :: id in ids
    ensures EffectiveUpTo(d, ids, |ids|, t, norm) <==> Effective(d, t, norm)
  {
    if exists id :: id in d.overlay && About(d.overlay[id], t) {
      var id :| id in d.overlay && About(d.overlay[id], t);
      var k: nat :| k < |ids| && ids[k] == id;
      var i := LastAbout(d, ids, |ids|, k, t);
      LastDecides(d, ids, |ids|, i, t, norm);
      DecidesIsUnique(d.overlay, t, ids[i]);
    } else {
      StateDecides(d, ids, |ids|, t, norm);
    }
  }

  /** The state, without the closes that are listed but not applied, then the applied requests in request order. */
  method EffectiveTargets(d: Desired, norm: string -> string) returns (r: set<Target>)
    ensures forall t :: t in r <==> Effective(d, t, norm)
  {
    r := {};
    if d.base.Some? {
      r := BaseTargets(d.base.value, norm);
    }
    ghost var based := r;
    for i := 0 to |d.pending|
      invariant forall t :: t in r <==>
                  && t in based
                  && !exists k :: 0 <= k < i && d.pending[k].id !in d.overlay && WouldClose(d.pending[k], t, norm)
    {
      var a := d.pending[i];
      if a.id !in d.overlay {
        match a.kind
        case ClosePort => r := r - {Port(a.port)};
        case BlockEgress => r := r - {Address(norm(a.ip))};
        case _ =>
      }
    }
    var ids := SortedIds(d.overlay.Keys);
    assert AllApplied(d.overlay, ids);
    for i := 0 to |ids|
      invariant forall t :: t in r <==> EffectiveUpTo(d, ids, i, t, norm)
    {
      var a := d.overlay[ids[i]];
      match a.kind
      case ClosePort => r := r + {Port(a.port)};
      case OpenPort => r := r - {Port(a.port)};
      case BlockEgress => r := r + {Address(a.ip)};
      case UnblockEgress => r := r - {Address(a.ip)};
      case OtherKind =>
    }
    forall t
      ensures t in r <==> Effective(d, t, norm)
    {
      EffectiveUpToAll(d, ids, t, norm);
    }
  }

  /** effectiveFirewall: the closed ports and the blocked addresses, both in ascending order. */
  method EffectiveFirewall(d: Desired, norm: string -> string) returns (ports: seq<int>, egress: seq<string>)
    ensures Ascending(ports) && InOrder(egress)
    ensures forall p :: p in ports <==> Effective(d, Port(p), norm)
    ensures forall ip :: ip in egress <==> Effective(d, Address(ip), norm)
  {
    var targets := EffectiveTargets(d, norm);
    var pset: set<int>, eset: set<string> := {}, {};
    var rest := targets;
    while rest != {}
      invariant rest <= targets
      invariant forall p :: p in pset <==> Port(p) in targets - rest
      invariant forall ip :: ip in eset <==> Address(ip) in targets - rest
      decreases rest
    {
      var t := Pick(rest);
      rest := rest - {t};
      match t
      case Port(p) => pset := pset + {p};
      case Address(ip) => eset := eset + {ip};
    }
    ports := SortedIds(pset);
    egress := SortedTexts(eset);
  }
}
