/**
 * Bans lifted from the hosting panel (panelFilterBans and panelNoteLocalBan in
 * cmd/infrafence-agent/panelstate.go, panelUnban in cmd/infrafence-agent/panel.go). Times are seconds; the
 * state file is saved or not.
 */
module PanelLifts {
  import opened Collections
  import opened Sequences

  const LIFT_MAX_AGE := 2592000
  const ADOPT_FOR := 3600
  const MAX_LIFTED := 1000

  /** One ban of a sync; a network ban has the id 0. */
  datatype Ban = Ban(ip: string, id: int, expires: Expiry)

  datatype Expiry = Never | At(time: int) | Unreadable

  datatype Lift = Lift(ip: string, ids: seq<int>, adopt: bool, liftedAt: int, until: int)

  function IdsOf(bans: seq<Ban>, ip: string): seq<int> {
    if bans == [] then []
    else
      var init := IdsOf(bans[..|bans| - 1], ip);
      if bans[|bans| - 1].ip == ip then init + [bans[|bans| - 1].id] else init
  }

  lemma {:induction false} IdsAreListed(bans: seq<Ban>, ip: string)
    ensures forall id :: id in IdsOf(bans, ip) <==> exists i :: 0 <= i < |bans| && bans[i].ip == ip && bans[i].id == id
    decreases |bans|
  {
    if bans != [] {
      var init, last := bans[..|bans| - 1], bans[|bans| - 1];
      IdsAreListed(init, ip);
      assert forall i | 0 <= i < |init| :: init[i] == bans[i];
      forall id | id in IdsOf(bans, ip)
        ensures exists i :: 0 <= i < |bans| && bans[i].ip == ip && bans[i].id == id
      {
        if id in IdsOf(init, ip) {
          var i :| 0 <= i < |init| && init[i].ip == ip && init[i].id == id;
          assert bans[i].ip == ip;
        } else {
          assert bans[|bans| - 1].ip == ip;
        }
      }
    }
  }

  lemma ListedByMember(bans: seq<Ban>, ip: string, id: int)
    ensures id in IdsOf(bans, ip) <==> exists b | b in bans :: b.ip == ip && b.id == id
  {
    IdsAreListed(bans, ip);
    if b: Ban :| b in bans && b.ip == ip && b.id == id {
      var i :| 0 <= i < |bans| && bans[i] == b;
      assert bans[i].ip == ip && bans[i].id == id;
    }
  }

  lemma AnyListed(bans: seq<Ban>, ip: string)
    ensures IdsOf(bans, ip) == [] <==> forall b | b in bans :: b.ip != ip
  {
    if IdsOf(bans, ip) != [] {
      ListedByMember(bans, ip, IdsOf(bans, ip)[0]);
    }
    forall b | b in bans && b.ip == ip
      ensures IdsOf(bans, ip) != []
    {
      ListedByMember(bans, ip, b.id);
    }
  }

  /** ids with the listed ones it lacks. */
  function Adopted(ids: seq<int>, listed: seq<int>): seq<int> {
    if listed == [] then ids
    else
      var init, last := Adopted(ids, listed[..|listed| - 1]), listed[|listed| - 1];
      if last in init then init else init + [last]
  }

  lemma {:induction false} AdoptedIsUnion(ids: seq<int>, listed: seq<int>)
    ensures forall id :: id in Adopted(ids, listed) <==> id in ids || id in listed
    ensures ids <= Adopted(ids, listed)
    decreases |listed|
  {
    if listed != [] {
      AdoptedIsUnion(ids, listed[..|listed| - 1]);
      assert listed == listed[..|listed| - 1] + [listed[|listed| - 1]];
    }
  }

  /** What a sync makes of one lift. */
  function Renewed(l: Lift, bans: seq<Ban>, now: int): Option<Lift> {
    var listed := IdsOf(bans, l.ip);
    if now > l.until then None
    else if l.adopt then
      var ids := Adopted(l.ids, listed);
      var adopt := !(|ids| > 0 || now > l.liftedAt + ADOPT_FOR);
      if adopt || |ids| > 0 then Some(l.(ids := ids, adopt := adopt)) else None
    else if 0 !in l.ids && forall id | id in l.ids :: id !in listed then None
    else Some(l)
  }

  function Renewals(lifts: seq<Lift>, bans: seq<Ban>, now: int): seq<Lift> {
    if lifts == [] then []
    else
      var init := Renewals(lifts[..|lifts| - 1], bans, now);
      match Renewed(lifts[|lifts| - 1], bans, now)
      case None => init
      case Some(l) => init + [l]
  }

  predicate OnePerAddress(lifts: seq<Lift>) {
    forall i, j | 0 <= i < j < |lifts| :: lifts[i].ip != lifts[j].ip
  }

  /** The ids of the last lift of an address, as in the map the code builds. */
  function LastIds(lifts: seq<Lift>, ip: string): seq<int> {
    if lifts == [] then []
    else if lifts[|lifts| - 1].ip == ip then lifts[|lifts| - 1].ids
    else LastIds(lifts[..|lifts| - 1], ip)
  }

  predicate Names(lifts: seq<Lift>, b: Ban) {
    b.id in LastIds(lifts, b.ip)
  }

  /** With one lift per address the last one is any. */
  lemma {:induction false} LastIsAny(lifts: seq<Lift>, b: Ban)
    requires OnePerAddress(lifts)
    ensures Names(lifts, b) <==> exists i | 0 <= i < |lifts| :: lifts[i].ip == b.ip && b.id in lifts[i].ids
    decreases |lifts|
  {
    if lifts != [] {
      var init, last := lifts[..|lifts| - 1], lifts[|lifts| - 1];
      assert forall i | 0 <= i < |init| :: init[i] == lifts[i];
      LastIsAny(init, b);
      if last.ip == b.ip {
        assert forall i | 0 <= i < |lifts| && lifts[i].ip == b.ip :: lifts[i] == last;
      } else if Names(init, b) {
        var i :| 0 <= i < |init| && init[i].ip == b.ip && b.id in init[i].ids;
        assert lifts[i].ip == b.ip && b.id in lifts[i].ids;
      }
    }
  }

  function Without(lifts: seq<Lift>, ip: string): seq<Lift> {
    Filter((l: Lift) => l.ip != ip, lifts)
  }

  lemma {:induction false} WithoutIsExact(lifts: seq<Lift>, ip: string)
    ensures forall l :: l in Without(lifts, ip) <==> l in lifts && l.ip != ip
    ensures OnePerAddress(lifts) ==> OnePerAddress(Without(lifts, ip))
  {
    if lifts != [] {
      WithoutIsExact(lifts[1..], ip);
      assert lifts == [lifts[0]] + lifts[1..];
      if OnePerAddress(lifts) {
        var rest := Without(lifts[1..], ip);
        assert forall i | 0 <= i < |lifts[1..]| :: lifts[1..][i] == lifts[i + 1];
        forall j | 0 <= j < |rest|
          ensures rest[j].ip != lifts[0].ip
        {
          assert rest[j] in lifts[1..];
        }
      }
    }
  }

  predicate ComesFrom(lifts: seq<Lift>, l: Lift, bans: seq<Ban>, now: int) {
    exists i | 0 <= i < |lifts| :: Renewed(lifts[i], bans, now) == Some(l)
  }

  lemma ComesFromSplit(lifts: seq<Lift>, l: Lift, bans: seq<Ban>, now: int)
    requires lifts != []
    ensures var init, last := lifts[..|lifts| - 1], lifts[|lifts| - 1];
            ComesFrom(lifts, l, bans, now) <==> ComesFrom(init, l, bans, now) || Renewed(last, bans, now) == Some(l)
  {
    var init := lifts[..|lifts| - 1];
    assert forall i | 0 <= i < |init| :: init[i] == lifts[i];
    if ComesFrom(init, l, bans, now) {
      var i :| 0 <= i < |init| && Renewed(init[i], bans, now) == Some(l);
      assert Renewed(lifts[i], bans, now) == Some(l);
    }
  }

  lemma {:induction false} RenewalsComeFrom(lifts: seq<Lift>, bans: seq<Ban>, now: int, l: Lift)
    ensures l in Renewals(lifts, bans, now) <==> ComesFrom(lifts, l, bans, now)
    decreases |lifts|
  {
    if lifts != [] {
      RenewalsComeFrom(lifts[..|lifts| - 1], bans, now, l);
      ComesFromSplit(lifts, l, bans, now);
    }
  }

  lemma {:induction false} RenewalsAreExact(lifts: seq<Lift>, bans: seq<Ban>, now: int)
    ensures forall l :: l in Renewals(lifts, bans, now) <==> ComesFrom(lifts, l, bans, now)
    ensures OnePerAddress(lifts) ==> OnePerAddress(Renewals(lifts, bans, now))
    ensures |Renewals(lifts, bans, now)| <= |lifts|
    decreases |lifts|
  {
    forall l: Lift
      ensures l in Renewals(lifts, bans, now) <==> ComesFrom(lifts, l, bans, now)
    {
      RenewalsComeFrom(lifts, bans, now, l);
    }
    if lifts != [] {
      var init, last := lifts[..|lifts| - 1], lifts[|lifts| - 1];
      RenewalsAreExact(init, bans, now);
      var r := Renewals(init, bans, now);
      if OnePerAddress(lifts) {
        forall j | 0 <= j < |r|
          ensures r[j].ip != last.ip
        {
          assert r[j] in r && ComesFrom(init, r[j], bans, now);
          var i :| 0 <= i < |init| && Renewed(init[i], bans, now) == Some(r[j]);
          assert lifts[i].ip != last.ip;
        }
      }
    }
  }

  // ---- one operation

  /** The lift panelUnban records. */
  function NewLift(view: seq<Ban>, ip: string, now: int): Lift {
    Lift(ip, IdsOf(view, ip), true, now, UntilFor(view, ip, now))
  }

  predicate HasPermanent(view: seq<Ban>, ip: string) {
    exists i | 0 <= i < |view| :: view[i].ip == ip && view[i].expires.Never?
  }

  /** The latest readable expiry of the bans of an address, zero without one. */
  function Latest(view: seq<Ban>, ip: string): Option<int> {
    if view == [] then None
    else
      var init, b := Latest(view[..|view| - 1], ip), view[|view| - 1];
      if b.ip == ip && b.expires.At? && (init.None? || b.expires.time > init.value) then Some(b.expires.time) else init
  }

  /** Until the last of the bans expires, for at most 30 days. */
  function UntilFor(view: seq<Ban>, ip: string, now: int): int {
    var latest := Latest(view, ip);
    if !HasPermanent(view, ip) && latest.Some? && latest.value < now + LIFT_MAX_AGE then latest.value
    else now + LIFT_MAX_AGE
  }

  /** The latest is one of the expiries of the address, and none is later. */
  lemma {:induction false} LatestIsExact(view: seq<Ban>, ip: string)
    ensures var t := Latest(view, ip);
            && (t.Some? ==> exists b | b in view :: b.ip == ip && b.expires == At(t.value))
            && (forall b | b in view && b.ip == ip && b.expires.At? :: t.Some? && b.expires.time <= t.value)
    decreases |view|
  {
    if view != [] {
      var init, last := view[..|view| - 1], view[|view| - 1];
      assert view == init + [last];
      LatestIsExact(init, ip);
      if Latest(view, ip) == Latest(init, ip) && Latest(init, ip).Some? {
        var b :| b in init && b.ip == ip && b.expires == At(Latest(init, ip).value);
        assert b in view;
      } else if Latest(view, ip).Some? {
        assert last in view;
      }
    }
  }

  /**
   * A lift ends with the last ban of the address, at most 30 days from now; it lasts these 30 days when a ban of the
   * address never expires, or none has an expiry that can be read.
   */
  lemma EndIsExact(view: seq<Ban>, ip: string, now: int)
    ensures var end := UntilFor(view, ip, now);
            && end <= now + 30 * 24 * 3600
            && (end < now + 30 * 24 * 3600 <==>
                  && (forall b | b in view && b.ip == ip :: b.expires != Never)
                  && (exists b | b in view :: b.ip == ip && b.expires.At?)
                  && (forall b | b in view && b.ip == ip && b.expires.At? :: b.expires.time < now + 30 * 24 * 3600))
            && (end < now + 30 * 24 * 3600 ==>
                  && (exists b | b in view :: b.ip == ip && b.expires == At(end))
                  && (forall b | b in view && b.ip == ip && b.expires.At? :: b.expires.time <= end))
  {
    LatestIsExact(view, ip);
    if HasPermanent(view, ip) {
      var i :| 0 <= i < |view| && view[i].ip == ip && view[i].expires.Never?;
      assert view[i] in view;
    }
    assert (forall b | b in view && b.ip == ip :: b.expires != Never) <==> !HasPermanent(view, ip);
  }

  predicate Refuses(lifts: seq<Lift>, view: seq<Ban>, ip: string, banned: bool) {
    (IdsOf(view, ip) == [] && !banned) || ((exists i | 0 <= i < |lifts| :: lifts[i].ip == ip) && !banned)
  }

  /** A lift is refused exactly for an address the firewall does not ban that is in no ban of the last sync, or lifted. */
  lemma RefusedIff(lifts: seq<Lift>, view: seq<Ban>, ip: string, banned: bool)
    ensures Refuses(lifts, view, ip, banned) <==>
            !banned && ((forall b | b in view :: b.ip != ip) || exists l | l in lifts :: l.ip == ip)
  {
    AnyListed(view, ip);
  }

  /** The newest lifts, up to the bound. */
  function Newest(lifts: seq<Lift>): seq<Lift> {
    if |lifts| > MAX_LIFTED then lifts[|lifts| - MAX_LIFTED..] else lifts
  }

  datatype Op =
    | Unban(ip: string, view: seq<Ban>, banned: bool, saved: bool, at: int)
    | Detect(found: string)
    | Sync(bans: seq<Ban>, now: int)

  function Apply(lifts: seq<Lift>, op: Op): seq<Lift> {
    match op
    case Unban(ip, view, banned, saved, at) =>
      if Refuses(lifts, view, ip, banned) || !saved then lifts else Newest(Without(lifts, ip) + [NewLift(view, ip, at)])
    case Detect(found) => RemoveFirst(lifts, found)
    case Sync(bans, now) => Renewals(lifts, bans, now)
  }

  /** Without the first lift of the address. */
  function RemoveFirst(lifts: seq<Lift>, ip: string): seq<Lift> {
    if lifts == [] then []
    else if lifts[0].ip == ip then lifts[1..]
    else [lifts[0]] + RemoveFirst(lifts[1..], ip)
  }

  lemma {:induction false} RemovesAt(lifts: seq<Lift>, i: nat, ip: string)
    requires i < |lifts| && lifts[i].ip == ip && forall k | 0 <= k < i :: lifts[k].ip != ip
    ensures RemoveFirst(lifts, ip) == lifts[..i] + lifts[i + 1..]
  {
    if i > 0 {
      RemovesAt(lifts[1..], i - 1, ip);
      assert [lifts[0]] + (lifts[1..][..i - 1] + lifts[1..][i..]) == lifts[..i] + lifts[i + 1..];
    }
  }

  lemma {:induction false} RemovesNone(lifts: seq<Lift>, ip: string)
    requires forall k | 0 <= k < |lifts| :: lifts[k].ip != ip
    ensures RemoveFirst(lifts, ip) == lifts
  {
    if lifts != [] {
      RemovesNone(lifts[1..], ip);
    }
  }

  /** With one lift per address the first is the only one. */
  lemma {:induction false} FirstIsOnly(lifts: seq<Lift>, ip: string)
    requires OnePerAddress(lifts)
    ensures RemoveFirst(lifts, ip) == Without(lifts, ip)
  {
    if lifts != [] {
      assert forall i | 0 <= i < |lifts[1..]| :: lifts[1..][i] == lifts[i + 1];
      FirstIsOnly(lifts[1..], ip);
      if lifts[0].ip == ip {
        NothingToRemove(lifts[1..], ip);
      }
    }
  }

  lemma {:induction false} NothingToRemove(lifts: seq<Lift>, ip: string)
    requires forall i | 0 <= i < |lifts| :: lifts[i].ip != ip
    ensures Without(lifts, ip) == lifts
  {
    if lifts != [] {
      NothingToRemove(lifts[1..], ip);
      assert lifts == [lifts[0]] + lifts[1..];
    }
  }

  /** Every operation keeps at most one lift per address and at most 1000 in all. */
  lemma KeepsOnePerAddress(lifts: seq<Lift>, op: Op)
    requires OnePerAddress(lifts) && |lifts| <= MAX_LIFTED
    ensures OnePerAddress(Apply(lifts, op)) && |Apply(lifts, op)| <= MAX_LIFTED
  {
    match op
    case Unban(ip, view, banned, saved, at) => NewestIsOnePerAddress(lifts, NewLift(view, ip, at));
    case Detect(found) =>
      FirstIsOnly(lifts, found);
      WithoutIsExact(lifts, found);
    case Sync(bans, now) => RenewalsAreExact(lifts, bans, now);
  }

  lemma NewestIsOnePerAddress(lifts: seq<Lift>, l: Lift)
    requires OnePerAddress(lifts)
    ensures OnePerAddress(Newest(Without(lifts, l.ip) + [l]))
  {
    WithoutIsExact(lifts, l.ip);
    var w := Without(lifts, l.ip);
    forall i | 0 <= i < |w|
      ensures w[i].ip != l.ip
    {
      assert w[i] in w;
    }
  }

  // ---- the bans that are left

  /** panelFilterBans gives the bans that no lift names, in their order. */
  function Enforced(lifts: seq<Lift>, bans: seq<Ban>): seq<Ban> {
    Filter((b: Ban) => !Names(lifts, b), bans)
  }

  /** A sync enforces exactly the bans whose address and id no lift that is still good names, in their order. */
  lemma SyncIsExact(lifts: seq<Lift>, bans: seq<Ban>, now: int, b: Ban)
    requires OnePerAddress(lifts)
    ensures var kept := Renewals(lifts, bans, now);
            b in Enforced(kept, bans) <==>
              b in bans && !exists i :: 0 <= i < |lifts| && NamedBy(lifts[i], bans, now, b)
  {
    var kept := Renewals(lifts, bans, now);
    RenewalsAreExact(lifts, bans, now);
    FilterMember((x: Ban) => !Names(kept, x), bans, b);
    LastIsAny(kept, b);
    if Names(kept, b) {
      var k :| 0 <= k < |kept| && kept[k].ip == b.ip && b.id in kept[k].ids;
      assert kept[k] in kept;
      var i :| 0 <= i < |lifts| && Renewed(lifts[i], bans, now) == Some(kept[k]);
      assert NamedBy(lifts[i], bans, now, b);
    }
    if exists i :: 0 <= i < |lifts| && NamedBy(lifts[i], bans, now, b) {
      var i :| 0 <= i < |lifts| && NamedBy(lifts[i], bans, now, b);
      var l := Renewed(lifts[i], bans, now).value;
      assert l in kept;
      var k :| 0 <= k < |kept| && kept[k] == l;
      assert kept[k].ip == b.ip;
    }
  }

  predicate NamedBy(l: Lift, bans: seq<Ban>, now: int, b: Ban) {
    var r := Renewed(l, bans, now);
    r.Some? && r.value.ip == b.ip && b.id in r.value.ids
  }

  /**
   * What a lift does to a ban of the sync, told without the list of ids it keeps: it spares the ban until its end,
   * when its id was known before or the lift still adopts.
   */
  lemma SparesIff(l: Lift, bans: seq<Ban>, now: int, b: Ban)
    requires b in bans
    ensures NamedBy(l, bans, now, b) <==> l.ip == b.ip && now <= l.until && (l.adopt || b.id in l.ids)
  {
    IdsAreListed(bans, l.ip);
    AdoptedIsUnion(l.ids, IdsOf(bans, l.ip));
    var i :| 0 <= i < |bans| && bans[i] == b;
    if l.ip == b.ip {
      assert bans[i].ip == l.ip && bans[i].id == b.id;
      assert b.id in IdsOf(bans, l.ip);
    }
  }

  /**
   * A lift is good after a sync if and only if its end has not passed and: its first ids are still to come, within
   * the hour or by this sync; or one of its ids is listed, or it stands for a network ban, which has the id 0.
   */
  lemma StaysIff(l: Lift, bans: seq<Ban>, now: int)
    ensures Renewed(l, bans, now).Some? <==>
            && now <= l.until
            && if l.adopt then l.ids != [] || now <= l.liftedAt + 3600 || exists b | b in bans :: b.ip == l.ip
               else 0 in l.ids || exists b | b in bans :: b.ip == l.ip && b.id in l.ids
  {
    var listed := IdsOf(bans, l.ip);
    var all := Adopted(l.ids, listed);
    AdoptedIsUnion(l.ids, listed);
    AnyListed(bans, l.ip);
    forall id: int
      ensures id in listed <==> exists b | b in bans :: b.ip == l.ip && b.id == id
    {
      ListedByMember(bans, l.ip, id);
    }
    assert listed != [] ==> listed[0] in listed;
    if all != [] {
      assert all[0] in l.ids || all[0] in listed;
    }
  }

  // ---- runs of syncs after a lift

  /** The lift after the first n syncs. */
  function AfterSyncs(l: Lift, syncs: seq<Op>, n: nat): Option<Lift>
    requires n <= |syncs| && forall i | 0 <= i < |syncs| :: syncs[i].Sync?
  {
    if n == 0 then Some(l)
    else
      var before := AfterSyncs(l, syncs, n - 1);
      if before.None? then None else Renewed(before.value, syncs[n - 1].bans, syncs[n - 1].now)
  }

  predicate QuietSync(l: Lift, s: Op)
    requires s.Sync?
  {
    IdsOf(s.bans, l.ip) == [] && s.now <= l.liftedAt + ADOPT_FOR
  }

  /**
   * A lift adopts ids in its first sync and, if it was made without any, through the syncs of the first hour that
   * list none: it still adopts after n syncs exactly then.
   */
  lemma {:induction false} AdoptsIff(l: Lift, syncs: seq<Op>, n: nat)
    requires l.adopt && n <= |syncs| && forall i | 0 <= i < |syncs| :: syncs[i].Sync?
    requires AfterSyncs(l, syncs, n).Some?
    ensures var a := AfterSyncs(l, syncs, n).value;
            && a.ip == l.ip && a.until == l.until && a.liftedAt == l.liftedAt
            && (a.adopt <==> n == 0 || (l.ids == [] && forall i | 0 <= i < n :: QuietSync(l, syncs[i])))
            && (a.adopt ==> a.ids == l.ids)
    decreases n
  {
    if n > 0 {
      AdoptsIff(l, syncs, n - 1);
      var a, s := AfterSyncs(l, syncs, n - 1).value, syncs[n - 1];
      var listed := IdsOf(s.bans, l.ip);
    }
  }

  /** Once a lift does not adopt, its ids never change: a later ban with a new id is enforced by every sync. */
  lemma {:induction false} SettledNamesNoMore(l: Lift, syncs: seq<Op>, n: nat, b: Ban)
    requires !l.adopt && n < |syncs| && forall i | 0 <= i < |syncs| :: syncs[i].Sync?
    requires b in syncs[n].bans && b.id !in l.ids
    ensures AfterSyncs(l, syncs, n).Some? ==> AfterSyncs(l, syncs, n).value == l
    ensures AfterSyncs(l, syncs, n).Some? ==> !NamedBy(AfterSyncs(l, syncs, n).value, syncs[n].bans, syncs[n].now, b)
    decreases n
  {
    SettledStays(l, syncs, n);
    SparesIff(l, syncs[n].bans, syncs[n].now, b);
  }

  lemma {:induction false} SettledStays(l: Lift, syncs: seq<Op>, n: nat)
    requires !l.adopt && n <= |syncs| && forall i | 0 <= i < |syncs| :: syncs[i].Sync?
    ensures AfterSyncs(l, syncs, n).Some? ==> AfterSyncs(l, syncs, n).value == l
    decreases n
  {
    if n > 0 {
      SettledStays(l, syncs, n - 1);
    }
  }

  /** However late the first sync after a lift comes, it adopts the ids it lists. */
  lemma FirstSyncAdoptsAnyTime(ip: string, at: int, id: int, now: int)
    requires at + ADOPT_FOR < now <= at + LIFT_MAX_AGE
    ensures var l := NewLift([], ip, at);
            var b := Ban(ip, id, Never);
            l.ids == [] && NamedBy(l, [b], now, b)
  {
    var b := Ban(ip, id, Never);
    SparesIff(NewLift([], ip, at), [b], now, b);
  }

  /**
   * No lift outlives its end, which is at most 30 days after it was made: a sync after it enforces every ban of
   * the address.
   */
  lemma NoneOutlives(lifts: seq<Lift>, bans: seq<Ban>, now: int, b: Ban)
    requires OnePerAddress(lifts) && b in bans
    requires forall i | 0 <= i < |lifts| :: lifts[i].ip == b.ip ==> lifts[i].until < now
    ensures b in Enforced(Renewals(lifts, bans, now), bans)
    ensures forall l | l in Renewals(lifts, bans, now) :: now <= l.until
  {
    SyncIsExact(lifts, bans, now, b);
    RenewalsAreExact(lifts, bans, now);
    forall i | 0 <= i < |lifts|
      ensures !NamedBy(lifts[i], bans, now, b)
    {
      SparesIff(lifts[i], bans, now, b);
    }
  }

  predicate Bounded(lifts: seq<Lift>) {
    forall i | 0 <= i < |lifts| :: lifts[i].until <= lifts[i].liftedAt + LIFT_MAX_AGE
  }

  lemma KeepsBounded(lifts: seq<Lift>, op: Op)
    requires Bounded(lifts)
    ensures Bounded(Apply(lifts, op))
  {
    var after := Apply(lifts, op);
    forall i | 0 <= i < |after|
      ensures after[i].until <= after[i].liftedAt + LIFT_MAX_AGE
    {
      assert after[i] in after;
      match op
      case Unban(ip, view, banned, saved, at) =>
        if !(Refuses(lifts, view, ip, banned) || !saved) {
          WithoutIsExact(lifts, ip);
        }
      case Detect(found) => RemoveFirstMembers(lifts, found, after[i]);
      case Sync(bans, now) => RenewalsAreExact(lifts, bans, now);
    }
  }

  lemma {:induction false} RemoveFirstMembers(lifts: seq<Lift>, ip: string, l: Lift)
    ensures l in RemoveFirst(lifts, ip) ==> l in lifts
  {
    if lifts != [] {
      RemoveFirstMembers(lifts[1..], ip, l);
      assert lifts == [lifts[0]] + lifts[1..];
    }
  }

  function After(lifts: seq<Lift>, ops: seq<Op>): seq<Lift>
    decreases |ops|
  {
    if ops == [] then lifts else After(Apply(lifts, ops[0]), ops[1..])
  }

  /** Over any unbans, detections and syncs: one lift per address, at most 1000, none for more than 30 days. */
  lemma {:induction false} LiftsOverRuns(lifts: seq<Lift>, ops: seq<Op>)
    requires OnePerAddress(lifts) && |lifts| <= MAX_LIFTED && Bounded(lifts)
    ensures OnePerAddress(After(lifts, ops)) && |After(lifts, ops)| <= MAX_LIFTED && Bounded(After(lifts, ops))
    decreases |ops|
  {
    if ops != [] {
      KeepsOnePerAddress(lifts, ops[0]);
      KeepsBounded(lifts, ops[0]);
      LiftsOverRuns(Apply(lifts, ops[0]), ops[1..]);
    }
  }

  /** A new detection ends the lift: the next sync enforces every ban of the address. */
  lemma DetectionEndsLift(lifts: seq<Lift>, ip: string, bans: seq<Ban>, now: int, b: Ban)
    requires OnePerAddress(lifts) && b in bans && b.ip == ip
    ensures b in Enforced(Renewals(Apply(lifts, Detect(ip)), bans, now), bans)
  {
    var after := Apply(lifts, Detect(ip));
    FirstIsOnly(lifts, ip);
    WithoutIsExact(lifts, ip);
    SyncIsExact(after, bans, now, b);
    forall i | 0 <= i < |after|
      ensures !NamedBy(after[i], bans, now, b)
    {
      assert after[i] in after;
      SparesIff(after[i], bans, now, b);
    }
  }

  /** A lift spares at the next sync every ban of the address, whatever its id, until its end. */
  lemma LiftSparesAll(lifts: seq<Lift>, op: Op, bans: seq<Ban>, now: int, b: Ban)
    requires OnePerAddress(lifts) && |lifts| <= MAX_LIFTED
    requires op.Unban? && op.saved && !Refuses(lifts, op.view, op.ip, op.banned)
    requires b in bans && b.ip == op.ip && now <= UntilFor(op.view, op.ip, op.at)
    ensures b !in Enforced(Renewals(Apply(lifts, op), bans, now), bans)
  {
    var after := Apply(lifts, op);
    KeepsOnePerAddress(lifts, op);
    SyncIsExact(after, bans, now, b);
    var l := NewLift(op.view, op.ip, op.at);
    assert after[|after| - 1] == l;
    SparesIff(l, bans, now, b);
    assert NamedBy(after[|after| - 1], bans, now, b);
  }

  // ---- the code

  class PanelState {
    var lifted: seq<Lift>

    constructor ()
      ensures lifted == []
    {
      lifted := [];
    }

    /** panelFilterBans */
    method FilterBans(bans: seq<Ban>, now: int) returns (out: seq<Ban>)
      modifies this
      ensures lifted == Apply(old(lifted), Sync(bans, now))
      ensures out == Enforced(lifted, bans)
    {
      if |lifted| == 0 {
        AllEnforced(bans);
        return bans;
      }
      var kept := RenewAll(lifted, bans, now);
      lifted := kept;
      if |kept| == 0 {
        AllEnforced(bans);
        return bans;
      }
      out := Unnamed(kept, bans);
    }

    /** panelNoteLocalBan */
    method NoteLocalBan(ip: string)
      modifies this
      ensures lifted == Apply(old(lifted), Detect(ip))
    {
      for i := 0 to |lifted|
        invariant lifted == old(lifted) && forall k | 0 <= k < i :: lifted[k].ip != ip
      {
        if lifted[i].ip == ip {
          RemovesAt(lifted, i, ip);
          lifted := lifted[..i] + lifted[i + 1..];
          return;
        }
      }
      RemovesNone(lifted, ip);
    }

    /** panelUnban; banned and saved are what the firewall and the state file answer. */
    method Unban(ip: string, view: seq<Ban>, banned: bool, saved: bool, now: int) returns (ok: bool)
      modifies this
      ensures ok <==> !Refuses(old(lifted), view, ip, banned) && saved
      ensures lifted == Apply(old(lifted), Op.Unban(ip, view, banned, saved, now))
    {
      var lift := MakeLift(view, ip, now);
      var already := exists i | 0 <= i < |lifted| :: lifted[i].ip == ip;
      if (lift.ids == [] && !banned) || (already && !banned) {
        return false;
      }
      var prev := lifted;
      lifted := Replace(lifted, lift);
      if !saved {
        lifted := prev;
        return false;
      }
      ok := true;
    }
  }

  /** The new lift of an address in place of an older one; the oldest beyond the bound go. */
  method Replace(lifted: seq<Lift>, lift: Lift) returns (r: seq<Lift>)
    ensures r == Newest(Without(lifted, lift.ip) + [lift])
  {
    r := Without(lifted, lift.ip) + [lift];
    if |r| > MAX_LIFTED {
      r := r[|r| - MAX_LIFTED..];
    }
  }

  method MakeLift(view: seq<Ban>, ip: string, now: int) returns (lift: Lift)
    ensures lift == NewLift(view, ip, now)
  {
    var ids, permanent, latest := Survey(view, ip);
    var until := now + LIFT_MAX_AGE;
    if !permanent && latest.Some? && latest.value < until {
      until := latest.value;
    }
    lift := Lift(ip, ids, true, now, until);
  }

  /** The bans of an address in the last sync: their ids, whether one never expires, and the latest expiry. */
  method Survey(view: seq<Ban>, ip: string) returns (ids: seq<int>, permanent: bool, latest: Option<int>)
    ensures ids == IdsOf(view, ip) && latest == Latest(view, ip) && (permanent <==> HasPermanent(view, ip))
  {
    ids, permanent, latest := [], false, None;
    for i := 0 to |view|
      invariant ids == IdsOf(view[..i], ip) && latest == Latest(view[..i], ip)
      invariant permanent <==> HasPermanent(view[..i], ip)
    {
      assert view[..i + 1][..i] == view[..i];
      if view[i].ip == ip {
        ids := ids + [view[i].id];
        match view[i].expires
        case Never => permanent := true;
        case At(t) => latest := if latest.None? || t > latest.value then Some(t) else latest;
        case Unreadable =>
      }
    }
    assert view[..|view|] == view;
  }

  method RenewAll(lifted: seq<Lift>, bans: seq<Ban>, now: int) returns (kept: seq<Lift>)
    ensures kept == Renewals(lifted, bans, now)
  {
    kept := [];
    for i := 0 to |lifted|
      invariant kept == Renewals(lifted[..i], bans, now)
    {
      assert lifted[..i + 1][..i] == lifted[..i];
      var r := Renew(lifted[i], bans, now);
      if r.Some? {
        kept := kept + [r.value];
      }
    }
    assert lifted[..|lifted|] == lifted;
  }

  /** The bans no lift names. */
  method Unnamed(kept: seq<Lift>, bans: seq<Ban>) returns (out: seq<Ban>)
    ensures out == Enforced(kept, bans)
  {
    out := [];
    for i := 0 to |bans|
      invariant out == Enforced(kept, bans[..i])
    {
      var named := IsNamed(kept, bans[i]);
      assert bans[..i + 1] == bans[..i] + [bans[i]];
      FilterConcat((b: Ban) => !Names(kept, b), bans[..i], [bans[i]]);
      if !named {
        out := out + [bans[i]];
      }
    }
    assert bans[..|bans|] == bans;
  }

  lemma {:induction false} AllEnforced(bans: seq<Ban>)
    ensures Enforced([], bans) == bans
  {
    if bans != [] {
      AllEnforced(bans[1..]);
      assert bans == [bans[0]] + bans[1..];
    }
  }

  /** The last lift of the address decides. */
  method IsNamed(kept: seq<Lift>, b: Ban) returns (named: bool)
    ensures named <==> Names(kept, b)
  {
    var ids: seq<int> := [];
    for i := 0 to |kept|
      invariant ids == LastIds(kept[..i], b.ip)
    {
      assert kept[..i + 1][..i] == kept[..i];
      if kept[i].ip == b.ip {
        ids := kept[i].ids;
      }
    }
    assert kept[..|kept|] == kept;
    named := b.id in ids;
  }

  /** One lift in a sync. */
  method Renew(l: Lift, bans: seq<Ban>, now: int) returns (r: Option<Lift>)
    ensures r == Renewed(l, bans, now)
  {
    if now > l.until {
      return None;
    }
    var listed: seq<int> := [];
    for i := 0 to |bans|
      invariant listed == IdsOf(bans[..i], l.ip)
    {
      assert bans[..i + 1][..i] == bans[..i];
      if bans[i].ip == l.ip {
        listed := listed + [bans[i].id];
      }
    }
    assert bans[..|bans|] == bans;
    var ids, adopt := l.ids, l.adopt;
    if adopt {
      for i := 0 to |listed|
        invariant ids == Adopted(l.ids, listed[..i])
      {
        assert listed[..i + 1][..i] == listed[..i];
        if listed[i] !in ids {
          ids := ids + [listed[i]];
        }
      }
      assert listed[..|listed|] == listed;
      if |ids| > 0 || now > l.liftedAt + ADOPT_FOR {
        adopt := false;
      }
      return if adopt || |ids| > 0 then Some(l.(ids := ids, adopt := adopt)) else None;
    }
    if 0 !in l.ids && forall id | id in l.ids :: id !in listed {
      return None;
    }
    r := Some(l);
  }
}
