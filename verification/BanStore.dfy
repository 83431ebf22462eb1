/**
 * The bans the agent holds (internal/firewall/bans.go, iptables.go). Addresses are numbered in the order of
 * their text; times are seconds.
 */
module BanStore {
  import opened Collections

  datatype Ban = Ban(added: int, expires: Option<int>)

  type Bans = map<nat, Ban>

  /** The order bans go in: the permanent last, then by age, then by address. */
  predicate Precedes(b: Bans, x: nat, y: nat)
    requires x in b && y in b
  {
    if b[x].expires.None? != b[y].expires.None? then b[y].expires.None?
    else if b[x].added != b[y].added then b[x].added < b[y].added
    else x < y
  }

  lemma OneFirst(b: Bans, x: nat, y: nat)
    requires x in b && y in b && x != y
    ensures Precedes(b, x, y) != Precedes(b, y, x)
  {
  }

  predicate InOrder(b: Bans, s: seq<nat>) {
    && (forall i | 0 <= i < |s| :: s[i] in b)
    && (forall i, j | 0 <= i < j < |s| :: Precedes(b, s[i], s[j]))
  }

  function Members(s: seq<nat>): set<nat> {
    set x | x in s
  }

  function Unprotected(b: Bans, keep: set<nat>): set<nat> {
    b.Keys - keep
  }

  /** How many bans must go so that n new ones fit. */
  function Over(b: Bans, n: nat, keep: set<nat>, cap: nat): nat {
    var over := |b| + n - cap;
    if over <= 0 then 0 else if over > |Unprotected(b, keep)| then |Unprotected(b, keep)| else over
  }

  /** out is what makeRoomLocked evicts: unprotected bans, in order, before all that stay. */
  ghost predicate Evicts(b: Bans, n: nat, keep: set<nat>, cap: nat, out: seq<nat>) {
    && InOrder(b, out)
    && Members(out) <= Unprotected(b, keep)
    && |out| == Over(b, n, keep, cap)
    && (forall x, y | x in out && y in Unprotected(b, keep) && y !in out :: Precedes(b, x, y))
  }

  function After(b: Bans, out: seq<nat>): Bans {
    b - Members(out)
  }

  // ---- the choice is unique

  lemma {:induction false} NoRepeats(b: Bans, s: seq<nat>)
    requires InOrder(b, s)
    ensures |Members(s)| == |s|
  {
    if s != [] {
      var init, last := s[..|s| - 1], s[|s| - 1];
      NoRepeats(b, init);
      assert last !in init;
      assert s == init + [last];
      assert Members(s) == Members(init) + {last};
    }
  }

  /** Lists in order of the same bans are the same. */
  lemma {:induction false} OrderIsUnique(b: Bans, s: seq<nat>, t: seq<nat>)
    requires InOrder(b, s) && InOrder(b, t) && Members(s) == Members(t)
    ensures s == t
    decreases |s|
  {
    NoRepeats(b, s);
    NoRepeats(b, t);
    if s != [] {
      var x, y := s[|s| - 1], t[|t| - 1];
      assert x in Members(t) && y in Members(s);
      assert x == y;
      var s1, t1 := s[..|s| - 1], t[..|t| - 1];
      assert s == s1 + [x] && t == t1 + [y];
      assert x !in s1 && x !in t1;
      assert Members(s1) == Members(s) - {x} && Members(t1) == Members(t) - {x};
      OrderIsUnique(b, s1, t1);
    }
  }

  /** There is only one right choice. */
  lemma EvictionIsUnique(b: Bans, n: nat, keep: set<nat>, cap: nat, out: seq<nat>, other: seq<nat>)
    requires Evicts(b, n, keep, cap, out) && Evicts(b, n, keep, cap, other)
    ensures out == other
  {
    NoRepeats(b, out);
    NoRepeats(b, other);
    var s, t := Members(out), Members(other);
    if s != t {
      if s <= t {
        SubsetSize(s, t);
      } else if t <= s {
        SubsetSize(t, s);
      } else {
        var x :| x in s && x !in t;
        var y :| y in t && y !in s;
        OneFirst(b, x, y);
      }
    }
    OrderIsUnique(b, out, other);
  }

  /** What makeRoomLocked promises: the new bans fit or no unprotected ban is left, and none went in vain. */
  lemma RoomIsMade(b: Bans, n: nat, keep: set<nat>, cap: nat, out: seq<nat>)
    requires Evicts(b, n, keep, cap, out)
    ensures var after := After(b, out);
            && (|after| + n <= cap || Unprotected(after, keep) == {})
            && (out != [] ==> |after| + n >= cap)
            && (forall x | x in b && x in keep :: x in after)
            && |after| == |b| - |out|
  {
    NoRepeats(b, out);
    AfterSize(b, out);
    if |out| == |Unprotected(b, keep)| {
      SubsetSize(Members(out), Unprotected(b, keep));
    }
  }

  lemma AfterSize(b: Bans, out: seq<nat>)
    requires InOrder(b, out)
    ensures |After(b, out)| == |b| - |out|
  {
    NoRepeats(b, out);
    assert After(b, out).Keys == b.Keys - Members(out);
    assert Members(out) <= b.Keys;
    assert |b.Keys - Members(out)| == |b.Keys| - |Members(out)|;
    assert |After(b, out)| == |After(b, out).Keys| && |b| == |b.Keys|;
  }

  /** A permanent ban goes only when every unprotected ban that expires goes too. */
  lemma PermanentGoesLast(b: Bans, n: nat, keep: set<nat>, cap: nat, out: seq<nat>, x: nat, y: nat)
    requires Evicts(b, n, keep, cap, out) && x in out && b[x].expires.None?
    requires y in Unprotected(b, keep) && b[y].expires.Some?
    ensures y in out
  {
    assert x in b;
  }

  /** Of two unprotected bans that both expire, or both never do, the older goes first, the lower address of equals. */
  lemma OldestGoFirst(b: Bans, n: nat, keep: set<nat>, cap: nat, out: seq<nat>, x: nat, y: nat)
    requires Evicts(b, n, keep, cap, out) && x in out && y in Unprotected(b, keep) && y !in out
    ensures x in b && (b[x].expires.None? ==> b[y].expires.None?)
    ensures b[x].expires.None? == b[y].expires.None? ==>
              b[x].added < b[y].added || (b[x].added == b[y].added && x < y)
  {
    assert Precedes(b, x, y);
  }

  // ---- the code

  lemma InsertInOrder(b: Bans, s: seq<nat>, i: nat, x: nat)
    requires InOrder(b, s) && x in b && i <= |s|
    requires (forall k | 0 <= k < i :: Precedes(b, s[k], x)) && (i < |s| ==> Precedes(b, x, s[i]))
    ensures InOrder(b, s[..i] + [x] + s[i..])
    ensures Members(s[..i] + [x] + s[i..]) == Members(s) + {x}
  {
    var r := s[..i] + [x] + s[i..];
    assert forall k | 0 <= k < i :: r[k] == s[k];
    assert forall k | i < k < |r| :: r[k] == s[k - 1];
    forall k | i <= k < |s|
      ensures Precedes(b, x, s[k])
    {
      if k > i {
      }
    }
    forall j, k | 0 <= j < k < |r|
      ensures r[j] in b && r[k] in b && Precedes(b, r[j], r[k])
    {
    }
    InsertMembers(s, i, x);
    assert forall y :: y in r <==> y == x || y in s;
  }

  /** The bans of a set, sorted. */
  method Sort(b: Bans, s: set<nat>) returns (r: seq<nat>)
    requires s <= b.Keys
    ensures InOrder(b, r) && Members(r) == s
  {
    r := [];
    var todo := s;
    while todo != {}
      invariant todo <= s && InOrder(b, r) && Members(r) == s - todo
      decreases todo
    {
      var x := Pick(todo);
      assert x !in Members(r);
      var i := 0;
      while i < |r| && Precedes(b, r[i], x)
        invariant 0 <= i <= |r| && forall k | 0 <= k < i :: Precedes(b, r[k], x)
      {
        i := i + 1;
      }
      assert i < |r| ==> r[i] in Members(r);
      InsertInOrder(b, r, i, x);
      r := r[..i] + [x] + r[i..];
      todo := todo - {x};
    }
  }

  lemma PrefixEvicts(b: Bans, keep: set<nat>, sorted: seq<nat>, k: nat)
    requires InOrder(b, sorted) && Members(sorted) == Unprotected(b, keep) && k <= |sorted|
    ensures InOrder(b, sorted[..k]) && Members(sorted[..k]) <= Unprotected(b, keep)
    ensures forall x, y | x in sorted[..k] && y in Unprotected(b, keep) && y !in sorted[..k] :: Precedes(b, x, y)
  {
    forall x | x in Members(sorted[..k])
      ensures x in Unprotected(b, keep)
    {
      assert x in Members(sorted);
    }
    assert forall j | 0 <= j < k :: sorted[j] in sorted[..k] by {
      assert forall j | 0 <= j < k :: sorted[..k][j] == sorted[j];
    }
    forall x, y | x in sorted[..k] && y in Unprotected(b, keep) && y !in sorted[..k]
      ensures Precedes(b, x, y)
    {
      assert y in Members(sorted);
      var i :| 0 <= i < k && sorted[i] == x;
      var j :| 0 <= j < |sorted| && sorted[j] == y;
    }
  }

  // ---- the rows of the dashboard

  /** One row of the ban list; an address that cannot be read, must not be banned or cannot be enforced is None. */
  datatype Row = Row(ip: Option<nat>, expires: Option<int>)

  /** The addresses of the rows, each once, in the order they first appear. */
  function Addresses(rows: seq<Row>): seq<nat> {
    if rows == [] then []
    else
      var init, last := Addresses(rows[..|rows| - 1]), rows[|rows| - 1];
      if last.ip.Some? && last.ip.value !in init then init + [last.ip.value] else init
  }

  /** The later of two expiries; never is later than any. */
  function Later(x: Option<int>, y: Option<int>): Option<int> {
    if x.None? || y.None? then None else if y.value > x.value then y else x
  }

  /** The latest expiry of the rows of an address. */
  predicate IsExpiry(rows: seq<Row>, ip: nat, e: Option<int>) {
    && (exists i | 0 <= i < |rows| :: rows[i] == Row(Some(ip), e))
    && (forall i | 0 <= i < |rows| :: rows[i].ip == Some(ip) ==> Later(e, rows[i].expires) == e)
  }

  lemma ExpiryIsUnique(rows: seq<Row>, ip: nat, e: Option<int>, f: Option<int>)
    requires IsExpiry(rows, ip, e) && IsExpiry(rows, ip, f)
    ensures e == f
  {
    var i :| 0 <= i < |rows| && rows[i] == Row(Some(ip), e);
    var j :| 0 <= j < |rows| && rows[j] == Row(Some(ip), f);
  }

  /** An expiry is never if one of the rows says so, and else the latest of them. */
  lemma ExpiryIsLatest(rows: seq<Row>, ip: nat, e: Option<int>)
    requires IsExpiry(rows, ip, e)
    ensures e.None? <==> exists i :: 0 <= i < |rows| && rows[i] == Row(Some(ip), None)
    ensures forall i | 0 <= i < |rows| && rows[i].ip == Some(ip) && e.Some? ::
              rows[i].expires.Some? && rows[i].expires.value <= e.value
  {
  }

  /** The first row of the address. */
  predicate IsFirst(rows: seq<Row>, ip: nat, i: nat) {
    i < |rows| && rows[i].ip == Some(ip) && forall j | 0 <= j < i :: rows[j].ip != Some(ip)
  }

  /** The addresses come in the order of their first rows, so a list that is cut loses the last ones. */
  lemma {:induction false} AddressesInRowOrder(rows: seq<Row>, i: nat, j: nat, x: nat, y: nat)
    requires i < j < |Addresses(rows)| && IsFirst(rows, Addresses(rows)[i], x) && IsFirst(rows, Addresses(rows)[j], y)
    ensures x < y
    decreases |rows|
  {
    var init := rows[..|rows| - 1];
    AddressesAreListed(init);
    if j < |Addresses(init)| {
      var u: nat :| u < |init| && init[u].ip == Some(Addresses(rows)[i]);
      var v: nat :| v < |init| && init[v].ip == Some(Addresses(rows)[j]);
      assert rows[u] == init[u] && rows[v] == init[v] && x <= u && y <= v;
      AddressesInRowOrder(init, i, j, x, y);
    } else {
      var u: nat :| u < |init| && init[u].ip == Some(Addresses(rows)[i]);
      assert rows[u] == init[u] && x <= u;
      assert forall m | 0 <= m < |init| :: init[m].ip != Some(Addresses(rows)[j]);
    }
  }

  lemma {:induction false} AddressesAreListed(rows: seq<Row>)
    ensures forall ip :: ip in Addresses(rows) <==> exists i :: 0 <= i < |rows| && rows[i].ip == Some(ip)
    ensures forall i, j | 0 <= i < j < |Addresses(rows)| :: Addresses(rows)[i] != Addresses(rows)[j]
    decreases |rows|
  {
    if rows != [] {
      var init := rows[..|rows| - 1];
      AddressesAreListed(init);
      assert forall i | 0 <= i < |init| :: init[i] == rows[i];
      forall ip | ip in Addresses(rows)
        ensures exists i :: 0 <= i < |rows| && rows[i].ip == Some(ip)
      {
        if ip in Addresses(init) {
          var i :| 0 <= i < |init| && init[i].ip == Some(ip);
          assert rows[i].ip == Some(ip);
        } else {
          assert rows[|rows| - 1].ip == Some(ip);
        }
      }
    }
  }

  /** The expiries after one more row. */
  function MoreExpiries(expires: map<nat, Option<int>>, row: Row): map<nat, Option<int>> {
    if row.ip.None? then expires
    else
      var ip := row.ip.value;
      expires[ip := if ip in expires then Later(expires[ip], row.expires) else row.expires]
  }

  ghost predicate AreExpiries(rows: seq<Row>, expires: map<nat, Option<int>>) {
    && expires.Keys == Members(Addresses(rows))
    && forall ip | ip in expires :: IsExpiry(rows, ip, expires[ip])
  }

  lemma MoreAddresses(rows: seq<Row>, n: nat)
    requires n < |rows|
    ensures var init, row := Addresses(rows[..n]), rows[n];
            Addresses(rows[..n + 1]) ==
              if row.ip.Some? && row.ip.value !in init then init + [row.ip.value] else init
  {
    assert rows[..n + 1][..n] == rows[..n];
  }

  lemma ExpiriesStep(rows: seq<Row>, n: nat, expires: map<nat, Option<int>>)
    requires n < |rows| && AreExpiries(rows[..n], expires)
    ensures AreExpiries(rows[..n + 1], MoreExpiries(expires, rows[n]))
  {
    var row, more := rows[n], MoreExpiries(expires, rows[n]);
    MoreAddresses(rows, n);
    assert more.Keys == Members(Addresses(rows[..n + 1]));
    forall ip | ip in more
      ensures IsExpiry(rows[..n + 1], ip, more[ip])
    {
      if ip in expires {
        ExpiryStep(rows, n, ip, expires[ip]);
      } else {
        NewExpiry(rows, n, ip);
      }
    }
  }

  /** The safe addresses of the list and the latest expiry of each. */
  method ReadRows(rows: seq<Row>) returns (safe: seq<nat>, expires: map<nat, Option<int>>)
    ensures safe == Addresses(rows) && AreExpiries(rows, expires)
  {
    safe, expires := [], map[];
    for n := 0 to |rows|
      invariant safe == Addresses(rows[..n]) && AreExpiries(rows[..n], expires)
    {
      ExpiriesStep(rows, n, expires);
      MoreAddresses(rows, n);
      safe, expires := ReadRow(rows[n], safe, expires);
    }
    assert rows[..|rows|] == rows;
  }

  /** One row of the loop. */
  method ReadRow(row: Row, safe: seq<nat>, expires: map<nat, Option<int>>)
    returns (more: seq<nat>, later: map<nat, Option<int>>)
    requires expires.Keys == Members(safe)
    ensures more == if row.ip.Some? && row.ip.value !in safe then safe + [row.ip.value] else safe
    ensures later == MoreExpiries(expires, row)
  {
    more, later := safe, expires;
    if row.ip.Some? {
      var ip := row.ip.value;
      assert ip in Members(safe) <==> ip in safe;
      if ip in expires {
        var e := expires[ip];
        if e.Some? && (row.expires.None? || row.expires.value > e.value) {
          later := later[ip := row.expires];
        }
      } else {
        later := later[ip := row.expires];
        more := more + [ip];
      }
    }
  }

  lemma ExpiryStep(rows: seq<Row>, n: nat, ip: nat, e: Option<int>)
    requires n < |rows| && IsExpiry(rows[..n], ip, e)
    ensures IsExpiry(rows[..n + 1], ip, if rows[n].ip == Some(ip) then Later(e, rows[n].expires) else e)
  {
    var a, b := rows[..n], rows[..n + 1];
    assert b == a + [rows[n]];
    var i :| 0 <= i < |a| && a[i] == Row(Some(ip), e);
    assert b[i] == a[i] && b[n] == rows[n];
  }

  lemma NewExpiry(rows: seq<Row>, n: nat, ip: nat)
    requires n < |rows| && rows[n].ip == Some(ip) && ip !in Addresses(rows[..n])
    ensures IsExpiry(rows[..n + 1], ip, rows[n].expires)
  {
    AddressesAreListed(rows[..n]);
    assert rows[..n + 1] == rows[..n] + [rows[n]];
    assert rows[..n + 1][n] == rows[n];
  }

  /** The addresses a list can still ban: the first ones, up to the capacity. */
  function Cut(listed: seq<nat>, cap: nat): seq<nat> {
    if |listed| > cap then listed[..cap] else listed
  }

  lemma CutMembers(listed: seq<nat>, cap: nat)
    ensures Members(Cut(listed, cap)) <= Members(listed)
  {
    assert forall i | 0 <= i < |Cut(listed, cap)| :: Cut(listed, cap)[i] == listed[i];
  }

  lemma MembersMore(s: seq<nat>, i: nat)
    requires i < |s|
    ensures Members(s[..i + 1]) == Members(s[..i]) + {s[i]}
  {
    assert s[..i + 1] == s[..i] + [s[i]];
  }

  lemma OneMore(s: set<nat>, t: set<nat>, x: nat)
    requires x !in s
    ensures |(s + {x}) - t| == |s - t| + if x in t then 0 else 1
  {
    assert (s + {x}) - t == if x in t then s - t else (s - t) + {x};
  }

  /** b became a when the ban list rows was applied and out made room. */
  ghost predicate Applied(b: Bans, rows: seq<Row>, now: int, cap: nat, out: seq<nat>, a: Bans) {
    var keep := Members(Cut(Addresses(rows), cap));
    && Evicts(b, |keep - b.Keys|, keep, cap, out)
    && a.Keys == (b.Keys - Members(out)) + keep
    && (forall ip | ip in keep ::
          IsExpiry(rows, ip, a[ip].expires) && a[ip].added == if ip in b then b[ip].added else now)
    && (forall ip | ip in a && ip !in keep :: a[ip] == b[ip])
  }

  /** A list determines what becomes of the bans. */
  lemma ApplyIsDetermined(b: Bans, rows: seq<Row>, now: int, cap: nat, out: seq<nat>, a: Bans,
                          out2: seq<nat>, a2: Bans)
    requires Applied(b, rows, now, cap, out, a) && Applied(b, rows, now, cap, out2, a2)
    ensures out == out2 && a == a2
  {
    hide *;
    var keep := Members(Cut(Addresses(rows), cap));
    AppliedKeys(b, rows, now, cap, out, a);
    AppliedKeys(b, rows, now, cap, out2, a2);
    EvictionIsUnique(b, |keep - b.Keys|, keep, cap, out, out2);
    assert a.Keys == a2.Keys;
    forall ip | ip in a
      ensures a[ip] == a2[ip]
    {
      BanIsDetermined(b, rows, now, cap, out, a, a2, ip);
    }
  }

  lemma AppliedKeys(b: Bans, rows: seq<Row>, now: int, cap: nat, out: seq<nat>, a: Bans)
    requires Applied(b, rows, now, cap, out, a)
    ensures var keep := Members(Cut(Addresses(rows), cap));
            Evicts(b, |keep - b.Keys|, keep, cap, out) && a.Keys == (b.Keys - Members(out)) + keep
  {
  }

  lemma BanIsDetermined(b: Bans, rows: seq<Row>, now: int, cap: nat, out: seq<nat>, a: Bans, a2: Bans, ip: nat)
    requires Applied(b, rows, now, cap, out, a) && Applied(b, rows, now, cap, out, a2) && ip in a && ip in a2
    ensures a[ip] == a2[ip]
  {
    if ip in Members(Cut(Addresses(rows), cap)) {
      ExpiryIsUnique(rows, ip, a[ip].expires, a2[ip].expires);
    }
  }

  ghost predicate Claimed(b: Bans, ip: nat, now: int, expires: Option<int>, cap: nat, out: seq<nat>, a: Bans) {
    if ip in b then a == b && out == []
    else Evicts(b, 1, {}, cap, out) && a == After(b, out)[ip := Ban(now, expires)]
  }

  function Expired(b: Bans, now: int): set<nat> {
    set ip | ip in b && b[ip].expires.Some? && b[ip].expires.value <= now
  }

  /** next is the earliest expiry. */
  predicate IsNextExpiry(b: Bans, next: Option<int>) {
    match next
    case None => forall ip | ip in b :: b[ip].expires.None?
    case Some(t) =>
      && (exists ip | ip in b :: b[ip].expires == next)
      && (forall ip | ip in b && b[ip].expires.Some? :: t <= b[ip].expires.value)
  }

  /** The timer is exact: there is something to expire exactly from the next expiry on, and then it is later. */
  lemma ExpiryTimerIsExact(b: Bans, next: Option<int>, now: int)
    requires IsNextExpiry(b, next)
    ensures Expired(b, now) == {} <==> next.None? || now < next.value
    ensures forall after: Option<int> :: IsNextExpiry(b - Expired(b, now), after) && after.Some? ==> now < after.value
  {
    if next.Some? && next.value <= now {
      var ip :| ip in b && b[ip].expires == next;
      assert ip in Expired(b, now);
    }
    forall after: Option<int> | IsNextExpiry(b - Expired(b, now), after) && after.Some?
      ensures now < after.value
    {
      var ip :| ip in b - Expired(b, now) && b[ip].expires == after;
    }
  }

  // ---- the bans saved before a restart

  /** One saved ban; an address that cannot be read, must not be banned or cannot be enforced is None. */
  datatype Saved = Saved(ip: Option<nat>, added: Option<int>, expires: Option<int>)

  datatype Entry = Entry(ip: nat, ban: Ban)

  predicate IsUsable(b: Saved, now: int) {
    b.ip.Some? && (b.expires.None? || b.expires.value > now)
  }

  /** The ban as it is restored; one without a time, or from the future, counts as new. */
  function Revived(b: Saved, now: int): Entry
    requires b.ip.Some?
  {
    Entry(b.ip.value, Ban(if b.added.None? || b.added.value > now then now else b.added.value, b.expires))
  }

  function Usable(saved: seq<Saved>, now: int): seq<Entry> {
    if saved == [] then []
    else
      var init, b := Usable(saved[..|saved| - 1], now), saved[|saved| - 1];
      if IsUsable(b, now) then init + [Revived(b, now)] else init
  }

  /** The saved ban gives the entry: not expired, of its own time unless that is missing or in the future. */
  predicate Gives(b: Saved, e: Entry, now: int) {
    && b.ip == Some(e.ip) && b.expires == e.ban.expires
    && (e.ban.expires.Some? ==> now < e.ban.expires.value)
    && (e.ban.added == now || b.added == Some(e.ban.added)) && e.ban.added <= now
    && (b.added.Some? && b.added.value <= now ==> b.added.value == e.ban.added)
  }

  /** The usable bans are exactly what the saved ones give, in their order. */
  lemma {:induction false} UsableIsExact(saved: seq<Saved>, now: int)
    ensures forall e :: e in Usable(saved, now) <==> exists i :: 0 <= i < |saved| && Gives(saved[i], e, now)
    decreases |saved|
  {
    if saved != [] {
      var init, b := saved[..|saved| - 1], saved[|saved| - 1];
      UsableIsExact(init, now);
      forall e
        ensures e in Usable(saved, now) <==> exists i :: 0 <= i < |saved| && Gives(saved[i], e, now)
      {
        if e in Usable(init, now) {
          var i :| 0 <= i < |init| && Gives(init[i], e, now);
          assert saved[i] == init[i];
        }
        if i: int :| 0 <= i < |saved| && Gives(saved[i], e, now) {
          assert i < |init| ==> init[i] == saved[i];
          assert i == |init| ==> saved[i] == b;
        }
      }
    }
  }

  predicate NewestFirst(s: seq<Entry>) {
    forall i, j | 0 <= i < j < |s| :: s[i].ban.added >= s[j].ban.added
  }

  /** chosen are the newest of ok, up to the capacity, and others what is left out. */
  ghost predicate AreNewest(ok: seq<Entry>, chosen: seq<Entry>, others: seq<Entry>, cap: nat) {
    && multiset(ok) == multiset(chosen) + multiset(others)
    && |chosen| == (if |ok| > cap then cap else |ok|)
    && (forall i, j | 0 <= i < |others| && 0 <= j < |chosen| :: others[i].ban.added <= chosen[j].ban.added)
  }

  method SortNewestFirst(ok: seq<Entry>) returns (r: seq<Entry>)
    ensures NewestFirst(r) && multiset(r) == multiset(ok)
  {
    r := [];
    for n := 0 to |ok|
      invariant NewestFirst(r) && multiset(r) == multiset(ok[..n])
    {
      r := Place(r, ok[n]);
      assert ok[..n + 1] == ok[..n] + [ok[n]];
    }
    assert ok[..|ok|] == ok;
  }

  method Place(s: seq<Entry>, e: Entry) returns (r: seq<Entry>)
    requires NewestFirst(s)
    ensures NewestFirst(r) && multiset(r) == multiset(s) + multiset{e}
  {
    var i := 0;
    while i < |s| && s[i].ban.added >= e.ban.added
      invariant 0 <= i <= |s| && forall k | 0 <= k < i :: s[k].ban.added >= e.ban.added
    {
      i := i + 1;
    }
    r := s[..i] + [e] + s[i..];
    PlacedMembers(s, i, e);
    forall j, k | 0 <= j < k < |r|
      ensures r[j].ban.added >= r[k].ban.added
    {
      PlacedPair(s, i, e, j, k);
    }
  }

  lemma PlacedMembers(s: seq<Entry>, i: nat, e: Entry)
    requires i <= |s|
    ensures multiset(s[..i] + [e] + s[i..]) == multiset(s) + multiset{e}
  {
    assert s == s[..i] + s[i..];
  }

  lemma PlacedPair(s: seq<Entry>, i: nat, e: Entry, j: nat, k: nat)
    requires NewestFirst(s) && i <= |s| && j < k <= |s|
    requires (forall m | 0 <= m < i :: s[m].ban.added >= e.ban.added) && (i < |s| ==> s[i].ban.added <= e.ban.added)
    ensures var r := s[..i] + [e] + s[i..];
            r[j].ban.added >= r[k].ban.added
  {
    var r := s[..i] + [e] + s[i..];
    var x, y := if j > i then j - 1 else j, if k > i then k - 1 else k;
    assert j != i ==> r[j] == s[x];
    assert k != i ==> r[k] == s[y];
  }

  lemma PrefixIsNewest(ok: seq<Entry>, sorted: seq<Entry>, cap: nat)
    requires NewestFirst(sorted) && multiset(sorted) == multiset(ok) && cap <= |sorted| == |ok|
    ensures AreNewest(ok, sorted[..cap], sorted[cap..], cap)
  {
    assert sorted == sorted[..cap] + sorted[cap..];
  }

  /** What the chosen bans make of the store: a known ban stays, of two for one address the first counts. */
  function Restored(b: Bans, chosen: seq<Entry>): Bans {
    if chosen == [] then b
    else
      var before, e := Restored(b, chosen[..|chosen| - 1]), chosen[|chosen| - 1];
      if e.ip in before then before else before[e.ip := e.ban]
  }

  lemma {:induction false} RestoredIsExact(b: Bans, chosen: seq<Entry>)
    ensures var r := Restored(b, chosen);
            && (forall ip | ip in b :: ip in r && r[ip] == b[ip])
            && (forall ip :: ip in r <==> ip in b || exists i :: 0 <= i < |chosen| && chosen[i].ip == ip)
            && (forall ip | ip in r && ip !in b :: Entry(ip, r[ip]) in chosen)
            && |r| <= |b| + |chosen|
    decreases |chosen|
  {
    if chosen != [] {
      var init, e := chosen[..|chosen| - 1], chosen[|chosen| - 1];
      RestoredIsExact(b, init);
      assert chosen == init + [e];
      var before := Restored(b, init);
      assert (before[e.ip := e.ban]).Keys == before.Keys + {e.ip};
      assert |before[e.ip := e.ban]| == |(before[e.ip := e.ban]).Keys| && |before| == |before.Keys|;
      forall ip | ip in Restored(b, chosen) && ip !in b
        ensures exists i :: 0 <= i < |chosen| && chosen[i].ip == ip
      {
        if ip in before {
          var i :| 0 <= i < |init| && init[i].ip == ip;
          assert chosen[i].ip == ip;
        } else {
          assert chosen[|chosen| - 1].ip == ip;
        }
      }
    }
  }

  /** Of the restored bans of one address the first counts. */
  lemma {:induction false} FirstIsRestored(b: Bans, chosen: seq<Entry>, i: nat)
    requires i < |chosen| && chosen[i].ip !in b && forall j | 0 <= j < i :: chosen[j].ip != chosen[i].ip
    ensures chosen[i].ip in Restored(b, chosen) && Restored(b, chosen)[chosen[i].ip] == chosen[i].ban
    decreases |chosen|
  {
    var init := chosen[..|chosen| - 1];
    if i < |init| {
      FirstIsRestored(b, init, i);
    } else {
      RestoredIsExact(b, init);
    }
  }

  /** A restart never starts above the capacity. */
  lemma RestoreFits(saved: seq<Saved>, now: int, cap: nat, chosen: seq<Entry>, others: seq<Entry>)
    requires AreNewest(Usable(saved, now), chosen, others, cap)
    ensures |Restored(map[], chosen)| <= cap
  {
    RestoredIsExact(map[], chosen);
  }

  class Store {
    var bans: Bans

    constructor ()
      ensures bans == map[]
    {
      bans := map[];
    }

    /** makeRoomLocked */
    method MakeRoom(n: nat, keep: set<nat>, cap: nat) returns (evicted: seq<nat>)
      modifies this
      ensures Evicts(old(bans), n, keep, cap, evicted)
      ensures bans == After(old(bans), evicted)
    {
      var over := |bans| + n - cap;
      if over <= 0 {
        assert After(bans, []) == bans;
        return [];
      }
      var ips := Sort(bans, bans.Keys - keep);
      NoRepeats(bans, ips);
      if over > |ips| {
        over := |ips|;
      }
      PrefixEvicts(bans, keep, ips, over);
      evicted := ips[..over];
      Remove(evicted);
    }

    method Remove(evicted: seq<nat>)
      modifies this
      ensures bans == After(old(bans), evicted)
    {
      ghost var all := bans;
      assert After(all, evicted[..0]) == all;
      for i := 0 to |evicted|
        invariant bans == After(all, evicted[..i])
      {
        MembersMore(evicted, i);
        bans := bans - {evicted[i]};
      }
      assert evicted[..|evicted|] == evicted;
    }

    /** claimBan */
    method Claim(ip: nat, now: int, expires: Option<int>, cap: nat) returns (added: bool, out: seq<nat>)
      modifies this
      ensures added <==> ip !in old(bans)
      ensures Claimed(old(bans), ip, now, expires, cap, out, bans)
    {
      if ip in bans {
        return false, [];
      }
      out := MakeRoom(1, {}, cap);
      bans := bans[ip := Ban(now, expires)];
      added := true;
    }

    /** ApplyBans */
    method Apply(rows: seq<Row>, now: int, cap: nat) returns (out: seq<nat>)
      modifies this
      ensures Applied(old(bans), rows, now, cap, out, bans)
    {
      var safe, expires := ReadRows(rows);
      AddressesAreListed(rows);
      CutMembers(safe, cap);
      if |safe| > cap {
        safe := safe[..cap];
      }
      var unseen := CountUnseen(safe);
      var keep := set ip | ip in safe;
      assert keep == Members(safe);
      out := MakeRoom(unseen, keep, cap);
      Record(safe, expires, now);
    }

    /** Puts the listed bans in force. */
    method Record(safe: seq<nat>, expires: map<nat, Option<int>>, now: int)
      requires Members(safe) <= expires.Keys
      modifies this
      ensures bans.Keys == old(bans).Keys + Members(safe)
      ensures forall ip | ip in Members(safe) ::
                bans[ip] == Ban(if ip in old(bans) then old(bans)[ip].added else now, expires[ip])
      ensures forall ip | ip in bans && ip !in Members(safe) :: bans[ip] == old(bans)[ip]
    {
      ghost var all, done: set<nat> := bans, {};
      for i := 0 to |safe|
        invariant done == Members(safe[..i]) && bans.Keys == all.Keys + done
        invariant forall ip | ip in done ::
                    ip in expires && bans[ip] == Ban(if ip in all then all[ip].added else now, expires[ip])
        invariant forall ip | ip in all && ip !in done :: bans[ip] == all[ip]
      {
        var ip := safe[i];
        MembersMore(safe, i);
        assert ip in Members(safe);
        var b := if ip in bans then bans[ip] else Ban(now, None);
        bans := bans[ip := b.(expires := expires[ip])];
        done := done + {ip};
      }
      assert safe[..|safe|] == safe;
    }

    /** How many of the addresses are not banned yet. */
    method CountUnseen(safe: seq<nat>) returns (n: nat)
      requires forall i, j | 0 <= i < j < |safe| :: safe[i] != safe[j]
      ensures n == |Members(safe) - bans.Keys|
    {
      n := 0;
      ghost var seen: set<nat> := {};
      for i := 0 to |safe|
        invariant seen == Members(safe[..i]) && n == |seen - bans.Keys|
      {
        MembersMore(safe, i);
        assert safe[i] !in seen;
        OneMore(seen, bans.Keys, safe[i]);
        if safe[i] !in bans {
          n := n + 1;
        }
        seen := seen + {safe[i]};
      }
      assert safe[..|safe|] == safe;
    }

    /** RestoreBans: the usable bans of the file, the newest when there are too many. */
    method Restore(saved: seq<Saved>, now: int, cap: nat)
      returns (n: nat, ghost chosen: seq<Entry>, ghost others: seq<Entry>)
      modifies this
      ensures AreNewest(Usable(saved, now), chosen, others, cap) && n == |chosen|
      ensures bans == Restored(old(bans), chosen)
    {
      var ok: seq<Entry> := [];
      for i := 0 to |saved|
        invariant ok == Usable(saved[..i], now)
        modifies {}
      {
        assert saved[..i + 1][..i] == saved[..i];
        var b := saved[i];
        if b.ip.Some? && !(b.expires.Some? && b.expires.value <= now) {
          ok := ok + [Revived(b, now)];
        }
      }
      assert saved[..|saved|] == saved;
      ghost var all := ok;
      others := [];
      if |ok| > cap {
        ok := SortNewestFirst(ok);
        assert |ok| == |multiset(ok)| == |multiset(all)| == |all|;
        PrefixIsNewest(all, ok, cap);
        others := ok[cap..];
        ok := ok[..cap];
      }
      chosen := ok;
      Revive(ok);
      n := |ok|;
    }

    method Revive(ok: seq<Entry>)
      modifies this
      ensures bans == Restored(old(bans), ok)
    {
      for i := 0 to |ok|
        invariant bans == Restored(old(bans), ok[..i])
      {
        assert ok[..i + 1][..i] == ok[..i];
        if ok[i].ip !in bans {
          bans := bans[ok[i].ip := ok[i].ban];
        }
      }
      assert ok[..|ok|] == ok;
    }

    /** ExpireBans */
    method Expire(now: int) returns (gone: set<nat>)
      modifies this
      ensures gone == Expired(old(bans), now) && bans == old(bans) - gone
    {
      gone := {};
      var todo := bans.Keys;
      while todo != {}
        invariant todo <= bans.Keys && gone == Expired(bans, now) - todo
        modifies {}
        decreases todo
      {
        var ip := Pick(todo);
        if bans[ip].expires.Some? && bans[ip].expires.value <= now {
          gone := gone + {ip};
        }
        todo := todo - {ip};
      }
      bans := bans - gone;
    }

    /** NextBanExpiry */
    method NextExpiry() returns (next: Option<int>)
      ensures IsNextExpiry(bans, next)
    {
      next := None;
      var todo := bans.Keys;
      while todo != {}
        invariant todo <= bans.Keys
        invariant next.None? ==> forall ip | ip in bans && ip !in todo :: bans[ip].expires.None?
        invariant next.Some? ==> exists ip | ip in bans :: bans[ip].expires == next
        invariant next.Some? ==>
                    forall ip | ip in bans && ip !in todo && bans[ip].expires.Some? ::
                      next.value <= bans[ip].expires.value
        decreases todo
      {
        var ip := Pick(todo);
        var e := bans[ip].expires;
        if e.Some? && (next.None? || e.value < next.value) {
          next := e;
          assert bans[ip].expires == next;
        }
        todo := todo - {ip};
      }
    }
  }

  // ---- runs

  datatype Op = Claim(ip: nat, now: int, expires: Option<int>) | Apply(rows: seq<Row>, at: int) | Expire(time: int)
    | Unban(gone: nat) | Cleanup(active: set<nat>) | SetExpiry(of: nat, until: Option<int>)

  /** b becomes a by one operation. */
  ghost predicate Step(b: Bans, op: Op, cap: nat, a: Bans) {
    match op
    case Claim(ip, now, expires) => exists out :: Claimed(b, ip, now, expires, cap, out, a)
    case Apply(rows, at) => exists out :: Applied(b, rows, at, cap, out, a)
    case Expire(time) => a == b - Expired(b, time)
    case Unban(gone) => a == b - {gone}
    case Cleanup(active) => a == b - (b.Keys - active)
    case SetExpiry(of, until) => a == if of in b then b[of := b[of].(expires := until)] else b
  }

  /** caps are the capacities in force; one changes when ipset comes or goes. */
  ghost predicate Run(states: seq<Bans>, ops: seq<Op>, caps: seq<nat>) {
    && |states| == |ops| + 1 && |caps| == |ops|
    && forall i | 0 <= i < |ops| :: caps[i] > 0 && Step(states[i], ops[i], caps[i], states[i + 1])
  }

  lemma ClaimFits(b: Bans, ip: nat, now: int, expires: Option<int>, cap: nat, out: seq<nat>, a: Bans)
    requires Claimed(b, ip, now, expires, cap, out, a) && ip !in b && cap > 0
    ensures |a| <= cap
  {
    var left := After(b, out);
    RoomIsMade(b, 1, {}, cap, out);
    OneMoreBan(left, ip, Ban(now, expires));
    assert Unprotected(left, {}) == left.Keys && |left| == |left.Keys|;
  }

  lemma OneMoreBan(b: Bans, ip: nat, ban: Ban)
    ensures |b[ip := ban]| <= |b| + 1
  {
    assert b[ip := ban].Keys == b.Keys + {ip};
    assert |b[ip := ban]| == |b[ip := ban].Keys| && |b| == |b.Keys|;
  }

  /** However many bans there were, a list that was applied leaves at most the capacity. */
  lemma ApplyFits(b: Bans, rows: seq<Row>, now: int, cap: nat, out: seq<nat>, a: Bans)
    requires Applied(b, rows, now, cap, out, a)
    ensures |a| <= cap
  {
    var listed := Cut(Addresses(rows), cap);
    MembersSize(listed);
    RoomIsMade(b, |Members(listed) - b.Keys|, Members(listed), cap, out);
    UnionFits(b.Keys - Members(out), Members(listed), b.Keys, cap) by {
      assert After(b, out).Keys == b.Keys - Members(out);
      assert |After(b, out)| == |After(b, out).Keys|;
    }
    assert |a| == |a.Keys|;
  }

  lemma UnionFits(left: set<nat>, keep: set<nat>, all: set<nat>, cap: nat)
    requires left <= all && (all - left) !! keep && |keep| <= cap
    requires |left| + |keep - all| <= cap || left - keep == {}
    ensures |left + keep| <= cap
  {
    if left - keep == {} {
      assert left + keep == keep;
    } else {
      assert left + keep == left + (keep - all);
    }
  }

  lemma {:induction false} MembersSize(s: seq<nat>)
    ensures |Members(s)| <= |s|
  {
    if s != [] {
      MembersSize(s[1..]);
      assert Members(s) == Members(s[1..]) + {s[0]};
    }
  }

  lemma FewerLeft(b: Bans, gone: set<nat>)
    ensures |b - gone| <= |b|
  {
    SubsetSize((b - gone).Keys, b.Keys);
    assert |b - gone| == |(b - gone).Keys| && |b| == |b.Keys|;
  }

  /** What adds bans leaves them within the capacity in force, and nothing else adds any. */
  lemma StepFits(b: Bans, op: Op, cap: nat, a: Bans)
    requires Step(b, op, cap, a) && cap > 0
    ensures |a| <= cap || |a| <= |b|
    ensures op.Apply? || (op.Claim? && op.ip !in b) ==> |a| <= cap
  {
    match op
    case Claim(ip, now, expires) =>
      var out :| Claimed(b, ip, now, expires, cap, out, a);
      if ip !in b {
        ClaimFits(b, ip, now, expires, cap, out, a);
      }
    case Apply(rows, at) =>
      var out :| Applied(b, rows, at, cap, out, a);
      ApplyFits(b, rows, at, cap, out, a);
    case Expire(time) => FewerLeft(b, Expired(b, time));
    case Unban(gone) => FewerLeft(b, {gone});
    case Cleanup(active) => FewerLeft(b, b.Keys - active);
    case SetExpiry(of, until) =>
      assert a.Keys == b.Keys && |a| == |a.Keys| && |b| == |b.Keys|;
  }

  /**
   * The bans never outgrow the largest capacity so far, and each list and each new ban leaves them within the one
   * in force, also after that has shrunk.
   */
  lemma {:induction false} CapacityOverRuns(states: seq<Bans>, ops: seq<Op>, caps: seq<nat>, most: nat, n: nat)
    requires Run(states, ops, caps) && |states[0]| <= most && n <= |ops|
    requires forall i | 0 <= i < n :: caps[i] <= most
    ensures |states[n]| <= most
    ensures n > 0 && (ops[n - 1].Apply? || (ops[n - 1].Claim? && ops[n - 1].ip !in states[n - 1])) ==>
              |states[n]| <= caps[n - 1]
    decreases n
  {
    hide *;
    if n > 0 {
      CapacityOverRuns(states, ops, caps, most, n - 1);
      RunStepFits(states, ops, caps, n - 1);
    }
  }

  lemma RunStepFits(states: seq<Bans>, ops: seq<Op>, caps: seq<nat>, i: nat)
    requires Run(states, ops, caps) && i < |ops|
    ensures |states| == |ops| + 1 && |caps| == |ops|
    ensures |states[i + 1]| <= caps[i] || |states[i + 1]| <= |states[i]|
    ensures ops[i].Apply? || (ops[i].Claim? && ops[i].ip !in states[i]) ==> |states[i + 1]| <= caps[i]
  {
    StepFits(states[i], ops[i], caps[i], states[i + 1]);
  }

  // ---- permanent bans

  function Permanent(b: Bans): set<nat> {
    set ip | ip in b && b[ip].expires.None?
  }

  /** Room for one more takes a permanent ban exactly when the permanent ones fill the store. */
  lemma EvictsPermanentIff(b: Bans, cap: nat, out: seq<nat>)
    requires Evicts(b, 1, {}, cap, out) && cap > 0
    ensures Members(out) !! Permanent(b) <==> |Permanent(b)| < cap
  {
    var gone, permanent := Members(out), Permanent(b);
    var temporary := b.Keys - permanent;
    NoRepeats(b, out);
    assert Unprotected(b, {}) == b.Keys && |b| == |b.Keys|;
    assert permanent <= b.Keys && |temporary| == |b| - |permanent|;
    if gone !! permanent {
      SubsetSize(gone, temporary);
    } else {
      var x := SomeMember(gone * permanent);
      forall y | y in temporary
        ensures y in gone
      {
        PermanentGoesLast(b, 1, {}, cap, out, x, y);
      }
      SubsetSize(temporary + {x}, gone);
    }
  }

  /** A new local ban keeps every permanent one exactly when these do not fill the store, whatever else it holds. */
  lemma LocalBanKeepsPermanentIff(b: Bans, ip: nat, now: int, until: int, cap: nat, out: seq<nat>, a: Bans)
    requires Claimed(b, ip, now, Some(until), cap, out, a) && ip !in b && cap > 0
    ensures Permanent(b) <= Permanent(a) <==> |Permanent(b)| < cap
    ensures Permanent(a) <= Permanent(b)
  {
    EvictsPermanentIff(b, cap, out);
    assert Permanent(a) == Permanent(b) - Members(out);
  }

  /** A flood: local bans, which all expire, and what expires. */
  predicate IsFlood(ops: seq<Op>) {
    forall i | 0 <= i < |ops| :: (ops[i].Claim? && ops[i].expires.Some?) || ops[i].Expire?
  }

  /** A flood of local bans cannot push out a permanent one while these do not fill the store. */
  lemma {:induction false} PermanentSurvivesFlood(states: seq<Bans>, ops: seq<Op>, caps: seq<nat>, n: nat)
    requires Run(states, ops, caps) && IsFlood(ops) && n <= |ops|
    requires forall i | 0 <= i < n :: |Permanent(states[0])| < caps[i]
    ensures Permanent(states[n]) == Permanent(states[0])
    decreases n
  {
    if n > 0 {
      PermanentSurvivesFlood(states, ops, caps, n - 1);
      var b, op, cap, a := states[n - 1], ops[n - 1], caps[n - 1], states[n];
      assert Step(b, op, cap, a);
      match op
      case Claim(ip, now, expires) =>
        var out :| Claimed(b, ip, now, expires, cap, out, a);
        if ip !in b {
          LocalBanKeepsPermanentIff(b, ip, now, expires.value, cap, out, a);
        }
      case Expire(time) =>
        assert Permanent(a) == Permanent(b);
    }
  }
}
