/**
 * The bounded two-priority queue in front of the dashboard: what an event is, which events are urgent,
 * and how room is made when the queue is full (internal/api/events.go).
 */
module EventQueue {
  import opened Sequences

  const EVENT_BATCH_MAX := 100
  const EVENT_QUEUE_MAX := 5000
  const EVENT_QUEUE_BYTES := 16 * 1024 * 1024
  const EVENT_DROP_CHUNK := EVENT_QUEUE_MAX / 10
  const EVENT_KEEP_BYTES := EVENT_QUEUE_BYTES - EVENT_QUEUE_BYTES / 10

  /** What limitEvent leaves at most: five fields of 128 bytes, 64 details of 128 + 2048 bytes. */
  const EVENT_SIZE_MIN := 128
  const EVENT_SIZE_MAX := 128 + 5 * 128 + 64 * (32 + 128 + 2048)

  /**
   * A reported event with its estimated size, or the warning the queue itself creates: how many events
   * were lost (refused of them by the server) since the previous warning, and since when.
   */
  datatype Event =
    | Reported(typ: string, severity: string, sourceIP: string, details: map<string, string>, size: nat)
    | Overflow(dropped: nat, refused: nat, since: int)
  {
    function Type(): string {
      if Overflow? then "event_queue_overflow" else typ
    }

    function Severity(): string {
      if Overflow? then "warning" else severity
    }

    function Detail(key: string): string {
      if Overflow? || key !in details then "" else details[key]
    }

    predicate FromAddress() {
      Reported? && sourceIP != ""
    }

    /** The estimate of eventSize; the numbers of a warning are decimal, its two times take 20 bytes. */
    function Size(): nat {
      match this
      case Reported(_, _, _, _, size) => size
      case Overflow(dropped, refused, _) =>
        128 + 20 + 7 + 20 + (32 + 7 + Digits(dropped)) + (32 + 5 + 20) + (32 + 11 + 4)
        + (if refused > 0 then 32 + 7 + Digits(refused) else 0)
    }
  }

  function Digits(n: nat): nat {
    if n < 10 then 1 else 1 + Digits(n / 10)
  }

  predicate HasPrefix(s: string, p: string) {
    p <= s
  }

  predicate HasSuffix(s: string, p: string) {
    |p| <= |s| && s[|s| - |p|..] == p
  }

  predicate Contains(s: string, p: string) {
    HasPrefix(s, p) || (s != [] && Contains(s[1..], p))
  }

  /** Contains is a search for p at every place of s. */
  lemma {:induction false} ContainsIff(s: string, p: string)
    ensures Contains(s, p) <==> exists i :: 0 <= i <= |s| && p <= s[i..]
  {
    assert s[0..] == s;
    if s != [] {
      ContainsIff(s[1..], p);
      if i: int :| 0 <= i <= |s[1..]| && p <= s[1..][i..] {
        assert s[1..][i..] == s[i + 1..];
      }
      if i: int :| 0 < i <= |s| && p <= s[i..] {
        assert s[1..][i - 1..] == s[i..];
      }
    }
  }

  predicate UrgentPrefix(t: string) {
    || HasPrefix(t, "quarantine_")
    || HasPrefix(t, "firewall_")
    || HasPrefix(t, "virtual_patch_")
    || HasPrefix(t, "trust_token_")
    || HasPrefix(t, "update_")
  }

  predicate UrgentSuffix(t: string) {
    HasSuffix(t, "_failed") || HasSuffix(t, "_rolled_back") || HasSuffix(t, "_after_update")
  }

  /** The events sent without waiting for the next batch. */
  predicate UrgentEvent(e: Event) {
    var t := e.Type();
    if || e.Severity() == "critical"
       || Contains(t, "brute")
       || Contains(t, "ban")
       || UrgentSuffix(t)
       || UrgentPrefix(t) then true
    else if HasPrefix(t, "malware_") then t != "malware_scan_started" && t != "malware_scan_progress"
    else if e.Severity() == "high" && e.FromAddress() then
      e.Detail("source") == "modsecurity" || e.Detail("domain") != "" || e.Detail("uri") != ""
    else false
  }

  /** The word stands somewhere in the text, or at its end. */
  ghost predicate Has(t: string, word: string) {
    exists i :: 0 <= i <= |t| && word <= t[i..]
  }

  ghost predicate EndsWith(t: string, word: string) {
    exists i :: 0 <= i <= |t| && t[i..] == word
  }

  lemma SuffixIff(t: string, word: string)
    ensures HasSuffix(t, word) <==> EndsWith(t, word)
  {
    if HasSuffix(t, word) {
      assert t[|t| - |word|..] == word;
    }
  }

  /** The types of urgent events, malware and web attacks apart. */
  ghost predicate IsUrgentType(t: string) {
    || Has(t, "brute") || Has(t, "ban")
    || EndsWith(t, "_failed") || EndsWith(t, "_rolled_back") || EndsWith(t, "_after_update")
    || "quarantine_" <= t || "firewall_" <= t || "virtual_patch_" <= t || "trust_token_" <= t || "update_" <= t
  }

  /**
   * Exactly these are urgent: critical events, those of a type that mentions brute or ban, that failed, was rolled
   * back or came after an update, of the quarantine, firewall, virtual patch, trust token or update types, malware
   * other than the progress of a scan, and severe attacks from an address with their source.
   */
  lemma UrgentIff(e: Event)
    ensures var t := e.Type();
            UrgentEvent(e) <==>
              || e.Severity() == "critical"
              || IsUrgentType(t)
              || ("malware_" <= t && t != "malware_scan_started" && t != "malware_scan_progress")
              || (&& !("malware_" <= t) && e.Severity() == "high" && e.FromAddress()
                  && (e.Detail("source") == "modsecurity" || e.Detail("domain") != "" || e.Detail("uri") != ""))
  {
    hide HasSuffix, Contains;
    var t := e.Type();
    ContainsIff(t, "brute");
    ContainsIff(t, "ban");
    SuffixIff(t, "_failed");
    SuffixIff(t, "_rolled_back");
    SuffixIff(t, "_after_update");
  }

  lemma StartsOtherwise(t: string)
    requires t != [] && t[0] == 'e'
    ensures !UrgentPrefix(t) && !HasPrefix(t, "malware_")
  {
    assert "quarantine_"[0] == 'q' && "firewall_"[0] == 'f' && "virtual_patch_"[0] == 'v';
    assert "trust_token_"[0] == 't' && "update_"[0] == 'u' && "malware_"[0] == 'm';
  }

  lemma EndsOtherwise(t: string)
    requires t != [] && t[|t| - 1] == 'w'
    ensures !UrgentSuffix(t)
  {
    assert "_failed"[6] == 'd' && "_rolled_back"[11] == 'k' && "_after_update"[12] == 'e';
  }

  /** The queue enters its own warning as not urgent; the classification of its type agrees. */
  lemma OverflowIsNotUrgent(dropped: nat, refused: nat, since: int)
    ensures !UrgentEvent(Overflow(dropped, refused, since))
  {
    var t := Overflow(dropped, refused, since).Type();
    assert t[0] == 'e' && t[|t| - 1] == 'w';
    StartsOtherwise(t);
    EndsOtherwise(t);
    NoSubstring(t, "brute", 'b');
    NoSubstring(t, "ban", 'b');
  }

  lemma {:induction false} NoSubstring(s: string, p: string, first: char)
    requires p != [] && p[0] == first && first !in s
    ensures !Contains(s, p)
  {
    if s != [] {
      assert s[0] in s;
      assert forall c | c in s[1..] :: c in s;
      NoSubstring(s[1..], p, first);
    }
  }

  datatype Queued = Queued(ev: Event, urgent: bool, size: nat, at: int)

  /** An entry carries the classification and the estimate of its own event. */
  predicate Faithful(q: Queued) {
    q.urgent == UrgentEvent(q.ev) && q.size == q.ev.Size()
  }

  function Bytes(q: seq<Queued>): nat {
    if q == [] then 0 else q[0].size + Bytes(q[1..])
  }

  /** The urgent entries, or the others, in their order. */
  function Select(q: seq<Queued>, urgent: bool): (r: seq<Queued>) {
    if q == [] then []
    else if q[0].urgent == urgent then [q[0]] + Select(q[1..], urgent)
    else Select(q[1..], urgent)
  }

  function Urgents(q: seq<Queued>): seq<Queued> {
    Select(q, true)
  }

  function Normals(q: seq<Queued>): seq<Queued> {
    Select(q, false)
  }

  lemma {:induction false} SelectConcat(a: seq<Queued>, b: seq<Queued>, urgent: bool)
    ensures Select(a + b, urgent) == Select(a, urgent) + Select(b, urgent)
  {
    if a == [] {
      assert a + b == b;
    } else {
      SelectConcat(a[1..], b, urgent);
      assert (a + b)[0] == a[0] && (a + b)[1..] == a[1..] + b;
      if a[0].urgent == urgent {
        ConcatAssoc([a[0]], Select(a[1..], urgent), Select(b, urgent));
      }
    }
  }

  function Events(q: seq<Queued>): (r: seq<Event>)
    ensures |r| == |q|
  {
    if q == [] then [] else [q[0].ev] + Events(q[1..])
  }

  /** The next event of size fits as it is. */
  predicate Fits(q: seq<Queued>, size: nat) {
    |q| < EVENT_QUEUE_MAX && Bytes(q) + size <= EVENT_QUEUE_BYTES
  }

  /** The reduced budgets: EVENT_DROP_CHUNK entries and a tenth of the bytes are free. */
  predicate Room(q: seq<Queued>, size: nat) {
    |q| <= EVENT_QUEUE_MAX - EVENT_DROP_CHUNK && Bytes(q) + size <= EVENT_KEEP_BYTES
  }

  /** q without its oldest non-urgent entry, or without its oldest entry when all are urgent. */
  function DropNext(q: seq<Queued>): (r: seq<Queued>)
    requires q != []
    ensures |r| == |q| - 1
  {
    if !q[0].urgent || Normals(q) == [] then q[1..]
    else
      assert Normals(q[1..]) != [];
      [q[0]] + DropNext(q[1..])
  }

  function DropTimes(q: seq<Queued>, k: nat): (r: seq<Queued>)
    requires k <= |q|
    ensures |r| == |q| - k
    decreases k
  {
    if k == 0 then q else DropTimes(DropNext(q), k - 1)
  }

  /** The fewest such drops that leave the reduced budgets satisfied, everything if none does. */
  function Squeeze(q: seq<Queued>, size: nat): (r: seq<Queued>)
    ensures |r| <= |q|
    decreases |q|
  {
    if q == [] || Room(q, size) then q else Squeeze(DropNext(q), size)
  }

  function MadeRoom(q: seq<Queued>, size: nat): seq<Queued> {
    if Fits(q, size) then q else Squeeze(q, size)
  }

  lemma {:induction false} BytesConcat(a: seq<Queued>, b: seq<Queued>)
    ensures Bytes(a + b) == Bytes(a) + Bytes(b)
  {
    if a == [] {
      assert a + b == b;
    } else {
      BytesConcat(a[1..], b);
      assert (a + b)[1..] == a[1..] + b;
    }
  }

  lemma {:induction false} EventsConcat(a: seq<Queued>, b: seq<Queued>)
    ensures Events(a + b) == Events(a) + Events(b)
  {
    if a == [] {
      assert a + b == b;
    } else {
      EventsConcat(a[1..], b);
      assert (a + b)[0] == a[0] && (a + b)[1..] == a[1..] + b;
      ConcatAssoc([a[0].ev], Events(a[1..]), Events(b));
    }
  }

  lemma {:induction false} EventsSubseq(a: seq<Queued>, b: seq<Queued>)
    requires Subseq(a, b)
    ensures Subseq(Events(a), Events(b))
    decreases |b|
  {
    if a != [] {
      if a[0] == b[0] {
        EventsSubseq(a[1..], b[1..]);
      } else {
        EventsSubseq(a, b[1..]);
        if Events(a)[0] == Events(b)[0] {
          SubseqWeaken(Events(a), Events(b[1..]));
        }
      }
    }
  }

  /** One drop takes the first non-urgent entry, or the first entry when there is no other. */
  lemma {:induction false} DropNextTakes(q: seq<Queued>)
    requires q != []
    ensures Subseq(DropNext(q), q)
    ensures Normals(q) != [] ==> Normals(DropNext(q)) == Normals(q)[1..] && Urgents(DropNext(q)) == Urgents(q)
    ensures Normals(q) == [] ==> Normals(DropNext(q)) == [] && Urgents(DropNext(q)) == Urgents(q)[1..]
    ensures Bytes(DropNext(q)) <= Bytes(q)
  {
    SubseqRefl(q[1..]);
    SubseqRefl(q);
    SubseqWeaken(q, q);
    if q[0].urgent && Normals(q) != [] {
      assert Normals(q[1..]) != [];
      DropNextTakes(q[1..]);
    }
  }

  predicate IsSuffix<T(==)>(a: seq<T>, b: seq<T>) {
    |a| <= |b| && a == b[|b| - |a|..]
  }

  lemma {:induction false} SqueezeKeepsOrder(q: seq<Queued>, size: nat)
    ensures Subseq(Squeeze(q, size), q)
    ensures Squeeze(q, size) == [] || Room(Squeeze(q, size), size)
    decreases |q|
  {
    SubseqRefl(q);
    if q != [] && !Room(q, size) {
      DropNextTakes(q);
      SqueezeKeepsOrder(DropNext(q), size);
      SubseqTrans(Squeeze(q, size), DropNext(q), q);
    }
  }

  lemma {:induction false} SqueezeTakesOldest(q: seq<Queued>, size: nat)
    ensures IsSuffix(Normals(Squeeze(q, size)), Normals(q))
    ensures IsSuffix(Urgents(Squeeze(q, size)), Urgents(q))
    ensures Urgents(Squeeze(q, size)) != Urgents(q) ==> Normals(Squeeze(q, size)) == []
    decreases |q|
  {
    if q != [] && !Room(q, size) {
      DropNextTakes(q);
      SplitByUrgency(q);
      SqueezeTakesOldest(DropNext(q), size);
    }
  }

  lemma {:induction false} SqueezeIsMinimal(q: seq<Queued>, size: nat, j: nat)
    requires j < |q| - |Squeeze(q, size)|
    ensures !Room(DropTimes(q, j), size)
    decreases |q|
  {
    if j > 0 {
      SqueezeIsMinimal(DropNext(q), size, j - 1);
    }
  }

  lemma {:induction false} SplitByUrgency(q: seq<Queued>)
    ensures |Normals(q)| + |Urgents(q)| == |q|
  {
    if q != [] {
      SplitByUrgency(q[1..]);
    }
  }

  /**
   * makeRoom drops the right events: an oldest-first prefix of the non-urgent ones, urgent ones only when
   * no other is left, the survivors in their order.
   */
  lemma MakeRoomDropsTheRightEvents(q: seq<Queued>, size: nat)
    ensures Subseq(MadeRoom(q, size), q)
    ensures IsSuffix(Normals(MadeRoom(q, size)), Normals(q))
    ensures IsSuffix(Urgents(MadeRoom(q, size)), Urgents(q))
    ensures Urgents(MadeRoom(q, size)) != Urgents(q) ==> Normals(MadeRoom(q, size)) == []
  {
    SubseqRefl(q);
    SqueezeKeepsOrder(q, size);
    SqueezeTakesOldest(q, size);
  }

  /**
   * makeRoom drops no more than needed, and nothing while the new event fits. Past that the reduced
   * budgets are satisfied exactly when the new event itself fits in the reduced byte budget.
   */
  lemma MakeRoomDropsEnoughAndNoMore(q: seq<Queued>, size: nat)
    ensures Fits(q, size) ==> MadeRoom(q, size) == q
    ensures !Fits(q, size) ==> (Room(MadeRoom(q, size), size) <==> size <= EVENT_KEEP_BYTES)
    ensures forall j: nat | j < |q| - |MadeRoom(q, size)| :: !Room(DropTimes(q, j), size)
    ensures !Fits(q, size) ==> MadeRoom(q, size) == DropTimes(q, |q| - |MadeRoom(q, size)|)
  {
    SqueezeKeepsOrder(q, size);
    SqueezeIsDropTimes(q, size);
    forall j: nat | j < |q| - |MadeRoom(q, size)|
      ensures !Room(DropTimes(q, j), size)
    {
      SqueezeIsMinimal(q, size, j);
    }
  }

  lemma {:induction false} SqueezeIsDropTimes(q: seq<Queued>, size: nat)
    ensures Squeeze(q, size) == DropTimes(q, |q| - |Squeeze(q, size)|)
    decreases |q|
  {
    if q != [] && !Room(q, size) {
      SqueezeIsDropTimes(DropNext(q), size);
    }
  }

  /** What is left of q when the entries marked in drop are taken out. */
  function Kept(q: seq<Queued>, drop: seq<bool>): seq<Queued>
    requires |q| == |drop|
  {
    if q == [] then [] else (if drop[0] then [] else [q[0]]) + Kept(q[1..], drop[1..])
  }

  lemma {:induction false} KeptSplit(q: seq<Queued>, drop: seq<bool>, i: nat)
    requires |q| == |drop| && i <= |q|
    ensures Kept(q, drop) == Kept(q[..i], drop[..i]) + Kept(q[i..], drop[i..])
  {
    if i > 0 {
      KeptSplit(q[1..], drop[1..], i - 1);
      assert q[..i][1..] == q[1..][..i - 1] && drop[..i][1..] == drop[1..][..i - 1];
      assert q[1..][i - 1..] == q[i..] && drop[1..][i - 1..] == drop[i..];
    } else {
      assert q[0..] == q && drop[0..] == drop;
    }
  }

  lemma {:induction false} KeptAll(q: seq<Queued>, drop: seq<bool>)
    requires |q| == |drop| && forall i | 0 <= i < |drop| :: !drop[i]
    ensures Kept(q, drop) == q
  {
    if q != [] {
      KeptAll(q[1..], drop[1..]);
    }
  }

  /** Removing one more entry: the first non-urgent one behind urgent ones, or the very first. */
  lemma {:induction false} DropNextAt(a: seq<Queued>, x: Queued, b: seq<Queued>)
    requires Normals(a) == []
    requires !x.urgent || (a == [] && Normals(b) == [])
    ensures DropNext(a + [x] + b) == a + b
    ensures Bytes(a + [x] + b) == Bytes(a + b) + x.size
  {
    var s := a + [x] + b;
    if a == [] {
      assert s[1..] == b && a + b == b && s[0] == x;
    } else {
      DropNextAt(a[1..], x, b);
      assert s[1..] == a[1..] + [x] + b && s[0] == a[0];
      assert (a + b)[1..] == a[1..] + b;
      SelectConcat(a, [x] + b, false);
      assert s == a + ([x] + b);
    }
  }

  /** Around one position: what is kept before it, of it, and after it. */
  lemma KeptAround(q: seq<Queued>, drop: seq<bool>, i: nat)
    requires |q| == |drop| && i < |q|
    ensures Kept(q[..i + 1], drop[..i + 1]) == Kept(q[..i], drop[..i]) + (if drop[i] then [] else [q[i]])
    ensures Kept(q, drop) == Kept(q[..i + 1], drop[..i + 1]) + Kept(q[i + 1..], drop[i + 1..])
  {
    KeptSplit(q, drop, i + 1);
    KeptSplit(q[..i + 1], drop[..i + 1], i);
    assert q[..i + 1][..i] == q[..i] && drop[..i + 1][..i] == drop[..i];
    assert q[..i + 1][i..] == [q[i]] && drop[..i + 1][i..] == [drop[i]];
  }

  lemma KeptMark(q: seq<Queued>, drop: seq<bool>, i: nat)
    requires |q| == |drop| && i < |q| && !drop[i]
    ensures var a, b := Kept(q[..i], drop[..i]), Kept(q[i + 1..], drop[i + 1..]);
            && Kept(q, drop) == a + [q[i]] + b
            && Kept(q, drop[i := true]) == a + b
            && Kept(q[..i + 1], drop[..i + 1]) == a + [q[i]]
            && Kept(q[..i + 1], drop[i := true][..i + 1]) == a
  {
    var marked := drop[i := true];
    KeptAround(q, drop, i);
    KeptAround(q, marked, i);
    assert marked[..i] == drop[..i] && marked[i + 1..] == drop[i + 1..];
  }

  /** Marking one more entry, by the rule of its pass. */
  lemma MarkStep(q: seq<Queued>, drop: seq<bool>, i: nat, urgentToo: bool)
    requires |q| == |drop| && i < |q| && !drop[i]
    requires Normals(Kept(q[..i], drop[..i])) == []
    requires urgentToo ==> Kept(q[..i], drop[..i]) == [] && Normals(Kept(q, drop)) == []
    ensures urgentToo || !q[i].urgent ==>
              && Kept(q, drop) != []
              && Kept(q, drop[i := true]) == DropNext(Kept(q, drop))
              && Bytes(Kept(q, drop)) == Bytes(Kept(q, drop[i := true])) + q[i].size
              && Kept(q[..i + 1], drop[i := true][..i + 1]) == Kept(q[..i], drop[..i])
              && (urgentToo ==> Normals(Kept(q, drop[i := true])) == [])
    ensures q[i].urgent ==> Normals(Kept(q[..i + 1], drop[..i + 1])) == []
  {
    var a, c := Kept(q[..i], drop[..i]), Kept(q[i + 1..], drop[i + 1..]);
    KeptMark(q, drop, i);
    SelectConcat(a, [q[i]], false);
    SelectConcat(a + [q[i]], c, false);
    SelectConcat(a, c, false);
    assert q[i].urgent ==> Normals([q[i]]) == [] by { assert [q[i]][1..] == []; }
    if urgentToo || !q[i].urgent {
      DropNextAt(a, q[i], c);
    }
  }

  /** The budgets as the loops track them: n entries and b bytes left. */
  predicate Full(n: nat, b: nat, size: nat) {
    n > EVENT_QUEUE_MAX - EVENT_DROP_CHUNK || b + size > EVENT_KEEP_BYTES
  }

  /**
   * One pass over the queue: it marks entries, oldest first and only non-urgent ones unless urgentToo,
   * and stops as soon as the reduced budgets hold.
   */
  method MarkPass(q: seq<Queued>, size: nat, drop0: seq<bool>, n0: nat, b0: nat, urgentToo: bool)
    returns (drop: seq<bool>, n: nat, b: nat)
    requires |drop0| == |q| && n0 == |Kept(q, drop0)| && b0 == Bytes(Kept(q, drop0))
    requires !urgentToo ==> forall k | 0 <= k < |q| :: !drop0[k]
    requires urgentToo ==> Normals(Kept(q, drop0)) == []
    ensures |drop| == |q| && n == |Kept(q, drop)| && b == Bytes(Kept(q, drop))
    ensures Squeeze(Kept(q, drop), size) == Squeeze(Kept(q, drop0), size)
    ensures Room(Kept(q, drop), size) || (if urgentToo then Kept(q, drop) else Normals(Kept(q, drop))) == []
  {
    drop, n, b := drop0, n0, b0;
    var i := 0;
    while i < |q| && Full(n, b, size)
      invariant 0 <= i <= |q| && |drop| == |q|
      invariant n == |Kept(q, drop)| && b == Bytes(Kept(q, drop))
      invariant Squeeze(Kept(q, drop), size) == Squeeze(Kept(q, drop0), size)
      invariant Normals(Kept(q[..i], drop[..i])) == []
      invariant !urgentToo ==> forall k | i <= k < |q| :: !drop[k]
      invariant urgentToo ==> Kept(q[..i], drop[..i]) == [] && Normals(Kept(q, drop)) == []
    {
      if drop[i] {
        KeptAround(q, drop, i);
      } else {
        MarkStep(q, drop, i, urgentToo);
        if urgentToo || !q[i].urgent {
          drop, n, b := drop[i := true], n - 1, b - q[i].size;
        }
      }
      i := i + 1;
    }
    if i == |q| {
      assert q[..i] == q && drop[..i] == drop;
    }
  }

  /** The choice of makeRoom when the queue is full: first non-urgent entries, then any. */
  method ChooseDrops(q: seq<Queued>, bytes: nat, size: nat) returns (drop: seq<bool>, left: nat)
    requires bytes == Bytes(q)
    ensures |drop| == |q|
    ensures Kept(q, drop) == Squeeze(q, size)
    ensures left == Bytes(Squeeze(q, size))
  {
    drop := seq(|q|, i => false);
    KeptAll(q, drop);
    var n;
    drop, n, left := MarkPass(q, size, drop, |q|, bytes, false);
    if Full(n, left, size) {
      drop, n, left := MarkPass(q, size, drop, n, left, true);
    }
  }
}
