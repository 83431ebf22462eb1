/**
 * Country networks without the addresses that must not be blocked (internal/firewall/geoblock.go): a
 * network that holds such an address is split into the smaller networks around it.
 */
module GeoSplit {
  import opened Arithmetic
  import Sequences

  const ADDRESSES := 0x1_0000_0000

  /** The IPv4 network base/ones. */
  datatype Network = Network(base: nat, ones: nat)
  {
    function Size(): nat
      requires ones <= 32
    {
      Pow2(32 - ones)
    }

    /** What parsing a network leaves: a prefix of at most 32 bits with the host bits zero. */
    predicate WellFormed() {
      ones <= 32 && base % Size() == 0 && base + Size() <= ADDRESSES
    }

    /** The membership test of inNet. */
    predicate Holds(a: nat)
      requires ones <= 32
    {
      base <= a < base + Size()
    }
  }

  type Net = n: Network | n.WellFormed() witness WholeSpace()

  function WholeSpace(): (n: Network)
    ensures n.WellFormed()
  {
    AllAddresses();
    Network(0, 0)
  }

  lemma AllAddresses()
    ensures Pow2(32) == ADDRESSES
  {
    assert Pow2(10) == 1024;
    assert Pow2(20) == 1024 * 1024;
    assert Pow2(30) == 1024 * 1024 * 1024;
  }

  predicate Hit(n: Net, ex: set<nat>) {
    exists a | a in ex :: n.Holds(a)
  }

  /** A multiple of h leaves no remainder: the quotient of k * h is k. */
  lemma MultipleMod(m: nat, k: nat, h: nat)
    requires h > 0 && m == k * h
    ensures m % h == 0
  {
    var q, r := m / h, m % h;
    assert m == q * h + r && (q + 1) * h == q * h + h && (k + 1) * h == k * h + h;
    if q < k {
      MulAtLeast(k, q + 1, h);
    } else if q > k {
      MulAtLeast(q, k + 1, h);
    }
  }

  /** The lower bound of the second half is a multiple of the half when the network is of the whole. */
  lemma HalfMultiples(base: nat, h: nat)
    requires h > 0 && base % (2 * h) == 0
    ensures base % h == 0 && (base + h) % h == 0
  {
    var k := base / (2 * h);
    assert base == (2 * h) * k;
    assert (2 * h) * k == (2 * k) * h;
    assert (2 * k + 1) * h == (2 * k) * h + h;
    MultipleMod(base, 2 * k, h);
    MultipleMod(base + h, 2 * k + 1, h);
  }

  /** Both halves of a network are networks; the 32-bit sum of the source does not wrap. */
  lemma HalvesAreNetworks(n: Net)
    requires n.ones < 32
    ensures var h := Pow2(31 - n.ones);
            && n.Size() == 2 * h
            && Network(n.base, n.ones + 1).WellFormed()
            && (n.base + h) % ADDRESSES == n.base + h
            && Network(n.base + h, n.ones + 1).WellFormed()
  {
    HalfMultiples(n.base, Pow2(31 - n.ones));
  }

  function Lower(n: Net): Net
    requires n.ones < 32
  {
    HalvesAreNetworks(n);
    Network(n.base, n.ones + 1)
  }

  function Upper(n: Net): Net
    requires n.ones < 32
  {
    HalvesAreNetworks(n);
    Network((n.base + Pow2(31 - n.ones)) % ADDRESSES, n.ones + 1)
  }

  /** appendWithout: the network, split around the addresses in ex, joins the end of out. */
  function AppendWithout(out: seq<Net>, n: Net, ex: set<nat>): seq<Net>
    decreases 32 - n.ones
  {
    if !Hit(n, ex) then out + [n]
    else if n.ones == 32 then out
    else AppendWithout(AppendWithout(out, Lower(n), ex), Upper(n), ex)
  }

  /** The pieces of one network. */
  function Pieces(n: Net, ex: set<nat>): seq<Net>
    decreases 32 - n.ones
  {
    if !Hit(n, ex) then [n]
    else if n.ones == 32 then []
    else Pieces(Lower(n), ex) + Pieces(Upper(n), ex)
  }

  lemma {:induction false} AppendsPieces(out: seq<Net>, n: Net, ex: set<nat>)
    ensures AppendWithout(out, n, ex) == out + Pieces(n, ex)
    decreases 32 - n.ones
  {
    if Hit(n, ex) && n.ones < 32 {
      var low, high := Pieces(Lower(n), ex), Pieces(Upper(n), ex);
      AppendsPieces(out, Lower(n), ex);
      AppendsPieces(out + low, Upper(n), ex);
      Sequences.ConcatAssoc(out, low, high);
    }
  }

  predicate Covers(ns: seq<Net>, a: nat) {
    exists i | 0 <= i < |ns| :: ns[i].Holds(a)
  }

  lemma CoversConcat(x: seq<Net>, y: seq<Net>, a: nat)
    ensures Covers(x + y, a) <==> Covers(x, a) || Covers(y, a)
  {
    forall i | 0 <= i < |x| && x[i].Holds(a)
      ensures Covers(x + y, a)
    {
      assert (x + y)[i] == x[i];
    }
    forall i | 0 <= i < |y| && y[i].Holds(a)
      ensures Covers(x + y, a)
    {
      assert (x + y)[|x| + i] == y[i];
    }
  }

  lemma HalvesSplit(n: Net, a: nat)
    requires n.ones < 32
    ensures n.Holds(a) <==> Lower(n).Holds(a) || Upper(n).Holds(a)
    ensures !(Lower(n).Holds(a) && Upper(n).Holds(a))
    ensures Upper(n).base == n.base + Pow2(31 - n.ones)
    ensures n.Size() == 2 * Pow2(31 - n.ones)
  {
    HalvesAreNetworks(n);
  }

  /** Excluding is exact: the pieces cover the network's addresses other than those in ex, and no others. */
  lemma {:induction false} PiecesCoverExactly(n: Net, ex: set<nat>, a: nat)
    ensures Covers(Pieces(n, ex), a) <==> n.Holds(a) && a !in ex
    decreases 32 - n.ones
  {
    if !Hit(n, ex) {
      assert Pieces(n, ex)[0] == n;
    } else if n.ones == 32 {
      var hit :| hit in ex && n.Holds(hit);
    } else {
      PiecesCoverExactly(Lower(n), ex, a);
      PiecesCoverExactly(Upper(n), ex, a);
      CoversConcat(Pieces(Lower(n), ex), Pieces(Upper(n), ex), a);
      HalvesSplit(n, a);
    }
  }

  predicate Within(m: Net, n: Net) {
    n.base <= m.base && m.base + m.Size() <= n.base + n.Size()
  }

  predicate Before(m: Net, n: Net) {
    m.base + m.Size() <= n.base
  }

  /** The pieces lie inside the network, in ascending order without overlap. */
  lemma {:induction false} PiecesAreDisjoint(n: Net, ex: set<nat>)
    ensures forall i | 0 <= i < |Pieces(n, ex)| :: Within(Pieces(n, ex)[i], n) && n.ones <= Pieces(n, ex)[i].ones
    ensures forall i, j | 0 <= i < j < |Pieces(n, ex)| :: Before(Pieces(n, ex)[i], Pieces(n, ex)[j])
    decreases 32 - n.ones
  {
    if Hit(n, ex) && n.ones < 32 {
      PiecesAreDisjoint(Lower(n), ex);
      PiecesAreDisjoint(Upper(n), ex);
      HalvesSplit(n, n.base);
      OrderedConcat(Pieces(Lower(n), ex), Pieces(Upper(n), ex), n);
    }
  }

  lemma OrderedConcat(low: seq<Net>, high: seq<Net>, n: Net)
    requires n.ones < 32
    requires forall i | 0 <= i < |low| :: Within(low[i], Lower(n)) && n.ones < low[i].ones
    requires forall i | 0 <= i < |high| :: Within(high[i], Upper(n)) && n.ones < high[i].ones
    requires forall i, j | 0 <= i < j < |low| :: Before(low[i], low[j])
    requires forall i, j | 0 <= i < j < |high| :: Before(high[i], high[j])
    ensures var all := low + high;
            && (forall i | 0 <= i < |all| :: Within(all[i], n) && n.ones <= all[i].ones)
            && (forall i, j | 0 <= i < j < |all| :: Before(all[i], all[j]))
  {
    HalvesSplit(n, n.base);
    var all := low + high;
    forall i, j | 0 <= i < j < |all|
      ensures Before(all[i], all[j])
    {
      if i < |low| && j >= |low| {
        assert Within(low[i], Lower(n)) && Within(high[j - |low|], Upper(n));
      }
    }
  }

  /** p and s are the two halves of u. */
  predicate Halves(u: Net, p: Net, s: Net) {
    u.ones < 32 && ((p == Lower(u) && s == Upper(u)) || (p == Upper(u) && s == Lower(u)))
  }

  /** No piece could be larger: it is the whole network, or an address of ex lies in its sibling block. */
  lemma {:induction false} PiecesHaveHitSiblings(n: Net, ex: set<nat>, i: nat)
    requires i < |Pieces(n, ex)|
    ensures Pieces(n, ex)[i] == n || exists u: Net, s: Net :: Halves(u, Pieces(n, ex)[i], s) && Hit(s, ex)
    decreases 32 - n.ones
  {
    if Hit(n, ex) {
      var low := Pieces(Lower(n), ex);
      var hit :| hit in ex && n.Holds(hit);
      HalvesSplit(n, hit);
      if i < |low| {
        PiecesHaveHitSiblings(Lower(n), ex, i);
        if low[i] == Lower(n) {
          WholeMeansNoHit(Lower(n), ex, i);
          assert Halves(n, Lower(n), Upper(n)) && Hit(Upper(n), ex);
        }
      } else {
        PiecesHaveHitSiblings(Upper(n), ex, i - |low|);
        if Pieces(Upper(n), ex)[i - |low|] == Upper(n) {
          WholeMeansNoHit(Upper(n), ex, i - |low|);
          assert Halves(n, Upper(n), Lower(n)) && Hit(Lower(n), ex);
        }
      }
    }
  }

  lemma WholeMeansNoHit(n: Net, ex: set<nat>, i: nat)
    requires i < |Pieces(n, ex)| && Pieces(n, ex)[i] == n
    ensures !Hit(n, ex)
  {
    forall hit | hit in ex && n.Holds(hit)
      ensures false
    {
      HoldsCovers(Pieces(n, ex), i, hit);
      PiecesCoverExactly(n, ex, hit);
    }
  }

  lemma HoldsCovers(ns: seq<Net>, i: nat, a: nat)
    requires i < |ns| && ns[i].Holds(a)
    ensures Covers(ns, a)
  {
  }

  predicate Avoids(m: Net, n: Net, ex: set<nat>) {
    Within(m, n) && !Hit(m, ex)
  }

  lemma MultiplesApart(x: nat, y: nat, h: nat)
    requires h > 0 && x % h == 0 && y % h == 0 && x < y
    ensures x + h <= y
  {
    var p, q := x / h, y / h;
    assert x == p * h && y == q * h;
    if q <= p {
      MulAtLeast(p, q, h);
    }
    MulAtLeast(q, p + 1, h);
    assert (p + 1) * h == p * h + h;
  }

  lemma {:induction false} PowerSum(a: nat, b: nat)
    ensures Pow2(a + b) == Pow2(a) * Pow2(b)
  {
    if a > 0 {
      PowerSum(a - 1, b);
      DoubleProduct(Pow2(a - 1), Pow2(b));
    }
  }

  lemma DoubleProduct(x: nat, y: nat)
    ensures (2 * x) * y == 2 * (x * y)
  {
  }

  lemma {:induction false} LargerIsLarger(big: nat, small: nat)
    requires big <= small <= 32
    ensures Pow2(32 - big) >= Pow2(32 - small)
    decreases small - big
  {
    if big < small {
      LargerIsLarger(big + 1, small);
    }
  }

  lemma MultipleOfMultiple(x: nat, h: nat, k: nat, g: nat)
    requires g > 0 && k > 0 && h == k * g && x % h == 0
    ensures x % g == 0
  {
    var q := x / h;
    assert x == h * q;
    assert h * q == (q * k) * g;
    MultipleMod(x, q * k, g);
  }

  /** Networks nest: one that lies in a network is the network or lies in one of its halves. */
  lemma InAHalf(m: Net, n: Net)
    requires Within(m, n) && m != n
    ensures n.ones < 32 && (Within(m, Lower(n)) || Within(m, Upper(n)))
  {
    SmallerInside(m, n);
    HalvesSplit(n, n.base);
    if m.base < Upper(n).base {
      EndsByMiddle(m, n);
    }
  }

  lemma SmallerInside(m: Net, n: Net)
    requires Within(m, n) && m != n
    ensures n.ones < m.ones
  {
    if m.ones <= n.ones {
      LargerIsLarger(m.ones, n.ones);
      if m.ones < n.ones {
        LargerIsLarger(m.ones + 1, n.ones);
      }
    }
  }

  /** A smaller network that starts in the first half ends in it. */
  lemma EndsByMiddle(m: Net, n: Net)
    requires n.ones < m.ones && m.base < Upper(n).base
    ensures m.base + m.Size() <= Upper(n).base
  {
    var mid, h := Upper(n).base, m.Size();
    PowerSum(m.ones - n.ones - 1, 32 - m.ones);
    MultipleOfMultiple(mid, Pow2(31 - n.ones), Pow2(m.ones - n.ones - 1), h);
    MultiplesApart(m.base, mid, h);
  }

  predicate Inside(m: Net, ps: seq<Net>) {
    exists t | 0 <= t < |ps| :: Within(m, ps[t])
  }

  lemma InsideConcat(m: Net, a: seq<Net>, b: seq<Net>)
    requires Inside(m, a) || Inside(m, b)
    ensures Inside(m, a + b)
  {
    if Inside(m, a) {
      var t :| 0 <= t < |a| && Within(m, a[t]);
      assert Within(m, (a + b)[t]);
    } else {
      var t :| 0 <= t < |b| && Within(m, b[t]);
      assert Within(m, (a + b)[|a| + t]);
    }
  }

  /** Maximality: any network inside n that avoids ex lies in one of the pieces. */
  lemma {:induction false} PiecesAreMaximal(n: Net, ex: set<nat>, m: Net)
    requires Avoids(m, n, ex)
    ensures Inside(m, Pieces(n, ex))
    decreases 32 - n.ones
  {
    if !Hit(n, ex) {
      assert Within(m, Pieces(n, ex)[0]);
    } else {
      InAHalf(m, n);
      if Within(m, Lower(n)) {
        PiecesAreMaximal(Lower(n), ex, m);
      } else {
        PiecesAreMaximal(Upper(n), ex, m);
      }
      InsideConcat(m, Pieces(Lower(n), ex), Pieces(Upper(n), ex));
    }
  }

  // ---- how many pieces

  /** The addresses of ex in the network. */
  function Hits(n: Net, ex: set<nat>): set<nat> {
    set a | a in ex && n.Holds(a)
  }

  lemma HitsSplit(n: Net, ex: set<nat>)
    requires n.ones < 32
    ensures |Hits(n, ex)| == |Hits(Lower(n), ex)| + |Hits(Upper(n), ex)|
  {
    forall a | a in ex
      ensures a in Hits(n, ex) <==> a in Hits(Lower(n), ex) + Hits(Upper(n), ex)
      ensures !(a in Hits(Lower(n), ex) && a in Hits(Upper(n), ex))
    {
      HalvesSplit(n, a);
    }
    assert Hits(n, ex) == Hits(Lower(n), ex) + Hits(Upper(n), ex);
    assert Hits(Lower(n), ex) !! Hits(Upper(n), ex);
  }

  /** p pieces for h addresses in a network with d host bits. */
  predicate FewPieces(p: nat, h: nat, d: nat) {
    if h == 0 then p == 1 else p <= h * d
  }

  lemma CountStep(h1: nat, h2: nat, d: nat, p1: nat, p2: nat)
    requires h1 + h2 > 0 && FewPieces(p1, h1, d) && FewPieces(p2, h2, d)
    ensures FewPieces(p1 + p2, h1 + h2, d + 1)
  {
    assert (h1 + h2) * (d + 1) == h1 * d + h2 * d + h1 + h2;
  }

  /** A /k network that holds h > 0 of the addresses yields at most h * (32 - k) pieces; otherwise one. */
  lemma {:induction false} PieceCount(n: Net, ex: set<nat>)
    ensures FewPieces(|Pieces(n, ex)|, |Hits(n, ex)|, 32 - n.ones)
    decreases 32 - n.ones
  {
    if !Hit(n, ex) {
      assert Hits(n, ex) == {};
    } else {
      var hit :| hit in ex && n.Holds(hit);
      assert hit in Hits(n, ex);
      if n.ones < 32 {
        PieceCount(Lower(n), ex);
        PieceCount(Upper(n), ex);
        HitsSplit(n, ex);
        CountStep(|Hits(Lower(n), ex)|, |Hits(Upper(n), ex)|, 31 - n.ones,
                  |Pieces(Lower(n), ex)|, |Pieces(Upper(n), ex)|);
      }
    }
  }

  // ---- no other list of networks is shorter

  predicate Distinct(s: seq<nat>) {
    forall i, j | 0 <= i < j < |s| :: s[i] != s[j]
  }

  lemma {:induction false} Pigeonhole(s: seq<nat>, n: nat)
    requires Distinct(s) && forall i | 0 <= i < |s| :: s[i] < n
    ensures |s| <= n
    decreases n
  {
    if s != [] {
      assert s[0] < n;
      if exists i :: 0 <= i < |s| && s[i] == n - 1 {
        var i :| 0 <= i < |s| && s[i] == n - 1;
        Pigeonhole(s[..i] + s[i + 1..], n - 1);
      } else {
        Pigeonhole(s, n - 1);
      }
    }
  }

  predicate Ascending(ps: seq<Net>) {
    forall i, j | 0 <= i < j < |ps| :: Before(ps[i], ps[j])
  }

  ghost predicate SameCover(ps: seq<Net>, other: seq<Net>) {
    forall a: nat :: Covers(other, a) <==> Covers(ps, a)
  }

  /** The network of another cover that holds the first address of network i. */
  ghost function Carrier(ps: seq<Net>, other: seq<Net>, i: nat): (j: nat)
    requires i < |ps| && SameCover(ps, other)
    ensures j < |other| && other[j].Holds(ps[i].base)
  {
    HoldsCovers(ps, i, ps[i].base);
    assert Covers(other, ps[i].base);
    var j: nat :| j < |other| && other[j].Holds(ps[i].base);
    j
  }

  lemma CarriersDiffer(ps: seq<Net>, other: seq<Net>, i: nat, j: nat)
    requires Ascending(ps) && SameCover(ps, other) && forall k | 0 <= k < |other| :: Inside(other[k], ps)
    requires i < j < |ps|
    ensures Carrier(ps, other, i) != Carrier(ps, other, j)
  {
    var t :| 0 <= t < |ps| && Within(other[Carrier(ps, other, i)], ps[t]);
    OnlyHolder(ps, i, t);
    OnlyHolder(ps, j, t);
  }

  /** No other network holds the first address of network i. */
  lemma OnlyHolder(ps: seq<Net>, i: nat, t: nat)
    requires Ascending(ps) && i < |ps| && t < |ps|
    ensures ps[t].Holds(ps[i].base) ==> t == i
  {
    if t < i {
      assert Before(ps[t], ps[i]);
    } else if i < t {
      assert Before(ps[i], ps[t]);
    }
  }

  /** No cover is shorter than one whose networks do not overlap and hold every network of the other. */
  lemma MaximalIsFewest(ps: seq<Net>, other: seq<Net>)
    requires Ascending(ps) && SameCover(ps, other) && forall k | 0 <= k < |other| :: Inside(other[k], ps)
    ensures |ps| <= |other|
  {
    var carriers := seq(|ps|, i requires 0 <= i < |ps| => Carrier(ps, other, i));
    forall i, j | 0 <= i < j < |carriers|
      ensures carriers[i] != carriers[j]
    {
      CarriersDiffer(ps, other, i, j);
    }
    Pigeonhole(carriers, |other|);
  }

  ghost predicate ExactCover(n: Net, ex: set<nat>, other: seq<Net>) {
    forall a: nat :: Covers(other, a) <==> n.Holds(a) && a !in ex
  }

  lemma CoverMembersAvoid(n: Net, ex: set<nat>, other: seq<Net>, j: nat)
    requires ExactCover(n, ex, other) && j < |other|
    ensures Avoids(other[j], n, ex)
  {
    var m := other[j];
    var last := m.base + m.Size() - 1;
    HoldsCovers(other, j, m.base);
    HoldsCovers(other, j, last);
    assert n.Holds(m.base) && n.Holds(last);
    forall a | a in ex
      ensures !m.Holds(a)
    {
      if m.Holds(a) {
        HoldsCovers(other, j, a);
      }
    }
  }

  /** Any other list of networks that covers exactly the same addresses is at least as long. */
  lemma PiecesAreFewest(n: Net, ex: set<nat>, other: seq<Net>)
    requires ExactCover(n, ex, other)
    ensures |Pieces(n, ex)| <= |other|
  {
    var ps := Pieces(n, ex);
    PiecesAreDisjoint(n, ex);
    forall a: nat
      ensures Covers(other, a) <==> Covers(ps, a)
    {
      PiecesCoverExactly(n, ex, a);
    }
    forall k | 0 <= k < |other|
      ensures Inside(other[k], ps)
    {
      CoverMembersAvoid(n, ex, other, k);
      PiecesAreMaximal(n, ex, other[k]);
    }
    MaximalIsFewest(ps, other);
  }

  // ---- a whole country list

  /** An entry of the list: an IPv4 network, or text that is not one and stays as it is. */
  datatype Entry = V4(net: Net) | Other(text: string)

  /** The result of parsing an exempt address: its IPv4 form, if it has one. */
  datatype Address = IPv4(a: nat) | NotIPv4

  function Exempt(ips: seq<Address>): set<nat> {
    set ip | ip in ips && ip.IPv4? :: ip.a
  }

  function Entries(ns: seq<Net>): seq<Entry> {
    seq(|ns|, i requires 0 <= i < |ns| => V4(ns[i]))
  }

  function WithoutAll(cidrs: seq<Entry>, ex: set<nat>): seq<Entry> {
    if cidrs == [] then []
    else WithoutAll(cidrs[..|cidrs| - 1], ex) + Left(cidrs[|cidrs| - 1], ex)
  }

  /** What is left of one entry. */
  function Left(e: Entry, ex: set<nat>): seq<Entry> {
    match e
    case V4(n) => Entries(Pieces(n, ex))
    case Other(_) => [e]
  }

  function EntryHits(e: Entry, ex: set<nat>): set<nat> {
    if e.V4? then Hits(e.net, ex) else {}
  }

  /** The addresses found, once for every network that holds them. */
  function HitCount(cidrs: seq<Entry>, ex: set<nat>): nat {
    if cidrs == [] then 0 else HitCount(cidrs[..|cidrs| - 1], ex) + |EntryHits(cidrs[|cidrs| - 1], ex)|
  }

  lemma OneMoreEntry(cidrs: seq<Entry>, i: nat, ex: set<nat>)
    requires i < |cidrs|
    ensures WithoutAll(cidrs[..i + 1], ex) == WithoutAll(cidrs[..i], ex) + Left(cidrs[i], ex)
    ensures HitCount(cidrs[..i + 1], ex) == HitCount(cidrs[..i], ex) + |EntryHits(cidrs[i], ex)|
  {
    assert cidrs[..i + 1][..i] == cidrs[..i];
  }

  /** The IPv4 addresses among the exempt ones, each once. */
  method ExemptAddrs(ips: seq<Address>) returns (ex: seq<nat>)
    ensures Distinct(ex) && forall a :: a in ex <==> a in Exempt(ips)
  {
    ex := [];
    for i := 0 to |ips|
      invariant Distinct(ex) && forall a :: a in ex <==> a in Exempt(ips[..i])
    {
      assert ips[..i + 1] == ips[..i] + [ips[i]];
      if ips[i].IPv4? && ips[i].a !in ex {
        ex := ex + [ips[i].a];
      }
    }
    assert ips[..|ips|] == ips;
  }

  /** excludeAddrs: the list without the exempt addresses, and the count it logs. */
  method ExcludeAddrs(cidrs: seq<Entry>, ips: seq<Address>) returns (out: seq<Entry>, excluded: nat)
    ensures Exempt(ips) == {} ==> out == cidrs && excluded == 0
    ensures Exempt(ips) != {} ==> out == WithoutAll(cidrs, Exempt(ips)) && excluded == HitCount(cidrs, Exempt(ips))
  {
    var ex := ExemptAddrs(ips);
    ghost var exempt := Exempt(ips);
    if |ex| == 0 {
      assert forall a :: a in exempt ==> a in ex;
      return cidrs, 0;
    }
    assert ex[0] in exempt;
    out, excluded := [], 0;
    var all := set a | a in ex;
    assert all == exempt;
    for i := 0 to |cidrs|
      invariant out == WithoutAll(cidrs[..i], exempt)
      invariant excluded == HitCount(cidrs[..i], exempt)
    {
      var c := cidrs[i];
      OneMoreEntry(cidrs, i, exempt);
      if c.Other? {
        out := out + [c];
      } else {
        var n := CountHits(ex, c.net);
        excluded := excluded + n;
        var pieces := AppendWithout([], c.net, all);
        AppendsPieces([], c.net, all);
        assert pieces == Pieces(c.net, all);
        out := out + Entries(pieces);
      }
    }
    assert cidrs[..|cidrs|] == cidrs;
  }

  method CountHits(ex: seq<nat>, n: Net) returns (count: nat)
    requires Distinct(ex)
    ensures count == |Hits(n, set a | a in ex)|
  {
    count := 0;
    ghost var found: set<nat> := {};
    for i := 0 to |ex|
      invariant count == |found|
      invariant forall a :: a in found <==> a in ex[..i] && n.Holds(a)
    {
      assert ex[..i + 1] == ex[..i] + [ex[i]];
      if n.Holds(ex[i]) {
        assert ex[i] !in found;
        count := count + 1;
        found := found + {ex[i]};
      }
    }
    assert ex[..|ex|] == ex;
    assert found == Hits(n, set a | a in ex);
  }

  ghost predicate Listed(cidrs: seq<Entry>, a: nat) {
    exists i :: 0 <= i < |cidrs| && cidrs[i].V4? && cidrs[i].net.Holds(a)
  }

  function Others(cidrs: seq<Entry>): seq<Entry> {
    if cidrs == [] then []
    else Others(cidrs[..|cidrs| - 1]) + if cidrs[|cidrs| - 1].Other? then [cidrs[|cidrs| - 1]] else []
  }

  lemma ListedConcat(x: seq<Entry>, y: seq<Entry>, a: nat)
    ensures Listed(x + y, a) <==> Listed(x, a) || Listed(y, a)
  {
    forall i | 0 <= i < |x| && x[i].V4? && x[i].net.Holds(a)
      ensures Listed(x + y, a)
    {
      assert (x + y)[i] == x[i];
    }
    forall i | 0 <= i < |y| && y[i].V4? && y[i].net.Holds(a)
      ensures Listed(x + y, a)
    {
      assert (x + y)[|x| + i] == y[i];
    }
  }

  lemma EntriesListed(ns: seq<Net>, a: nat)
    ensures Listed(Entries(ns), a) <==> Covers(ns, a)
  {
    forall i | 0 <= i < |ns| && ns[i].Holds(a)
      ensures Listed(Entries(ns), a)
    {
      assert Entries(ns)[i].net == ns[i];
    }
  }

  /** Over the whole list: an address is blocked after the exclusion iff it was and is not exempt. */
  lemma {:induction false} ExclusionIsExact(cidrs: seq<Entry>, ex: set<nat>, a: nat)
    ensures Listed(WithoutAll(cidrs, ex), a) <==> Listed(cidrs, a) && a !in ex
  {
    if cidrs != [] {
      var init, last := cidrs[..|cidrs| - 1], cidrs[|cidrs| - 1];
      assert cidrs == init + [last];
      ExclusionIsExact(init, ex, a);
      ListedConcat(init, [last], a);
      if last.V4? {
        ListedConcat(WithoutAll(init, ex), Entries(Pieces(last.net, ex)), a);
        EntriesListed(Pieces(last.net, ex), a);
        PiecesCoverExactly(last.net, ex, a);
        assert Listed([last], a) <==> last.net.Holds(a) by { assert [last][0] == last; }
      } else {
        ListedConcat(WithoutAll(init, ex), [last], a);
        assert !Listed([last], a);
      }
    }
  }

  lemma {:induction false} OthersConcat(x: seq<Entry>, y: seq<Entry>)
    ensures Others(x + y) == Others(x) + Others(y)
    decreases |y|
  {
    if y == [] {
      assert x + y == x;
    } else {
      var init := y[..|y| - 1];
      assert (x + y)[..|x + y| - 1] == x + init;
      OthersConcat(x, init);
    }
  }

  lemma {:induction false} NoOthers(es: seq<Entry>)
    requires forall i | 0 <= i < |es| :: es[i].V4?
    ensures Others(es) == []
  {
    if es != [] {
      NoOthers(es[..|es| - 1]);
    }
  }

  /** The entries that are not IPv4 networks stay, in their order. */
  lemma {:induction false} OtherEntriesStay(cidrs: seq<Entry>, ex: set<nat>)
    ensures Others(WithoutAll(cidrs, ex)) == Others(cidrs)
  {
    if cidrs != [] {
      var init, last := cidrs[..|cidrs| - 1], cidrs[|cidrs| - 1];
      OtherEntriesStay(init, ex);
      if last.V4? {
        OthersConcat(WithoutAll(init, ex), Entries(Pieces(last.net, ex)));
        NoOthers(Entries(Pieces(last.net, ex)));
      } else {
        OthersConcat(WithoutAll(init, ex), [last]);
        assert Others([last]) == [last] by { assert [last][..0] == []; }
      }
    }
  }

  /** The exempt addresses the list holds. */
  function AllHits(cidrs: seq<Entry>, ex: set<nat>): set<nat> {
    if cidrs == [] then {} else AllHits(cidrs[..|cidrs| - 1], ex) + EntryHits(cidrs[|cidrs| - 1], ex)
  }

  /** No exempt address lies in two entries of the list. */
  ghost predicate HitsOnce(cidrs: seq<Entry>, ex: set<nat>) {
    forall i, j | 0 <= i < j < |cidrs| :: EntryHits(cidrs[i], ex) !! EntryHits(cidrs[j], ex)
  }

  lemma {:induction false} AllHitsMember(cidrs: seq<Entry>, ex: set<nat>, a: nat)
    ensures a in AllHits(cidrs, ex) <==> exists i :: 0 <= i < |cidrs| && a in EntryHits(cidrs[i], ex)
  {
    if cidrs != [] {
      var init := cidrs[..|cidrs| - 1];
      AllHitsMember(init, ex, a);
      if a in AllHits(init, ex) {
        var i :| 0 <= i < |init| && a in EntryHits(init[i], ex);
        assert a in EntryHits(cidrs[i], ex);
      }
      if exists i :: 0 <= i < |cidrs| && a in EntryHits(cidrs[i], ex) {
        var i :| 0 <= i < |cidrs| && a in EntryHits(cidrs[i], ex);
        if i < |init| {
          assert a in EntryHits(init[i], ex);
        }
      }
    }
  }

  lemma UnionSize(x: set<nat>, y: set<nat>)
    ensures |x + y| <= |x| + |y|
    ensures |x + y| == |x| + |y| <==> x !! y
  {
    assert |x + y| == |x| + |y| - |x * y|;
  }

  /**
   * The logged count is the number of exempt addresses in the list exactly when none lies in two of its
   * networks; with overlapping networks it is larger.
   */
  lemma {:induction false} HitCountIsExactIffDisjoint(cidrs: seq<Entry>, ex: set<nat>)
    ensures HitCount(cidrs, ex) >= |AllHits(cidrs, ex)|
    ensures HitCount(cidrs, ex) == |AllHits(cidrs, ex)| <==> HitsOnce(cidrs, ex)
  {
    if cidrs != [] {
      var init, last := cidrs[..|cidrs| - 1], cidrs[|cidrs| - 1];
      HitCountIsExactIffDisjoint(init, ex);
      var before, h := AllHits(init, ex), EntryHits(last, ex);
      UnionSize(before, h);
      HitsOnceSplit(cidrs, ex);
    }
  }

  lemma HitsOnceSplit(cidrs: seq<Entry>, ex: set<nat>)
    requires cidrs != []
    ensures var init, last := cidrs[..|cidrs| - 1], cidrs[|cidrs| - 1];
            HitsOnce(cidrs, ex) <==> HitsOnce(init, ex) && AllHits(init, ex) !! EntryHits(last, ex)
  {
    var init, last := cidrs[..|cidrs| - 1], cidrs[|cidrs| - 1];
    var before, h := AllHits(init, ex), EntryHits(last, ex);
    if HitsOnce(cidrs, ex) {
      forall a | a in before
        ensures a !in h
      {
        AllHitsMember(init, ex, a);
        var i :| 0 <= i < |init| && a in EntryHits(init[i], ex);
        assert EntryHits(cidrs[i], ex) !! EntryHits(cidrs[|cidrs| - 1], ex);
      }
      assert forall i, j | 0 <= i < j < |init| :: EntryHits(cidrs[i], ex) !! EntryHits(cidrs[j], ex);
    }
    if HitsOnce(init, ex) && before !! h {
      forall i, j | 0 <= i < j < |cidrs|
        ensures EntryHits(cidrs[i], ex) !! EntryHits(cidrs[j], ex)
      {
        if j < |init| {
          assert EntryHits(init[i], ex) !! EntryHits(init[j], ex);
        } else {
          forall a | a in EntryHits(cidrs[i], ex)
            ensures a in before
          {
            assert a in EntryHits(init[i], ex);
            AllHitsMember(init, ex, a);
          }
        }
      }
    }
  }
}
