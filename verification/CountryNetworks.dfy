/**
 * The IPv4 networks of a country (internal/geoip/geoip.go): the ranges of the database are sorted and joined,
 * and each joined range is covered with the fewest networks. Walking the database is not part of this model.
 */
module CountryNetworks {
  import opened Arithmetic
  import opened Collections
  import opened GeoSplit
  import Sequences

  /** An inclusive range of addresses. */
  datatype Span = Span(first: nat, last: nat)
  {
    predicate Holds(a: nat) {
      first <= a <= last
    }
  }

  type Range = r: Span | r.first <= r.last < ADDRESSES witness Span(0, 0)

  predicate InRanges(rs: seq<Range>, a: nat) {
    exists i | 0 <= i < |rs| :: rs[i].Holds(a)
  }

  // ---- mergeRanges

  predicate ByFirst(rs: seq<Range>) {
    forall i, j | 0 <= i < j < |rs| :: rs[i].first <= rs[j].first
  }

  /** No two ranges overlap or touch. */
  predicate Apart(rs: seq<Range>) {
    forall i, j | 0 <= i < j < |rs| :: rs[i].last + 1 < rs[j].first
  }

  method SortRanges(input: seq<Range>) returns (rs: seq<Range>)
    ensures ByFirst(rs) && forall r :: r in rs <==> r in input
  {
    rs := [];
    for n := 0 to |input|
      invariant ByFirst(rs) && forall r :: r in rs <==> r in input[..n]
    {
      var i := 0;
      while i < |rs| && rs[i].first <= input[n].first
        invariant 0 <= i <= |rs| && forall k | 0 <= k < i :: rs[k].first <= input[n].first
      {
        i := i + 1;
      }
      assert forall k | i <= k < |rs| :: input[n].first <= rs[k].first;
      InsertMembers(rs, i, input[n]);
      rs := rs[..i] + [input[n]] + rs[i..];
      assert input[..n + 1] == input[..n] + [input[n]];
    }
    assert input[..|input|] == input;
  }

  lemma InRangesMember(rs: seq<Range>, a: nat)
    ensures InRanges(rs, a) <==> exists r: Range :: r in rs && r.Holds(a)
  {
    if exists r: Range :: r in rs && r.Holds(a) {
      var r: Range :| r in rs && r.Holds(a);
      var i :| 0 <= i < |rs| && rs[i] == r;
      assert rs[i].Holds(a);
    }
  }

  lemma InRangesMore(rs: seq<Range>, r: Range, a: nat)
    ensures InRanges(rs + [r], a) <==> InRanges(rs, a) || r.Holds(a)
  {
    if InRanges(rs, a) {
      var i :| 0 <= i < |rs| && rs[i].Holds(a);
      assert (rs + [r])[i].Holds(a);
    }
    assert (rs + [r])[|rs|] == r;
  }

  /** r joins the last range, or comes after it. */
  function Joined(out: seq<Range>, r: Range): seq<Range> {
    if out != [] && r.first <= out[|out| - 1].last + 1 then
      var last := out[|out| - 1];
      out[..|out| - 1] + [Span(last.first, if last.last < r.last then r.last else last.last)]
    else out + [r]
  }

  lemma JoinedCovers(out: seq<Range>, r: Range, a: nat)
    requires out != [] ==> out[|out| - 1].first <= r.first
    ensures InRanges(Joined(out, r), a) <==> InRanges(out, a) || r.Holds(a)
  {
    InRangesMore(out, r, a);
    if out != [] && r.first <= out[|out| - 1].last + 1 {
      var init, last := out[..|out| - 1], out[|out| - 1];
      InRangesMore(init, last, a);
      assert out == init + [last];
      InRangesMore(init, Joined(out, r)[|out| - 1], a);
    }
  }

  lemma JoinedApart(out: seq<Range>, r: Range)
    requires Apart(out) && (out != [] ==> out[|out| - 1].first <= r.first)
    ensures Apart(Joined(out, r)) && Joined(out, r) != [] && Joined(out, r)[|Joined(out, r)| - 1].first <= r.first
  {
    var j := Joined(out, r);
    forall i, k | 0 <= i < k < |j|
      ensures j[i].last + 1 < j[k].first
    {
      if k < |out| {
        assert out[i].last + 1 < out[k].first;
      } else if i < |out| - 1 {
        assert out[i].last + 1 < out[|out| - 1].first;
      }
    }
  }

  /** mergeRanges: the joined ranges are apart and hold the same addresses. */
  method MergeRanges(input: seq<Range>) returns (out: seq<Range>)
    ensures Apart(out) && forall a :: InRanges(out, a) <==> InRanges(input, a)
  {
    var rs := SortRanges(input);
    out := [];
    for i := 0 to |rs|
      invariant Apart(out) && forall a :: InRanges(out, a) <==> InRanges(rs[..i], a)
      invariant out != [] ==> forall k | i <= k < |rs| :: out[|out| - 1].first <= rs[k].first
    {
      var r := rs[i];
      forall a
        ensures InRanges(Joined(out, r), a) <==> InRanges(rs[..i + 1], a)
      {
        JoinedCovers(out, r, a);
        InRangesMore(rs[..i], r, a);
        assert rs[..i + 1] == rs[..i] + [r];
      }
      JoinedApart(out, r);
      if out != [] && r.first <= out[|out| - 1].last + 1 {
        var last := out[|out| - 1];
        out := out[..|out| - 1] + [Span(last.first, if last.last < r.last then r.last else last.last)];
      } else {
        out := out + [r];
      }
    }
    assert rs[..|rs|] == rs;
    forall a
      ensures InRanges(rs, a) <==> InRanges(input, a)
    {
      InRangesMember(rs, a);
      InRangesMember(input, a);
    }
  }

  // ---- rangesToCIDRs

  /** The block of 2^s addresses at cur is a network that ends within the range. */
  predicate Fits(cur: nat, end: nat, s: nat) {
    cur % Pow2(s) == 0 && cur + Pow2(s) - 1 <= end
  }

  /** The largest block at cur. */
  predicate IsLargest(cur: nat, end: nat, s: nat) {
    s <= 32 && Fits(cur, end, s) && forall k | s < k <= 32 :: !Fits(cur, end, k)
  }

  /** bits.TrailingZeros64 */
  function TrailingZeros(n: nat): (t: nat)
    requires n > 0
  {
    if n % 2 == 1 then 0 else 1 + TrailingZeros(n / 2)
  }

  lemma HalfAligned(n: nat, s: nat)
    requires n % 2 == 0
    ensures n % Pow2(s + 1) == 0 <==> (n / 2) % Pow2(s) == 0
  {
    var h, m := Pow2(s), n / 2;
    if m % h == 0 {
      assert m == h * (m / h);
      assert n == (m / h) * (2 * h);
      MultipleMod(n, m / h, 2 * h);
    }
    if n % (2 * h) == 0 {
      var q := n / (2 * h);
      assert n == (2 * h) * q;
      assert 2 * (h * q) == (2 * h) * q;
      MultipleMod(m, q, h);
    }
  }

  lemma OddIsNoMultiple(n: nat, h: nat)
    requires n % 2 == 1 && h > 0
    ensures n % (2 * h) != 0
  {
    var q := n / (2 * h);
    assert n == (2 * h) * q + n % (2 * h);
    assert (2 * h) * q == 2 * (h * q);
  }

  /** The number has exactly as many factors of two. */
  lemma {:induction false} TrailingZerosAlign(n: nat, s: nat)
    requires n > 0
    ensures n % Pow2(s) == 0 <==> s <= TrailingZeros(n)
    decreases n
  {
    if s > 0 {
      if n % 2 == 1 {
        OddIsNoMultiple(n, Pow2(s - 1));
      } else {
        HalfAligned(n, s - 1);
        TrailingZerosAlign(n / 2, s - 1);
      }
    }
  }

  lemma {:induction false} PowersGrow(k: nat, s: nat)
    requires k <= s
    ensures Pow2(k) <= Pow2(s)
    decreases s
  {
    if k < s {
      PowersGrow(k, s - 1);
    }
  }

  /** The size of the largest block aligned on cur that ends within the range, as its number of bits. */
  method BlockBits(cur: nat, end: nat) returns (s: nat)
    requires cur <= end < ADDRESSES
    ensures IsLargest(cur, end, s)
  {
    s := 32;
    if cur != 0 {
      var zeros := TrailingZeros(cur);
      s := if zeros < 32 then zeros else 32;
    }
    forall k: nat | k <= 32
      ensures cur % Pow2(k) == 0 <==> k <= s
    {
      if cur != 0 {
        TrailingZerosAlign(cur, k);
      }
    }
    while cur + Pow2(s) - 1 > end
      invariant s <= 32 && cur % Pow2(s) == 0
      invariant forall k | s < k <= 32 :: !Fits(cur, end, k)
      decreases s
    {
      assert s > 0;
      AlignedLess(cur, s - 1, s);
      s := s - 1;
    }
  }

  lemma {:induction false} AlignedLess(cur: nat, k: nat, s: nat)
    requires k <= s && cur % Pow2(s) == 0
    ensures cur % Pow2(k) == 0
    decreases s
  {
    if k < s {
      HalfMultiples(cur, Pow2(s - 1));
      AlignedLess(cur, k, s - 1);
    }
  }

  /** The block of 2^s addresses. */
  function Block(cur: nat, s: nat): Net
    requires s <= 32 && cur % Pow2(s) == 0 && cur + Pow2(s) <= ADDRESSES
  {
    Network(cur, 32 - s)
  }

  /** The largest block at cur, from blocks of 2^k addresses down. */
  function BitsFrom(cur: nat, end: nat, k: nat): (s: nat)
    requires cur <= end && k <= 32 && forall j | k < j <= 32 :: !Fits(cur, end, j)
    ensures IsLargest(cur, end, s)
  {
    if Fits(cur, end, k) then k
    else
      assert k > 0;
      BitsFrom(cur, end, k - 1)
  }

  function FirstBlock(cur: nat, end: nat): (n: Net)
    requires cur <= end < ADDRESSES
    ensures n.base == cur && cur + n.Size() <= end + 1
  {
    Block(cur, BitsFrom(cur, end, 32))
  }

  lemma FirstIsLargest(cur: nat, end: nat)
    requires cur <= end < ADDRESSES
    ensures IsLargest(cur, end, 32 - FirstBlock(cur, end).ones)
  {
  }

  /** The largest blocks, one after the other, from cur to end. */
  function Blocks(cur: nat, end: nat): seq<Net>
    requires end < ADDRESSES
    decreases end + 1 - cur
  {
    if cur > end then []
    else
      var n := FirstBlock(cur, end);
      [n] + Blocks(cur + n.Size(), end)
  }

  function AllBlocks(rs: seq<Range>): seq<Net> {
    if rs == [] then [] else Blocks(rs[0].first, rs[0].last) + AllBlocks(rs[1..])
  }

  /** The code's block is the largest one. */
  method NextBlock(cur: nat, end: nat) returns (n: Net)
    requires cur <= end < ADDRESSES
    ensures n == FirstBlock(cur, end)
  {
    var s := BlockBits(cur, end);
    ghost var t := BitsFrom(cur, end, 32);
    assert !(t < s) && !(s < t);
    n := Block(cur, s);
  }

  /** The blocks of one range behind out, unless there are more than limit. */
  method CoverRange(out: seq<Net>, range: Range, limit: nat) returns (r: Option<seq<Net>>)
    requires |out| <= limit
    ensures var all := out + Blocks(range.first, range.last);
            r == if |all| <= limit then Some(all) else None
  {
    var cur, end, ns := range.first, range.last, out;
    ghost var all := out + Blocks(cur, end);
    while cur <= end
      invariant |ns| <= limit && ns + Blocks(cur, end) == all
      decreases end + 1 - cur
    {
      var n := NextBlock(cur, end);
      if |ns| >= limit {
        return None;
      }
      Sequences.ConcatAssoc(ns, [n], Blocks(cur + n.Size(), end));
      ns := ns + [n];
      cur := cur + n.Size();
    }
    assert ns + [] == ns;
    r := Some(ns);
  }

  /** rangesToCIDRs: the blocks of every range, or nothing when there are more than limit. */
  method RangesToCIDRs(ranges: seq<Range>, limit: nat) returns (r: Option<seq<Net>>)
    ensures r == if |AllBlocks(ranges)| <= limit then Some(AllBlocks(ranges)) else None
  {
    var out: seq<Net> := [];
    assert ranges[0..] == ranges;
    for i := 0 to |ranges|
      invariant |out| <= limit && out + AllBlocks(ranges[i..]) == AllBlocks(ranges)
    {
      assert ranges[i..][1..] == ranges[i + 1..];
      Sequences.ConcatAssoc(out, Blocks(ranges[i].first, ranges[i].last), AllBlocks(ranges[i + 1..]));
      r := CoverRange(out, ranges[i], limit);
      if r.None? {
        return;
      }
      out := r.value;
    }
    assert out + [] == out;
    r := Some(out);
  }

  // ---- what the blocks are

  lemma CoversCons(n: Net, ns: seq<Net>, a: nat)
    ensures Covers([n] + ns, a) <==> n.Holds(a) || Covers(ns, a)
  {
    CoversConcat([n], ns, a);
    assert [n][0] == n;
  }

  lemma {:induction false} BlocksCover(cur: nat, end: nat, a: nat)
    requires end < ADDRESSES
    ensures Covers(Blocks(cur, end), a) <==> cur <= a <= end
    decreases end + 1 - cur
  {
    if cur <= end {
      var n := FirstBlock(cur, end);
      BlocksCover(cur + n.Size(), end, a);
      CoversCons(n, Blocks(cur + n.Size(), end), a);
    }
  }

  /** Every address the networks cover is at least low. */
  predicate From(ns: seq<Net>, low: nat) {
    forall i | 0 <= i < |ns| :: low <= ns[i].base
  }

  predicate UpTo(ns: seq<Net>, high: nat) {
    forall i | 0 <= i < |ns| :: ns[i].base + ns[i].Size() <= high + 1
  }

  lemma AscendingConcat(a: seq<Net>, b: seq<Net>, high: nat, low: nat)
    requires Ascending(a) && Ascending(b) && UpTo(a, high) && From(b, low) && high < low
    ensures Ascending(a + b)
  {
    var all := a + b;
    forall i, j | 0 <= i < j < |all|
      ensures Before(all[i], all[j])
    {
      if i < |a| && j >= |a| {
        assert a[i].base + a[i].Size() <= high + 1 && low <= b[j - |a|].base;
      }
    }
  }

  /** The networks lie between low and high, in order and without overlap. */
  predicate Tidy(ns: seq<Net>, low: nat, high: nat) {
    Ascending(ns) && From(ns, low) && UpTo(ns, high)
  }

  lemma ConsIsTidy(n: Net, ns: seq<Net>, end: nat)
    requires Tidy(ns, n.base + n.Size(), end) && n.base + n.Size() <= end + 1
    ensures Tidy([n] + ns, n.base, end)
  {
    AscendingConcat([n], ns, n.base + n.Size() - 1, n.base + n.Size());
  }

  lemma {:induction false} BlocksAreTidy(cur: nat, end: nat)
    requires end < ADDRESSES
    ensures Tidy(Blocks(cur, end), cur, end)
    decreases end + 1 - cur
  {
    if cur <= end {
      var n := FirstBlock(cur, end);
      BlocksAreTidy(cur + n.Size(), end);
      ConsIsTidy(n, Blocks(cur + n.Size(), end), end);
    }
  }

  lemma {:induction false} AllBlocksCover(rs: seq<Range>, a: nat)
    ensures Covers(AllBlocks(rs), a) <==> InRanges(rs, a)
  {
    if rs != [] {
      BlocksCover(rs[0].first, rs[0].last, a);
      AllBlocksCover(rs[1..], a);
      CoversConcat(Blocks(rs[0].first, rs[0].last), AllBlocks(rs[1..]), a);
      if InRanges(rs[1..], a) {
        var i :| 0 <= i < |rs[1..]| && rs[1..][i].Holds(a);
        assert rs[i + 1].Holds(a);
      }
      if InRanges(rs, a) {
        var i :| 0 <= i < |rs| && rs[i].Holds(a);
        assert i > 0 ==> rs[1..][i - 1].Holds(a);
      }
    }
  }

  lemma {:induction false} AllBlocksFrom(rs: seq<Range>, low: nat)
    requires forall i | 0 <= i < |rs| :: low <= rs[i].first
    ensures From(AllBlocks(rs), low)
  {
    if rs != [] {
      BlocksAreTidy(rs[0].first, rs[0].last);
      AllBlocksFrom(rs[1..], low);
    }
  }

  lemma {:induction false} AllBlocksAscend(rs: seq<Range>)
    requires Apart(rs)
    ensures Ascending(AllBlocks(rs))
  {
    if rs != [] {
      var rest := rs[1..];
      assert forall i | 0 <= i < |rest| :: rest[i] == rs[i + 1];
      BlocksAreTidy(rs[0].first, rs[0].last);
      AllBlocksAscend(rest);
      AllBlocksFrom(rest, rs[0].last + 1);
      AscendingConcat(Blocks(rs[0].first, rs[0].last), AllBlocks(rest), rs[0].last, rs[0].last + 1);
    }
  }

  /** An aligned block that starts within another starts where it starts, or is no larger and lies within it. */
  lemma BlocksNest(x: nat, k: nat, y: nat, s: nat)
    requires x % Pow2(k) == 0 && y % Pow2(s) == 0 && y <= x < y + Pow2(s)
    ensures if k <= s then x + Pow2(k) <= y + Pow2(s) else x == y
  {
    if k <= s {
      HalfMultiplesSum(y, Pow2(s));
      AlignedLess(y + Pow2(s), k, s);
      MultiplesApart(x, y + Pow2(s), Pow2(k));
    } else {
      AlignedLess(x, s, k);
      if y < x {
        MultiplesApart(y, x, Pow2(s));
      }
    }
  }

  lemma HalfMultiplesSum(y: nat, h: nat)
    requires h > 0 && y % h == 0
    ensures (y + h) % h == 0
  {
    var q := y / h;
    assert y == q * h && (q + 1) * h == q * h + h;
    MultipleMod(y + h, q + 1, h);
  }

  /** A network that starts in a largest block lies in it. */
  lemma LargestHolds(m: Net, n: Net, end: nat)
    requires IsLargest(n.base, end, 32 - n.ones) && n.Holds(m.base) && m.base + m.Size() - 1 <= end
    ensures Within(m, n)
  {
    BlocksNest(m.base, 32 - m.ones, n.base, 32 - n.ones);
    assert Fits(m.base, end, 32 - m.ones);
  }

  function BlocksBehind(cur: nat, end: nat): seq<Net>
    requires cur <= end < ADDRESSES
  {
    Blocks(cur + FirstBlock(cur, end).Size(), end)
  }

  lemma BlocksSplit(cur: nat, end: nat)
    requires cur <= end < ADDRESSES
    ensures Blocks(cur, end) == [FirstBlock(cur, end)] + BlocksBehind(cur, end)
  {
  }

  lemma FirstHolds(cur: nat, end: nat, m: Net)
    requires cur <= end < ADDRESSES && FirstBlock(cur, end).Holds(m.base) && m.base + m.Size() - 1 <= end
    ensures Within(m, FirstBlock(cur, end))
  {
    FirstIsLargest(cur, end);
    LargestHolds(m, FirstBlock(cur, end), end);
  }

  lemma InsideCons(m: Net, n: Net, ns: seq<Net>)
    requires Within(m, n) || Inside(m, ns)
    ensures Inside(m, [n] + ns)
  {
    if Within(m, n) {
      assert Within(m, [n][0]);
    }
    InsideConcat(m, [n], ns);
  }

  /** Every network inside the range lies in one of its blocks. */
  lemma {:induction false} BlocksAreMaximal(cur: nat, end: nat, m: Net)
    requires end < ADDRESSES && cur <= m.base && m.base + m.Size() - 1 <= end
    ensures Inside(m, Blocks(cur, end))
    decreases end + 1 - cur
  {
    var n, rest := FirstBlock(cur, end), BlocksBehind(cur, end);
    if n.Holds(m.base) {
      FirstHolds(cur, end, m);
    } else {
      BlocksAreMaximal(cur + n.Size(), end, m);
    }
    InsideCons(m, n, rest);
    BlocksSplit(cur, end);
  }

  lemma {:induction false} AllBlocksAreMaximal(rs: seq<Range>, i: nat, m: Net)
    requires i < |rs| && rs[i].first <= m.base && m.base + m.Size() - 1 <= rs[i].last
    ensures Inside(m, AllBlocks(rs))
    decreases |rs|
  {
    if i == 0 {
      BlocksAreMaximal(rs[0].first, rs[0].last, m);
    } else {
      AllBlocksAreMaximal(rs[1..], i - 1, m);
    }
    InsideConcat(m, Blocks(rs[0].first, rs[0].last), AllBlocks(rs[1..]));
  }

  /** The address behind a range is in none. */
  lemma GapBehind(rs: seq<Range>, i: nat)
    requires Apart(rs) && i < |rs|
    ensures !InRanges(rs, rs[i].last + 1)
  {
    forall j | 0 <= j < |rs|
      ensures !rs[j].Holds(rs[i].last + 1)
    {
      if i < j {
        assert rs[i].last + 1 < rs[j].first;
      } else if j < i {
        assert rs[j].last + 1 < rs[i].first;
      }
    }
  }

  /** A network of listed addresses lies in one range, as no two touch. */
  lemma InOneRange(rs: seq<Range>, m: Net) returns (i: nat)
    requires Apart(rs) && forall a | m.Holds(a) :: InRanges(rs, a)
    ensures i < |rs| && rs[i].first <= m.base && m.base + m.Size() - 1 <= rs[i].last
  {
    assert m.Holds(m.base);
    i :| 0 <= i < |rs| && rs[i].Holds(m.base);
    GapBehind(rs, i);
    assert !m.Holds(rs[i].last + 1);
  }

  ghost predicate CoversRanges(ns: seq<Net>, rs: seq<Range>) {
    forall a: nat :: Covers(ns, a) <==> InRanges(rs, a)
  }

  /** No list of networks that covers exactly the ranges is shorter than their blocks. */
  lemma BlocksAreFewest(rs: seq<Range>, other: seq<Net>)
    requires Apart(rs) && CoversRanges(other, rs)
    ensures |AllBlocks(rs)| <= |other|
  {
    AllBlocksAscend(rs);
    forall a: nat
      ensures Covers(other, a) <==> Covers(AllBlocks(rs), a)
    {
      AllBlocksCover(rs, a);
    }
    forall k | 0 <= k < |other|
      ensures Inside(other[k], AllBlocks(rs))
    {
      forall a | other[k].Holds(a)
        ensures InRanges(rs, a)
      {
        HoldsCovers(other, k, a);
      }
      var i := InOneRange(rs, other[k]);
      AllBlocksAreMaximal(rs, i, other[k]);
    }
    MaximalIsFewest(AllBlocks(rs), other);
  }

  /** ns is what the database's ranges give: in order, without overlap, exactly their addresses, and no longer. */
  ghost predicate FewestNetworks(ns: seq<Net>, ranges: seq<Range>) {
    && Ascending(ns) && CoversRanges(ns, ranges)
    && forall other: seq<Net> | CoversRanges(other, ranges) :: |ns| <= |other|
  }

  /** ExtractCIDRs: the fewest networks of the country, or a refusal when these or the ranges read are too many. */
  method ExtractCIDRs(ranges: seq<Range>, limit: nat) returns (r: Option<seq<Net>>)
    ensures r.Some? ==> FewestNetworks(r.value, ranges) && |r.value| <= limit && |ranges| <= 2 * limit
    ensures r.None? ==>
              || |ranges| > 2 * limit
              || forall other: seq<Net> | CoversRanges(other, ranges) :: |other| > limit
  {
    var read := ReadRanges(ranges, limit);
    if read.None? {
      return None;
    }
    var merged := MergeRanges(read.value);
    r := RangesToCIDRs(merged, limit);
    AllBlocksAscend(merged);
    forall a: nat
      ensures Covers(AllBlocks(merged), a) <==> InRanges(ranges, a)
    {
      AllBlocksCover(merged, a);
    }
    forall other: seq<Net> | CoversRanges(other, ranges)
      ensures |AllBlocks(merged)| <= |other|
    {
      assert CoversRanges(other, merged);
      BlocksAreFewest(merged, other);
    }
  }

  /** The walk keeps the ranges of the country, and gives up past twice the limit. */
  method ReadRanges(found: seq<Range>, limit: nat) returns (r: Option<seq<Range>>)
    ensures r == if |found| <= 2 * limit then Some(found) else None
  {
    var ranges: seq<Range> := [];
    for i := 0 to |found|
      invariant ranges == found[..i] && i <= 2 * limit
    {
      if |ranges| >= 2 * limit {
        return None;
      }
      ranges := ranges + [found[i]];
    }
    assert found[..|found|] == found;
    r := Some(ranges);
  }

  /** In such a list no address is counted twice: the number excludeAddrs logs is exact. */
  lemma CountryHitsAreExact(ns: seq<Net>, ex: set<nat>)
    requires Ascending(ns)
    ensures HitCount(Entries(ns), ex) == |AllHits(Entries(ns), ex)|
  {
    var es := Entries(ns);
    forall i, j | 0 <= i < j < |es|
      ensures EntryHits(es[i], ex) !! EntryHits(es[j], ex)
    {
      assert Before(ns[i], ns[j]);
    }
    HitCountIsExactIffDisjoint(es, ex);
  }
}
