/**
 * The DNS message decoder (internal/dnswatch/dnsmsg.go). Names are bytes; lower, the conversion to lower case,
 * is a parameter.
 */
module DnsMessage {
  import opened Collections
  import opened Packets
  import Sequences

  type Label = seq<Byte>

  const MAX_HOPS := 17
  const MAX_OCTETS := 255
  const MAX_ANSWERS := 64
  const TYPE_A := 1
  const TYPE_AAAA := 28

  /** What the inspector needs of a message. */
  datatype Message = Message(response: bool, rcode: nat, name: seq<Byte>, qtype: nat, answers: seq<seq<Byte>>)

  /** A resource record: its type and data. */
  datatype Record = Record(typ: nat, rdata: seq<Byte>)

  /** The labels with dots between them. */
  function Join(labels: seq<Label>): seq<Byte> {
    if labels == [] then []
    else if |labels| == 1 then labels[0]
    else labels[0] + [46] + Join(labels[1..])
  }

  /**
   * name is labels written with dots: each label stands behind the octets of those before it, with a dot in front
   * of all but the first, and nothing else is there.
   */
  predicate IsDotted(name: seq<Byte>, labels: seq<Label>) {
    if labels == [] then name == []
    else
      && |name| == Octets(labels) - 1
      && forall i | 0 <= i < |labels| :: StandsIn(name, labels, i)
  }

  predicate StandsIn(name: seq<Byte>, labels: seq<Label>, i: nat)
    requires i < |labels|
  {
    var at := Octets(labels[..i]);
    && at + |labels[i]| <= |name| && name[at..at + |labels[i]|] == labels[i]
    && (i > 0 ==> at <= |name| && name[at - 1] == 46)
  }

  /** The offset a compression pointer at pos points to. */
  function Pointer(b: seq<Byte>, pos: nat): nat
    requires pos + 2 <= |b|
  {
    Half(b, pos) % 0x4000
  }

  // ---- the format, sections 4.1 and 4.1.4 of RFC 1035

  /** The bytes at pos spell labels, through exactly hops compression pointers. */
  predicate NameAt(b: seq<Byte>, pos: nat, labels: seq<Label>, hops: nat)
    decreases hops, |labels|
  {
    pos < |b| &&
    if b[pos] == 0 then labels == [] && hops == 0
    else if b[pos] >= 0xc0 then pos + 2 <= |b| && hops > 0 && NameAt(b, Pointer(b, pos), labels, hops - 1)
    else
      && b[pos] < 0x40
      && pos + 1 + b[pos] <= |b|
      && labels != []
      && labels[0] == b[pos + 1..pos + 1 + b[pos]]
      && NameAt(b, pos + 1 + b[pos], labels[1..], hops)
  }

  /** The length of the name, every label with its length byte. */
  function Octets(labels: seq<Label>): nat {
    if labels == [] then 0 else |labels[0]| + 1 + Octets(labels[1..])
  }

  /** How many bytes the name occupies at pos: up to its end or its first pointer. */
  function Extent(b: seq<Byte>, pos: nat): nat
    decreases |b| - pos
  {
    if pos >= |b| then 0
    else if b[pos] == 0 then 1
    else if b[pos] >= 0xc0 then 2
    else if b[pos] >= 0x40 then 0
    else 1 + b[pos] + Extent(b, pos + 1 + b[pos])
  }

  /** A name as the bytes spell it: its labels, and how many pointers lead through it. */
  datatype Spelling = Spelling(labels: seq<Label>, hops: nat)

  /** The name stands at pos, within what the decoder takes: 17 pointers and 255 octets. */
  predicate Spelled(b: seq<Byte>, pos: nat, n: Spelling) {
    n.hops <= MAX_HOPS && Octets(n.labels) <= MAX_OCTETS && NameAt(b, pos, n.labels, n.hops)
  }

  /** Where a question at off ends. */
  function QuestionEnd(b: seq<Byte>, off: nat): nat {
    off + Extent(b, off) + 4
  }

  predicate QuestionAt(b: seq<Byte>, off: nat, n: Spelling) {
    Spelled(b, off, n) && QuestionEnd(b, off) <= |b|
  }

  /** The type a question at off asks for. */
  function QuestionType(b: seq<Byte>, off: nat): nat
    requires QuestionEnd(b, off) <= |b|
  {
    Half(b, QuestionEnd(b, off) - 4)
  }

  predicate QuestionsAt(b: seq<Byte>, off: nat, names: seq<Spelling>)
    decreases |names|
  {
    names == [] || (QuestionAt(b, off, names[0]) && QuestionsAt(b, QuestionEnd(b, off), names[1..]))
  }

  function QuestionsEnd(b: seq<Byte>, off: nat, n: nat): nat
    decreases n
  {
    if n == 0 then off else QuestionsEnd(b, QuestionEnd(b, off), n - 1)
  }

  /** A record at off: owner, type, class, time to live, and data of the length given before it. */
  predicate RecordAt(b: seq<Byte>, off: nat, owner: Spelling, r: Record) {
    var o := off + Extent(b, off);
    && Spelled(b, off, owner)
    && o + 10 + |r.rdata| <= |b|
    && r.typ == Half(b, o)
    && |r.rdata| == Half(b, o + 8)
    && r.rdata == b[o + 10..o + 10 + |r.rdata|]
  }

  function RecordEnd(b: seq<Byte>, off: nat, r: Record): nat {
    off + Extent(b, off) + 10 + |r.rdata|
  }

  predicate RecordsAt(b: seq<Byte>, off: nat, owners: seq<Spelling>, rs: seq<Record>)
    requires |owners| == |rs|
    decreases |rs|
  {
    rs == [] || (RecordAt(b, off, owners[0], rs[0]) && RecordsAt(b, RecordEnd(b, off, rs[0]), owners[1..], rs[1..]))
  }

  function RecordsEnd(b: seq<Byte>, off: nat, rs: seq<Record>): nat
    decreases |rs|
  {
    if rs == [] then off else RecordsEnd(b, RecordEnd(b, off, rs[0]), rs[1..])
  }

  /** rs are the well-formed records from off on, all of them or the first n. */
  ghost predicate IsLongestRun(b: seq<Byte>, off: nat, owners: seq<Spelling>, rs: seq<Record>, n: nat) {
    && |owners| == |rs| <= n
    && RecordsAt(b, off, owners, rs)
    && (|rs| < n ==> forall owner, r :: !RecordAt(b, RecordsEnd(b, off, rs), owner, r))
  }

  // ---- the decoder as functions

  /** The labels from pos on, after jumps pointers and total octets. */
  function Labels(b: seq<Byte>, pos: nat, jumps: nat, total: nat): Option<seq<Label>>
    requires jumps <= MAX_HOPS && total <= MAX_OCTETS
    decreases MAX_HOPS - jumps, MAX_OCTETS - total
  {
    if pos >= |b| then None
    else
      var l := b[pos];
      if l == 0 then Some([])
      else if l >= 0xc0 then
        if pos + 1 >= |b| || jumps > 16 then None
        else Labels(b, Pointer(b, pos), jumps + 1, total)
      else if l >= 0x40 then None
      else if pos + 1 + l > |b| || total + l + 1 > MAX_OCTETS then None
      else
        match Labels(b, pos + 1 + l, jumps, total + l + 1)
        case None => None
        case Some(rest) => Some([b[pos + 1..pos + 1 + l]] + rest)
  }

  function NameOf(b: seq<Byte>, off: nat): Option<(seq<Label>, nat)> {
    match Labels(b, off, 0, 0)
    case None => None
    case Some(labels) => Some((labels, Extent(b, off)))
  }

  /** Where n further questions end, if they are all there. */
  function SkipQuestions(b: seq<Byte>, off: nat, n: nat): Option<nat>
    decreases n
  {
    if n == 0 then Some(off)
    else
      match NameOf(b, off)
      case None => None
      case Some((_, k)) => if off + k + 4 > |b| then None else SkipQuestions(b, off + k + 4, n - 1)
  }

  /** The record at off and where it ends. */
  function RecordOf(b: seq<Byte>, off: nat): Option<(Record, nat)> {
    match NameOf(b, off)
    case None => None
    case Some((_, k)) =>
      var o := off + k;
      if o + 10 > |b| then None
      else
        var rdlen := Half(b, o + 8);
        if o + 10 + rdlen > |b| then None
        else Some((Record(Half(b, o), b[o + 10..o + 10 + rdlen]), o + 10 + rdlen))
  }

  /** At most n records, up to the first malformed one. */
  function Records(b: seq<Byte>, off: nat, n: nat): (rs: seq<Record>)
    ensures |rs| <= n
    decreases n
  {
    if n == 0 then []
    else
      match RecordOf(b, off)
      case None => []
      case Some((r, next)) => [r] + Records(b, next, n - 1)
  }

  /** The IPv4 and IPv6 addresses among the records, in order (section 2 of RFC 3596). */
  function Addresses(rs: seq<Record>): seq<seq<Byte>> {
    if rs == [] then []
    else (if IsAddress(rs[0]) then [rs[0].rdata] else []) + Addresses(rs[1..])
  }

  predicate IsAddress(r: Record) {
    (r.typ == TYPE_A && |r.rdata| == 4) || (r.typ == TYPE_AAAA && |r.rdata| == 16)
  }

  function DataOf(rs: seq<Record>): seq<seq<Byte>> {
    if rs == [] then [] else [rs[0].rdata] + DataOf(rs[1..])
  }

  /** The addresses are the 4 bytes of each A record and the 16 of each AAAA record, in the order of the records. */
  lemma {:induction false} AddressesAreExact(rs: seq<Record>)
    ensures Addresses(rs) ==
            DataOf(Sequences.Filter((r: Record) => (r.typ == 1 && |r.rdata| == 4) || (r.typ == 28 && |r.rdata| == 16), rs))
  {
    if rs != [] {
      AddressesAreExact(rs[1..]);
    }
  }

  function Min(a: nat, b: nat): nat {
    if a < b then a else b
  }

  function Parse(b: seq<Byte>, lower: seq<Byte> -> seq<Byte>): Option<Message> {
    if |b| < 12 || Half(b, 4) == 0 then None
    else
      match NameOf(b, 12)
      case None => None
      case Some((labels, k)) =>
        if 12 + k + 4 > |b| then None
        else
          var flags := Half(b, 2);
          Some(Completed(b, 12 + k + 4,
                         Message(flags >= 0x8000, flags % 16, lower(Join(labels)), Half(b, 12 + k), [])))
  }

  /** The message with what follows its first question. */
  function Completed(b: seq<Byte>, off: nat, m: Message): Message
    requires |b| >= 12 && Half(b, 4) > 0
  {
    match SkipQuestions(b, off, Half(b, 4) - 1)
    case None => m
    case Some(next) => m.(answers := Addresses(Records(b, next, Min(Half(b, 6), MAX_ANSWERS))))
  }

  // ---- names with dots

  lemma OctetsBefore(labels: seq<Label>, i: nat)
    requires 0 < i <= |labels|
    ensures Octets(labels[..i]) == |labels[0]| + 1 + Octets(labels[1..][..i - 1])
  {
    assert labels[..i][1..] == labels[1..][..i - 1];
  }

  /** A name is its first label and, behind a dot, the name of the others. */
  lemma DottedSplits(name: seq<Byte>, labels: seq<Label>)
    requires |labels| > 1
    ensures IsDotted(name, labels) <==>
            var at := |labels[0]| + 1;
            at <= |name| && name[..at] == labels[0] + [46] && IsDotted(name[at..], labels[1..])
  {
    var l, rest := labels[0], labels[1..];
    var at := |l| + 1;
    if at <= |name| && name[..at] == l + [46] && IsDotted(name[at..], rest) {
      assert name[|l|] == name[..at][|l|] && name[..|l|] == name[..at][..|l|] && labels[..0] == [];
      assert StandsIn(name, labels, 0);
      forall i | 0 < i < |labels|
        ensures StandsIn(name, labels, i)
      {
        assert StandsIn(name[at..], rest, i - 1);
        LabelShifts(name, labels, i);
      }
    }
    if IsDotted(name, labels) {
      OctetsBefore(labels, 1);
      assert StandsIn(name, labels, 0) && StandsIn(name, labels, 1) && labels[..0] == [];
      assert name[..at] == l + [46];
      forall i | 0 <= i < |rest|
        ensures StandsIn(name[at..], rest, i)
      {
        assert StandsIn(name, labels, i + 1);
        LabelShifts(name, labels, i + 1);
      }
    }
  }

  /** Behind the first label and its dot the others stand as they stand in the whole name. */
  lemma LabelShifts(name: seq<Byte>, labels: seq<Label>, i: nat)
    requires 0 < i < |labels| && |labels[0]| + 1 <= |name| && name[|labels[0]|] == 46
    ensures StandsIn(name, labels, i) <==> StandsIn(name[|labels[0]| + 1..], labels[1..], i - 1)
  {
    OctetsBefore(labels, i);
    var at, from, size := |labels[0]| + 1, Octets(labels[1..][..i - 1]), |labels[i]|;
    if at + from + size <= |name| {
      assert name[at..][from..from + size] == name[at + from..at + from + size];
    }
    if i == 1 {
      assert labels[1..][..0] == [];
    }
  }

  /** Exactly one text is the name written with dots. */
  lemma {:induction false} JoinIsDotted(name: seq<Byte>, labels: seq<Label>)
    ensures IsDotted(name, labels) <==> name == Join(labels)
    decreases |labels|
  {
    if |labels| == 1 {
      assert labels[..0] == [] && labels[1..] == [];
      assert IsDotted(name, labels) <==> StandsIn(name, labels, 0) && |name| == |labels[0]|;
    } else if |labels| > 1 {
      var at := |labels[0]| + 1;
      DottedSplits(name, labels);
      if at <= |name| {
        JoinIsDotted(name[at..], labels[1..]);
        assert name == name[..at] + name[at..];
      }
      if name == Join(labels) {
        assert name[..at] == labels[0] + [46] && name[at..] == Join(labels[1..]);
      }
    }
  }

  /** Labels as the wire has them, none with a dot in it. */
  predicate AreDotless(labels: seq<Label>) {
    forall i | 0 <= i < |labels| :: labels[i] != [] && 46 !in labels[i]
  }

  /** Different labels have different names. */
  lemma {:induction false} NamesAreDistinct(name: seq<Byte>, x: seq<Label>, y: seq<Label>)
    requires AreDotless(x) && AreDotless(y) && IsDotted(name, x) && IsDotted(name, y)
    ensures x == y
    decreases |x|
  {
    if x != [] && y != [] {
      FirstLabelEnds(name, x);
      FirstLabelEnds(name, y);
      FirstLabelsAgree(name, x[0], y[0]);
      if |x| > 1 && |y| > 1 {
        DottedSplits(name, x);
        DottedSplits(name, y);
        NamesAreDistinct(name[|x[0]| + 1..], x[1..], y[1..]);
        assert x == [x[0]] + x[1..] && y == [y[0]] + y[1..];
      }
    }
  }

  /** The first label is the name up to its first dot, or all of it. */
  predicate EndsAtDot(name: seq<Byte>, l: Label) {
    l <= name && (|l| == |name| || name[|l|] == 46)
  }

  lemma FirstLabelEnds(name: seq<Byte>, labels: seq<Label>)
    requires IsDotted(name, labels) && labels != []
    ensures EndsAtDot(name, labels[0]) && (|labels[0]| == |name| <==> |labels| == 1)
  {
    JoinIsDotted(name, labels);
  }

  lemma FirstLabelsAgree(name: seq<Byte>, x: Label, y: Label)
    requires EndsAtDot(name, x) && EndsAtDot(name, y) && 46 !in x && 46 !in y
    ensures x == y
  {
  }

  // ---- the decoder reads exactly the format

  /** What a message about name with these contents says; answers past the 64th are not read. */
  function Decoded(flags: nat, name: seq<Byte>, qtype: nat, rs: seq<Record>, lower: seq<Byte> -> seq<Byte>): Message {
    Message(flags >= 0x8000, flags % 16, lower(name), qtype, Addresses(rs[..Min(|rs|, MAX_ANSWERS)]))
  }

  lemma {:induction false} LabelsSound(b: seq<Byte>, pos: nat, jumps: nat, total: nat)
    requires jumps <= MAX_HOPS && total <= MAX_OCTETS && Labels(b, pos, jumps, total).Some?
    ensures var labels := Labels(b, pos, jumps, total).value;
            && total + Octets(labels) <= MAX_OCTETS
            && exists hops: nat :: jumps + hops <= MAX_HOPS && NameAt(b, pos, labels, hops)
    decreases MAX_HOPS - jumps, MAX_OCTETS - total
  {
    var labels := Labels(b, pos, jumps, total).value;
    var l := b[pos];
    if l == 0 {
      assert NameAt(b, pos, labels, 0);
    } else if l >= 0xc0 {
      LabelsSound(b, Pointer(b, pos), jumps + 1, total);
      var hops: nat :| jumps + 1 + hops <= MAX_HOPS && NameAt(b, Pointer(b, pos), labels, hops);
      assert NameAt(b, pos, labels, hops + 1);
    } else {
      LabelsSound(b, pos + 1 + l, jumps, total + l + 1);
      assert labels[1..] == Labels(b, pos + 1 + l, jumps, total + l + 1).value;
      var hops: nat :| jumps + hops <= MAX_HOPS && NameAt(b, pos + 1 + l, labels[1..], hops);
      assert NameAt(b, pos, labels, hops);
    }
  }

  lemma {:induction false} LabelsComplete(b: seq<Byte>, pos: nat, jumps: nat, total: nat, labels: seq<Label>, hops: nat)
    requires jumps + hops <= MAX_HOPS && total + Octets(labels) <= MAX_OCTETS && NameAt(b, pos, labels, hops)
    ensures Labels(b, pos, jumps, total) == Some(labels)
    decreases hops, |labels|
  {
    var l := b[pos];
    if l == 0 {
    } else if l >= 0xc0 {
      LabelsComplete(b, Pointer(b, pos), jumps + 1, total, labels, hops - 1);
    } else {
      LabelsComplete(b, pos + 1 + l, jumps, total + l + 1, labels[1..], hops);
      assert labels == [labels[0]] + labels[1..];
    }
  }

  /** How many pointers lead through a name that is decoded. */
  ghost function HopsOf(b: seq<Byte>, off: nat): (hops: nat)
    requires Labels(b, off, 0, 0).Some?
    ensures Spelled(b, off, Spelling(Labels(b, off, 0, 0).value, hops))
  {
    LabelsSound(b, off, 0, 0);
    var hops: nat :| hops <= MAX_HOPS && NameAt(b, off, Labels(b, off, 0, 0).value, hops);
    hops
  }

  /**
   * A name is decoded to labels exactly when the bytes spell them within the limits; pointer loops and
   * anything malformed are refused.
   */
  lemma NameDecodingIsExact(b: seq<Byte>, off: nat, labels: seq<Label>)
    ensures NameOf(b, off) == Some((labels, Extent(b, off))) <==>
            exists hops: nat :: Spelled(b, off, Spelling(labels, hops))
  {
    if Labels(b, off, 0, 0) == Some(labels) {
      assert Spelled(b, off, Spelling(labels, HopsOf(b, off)));
    }
    forall hops: nat | Spelled(b, off, Spelling(labels, hops))
      ensures Labels(b, off, 0, 0) == Some(labels)
    {
      LabelsComplete(b, off, 0, 0, labels, hops);
    }
  }

  lemma SpelledIsRead(b: seq<Byte>, off: nat, n: Spelling)
    requires Spelled(b, off, n)
    ensures NameOf(b, off) == Some((n.labels, Extent(b, off)))
  {
    LabelsComplete(b, off, 0, 0, n.labels, n.hops);
  }

  /** What a decoded name occupies lies within the message. */
  lemma {:induction false} ExtentInRange(b: seq<Byte>, pos: nat, labels: seq<Label>, hops: nat)
    requires NameAt(b, pos, labels, hops)
    ensures 1 <= Extent(b, pos) && pos + Extent(b, pos) <= |b|
    decreases |b| - pos
  {
    if b[pos] != 0 && b[pos] < 0x40 {
      ExtentInRange(b, pos + 1 + b[pos], labels[1..], hops);
    }
  }

  lemma RecordIsRead(b: seq<Byte>, off: nat, owner: Spelling, r: Record)
    requires RecordAt(b, off, owner, r)
    ensures RecordOf(b, off) == Some((r, RecordEnd(b, off, r)))
  {
    SpelledIsRead(b, off, owner);
  }

  /** A record is read only where one stands. */
  lemma ReadIsRecord(b: seq<Byte>, off: nat) returns (owner: Spelling)
    requires RecordOf(b, off).Some?
    ensures RecordAt(b, off, owner, RecordOf(b, off).value.0)
    ensures RecordOf(b, off).value.1 == RecordEnd(b, off, RecordOf(b, off).value.0)
  {
    owner := Spelling(Labels(b, off, 0, 0).value, HopsOf(b, off));
  }

  lemma {:induction false} QuestionsAreSkipped(b: seq<Byte>, off: nat, names: seq<Spelling>)
    requires QuestionsAt(b, off, names)
    ensures SkipQuestions(b, off, |names|) == Some(QuestionsEnd(b, off, |names|))
    decreases |names|
  {
    if names != [] {
      SpelledIsRead(b, off, names[0]);
      QuestionsAreSkipped(b, QuestionEnd(b, off), names[1..]);
    }
  }

  /** Skipping questions succeeds only over well-formed ones. */
  lemma {:induction false} SkippedAreQuestions(b: seq<Byte>, off: nat, n: nat) returns (names: seq<Spelling>)
    requires SkipQuestions(b, off, n).Some?
    ensures |names| == n && QuestionsAt(b, off, names)
    ensures SkipQuestions(b, off, n).value == QuestionsEnd(b, off, n)
    decreases n
  {
    names := [];
    if n > 0 {
      var first := Spelling(Labels(b, off, 0, 0).value, HopsOf(b, off));
      var rest := SkippedAreQuestions(b, QuestionEnd(b, off), n - 1);
      names := [first] + rest;
      QuestionsAtCons(b, off, first, rest);
    }
  }

  lemma QuestionsAtCons(b: seq<Byte>, off: nat, n: Spelling, rest: seq<Spelling>)
    requires QuestionAt(b, off, n) && QuestionsAt(b, QuestionEnd(b, off), rest)
    ensures QuestionsAt(b, off, [n] + rest)
  {
    assert ([n] + rest)[1..] == rest;
  }

  lemma {:induction false} RecordsAreRead(b: seq<Byte>, off: nat, owners: seq<Spelling>, rs: seq<Record>, n: nat)
    requires |owners| == |rs| && RecordsAt(b, off, owners, rs) && n <= |rs|
    ensures Records(b, off, n) == rs[..n]
    decreases n
  {
    hide *;
    if n == 0 {
      NothingIsRead(b, off);
    } else {
      FirstIsRead(b, off, owners, rs, n);
      RecordsAreRead(b, RecordEnd(b, off, rs[0]), owners[1..], rs[1..], n - 1);
      assert [rs[0]] + rs[1..][..n - 1] == rs[..n];
    }
  }

  lemma NothingIsRead(b: seq<Byte>, off: nat)
    ensures Records(b, off, 0) == []
  {
  }

  lemma FirstIsRead(b: seq<Byte>, off: nat, owners: seq<Spelling>, rs: seq<Record>, n: nat)
    requires |owners| == |rs| && RecordsAt(b, off, owners, rs) && 0 < n <= |rs|
    ensures RecordsAt(b, RecordEnd(b, off, rs[0]), owners[1..], rs[1..])
    ensures Records(b, off, n) == [rs[0]] + Records(b, RecordEnd(b, off, rs[0]), n - 1)
  {
    RecordIsRead(b, off, owners[0], rs[0]);
  }

  /** The records read are the longest well-formed run, at most n of them. */
  lemma {:induction false} ReadAreRecords(b: seq<Byte>, off: nat, n: nat) returns (owners: seq<Spelling>)
    ensures IsLongestRun(b, off, owners, Records(b, off, n), n)
    decreases n
  {
    owners := [];
    if n > 0 {
      if RecordOf(b, off).Some? {
        var (r, next) := RecordOf(b, off).value;
        var first := ReadIsRecord(b, off);
        var rest := ReadAreRecords(b, next, n - 1);
        owners := [first] + rest;
        LongerRun(b, off, first, r, rest, Records(b, next, n - 1), n);
      } else {
        NoneIsRead(b, off);
      }
    }
  }

  lemma LongerRun(b: seq<Byte>, off: nat, owner: Spelling, r: Record, owners: seq<Spelling>, rest: seq<Record>, n: nat)
    requires n > 0 && RecordAt(b, off, owner, r) && IsLongestRun(b, RecordEnd(b, off, r), owners, rest, n - 1)
    ensures IsLongestRun(b, off, [owner] + owners, [r] + rest, n)
  {
    RecordsAtCons(b, off, owner, r, owners, rest);
    assert ([r] + rest)[1..] == rest;
  }

  /** Where the decoder reads no record there is none. */
  lemma NoneIsRead(b: seq<Byte>, off: nat)
    requires RecordOf(b, off).None?
    ensures forall owner, r :: !RecordAt(b, off, owner, r)
  {
    forall owner, r
      ensures !RecordAt(b, off, owner, r)
    {
      if RecordAt(b, off, owner, r) {
        RecordIsRead(b, off, owner, r);
      }
    }
  }

  lemma RecordsAtCons(b: seq<Byte>, off: nat, owner: Spelling, r: Record, owners: seq<Spelling>, rest: seq<Record>)
    requires |owners| == |rest| && RecordAt(b, off, owner, r) && RecordsAt(b, RecordEnd(b, off, r), owners, rest)
    ensures RecordsAt(b, off, [owner] + owners, [r] + rest)
  {
    assert ([r] + rest)[1..] == rest && ([owner] + owners)[1..] == owners;
  }

  /**
   * Decoding inverts every encoding: for a message with the given first question, further questions and
   * answer records, in any layout of compression pointers within the limits, the decoder returns the first name
   * written with dots in lower case, its type, the flags and the addresses of the first 64 answers in order.
   */
  lemma ParseInvertsAnyLayout(b: seq<Byte>, lower: seq<Byte> -> seq<Byte>, name: seq<Byte>, first: Spelling,
                              further: seq<Spelling>, owners: seq<Spelling>, rs: seq<Record>)
    requires |b| >= 12 && Half(b, 4) == 1 + |further| && Half(b, 6) == |rs| == |owners|
    requires QuestionAt(b, 12, first) && QuestionsAt(b, QuestionEnd(b, 12), further)
    requires RecordsAt(b, QuestionsEnd(b, QuestionEnd(b, 12), |further|), owners, rs)
    requires IsDotted(name, first.labels)
    ensures Parse(b, lower) == Some(Decoded(Half(b, 2), name, QuestionType(b, 12), rs, lower))
  {
    JoinIsDotted(name, first.labels);
    SpelledIsRead(b, 12, first);
    QuestionsAreSkipped(b, QuestionEnd(b, 12), further);
    RecordsAreRead(b, QuestionsEnd(b, QuestionEnd(b, 12), |further|), owners, rs, Min(|rs|, MAX_ANSWERS));
    ParseOf(b, lower, first.labels, QuestionsEnd(b, QuestionEnd(b, 12), |further|), rs);
  }

  lemma ParseOf(b: seq<Byte>, lower: seq<Byte> -> seq<Byte>, labels: seq<Label>, off: nat, rs: seq<Record>)
    requires |b| >= 12 && Half(b, 4) > 0 && Half(b, 6) == |rs|
    requires NameOf(b, 12) == Some((labels, Extent(b, 12))) && QuestionEnd(b, 12) <= |b|
    requires SkipQuestions(b, QuestionEnd(b, 12), Half(b, 4) - 1) == Some(off)
    requires Records(b, off, Min(|rs|, MAX_ANSWERS)) == rs[..Min(|rs|, MAX_ANSWERS)]
    ensures Parse(b, lower) == Some(Decoded(Half(b, 2), Join(labels), QuestionType(b, 12), rs, lower))
  {
  }

  /** On arbitrary bytes a message is returned exactly when its first question is there. */
  lemma ParsedIffQuestion(b: seq<Byte>, lower: seq<Byte> -> seq<Byte>)
    ensures Parse(b, lower).Some? <==> |b| >= 12 && Half(b, 4) > 0 && exists n :: QuestionAt(b, 12, n)
  {
    if Labels(b, 12, 0, 0).Some? {
      assert Spelled(b, 12, Spelling(Labels(b, 12, 0, 0).value, HopsOf(b, 12)));
      assert QuestionEnd(b, 12) <= |b| ==> QuestionAt(b, 12, Spelling(Labels(b, 12, 0, 0).value, HopsOf(b, 12)));
    }
    forall n | QuestionAt(b, 12, n)
      ensures NameOf(b, 12) == Some((n.labels, Extent(b, 12)))
    {
      SpelledIsRead(b, 12, n);
    }
  }

  /** n further questions are well-formed from off on. */
  ghost predicate AllThere(b: seq<Byte>, off: nat, n: nat) {
    exists names :: |names| == n && QuestionsAt(b, off, names)
  }

  /**
   * What is returned was read from well-formed parts only, and as far as they go: the first question, and, when
   * all further questions are well-formed, the longest run of well-formed records behind them, at most 64.
   */
  lemma ParsedParts(b: seq<Byte>, lower: seq<Byte> -> seq<Byte>)
    returns (first: Spelling, name: seq<Byte>, owners: seq<Spelling>, rs: seq<Record>)
    requires Parse(b, lower).Some?
    ensures |b| >= 12 && Half(b, 4) > 0 && QuestionAt(b, 12, first) && IsDotted(name, first.labels)
    ensures Parse(b, lower).value ==
            Message(Half(b, 2) >= 0x8000, Half(b, 2) % 16, lower(name), QuestionType(b, 12), Addresses(rs))
    ensures var off, n := QuestionEnd(b, 12), Half(b, 4) - 1;
            if AllThere(b, off, n) then
              IsLongestRun(b, QuestionsEnd(b, off, n), owners, rs, Min(Half(b, 6), MAX_ANSWERS))
            else rs == []
  {
    ParseBegins(b, lower);
    first := NameIsSpelled(b, 12);
    name := Join(first.labels);
    JoinIsDotted(name, first.labels);
    var m := Message(Half(b, 2) >= 0x8000, Half(b, 2) % 16, lower(Join(first.labels)), QuestionType(b, 12), []);
    owners, rs := CompletedParts(b, QuestionEnd(b, 12), m);
  }

  lemma ParseBegins(b: seq<Byte>, lower: seq<Byte> -> seq<Byte>)
    requires Parse(b, lower).Some?
    ensures |b| >= 12 && Half(b, 4) > 0 && NameOf(b, 12).Some? && QuestionEnd(b, 12) <= |b|
    ensures Parse(b, lower).value ==
            Completed(b, QuestionEnd(b, 12),
                      Message(Half(b, 2) >= 0x8000, Half(b, 2) % 16, lower(Join(NameOf(b, 12).value.0)),
                              QuestionType(b, 12), []))
  {
  }

  lemma NameIsSpelled(b: seq<Byte>, off: nat) returns (n: Spelling)
    requires NameOf(b, off).Some?
    ensures Spelled(b, off, n) && n.labels == NameOf(b, off).value.0
  {
    n := Spelling(Labels(b, off, 0, 0).value, HopsOf(b, off));
  }

  lemma CompletedParts(b: seq<Byte>, off: nat, m: Message) returns (owners: seq<Spelling>, rs: seq<Record>)
    requires |b| >= 12 && Half(b, 4) > 0 && m.answers == []
    ensures Completed(b, off, m) == m.(answers := Addresses(rs))
    ensures if AllThere(b, off, Half(b, 4) - 1) then
              IsLongestRun(b, QuestionsEnd(b, off, Half(b, 4) - 1), owners, rs, Min(Half(b, 6), MAX_ANSWERS))
            else rs == []
  {
    owners, rs := [], [];
    var n, most := Half(b, 4) - 1, Min(Half(b, 6), MAX_ANSWERS);
    SkippedIffAllThere(b, off, n);
    if AllThere(b, off, n) {
      rs := Records(b, QuestionsEnd(b, off, n), most);
      owners := ReadAreRecords(b, QuestionsEnd(b, off, n), most);
    }
  }

  lemma SkippedIffAllThere(b: seq<Byte>, off: nat, n: nat)
    ensures SkipQuestions(b, off, n) == if AllThere(b, off, n) then Some(QuestionsEnd(b, off, n)) else None
  {
    if SkipQuestions(b, off, n).Some? {
      var names := SkippedAreQuestions(b, off, n);
    }
    forall names | |names| == n && QuestionsAt(b, off, names)
      ensures SkipQuestions(b, off, n) == Some(QuestionsEnd(b, off, n))
    {
      QuestionsAreSkipped(b, off, names);
    }
  }

  // ---- the decoder's loops

  function Behind(labels: seq<Label>, rest: Option<seq<Label>>): Option<seq<Label>> {
    match rest
    case None => None
    case Some(more) => Some(labels + more)
  }

  lemma BehindNothing(rest: Option<seq<Label>>)
    ensures Behind([], rest) == rest
  {
    if rest.Some? {
      assert [] + rest.value == rest.value;
    }
  }

  lemma BehindStep(labels: seq<Label>, l: Label, rest: Option<seq<Label>>)
    ensures Behind(labels, Behind([l], rest)) == Behind(labels + [l], rest)
  {
    if rest.Some? {
      assert labels + ([l] + rest.value) == labels + [l] + rest.value;
    }
  }

  /** readName: the labels and the bytes they occupy; every step uses up a pointer or octets of the name. */
  method ReadName(b: seq<Byte>, off: nat) returns (r: Option<(seq<Label>, nat)>)
    ensures r == NameOf(b, off)
  {
    var labels: seq<Label> := [];
    var consumed := -1;
    var pos: nat, jumps: nat, total: nat := off, 0, 0;
    BehindNothing(Labels(b, off, 0, 0));
    while true
      invariant jumps <= MAX_HOPS && total <= MAX_OCTETS
      invariant consumed < 0 ==> off <= pos && pos - off + Extent(b, pos) == Extent(b, off)
      invariant consumed >= 0 ==> consumed == Extent(b, off)
      invariant Labels(b, off, 0, 0) == Behind(labels, Labels(b, pos, jumps, total))
      decreases MAX_HOPS - jumps, MAX_OCTETS - total
    {
      if pos >= |b| {
        return None;
      }
      var l := b[pos];
      if l == 0 {
        if consumed < 0 {
          consumed := pos + 1 - off;
        }
        assert labels + [] == labels;
        return Some((labels, consumed));
      } else if l >= 0xc0 {
        if pos + 1 >= |b| || jumps > 16 {
          return None;
        }
        if consumed < 0 {
          consumed := pos + 2 - off;
        }
        pos, jumps := Pointer(b, pos), jumps + 1;
      } else if l >= 0x40 {
        return None;
      } else {
        if pos + 1 + l > |b| {
          return None;
        }
        if total + l + 1 > MAX_OCTETS {
          return None;
        }
        total := total + l + 1;
        BehindStep(labels, b[pos + 1..pos + 1 + l], Labels(b, pos + 1 + l, jumps, total));
        labels := labels + [b[pos + 1..pos + 1 + l]];
        pos := pos + 1 + l;
      }
    }
  }

  /** parseMessage: nothing when the first question is malformed, what was read so far when a later part is. */
  method ParseMessage(b: seq<Byte>, lower: seq<Byte> -> seq<Byte>) returns (r: Option<Message>)
    ensures r == Parse(b, lower)
  {
    if |b| < 12 {
      return None;
    }
    var flags, qd := Half(b, 2), Half(b, 4);
    if qd == 0 {
      return None;
    }
    var first := ReadName(b, 12);
    if first.None? || 12 + first.value.1 + 4 > |b| {
      return None;
    }
    var off := 12 + first.value.1;
    var question := lower(Join(first.value.0));
    var m := ParseFurther(b, off + 4, Message(flags >= 0x8000, flags % 16, question, Half(b, off), []));
    return Some(m);
  }

  /** What follows the first question. */
  method ParseFurther(b: seq<Byte>, off: nat, m: Message) returns (r: Message)
    requires |b| >= 12 && Half(b, 4) > 0
    ensures r == Completed(b, off, m)
  {
    var further := SkipFurther(b, off, Half(b, 4) - 1);
    if further.None? {
      return m;
    }
    var answers := ReadAnswers(b, further.value, Half(b, 6));
    return m.(answers := answers);
  }

  /** The loop over the further questions. */
  method SkipFurther(b: seq<Byte>, start: nat, n: nat) returns (r: Option<nat>)
    ensures r == SkipQuestions(b, start, n)
  {
    var off: nat, i: nat := start, 0;
    while i < n
      invariant i <= n
      invariant SkipQuestions(b, start, n) == SkipQuestions(b, off, n - i)
    {
      var name := ReadName(b, off);
      if name.None? || off + name.value.1 + 4 > |b| {
        return None;
      }
      off := off + name.value.1 + 4;
      i := i + 1;
    }
    return Some(off);
  }

  /** One round of the loop over the answers. */
  method ReadRecord(b: seq<Byte>, off: nat) returns (r: Option<(Record, nat)>)
    ensures r == RecordOf(b, off)
  {
    var name := ReadName(b, off);
    if name.None? || off + name.value.1 + 10 > |b| {
      return None;
    }
    var o := off + name.value.1;
    var typ, rdlen := Half(b, o), Half(b, o + 8);
    if o + 10 + rdlen > |b| {
      return None;
    }
    return Some((Record(typ, b[o + 10..o + 10 + rdlen]), o + 10 + rdlen));
  }

  /** The loop over the answers. */
  method ReadAnswers(b: seq<Byte>, start: nat, an: nat) returns (answers: seq<seq<Byte>>)
    ensures answers == Addresses(Records(b, start, Min(an, MAX_ANSWERS)))
  {
    answers := [];
    var n := Min(an, MAX_ANSWERS);
    var off: nat, i: nat := start, 0;
    while i < an && i < MAX_ANSWERS
      invariant i <= n
      invariant Addresses(Records(b, start, n)) == answers + Addresses(Records(b, off, n - i))
    {
      var one := ReadRecord(b, off);
      if one.None? {
        return;
      }
      var (r, next) := one.value;
      AddressesStep(answers, r, Records(b, next, n - i - 1));
      if (r.typ == TYPE_A && |r.rdata| == 4) || (r.typ == TYPE_AAAA && |r.rdata| == 16) {
        answers := answers + [r.rdata];
      }
      off, i := next, i + 1;
    }
  }

  lemma AddressesStep(before: seq<seq<Byte>>, r: Record, rest: seq<Record>)
    ensures before + Addresses([r] + rest) == (if IsAddress(r) then before + [r.rdata] else before) + Addresses(rest)
  {
    assert ([r] + rest)[1..] == rest;
  }
}
