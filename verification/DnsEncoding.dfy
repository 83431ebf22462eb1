/**
 * The layout servers use: the question name in full, and a pointer to it as the owner of every answer (section
 * 4.1.4 of RFC 1035). The identifier, the counts of the other sections, the class of the question, the class
 * and time to live of the answers and whatever follows them are free. The decoder of DnsMessage inverts it.
 */
module DnsEncoding {
  import opened Collections
  import opened Packets
  import opened DnsMessage
  import Sequences

  predicate ValidLabels(labels: seq<Label>) {
    forall l | l in labels :: 1 <= |l| <= 63
  }

  function EncodeName(labels: seq<Label>): seq<Byte>
    requires ValidLabels(labels)
  {
    if labels == [] then [0]
    else
      assert labels[0] in labels;
      [|labels[0]|] + labels[0] + EncodeName(labels[1..])
  }

  /** An answer: its data, and the class and time to live the decoder passes over. */
  datatype Answer = Answer(record: Record, meta: seq<Byte>)

  predicate ValidAnswer(a: Answer) {
    a.record.typ < 0x1_0000 && |a.record.rdata| < 0x1_0000 && |a.meta| == 6
  }

  predicate ValidAnswers(answers: seq<Answer>) {
    answers == [] || (ValidAnswer(answers[0]) && ValidAnswers(answers[1..]))
  }

  function EncodeAnswer(a: Answer): seq<Byte>
    requires ValidAnswer(a)
  {
    Split16(0xc00c) + Split16(a.record.typ) + a.meta + Split16(|a.record.rdata|) + a.record.rdata
  }

  function EncodeAnswers(answers: seq<Answer>): seq<Byte>
    requires ValidAnswers(answers)
  {
    if answers == [] then [] else EncodeAnswer(answers[0]) + EncodeAnswers(answers[1..])
  }

  function RecordsOf(answers: seq<Answer>): (rs: seq<Record>)
    ensures |rs| == |answers|
  {
    if answers == [] then [] else [answers[0].record] + RecordsOf(answers[1..])
  }

  /** x stands at off in b. */
  predicate At(b: seq<Byte>, off: nat, x: seq<Byte>) {
    off + |x| <= |b| && b[off..off + |x|] == x
  }

  lemma AtConcat(b: seq<Byte>, off: nat, x: seq<Byte>, y: seq<Byte>)
    requires At(b, off, x + y)
    ensures At(b, off, x) && At(b, off + |x|, y)
  {
    var all := b[off..off + |x + y|];
    assert b[off..off + |x|] == all[..|x|] && b[off + |x|..off + |x| + |y|] == all[|x|..];
  }

  lemma AtIndex(b: seq<Byte>, off: nat, x: seq<Byte>, i: nat)
    requires At(b, off, x) && i < |x|
    ensures b[off + i] == x[i]
  {
    assert b[off..off + |x|][i] == x[i];
  }

  lemma AtHalf(b: seq<Byte>, off: nat, n: nat)
    requires n < 0x1_0000 && At(b, off, Split16(n))
    ensures Half(b, off) == n
  {
    AtIndex(b, off, Split16(n), 0);
    AtIndex(b, off, Split16(n), 1);
  }

  /** A pointer to a name, at any offset 14 bits can hold, reads as that name, one hop further. */
  lemma PointerReadsTarget(b: seq<Byte>, pos: nat, target: nat, labels: seq<Label>, hops: nat)
    requires target < 0x4000 && At(b, pos, Split16(0xc000 + target)) && NameAt(b, target, labels, hops)
    ensures NameAt(b, pos, labels, hops + 1) && Extent(b, pos) == 2
  {
    AtHalf(b, pos, 0xc000 + target);
    AtIndex(b, pos, Split16(0xc000 + target), 0);
  }

  lemma NameBehindLabel(b: seq<Byte>, pos: nat, labels: seq<Label>)
    requires labels != [] && 1 <= |labels[0]| <= 63 && pos + 1 + |labels[0]| <= |b|
    requires b[pos] == |labels[0]| && b[pos + 1..pos + 1 + |labels[0]|] == labels[0]
    requires NameAt(b, pos + 1 + |labels[0]|, labels[1..], 0)
    ensures NameAt(b, pos, labels, 0)
    ensures Extent(b, pos) == 1 + |labels[0]| + Extent(b, pos + 1 + |labels[0]|)
  {
  }

  lemma LabelStands(b: seq<Byte>, off: nat, labels: seq<Label>)
    requires ValidLabels(labels) && labels != [] && At(b, off, EncodeName(labels))
    ensures var l := labels[0];
            && 1 <= |l| <= 63 && off + 1 + |l| <= |b| && b[off] == |l| && b[off + 1..off + 1 + |l|] == l
            && At(b, off + 1 + |l|, EncodeName(labels[1..]))
            && |EncodeName(labels)| == 1 + |l| + |EncodeName(labels[1..])|
            && Octets(labels) == 1 + |l| + Octets(labels[1..])
  {
    hide *;
    NameParts(labels);
    var l, rest := labels[0], EncodeName(labels[1..]);
    AtConcat(b, off, [|l|] + l, rest);
    LabelHead(b, off, l);
  }

  lemma NameParts(labels: seq<Label>)
    requires ValidLabels(labels) && labels != []
    ensures ValidLabels(labels[1..]) && 1 <= |labels[0]| <= 63
    ensures Octets(labels) == 1 + |labels[0]| + Octets(labels[1..])
    ensures EncodeName(labels) == ([|labels[0]|] + labels[0]) + EncodeName(labels[1..])
  {
    assert labels[0] in labels;
  }

  lemma LabelHead(b: seq<Byte>, off: nat, l: Label)
    requires 1 <= |l| <= 63 && At(b, off, [|l|] + l)
    ensures off + 1 + |l| <= |b| && b[off] == |l| && b[off + 1..off + 1 + |l|] == l
  {
    AtConcat(b, off, [|l|], l);
    AtIndex(b, off, [|l|], 0);
  }

  /** A name written out in full is found where it stands. */
  lemma {:induction false} PlainNameAt(b: seq<Byte>, off: nat, labels: seq<Label>)
    requires ValidLabels(labels) && At(b, off, EncodeName(labels))
    ensures NameAt(b, off, labels, 0)
    ensures Extent(b, off) == |EncodeName(labels)| == Octets(labels) + 1
    decreases |labels|
  {
    if labels == [] {
      AtIndex(b, off, [0], 0);
    } else {
      LabelStands(b, off, labels);
      PlainNameAt(b, off + 1 + |labels[0]|, labels[1..]);
      NameBehindLabel(b, off, labels);
    }
  }

  lemma AnswerAt(b: seq<Byte>, off: nat, a: Answer, labels: seq<Label>)
    requires ValidAnswer(a) && At(b, off, EncodeAnswer(a))
    requires NameAt(b, 12, labels, 0) && Octets(labels) <= MAX_OCTETS
    ensures RecordAt(b, off, Spelling(labels, 1), a.record)
    ensures RecordEnd(b, off, a.record) == off + |EncodeAnswer(a)|
  {
    var typ, len, data := Split16(a.record.typ), Split16(|a.record.rdata|), a.record.rdata;
    var owner := Split16(0xc00c);
    AtConcat(b, off, owner + typ + a.meta + len, data);
    AtConcat(b, off, owner + typ + a.meta, len);
    AtConcat(b, off, owner + typ, a.meta);
    AtConcat(b, off, owner, typ);
    AtHalf(b, off + 2, a.record.typ);
    AtHalf(b, off + 10, |data|);
    PointerReadsTarget(b, off, 12, labels, 0);
  }

  /** Every answer is about the question's name. */
  function Owners(n: nat, labels: seq<Label>): (owners: seq<Spelling>)
    ensures |owners| == n
  {
    if n == 0 then [] else [Spelling(labels, 1)] + Owners(n - 1, labels)
  }

  lemma {:induction false} AnswersAt(b: seq<Byte>, off: nat, answers: seq<Answer>, labels: seq<Label>)
    requires ValidAnswers(answers) && At(b, off, EncodeAnswers(answers))
    requires NameAt(b, 12, labels, 0) && Octets(labels) <= MAX_OCTETS
    ensures RecordsAt(b, off, Owners(|answers|, labels), RecordsOf(answers))
    decreases |answers|
  {
    hide *;
    if answers == [] {
      NoAnswers(b, off, labels);
    } else {
      FirstAnswerAt(b, off, answers, labels);
      AnswersAt(b, off + |EncodeAnswer(answers[0])|, answers[1..], labels);
      MoreAnswersAt(b, off, answers, labels);
    }
  }

  lemma NoAnswers(b: seq<Byte>, off: nat, labels: seq<Label>)
    ensures RecordsAt(b, off, Owners(0, labels), RecordsOf([]))
  {
  }

  lemma MoreAnswersAt(b: seq<Byte>, off: nat, answers: seq<Answer>, labels: seq<Label>)
    requires answers != [] && ValidAnswers(answers)
    requires RecordAt(b, off, Spelling(labels, 1), answers[0].record)
    requires RecordEnd(b, off, answers[0].record) == off + |EncodeAnswer(answers[0])|
    requires RecordsAt(b, off + |EncodeAnswer(answers[0])|, Owners(|answers| - 1, labels), RecordsOf(answers[1..]))
    ensures RecordsAt(b, off, Owners(|answers|, labels), RecordsOf(answers))
  {
    RecordsAtCons(b, off, Spelling(labels, 1), answers[0].record,
                  Owners(|answers| - 1, labels), RecordsOf(answers[1..]));
  }

  lemma FirstAnswerAt(b: seq<Byte>, off: nat, answers: seq<Answer>, labels: seq<Label>)
    requires answers != [] && ValidAnswers(answers) && At(b, off, EncodeAnswers(answers))
    requires NameAt(b, 12, labels, 0) && Octets(labels) <= MAX_OCTETS
    ensures ValidAnswer(answers[0]) && RecordAt(b, off, Spelling(labels, 1), answers[0].record)
    ensures RecordEnd(b, off, answers[0].record) == off + |EncodeAnswer(answers[0])|
    ensures ValidAnswers(answers[1..]) && At(b, off + |EncodeAnswer(answers[0])|, EncodeAnswers(answers[1..]))
  {
    hide At, EncodeAnswer, RecordAt, RecordEnd, NameAt, Octets, ValidAnswer;
    AtConcat(b, off, EncodeAnswer(answers[0]), EncodeAnswers(answers[1..]));
    AnswerAt(b, off, answers[0], labels);
  }

  /** A response with one question; id, counts of the other sections and what follows are free. */
  function EncodeResponse(id: seq<Byte>, flags: nat, others: seq<Byte>, labels: seq<Label>, qtype: nat,
                          qclass: seq<Byte>, answers: seq<Answer>, tail: seq<Byte>): seq<Byte>
    requires |id| == 2 && flags < 0x1_0000 && |others| == 4 && |qclass| == 2 && qtype < 0x1_0000
    requires ValidLabels(labels) && ValidAnswers(answers) && |answers| < 0x1_0000
  {
    Header(id, flags, |answers|, others)
    + EncodeName(labels) + (Split16(qtype) + qclass) + EncodeAnswers(answers) + tail
  }

  function Header(id: seq<Byte>, flags: nat, answers: nat, others: seq<Byte>): seq<Byte>
    requires |id| == 2 && flags < 0x1_0000 && |others| == 4 && answers < 0x1_0000
  {
    id + Split16(flags) + Split16(1) + Split16(answers) + others
  }

  lemma PartsAt(b: seq<Byte>, pre: seq<Byte>, name: seq<Byte>, qt: seq<Byte>, qc: seq<Byte>, rest: seq<Byte>,
                tail: seq<Byte>)
    requires b == pre + name + (qt + qc) + rest + tail
    ensures At(b, |pre| + |name|, qt) && At(b, |pre| + |name| + |qt| + |qc|, rest)
    ensures At(b, |pre|, name) && b == pre + (name + (qt + qc + rest + tail))
  {
    var front := pre + name + (qt + qc);
    Sequences.ConcatAssoc(front, rest, tail);
    AtConcat(b, |pre| + |name|, qt, qc);
    Sequences.ConcatAssoc(qt + qc, rest, tail);
    Sequences.ConcatAssoc(pre + name, qt + qc, rest + tail);
    Sequences.ConcatAssoc(pre, name, qt + qc + rest + tail);
  }

  lemma ResponseHeader(b: seq<Byte>, id: seq<Byte>, flags: nat, others: seq<Byte>, answers: nat, rest: seq<Byte>)
    requires |id| == 2 && flags < 0x1_0000 && |others| == 4 && answers < 0x1_0000
    requires b == Header(id, flags, answers, others) + rest
    ensures |b| >= 12 && Half(b, 2) == flags && Half(b, 4) == 1 && Half(b, 6) == answers
  {
    assert [] + Header(id, flags, answers, others) == Header(id, flags, answers, others);
  }

  lemma ResponseLayout(b: seq<Byte>, id: seq<Byte>, flags: nat, others: seq<Byte>,
                       labels: seq<Label>, qtype: nat, qclass: seq<Byte>, answers: seq<Answer>, tail: seq<Byte>)
    requires |id| == 2 && flags < 0x1_0000 && |others| == 4 && |qclass| == 2 && qtype < 0x1_0000
    requires ValidLabels(labels) && ValidAnswers(answers) && |answers| < 0x1_0000
    requires b == EncodeResponse(id, flags, others, labels, qtype, qclass, answers, tail)
    ensures |b| >= 12 && Half(b, 2) == flags && Half(b, 4) == 1 && Half(b, 6) == |answers|
    ensures NameAt(b, 12, labels, 0)
    ensures At(b, 12 + Extent(b, 12), Split16(qtype))
    ensures QuestionEnd(b, 12) <= |b| && At(b, QuestionEnd(b, 12), EncodeAnswers(answers))
  {
    var pre, name := Header(id, flags, |answers|, others), EncodeName(labels);
    var qt, rest := Split16(qtype), EncodeAnswers(answers);
    HeaderSize(id, flags, |answers|, others);
    PartsAt(b, pre, name, qt, qclass, rest, tail);
    ResponseHeader(b, id, flags, others, |answers|, name + (qt + qclass + rest + tail));
    PlainNameAt(b, 12, labels);
  }

  lemma HeaderSize(id: seq<Byte>, flags: nat, answers: nat, others: seq<Byte>)
    requires |id| == 2 && flags < 0x1_0000 && |others| == 4 && answers < 0x1_0000
    ensures |Header(id, flags, answers, others)| == 12
  {
  }

  /** Decoding inverts this encoding: the name comes back with dots between its labels. */
  lemma ParseInvertsEncode(lower: seq<Byte> -> seq<Byte>, id: seq<Byte>, flags: nat, others: seq<Byte>,
                           labels: seq<Label>, name: seq<Byte>, qtype: nat, qclass: seq<Byte>, answers: seq<Answer>,
                           tail: seq<Byte>)
    requires |id| == 2 && flags < 0x1_0000 && |others| == 4 && |qclass| == 2 && qtype < 0x1_0000
    requires ValidLabels(labels) && ValidAnswers(answers) && |answers| < 0x1_0000 && Octets(labels) <= MAX_OCTETS
    requires IsDotted(name, labels)
    ensures Parse(EncodeResponse(id, flags, others, labels, qtype, qclass, answers, tail), lower)
            == Some(Decoded(flags, name, qtype, RecordsOf(answers), lower))
  {
    var b := EncodeResponse(id, flags, others, labels, qtype, qclass, answers, tail);
    ResponseLayout(b, id, flags, others, labels, qtype, qclass, answers, tail);
    LaidOutIsDecoded(b, lower, labels, name, qtype, answers);
  }

  lemma LaidOutIsDecoded(b: seq<Byte>, lower: seq<Byte> -> seq<Byte>, labels: seq<Label>, name: seq<Byte>,
                         qtype: nat, answers: seq<Answer>)
    requires IsDotted(name, labels) && ValidAnswers(answers) && qtype < 0x1_0000 && Octets(labels) <= MAX_OCTETS
    requires |b| >= 12 && Half(b, 4) == 1 && Half(b, 6) == |answers| && NameAt(b, 12, labels, 0)
    requires At(b, 12 + Extent(b, 12), Split16(qtype))
    requires QuestionEnd(b, 12) <= |b| && At(b, QuestionEnd(b, 12), EncodeAnswers(answers))
    ensures Parse(b, lower) == Some(Decoded(Half(b, 2), name, qtype, RecordsOf(answers), lower))
  {
    AnswersAt(b, QuestionEnd(b, 12), answers, labels);
    OneQuestion(b, lower, labels, name, Owners(|answers|, labels), RecordsOf(answers));
    TypeAt(b, qtype);
  }

  lemma TypeAt(b: seq<Byte>, qtype: nat)
    requires qtype < 0x1_0000 && QuestionEnd(b, 12) <= |b| && At(b, 12 + Extent(b, 12), Split16(qtype))
    ensures QuestionType(b, 12) == qtype
  {
    AtHalf(b, 12 + Extent(b, 12), qtype);
  }

  lemma OneQuestion(b: seq<Byte>, lower: seq<Byte> -> seq<Byte>, labels: seq<Label>, name: seq<Byte>,
                    owners: seq<Spelling>, rs: seq<Record>)
    requires IsDotted(name, labels) && |b| >= 12 && Half(b, 4) == 1 && Half(b, 6) == |rs| == |owners|
    requires Octets(labels) <= MAX_OCTETS && NameAt(b, 12, labels, 0)
    requires QuestionEnd(b, 12) <= |b| && RecordsAt(b, QuestionEnd(b, 12), owners, rs)
    ensures Parse(b, lower) == Some(Decoded(Half(b, 2), name, QuestionType(b, 12), rs, lower))
  {
    ParseInvertsAnyLayout(b, lower, name, Spelling(labels, 0), [], owners, rs);
  }
}
