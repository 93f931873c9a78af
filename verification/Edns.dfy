/**
 The server's fixed-offset look for the client's OPT record, against the query as a reader of
 section 4.1 of RFC 1035 sees it.
 */
module Edns {
  import opened Octets
  import opened Names
  import opened QueryReader
  import opened RoundTrip
  import D = Decoder

  /** All records of a message, in the order in which they stand on the wire. */
  function RecordsOf(m: D.Message): seq<D.Record> { m.answers + m.authority + m.additional }

  /** Section 6.1.1 of RFC 6891: an OPT record of the root, anywhere in the additional section. */
  ghost predicate HasOpt(m: D.Message) {
    exists r :: r in m.additional && r.typ == TYPE_OPT && r.name == []
  }

  /** The record that stands behind the question is an OPT record owned by one zero octet. */
  predicate OptBehindQuestion(query: Bytes, m: D.Message)
    requires QuestionSectionEnd(query).Some?
  {
    var end := QuestionSectionEnd(query).value;
    RecordsOf(m) != [] && RecordsOf(m)[0].typ == TYPE_OPT && end < |query| && query[end] == 0
  }

  lemma FirstRecord(msg: Bytes, pos: nat, n: nat)
    requires pos <= |msg| && n > 0 && D.DecodeRecords(msg, pos, n).Some?
    ensures D.DecodeRecord(msg, pos).Some?
    ensures D.DecodeRecords(msg, pos, n).value.0 != [] && D.DecodeRecords(msg, pos, n).value.0[0] == D.DecodeRecord(msg, pos).value.0
  {
    hide D.DecodeRecord;
  }

  lemma {:induction false} CountRecords(msg: Bytes, pos: nat, n: nat)
    requires pos <= |msg| && D.DecodeRecords(msg, pos, n).Some?
    ensures |D.DecodeRecords(msg, pos, n).value.0| == n
    ensures n == 0 ==> D.DecodeRecords(msg, pos, n).value.1 == pos
    decreases n
  {
    hide D.DecodeRecord;
    if n > 0 {
      CountRecords(msg, D.DecodeRecord(msg, pos).value.1, n - 1);
    }
  }

  /** Whichever sections are empty, the first record of a message stands behind its question. */
  lemma FirstBehindQuestion(msg: Bytes, m: D.Message, end: nat)
    requires |msg| >= 12 && D.Decode(msg) == Some(m) && D.DecodeQuestions(msg, 12, U16At(msg, 4)) == Some((m.questions, end))
    ensures |m.answers| == U16At(msg, 6) && |m.authority| == U16At(msg, 8) && |m.additional| == U16At(msg, 10)
    ensures RecordsOf(m) == [] ==> end == |msg|
    ensures RecordsOf(m) != [] ==> D.DecodeRecord(msg, end).Some? && RecordsOf(m)[0] == D.DecodeRecord(msg, end).value.0
  {
    hide D.DecodeQuestions, D.DecodeRecords, D.DecodeRecord, D.DecodeHeader, U16At;
    var an, ns, ar := U16At(msg, 6), U16At(msg, 8), U16At(msg, 10);
    var (a, p) := D.DecodeRecords(msg, end, an).value;
    var (b, q) := D.DecodeRecords(msg, p, ns).value;
    CountRecords(msg, end, an);
    CountRecords(msg, p, ns);
    CountRecords(msg, q, ar);
    if an > 0 {
      FirstRecord(msg, end, an);
    } else if ns > 0 {
      FirstRecord(msg, end, ns);
    } else if ar > 0 {
      FirstRecord(msg, end, ar);
    }
  }

  /** A record whose owner is one zero octet, field by field. */
  lemma RootRecord(msg: Bytes, end: nat)
    requires end < |msg| && msg[end] == 0 && D.DecodeRecord(msg, end).Some?
    ensures end + 11 <= |msg|
    ensures var r := D.DecodeRecord(msg, end).value.0;
            r.name == [] && r.typ == U16At(msg, end + 1) && r.cls == U16At(msg, end + 3) && r.ttl == U32At(msg, end + 5)
  {
    RootName(msg, end);
    hide D.DecodeName, U16At, U32At;
  }

  lemma RootName(msg: Bytes, end: nat)
    requires end < |msg| && msg[end] == 0
    ensures D.DecodeName(msg, end, end) == Some(([], end + 1))
  {
  }

  /** The DO bit is bit 15 of what section 4.1.3 of RFC 1035 calls the TTL. */
  lemma DoBit(msg: Bytes, p: nat)
    requires p + 4 <= |msg|
    ensures (U32At(msg, p) / 0x8000) % 2 == 1 <==> msg[p + 2] >= 0x80
  {
    var upper: nat, c: byte, d: byte := U16At(msg, p), msg[p + 2], msg[p + 3];
    var high: nat := if c >= 0x80 then 1 else 0;
    assert U32At(msg, p) as int == upper * 0x1_0000 + c as int * 0x100 + d as int;
    hide U16At, U32At;
    QuotientIs(U32At(msg, p), 2 * upper + high, (c as int - 0x80 * high) * 0x100 + d as int);
  }

  lemma QuotientIs(n: nat, q: nat, low: nat)
    requires n == 0x8000 * q + low && low < 0x8000
    ensures n / 0x8000 == q
  {
  }

  lemma ScanSees(query: Bytes, end: nat)
    requires QuestionSectionEnd(query) == Some(end)
    ensures QueryHasOpt(query)
       <==> U16At(query, 10) > 0 && |query| >= end + 11 && query[end] == 0 && U16At(query, end + 1) == TYPE_OPT
    ensures QueryHasOpt(query) ==>
              ParseQueryOpt(query).value == (Max(U16At(query, end + 3), 512), query[end + 7] >= 0x80)
  {
    hide QuestionSectionEnd;
    if |query| >= end + 11 {
      var rest := query[end..];
      assert rest[0] == query[end] && rest[1] == query[end + 1] && rest[2] == query[end + 2];
      assert rest[3] == query[end + 3] && rest[4] == query[end + 4] && rest[7] == query[end + 7];
    }
  }

  /** What the scan reads, for every query that decodes: the first record behind the question, in
      whichever section, and only if the additional section is not empty. */
  lemma OptScanExact(query: Bytes, qname: Labels, m: D.Message)
    requires Asks(query, qname) && ValidName(qname) && D.Decode(query) == Some(m)
    ensures QuestionSectionEnd(query).Some?
    ensures QueryHasOpt(query) <==> m.additional != [] && OptBehindQuestion(query, m)
    ensures QueryHasOpt(query) ==>
              && ParseQueryOpt(query).value.0 == Max(RecordsOf(m)[0].cls, 512)
              && (QueryDnssecOk(query) <==> (RecordsOf(m)[0].ttl / 0x8000) % 2 == 1)
  {
    hide Asks, ValidName, D.Decode, D.DecodeQuestions, D.DecodeRecord, U16At, U32At, Wire, QuestionSectionEnd, ParseQueryOpt, RecordsOf;
    QuestionEndAt(query, qname);
    var end := QuestionSectionEnd(query).value;
    QuestionOnWire(query, qname);
    DecodedQuestions(query, qname, m);
    FirstBehindQuestion(query, m, end);
    ScanSees(query, end);
    if m.additional != [] {
      AdditionalAmongAll(m);
    }
    if RecordsOf(m) != [] && query[end] == 0 {
      RootRecord(query, end);
      DoBit(query, end + 5);
    }
  }

  /** What a datagram may hold by the query as read: the size that the record behind the question
      advertises, if that is an OPT record, but not less than 512 nor more than 1232 octets. */
  function AllowedSize(query: Bytes, m: D.Message): nat
    requires QuestionSectionEnd(query).Some?
  {
    if m.additional == [] || !OptBehindQuestion(query, m) || RecordsOf(m)[0].cls < 512 then 512
    else if RecordsOf(m)[0].cls > 1232 then 1232
    else RecordsOf(m)[0].cls
  }

  /** The server keeps to that size. */
  lemma LimitIsAllowed(query: Bytes, qname: Labels, m: D.Message)
    requires Asks(query, qname) && ValidName(qname) && D.Decode(query) == Some(m)
    ensures QuestionSectionEnd(query).Some? && UdpResponseLimit(query) == AllowedSize(query, m)
  {
    hide Asks, ValidName, D.Decode, QuestionSectionEnd, ParseQueryOpt, RecordsOf;
    OptScanExact(query, qname, m);
  }

  lemma AdditionalAmongAll(m: D.Message)
    requires m.additional != []
    ensures RecordsOf(m) != []
  {
  }

  lemma QuestionOnWire(query: Bytes, qname: Labels)
    requires Asks(query, qname) && QuestionSectionEnd(query) == Some(12 + |Wire(qname)| + 4)
    ensures |query| >= 12 && U16At(query, 4) == 1
    ensures At(query, 12, query[12..QuestionSectionEnd(query).value])
  {
    hide Wire, QuestionSectionEnd;
  }

  lemma DecodedQuestions(query: Bytes, qname: Labels, m: D.Message)
    requires Asks(query, qname) && ValidName(qname) && D.Decode(query) == Some(m)
    requires QuestionSectionEnd(query) == Some(12 + |Wire(qname)| + 4)
    ensures |query| >= 12 && D.DecodeQuestions(query, 12, U16At(query, 4)) == Some((m.questions, QuestionSectionEnd(query).value))
  {
    hide Asks, ValidName, D.DecodeQuestions, D.DecodeRecords, D.DecodeHeader, U16At, Wire, QuestionSectionEnd;
    QuestionOnWire(query, qname);
    QuestionDecodes(query, query, qname);
  }

  /** The scan is right about a query without answers and authority, whose additional section has
      an OPT record at most in front, written with one zero octet for the root. */
  lemma OptScanRight(query: Bytes, qname: Labels, m: D.Message)
    requires Asks(query, qname) && ValidName(qname) && D.Decode(query) == Some(m)
    requires m.answers == [] && m.authority == []
    requires forall i | 0 < i < |m.additional| :: m.additional[i].typ != TYPE_OPT
    requires m.additional != [] && m.additional[0].typ == TYPE_OPT ==>
               QuestionSectionEnd(query).Some? && QuestionSectionEnd(query).value < |query| && query[QuestionSectionEnd(query).value] == 0
    ensures QueryHasOpt(query) <==> HasOpt(m)
  {
    hide Asks, ValidName, D.Decode, QuestionSectionEnd, QueryHasOpt;
    OptScanExact(query, qname, m);
    assert RecordsOf(m) == m.additional;
    if QueryHasOpt(query) {
      OptOwner(query, qname, m);
      assert m.additional[0] in m.additional;
    }
  }

  lemma OptOwner(query: Bytes, qname: Labels, m: D.Message)
    requires Asks(query, qname) && ValidName(qname) && D.Decode(query) == Some(m) && QueryHasOpt(query)
    ensures RecordsOf(m) != [] && RecordsOf(m)[0].name == []
  {
    hide Asks, ValidName, D.Decode, D.DecodeQuestions, D.DecodeRecord, U16At, U32At, Wire, QuestionSectionEnd, QueryHasOpt, RecordsOf;
    QuestionEndAt(query, qname);
    var end := QuestionSectionEnd(query).value;
    OptScanExact(query, qname, m);
    DecodedQuestions(query, qname, m);
    FirstBehindQuestion(query, m, end);
    ScanSees(query, end);
    RootRecord(query, end);
  }

  // ----- queries about which the scan is wrong ---------------------------------

  /** A record of the root without RDATA, class 1232 and TTL 0x8000. */
  function EmptyRecord(typ: byte): Bytes { [0, 0, typ, 4, 208, 0, 0, 128, 0, 0, 0] }

  /** A query for "a" with two such records, split over the answer and the additional section. */
  function TwoRecordQuery(an: byte, ar: byte, first: byte, second: byte): Bytes {
    AskingA(an, ar) + EmptyRecord(first) + EmptyRecord(second)
  }

  /** Header and question. */
  function AskingA(an: byte, ar: byte): Bytes { [0, 0, 0, 0, 0, 1, 0, an, 0, 0, 0, ar, 1, 97, 0, 0, 1, 0, 1] }

  function EmptyAsRead(typ: byte): D.Record { D.Record([], typ, 1232, 0x8000, []) }

  lemma EmptyFields(msg: Bytes, pos: nat, typ: byte)
    requires At(msg, pos, EmptyRecord(typ))
    ensures pos + 11 <= |msg| && msg[pos] == 0
    ensures U16At(msg, pos + 1) == typ && U16At(msg, pos + 3) == 1232 && U32At(msg, pos + 5) == 0x8000 && U16At(msg, pos + 9) == 0
  {
    AtBounds(msg, pos, EmptyRecord(typ));
    forall i | 0 <= i < 11 ensures msg[pos + i] == EmptyRecord(typ)[i] {
      AtIndex(msg, pos, EmptyRecord(typ), i);
    }
    hide At;
  }

  lemma EmptyReads(msg: Bytes, pos: nat, typ: byte)
    requires At(msg, pos, EmptyRecord(typ))
    ensures D.DecodeRecord(msg, pos) == Some((EmptyAsRead(typ), pos + 11))
  {
    hide At, EmptyRecord, U16At, U32At, D.DecodeName, D.DecodeRecord;
    EmptyFields(msg, pos, typ);
    RootName(msg, pos);
    assert msg[pos + 11..pos + 11] == [];
    RecordFrom(msg, pos, pos + 1, EmptyAsRead(typ));
  }

  lemma TwoParts(an: byte, ar: byte, first: byte, second: byte)
    ensures var q := TwoRecordQuery(an, ar, first, second);
            && |q| == 41 && At(q, 12, Wire([[97]])) && At(q, 19, EmptyRecord(first)) && At(q, 30, EmptyRecord(second))
            && U16At(q, 4) == 1 && U16At(q, 6) == an && U16At(q, 8) == 0 && U16At(q, 10) == ar && q[19] == 0
            && U16At(q, 15) == 1 && U16At(q, 17) == 1
  {
    WireOfOne([97]);
    var head, q := AskingA(an, ar), TwoRecordQuery(an, ar, first, second);
    assert |head| == 19 && |EmptyRecord(first)| == 11 && |EmptyRecord(second)| == 11 && EmptyRecord(first)[0] == 0;
    assert head[12..15] == [1, 97, 0] && Wire([[97]]) == [1, 97, 0];
    AskingCounts(an, ar);
    hide AskingA, EmptyRecord, Wire;
    assert forall i | 0 <= i < 19 :: q[i] == head[i];
    assert q[12..15] == head[12..15];
    assert q[19..30] == EmptyRecord(first) && q[30..41] == EmptyRecord(second);
    assert q[19] == q[19..30][0];
  }

  lemma AskingCounts(an: byte, ar: byte)
    ensures var head := AskingA(an, ar);
            && |head| == 19 && U16At(head, 4) == 1 && U16At(head, 6) == an && U16At(head, 8) == 0 && U16At(head, 10) == ar
            && U16At(head, 15) == 1 && U16At(head, 17) == 1
  {
  }

  lemma TwoAsked(an: byte, ar: byte, first: byte, second: byte)
    ensures Asks(TwoRecordQuery(an, ar, first, second), [[97]]) && ValidName([[97]])
  {
    TwoParts(an, ar, first, second);
    WireOfOne([97]);
    assert ValidUtf8([97][1..]);
    assert PlainLabel([97]);
    hide TwoRecordQuery;
  }

  lemma TwoHeads(an: byte, ar: byte, first: byte, second: byte)
    ensures var q := TwoRecordQuery(an, ar, first, second);
            |q| == 41 && HeadAt(q, D.DecodeHeader(q), D.Question([[97]], 1, 1), 19, an, 0, ar)
  {
    TwoParts(an, ar, first, second);
    TwoAsked(an, ar, first, second);
    WireOfOne([97]);
    hide TwoRecordQuery, D.DecodeHeader, D.DecodeQuestions, D.DecodeName, U16At, ValidName, EmptyRecord, Asks, At;
    var q := TwoRecordQuery(an, ar, first, second);
    D.NameDecodes(q, 12, 12, [[97]]);
    LastQuestion(q, 12, 1, D.Question([[97]], 1, 1), 15);
  }

  lemma OneRead(msg: Bytes, pos: nat, typ: byte)
    requires At(msg, pos, EmptyRecord(typ))
    ensures RecordsAt(msg, pos, 1, [EmptyAsRead(typ)], pos + 11)
  {
    AtBounds(msg, pos, EmptyRecord(typ));
    EmptyReads(msg, pos, typ);
    hide D.DecodeRecord, D.DecodeRecords, At;
    OneRecord(msg, pos);
  }

  lemma NoneRead(msg: Bytes, pos: nat)
    requires pos <= |msg|
    ensures RecordsAt(msg, pos, 0, [], pos)
  {
  }

  lemma BothRead(msg: Bytes, pos: nat, first: byte, second: byte)
    requires At(msg, pos, EmptyRecord(first)) && At(msg, pos + 11, EmptyRecord(second))
    ensures RecordsAt(msg, pos, 2, [EmptyAsRead(first), EmptyAsRead(second)], pos + 22)
  {
    OneRead(msg, pos, first);
    OneRead(msg, pos + 11, second);
    hide D.DecodeRecords, At;
    DecodeRecordsConcat(msg, pos, 1, 1);
    assert [EmptyAsRead(first)] + [EmptyAsRead(second)] == [EmptyAsRead(first), EmptyAsRead(second)];
  }

  /** An OPT record behind another additional record goes unseen: no OPT in the reply, no DO bit,
      and a limit of 512 octets. */
  lemma SecondOptUnseen()
    ensures var q := TwoRecordQuery(0, 2, 16, 41);
            && D.Decode(q).Some? && HasOpt(D.Decode(q).value)
            && !QueryHasOpt(q) && !QueryDnssecOk(q) && UdpResponseLimit(q) == 512 && forall ok :: OptRecords(q, ok) == []
  {
    var q := TwoRecordQuery(0, 2, 16, 41);
    TwoHeads(0, 2, 16, 41);
    TwoParts(0, 2, 16, 41);
    TwoAsked(0, 2, 16, 41);
    hide TwoRecordQuery, D.Decode, D.DecodeHeader, HeadAt, RecordsAt, At, Asks, ValidName, QueryHasOpt, QuestionSectionEnd, U16At;
    NoneRead(q, 19);
    BothRead(q, 19, 16, 41);
    var records := [EmptyAsRead(16), EmptyAsRead(41)];
    MessageFrom(q, D.DecodeHeader(q), D.Question([[97]], 1, 1), 0, 0, 2, [], [], records, 19, 19, 19);
    var m := D.Decode(q).value;
    assert m.additional == records && records[1] in m.additional;
    assert RecordsOf(m)[0] == records[0];
    OptScanExact(q, [[97]], m);
    LimitWithout(q);
  }

  lemma LimitWithout(q: Bytes)
    requires !QueryHasOpt(q)
    ensures !QueryDnssecOk(q) && UdpResponseLimit(q) == 512 && forall ok :: OptRecords(q, ok) == []
  {
  }

  lemma SplitReads()
    ensures var q := TwoRecordQuery(1, 1, 41, 16);
            D.Decode(q) == Some(D.Message(D.DecodeHeader(q), [D.Question([[97]], 1, 1)], [EmptyAsRead(41)], [], [EmptyAsRead(16)]))
  {
    var q := TwoRecordQuery(1, 1, 41, 16);
    TwoHeads(1, 1, 41, 16);
    TwoParts(1, 1, 41, 16);
    hide TwoRecordQuery, D.Decode, D.DecodeHeader, HeadAt, RecordsAt, At, U16At, EmptyRecord, EmptyAsRead, Wire;
    OneRead(q, 19, 41);
    NoneRead(q, 30);
    OneRead(q, 30, 16);
    MessageFrom(q, D.DecodeHeader(q), D.Question([[97]], 1, 1), 1, 0, 1, [EmptyAsRead(41)], [], [EmptyAsRead(16)], 19, 30, 30);
  }

  /** An answer record of type 41 is taken for the client's OPT record. */
  lemma AnswerTakenForOpt()
    ensures var q := TwoRecordQuery(1, 1, 41, 16);
            && D.Decode(q).Some? && !HasOpt(D.Decode(q).value)
            && QueryHasOpt(q) && QueryDnssecOk(q) && ParseQueryOpt(q).value.0 == 1232
  {
    hide TwoRecordQuery, D.Decode, D.DecodeHeader, At, Asks, ValidName, QueryHasOpt, QuestionSectionEnd, U16At, ParseQueryOpt, Wire;
    var q := TwoRecordQuery(1, 1, 41, 16);
    TwoParts(1, 1, 41, 16);
    TwoAsked(1, 1, 41, 16);
    SplitReads();
    var m := D.Decode(q).value;
    assert RecordsOf(m)[0] == EmptyAsRead(41);
    WireOfA();
    QuestionEndAt(q, [[97]]);
    OptScanExact(q, [[97]], m);
    ScanGave(q);
  }

  lemma WireOfA()
    ensures |Wire([[97]])| == 3
  {
    WireOfOne([97]);
  }

  lemma ScanGave(q: Bytes)
    requires QueryHasOpt(q)
    ensures ParseQueryOpt(q).Some?
  {
  }
}
