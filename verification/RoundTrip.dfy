/**
 What `finish` writes is what the reference reader reads: identity, flags,
 question, the three emitted sections, and OPT last.
 */
module RoundTrip {
  import opened Octets
  import opened Names
  import opened QueryReader
  import opened Dnssec
  import opened Message
  import opened Responses
  import D = Decoder

  // ----- records as the reader sees them ---------------------------------------

  function OwnerLabels(qname: Labels, owner: Owner): Labels {
    match owner
    case Question => qname
    case Name(name) => LowerLabels(TextLabels(name))
  }

  function ToRecord(qname: Labels, rr: Rr): D.Record {
    D.Record(OwnerLabels(qname, rr.owner), rr.typ, CLASS_IN, rr.ttl, rr.rdata)
  }

  function ToRecords(qname: Labels, rrs: seq<Rr>): seq<D.Record> {
    seq(|rrs|, i requires 0 <= i < |rrs| => ToRecord(qname, rrs[i]))
  }

  function OptRecord(dnssecOk: bool): D.Record {
    D.Record([], TYPE_OPT, EDNS_UDP_SIZE, if dnssecOk then 0x8000 else 0, [])
  }

  function OptRecords(query: Bytes, dnssecOk: bool): seq<D.Record> {
    if QueryHasOpt(query) then [OptRecord(dnssecOk)] else []
  }

  /** The owner is a legal name and the RDATA length fits its field. */
  ghost predicate Encodable(rr: Rr) {
    && (rr.owner.Name? ==> ValidName(TextLabels(rr.owner.name)))
    && |rr.rdata| <= 0xFFFF
  }

  ghost predicate AllEncodable(rrs: seq<Rr>) { forall rr | rr in rrs :: Encodable(rr) }

  // ----- one record, then a list -----------------------------------------------

  lemma OwnerDecodes(msg: Bytes, pos: nat, owner: Owner, qname: Labels)
    requires ValidName(qname) && At(msg, 12, Wire(qname)) && pos > 12
    requires At(msg, pos, OwnerBytes(owner))
    requires owner.Name? ==> ValidName(TextLabels(owner.name))
    ensures D.DecodeName(msg, pos, pos) == Some((OwnerLabels(qname, owner), pos + |OwnerBytes(owner)|))
  {
    hide D.DecodeName, Wire, TextLabels;
    match owner {
      case Question => D.PointerDecodes(msg, pos, qname);
      case Name(name) =>
        WireLower(TextLabels(name));
        D.NameDecodes(msg, pos, pos, LowerLabels(TextLabels(name)));
    }
  }

  lemma FixedFields(msg: Bytes, p: nat, typ: u16, cls: u16, ttl: u32, rdata: Bytes)
    requires |rdata| <= 0xFFFF
    requires At(msg, p, U16Bytes(typ) + U16Bytes(cls) + U32Bytes(ttl) + U16Bytes(|rdata|) + rdata)
    ensures p + 10 + |rdata| <= |msg|
    ensures U16At(msg, p) == typ && U16At(msg, p + 2) == cls && U32At(msg, p + 4) == ttl
    ensures U16At(msg, p + 8) == |rdata| && msg[p + 10..p + 10 + |rdata|] == rdata
  {
    AtConcat(msg, p, U16Bytes(typ) + U16Bytes(cls) + U32Bytes(ttl) + U16Bytes(|rdata|), rdata);
    AtConcat(msg, p, U16Bytes(typ) + U16Bytes(cls) + U32Bytes(ttl), U16Bytes(|rdata|));
    AtConcat(msg, p, U16Bytes(typ) + U16Bytes(cls), U32Bytes(ttl));
    AtConcat(msg, p, U16Bytes(typ), U16Bytes(cls));
    AtU16(msg, p, typ);
    AtU16(msg, p + 2, cls);
    AtU32(msg, p + 4, ttl);
    AtU16(msg, p + 8, |rdata|);
  }

  lemma RecordDecodes(msg: Bytes, pos: nat, rr: Rr, qname: Labels)
    requires ValidName(qname) && At(msg, 12, Wire(qname)) && pos > 12
    requires Encodable(rr) && At(msg, pos, RrBytes(rr))
    ensures D.DecodeRecord(msg, pos) == Some((ToRecord(qname, rr), pos + |RrBytes(rr)|))
  {
    hide OwnerBytes, OwnerLabels, At, Wire, ValidName, TextLabels, U16At, U32At, D.DecodeName, D.DecodeRecord;
    var owner, fields := OwnerBytes(rr.owner), Fields(rr);
    AtConcat(msg, pos, owner, fields);
    OwnerDecodes(msg, pos, rr.owner, qname);
    FixedFields(msg, pos + |owner|, rr.typ, CLASS_IN, rr.ttl, rr.rdata);
    RecordFrom(msg, pos, pos + |owner|, ToRecord(qname, rr));
    FieldsLength(rr);
  }

  function Fields(rr: Rr): Bytes
    requires |rr.rdata| <= 0xFFFF
  {
    U16Bytes(rr.typ) + U16Bytes(CLASS_IN) + U32Bytes(rr.ttl) + U16Bytes(|rr.rdata|) + rr.rdata
  }

  lemma FieldsLength(rr: Rr)
    requires |rr.rdata| <= 0xFFFF
    ensures |RrBytes(rr)| == |OwnerBytes(rr.owner)| + 10 + |rr.rdata|
  {
  }

  lemma RecordFrom(msg: Bytes, pos: nat, p: nat, r: D.Record)
    requires D.DecodeName(msg, pos, pos) == Some((r.name, p)) && p + 10 + |r.rdata| <= |msg|
    requires U16At(msg, p) == r.typ && U16At(msg, p + 2) == r.cls && U32At(msg, p + 4) == r.ttl
    requires U16At(msg, p + 8) == |r.rdata| && msg[p + 10..p + 10 + |r.rdata|] == r.rdata
    ensures D.DecodeRecord(msg, pos) == Some((r, p + 10 + |r.rdata|))
  {
    hide D.DecodeName;
  }

  lemma {:induction false} RecordsDecode(msg: Bytes, pos: nat, rrs: seq<Rr>, qname: Labels)
    requires ValidName(qname) && At(msg, 12, Wire(qname)) && pos > 12
    requires AllEncodable(rrs) && At(msg, pos, RrsBytes(rrs))
    ensures D.DecodeRecords(msg, pos, |rrs|) == Some((ToRecords(qname, rrs), pos + |RrsBytes(rrs)|))
    decreases |rrs|
  {
    hide RrBytes, Wire, ToRecord, D.DecodeRecord;
    if rrs != [] {
      var next := pos + |RrBytes(rrs[0])|;
      AtConcat(msg, pos, RrBytes(rrs[0]), RrsBytes(rrs[1..]));
      assert rrs[0] in rrs;
      assert forall rr | rr in rrs[1..] :: rr in rrs;
      RecordDecodes(msg, pos, rrs[0], qname);
      RecordsDecode(msg, next, rrs[1..], qname);
      assert ToRecords(qname, rrs) == [ToRecord(qname, rrs[0])] + ToRecords(qname, rrs[1..]);
    }
  }

  lemma {:induction false} DecodeRecordsConcat(msg: Bytes, pos: nat, n: nat, m: nat)
    requires pos <= |msg|
    requires D.DecodeRecords(msg, pos, n).Some?
    requires D.DecodeRecords(msg, D.DecodeRecords(msg, pos, n).value.1, m).Some?
    ensures var (a, p) := D.DecodeRecords(msg, pos, n).value;
            var (b, q) := D.DecodeRecords(msg, p, m).value;
            D.DecodeRecords(msg, pos, n + m) == Some((a + b, q))
    decreases n
  {
    hide D.DecodeRecord;
    var (a, p) := D.DecodeRecords(msg, pos, n).value;
    var (b, q) := D.DecodeRecords(msg, p, m).value;
    if n == 0 {
      assert a + b == b;
    } else {
      var (first, next) := D.DecodeRecord(msg, pos).value;
      DecodeRecordsConcat(msg, next, n - 1, m);
      var (rest, _) := D.DecodeRecords(msg, next, n - 1).value;
      assert a + b == [first] + (rest + b);
    }
  }

  lemma OneRecord(msg: Bytes, pos: nat)
    requires pos <= |msg| && D.DecodeRecord(msg, pos).Some?
    ensures D.DecodeRecords(msg, pos, 1) == Some(([D.DecodeRecord(msg, pos).value.0], D.DecodeRecord(msg, pos).value.1))
  {
    hide D.DecodeRecord;
    var (first, next) := D.DecodeRecord(msg, pos).value;
    assert D.DecodeRecords(msg, next, 0) == Some(([], next));
    assert [first] + [] == [first];
  }

  lemma OptDecodes(msg: Bytes, pos: nat, dnssecOk: bool)
    requires pos <= |msg| && At(msg, pos, OptBytes(dnssecOk))
    ensures D.DecodeRecords(msg, pos, 1) == Some(([OptRecord(dnssecOk)], pos + 11))
  {
    var ttl: u32 := if dnssecOk then 0x8000 else 0;
    var fields := U16Bytes(TYPE_OPT) + U16Bytes(EDNS_UDP_SIZE) + U32Bytes(ttl) + U16Bytes(0) + [];
    assert OptBytes(dnssecOk) == [0] + fields;
    AtConcat(msg, pos, [0], fields);
    AtIndex(msg, pos, [0], 0);
    FixedFields(msg, pos + 1, TYPE_OPT, EDNS_UDP_SIZE, ttl, []);
    assert D.DecodeName(msg, pos, pos) == Some(([], pos + 1));
    RecordFrom(msg, pos, pos + 1, OptRecord(dnssecOk));
    OneRecord(msg, pos);
  }

  // ----- the layout of a finished message --------------------------------------

  function Counted(base: Bytes, an: nat, ns: nat, ar: nat): (r: Bytes)
    requires |base| >= 12
    ensures |r| == |base|
  {
    Bumped(Bumped(Bumped(base, OFFSET_ANCOUNT, an), OFFSET_NSCOUNT, ns), OFFSET_ARCOUNT, ar)
  }

  function OptTail(query: Bytes, dnssecOk: bool): Bytes { if QueryHasOpt(query) then OptBytes(dnssecOk) else [] }

  /** What stands behind the question: three lists of records and perhaps an OPT record. */
  function BodyBytes(an: seq<Rr>, ns: seq<Rr>, ar: seq<Rr>, query: Bytes, ok: bool): Bytes {
    RrsBytes(an) + (RrsBytes(ns) + (RrsBytes(ar) + OptTail(query, ok)))
  }

  lemma FinishedLayout(base: Bytes, sections: Sections, query: Bytes, params: ZoneParams)
    requires |base| >= 12 && QuestionSectionEnd(query).Some?
    ensures var an, ns, ar := Emitted(sections.answers, query, params), Emitted(sections.authority, query, params),
                              Emitted(sections.additional, query, params);
            Finished(base, sections, query, params)
            == Counted(base, |an|, |ns|, |ar| + |OptRecords(query, params.Sign())|)
               + BodyBytes(an, ns, ar, query, params.Sign())
  {
    hide Emitted, RrsBytes, Bumped, OptBytes, QueryHasOpt, QuestionSectionEnd;
    var an, ns, ar := Emitted(sections.answers, query, params), Emitted(sections.authority, query, params),
                      Emitted(sections.additional, query, params);
    var h1 := Bumped(base, OFFSET_ANCOUNT, |an|);
    var h2 := Bumped(h1, OFFSET_NSCOUNT, |ns|);
    var h3 := Bumped(h2, OFFSET_ARCOUNT, |ar|);
    BumpedConcat(h1, RrsBytes(an), OFFSET_NSCOUNT, |ns|);
    BumpedConcat(h2, RrsBytes(an) + RrsBytes(ns), OFFSET_ARCOUNT, |ar|);
    var body := RrsBytes(an) + RrsBytes(ns) + RrsBytes(ar);
    assert h2 + RrsBytes(an) + RrsBytes(ns) == h2 + (RrsBytes(an) + RrsBytes(ns));
    assert h3 + (RrsBytes(an) + RrsBytes(ns)) + RrsBytes(ar) == h3 + body;
    BumpedConcat(h3, body, OFFSET_ARCOUNT, 1);
    BumpedTwice(h2, OFFSET_ARCOUNT, |ar|, 1);
    var opt := OptTail(query, params.Sign());
    assert body + opt == RrsBytes(an) + (RrsBytes(ns) + (RrsBytes(ar) + opt));
  }

  lemma BumpedReads(data: Bytes, offset: nat, k: nat)
    requires offset + 2 <= |data|
    ensures U16At(Bumped(data, offset, k), offset) == Min(0xFFFF, U16At(data, offset) + k)
    ensures forall i | 0 <= i < |data| && i != offset && i != offset + 1 :: Bumped(data, offset, k)[i] == data[i]
  {
  }

  lemma CountedReads(base: Bytes, an: nat, ns: nat, ar: nat)
    requires |base| >= 12 && forall i | 6 <= i < 12 :: base[i] == 0
    requires an <= 0xFFFF && ns <= 0xFFFF && ar <= 0xFFFF
    ensures var r := Counted(base, an, ns, ar);
            && U16At(r, 6) == an && U16At(r, 8) == ns && U16At(r, 10) == ar
            && (forall i | 0 <= i < |base| && !(6 <= i < 12) :: r[i] == base[i])
  {
    var h1 := Bumped(base, OFFSET_ANCOUNT, an);
    var h2 := Bumped(h1, OFFSET_NSCOUNT, ns);
    BumpedReads(base, OFFSET_ANCOUNT, an);
    BumpedReads(h1, OFFSET_NSCOUNT, ns);
    BumpedReads(h2, OFFSET_ARCOUNT, ar);
    hide Bumped;
  }

  // ----- the whole message -----------------------------------------------------

  function ExpectedHeader(query: Bytes, aa: bool, rcode: byte): D.Header
    requires |query| >= 12
  {
    D.Header(U16At(query, 0), true, Opcode(query), aa, false, query[2] % 2 == 1, false, 0, rcode)
  }

  function AskedQuestion(query: Bytes, qname: Labels): D.Question
    requires QuestionSectionEnd(query).Some?
  {
    var end := QuestionSectionEnd(query).value;
    D.Question(qname, U16At(query, end - 4), U16At(query, end - 2))
  }

  function ExpectedMessage(query: Bytes, qname: Labels, aa: bool, rcode: byte, sections: Sections, params: ZoneParams): D.Message
    requires QuestionSectionEnd(query).Some?
  {
    D.Message(
      ExpectedHeader(query, aa, rcode),
      [AskedQuestion(query, qname)],
      ToRecords(qname, Emitted(sections.answers, query, params)),
      ToRecords(qname, Emitted(sections.authority, query, params)),
      ToRecords(qname, Emitted(sections.additional, query, params)) + OptRecords(query, params.Sign()))
  }

  /** Every record encodes and every count fits its 16 bits. */
  ghost predicate Fits(sections: Sections, query: Bytes, params: ZoneParams)
    requires QuestionSectionEnd(query).Some?
  {
    var an, ns, ar := Emitted(sections.answers, query, params), Emitted(sections.authority, query, params),
                      Emitted(sections.additional, query, params);
    AllEncodable(an) && AllEncodable(ns) && AllEncodable(ar) && |an| <= 0xFFFF && |ns| <= 0xFFFF && |ar| < 0xFFFF
  }

  lemma HeaderReads(query: Bytes, aa: bool, rcode: byte, msg: Bytes)
    requires QuestionSectionEnd(query).Some? && rcode < 16 && |msg| >= 12
    requires forall i | 0 <= i < 6 :: msg[i] == WithQuestion(query, aa, rcode)[i]
    ensures D.DecodeHeader(msg) == ExpectedHeader(query, aa, rcode)
    ensures U16At(msg, 4) == U16At(query, 4)
  {
    var q2, f := query[2] as int, if aa then 4 else 0;
    assert WithQuestion(query, aa, rcode)[..6] == query[0..2] + ResponseFlags(query, aa, rcode) + query[4..6];
    var hi, lo := msg[2] as int, msg[3] as int;
    assert hi == 128 + 8 * ((q2 / 8) % 16) + f + q2 % 2 && lo == rcode;
    assert msg[0] == query[0] && msg[1] == query[1] && msg[4] == query[4] && msg[5] == query[5];
    FlagBits((q2 / 8) % 16, aa, q2 % 2);
  }

  lemma FlagBits(opcode: nat, aa: bool, rd: nat)
    requires opcode < 16 && rd < 2
    ensures var hi := 128 + 8 * opcode + (if aa then 4 else 0) + rd;
            hi / 128 == 1 && (hi / 8) % 16 == opcode && ((hi / 4) % 2 == 1 <==> aa) && (hi / 2) % 2 == 0 && hi % 2 == rd
  {
    var hi := 128 + 8 * opcode + (if aa then 4 else 0) + rd;
    assert hi / 8 == 16 + opcode;
    assert hi / 4 == 32 + 2 * opcode + if aa then 1 else 0;
    assert hi / 2 == 64 + 4 * opcode + if aa then 2 else 0;
  }

  lemma QuestionParts(query: Bytes, qname: Labels, end: nat)
    requires Asks(query, qname) && end == 12 + |Wire(qname)| + 4
    ensures end <= |query| && query[12..end] == Wire(qname) + query[end - 4..end]
  {
    hide Wire;
    assert query[12..end - 4] == Wire(qname);
    assert query[12..end] == query[12..end - 4] + query[end - 4..end];
  }

  lemma NoQuestions(msg: Bytes, pos: nat)
    requires pos <= |msg|
    ensures D.DecodeQuestions(msg, pos, 0) == Some(([], pos))
  {
  }

  lemma LastQuestion(msg: Bytes, pos: nat, n: nat, question: D.Question, p: nat)
    requires n == 1 && pos <= |msg| && D.DecodeName(msg, pos, pos) == Some((question.name, p)) && p + 4 <= |msg|
    requires question.qtype == U16At(msg, p) && question.qclass == U16At(msg, p + 2)
    ensures D.DecodeQuestions(msg, pos, n) == Some(([question], p + 4))
  {
    hide D.DecodeName, U16At;
    NoQuestions(msg, p + 4);
    assert [question] + [] == [question];
  }

  lemma QuestionDecodes(msg: Bytes, query: Bytes, qname: Labels)
    requires Asks(query, qname) && ValidName(qname) && QuestionSectionEnd(query) == Some(12 + |Wire(qname)| + 4)
    requires At(msg, 12, query[12..QuestionSectionEnd(query).value])
    ensures D.DecodeQuestions(msg, 12, 1) == Some(([AskedQuestion(query, qname)], QuestionSectionEnd(query).value))
    ensures At(msg, 12, Wire(qname))
  {
    hide D.DecodeName, D.DecodeQuestions, At, Wire, Asks, U16At, QuestionSectionEnd, ValidLabels;
    var end := QuestionSectionEnd(query).value;
    QuestionParts(query, qname, end);
    AtConcat(msg, 12, Wire(qname), query[end - 4..end]);
    D.NameDecodes(msg, 12, 12, qname);
    AtBounds(msg, end - 4, query[end - 4..end]);
    SliceU16(msg, query, end - 4, end);
    LastQuestion(msg, 12, 1, AskedQuestion(query, qname), end - 4);
  }

  lemma SliceU16(a: Bytes, b: Bytes, p: nat, end: nat)
    requires p + 4 == end <= |a| && end <= |b| && a[p..end] == b[p..end]
    ensures U16At(a, p) == U16At(b, p) && U16At(a, p + 2) == U16At(b, p + 2)
  {
    assert forall i | p <= i < end :: a[i] == a[p..end][i - p] == b[p..end][i - p] == b[i];
  }

  lemma OptTailDecodes(msg: Bytes, pos: nat, query: Bytes, dnssecOk: bool)
    requires pos <= |msg| && At(msg, pos, OptTail(query, dnssecOk))
    ensures D.DecodeRecords(msg, pos, |OptRecords(query, dnssecOk)|)
         == Some((OptRecords(query, dnssecOk), pos + |OptTail(query, dnssecOk)|))
  {
    hide QueryHasOpt, At, OptRecord;
    if QueryHasOpt(query) {
      OptDecodes(msg, pos, dnssecOk);
      assert |OptBytes(dnssecOk)| == 11;
    }
  }

  lemma AdditionalDecodes(msg: Bytes, pos: nat, qname: Labels, ar: seq<Rr>, query: Bytes, dnssecOk: bool)
    requires ValidName(qname) && At(msg, 12, Wire(qname)) && 12 < pos && AllEncodable(ar)
    requires At(msg, pos, RrsBytes(ar) + OptTail(query, dnssecOk))
    ensures D.DecodeRecords(msg, pos, |ar| + |OptRecords(query, dnssecOk)|)
         == Some((ToRecords(qname, ar) + OptRecords(query, dnssecOk), pos + |RrsBytes(ar)| + |OptTail(query, dnssecOk)|))
  {
    hide *;
    AtConcat(msg, pos, RrsBytes(ar), OptTail(query, dnssecOk));
    AtBounds(msg, pos, RrsBytes(ar));
    RecordsDecode(msg, pos, ar, qname);
    OptTailDecodes(msg, pos + |RrsBytes(ar)|, query, dnssecOk);
    DecodeRecordsConcat(msg, pos, |ar|, |OptRecords(query, dnssecOk)|);
  }

  /** `n` records read from `pos` are these, and end at `next`. */
  ghost predicate RecordsAt(msg: Bytes, pos: nat, n: nat, records: seq<D.Record>, next: nat) {
    pos <= |msg| && D.DecodeRecords(msg, pos, n) == Some((records, next))
  }

  lemma RrsAt(msg: Bytes, pos: nat, rrs: seq<Rr>, qname: Labels)
    requires ValidName(qname) && At(msg, 12, Wire(qname)) && pos > 12
    requires AllEncodable(rrs) && At(msg, pos, RrsBytes(rrs))
    ensures RecordsAt(msg, pos, |rrs|, ToRecords(qname, rrs), pos + |RrsBytes(rrs)|)
  {
    RecordsDecode(msg, pos, rrs, qname);
  }

  lemma AdditionalAt(msg: Bytes, pos: nat, qname: Labels, ar: seq<Rr>, query: Bytes, dnssecOk: bool)
    requires ValidName(qname) && At(msg, 12, Wire(qname)) && 12 < pos && AllEncodable(ar)
    requires At(msg, pos, RrsBytes(ar) + OptTail(query, dnssecOk))
    requires |msg| == pos + |RrsBytes(ar)| + |OptTail(query, dnssecOk)|
    ensures RecordsAt(msg, pos, |ar| + |OptRecords(query, dnssecOk)|, ToRecords(qname, ar) + OptRecords(query, dnssecOk), |msg|)
  {
    AdditionalDecodes(msg, pos, qname, ar, query, dnssecOk);
  }

  lemma AtSuffix(head: Bytes, body: Bytes)
    ensures At(head + body, |head|, body) && |head + body| == |head| + |body|
  {
  }

  lemma BodyParts(msg: Bytes, pos: nat, an: seq<Rr>, ns: seq<Rr>, ar: seq<Rr>, query: Bytes, ok: bool)
    requires At(msg, pos, BodyBytes(an, ns, ar, query, ok))
    ensures At(msg, pos, RrsBytes(an)) && At(msg, pos + |RrsBytes(an)|, RrsBytes(ns))
    ensures At(msg, pos + |RrsBytes(an)| + |RrsBytes(ns)|, RrsBytes(ar) + OptTail(query, ok))
    ensures |BodyBytes(an, ns, ar, query, ok)| == |RrsBytes(an)| + |RrsBytes(ns)| + |RrsBytes(ar)| + |OptTail(query, ok)|
  {
    hide At, RrsBytes, OptTail;
    var b1, b2, b3 := RrsBytes(an), RrsBytes(ns), RrsBytes(ar) + OptTail(query, ok);
    AtConcat(msg, pos, b1, b2 + b3);
    AtConcat(msg, pos + |b1|, b2, b3);
  }

  lemma BodyDecodes(msg: Bytes, pos: nat, header: D.Header, question: D.Question, qname: Labels,
                    an: seq<Rr>, ns: seq<Rr>, ar: seq<Rr>, query: Bytes, ok: bool)
    requires ValidName(qname) && At(msg, 12, Wire(qname)) && 12 < pos <= |msg|
    requires AllEncodable(an) && AllEncodable(ns) && AllEncodable(ar)
    requires At(msg, pos, BodyBytes(an, ns, ar, query, ok)) && |msg| == pos + |BodyBytes(an, ns, ar, query, ok)|
    requires HeadAt(msg, header, question, pos, |an|, |ns|, |ar| + |OptRecords(query, ok)|)
    ensures D.Decode(msg) == Some(D.Message(header, [question], ToRecords(qname, an), ToRecords(qname, ns),
                                            ToRecords(qname, ar) + OptRecords(query, ok)))
  {
    hide D.Decode, BodyBytes, RrsBytes, OptTail, OptRecords, ToRecords, At, Wire, ValidName, AllEncodable, HeadAt, RecordsAt;
    BodyParts(msg, pos, an, ns, ar, query, ok);
    var p1 := pos + |RrsBytes(an)|;
    var p2 := p1 + |RrsBytes(ns)|;
    RrsAt(msg, pos, an, qname);
    RrsAt(msg, p1, ns, qname);
    AdditionalAt(msg, p2, qname, ar, query, ok);
    MessageFrom(msg, header, question, |an|, |ns|, |ar| + |OptRecords(query, ok)|, ToRecords(qname, an), ToRecords(qname, ns),
                ToRecords(qname, ar) + OptRecords(query, ok), pos, p1, p2);
  }

  /** Header and question as read, with the three record counts. */
  ghost predicate HeadAt(msg: Bytes, header: D.Header, question: D.Question, next: nat, an: nat, ns: nat, ar: nat) {
    && |msg| >= 12 && D.DecodeHeader(msg) == header
    && U16At(msg, 4) == 1 && U16At(msg, 6) == an && U16At(msg, 8) == ns && U16At(msg, 10) == ar
    && D.DecodeQuestions(msg, 12, 1) == Some(([question], next))
  }

  /** Header, question and three emitted lists in one buffer decode to one message. */
  lemma PartsDecode(query: Bytes, qname: Labels, aa: bool, rcode: byte, an: seq<Rr>, ns: seq<Rr>, ar: seq<Rr>, ok: bool)
    requires Asks(query, qname) && ValidName(qname) && rcode < 16 && QuestionSectionEnd(query).Some?
    requires AllEncodable(an) && AllEncodable(ns) && AllEncodable(ar)
    requires |an| <= 0xFFFF && |ns| <= 0xFFFF && |ar| < 0xFFFF
    ensures D.Decode(Counted(WithQuestion(query, aa, rcode), |an|, |ns|, |ar| + |OptRecords(query, ok)|) + BodyBytes(an, ns, ar, query, ok))
         == Some(D.Message(ExpectedHeader(query, aa, rcode), [AskedQuestion(query, qname)], ToRecords(qname, an),
                           ToRecords(qname, ns), ToRecords(qname, ar) + OptRecords(query, ok)))
  {
    hide Counted, WithQuestion, BodyBytes, Asks, ValidName, QuestionSectionEnd, OptRecords, ToRecords, ExpectedHeader, AskedQuestion,
      AllEncodable, HeadAt, At, Wire, D.Decode;
    QuestionEndAt(query, qname);
    OptAtMostOne(query, ok);
    var base, body := WithQuestion(query, aa, rcode), BodyBytes(an, ns, ar, query, ok);
    var head := Counted(base, |an|, |ns|, |ar| + |OptRecords(query, ok)|);
    HeadOfFinished(query, qname, aa, rcode, |an|, |ns|, |ar| + |OptRecords(query, ok)|, base, head, body);
    AtSuffix(head, body);
    BodyDecodes(head + body, |base|, ExpectedHeader(query, aa, rcode), AskedQuestion(query, qname), qname, an, ns, ar, query, ok);
  }

  lemma OptAtMostOne(query: Bytes, ok: bool)
    ensures |OptRecords(query, ok)| <= 1
  {
  }

  /** Reading a finished message recovers everything that was put in. */
  lemma FinishedDecodes(query: Bytes, qname: Labels, aa: bool, rcode: byte, sections: Sections, params: ZoneParams)
    requires Asks(query, qname) && ValidName(qname) && rcode < 16
    requires QuestionSectionEnd(query).Some? && Fits(sections, query, params)
    ensures D.Decode(Finished(WithQuestion(query, aa, rcode), sections, query, params))
         == Some(ExpectedMessage(query, qname, aa, rcode, sections, params))
  {
    hide Finished, Counted, WithQuestion, Emitted, BodyBytes, Asks, QuestionSectionEnd, D.Decode, AllEncodable, ToRecords,
      AskedQuestion, ExpectedHeader, OptRecord, QueryHasOpt;
    FinishedLayout(WithQuestion(query, aa, rcode), sections, query, params);
    PartsDecode(query, qname, aa, rcode, Emitted(sections.answers, query, params), Emitted(sections.authority, query, params),
                Emitted(sections.additional, query, params), params.Sign());
  }

  lemma MessageFrom(msg: Bytes, header: D.Header, question: D.Question, an: nat, ns: nat, ar: nat,
                    answers: seq<D.Record>, authority: seq<D.Record>, additional: seq<D.Record>, p: nat, p1: nat, p2: nat)
    requires HeadAt(msg, header, question, p, an, ns, ar)
    requires RecordsAt(msg, p, an, answers, p1) && RecordsAt(msg, p1, ns, authority, p2)
    requires RecordsAt(msg, p2, ar, additional, |msg|)
    ensures D.Decode(msg) == Some(D.Message(header, [question], answers, authority, additional))
  {
    hide D.DecodeQuestions, D.DecodeRecords, D.DecodeHeader, U16At;
  }

  lemma HeadOfFinished(query: Bytes, qname: Labels, aa: bool, rcode: byte, an: nat, ns: nat, ar: nat, base: Bytes, head: Bytes, body: Bytes)
    requires Asks(query, qname) && ValidName(qname) && rcode < 16 && QuestionSectionEnd(query) == Some(12 + |Wire(qname)| + 4)
    requires an <= 0xFFFF && ns <= 0xFFFF && ar <= 0xFFFF
    requires base == WithQuestion(query, aa, rcode) && head == Counted(base, an, ns, ar)
    ensures HeadAt(head + body, ExpectedHeader(query, aa, rcode), AskedQuestion(query, qname), |base|, an, ns, ar)
    ensures At(head + body, 12, Wire(qname))
  {
    hide Asks, Wire, At, D.DecodeQuestions, QuestionSectionEnd;
    var msg := head + body;
    var end := QuestionSectionEnd(query).value;
    assert forall i | 6 <= i < 12 :: base[i] == 0;
    CountedReads(base, an, ns, ar);
    assert U16At(msg, 6) == an && U16At(msg, 8) == ns && U16At(msg, 10) == ar;
    HeaderReads(query, aa, rcode, msg);
    QuestionKept(query, aa, rcode, base, msg);
    QuestionDecodes(msg, query, qname);
    QuestionAsks(query, qname);
  }

  lemma QuestionAsks(query: Bytes, qname: Labels)
    requires Asks(query, qname)
    ensures |query| >= 12 && U16At(query, 4) == 1
  {
  }

  lemma QuestionKept(query: Bytes, aa: bool, rcode: byte, base: Bytes, msg: Bytes)
    requires QuestionSectionEnd(query).Some? && base == WithQuestion(query, aa, rcode)
    requires |base| <= |msg| && forall i | 12 <= i < |base| :: msg[i] == base[i]
    ensures At(msg, 12, query[12..QuestionSectionEnd(query).value])
  {
    var end := QuestionSectionEnd(query).value;
    assert base[12..end] == query[12..end];
    assert msg[12..end] == base[12..end];
  }
}
