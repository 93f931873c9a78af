/**
 UDP truncation: the size of what is sent, what a reader finds in a truncated reply, and
 that truncating once is enough.
 */
module Truncation {
  import opened Octets
  import opened Names
  import opened QueryReader
  import opened Message
  import opened Responses
  import opened Query
  import opened RoundTrip
  import opened Answers
  import opened Replies
  import opened Edns
  import D = Decoder

  // ----- sizes -----------------------------------------------------------------

  /** The length of the question section, or of a bare header where there is none. */
  function QuestionLength(query: Bytes): nat {
    if QuestionSectionEnd(query).Some? then QuestionSectionEnd(query).value else 12
  }

  /** Both cuts leave header and question: without OPT the counts are all zero again. */
  lemma CutIsBase(base: Bytes, query: Bytes, qend: nat)
    requires |base| == qend >= 12 && base[OFFSET_ARCOUNT] == 0 && base[OFFSET_ARCOUNT + 1] == 0
    ensures WithOpt(base, query, false)[..qend][OFFSET_ARCOUNT := 0][OFFSET_ARCOUNT + 1 := 0] == base
    ensures |WithOpt(base, query, false)| == qend + if QueryHasOpt(query) then 11 else 0
  {
    hide QueryHasOpt;
  }

  lemma BaseLength(response: Bytes, query: Bytes, qend: nat)
    requires |response| >= 4 && 12 <= qend <= |query|
    ensures |TruncatedBase(response, query, qend)| == qend
    ensures forall i | 6 <= i < 12 :: TruncatedBase(response, query, qend)[i] == 0
    ensures forall i | 0 <= i < qend && !(6 <= i < 12) && i != 2 && i != 3 ::
              TruncatedBase(response, query, qend)[i] == if i < 2 then response[i] else query[i]
    ensures TruncatedBase(response, query, qend)[2] == SetTc(response[2])
    ensures TruncatedBase(response, query, qend)[3] == response[3]
  {
  }

  /** The two shapes of a truncated reply: with the OPT record when that fits, else without. */
  lemma TruncatedShape(response: Bytes, query: Bytes)
    requires |response| > UdpResponseLimit(query) && QuestionSectionEnd(query).Some?
    ensures var qend := QuestionSectionEnd(query).value;
            var base := TruncatedBase(response, query, qend);
            var full := WithOpt(base, query, false);
            && |full| == qend + (if QueryHasOpt(query) then 11 else 0)
            && Truncated(response, query) == if |full| > UdpResponseLimit(query) then base else full
  {
    hide QuestionSectionEnd, UdpResponseLimit, QueryHasOpt, WithOpt, SetTc;
    var qend := QuestionSectionEnd(query).value;
    BaseLength(response, query, qend);
    CutIsBase(TruncatedBase(response, query, qend), query, qend);
    hide TruncatedBase;
  }

  /** A response to a question is never sent longer than the limit and the question. */
  lemma TruncatedLength(response: Bytes, query: Bytes)
    requires QuestionSectionEnd(query).Some?
    ensures |Truncated(response, query)| <= Max(UdpResponseLimit(query), QuestionLength(query))
    ensures QuestionLength(query) + 11 <= 512 ==> |Truncated(response, query)| <= UdpResponseLimit(query)
  {
    hide QuestionSectionEnd, UdpResponseLimit, WithOpt, SetTc, QueryHasOpt;
    if |response| > UdpResponseLimit(query) {
      TruncatedShape(response, query);
      BaseLength(response, query, QuestionSectionEnd(query).value);
    }
  }

  lemma ErrorIsHeader(query: Bytes, rcode: byte)
    requires QuestionSectionEnd(query).None? && rcode < 16
    ensures |ErrorReply(query, rcode)| <= 12
  {
    hide Opcode;
  }

  lemma UnaskedReplyIsShort(query: Bytes, config: Config, now: u32)
    requires QuestionSectionEnd(query).None?
    ensures |Reply(query, config, now)| <= 12
  {
    hide RouteOf, ParsedDomain, Routed;
    ErrorIsHeader(query, RCODE_NOTIMP);
    hide ErrorReply;
  }

  /** Every datagram, whatever the query: a limit between 512 and 1232 octets, exceeded only by
      a question that is longer by itself. */
  lemma DatagramLength(query: Bytes, config: Config, now: u32)
    ensures 512 <= UdpResponseLimit(query) <= 1232
    ensures |Truncated(Reply(query, config, now), query)| <= Max(UdpResponseLimit(query), QuestionLength(query))
  {
    hide Reply, UdpResponseLimit;
    if QuestionSectionEnd(query).Some? {
      TruncatedLength(Reply(query, config, now), query);
    } else {
      UnaskedReplyIsShort(query, config, now);
    }
  }

  /** For legal names the datagram fits and the cut that drops the OPT record is never taken. */
  lemma LegalNameFits(response: Bytes, query: Bytes, qname: Labels)
    requires AsksName(query, qname)
    ensures |Truncated(response, query)| <= UdpResponseLimit(query)
    ensures |response| > UdpResponseLimit(query) ==>
              Truncated(response, query) == WithOpt(TruncatedBase(response, query, QuestionSectionEnd(query).value), query, false)
  {
    QuestionEndAt(query, qname);
    hide *;
    FitsWhenShort(response, query, qname);
  }

  lemma FitsWhenShort(response: Bytes, query: Bytes, qname: Labels)
    requires ValidName(qname) && QuestionSectionEnd(query) == Some(12 + |Wire(qname)| + 4)
    ensures |Truncated(response, query)| <= UdpResponseLimit(query)
    ensures |response| > UdpResponseLimit(query) ==>
              Truncated(response, query) == WithOpt(TruncatedBase(response, query, QuestionSectionEnd(query).value), query, false)
  {
    hide Truncated, UdpResponseLimit, QuestionSectionEnd, WithOpt, TruncatedBase, QueryHasOpt;
    TruncatedLength(response, query);
    if |response| > UdpResponseLimit(query) {
      TruncatedShape(response, query);
    }
  }

  // ----- truncating again ------------------------------------------------------

  lemma SetTcTwice(flags: byte)
    ensures SetTc(SetTc(flags)) == SetTc(flags)
  {
  }

  lemma BaseTwice(response: Bytes, query: Bytes, qend: nat)
    requires |response| >= 4 && 12 <= qend <= |query|
    ensures |TruncatedBase(response, query, qend)| >= 4
    ensures TruncatedBase(TruncatedBase(response, query, qend), query, qend) == TruncatedBase(response, query, qend)
  {
    SetTcTwice(response[2]);
    hide SetTc;
    BaseLength(response, query, qend);
    var base := TruncatedBase(response, query, qend);
    assert base[0..2] == response[0..2];
  }

  /** Truncating a truncated response changes nothing, for any response and query. */
  lemma TruncationIsIdempotent(response: Bytes, query: Bytes)
    ensures Truncated(Truncated(response, query), query) == Truncated(response, query)
  {
    hide QuestionSectionEnd, UdpResponseLimit, WithOpt, SetTc, QueryHasOpt, TruncatedBase;
    var limit, t := UdpResponseLimit(query), Truncated(response, query);
    if |t| > limit && QuestionSectionEnd(query).Some? {
      var qend := QuestionSectionEnd(query).value;
      TruncatedShape(response, query);
      TruncatedShape(t, query);
      BaseTwice(response, query, qend);
    }
  }

  // ----- what a reader finds ---------------------------------------------------

  lemma TcBits(flags: byte)
    ensures var f := SetTc(flags);
            && f / 128 == flags / 128 && (f / 8) % 16 == (flags / 8) % 16 && (f / 4) % 2 == (flags / 4) % 2
            && (f / 2) % 2 == 1 && f % 2 == flags % 2
  {
    if (flags / 2) % 2 == 0 {
      var k, r := flags as int / 4, flags as int % 4;
      assert flags as int == 4 * k + r && r < 2;
      QuarterBits(k, r);
      EighthBits(flags, k, r);
    }
  }

  lemma QuarterBits(k: nat, r: nat)
    requires r < 2
    ensures (4 * k + r + 2) / 4 == k && (4 * k + r + 2) / 2 == 2 * k + 1 && (4 * k + r + 2) % 2 == r % 2
  {
  }

  lemma EighthBits(flags: byte, k: nat, r: nat)
    requires flags as int == 4 * k + r && r < 2
    ensures (flags as int + 2) / 8 == flags as int / 8 && (flags as int + 2) / 128 == flags as int / 128
    ensures flags as int / 4 == k && flags % 2 == r
  {
  }

  lemma HeadOfTruncated(response: Bytes, query: Bytes, qname: Labels, opts: nat, head: Bytes, body: Bytes)
    requires |response| >= 12 && opts <= 1
    requires Asks(query, qname) && ValidName(qname) && QuestionSectionEnd(query) == Some(12 + |Wire(qname)| + 4)
    requires head == Counted(TruncatedBase(response, query, QuestionSectionEnd(query).value), 0, 0, opts)
    ensures HeadAt(head + body, D.DecodeHeader(response).(tc := true), AskedQuestion(query, qname), |head|, 0, 0, opts)
    ensures At(head + body, 12, Wire(qname))
  {
    hide Asks, Wire, D.DecodeQuestions, QuestionSectionEnd, TruncatedBase, SetTc;
    var msg, end := head + body, QuestionSectionEnd(query).value;
    var base := TruncatedBase(response, query, end);
    QuestionAsks(query, qname);
    BaseLength(response, query, end);
    CountedReads(base, 0, 0, opts);
    hide Counted;
    assert msg[2] == SetTc(response[2]) && msg[3] == response[3] && msg[0] == response[0] && msg[1] == response[1];
    TcBits(response[2]);
    assert msg[12..end] == query[12..end];
    QuestionDecodes(msg, query, qname);
  }

  lemma WithOptParts(base: Bytes, query: Bytes, ok: bool)
    requires |base| >= 12
    ensures WithOpt(base, query, ok)
         == Counted(base, 0, 0, |OptRecords(query, ok)|)
            + BodyBytes([], [], [], query, ok)
  {
    hide OptBytes, QueryHasOpt, OptRecord;
    assert Bumped(base, OFFSET_ANCOUNT, 0) == base && Bumped(base, OFFSET_NSCOUNT, 0) == base && Bumped(base, OFFSET_ARCOUNT, 0) == base;
    hide Bumped;
    assert [] + ([] + ([] + OptTail(query, ok))) == OptTail(query, ok);
    if !QueryHasOpt(query) {
      assert base + [] == base;
    }
  }

  /** The reader's view of a truncated response: the header of the full one with TC set, the
      question, no answers and no authority, and an OPT record iff the query had one. */
  function TruncatedMessage(response: Bytes, query: Bytes, qname: Labels): D.Message
    requires |response| >= 12 && QuestionSectionEnd(query).Some?
  {
    D.Message(D.DecodeHeader(response).(tc := true), [AskedQuestion(query, qname)], [], [], OptRecords(query, false))
  }

  lemma TruncatedDecodes(response: Bytes, query: Bytes, qname: Labels)
    requires AsksName(query, qname) && |response| > UdpResponseLimit(query)
    ensures D.Decode(Truncated(response, query)) == Some(TruncatedMessage(response, query, qname))
  {
    LegalNameFits(response, query, qname);
    QuestionEndAt(query, qname);
    assert Asks(query, qname) && ValidName(qname);
    hide *;
    BaseDecodes(response, query, qname);
  }

  lemma BaseDecodes(response: Bytes, query: Bytes, qname: Labels)
    requires Asks(query, qname) && |response| >= 12 && QuestionSectionEnd(query) == Some(12 + |Wire(qname)| + 4) && ValidName(qname)
    ensures D.Decode(WithOpt(TruncatedBase(response, query, QuestionSectionEnd(query).value), query, false))
         == Some(TruncatedMessage(response, query, qname))
  {
    hide D.Decode, WithOpt, TruncatedBase, QuestionSectionEnd, Asks, Wire, Counted, BodyBytes, OptRecords, At, HeadAt,
      AskedQuestion, D.DecodeHeader;
    var qend := QuestionSectionEnd(query).value;
    var base := TruncatedBase(response, query, qend);
    BaseLength(response, query, qend);
    WithOptParts(base, query, false);
    OptAtMostOne(query, false);
    var opts := |OptRecords(query, false)|;
    var head := Counted(base, 0, 0, opts);
    var body := BodyBytes([], [], [], query, false);
    HeadOfTruncated(response, query, qname, opts, head, body);
    AtSuffix(head, body);
    BodyDecodes(head + body, qend, D.DecodeHeader(response).(tc := true), AskedQuestion(query, qname), qname, [], [], [], query, false);
    assert ToRecords(qname, []) == [] && [] + OptRecords(query, false) == OptRecords(query, false);
  }

  /** The message behind the reply to a well-formed query: an answer or a refusal. */
  function FullMessage(query: Bytes, qname: Labels, config: Config, now: u32): D.Message
    requires QuestionSectionEnd(query).Some? && ParseQtypeQclass(query).Some?
  {
    var sections := ReplySections(query, qname, config, now);
    if sections.Some? then ReadReply(query, qname, sections.value, ReplyParams(query, config, now))
    else D.Message(ExpectedHeader(query, false, RCODE_REFUSED), [AskedQuestion(query, qname)], [], [], OptRecords(query, false))
  }

  lemma ReplyReads(query: Bytes, qname: Labels, config: Config, now: u32)
    requires WellFormed(query, qname) && ValidConfig(config)
    ensures D.Decode(Reply(query, config, now)) == Some(FullMessage(query, qname, config, now))
  {
    hide Reply, ReplySections, ReadReply, D.Decode, QuestionSectionEnd, OptRecords, AskedQuestion, ExpectedHeader, Rendered, ErrorReply,
      Asks, ValidName, ValidConfig;
    if ReplySections(query, qname, config, now).Some? {
      ReplyDecodes(query, qname, config, now);
    } else {
      ReplyIsRendered(query, qname, config, now);
      ErrorReplyDecodes(query, qname, RCODE_REFUSED);
    }
  }

  /** Every datagram for a well-formed query decodes: whole when it fits, and otherwise to the
      same message with TC set and its records dropped. */
  lemma DatagramDecodes(query: Bytes, qname: Labels, config: Config, now: u32)
    requires WellFormed(query, qname) && ValidConfig(config)
    ensures var reply, m := Reply(query, config, now), FullMessage(query, qname, config, now);
            && |Truncated(reply, query)| <= UdpResponseLimit(query)
            && D.Decode(Truncated(reply, query))
               == Some(if |reply| <= UdpResponseLimit(query) then m
                       else D.Message(m.header.(tc := true), m.questions, [], [], OptRecords(query, false)))
  {
    hide Reply, Truncated, UdpResponseLimit, FullMessage, D.Decode, QuestionSectionEnd, OptRecords, AskedQuestion, ExpectedHeader;
    ReplyReads(query, qname, config, now);
    var reply := Reply(query, config, now);
    LegalNameFits(reply, query, qname);
    if |reply| > UdpResponseLimit(query) {
      TruncatedDecodes(reply, query, qname);
      DecodedParts(reply);
      FullQuestion(query, qname, config, now);
    } else {
      ShortIsKept(reply, query);
    }
  }

  /** Every datagram for a well-formed query that itself decodes: the whole reply exactly when the
      size that the query allows holds it, and otherwise what is left of it under TC. */
  lemma DatagramWhole(query: Bytes, asked: D.Message, qname: Labels, config: Config, now: u32)
    requires WellFormed(query, qname) && ValidConfig(config) && D.Decode(query) == Some(asked)
    ensures var reply, m := Reply(query, config, now), FullMessage(query, qname, config, now);
            && |Truncated(reply, query)| <= AllowedSize(query, asked)
            && (Truncated(reply, query) == reply <==> |reply| <= AllowedSize(query, asked))
            && D.Decode(Truncated(reply, query))
               == Some(if |reply| <= AllowedSize(query, asked) then m
                       else D.Message(m.header.(tc := true), m.questions, [], [], OptRecords(query, false)))
  {
    hide Asks, ValidName, Reply, Truncated, UdpResponseLimit, AllowedSize, FullMessage, D.Decode, QuestionSectionEnd, OptRecords, ValidConfig;
    LimitIsAllowed(query, qname, asked);
    DatagramDecodes(query, qname, config, now);
    var reply := Reply(query, config, now);
    if |reply| <= UdpResponseLimit(query) {
      ShortIsKept(reply, query);
    }
  }

  lemma ShortIsKept(response: Bytes, query: Bytes)
    requires |response| <= UdpResponseLimit(query)
    ensures Truncated(response, query) == response
  {
  }

  lemma DecodedParts(msg: Bytes)
    requires D.Decode(msg).Some?
    ensures |msg| >= 12 && D.Decode(msg).value.header == D.DecodeHeader(msg)
  {
  }

  lemma FullQuestion(query: Bytes, qname: Labels, config: Config, now: u32)
    requires QuestionSectionEnd(query).Some? && ParseQtypeQclass(query).Some?
    ensures FullMessage(query, qname, config, now).questions == [AskedQuestion(query, qname)]
  {
    hide ReplySections, QuestionSectionEnd, ReplyParams, AskedQuestion;
  }

  // ----- error replies ---------------------------------------------------------

  /** Three empty lists behind a question are no records but for OPT. */
  lemma OnlyOptDecodes(query: Bytes, qname: Labels, rcode: byte)
    requires Asks(query, qname) && ValidName(qname) && rcode < 16 && QuestionSectionEnd(query).Some?
    ensures D.Decode(WithOpt(WithQuestion(query, false, rcode), query, false))
         == Some(D.Message(ExpectedHeader(query, false, rcode), [AskedQuestion(query, qname)], [], [], OptRecords(query, false)))
  {
    hide Counted, WithQuestion, BodyBytes, Asks, ValidName, AllEncodable, QuestionSectionEnd, QueryHasOpt, D.DecodeQuestions,
      D.DecodeRecords, WithOpt, ToRecords;
    WithOptParts(WithQuestion(query, false, rcode), query, false);
    NothingEncodable();
    PartsDecode(query, qname, false, rcode, [], [], [], false);
    NoRecords(qname);
    assert [] + OptRecords(query, false) == OptRecords(query, false);
    assert 0 + |OptRecords(query, false)| == |OptRecords(query, false)|;
  }

  /** A refusal, or NOTIMP to a query with a legal question, decodes to the echoed question. */
  lemma ErrorReplyDecodes(query: Bytes, qname: Labels, rcode: byte)
    requires Asks(query, qname) && ValidName(qname) && rcode < 16
    ensures QuestionSectionEnd(query).Some?
    ensures D.Decode(ErrorReply(query, rcode))
         == Some(D.Message(ExpectedHeader(query, false, rcode), [AskedQuestion(query, qname)], [], [], OptRecords(query, false)))
  {
    hide WithQuestion, WithOpt, Asks, ValidName, QuestionSectionEnd, QueryHasOpt, D.Decode, ExpectedHeader, AskedQuestion, OptRecords;
    QuestionEndAt(query, qname);
    ErrorLayout(query, rcode);
    OnlyOptDecodes(query, qname, rcode);
  }

  lemma NoRecords(qname: Labels)
    ensures ToRecords(qname, []) == []
  {
  }

  lemma NothingEncodable()
    ensures AllEncodable([])
  {
  }

  lemma ErrorLayout(query: Bytes, rcode: byte)
    requires QuestionSectionEnd(query).Some?
    ensures ErrorReply(query, rcode) == WithOpt(WithQuestion(query, false, rcode), query, false)
  {
    hide QuestionSectionEnd, WithOpt, ResponseFlags;
  }
}
