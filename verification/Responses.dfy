/**
 The response builders: the `Msg` object with its three record lists, and the
 records each kind of answer puts into them.
 */
module Responses {
  import opened Octets
  import opened Names
  import opened Zone
  import opened QueryReader
  import opened Dnssec
  import opened Message

  const TYPE_A: u16 := 1
  const TYPE_NS: u16 := 2
  const TYPE_SOA: u16 := 6
  const TYPE_TXT: u16 := 16
  const TYPE_AAAA: u16 := 28
  const TYPE_DNSKEY: u16 := 48
  const TYPE_CDS: u16 := 59
  const TYPE_CDNSKEY: u16 := 60
  const TYPE_ANY: u16 := 255
  const RCODE_NOERROR: byte := 0
  const RCODE_NOTIMP: byte := 4
  const RCODE_REFUSED: byte := 5
  const TTL_SOA: u32 := 3600
  const TTL_RR: u32 := 60

  datatype Sections = Sections(answers: seq<Rr>, authority: seq<Rr>, additional: seq<Rr>)

  // ----- header, question and OPT ----------------------------------------------

  function ResponseHeader(query: Bytes, aa: bool, rcode: byte): Bytes
    requires |query| >= 12
  {
    query[0..2] + ResponseFlags(query, aa, rcode) + query[4..6] + [0, 0, 0, 0, 0, 0]
  }

  function WithQuestion(query: Bytes, aa: bool, rcode: byte): (data: Bytes)
    requires QuestionSectionEnd(query).Some?
    ensures |data| == QuestionSectionEnd(query).value
  {
    ResponseHeader(query, aa, rcode) + query[12..QuestionSectionEnd(query).value]
  }

  function OptBytes(dnssecOk: bool): Bytes {
    [0] + U16Bytes(TYPE_OPT) + U16Bytes(EDNS_UDP_SIZE) + [0, 0] + U16Bytes(if dnssecOk then 0x8000 else 0) + U16Bytes(0)
  }

  function WithOpt(data: Bytes, query: Bytes, dnssecOk: bool): Bytes {
    if !QueryHasOpt(query) || |data| < 12 then data
    else Bumped(data, OFFSET_ARCOUNT, 1) + OptBytes(dnssecOk)
  }

  method MaybeAppendOpt(response: ByteBuffer, query: Bytes, dnssecOk: bool)
    modifies response
    ensures response.data == WithOpt(old(response.data), query, dnssecOk)
  {
    hide Bumped, QueryHasOpt, U16Bytes;
    if !QueryHasOpt(query) || |response.data| < 12 {
      return;
    }
    BumpCount(response, OFFSET_ARCOUNT);
    ghost var before := response.data;
    response.Extend([0]);
    response.Extend(U16Bytes(TYPE_OPT));
    response.Extend(U16Bytes(EDNS_UDP_SIZE));
    response.Extend([0]);
    response.Extend([0]);
    response.Extend(U16Bytes(if dnssecOk then 0x8000 else 0));
    response.Extend(U16Bytes(0));
    OptGather(before, U16Bytes(TYPE_OPT), U16Bytes(EDNS_UDP_SIZE), U16Bytes(if dnssecOk then 0x8000 else 0), U16Bytes(0));
  }

  lemma OptGather(a: Bytes, b: Bytes, c: Bytes, d: Bytes, e: Bytes)
    ensures a + [0] + b + c + [0] + [0] + d + e == a + ([0] + b + c + [0, 0] + d + e)
  {
  }

  // ----- records ---------------------------------------------------------------

  function SoaRdata(params: ZoneParams): Bytes {
    Encode(params.nsName) + Encode(params.hostmaster)
    + (U32Bytes(params.serial) + U32Bytes(params.refresh) + U32Bytes(params.retry)
       + U32Bytes(params.expire) + U32Bytes(params.minimum))
  }

  function SoaRr(owner: Owner, params: ZoneParams): Rr { Rr(owner, TYPE_SOA, TTL_SOA, SoaRdata(params)) }

  function NsRr(owner: Owner, name: Bytes): Rr { Rr(owner, TYPE_NS, TTL_RR, Encode(name)) }

  function NsSet(names: seq<Bytes>): seq<Rr> {
    seq(|names|, i requires 0 <= i < |names| => NsRr(Question, names[i]))
  }

  function ARr(owner: Owner, ip: Ipv4): Rr { Rr(owner, TYPE_A, TTL_RR, ip) }

  function AaaaRr(owner: Owner, ip: Ipv6): Rr { Rr(owner, TYPE_AAAA, TTL_RR, ip) }

  /** One character-string of at most 255 octets. */
  function TxtRr(txt: Bytes): Rr {
    var len := Min(|txt|, 255);
    Rr(Question, TYPE_TXT, TTL_RR, [len] + txt[..len])
  }

  function DnskeyRr(key: DnssecKey): Rr { Rr(Question, TYPE_DNSKEY, TTL_SOA, key.dnskeyRdata) }

  function CdsRr(key: DnssecKey, zone: Bytes): Rr { Rr(Question, TYPE_CDS, TTL_SOA, DsRdata(key, zone)) }

  function CdnskeyRr(key: DnssecKey): Rr { Rr(Question, TYPE_CDNSKEY, TTL_SOA, key.dnskeyRdata) }

  function NsecRr(query: Bytes, existing: seq<u16>, params: ZoneParams): Rr
    requires QuestionSectionEnd(query).Some?
  {
    Rr(Question, TYPE_NSEC, params.minimum, NsecRdata(QnameWire(query), NsecTypes(existing)))
  }

  function GlueFor(name: Bytes, params: ZoneParams): seq<Rr> {
    if !NameInBailiwick(name, params.zone) then []
    else [ARr(Name(name), params.glueIp)]
         + if params.glueIp6.Some? then [AaaaRr(Name(name), params.glueIp6.value)] else []
  }

  function Glue(names: seq<Bytes>, params: ZoneParams): seq<Rr> {
    if names == [] then [] else Glue(names[..|names| - 1], params) + GlueFor(names[|names| - 1], params)
  }

  lemma GlueStep(names: seq<Bytes>, i: nat, params: ZoneParams)
    requires i <= |names|
    ensures Glue(names[..0], params) == []
    ensures i < |names| ==> Glue(names[..i + 1], params) == Glue(names[..i], params) + GlueFor(names[i], params)
  {
    if i < |names| {
      assert names[..i + 1][..i] == names[..i];
    }
  }

  lemma GlueAppends(all: seq<Rr>, first: seq<Rr>, glue: seq<Rr>, name: Bytes, params: ZoneParams)
    requires all == first + glue
    ensures first + (glue + GlueFor(name, params))
         == if !NameInBailiwick(name, params.zone) then all
            else if params.glueIp6.None? then all + [ARr(Name(name), params.glueIp)]
            else all + [ARr(Name(name), params.glueIp)] + [AaaaRr(Name(name), params.glueIp6.value)]
  {
    hide NameInBailiwick, ARr, AaaaRr;
  }

  lemma NsSetStep(names: seq<Bytes>, i: nat)
    requires i <= |names|
    ensures |NsSet(names)| == |names|
    ensures i < |names| ==> NsSet(names)[..i + 1] == NsSet(names)[..i] + [NsRr(Question, names[i])]
  {
  }

  // ----- what each answer holds ------------------------------------------------

  function ApexTypes(params: ZoneParams): seq<u16> {
    [TYPE_SOA, TYPE_NS, TYPE_A]
    + (if params.glueIp6.Some? then [TYPE_AAAA] else [])
    + (if params.spf.Some? then [TYPE_TXT] else [])
    + (if params.dnssec.Some? then [TYPE_DNSKEY, TYPE_CDS, TYPE_CDNSKEY] else [])
  }

  function AddressTypes(ip: Addresses): seq<u16> {
    (if ip.0.Some? then [TYPE_A] else []) + (if ip.1.Some? then [TYPE_AAAA] else [])
  }

  function NodataSections(query: Bytes, existing: seq<u16>, params: ZoneParams): Sections
    requires QuestionSectionEnd(query).Some?
  {
    Sections([], [SoaRr(Name(params.zone), params)]
                 + (if params.Sign() then [NsecRr(query, existing, params)] else []), [])
  }

  function TxtSections(txt: Bytes): Sections { Sections([TxtRr(txt)], [], []) }

  function AnyFixed(params: ZoneParams): seq<Rr> {
    [SoaRr(Question, params)] + NsSet(params.nsNames) + [ARr(Question, params.glueIp)]
  }

  function AnyAaaa(params: ZoneParams): seq<Rr> {
    if params.glueIp6.Some? then [AaaaRr(Question, params.glueIp6.value)] else []
  }

  function AnyText(params: ZoneParams): seq<Rr> {
    if params.spf.Some? then [TxtRr(params.spf.value)] else []
  }

  function AnyKeys(params: ZoneParams): seq<Rr> {
    if params.dnssec.None? then []
    else [DnskeyRr(params.dnssec.value), CdsRr(params.dnssec.value, params.zone), CdnskeyRr(params.dnssec.value)]
  }

  function AnyAnswers(params: ZoneParams): seq<Rr> { AnyFixed(params) + AnyAaaa(params) + AnyText(params) + AnyKeys(params) }

  lemma AnyFixedParts(params: ZoneParams)
    ensures AnyFixed(params) == [] + [SoaRr(Question, params)] + NsSet(params.nsNames) + [ARr(Question, params.glueIp)]
  {
  }

  lemma AnyParts(params: ZoneParams)
    ensures AnyAnswers(params) == AnyFixed(params) + AnyAaaa(params) + AnyText(params) + AnyKeys(params)
    ensures AnyAaaa(params) == if params.glueIp6.Some? then [AaaaRr(Question, params.glueIp6.value)] else []
    ensures AnyText(params) == if params.spf.Some? then [TxtRr(params.spf.value)] else []
    ensures params.dnssec.None? ==> AnyKeys(params) == []
  {
  }

  function ApexSections(query: Bytes, qtype: u16, params: ZoneParams): Sections
    requires QuestionSectionEnd(query).Some?
  {
    var glue := Glue(params.nsNames, params);
    if qtype == TYPE_SOA then Sections([SoaRr(Question, params)], NsSet(params.nsNames), glue)
    else if qtype == TYPE_NS then Sections(NsSet(params.nsNames), [], glue)
    else if qtype == TYPE_A then Sections([ARr(Question, params.glueIp)], [], [])
    else if qtype == TYPE_AAAA && params.glueIp6.Some? then
      Sections([AaaaRr(Question, params.glueIp6.value)], [], [])
    else if qtype == TYPE_TXT && params.spf.Some? then TxtSections(params.spf.value)
    else if qtype == TYPE_DNSKEY && params.dnssec.Some? then Sections([DnskeyRr(params.dnssec.value)], [], [])
    else if qtype == TYPE_CDS && params.dnssec.Some? then Sections([CdsRr(params.dnssec.value, params.zone)], [], [])
    else if qtype == TYPE_CDNSKEY && params.dnssec.Some? then Sections([CdnskeyRr(params.dnssec.value)], [], [])
    else if qtype == TYPE_NSEC && params.dnssec.Some? then Sections([NsecRr(query, ApexTypes(params), params)], [], [])
    else if qtype == TYPE_ANY then Sections(AnyAnswers(params), [], glue)
    else NodataSections(query, ApexTypes(params), params)
  }

  function AddressSections(query: Bytes, qtype: u16, ip: Addresses, params: ZoneParams): Sections
    requires QuestionSectionEnd(query).Some?
  {
    var a := if ip.0.Some? && (qtype == TYPE_A || qtype == TYPE_ANY) then [ARr(Question, ip.0.value)] else [];
    var aaaa := if ip.1.Some? && (qtype == TYPE_AAAA || qtype == TYPE_ANY) then [AaaaRr(Question, ip.1.value)] else [];
    if a + aaaa == [] then NodataSections(query, AddressTypes(ip), params)
    else Sections(a + aaaa, [], [])
  }

  // ----- the message object ----------------------------------------------------

  function WithSection(data: Bytes, offset: nat, rrs: seq<Rr>, query: Bytes, params: ZoneParams): Bytes
    requires offset + 2 <= |data| && QuestionSectionEnd(query).Some?
  {
    var emitted := Emitted(rrs, query, params);
    Bumped(data, offset, |emitted|) + RrsBytes(emitted)
  }

  /** The octets `finish` returns for a buffer that holds header and question. */
  function Finished(data: Bytes, sections: Sections, query: Bytes, params: ZoneParams): Bytes
    requires |data| >= 12 && QuestionSectionEnd(query).Some?
  {
    var d1 := WithSection(data, OFFSET_ANCOUNT, sections.answers, query, params);
    var d2 := WithSection(d1, OFFSET_NSCOUNT, sections.authority, query, params);
    var d3 := WithSection(d2, OFFSET_ARCOUNT, sections.additional, query, params);
    WithOpt(d3, query, params.Sign())
  }

  function Rendered(query: Bytes, sections: Sections, params: ZoneParams): Bytes
    requires QuestionSectionEnd(query).Some?
  {
    Finished(WithQuestion(query, true, RCODE_NOERROR), sections, query, params)
  }

  class Msg {
    const buf: ByteBuffer
    var answers: seq<Rr>
    var authority: seq<Rr>
    var additional: seq<Rr>

    ghost function Content(): Sections reads this { Sections(answers, authority, additional) }

    constructor (query: Bytes, aa: bool, rcode: byte)
      requires QuestionSectionEnd(query).Some?
      ensures fresh(buf) && buf.data == WithQuestion(query, aa, rcode)
      ensures Content() == Sections([], [], [])
    {
      var b := new ByteBuffer([]);
      b.Extend(query[0..2]);
      b.Extend(ResponseFlags(query, aa, rcode));
      b.Extend(query[4..6]);
      b.Extend([0, 0, 0, 0, 0, 0]);
      b.Extend(query[12..QuestionSectionEnd(query).value]);
      buf := b;
      answers, authority, additional := [], [], [];
    }

    method AddRr(offset: nat, rr: Rr)
      modifies this
      ensures answers == if offset == OFFSET_NSCOUNT || offset == OFFSET_ARCOUNT then old(answers) else old(answers) + [rr]
      ensures authority == if offset == OFFSET_NSCOUNT then old(authority) + [rr] else old(authority)
      ensures additional == if offset == OFFSET_ARCOUNT then old(additional) + [rr] else old(additional)
    {
      if offset == OFFSET_NSCOUNT {
        authority := authority + [rr];
      } else if offset == OFFSET_ARCOUNT {
        additional := additional + [rr];
      } else {
        answers := answers + [rr];
      }
    }

    method AddSoa(offset: nat, owner: Owner, params: ZoneParams)
      requires offset == OFFSET_ANCOUNT || offset == OFFSET_NSCOUNT
      modifies this
      ensures answers == if offset == OFFSET_ANCOUNT then old(answers) + [SoaRr(owner, params)] else old(answers)
      ensures authority == if offset == OFFSET_NSCOUNT then old(authority) + [SoaRr(owner, params)] else old(authority)
      ensures additional == old(additional)
    {
      var rdata: Bytes := [];
      var mname := EncodeDomainName(params.nsName);
      rdata := rdata + mname;
      var rname := EncodeDomainName(params.hostmaster);
      rdata := rdata + rname;
      rdata := rdata + U32Bytes(params.serial);
      rdata := rdata + U32Bytes(params.refresh);
      rdata := rdata + U32Bytes(params.retry);
      rdata := rdata + U32Bytes(params.expire);
      rdata := rdata + U32Bytes(params.minimum);
      hide U32Bytes, Encode;
      assert rdata == SoaRdata(params);
      AddRr(offset, Rr(owner, TYPE_SOA, TTL_SOA, rdata));
    }

    method AddNsSet(offset: nat, params: ZoneParams)
      requires offset == OFFSET_ANCOUNT || offset == OFFSET_NSCOUNT
      modifies this
      ensures answers == if offset == OFFSET_ANCOUNT then old(answers) + NsSet(params.nsNames) else old(answers)
      ensures authority == if offset == OFFSET_NSCOUNT then old(authority) + NsSet(params.nsNames) else old(authority)
      ensures additional == old(additional)
    {
      ghost var all := NsSet(params.nsNames);
      hide NsSet, Encode;
      NsSetStep(params.nsNames, 0);
      for i := 0 to |params.nsNames|
        invariant answers == if offset == OFFSET_ANCOUNT then old(answers) + all[..i] else old(answers)
        invariant authority == if offset == OFFSET_NSCOUNT then old(authority) + all[..i] else old(authority)
        invariant additional == old(additional)
      {
        NsSetStep(params.nsNames, i);
        var rdata := EncodeDomainName(params.nsNames[i]);
        AddRr(offset, Rr(Question, TYPE_NS, TTL_RR, rdata));
      }
      assert all[..|params.nsNames|] == all by { NsSetStep(params.nsNames, |params.nsNames|); }
    }

    method AddInBailiwickGlue(params: ZoneParams)
      modifies this
      ensures answers == old(answers) && authority == old(authority)
      ensures additional == old(additional) + Glue(params.nsNames, params)
    {
      hide NameInBailiwick, Glue, GlueFor, ARr, AaaaRr;
      GlueStep(params.nsNames, 0, params);
      for i := 0 to |params.nsNames|
        invariant answers == old(answers) && authority == old(authority)
        invariant additional == old(additional) + Glue(params.nsNames[..i], params)
      {
        var name := params.nsNames[i];
        GlueStep(params.nsNames, i, params);
        GlueAppends(additional, old(additional), Glue(params.nsNames[..i], params), name, params);
        if NameInBailiwick(name, params.zone) {
          AddRr(OFFSET_ARCOUNT, ARr(Name(name), params.glueIp));
          if params.glueIp6.Some? {
            AddRr(OFFSET_ARCOUNT, AaaaRr(Name(name), params.glueIp6.value));
          }
        }
      }
      assert params.nsNames[..|params.nsNames|] == params.nsNames;
    }

    method Finish(query: Bytes, params: ZoneParams) returns (response: Bytes)
      requires |buf.data| >= 12 && QuestionSectionEnd(query).Some?
      modifies buf
      ensures response == Finished(old(buf.data), Content(), query, params)
    {
      hide Emitted, Bumped, RrsBytes, WithOpt;
      EmitSection(buf, OFFSET_ANCOUNT, answers, query, params);
      EmitSection(buf, OFFSET_NSCOUNT, authority, query, params);
      EmitSection(buf, OFFSET_ARCOUNT, additional, query, params);
      MaybeAppendOpt(buf, query, params.Sign());
      response := buf.data;
    }
  }

  // ----- builders --------------------------------------------------------------

  method BuildNodata(query: Bytes, params: ZoneParams, existing: seq<u16>) returns (response: Bytes)
    ensures response == if QuestionSectionEnd(query).None? then []
                        else Rendered(query, NodataSections(query, existing, params), params)
  {
    hide Finished, WithQuestion, NsecRdata, QuestionSectionEnd;
    if QuestionSectionEnd(query).None? {
      return [];
    }
    var msg := new Msg(query, true, RCODE_NOERROR);
    msg.AddSoa(OFFSET_NSCOUNT, Name(params.zone), params);
    if params.Sign() {
      var types := NsecTypes(existing);
      var rdata := BuildNsecRdata(QnameWire(query), types);
      msg.AddRr(OFFSET_NSCOUNT, Rr(Question, TYPE_NSEC, params.minimum, rdata));
    }
    assert msg.Content() == NodataSections(query, existing, params);
    response := msg.Finish(query, params);
  }

  method BuildTxt(query: Bytes, txt: Bytes, params: ZoneParams) returns (response: Bytes)
    ensures response == if QuestionSectionEnd(query).None? then [] else Rendered(query, TxtSections(txt), params)
  {
    hide Finished, WithQuestion, QuestionSectionEnd;
    if QuestionSectionEnd(query).None? {
      return [];
    }
    var msg := new Msg(query, true, RCODE_NOERROR);
    msg.AddRr(OFFSET_ANCOUNT, TxtRr(txt));
    assert msg.Content() == TxtSections(txt);
    response := msg.Finish(query, params);
  }

  method BuildApex(query: Bytes, qtype: u16, params: ZoneParams) returns (response: Bytes)
    ensures response == if QuestionSectionEnd(query).None? then []
                        else Rendered(query, ApexSections(query, qtype, params), params)
  {
    hide Finished, WithQuestion, QuestionSectionEnd, NsecRdata, NodataSections, Glue, NsSet, SoaRr, TxtRr, DsRdata;
    if QuestionSectionEnd(query).None? {
      return [];
    }
    var msg := new Msg(query, true, RCODE_NOERROR);
    if qtype == TYPE_SOA {
      msg.AddSoa(OFFSET_ANCOUNT, Question, params);
      msg.AddNsSet(OFFSET_NSCOUNT, params);
      msg.AddInBailiwickGlue(params);
    } else if qtype == TYPE_NS {
      msg.AddNsSet(OFFSET_ANCOUNT, params);
      msg.AddInBailiwickGlue(params);
    } else if qtype == TYPE_A {
      msg.AddRr(OFFSET_ANCOUNT, ARr(Question, params.glueIp));
    } else if qtype == TYPE_AAAA && params.glueIp6.Some? {
      msg.AddRr(OFFSET_ANCOUNT, AaaaRr(Question, params.glueIp6.value));
    } else if qtype == TYPE_TXT && params.spf.Some? {
      msg.AddRr(OFFSET_ANCOUNT, TxtRr(params.spf.value));
    } else if qtype == TYPE_DNSKEY && params.dnssec.Some? {
      msg.AddRr(OFFSET_ANCOUNT, DnskeyRr(params.dnssec.value));
    } else if qtype == TYPE_CDS && params.dnssec.Some? {
      msg.AddRr(OFFSET_ANCOUNT, CdsRr(params.dnssec.value, params.zone));
    } else if qtype == TYPE_CDNSKEY && params.dnssec.Some? {
      msg.AddRr(OFFSET_ANCOUNT, CdnskeyRr(params.dnssec.value));
    } else if qtype == TYPE_NSEC && params.dnssec.Some? {
      var types := NsecTypes(ApexTypes(params));
      var rdata := BuildNsecRdata(QnameWire(query), types);
      msg.AddRr(OFFSET_ANCOUNT, Rr(Question, TYPE_NSEC, params.minimum, rdata));
    } else if qtype == TYPE_ANY {
      AddAny(msg, params);
    } else {
      response := BuildNodata(query, params, ApexTypes(params));
      return;
    }
    assert msg.Content() == ApexSections(query, qtype, params);
    response := msg.Finish(query, params);
  }

  /** The TYPE_ANY arm of the apex builder. */
  method AddAny(msg: Msg, params: ZoneParams)
    requires msg.answers == [] && msg.authority == [] && msg.additional == []
    modifies msg
    ensures msg.answers == AnyAnswers(params) && msg.authority == []
    ensures msg.additional == Glue(params.nsNames, params)
  {
    hide AnyFixed, AnyAaaa, AnyText, AnyKeys, AnyAnswers, Glue, NsSet, SoaRr, ARr, AaaaRr, TxtRr;
    msg.AddSoa(OFFSET_ANCOUNT, Question, params);
    msg.AddNsSet(OFFSET_ANCOUNT, params);
    msg.AddRr(OFFSET_ANCOUNT, ARr(Question, params.glueIp));
    assert msg.answers == AnyFixed(params) by { AnyFixedParts(params); }
    if params.glueIp6.Some? {
      msg.AddRr(OFFSET_ANCOUNT, AaaaRr(Question, params.glueIp6.value));
    }
    if params.spf.Some? {
      msg.AddRr(OFFSET_ANCOUNT, TxtRr(params.spf.value));
    }
    assert msg.answers == AnyFixed(params) + AnyAaaa(params) + AnyText(params) by { AnyParts(params); }
    if params.dnssec.Some? {
      AddKeys(msg, params);
    }
    assert msg.answers == AnyAnswers(params) by { AnyParts(params); }
    msg.AddInBailiwickGlue(params);
    assert msg.additional == Glue(params.nsNames, params);
  }

  method AddKeys(msg: Msg, params: ZoneParams)
    requires params.dnssec.Some?
    modifies msg
    ensures msg.answers == old(msg.answers) + AnyKeys(params)
    ensures msg.authority == old(msg.authority) && msg.additional == old(msg.additional)
  {
    msg.AddRr(OFFSET_ANCOUNT, DnskeyRr(params.dnssec.value));
    msg.AddRr(OFFSET_ANCOUNT, CdsRr(params.dnssec.value, params.zone));
    msg.AddRr(OFFSET_ANCOUNT, CdnskeyRr(params.dnssec.value));
    hide DnskeyRr, CdsRr, CdnskeyRr;
  }

  method BuildAddress(query: Bytes, qtype: u16, ip: Addresses, params: ZoneParams) returns (response: Bytes)
    ensures response == if QuestionSectionEnd(query).None? then []
                        else Rendered(query, AddressSections(query, qtype, ip, params), params)
  {
    hide Finished, WithQuestion, QuestionSectionEnd, NodataSections;
    var wantA := qtype == TYPE_A || qtype == TYPE_ANY;
    var wantAaaa := qtype == TYPE_AAAA || qtype == TYPE_ANY;
    var v4 := if wantA then ip.0 else None;
    var v6 := if wantAaaa then ip.1 else None;
    if v4.None? && v6.None? {
      response := BuildNodata(query, params, AddressTypes(ip));
      return;
    }
    if QuestionSectionEnd(query).None? {
      return [];
    }
    var msg := new Msg(query, true, RCODE_NOERROR);
    if v4.Some? {
      msg.AddRr(OFFSET_ANCOUNT, ARr(Question, v4.value));
    }
    if v6.Some? {
      msg.AddRr(OFFSET_ANCOUNT, AaaaRr(Question, v6.value));
    }
    assert msg.Content() == AddressSections(query, qtype, ip, params);
    response := msg.Finish(query, params);
  }

  function ErrorReply(query: Bytes, rcode: byte): Bytes {
    if |query| < 12 then []
    else
      var end := QuestionSectionEnd(query);
      WithOpt(ResponseHeader(query, false, rcode) + if end.Some? then query[12..end.value] else [], query, false)
  }

  method ErrorResponse(query: Bytes, rcode: byte) returns (response: Bytes)
    ensures response == ErrorReply(query, rcode)
  {
    hide QuestionSectionEnd, WithOpt, ResponseFlags;
    if |query| < 12 {
      return [];
    }
    var buf := new ByteBuffer([]);
    buf.Extend(query[0..2]);
    buf.Extend(ResponseFlags(query, false, rcode));
    buf.Extend(query[4..6]);
    buf.Extend([0, 0, 0, 0, 0, 0]);
    assert buf.data == ResponseHeader(query, false, rcode);
    var end := QuestionSectionEnd(query);
    if end.Some? {
      buf.Extend(query[12..end.value]);
    }
    assert buf.data == ResponseHeader(query, false, rcode) + if end.Some? then query[12..end.value] else [];
    MaybeAppendOpt(buf, query, false);
    response := buf.data;
  }
}
