/**
 What the records of an answer say to a client: answers fit the question, ANY is the union of
 the single answers, and RDATA reads back field by field.
 */
module Contents {
  import opened Octets
  import opened Names
  import opened QueryReader
  import opened Dnssec
  import opened Message
  import opened Responses
  import opened Query
  import opened Answers
  import opened Denial
  import D = Decoder

  // ----- answers and question --------------------------------------------------

  /** Every answer record has the type that was asked for, unless that was ANY. */
  lemma AnswersFitQuestion(query: Bytes, route: Route, qtype: u16, config: Config, params: ZoneParams)
    requires QuestionSectionEnd(query).Some? && qtype != TYPE_ANY
    ensures var sections := Answer(query, route, qtype, config, params);
            sections.Some? ==> forall rr | rr in sections.value.answers :: rr.owner == Question && rr.typ == qtype
  {
    hide QuestionSectionEnd, SoaRdata, NsecRdata, DsRdata, Encode, VersionText, NsecTypes, QnameWire, Glue;
  }

  /** The records of one type, in order. */
  function OfType(rrs: seq<Rr>, typ: u16): seq<Rr> {
    if rrs == [] then []
    else (if rrs[0].typ == typ then [rrs[0]] else []) + OfType(rrs[1..], typ)
  }

  lemma {:induction false} OfTypeConcat(a: seq<Rr>, b: seq<Rr>, typ: u16)
    ensures OfType(a + b, typ) == OfType(a, typ) + OfType(b, typ)
  {
    if a == [] {
      assert a + b == b;
    } else {
      var first, rest := if a[0].typ == typ then [a[0]] else [], a[1..];
      OfTypeConcat(rest, b, typ);
      assert (a + b)[1..] == rest + b && (a + b)[0] == a[0];
      assert first + (OfType(rest, typ) + OfType(b, typ)) == first + OfType(rest, typ) + OfType(b, typ);
    }
  }

  lemma {:induction false} OfTypeUniform(rrs: seq<Rr>, typ: u16, own: u16)
    requires forall rr | rr in rrs :: rr.typ == own
    ensures OfType(rrs, typ) == if typ == own then rrs else []
  {
    if rrs != [] {
      assert rrs[0] in rrs;
      assert forall rr | rr in rrs[1..] :: rr in rrs;
      OfTypeUniform(rrs[1..], typ, own);
    }
  }

  lemma OfTypeOne(rr: Rr, typ: u16)
    ensures OfType([rr], typ) == if typ == rr.typ then [rr] else []
  {
    OfTypeUniform([rr], typ, rr.typ);
  }

  lemma OfTypeFixed(params: ZoneParams, typ: u16)
    ensures OfType(AnyFixed(params), typ)
         == if typ == TYPE_SOA then [SoaRr(Question, params)] else if typ == TYPE_NS then NsSet(params.nsNames)
            else if typ == TYPE_A then [ARr(Question, params.glueIp)] else []
  {
    hide OfType, SoaRdata, Encode;
    OfTypeConcat([SoaRr(Question, params)] + NsSet(params.nsNames), [ARr(Question, params.glueIp)], typ);
    OfTypeConcat([SoaRr(Question, params)], NsSet(params.nsNames), typ);
    OfTypeOne(SoaRr(Question, params), typ);
    OfTypeUniform(NsSet(params.nsNames), typ, TYPE_NS);
    OfTypeOne(ARr(Question, params.glueIp), typ);
  }

  lemma OfTypeKeys(params: ZoneParams, typ: u16)
    requires params.dnssec.Some?
    ensures var key := params.dnssec.value;
            OfType(AnyKeys(params), typ)
            == if typ == TYPE_DNSKEY then [DnskeyRr(key)] else if typ == TYPE_CDS then [CdsRr(key, params.zone)]
               else if typ == TYPE_CDNSKEY then [CdnskeyRr(key)] else []
  {
    hide OfType, DsRdata;
    var key := params.dnssec.value;
    OfTypeConcat([DnskeyRr(key), CdsRr(key, params.zone)], [CdnskeyRr(key)], typ);
    OfTypeConcat([DnskeyRr(key)], [CdsRr(key, params.zone)], typ);
    assert [DnskeyRr(key)] + [CdsRr(key, params.zone)] == [DnskeyRr(key), CdsRr(key, params.zone)];
    assert [DnskeyRr(key), CdsRr(key, params.zone)] + [CdnskeyRr(key)] == AnyKeys(params);
    OfTypeOne(DnskeyRr(key), typ);
    OfTypeOne(CdsRr(key, params.zone), typ);
    OfTypeOne(CdnskeyRr(key), typ);
  }

  lemma OfTypeNothing(typ: u16)
    ensures OfType([], typ) == []
  {
  }

  lemma ApexAny(query: Bytes, typ: u16, params: ZoneParams)
    requires QuestionSectionEnd(query).Some? && typ in ApexTypes(params)
    ensures OfType(AnyAnswers(params), typ) == ApexSections(query, typ, params).answers
  {
    hide OfType, QuestionSectionEnd, Glue, SoaRr, NsSet, ARr, AaaaRr, TxtRr, DnskeyRr, CdsRr, CdnskeyRr, NsecRr, AnyFixed, AnyKeys;
    var fixed, aaaa, text, keys := AnyFixed(params), AnyAaaa(params), AnyText(params), AnyKeys(params);
    OfTypeConcat(fixed + aaaa + text, keys, typ);
    OfTypeConcat(fixed + aaaa, text, typ);
    OfTypeConcat(fixed, aaaa, typ);
    OfTypeFixed(params, typ);
    OfTypeNothing(typ);
    if params.glueIp6.Some? { OfTypeOne(AaaaRr(Question, params.glueIp6.value), typ); AaaaType(params.glueIp6.value); }
    if params.spf.Some? { OfTypeOne(TxtRr(params.spf.value), typ); TxtType(params.spf.value); }
    if params.dnssec.Some? { OfTypeKeys(params, typ); } else { AnyParts(params); NoKeys(params); }
  }

  lemma AaaaType(ip: Ipv6)
    ensures AaaaRr(Question, ip).typ == TYPE_AAAA
  {
  }

  lemma TxtType(txt: Bytes)
    ensures TxtRr(txt).typ == TYPE_TXT
  {
  }

  lemma NoKeys(params: ZoneParams)
    requires params.dnssec.None?
    ensures AnyKeys(params) == []
  {
  }

  lemma AddressAny(query: Bytes, typ: u16, ip: Addresses, params: ZoneParams)
    requires QuestionSectionEnd(query).Some? && typ in AddressTypes(ip)
    ensures OfType(AddressSections(query, TYPE_ANY, ip, params).answers, typ) == AddressSections(query, typ, ip, params).answers
  {
    hide OfType, QuestionSectionEnd, NodataSections;
    OfTypeNothing(typ);
    if ip.0.Some? {
      OfTypeOne(ARr(Question, ip.0.value), typ);
      if ip.1.Some? {
        OfTypeConcat([ARr(Question, ip.0.value)], [AaaaRr(Question, ip.1.value)], typ);
      } else {
        assert [ARr(Question, ip.0.value)] + [] == [ARr(Question, ip.0.value)];
      }
    }
    if ip.1.Some? {
      OfTypeOne(AaaaRr(Question, ip.1.value), typ);
      assert [] + [AaaaRr(Question, ip.1.value)] == [AaaaRr(Question, ip.1.value)];
    }
  }

  /** At every name, ANY answers for each existing type exactly what that type alone answers,
      and nothing of any other type. */
  lemma AnyIsUnion(query: Bytes, route: Route, typ: u16, config: Config, params: ZoneParams)
    requires QuestionSectionEnd(query).Some? && typ in ExistingTypes(route, params)
    ensures Answer(query, route, TYPE_ANY, config, params).Some? && Answer(query, route, typ, config, params).Some?
    ensures OfType(Answer(query, route, TYPE_ANY, config, params).value.answers, typ)
         == Answer(query, route, typ, config, params).value.answers
    ensures forall rr | rr in Answer(query, route, TYPE_ANY, config, params).value.answers :: rr.typ in ExistingTypes(route, params)
  {
    AnyHoldsExisting(query, route, config, params);
    hide OfType, QuestionSectionEnd, ApexTypes, AddressTypes, AddressSections, AnyAnswers, TxtRr, VersionText, Glue;
    match route {
      case Version(_) => OfTypeOne(TxtRr(VersionText(config)), typ); TxtType(VersionText(config));
      case Dmarc => OfTypeOne(TxtRr(config.dmarc), typ); TxtType(config.dmarc);
      case Apex => ApexAny(query, typ, params); AnyAtApex(query, params);
      case Address(ip) => AddressAny(query, typ, ip, params);
    }
  }

  lemma ApexHolds(params: ZoneParams, rr: Rr)
    requires rr in AnyAnswers(params)
    ensures rr.typ in ApexTypes(params)
  {
    hide SoaRdata, DsRdata, Encode, NsSet;
    NsTypes(params.nsNames);
    assert rr in AnyFixed(params) || rr in AnyAaaa(params) || rr in AnyText(params) || rr in AnyKeys(params);
    if rr in AnyFixed(params) {
      assert rr == SoaRr(Question, params) || rr in NsSet(params.nsNames) || rr == ARr(Question, params.glueIp);
    }
  }

  lemma NodataHoldsNothing(query: Bytes, existing: seq<u16>, params: ZoneParams)
    requires QuestionSectionEnd(query).Some?
    ensures NodataSections(query, existing, params).answers == []
  {
    hide QuestionSectionEnd;
  }

  lemma NsTypes(names: seq<Bytes>)
    ensures forall rr | rr in NsSet(names) :: rr.typ == TYPE_NS
  {
    hide Encode;
  }

  /** ANY answers nothing but existing types. */
  lemma AnyHoldsExisting(query: Bytes, route: Route, config: Config, params: ZoneParams)
    requires QuestionSectionEnd(query).Some?
    ensures var sections := Answer(query, route, TYPE_ANY, config, params);
            sections.Some? ==> forall rr | rr in sections.value.answers :: rr.typ in ExistingTypes(route, params)
  {
    hide QuestionSectionEnd, AnyAnswers, VersionText, Glue, NodataSections, ApexTypes, NsSet, NsecRr;
    NodataHoldsNothing(query, [], params);
    if route.Address? {
      NodataHoldsNothing(query, AddressTypes(route.ip), params);
    }
    if route.Apex? {
      AnyAtApex(query, params);
      forall rr | rr in AnyAnswers(params) ensures rr.typ in ApexTypes(params) {
        ApexHolds(params, rr);
      }
    }
  }

  lemma AnyAtApex(query: Bytes, params: ZoneParams)
    requires QuestionSectionEnd(query).Some?
    ensures ApexSections(query, TYPE_ANY, params).answers == AnyAnswers(params)
  {
    hide AnyAnswers, Glue, NsSet, QuestionSectionEnd;
  }

  // ----- RDATA of section 3.3 of RFC 1035 --------------------------------------

  datatype Soa = Soa(mname: Labels, rname: Labels, serial: u32, refresh: u32, retry: u32, expire: u32, minimum: u32)

  /** SOA RDATA (section 3.3.13). */
  function ReadSoa(rdata: Bytes): Option<Soa> {
    var mname := D.DecodeName(rdata, 0, 0);
    if mname.None? then None
    else
      var rname := D.DecodeName(rdata, mname.value.1, mname.value.1);
      if rname.None? || rname.value.1 + 20 != |rdata| then None
      else
        var p := rname.value.1;
        Some(Soa(mname.value.0, rname.value.0, U32At(rdata, p), U32At(rdata, p + 4), U32At(rdata, p + 8),
                 U32At(rdata, p + 12), U32At(rdata, p + 16)))
  }

  /** Five numbers in a row. */
  lemma FiveNumbers(msg: Bytes, p: nat, a: u32, b: u32, c: u32, d: u32, e: u32)
    requires At(msg, p, U32Bytes(a) + U32Bytes(b) + U32Bytes(c) + U32Bytes(d) + U32Bytes(e))
    ensures p + 20 <= |msg|
    ensures U32At(msg, p) == a && U32At(msg, p + 4) == b && U32At(msg, p + 8) == c && U32At(msg, p + 12) == d && U32At(msg, p + 16) == e
  {
    AtConcat(msg, p, U32Bytes(a) + U32Bytes(b) + U32Bytes(c) + U32Bytes(d), U32Bytes(e));
    AtConcat(msg, p, U32Bytes(a) + U32Bytes(b) + U32Bytes(c), U32Bytes(d));
    AtConcat(msg, p, U32Bytes(a) + U32Bytes(b), U32Bytes(c));
    AtConcat(msg, p, U32Bytes(a), U32Bytes(b));
    AtU32(msg, p, a);
    AtU32(msg, p + 4, b);
    AtU32(msg, p + 8, c);
    AtU32(msg, p + 12, d);
    AtU32(msg, p + 16, e);
  }

  lemma EncodedDecodes(msg: Bytes, pos: nat, name: Bytes)
    requires ValidName(TextLabels(name)) && At(msg, pos, Encode(name))
    ensures D.DecodeName(msg, pos, pos) == Some((LowerLabels(TextLabels(name)), pos + |Encode(name)|))
  {
    WireLower(TextLabels(name));
    hide Wire, At, D.DecodeName;
    D.NameDecodes(msg, pos, pos, LowerLabels(TextLabels(name)));
  }

  /** The SOA record reads back as the configured names and numbers, each in its place. */
  lemma SoaReadsBack(owner: Owner, params: ZoneParams)
    requires ValidName(TextLabels(params.nsName)) && ValidName(TextLabels(params.hostmaster))
    ensures ReadSoa(SoaRr(owner, params).rdata)
         == Some(Soa(LowerLabels(TextLabels(params.nsName)), LowerLabels(TextLabels(params.hostmaster)),
                     params.serial, params.refresh, params.retry, params.expire, params.minimum))
  {
    hide Encode, D.DecodeName, U32Bytes, At, U32At, LowerLabels, TextLabels, ValidName;
    var rdata, m, r := SoaRdata(params), Encode(params.nsName), Encode(params.hostmaster);
    var tail := U32Bytes(params.serial) + U32Bytes(params.refresh) + U32Bytes(params.retry)
                + U32Bytes(params.expire) + U32Bytes(params.minimum);
    FourEach(params);
    assert rdata == m + r + tail;
    WholeAt(rdata);
    AtConcat(rdata, 0, m + r, tail);
    AtConcat(rdata, 0, m, r);
    EncodedDecodes(rdata, 0, params.nsName);
    EncodedDecodes(rdata, |m|, params.hostmaster);
    FiveNumbers(rdata, |m| + |r|, params.serial, params.refresh, params.retry, params.expire, params.minimum);
  }

  lemma WholeAt(msg: Bytes)
    ensures At(msg, 0, msg)
  {
  }

  /** How long a negative answer may be cached (section 5 of RFC 2308). */
  function NegativeLifetime(soa: Rr): u32
    requires ReadSoa(soa.rdata).Some?
  {
    Min(soa.ttl, ReadSoa(soa.rdata).value.minimum)
  }

  /** A negative answer leads with the SOA of the zone.  Its denial has the SOA's MINIMUM for a
      TTL, which is the lifetime of the negative answer iff that is at most the SOA's own TTL. */
  lemma NegativeTtl(query: Bytes, existing: seq<u16>, params: ZoneParams)
    requires QuestionSectionEnd(query).Some?
    requires ValidName(TextLabels(params.nsName)) && ValidName(TextLabels(params.hostmaster))
    ensures var authority := NodataSections(query, existing, params).authority;
            && authority != [] && authority[0].typ == TYPE_SOA && authority[0].owner == Name(params.zone)
            && ReadSoa(authority[0].rdata).Some?
            && forall rr | rr in authority && rr.typ == TYPE_NSEC ::
                 && rr.owner == Question && rr.ttl == ReadSoa(authority[0].rdata).value.minimum
                 && (rr.ttl == NegativeLifetime(authority[0]) <==> params.minimum <= TTL_SOA)
  {
    hide ReadSoa, SoaRdata, NsecRdata, NsecTypes, QnameWire, QuestionSectionEnd;
    SoaReadsBack(Name(params.zone), params);
  }

  /** A character-string (section 3.3). */
  function ReadText(rdata: Bytes): Option<Bytes> {
    if rdata == [] || |rdata| != 1 + rdata[0] as int then None else Some(rdata[1..])
  }

  /** TXT RDATA is one character-string: the text itself exactly when it has at most 255 octets. */
  lemma TextReadsBack(txt: Bytes)
    ensures ReadText(TxtRr(txt).rdata).Some? && ReadText(TxtRr(txt).rdata).value <= txt
    ensures ReadText(TxtRr(txt).rdata) == Some(txt) <==> |txt| <= 255
  {
    var len := Min(|txt|, 255);
    assert ([len] + txt[..len])[1..] == txt[..len];
    if |txt| <= 255 {
      assert txt[..len] == txt;
    }
  }
}
