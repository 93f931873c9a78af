/**
 The denial of existence an online signer makes up: what its NSEC record says, and
 when that is the truth about the name.
 */
module Denial {
  import opened Octets
  import opened Names
  import opened Zone
  import opened QueryReader
  import opened TypeBitmap
  import opened CanonicalOrder
  import opened Dnssec
  import opened Message
  import opened Responses
  import opened Query
  import opened RoundTrip
  import opened Rrsets
  import opened Emission
  import opened Answers
  import opened Replies
  import opened CaseBlind
  import D = Decoder

  /** NSEC RDATA of section 4.1 of RFC 4034: next name, then the type field. */
  function ParseNsec(rdata: Bytes): Option<(Labels, set<u16>)> {
    var next := D.DecodeName(rdata, 0, 0);
    if next.None? then None
    else
      var types := DecodeBitmap(rdata[next.value.1..]);
      if types.None? then None else Some((next.value.0, types.value))
  }

  /** The types an answer can have at a name, by route. */
  function ExistingTypes(route: Route, params: ZoneParams): seq<u16> {
    match route
    case Outside => []
    case Version(_) => [TYPE_TXT]
    case Dmarc => [TYPE_TXT]
    case Apex => ApexTypes(params)
    case Address(ip) => AddressTypes(ip)
    case Empty => []
  }

  // ----- what the record says --------------------------------------------------

  lemma NsecReads(query: Bytes, existing: seq<u16>, params: ZoneParams, qname: Labels)
    requires AsksName(query, qname)
    ensures ParseNsec(NsecRr(query, existing, params).rdata)
         == if |Wire(qname)| <= 253 then Some((Successor(LowerLabels(qname)), TypeSet(existing) + {TYPE_NSEC, TYPE_RRSIG}))
            else None
  {
    hide Wire, LowerLabels, TypeField, NsecRdata, QnameWire, ValidLabels, Asks, DecodeBitmap, SortDedup, D.DecodeName;
    var next, field := [[0]] + LowerLabels(qname), TypeField(NsecTypes(existing));
    NsecRdataIs(query, existing, qname);
    AskedLabels(query, qname);
    NextIsLower(qname);
    NextLength(qname);
    assert TypeSet(NsecTypes(existing)) == TypeSet(existing) + {TYPE_NSEC, TYPE_RRSIG};
    NotEmpty(NsecTypes(existing));
    TypeFieldRoundTrip(NsecTypes(existing));
    hide NsecTypes, TypeSet;
    ReadTwo(next, field);
  }

  lemma NotEmpty(types: seq<u16>)
    requires TYPE_NSEC in TypeSet(types)
    ensures types != []
  {
  }

  lemma ReadTwo(next: Labels, field: Bytes)
    requires ValidLabels(next)
    ensures D.DecodeName(Wire(next) + field, 0, 0)
         == if |Wire(next)| <= D.MAX_NAME then Some((next, |Wire(next)|)) else None
    ensures (Wire(next) + field)[|Wire(next)|..] == field
  {
    assert At(Wire(next) + field, 0, Wire(next));
    D.NameDecodes(Wire(next) + field, 0, 0, next);
    hide Wire, D.DecodeName;
  }

  // ----- which questions get answers -------------------------------------------

  /** The types a name's answers really have, told apart from what its NSEC lists. */
  ghost predicate Answered(route: Route, qtype: u16, params: ZoneParams) {
    || qtype in ExistingTypes(route, params)
    || (qtype == TYPE_ANY && ExistingTypes(route, params) != [])
    || (qtype == TYPE_NSEC && route.Apex? && params.dnssec.Some?)
  }

  lemma AnswersNonempty(query: Bytes, route: Route, qtype: u16, config: Config, params: ZoneParams)
    requires QuestionSectionEnd(query).Some? && params.nsNames != []
    requires !route.Outside? && (route.Version? ==> route.inZone)
    ensures Answer(query, route, qtype, config, params).Some?
    ensures Answer(query, route, qtype, config, params).value.answers != [] <==> Answered(route, qtype, params)
    ensures !Answered(route, qtype, params) ==>
              Answer(query, route, qtype, config, params).value == NodataSections(query, ExistingTypes(route, params), params)
  {
    hide QuestionSectionEnd, Glue, SoaRr, NsecRr, TxtRr, DnskeyRr, CdsRr, CdnskeyRr, VersionText;
    assert |NsSet(params.nsNames)| == |params.nsNames|;
    AnyNonempty(params);
    hide NsSet, AnyAnswers;
    match route {
      case Apex => ApexNonempty(query, qtype, params);
      case Version(_) =>
      case Dmarc =>
      case Address(ip) =>
      case Empty =>
    }
  }

  lemma AnyNonempty(params: ZoneParams)
    ensures AnyAnswers(params) != []
  {
    assert AnyFixed(params)[0] == SoaRr(Question, params);
  }

  lemma ApexNonempty(query: Bytes, qtype: u16, params: ZoneParams)
    requires QuestionSectionEnd(query).Some? && NsSet(params.nsNames) != [] && AnyAnswers(params) != []
    ensures ApexSections(query, qtype, params).answers != [] <==> Answered(Apex, qtype, params)
    ensures !Answered(Apex, qtype, params) ==> ApexSections(query, qtype, params) == NodataSections(query, ApexTypes(params), params)
  {
    hide QuestionSectionEnd, Glue, SoaRr, NsecRr, TxtRr, DnskeyRr, CdsRr, CdnskeyRr, NsSet, AnyAnswers;
  }

  // ----- the answer count on the wire ------------------------------------------

  lemma EmittedNonempty(rrs: seq<Rr>, query: Bytes, params: ZoneParams)
    requires QuestionSectionEnd(query).Some?
    ensures Emitted(rrs, query, params) == [] <==> rrs == []
  {
    GroupsFlat(rrs);
    hide QuestionSectionEnd, Sort;
    if rrs != [] {
      var g := Groups(rrs)[0];
      assert |Sort(Rdatas(g))| == |multiset(Rdatas(g))| == |g|;
      assert EmittedGroup(g, query, params) != [];
    }
  }

  /** ANCOUNT of a reply is positive exactly when there is an answer to the question. */
  lemma AnswerCount(query: Bytes, qname: Labels, config: Config, now: u32)
    requires WellFormed(query, qname) && ValidConfig(config) && IsInZone(Join(qname, DOT), config.glueName)
    ensures |Reply(query, config, now)| >= 12
    ensures U16At(Reply(query, config, now), 6) > 0
       <==> Answered(QueryRoute(qname, config), QueryType(query), ReplyParams(query, config, now))
  {
    var params := ReplyParams(query, config, now);
    var route := QueryRoute(qname, config);
    InZoneAnswered(query, qname, config, now);
    ParamsValid(config, QueryDnssecOk(query), now);
    assert params.nsNames != [];
    AnswersNonempty(query, route, QueryType(query), config, params);
    var sections := ReplySections(query, qname, config, now).value;
    ReplyIsRendered(query, qname, config, now);
    RenderedIs(query, sections, params);
    EmittedNonempty(sections.answers, query, params);
    hide *;
    AnCount(query, sections, params);
  }

  lemma AnCount(query: Bytes, sections: Sections, params: ZoneParams)
    requires QuestionSectionEnd(query).Some?
    ensures var r := Finished(WithQuestion(query, true, RCODE_NOERROR), sections, query, params);
            |r| >= 12 && (U16At(r, 6) > 0 <==> Emitted(sections.answers, query, params) != [])
  {
    hide Emitted, RrsBytes, OptTail, QueryHasOpt, Finished, QuestionSectionEnd, Counted;
    var base := WithQuestion(query, true, RCODE_NOERROR);
    assert U16At(base, 6) == 0;
    hide WithQuestion;
    var an, ns, ar := Emitted(sections.answers, query, params), Emitted(sections.authority, query, params),
                      Emitted(sections.additional, query, params);
    FinishedLayout(base, sections, query, params);
    CountedAnswers(base, |an|, |ns|, |ar| + |OptRecords(query, params.Sign())|);
  }

  lemma CountedAnswers(base: Bytes, an: nat, ns: nat, ar: nat)
    requires |base| >= 12 && U16At(base, 6) == 0
    ensures U16At(Counted(base, an, ns, ar), 6) == Min(0xFFFF, an)
  {
    var h1 := Bumped(base, OFFSET_ANCOUNT, an);
    var h2 := Bumped(h1, OFFSET_NSCOUNT, ns);
    BumpedReads(base, OFFSET_ANCOUNT, an);
    BumpedReads(h1, OFFSET_NSCOUNT, ns);
    BumpedReads(h2, OFFSET_ARCOUNT, ar);
    hide Bumped;
  }

  // ----- truthfulness ----------------------------------------------------------

  /** The query types for which an answer contradicts the bitmap: a signature type, the NSEC
      type below the apex, and the meta-type ANY at a name that has types. */
  predicate Untruthful(route: Route, qtype: u16) {
    || qtype == TYPE_RRSIG
    || (qtype == TYPE_NSEC && !route.Apex?)
    || (qtype == TYPE_ANY && !route.Empty?)
  }

  lemma BitmapMatches(route: Route, qtype: u16, params: ZoneParams)
    requires params.dnssec.Some? && !route.Outside?
    requires route.Address? ==> route.ip.0.Some? || route.ip.1.Some?
    ensures (qtype in TypeSet(ExistingTypes(route, params)) + {TYPE_NSEC, TYPE_RRSIG} <==> Answered(route, qtype, params))
       <==> !Untruthful(route, qtype)
  {
    assert qtype in TypeSet(ExistingTypes(route, params)) <==> qtype in ExistingTypes(route, params);
    TypesAreOrdinary(route, params);
    hide ApexTypes, AddressTypes, TypeSet;
  }

  lemma TypesAreOrdinary(route: Route, params: ZoneParams)
    ensures forall t | t in ExistingTypes(route, params) :: t != TYPE_NSEC && t != TYPE_RRSIG && t != TYPE_ANY
    ensures route.Address? && (route.ip.0.Some? || route.ip.1.Some?) ==> ExistingTypes(route, params) != []
    ensures route.Apex? ==> ExistingTypes(route, params) != []
  {
  }

  lemma AddressRoute(qname: Labels, config: Config)
    ensures var route := QueryRoute(qname, config); route.Address? ==> route.ip.0.Some? || route.ip.1.Some?
  {
    hide IsInZone, NamesEq, IsVersionQuery, IsConfiguredNs, DmarcOwner, Join, Ip.AddressesOf;
  }

  lemma {:induction false} InUnsigned(section: seq<D.Record>, r: D.Record)
    requires r in section && r.typ != TYPE_RRSIG
    ensures r in Unsigned(section)
  {
    if r != section[0] {
      assert r in section[1..];
      InUnsigned(section[1..], r);
    }
  }

  lemma {:induction false} FromUnsigned(section: seq<D.Record>, r: D.Record)
    requires r in Unsigned(section)
    ensures r in section
  {
    if section[0].typ == TYPE_RRSIG {
      FromUnsigned(section[1..], r);
    } else if r != section[0] {
      FromUnsigned(section[1..], r);
    }
  }

  /** A signed answer without records holds one NSEC record, for the queried name. */
  lemma DenialHoldsNsec(query: Bytes, qname: Labels, config: Config, now: u32)
    requires WellFormed(query, qname) && ValidConfig(config) && IsInZone(Join(qname, DOT), config.glueName)
    requires config.dnssec.Some? && QueryDnssecOk(query)
    requires D.Decode(Reply(query, config, now)).Some? && D.Decode(Reply(query, config, now)).value.answers == []
    ensures var params := ReplyParams(query, config, now);
            var nsec := ToRecord(qname, NsecRr(query, ExistingTypes(QueryRoute(qname, config), params), params));
            var authority := D.Decode(Reply(query, config, now)).value.authority;
            nsec in authority && forall r | r in authority && r.typ == TYPE_NSEC :: r == nsec
  {
    var params := ReplyParams(query, config, now);
    var route := QueryRoute(qname, config);
    InZoneAnswered(query, qname, config, now);
    ParamsValid(config, QueryDnssecOk(query), now);
    AnswersNonempty(query, route, QueryType(query), config, params);
    var sections := ReplySections(query, qname, config, now).value;
    ReplyDecodes(query, qname, config, now);
    ReadParts(query, qname, sections, params);
    var m := ReadReply(query, qname, sections, params);
    assert params.Sign() && m.answers == [];
    assert |ToRecords(qname, Emitted(sections.answers, query, params))| == |Emitted(sections.answers, query, params)|;
    EmittedNonempty(sections.answers, query, params);
    hide WellFormed, ValidConfig, Answered, ReadReply, Emitted, Answer, IsInZone, AsksName, ValidParams, Answers.ValidParams,
      RouteOf, D.Decode, Reply, ExistingTypes, RunsInOrder, NsecRr, SoaRr, ToRecord, Unsigned, QueryDnssecOk, Params;
    var existing := ExistingTypes(route, params);
    assert sections == NodataSections(query, existing, params);
    NodataHoldsNsec(query, existing, params, qname, m.authority);
  }

  lemma NodataRecords(query: Bytes, existing: seq<u16>, params: ZoneParams, qname: Labels)
    requires QuestionSectionEnd(query).Some? && params.Sign()
    ensures var soa, nsec := SoaRr(Name(params.zone), params), NsecRr(query, existing, params);
            && ToRecords(qname, NodataSections(query, existing, params).authority) == [ToRecord(qname, soa), ToRecord(qname, nsec)]
            && ToRecord(qname, soa).typ == TYPE_SOA
  {
    hide OwnerLabels, SoaRdata, NsecRdata, NsecTypes, QnameWire, QuestionSectionEnd;
  }

  lemma NodataHoldsNsec(query: Bytes, existing: seq<u16>, params: ZoneParams, qname: Labels, authority: seq<D.Record>)
    requires QuestionSectionEnd(query).Some? && params.Sign()
    requires multiset(Unsigned(authority)) == multiset(ToRecords(qname, NodataSections(query, existing, params).authority))
    ensures var nsec := ToRecord(qname, NsecRr(query, existing, params));
            nsec in authority && forall r | r in authority && r.typ == TYPE_NSEC :: r == nsec
  {
    hide SoaRr, NsecRr, ToRecord, ToRecords, NodataSections, Unsigned, QuestionSectionEnd;
    var soa, nsec := SoaRr(Name(params.zone), params), NsecRr(query, existing, params);
    var want := [ToRecord(qname, soa), ToRecord(qname, nsec)];
    NodataRecords(query, existing, params, qname);
    assert ToRecord(qname, nsec) in multiset(want);
    FromUnsigned(authority, ToRecord(qname, nsec));
    forall r | r in authority && r.typ == TYPE_NSEC ensures r == ToRecord(qname, nsec) {
      InUnsigned(authority, r);
      assert r in multiset(Unsigned(authority));
      assert r in multiset(want);
    }
  }

  /** A signed denial, as the octets on the wire.  Its NSEC record reads back exactly when the
      owner has at most 253 octets, so that the next name is a name.  It then tells the truth
      about the octets of the reply to any other question for the name, in any spelling: the type
      asked for is in the bitmap iff that reply counts an answer, for exactly the types that are
      not `Untruthful`; and it denies no name but its owner's. */
  lemma NsecTruthful(denied: Bytes, qname: Labels, asked: Bytes, spelled: Labels, config: Config, now: u32, later: u32, r: D.Record)
    requires WellFormed(denied, qname) && WellFormed(asked, spelled) && LowerLabels(spelled) == LowerLabels(qname)
    requires spelled == qname || BlindReader(config.readIpv6)
    requires ValidConfig(config) && IsInZone(Join(qname, DOT), config.glueName)
    requires config.dnssec.Some? && QueryDnssecOk(denied)
    requires D.Decode(Reply(denied, config, now)).Some? && D.Decode(Reply(denied, config, now)).value.answers == []
    requires r in D.Decode(Reply(denied, config, now)).value.authority && r.typ == TYPE_NSEC
    ensures r.name == qname && (ParseNsec(r.rdata).Some? <==> |Wire(qname)| <= 253)
    ensures |Reply(asked, config, later)| >= 12
    ensures ParseNsec(r.rdata).Some? ==>
              var (next, types) := ParseNsec(r.rdata).value;
              && NameLess(r.name, next) && (forall x: Labels | ValidLabels(x) :: !(NameLess(r.name, x) && NameLess(x, next)))
              && ((QueryType(asked) in types <==> U16At(Reply(asked, config, later), 6) > 0)
                  <==> !Untruthful(QueryRoute(qname, config), QueryType(asked)))
  {
    var params := ReplyParams(denied, config, now);
    var route := QueryRoute(qname, config);
    DenialHoldsNsec(denied, qname, config, now);
    NsecReads(denied, ExistingTypes(route, params), params, qname);
    assert r == ToRecord(qname, NsecRr(denied, ExistingTypes(route, params), params));
    assert r.name == qname && r.rdata == NsecRr(denied, ExistingTypes(route, params), params).rdata;
    SpellingsAgree(qname, spelled, config);
    AnswerCount(asked, spelled, config, later);
    InZoneAnswered(denied, qname, config, now);
    AddressRoute(qname, config);
    assert params.dnssec.Some?;
    BitmapMatches(route, QueryType(asked), params);
    SameTypes(route, config, denied, now, asked, later, QueryType(asked));
    assert ValidName(qname);
    CoversOnlyItself(qname);
    hide *;
  }

  /** Zone and route do not depend on how a name is spelled. */
  lemma SpellingsAgree(a: Labels, b: Labels, config: Config)
    requires LowerLabels(b) == LowerLabels(a) && (b == a || BlindReader(config.readIpv6))
    ensures QueryRoute(b, config) == QueryRoute(a, config)
    ensures IsInZone(Join(b, DOT), config.glueName) <==> IsInZone(Join(a, DOT), config.glueName)
  {
    hide RouteOf, IsInZone, BlindReader;
    JoinBlind(a, b);
    InZoneBlind(Join(a, DOT), Join(b, DOT), config.glueName);
    if b != a {
      RouteBlind(Join(a, DOT), Join(b, DOT), config);
    }
  }

  lemma CoversOnlyItself(qname: Labels)
    requires ValidName(qname)
    ensures NameLess(qname, Successor(LowerLabels(qname)))
    ensures forall x: Labels | ValidLabels(x) :: !(NameLess(qname, x) && NameLess(x, Successor(LowerLabels(qname))))
  {
    WireLower(qname);
    LowerLabelsIdempotent(qname);
    ImmediateSuccessor(LowerLabels(qname));
    NameLessBlind(qname, Successor(LowerLabels(qname)));
    forall x: Labels | ValidLabels(x) ensures !(NameLess(qname, x) && NameLess(x, Successor(LowerLabels(qname)))) {
      NameLessBlind(qname, x);
    }
    hide NameLess, LowerLabels, ValidName;
  }

  lemma {:induction false} NameLessBlind(a: Labels, b: Labels)
    ensures NameLess(LowerLabels(a), b) <==> NameLess(a, b)
  {
    if a != [] && b != [] {
      var n, m := |a| - 1, |b| - 1;
      NameLessBlind(a[..n], b[..m]);
      assert LowerLabels(a)[..n] == LowerLabels(a[..n]);
      LowerAllIdempotent(a[n]);
      assert LowerLabels(a)[n] == LowerAll(a[n]);
    }
  }

  /** What exists at a name depends on neither the query nor the clock. */
  lemma SameTypes(route: Route, config: Config, denied: Bytes, now: u32, asked: Bytes, later: u32, qtype: u16)
    ensures ExistingTypes(route, ReplyParams(denied, config, now)) == ExistingTypes(route, ReplyParams(asked, config, later))
    ensures Answered(route, qtype, ReplyParams(denied, config, now)) <==> Answered(route, qtype, ReplyParams(asked, config, later))
  {
    hide QueryDnssecOk;
  }
}
