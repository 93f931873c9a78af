/**
 Whole replies: what a reader and a validator find in the octets the server sends,
 for every well-formed question and every legal configuration.
 */
module Replies {
  import opened Octets
  import opened Names
  import opened Zone
  import opened QueryReader
  import opened Dnssec
  import opened Message
  import opened Responses
  import opened Query
  import opened RoundTrip
  import opened Rrsets
  import opened Emission
  import opened Validator
  import opened Answers
  import D = Decoder

  ghost predicate ValidConfig(config: Config) { ValidParams(Params(config, false, 0)) }

  /** A standard query in class IN with one question, for a legal name. */
  ghost predicate WellFormed(query: Bytes, qname: Labels) {
    AsksName(query, qname) && Opcode(query) == 0 && ParseQtypeQclass(query).Some? && ParseQtypeQclass(query).value.1 == 1
  }

  function QueryType(query: Bytes): u16
    requires ParseQtypeQclass(query).Some?
  {
    ParseQtypeQclass(query).value.0
  }

  function QueryRoute(qname: Labels, config: Config): Route { RouteOf(Join(qname, DOT), config) }

  function ReplyParams(query: Bytes, config: Config, now: u32): ZoneParams { Params(config, QueryDnssecOk(query), now) }

  /** The records behind the reply, or none when the query is refused. */
  function ReplySections(query: Bytes, qname: Labels, config: Config, now: u32): Option<Sections>
    requires QuestionSectionEnd(query).Some? && ParseQtypeQclass(query).Some?
  {
    Answer(query, QueryRoute(qname, config), QueryType(query), config, ReplyParams(query, config, now))
  }

  lemma ReplyIsRendered(query: Bytes, qname: Labels, config: Config, now: u32)
    requires WellFormed(query, qname)
    ensures var sections := ReplySections(query, qname, config, now);
            Reply(query, config, now)
            == if sections.None? then ErrorReply(query, RCODE_REFUSED)
               else Rendered(query, sections.value, ReplyParams(query, config, now))
  {
    ReadersAgree(query, qname);
    hide ParsedDomain, QuestionSectionEnd, Asks, ValidName, Answer, RouteOf, Rendered, ErrorReply, QueryDnssecOk, Params, Opcode,
      Join, Wire, Encode, LowerWire, QnameWire, LabelsBeforeRoot, TextLabels, ParseQtypeQclass;
  }

  lemma ParamsValid(config: Config, doBit: bool, now: u32)
    requires ValidConfig(config)
    ensures ValidParams(Params(config, doBit, now))
  {
    hide ValidName, TextLabels, DistinctNames, ValidKey;
  }

  lemma AnswerGood(query: Bytes, route: Route, qtype: u16, config: Config, params: ZoneParams, qname: Labels)
    requires AsksName(query, qname) && ValidParams(params)
    ensures var sections := Answer(query, route, qtype, config, params);
            sections.Some? ==> GoodSections(sections.value, qname)
  {
    hide GoodSections, AsksName, ValidParams, NodataSections, TxtSections, ApexSections, AddressSections;
    match route {
      case Outside =>
      case Version(_) => TxtOrGood(query, VersionText(config), params, qname);
      case Dmarc => TxtOrGood(query, config.dmarc, params, qname);
      case Apex => ApexGood(query, qtype, params, qname);
      case Address(ip) => AddressGood(query, qtype, ip, params, qname);
      case Empty => NodataGood(query, [], params, qname);
    }
  }

  // ----- everything fits -------------------------------------------------------

  ghost predicate SmallRr(rr: Rr) {
    (rr.owner.Name? ==> ValidName(TextLabels(rr.owner.name))) && |rr.rdata| <= 2000
  }

  lemma RrsigSmall(g: Group, query: Bytes, params: ZoneParams)
    requires QuestionSectionEnd(query).Some? && ValidParams(params) && params.Sign()
    requires SmallRr(g[0])
    ensures SmallRr(GroupRrsig(g, query, params))
  {
    hide Encode, OwnerCanonicalWire, Sort, Rdatas, SignedRrs, LabelsBeforeRoot, Expiration, Inception, U16Bytes, U32Bytes,
      QuestionSectionEnd, DistinctNames;
    EncodedLength(params.zone);
    var owner := OwnerCanonicalWire(query, g[0].owner);
    PrefixLength(params.dnssec.value, owner, g[0].typ, g[0].ttl, params.zone, params.now);
    hide ValidName, TextLabels, RrsigPrefix;
  }

  lemma PrefixLength(key: DnssecKey, owner: Bytes, typ: u16, ttl: u32, zone: Bytes, now: u32)
    ensures |RrsigPrefix(key, owner, typ, ttl, zone, now)| == 18 + |Encode(zone)|
  {
    hide Encode, LabelsBeforeRoot, Expiration, Inception;
  }

  lemma GroupSmall(g: Group, query: Bytes, params: ZoneParams, rrs: seq<Rr>)
    requires QuestionSectionEnd(query).Some? && ValidParams(params)
    requires (forall rr | rr in g :: rr in rrs) && forall rr | rr in rrs :: SmallRr(rr)
    ensures forall rr | rr in EmittedGroup(g, query, params) :: SmallRr(rr)
    ensures |EmittedGroup(g, query, params)| <= 2 * |g|
  {
    hide ValidParams, GroupRrsig, Sort, ValidName, TextLabels, QuestionSectionEnd;
    var sorted := Sort(Rdatas(g));
    assert |sorted| == |multiset(Rdatas(g))| == |g|;
    assert g[0] in g;
    forall i | 0 <= i < |sorted| ensures |sorted[i]| <= 2000 {
      assert sorted[i] in multiset(Rdatas(g));
      var j :| 0 <= j < |g| && Rdatas(g)[j] == sorted[i];
      assert g[j] in rrs;
    }
    if params.Sign() {
      RrsigSmall(g, query, params);
    }
    RrsetSmall(g[0], sorted);
    hide Rdatas, SmallRr, RrsetRrs;
    assert forall rr | rr in EmittedGroup(g, query, params) ::
        rr in RrsetRrs(g[0].owner, g[0].typ, g[0].ttl, sorted) || (params.Sign() && rr == GroupRrsig(g, query, params));
  }

  lemma RrsetSmall(first: Rr, rdatas: seq<Bytes>)
    requires SmallRr(first) && forall i | 0 <= i < |rdatas| :: |rdatas[i]| <= 2000
    ensures forall rr | rr in RrsetRrs(first.owner, first.typ, first.ttl, rdatas) :: SmallRr(rr)
    ensures |RrsetRrs(first.owner, first.typ, first.ttl, rdatas)| == |rdatas|
  {
    hide ValidName, TextLabels;
  }

  lemma {:induction false} GroupsSmall(groups: seq<Group>, query: Bytes, params: ZoneParams, rrs: seq<Rr>)
    requires QuestionSectionEnd(query).Some? && ValidParams(params)
    requires (forall g | g in groups :: forall rr | rr in g :: rr in rrs) && forall rr | rr in rrs :: SmallRr(rr)
    ensures forall rr | rr in EmittedGroups(groups, query, params) :: SmallRr(rr)
    ensures |EmittedGroups(groups, query, params)| <= 2 * |Flat(groups)|
  {
    hide ValidParams, EmittedGroup, SmallRr, QuestionSectionEnd;
    if groups != [] {
      assert groups[0] in groups;
      assert forall g | g in groups[1..] :: g in groups;
      GroupSmall(groups[0], query, params, rrs);
      GroupsSmall(groups[1..], query, params, rrs);
    }
  }

  lemma {:induction false} FlatHolds(groups: seq<Group>, g: Group, rr: Rr)
    requires g in groups && rr in g
    ensures rr in Flat(groups)
  {
    if g != groups[0] {
      assert g in groups[1..];
      FlatHolds(groups[1..], g, rr);
    }
  }

  lemma EmittedFits(rrs: seq<Rr>, query: Bytes, params: ZoneParams)
    requires QuestionSectionEnd(query).Some? && ValidParams(params) && forall rr | rr in rrs :: SmallRr(rr)
    ensures AllEncodable(Emitted(rrs, query, params)) && |Emitted(rrs, query, params)| <= 2 * |rrs|
  {
    GroupsFlat(rrs);
    forall g, rr | g in Groups(rrs) && rr in g ensures rr in rrs {
      FlatHolds(Groups(rrs), g, rr);
    }
    hide ValidParams, Groups, QuestionSectionEnd;
    GroupsSmall(Groups(rrs), query, params, rrs);
    hide EmittedGroups;
    forall rr | rr in Emitted(rrs, query, params) ensures Encodable(rr) {
      assert SmallRr(rr);
    }
  }

  lemma SectionsFit(sections: Sections, query: Bytes, params: ZoneParams, qname: Labels)
    requires AsksName(query, qname) && ValidParams(params) && GoodSections(sections, qname)
    ensures Fits(sections, query, params)
  {
    forall rr | rr in sections.answers + sections.authority + sections.additional ensures SmallRr(rr) {
      assert rr in sections.answers || rr in sections.authority || rr in sections.additional;
      assert Good(rr, qname);
    }
    hide ValidParams, Emitted, Good, Proper, SmallRr, AllEncodable, Asks, ValidName, QuestionSectionEnd;
    EmittedFits(sections.answers, query, params);
    EmittedFits(sections.authority, query, params);
    EmittedFits(sections.additional, query, params);
  }

  // ----- the reply as read -----------------------------------------------------

  /** The message a reader recovers from an answered query. */
  function ReadReply(query: Bytes, qname: Labels, sections: Sections, params: ZoneParams): D.Message
    requires QuestionSectionEnd(query).Some?
  {
    ExpectedMessage(query, qname, true, RCODE_NOERROR, sections, params)
  }

  /** Every answered query decodes: the echoed identity and question, exactly the records put
      into each section next to signatures, and an OPT record last iff the query had one. */
  lemma ReplyDecodes(query: Bytes, qname: Labels, config: Config, now: u32)
    requires WellFormed(query, qname) && ValidConfig(config)
    requires ReplySections(query, qname, config, now).Some?
    ensures var sections, params := ReplySections(query, qname, config, now).value, ReplyParams(query, config, now);
            var m := ReadReply(query, qname, sections, params);
            && D.Decode(Reply(query, config, now)) == Some(m)
            && multiset(Unsigned(m.answers)) == multiset(ToRecords(qname, sections.answers))
            && multiset(Unsigned(m.authority)) == multiset(ToRecords(qname, sections.authority))
            && multiset(Unsigned(m.additional)) == multiset(ToRecords(qname, sections.additional) + OptRecords(query, params.Sign()))
            && RunsInOrder(m.answers) && RunsInOrder(m.authority) && RunsInOrder(m.additional)
  {
    var params := ReplyParams(query, config, now);
    var sections := ReplySections(query, qname, config, now).value;
    ParamsValid(config, QueryDnssecOk(query), now);
    AnswerGood(query, QueryRoute(qname, config), QueryType(query), config, params, qname);
    ReplyIsRendered(query, qname, config, now);
    SectionsFit(sections, query, params, qname);
    assert Asks(query, qname);
    FinishedDecodes(query, qname, true, RCODE_NOERROR, sections, params);
    assert Proper(sections.answers, qname) && Proper(sections.authority, qname) && Proper(sections.additional, qname);
    NoOptInside(sections.additional, qname);
    hide *;
    SectionsConserved(sections, query, params, qname);
    ReadParts(query, qname, sections, params);
    RenderedIs(query, sections, params);
  }

  lemma NoOptInside(rrs: seq<Rr>, qname: Labels)
    requires GoodList(rrs, qname)
    ensures forall rr | rr in rrs :: rr.typ != TYPE_OPT
  {
    forall rr | rr in rrs ensures rr.typ != TYPE_OPT {
      assert Good(rr, qname);
    }
  }

  lemma RenderedIs(query: Bytes, sections: Sections, params: ZoneParams)
    requires QuestionSectionEnd(query).Some?
    ensures Rendered(query, sections, params) == Finished(WithQuestion(query, true, RCODE_NOERROR), sections, query, params)
  {
  }

  lemma ReadParts(query: Bytes, qname: Labels, sections: Sections, params: ZoneParams)
    requires QuestionSectionEnd(query).Some?
    ensures var m := ReadReply(query, qname, sections, params);
            && m == ExpectedMessage(query, qname, true, RCODE_NOERROR, sections, params)
            && m.header == ExpectedHeader(query, true, RCODE_NOERROR)
            && m.answers == ToRecords(qname, Emitted(sections.answers, query, params))
            && m.authority == ToRecords(qname, Emitted(sections.authority, query, params))
            && m.additional == ToRecords(qname, Emitted(sections.additional, query, params)) + OptRecords(query, params.Sign())
  {
  }

  lemma SectionsConserved(sections: Sections, query: Bytes, params: ZoneParams, qname: Labels)
    requires QuestionSectionEnd(query).Some? && forall rr | rr in sections.additional :: rr.typ != TYPE_OPT
    requires Proper(sections.answers, qname) && Proper(sections.authority, qname) && Proper(sections.additional, qname)
    ensures multiset(Unsigned(ToRecords(qname, Emitted(sections.answers, query, params)))) == multiset(ToRecords(qname, sections.answers))
    ensures multiset(Unsigned(ToRecords(qname, Emitted(sections.authority, query, params)))) == multiset(ToRecords(qname, sections.authority))
    ensures multiset(Unsigned(ToRecords(qname, Emitted(sections.additional, query, params)) + OptRecords(query, params.Sign())))
         == multiset(ToRecords(qname, sections.additional) + OptRecords(query, params.Sign()))
    ensures RunsInOrder(ToRecords(qname, Emitted(sections.answers, query, params)))
    ensures RunsInOrder(ToRecords(qname, Emitted(sections.authority, query, params)))
    ensures RunsInOrder(ToRecords(qname, Emitted(sections.additional, query, params)) + OptRecords(query, params.Sign()))
  {
    hide *;
    RunsWithOpt(sections.additional, query, params, qname, params.Sign());
    EmissionConserves(sections.answers, query, params, qname);
    EmissionConserves(sections.authority, query, params, qname);
    EmissionConserves(sections.additional, query, params, qname);
    UnsignedConcat(ToRecords(qname, Emitted(sections.additional, query, params)), OptRecords(query, params.Sign()));
    OptUnsigned(query, params.Sign());
    EmissionRuns(sections.answers, query, params, qname);
    EmissionRuns(sections.authority, query, params, qname);
  }

  lemma OptUnsigned(query: Bytes, ok: bool)
    ensures Unsigned(OptRecords(query, ok)) == OptRecords(query, ok)
  {
    hide QueryHasOpt;
    UnsignedAll(OptRecords(query, ok));
  }

  // ----- the reply as validated ------------------------------------------------

  lemma ReplySectionsOf(query: Bytes, qname: Labels, sections: Sections, params: ZoneParams)
    requires QuestionSectionEnd(query).Some?
    ensures var m := ReadReply(query, qname, sections, params);
            && SectionOf(m.answers, sections.answers, query, params, qname)
            && SectionOf(m.authority, sections.authority, query, params, qname)
            && SectionOf(m.additional, sections.additional, query, params, qname)
  {
    ReadParts(query, qname, sections, params);
    hide Emitted, ExpectedHeader, QueryHasOpt, ReadReply, ToRecord;
  }

  lemma GoodIsCheckable(rrs: seq<Rr>, qname: Labels)
    requires GoodList(rrs, qname)
    ensures Proper(rrs, qname) && forall rr | rr in rrs :: Checkable(rr, qname)
  {
    forall rr | rr in rrs ensures Checkable(rr, qname) {
      assert Good(rr, qname);
    }
  }

  /** A signed reply, as the octets on the wire, under the reference validator: in each
      section every RRset is covered, the octets rebuilt for each signature are those that were
      signed, and it is accepted exactly for in-zone owners without a leading asterisk, from an
      hour before the clock reading to seven days after. */
  lemma ReplyValidates(query: Bytes, qname: Labels, config: Config, now: u32, anchor: Anchor, t: u32)
    requires WellFormed(query, qname) && ValidConfig(config)
    requires ReplySections(query, qname, config, now).Some?
    requires SignsFor(ReplyParams(query, config, now), anchor)
    ensures D.Decode(Reply(query, config, now)).Some?
    ensures var m := D.Decode(Reply(query, config, now)).value;
            ValidatesAt(m.answers, anchor, now, t) && ValidatesAt(m.authority, anchor, now, t) && ValidatesAt(m.additional, anchor, now, t)
  {
    var params := ReplyParams(query, config, now);
    var sections := ReplySections(query, qname, config, now).value;
    ReplyDecodes(query, qname, config, now);
    ParamsValid(config, QueryDnssecOk(query), now);
    AnswerGood(query, QueryRoute(qname, config), QueryType(query), config, params, qname);
    assert Asks(query, qname) && params.now == now;
    GoodIsCheckable(sections.answers, qname);
    GoodIsCheckable(sections.authority, qname);
    GoodIsCheckable(sections.additional, qname);
    ReplySectionsOf(query, qname, sections, params);
    var m := ReadReply(query, qname, sections, params);
    hide *;
    SectionValidates(sections.answers, m.answers, query, params, qname, anchor, t);
    SectionValidates(sections.authority, m.authority, query, params, qname, anchor, t);
    SectionValidates(sections.additional, m.additional, query, params, qname, anchor, t);
  }

  // ----- names inside the zone -------------------------------------------------

  /** No configured name begins with an asterisk. */
  ghost predicate NoStars(config: Config) {
    !LeadingStar(TextLabels(config.glueName)) && forall n | n in config.nsNames :: !LeadingStar(TextLabels(n))
  }

  lemma {:induction false} GlueOwners(names: seq<Bytes>, params: ZoneParams, rr: Rr)
    requires rr in Glue(names, params)
    ensures rr.owner.Name? && rr.owner.name in names && NameInBailiwick(rr.owner.name, params.zone)
  {
    hide NameInBailiwick;
    if rr in Glue(names[..|names| - 1], params) {
      GlueOwners(names[..|names| - 1], params, rr);
    } else {
      assert rr in GlueFor(names[|names| - 1], params);
    }
  }

  /** Answers are owned by the question, authority by the question or the zone, additional
      records by name servers inside the zone. */
  ghost predicate OwnedWell(sections: Sections, params: ZoneParams) {
    && (forall rr | rr in sections.answers :: rr.owner == Question)
    && (forall rr | rr in sections.authority :: rr.owner == Question || rr.owner == Name(params.zone))
    && (sections.additional == [] || sections.additional == Glue(params.nsNames, params))
  }

  lemma NodataOwners(query: Bytes, existing: seq<u16>, params: ZoneParams)
    requires QuestionSectionEnd(query).Some?
    ensures OwnedWell(NodataSections(query, existing, params), params)
  {
    hide Glue, SoaRdata, NsecRdata, NsecTypes, QnameWire, QuestionSectionEnd;
  }

  lemma ApexOwners(query: Bytes, qtype: u16, params: ZoneParams)
    requires QuestionSectionEnd(query).Some?
    ensures OwnedWell(ApexSections(query, qtype, params), params)
  {
    hide Glue, SoaRdata, NsecRdata, DsRdata, Encode, NsecTypes, QnameWire, QuestionSectionEnd, NodataSections, AnyAnswers;
    AnyOwners(params);
    NodataOwners(query, ApexTypes(params), params);
  }

  lemma AddressOwners(query: Bytes, qtype: u16, ip: Addresses, params: ZoneParams)
    requires QuestionSectionEnd(query).Some?
    ensures OwnedWell(AddressSections(query, qtype, ip, params), params)
  {
    hide Glue, QuestionSectionEnd, NodataSections;
    NodataOwners(query, AddressTypes(ip), params);
  }

  lemma TxtOwners(txt: Bytes, params: ZoneParams)
    ensures OwnedWell(TxtSections(txt), params)
  {
    hide Glue;
  }

  /** On every route the records of the three sections have the owners they should. */
  lemma AnswerOwners(query: Bytes, route: Route, qtype: u16, config: Config, params: ZoneParams)
    requires QuestionSectionEnd(query).Some? && Answer(query, route, qtype, config, params).Some?
    ensures OwnedWell(Answer(query, route, qtype, config, params).value, params)
  {
    hide OwnedWell, ApexSections, AddressSections, NodataSections, TxtSections, QuestionSectionEnd, VersionText;
    match route {
      case Version(_) =>
        TxtOwners(VersionText(config), params);
        NodataOwners(query, [TYPE_TXT], params);
      case Dmarc =>
        TxtOwners(config.dmarc, params);
        NodataOwners(query, [TYPE_TXT], params);
      case Apex => ApexOwners(query, qtype, params);
      case Address(ip) => AddressOwners(query, qtype, ip, params);
      case Empty => NodataOwners(query, [], params);
    }
  }

  lemma AnyOwners(params: ZoneParams)
    ensures forall rr | rr in AnyAnswers(params) :: rr.owner == Question
  {
  }

  lemma OwnersArePlain(qname: Labels, config: Config, params: ZoneParams, sections: Sections)
    requires params.zone == config.glueName && params.nsNames == config.nsNames && TextLabels(params.zone) != []
    requires NoStars(config) && !LeadingStar(qname) && HasLabelSuffix(qname, TextLabels(params.zone))
    requires forall rr | rr in sections.answers :: rr.owner == Question
    requires forall rr | rr in sections.authority :: rr.owner == Question || rr.owner == Name(params.zone)
    requires sections.additional == [] || sections.additional == Glue(params.nsNames, params)
    ensures PlainOwners(sections.answers, qname, TextLabels(params.zone))
    ensures PlainOwners(sections.authority, qname, TextLabels(params.zone))
    ensures PlainOwners(sections.additional, qname, TextLabels(params.zone))
  {
    var zone := TextLabels(params.zone);
    ConfiguredIsPlain(params.zone, zone);
    forall rr | rr in sections.additional
      ensures !LeadingStar(OwnerLabels(qname, rr.owner)) && HasLabelSuffix(OwnerLabels(qname, rr.owner), zone)
    {
      GlueOwners(params.nsNames, params, rr);
      BailiwickIsZoneMembership(rr.owner.name, params.zone);
      InZoneIsLabelSuffix(rr.owner.name, params.zone);
      ConfiguredIsPlain(rr.owner.name, zone);
      hide LeadingStar, HasLabelSuffix, TextLabels, LowerLabels, Glue, NameInBailiwick, IsInZone, OnlyEmptyLabelExtra;
    }
    hide LeadingStar, HasLabelSuffix, Glue, TextLabels, LowerLabels;
  }

  lemma ConfiguredIsPlain(name: Bytes, zone: Labels)
    ensures LeadingStar(LowerLabels(TextLabels(name))) <==> LeadingStar(TextLabels(name))
    ensures HasLabelSuffix(LowerLabels(TextLabels(name)), zone) <==> HasLabelSuffix(TextLabels(name), zone)
    ensures HasLabelSuffix(TextLabels(name), TextLabels(name))
  {
    var labels := TextLabels(name);
    StarSurvivesCase(labels);
    LowerLabelsIdempotent(labels);
    if |zone| <= |labels| {
      LowerLabelsDrop(labels, |labels| - |zone|);
      LowerLabelsDrop(LowerLabels(labels), |labels| - |zone|);
    }
    assert labels[0..] == labels;
    hide LowerLabels, TextLabels;
  }

  /** For every in-zone question, every signature in the reply is good. */
  lemma InZoneRepliesAuthentic(query: Bytes, qname: Labels, config: Config, now: u32, anchor: Anchor, t: u32)
    requires WellFormed(query, qname) && ValidConfig(config) && NoStars(config)
    requires HasLabelSuffix(qname, TextLabels(config.glueName)) && !LeadingStar(qname)
    requires SignsFor(ReplyParams(query, config, now), anchor) && now - 3600 <= t <= now + 604800
    ensures ReplySections(query, qname, config, now).Some? && D.Decode(Reply(query, config, now)).Some?
    ensures var m := D.Decode(Reply(query, config, now)).value;
            SignaturesGood(m.answers, anchor, t) && SignaturesGood(m.authority, anchor, t) && SignaturesGood(m.additional, anchor, t)
  {
    var params := ReplyParams(query, config, now);
    TextInZone(query, qname, config);
    InZoneAnswered(query, qname, config, now);
    var sections := ReplySections(query, qname, config, now).value;
    ReplyDecodes(query, qname, config, now);
    ParamsValid(config, QueryDnssecOk(query), now);
    AnswerGood(query, QueryRoute(qname, config), QueryType(query), config, params, qname);
    AnswerOwners(query, QueryRoute(qname, config), QueryType(query), config, params);
    assert Asks(query, qname) && params.now == now && TextLabels(params.zone) != [];
    assert anchor.zone == TextLabels(params.zone);
    OwnersArePlain(qname, config, params, sections);
    GoodIsCheckable(sections.answers, qname);
    GoodIsCheckable(sections.authority, qname);
    GoodIsCheckable(sections.additional, qname);
    ReplySectionsOf(query, qname, sections, params);
    var m := ReadReply(query, qname, sections, params);
    hide *;
    AllAuthentic(sections.answers, m.answers, query, params, qname, anchor, t);
    AllAuthentic(sections.authority, m.authority, query, params, qname, anchor, t);
    AllAuthentic(sections.additional, m.additional, query, params, qname, anchor, t);
  }

  lemma TextInZone(query: Bytes, qname: Labels, config: Config)
    requires WellFormed(query, qname) && ValidConfig(config) && HasLabelSuffix(qname, TextLabels(config.glueName))
    ensures IsInZone(Join(qname, DOT), config.glueName)
  {
    hide ValidName, ParseQtypeQclass, Opcode, IsInZone, TextLabels, QuestionSectionEnd, HasLabelSuffix, Join, DistinctNames, ValidKey;
    AskedLabels(query, qname);
    assert TextLabels(config.glueName) != [];
    WireMembership(qname, config.glueName);
  }

  /** In-zone names are never refused. */
  lemma InZoneAnswered(query: Bytes, qname: Labels, config: Config, now: u32)
    requires WellFormed(query, qname) && IsInZone(Join(qname, DOT), config.glueName)
    ensures ReplySections(query, qname, config, now).Some?
    ensures !QueryRoute(qname, config).Outside?
    ensures QueryRoute(qname, config).Version? ==> QueryRoute(qname, config).inZone
  {
    hide IsInZone, NamesEq, IsVersionQuery, IsConfiguredNs, QuestionSectionEnd, NodataSections, ApexSections, AddressSections,
      TxtOr, Params, VersionText, QueryDnssecOk, DmarcOwner, AsksName, Join;
  }
}
