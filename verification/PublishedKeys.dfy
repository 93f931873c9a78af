/**
 The keys the server publishes are the keys it signs with.
 */
module PublishedKeys {
  import opened Octets
  import opened Names
  import opened Zone
  import opened QueryReader
  import opened Dnssec
  import opened Responses
  import opened Query
  import opened Letters
  import opened Validator
  import opened KeyTags
  import opened Answers
  import opened Replies
  import opened ZoneData
  import opened Served
  import D = Decoder

  datatype Ds = Ds(keyTag: u16, algorithm: byte, digestType: byte, digest: Bytes)

  /** DS and CDS RDATA (section 5.1 of RFC 4034). */
  function ParseDs(rdata: Bytes): Option<Ds> {
    if |rdata| < 4 then None else Some(Ds(U16At(rdata, 0), rdata[2], rdata[3], rdata[4..]))
  }

  lemma DsReads(key: DnssecKey, zone: Bytes)
    ensures ParseDs(DsRdata(key, zone)) == Some(Ds(key.keyTag, 13, 2, key.sha256(Encode(zone) + key.dnskeyRdata)))
  {
    var digest := key.sha256(Encode(zone) + key.dnskeyRdata);
    assert DsRdata(key, zone)[4..] == digest;
    hide Encode;
  }

  /** A question for the apex in the zone's own labels. */
  ghost predicate AsksApex(query: Bytes, name: Labels, config: Config) {
    StandardQuery(query, name) && AtApex(name, config) && SameName(name, TextLabels(config.glueName))
  }

  lemma ApexRouted(query: Bytes, name: Labels, config: Config)
    requires AsksApex(query, name, config) && ValidConfig(config)
    ensures WellFormed(query, name) && QueryRoute(name, config) == Apex
    ensures LowerLabels(name) == LowerLabels(TextLabels(config.glueName))
    ensures |query| >= 12 + |Wire(name)| + 4 && QuestionSectionEnd(query).Some? && ParseQtypeQclass(query).Some?
    ensures QueryType(query) == AskedType(query, name)
  {
    hide StandardQuery, WellFormed, TextLabels, ReadAs, SameText, QueryRoute, QuestionSectionEnd, ParseQtypeQclass, Wire, AskedType, QueryType,
      IsVersionName, IsDmarcName, ValidConfig;
    StandardIsWellFormed(query, name);
    WellAsked(query, name);
    ServerNames(config);
    SameNameLower(name, TextLabels(config.glueName));
    var read, zone := ReadAs(name), TextLabels(config.glueName);
    assert read[|read| - |zone|..] == read;
    RouteServed(name, config);
  }

  lemma ApexKeySections(query: Bytes, qname: Labels, config: Config, now: u32)
    requires QuestionSectionEnd(query).Some? && ParseQtypeQclass(query).Some?
    requires QueryRoute(qname, config) == Apex && config.dnssec.Some?
    ensures ReplySections(query, qname, config, now).Some?
    ensures var key, answers := config.dnssec.value, ReplySections(query, qname, config, now).value.answers;
            && (QueryType(query) == TYPE_DNSKEY ==> answers == [DnskeyRr(key)])
            && (QueryType(query) == TYPE_CDS ==> answers == [CdsRr(key, config.glueName)])
            && (QueryType(query) == TYPE_CDNSKEY ==> answers == [CdnskeyRr(key)])
  {
    hide QueryRoute, QuestionSectionEnd, ParseQtypeQclass, DsRdata, Glue, NodataSections, QueryDnssecOk;
  }

  /** The one record that answers a question for the zone's keys. */
  lemma KeyAnswer(query: Bytes, name: Labels, config: Config, now: u32)
    requires AsksApex(query, name, config) && ValidConfig(config) && config.dnssec.Some? && |query| >= 12 + |Wire(name)| + 4
    ensures var key := config.dnssec.value;
            && (AskedType(query, name) == 48 ==> PlainAnswers(query, config, now) == Some([D.Record(name, 48, 1, 3600, key.dnskeyRdata)]))
            && (AskedType(query, name) == 60 ==> PlainAnswers(query, config, now) == Some([D.Record(name, 60, 1, 3600, key.dnskeyRdata)]))
            && (AskedType(query, name) == 59 ==>
                  PlainAnswers(query, config, now) == Some([D.Record(name, 59, 1, 3600, DsRdata(key, config.glueName))]))
  {
    hide WellFormed, AsksApex, ValidConfig, PlainAnswers, QueryRoute, ReplySections, QuestionSectionEnd, ParseQtypeQclass, DsRdata, AskedType,
      QueryType, Wire;
    ApexRouted(query, name, config);
    ApexKeySections(query, name, config, now);
    if AskedType(query, name) in {48, 59, 60} {
      AnswersRead(query, name, config, now);
      AskedRecord(name, ReplySections(query, name, config, now).value.answers);
    }
  }

  /** The CDS answer, read next to the DNSKEY answer, is the delegation signer of section 5.1.4 of
      RFC 4034 for that key: its tag, its algorithm, SHA-256 of owner and key. */
  lemma CdsMatchesDnskey(forCds: Bytes, forKey: Bytes, name: Labels, config: Config, now: u32, later: u32)
    requires AsksApex(forCds, name, config) && AskedType(forCds, name) == 59
    requires AsksApex(forKey, name, config) && AskedType(forKey, name) == 48
    requires ValidConfig(config) && config.dnssec.Some?
    ensures PlainAnswers(forCds, config, now).Some? && |PlainAnswers(forCds, config, now).value| == 1
    ensures PlainAnswers(forKey, config, later).Some? && |PlainAnswers(forKey, config, later).value| == 1
    ensures var cds, key := PlainAnswers(forCds, config, now).value[0], PlainAnswers(forKey, config, later).value[0];
            ParseDs(cds.rdata)
            == Some(Ds(ValidatorTag(key.rdata), 13, 2, config.dnssec.value.sha256(Wire(LowerLabels(key.name)) + key.rdata)))
  {
    hide PlainAnswers, DsRdata, KeyTagOf, ValidatorTag, WellFormed, QueryRoute, ParseDs, LowerLabels, TextLabels, DistinctNames, ValidName, Wire,
      AsksApex, AskedType;
    ApexRouted(forCds, name, config);
    ApexRouted(forKey, name, config);
    KeyAnswer(forCds, name, config, now);
    KeyAnswer(forKey, name, config, later);
    DsReads(config.dnssec.value, config.glueName);
    TagsAgree(config.dnssec.value.dnskeyRdata);
  }

  /** A validator that trusts the published key accepts every signature of every in-zone reply. */
  lemma PublishedKeyValidates(forKey: Bytes, apex: Labels, query: Bytes, name: Labels, config: Config, now: u32, later: u32,
                              verify: (Bytes, Bytes) -> bool, t: u32)
    requires AsksApex(forKey, apex, config) && AskedType(forKey, apex) == 48
    requires WellFormed(query, name) && QueryDnssecOk(query) && ValidConfig(config) && NoStars(config) && config.dnssec.Some?
    requires HasLabelSuffix(name, TextLabels(config.glueName)) && !LeadingStar(name)
    requires (forall m :: verify(m, config.dnssec.value.sign(m))) && later - 3600 <= t <= later + 604800
    ensures PlainAnswers(forKey, config, now).Some? && |PlainAnswers(forKey, config, now).value| == 1
    ensures D.Decode(Reply(query, config, later)).Some?
    ensures var anchor := Anchor(TextLabels(config.glueName), PlainAnswers(forKey, config, now).value[0].rdata, verify);
            var m := D.Decode(Reply(query, config, later)).value;
            SignaturesGood(m.answers, anchor, t) && SignaturesGood(m.authority, anchor, t) && SignaturesGood(m.additional, anchor, t)
  {
    hide PlainAnswers, WellFormed, QueryRoute, LowerLabels, TextLabels, D.Decode, Reply, NoStars, HasLabelSuffix, LeadingStar, KeyTagOf,
      ValidatorTag, SignaturesGood, QueryDnssecOk, ValidConfig, AsksApex, AskedType, SignsFor;
    ApexRouted(forKey, apex, config);
    KeyAnswer(forKey, apex, config, now);
    var anchor := Anchor(TextLabels(config.glueName), config.dnssec.value.dnskeyRdata, verify);
    KeySigns(query, config, later, anchor);
    InZoneRepliesAuthentic(query, name, config, later, anchor, t);
  }

  lemma KeySigns(query: Bytes, config: Config, now: u32, anchor: Anchor)
    requires ValidConfig(config) && config.dnssec.Some? && QueryDnssecOk(query)
    requires anchor.zone == TextLabels(config.glueName) && anchor.dnskey == config.dnssec.value.dnskeyRdata
    requires forall m :: anchor.verify(m, config.dnssec.value.sign(m))
    ensures SignsFor(ReplyParams(query, config, now), anchor)
  {
    hide QueryDnssecOk, TextLabels, ValidName, DistinctNames, KeyTagOf;
  }
}
