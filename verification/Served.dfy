/**
 Every reply, as read off the wire, against the zone as configured: header and question, answers,
 authority and additional records.
 */
module Served {
  import opened Octets
  import opened Names
  import opened Letters
  import opened Zone
  import opened QueryReader
  import opened TypeBitmap
  import opened Dnssec
  import opened Message
  import opened Responses
  import opened Query
  import opened Ip = IpParser
  import opened RoundTrip
  import opened Emission
  import opened Answers
  import opened Replies
  import opened Contents
  import opened Denial
  import opened Truncation
  import opened ZoneData
  import D = Decoder

  // ----- one answer ------------------------------------------------------------

  lemma OneElement<T>(s: seq<T>, x: T)
    requires multiset(s) == multiset([x])
    ensures s == [x]
  {
    assert |s| == |multiset(s)| == |multiset([x])| == 1;
    assert s[0] in multiset(s);
  }

  /** The records of a reply's answer section but for signatures, as read off the wire. */
  function PlainAnswers(query: Bytes, config: Config, now: u32): Option<seq<D.Record>> {
    var m := D.Decode(Reply(query, config, now));
    if m.None? then None else Some(Unsigned(m.value.answers))
  }

  lemma AnswersRead(query: Bytes, qname: Labels, config: Config, now: u32)
    requires WellFormed(query, qname) && ValidConfig(config) && ReplySections(query, qname, config, now).Some?
    requires |ReplySections(query, qname, config, now).value.answers| <= 1
    ensures PlainAnswers(query, config, now) == Some(ToRecords(qname, ReplySections(query, qname, config, now).value.answers))
  {
    hide WellFormed, ValidConfig, ReplySections, D.Decode, Reply, Unsigned, ToRecord, ReadReply, RunsInOrder, QuestionSectionEnd;
    WellAsked(query, qname);
    ReplyDecodes(query, qname, config, now);
    var records := ToRecords(qname, ReplySections(query, qname, config, now).value.answers);
    var answers := D.Decode(Reply(query, config, now)).value.answers;
    if records == [] {
      assert |Unsigned(answers)| == |multiset(Unsigned(answers))| == 0;
    } else {
      assert records == [records[0]];
      OneElement(Unsigned(answers), records[0]);
    }
  }

  lemma AskedRecord(qname: Labels, rrs: seq<Rr>)
    requires |rrs| <= 1 && forall rr | rr in rrs :: rr.owner == Question
    ensures ToRecords(qname, rrs)
         == if rrs == [] then [] else [D.Record(qname, rrs[0].typ, CLASS_IN, rrs[0].ttl, rrs[0].rdata)]
  {
    if rrs != [] {
      assert rrs[0] in rrs;
    }
  }

  lemma WellAsked(query: Bytes, qname: Labels)
    requires WellFormed(query, qname)
    ensures qname != [] && QuestionSectionEnd(query).Some? && ParseQtypeQclass(query).Some?
  {
    hide QuestionSectionEnd, Asks, ValidName;
    AskedLabels(query, qname);
  }

  // ----- what a question asks --------------------------------------------------

  /** QTYPE and QCLASS stand behind QNAME (section 4.1.2 of RFC 1035). */
  function AskedType(query: Bytes, name: Labels): u16
    requires |query| >= 12 + |Wire(name)| + 4
  {
    U16At(query, 12 + |Wire(name)|)
  }

  function AskedClass(query: Bytes, name: Labels): u16
    requires |query| >= 12 + |Wire(name)| + 4
  {
    U16At(query, 14 + |Wire(name)|)
  }

  /** A standard query of class IN for one legal name. */
  ghost predicate StandardQuery(query: Bytes, name: Labels) {
    && Asks(query, name) && ValidName(name)
    && D.DecodeHeader(query).opcode == 0 && AskedClass(query, name) == 1
  }

  lemma StandardIsWellFormed(query: Bytes, name: Labels)
    requires StandardQuery(query, name)
    ensures WellFormed(query, name) && |query| >= 12 + |Wire(name)| + 4 && QueryType(query) == AskedType(query, name)
    ensures name != []
  {
    hide Wire, QuestionSectionEnd, U16At;
    QuestionEndAt(query, name);
    AskedLabels(query, name);
  }

  /** The reply to such a query, and the sections behind it. */
  lemma SectionsServed(query: Bytes, name: Labels, config: Config, now: u32)
    requires StandardQuery(query, name) && ValidConfig(config) && InZone(name, config)
    ensures WellFormed(query, name) && |query| >= 12 + |Wire(name)| + 4 && QuestionSectionEnd(query).Some?
    ensures ParseQtypeQclass(query).Some? && QueryType(query) == AskedType(query, name)
    ensures var route, params := ServedRoute(name, config), ReplyParams(query, config, now);
            && !route.Outside? && (route.Version? ==> route.inZone) && config.nsNames != [] && params.nsNames == config.nsNames
            && ReplySections(query, name, config, now).Some? && QueryRoute(name, config) == route
            && ReplySections(query, name, config, now) == Answer(query, route, QueryType(query), config, params)
  {
    hide StandardQuery, WellFormed, IsInZone, InZone, TextLabels, Join, ValidName, DistinctNames, ValidKey, QuestionSectionEnd, Answer,
      IsVersionName, IsDmarcName, IsApex, IsServer, AddressesOf, QueryDnssecOk;
    StandardIsWellFormed(query, name);
    WellAsked(query, name);
    ZoneServed(name, config);
    RouteServed(name, config);
    InZoneAnswered(query, name, config, now);
  }

  // ----- answers ---------------------------------------------------------------

  function TypesOf(rs: seq<D.Record>): set<u16> { set r | r in rs :: r.typ }

  /** NSEC RDATA that says which records the name owns, and that the next name is its successor. */
  ghost predicate SaysOwned(rdata: Bytes, name: Labels, config: Config) {
    ParseNsec(rdata)
    == if |Wire(name)| > 253 then None
       else Some(([[0]] + LowerLabels(name), TypesOf(Owned(name, config)) + {46, 47}))
  }

  lemma OnlyTypeIn(rs: seq<D.Record>, t: u16)
    requires OnlyType(rs, t) != []
    ensures exists r :: r in rs && r.typ == t
  {
    if rs[0].typ == t {
      assert rs[0] in rs;
    } else {
      OnlyTypeIn(rs[1..], t);
    }
  }

  /** The types on the list for the bitmap are the types of the records that the name owns. */
  lemma TypesServed(query: Bytes, name: Labels, config: Config, doBit: bool, now: u32)
    requires QuestionSectionEnd(query).Some? && config.nsNames != []
    requires var route := ServedRoute(name, config); !route.Outside? && (route.Version? ==> route.inZone)
    ensures TypeSet(ExistingTypes(ServedRoute(name, config), Params(config, doBit, now))) == TypesOf(Owned(name, config))
  {
    hide ToRecord, QuestionSectionEnd, ServedRoute, Owned, OnlyType, ExistingTypes, Answer;
    var route, params := ServedRoute(name, config), Params(config, doBit, now);
    OwnedIsAny(query, name, config, doBit, now);
    var all := Answer(query, route, TYPE_ANY, config, params).value.answers;
    AnyHoldsExisting(query, route, config, params);
    forall r | r in Owned(name, config) ensures r.typ in ExistingTypes(route, params) {
      var i :| 0 <= i < |all| && ToRecords(name, all)[i] == r;
      SameType(name, all[i]);
      assert all[i] in all;
    }
    TypesAreOrdinary(route, params);
    forall t | t in ExistingTypes(route, params) ensures exists r :: r in Owned(name, config) && r.typ == t {
      AnswersNonempty(query, route, t, config, params);
      OwnedIsAnswer(query, name, t, config, doBit, now);
      OnlyTypeIn(Owned(name, config), t);
    }
  }

  lemma SameType(name: Labels, rr: Rr)
    ensures ToRecord(name, rr).typ == rr.typ
  {
  }

  lemma NsecSays(query: Bytes, name: Labels, config: Config, existing: seq<u16>, params: ZoneParams)
    requires AsksName(query, name) && TypeSet(existing) == TypesOf(Owned(name, config))
    ensures SaysOwned(NsecRr(query, existing, params).rdata, name, config)
  {
    hide AsksName, NsecRr, Owned, ParseNsec, TypeSet, Wire, LowerLabels, QuestionSectionEnd;
    NsecReads(query, existing, params, name);
    assert TypeSet(existing) + {TYPE_NSEC, TYPE_RRSIG} == TypesOf(Owned(name, config)) + {46, 47};
  }

  lemma NsecFields(query: Bytes, name: Labels, existing: seq<u16>, params: ZoneParams)
    requires QuestionSectionEnd(query).Some?
    ensures var nsec := NsecRr(query, existing, params);
            ToRecord(name, nsec) == D.Record(name, 47, 1, params.minimum, nsec.rdata)
  {
    hide NsecRdata, NsecTypes, QnameWire, QuestionSectionEnd;
  }

  lemma NsecServed(query: Bytes, name: Labels, config: Config, now: u32)
    requires StandardQuery(query, name) && ValidConfig(config) && InZone(name, config)
    requires QuestionSectionEnd(query).Some?
    ensures var params := ReplyParams(query, config, now);
            var nsec := ToRecord(name, NsecRr(query, ExistingTypes(ServedRoute(name, config), params), params));
            SaysOwned(nsec.rdata, name, config) && nsec == D.Record(name, 47, 1, config.minimum, nsec.rdata)
  {
    hide StandardQuery, ValidConfig, InZone, ExistingTypes, ServedRoute, Owned, QuestionSectionEnd, NsecRr, SaysOwned, AsksName,
      TypeSet, QueryDnssecOk, Reply, Answer, ReplySections, ToRecord, QueryRoute, QueryType, ParseQtypeQclass, Opcode, AskedType;
    SectionsServed(query, name, config, now);
    var params := ReplyParams(query, config, now);
    var existing := ExistingTypes(ServedRoute(name, config), params);
    TypesServed(query, name, config, QueryDnssecOk(query), now);
    NsecSays(query, name, config, existing, params);
    NsecFields(query, name, existing, params);
  }

  lemma ApexNsec(query: Bytes, config: Config, params: ZoneParams)
    requires QuestionSectionEnd(query).Some? && params.dnssec.Some?
    ensures Answer(query, Apex, TYPE_NSEC, config, params).Some?
    ensures Answer(query, Apex, TYPE_NSEC, config, params).value.answers == [NsecRr(query, ExistingTypes(Apex, params), params)]
  {
    hide QuestionSectionEnd, NsecRr, Glue, NsSet;
  }

  lemma ApexWhen(name: Labels, config: Config)
    requires InZone(name, config)
    ensures ServedRoute(name, config).Apex? <==> AtApex(name, config)
  {
    hide IsVersionName, IsDmarcName, IsApex, IsServer, InZone, AddressesOf;
  }

  /** A reply answers with exactly those records that the configuration gives the name: all of them
      to ANY, at the apex a record that lists their types to NSEC, else those of the type asked for. */
  lemma ServedAnswers(query: Bytes, name: Labels, config: Config, now: u32)
    requires StandardQuery(query, name) && ValidConfig(config) && InZone(name, config)
    ensures var t, answers := AskedType(query, name), PlainAnswers(query, config, now);
            && answers.Some?
            && (t == 255 ==> multiset(answers.value) == multiset(Owned(name, config)))
            && (t == 47 && AtApex(name, config) && config.dnssec.Some? ==>
                  exists rdata :: SaysOwned(rdata, name, config) && answers.value == [D.Record(name, 47, 1, config.minimum, rdata)])
            && (t != 255 && !(t == 47 && AtApex(name, config) && config.dnssec.Some?) ==>
                  multiset(answers.value) == multiset(OnlyType(Owned(name, config), t)))
  {
    hide StandardQuery, ValidConfig, InZone, ExistingTypes, ServedRoute, Owned, OnlyType, QuestionSectionEnd, WellFormed, Reply, Answer,
      ReplySections, ReadReply, D.Decode, ToRecords, ToRecord, QueryDnssecOk, RunsInOrder, Unsigned, SaysOwned, NsecRr, AtApex, QueryRoute,
      AskedType, OptRecords;
    SectionsServed(query, name, config, now);
    ReplyDecodes(query, name, config, now);
    ApexWhen(name, config);
    var t, doBit, params := AskedType(query, name), QueryDnssecOk(query), ReplyParams(query, config, now);
    var sections := ReplySections(query, name, config, now).value;
    if t == TYPE_ANY {
      OwnedIsAny(query, name, config, doBit, now);
    } else if t == TYPE_NSEC && AtApex(name, config) && config.dnssec.Some? {
      ApexNsec(query, config, params);
      NsecServed(query, name, config, now);
      OneAnswer(query, name, config, now);
    } else {
      OwnedIsAnswer(query, name, t, config, doBit, now);
    }
  }

  lemma OneAnswer(query: Bytes, name: Labels, config: Config, now: u32)
    requires WellFormed(query, name) && ValidConfig(config) && ReplySections(query, name, config, now).Some?
    requires |ReplySections(query, name, config, now).value.answers| == 1
    ensures PlainAnswers(query, config, now) == Some([ToRecord(name, ReplySections(query, name, config, now).value.answers[0])])
  {
    hide WellFormed, ValidConfig, ReplySections, PlainAnswers, ToRecord;
    WellAsked(query, name);
    AnswersRead(query, name, config, now);
    var answers := ReplySections(query, name, config, now).value.answers;
    assert ToRecords(name, answers) == [ToRecord(name, answers[0])];
  }

  // ----- authority -------------------------------------------------------------

  /** Which records stand beside an answer: the name servers beside the SOA of the apex. */
  lemma BesideAnswers(query: Bytes, route: Route, qtype: u16, config: Config, params: ZoneParams)
    requires QuestionSectionEnd(query).Some? && Answered(route, qtype, params)
    requires !route.Outside? && (route.Version? ==> route.inZone)
    ensures Answer(query, route, qtype, config, params).Some?
    ensures Answer(query, route, qtype, config, params).value.authority
         == if route.Apex? && qtype == 6 then NsSet(params.nsNames) else []
  {
    hide QuestionSectionEnd, NsSet, Glue, SoaRr, NsecRr, TxtRr, DnskeyRr, CdsRr, CdnskeyRr, VersionText, AnyAnswers;
  }

  /** The records of a reply's authority section but for signatures, as read off the wire. */
  function PlainAuthority(query: Bytes, config: Config, now: u32): Option<seq<D.Record>> {
    var m := D.Decode(Reply(query, config, now));
    if m.None? then None else Some(Unsigned(m.value.authority))
  }

  /** Asking for a type that a name has, or for all of them where there are some. */
  predicate Has(name: Labels, t: u16, config: Config) {
    || t in TypesOf(Owned(name, config))
    || (t == 255 && Owned(name, config) != [])
    || (t == 47 && AtApex(name, config) && config.dnssec.Some?)
  }

  lemma HasWhen(query: Bytes, name: Labels, config: Config, now: u32)
    requires StandardQuery(query, name) && ValidConfig(config) && InZone(name, config) && |query| >= 12 + |Wire(name)| + 4
    ensures Has(name, AskedType(query, name), config)
       <==> Answered(ServedRoute(name, config), AskedType(query, name), ReplyParams(query, config, now))
  {
    hide StandardQuery, ValidConfig, InZone, ExistingTypes, ServedRoute, Owned, QuestionSectionEnd, QueryDnssecOk, AtApex, Reply, Answer,
      ReplySections, QueryRoute, AskedType;
    SectionsServed(query, name, config, now);
    TypesServed(query, name, config, QueryDnssecOk(query), now);
    ApexWhen(name, config);
    var owned := Owned(name, config);
    if owned != [] {
      assert owned[0].typ in TypesOf(owned);
    }
    assert TypeSet(ExistingTypes(ServedRoute(name, config), ReplyParams(query, config, now))) == TypesOf(owned);
    SameEmptiness(ExistingTypes(ServedRoute(name, config), ReplyParams(query, config, now)), owned);
  }

  lemma SameEmptiness(types: seq<u16>, rs: seq<D.Record>)
    requires TypeSet(types) == TypesOf(rs)
    ensures types == [] <==> rs == []
    ensures forall t :: t in types <==> t in TypesOf(rs)
  {
    assert forall t :: t in types <==> t in TypeSet(types);
    if rs != [] {
      assert rs[0].typ in TypesOf(rs);
    }
    if types != [] {
      assert types[0] in TypesOf(rs);
    }
  }

  lemma DenialServed(query: Bytes, name: Labels, config: Config, doBit: bool, now: u32)
    requires QuestionSectionEnd(query).Some?
    ensures var params, existing := Params(config, doBit, now), ExistingTypes(ServedRoute(name, config), Params(config, doBit, now));
            ToRecords(name, NodataSections(query, existing, params).authority)
            == [SoaRecord(LowerLabels(TextLabels(config.glueName)), config)]
               + (if config.dnssec.Some? && doBit then [ToRecord(name, NsecRr(query, existing, params))] else [])
  {
    hide QuestionSectionEnd, NsecRr, SoaRr, SoaRecord, ToRecord, ServedRoute, ExistingTypes;
    SoaServed(name, config, doBit, now);
  }

  /** Beside an answer stand the name servers, for the SOA of the apex, or nothing.  Where there is
      no answer stands the SOA of the zone and, in a signed reply, a record that lists the types
      the name has. */
  lemma ServedAuthority(query: Bytes, name: Labels, config: Config, now: u32)
    requires StandardQuery(query, name) && ValidConfig(config) && InZone(name, config)
    ensures var t, authority := AskedType(query, name), PlainAuthority(query, config, now);
            var soa := SoaRecord(LowerLabels(TextLabels(config.glueName)), config);
            && authority.Some?
            && (Has(name, t, config) ==>
                  multiset(authority.value) == multiset(if t == 6 && AtApex(name, config) then ServerRecords(name, config) else []))
            && (!Has(name, t, config) && !(config.dnssec.Some? && QueryDnssecOk(query)) ==> authority.value == [soa])
            && (!Has(name, t, config) && config.dnssec.Some? && QueryDnssecOk(query) ==>
                  exists rdata :: SaysOwned(rdata, name, config)
                                  && multiset(authority.value) == multiset([soa, D.Record(name, 47, 1, config.minimum, rdata)]))
  {
    hide StandardQuery, ValidConfig, InZone, ExistingTypes, ServedRoute, Owned, QuestionSectionEnd, WellFormed, Reply, Answer, Answered,
      ReplySections, ReadReply, D.Decode, ToRecords, ToRecord, QueryDnssecOk, RunsInOrder, Unsigned, SaysOwned, NsecRr, AtApex, QueryRoute,
      AskedType, OptRecords, SoaRecord, ServerRecords, NodataSections, NsSet, Has;
    SectionsServed(query, name, config, now);
    ReplyDecodes(query, name, config, now);
    ApexWhen(name, config);
    HasWhen(query, name, config, now);
    var t, doBit, params := AskedType(query, name), QueryDnssecOk(query), ReplyParams(query, config, now);
    var route := ServedRoute(name, config);
    if Has(name, t, config) {
      BesideAnswers(query, route, t, config, params);
      ServersServed(name, config);
      NoneServed(name);
    } else {
      AnswersNonempty(query, route, t, config, params);
      DenialServed(query, name, config, doBit, now);
      var authority := PlainAuthority(query, config, now).value;
      var soa := SoaRecord(LowerLabels(TextLabels(config.glueName)), config);
      if config.dnssec.Some? && doBit {
        NsecServed(query, name, config, now);
      } else {
        assert [soa] + [] == [soa];
        OneElement(authority, soa);
      }
    }
  }

  // ----- additional records ----------------------------------------------------

  /** The addresses of those name servers that lie in the zone. */
  function GlueRecords(names: seq<Bytes>, config: Config): seq<D.Record> {
    if names == [] then []
    else
      var last := TextLabels(names[|names| - 1]);
      GlueRecords(names[..|names| - 1], config)
      + if Below(last, TextLabels(config.glueName)) then AddressRecords(LowerLabels(last), Some(config.glueIp), config.glueIp6) else []
  }

  lemma ServerInZone(server: Bytes, config: Config)
    requires ValidLabels(TextLabels(server)) && TextLabels(config.glueName) != []
    ensures NameInBailiwick(server, config.glueName) <==> Below(TextLabels(server), TextLabels(config.glueName))
  {
    hide NameInBailiwick, IsInZone, TextLabels, SameName, LowerLabels;
    var labels, zone := TextLabels(server), TextLabels(config.glueName);
    BailiwickIsZoneMembership(server, config.glueName);
    InZoneIsLabelSuffix(server, config.glueName);
    if |zone| <= |labels| {
      SameNameLower(labels[|labels| - |zone|..], zone);
      if labels != [] {
        assert labels[0] in labels;
      }
    }
  }

  lemma GlueOfOne(name: Labels, server: Bytes, config: Config, doBit: bool, now: u32)
    requires ValidLabels(TextLabels(server)) && TextLabels(config.glueName) != []
    ensures ToRecords(name, GlueFor(server, Params(config, doBit, now)))
         == if Below(TextLabels(server), TextLabels(config.glueName))
            then AddressRecords(LowerLabels(TextLabels(server)), Some(config.glueIp), config.glueIp6) else []
  {
    hide NameInBailiwick, Below, TextLabels, LowerLabels;
    ServerInZone(server, config);
  }

  lemma {:induction false} GlueServed(name: Labels, servers: seq<Bytes>, config: Config, doBit: bool, now: u32)
    requires (forall n | n in servers :: ValidLabels(TextLabels(n))) && TextLabels(config.glueName) != []
    ensures ToRecords(name, Glue(servers, Params(config, doBit, now))) == GlueRecords(servers, config)
  {
    hide Below, TextLabels, LowerLabels, ToRecords, GlueFor, Params;
    NoneServed(name);
    if servers != [] {
      var init, last := servers[..|servers| - 1], servers[|servers| - 1];
      assert last in servers && forall n | n in init :: n in servers;
      GlueServed(name, init, config, doBit, now);
      GlueOfOne(name, last, config, doBit, now);
      ToRecordsConcat(name, Glue(init, Params(config, doBit, now)), GlueFor(last, Params(config, doBit, now)));
    }
  }

  lemma BesideApex(query: Bytes, route: Route, qtype: u16, config: Config, params: ZoneParams)
    requires QuestionSectionEnd(query).Some? && Answer(query, route, qtype, config, params).Some?
    ensures Answer(query, route, qtype, config, params).value.additional
         == if route.Apex? && qtype in {2, 6, 255} then Glue(params.nsNames, params) else []
  {
    hide QuestionSectionEnd, NsSet, Glue, SoaRr, NsecRr, TxtRr, DnskeyRr, CdsRr, CdnskeyRr, VersionText, AnyAnswers;
  }

  /** The records of a reply's additional section but for signatures, as read off the wire. */
  function PlainAdditional(query: Bytes, config: Config, now: u32): Option<seq<D.Record>> {
    var m := D.Decode(Reply(query, config, now));
    if m.None? then None else Some(Unsigned(m.value.additional))
  }

  /** The server's OPT record (section 6.1.2 of RFC 6891): size 1232, DO set in signed replies. */
  function ServerOpt(signed: bool): D.Record { D.Record([], 41, 1232, if signed then 32768 else 0, []) }

  lemma ServerNames(config: Config)
    requires ValidConfig(config)
    ensures TextLabels(config.glueName) != [] && forall n | n in config.nsNames :: ValidLabels(TextLabels(n))
  {
    hide TextLabels, ValidLabels, DistinctNames, ValidKey, Wire;
    forall n | n in config.nsNames ensures ValidLabels(TextLabels(n)) {
      assert ValidName(TextLabels(n));
    }
  }

  lemma OptServed(query: Bytes, config: Config, now: u32)
    ensures OptRecords(query, ReplyParams(query, config, now).Sign())
         == if QueryHasOpt(query) then [ServerOpt(config.dnssec.Some? && QueryDnssecOk(query))] else []
  {
    hide QueryHasOpt, QueryDnssecOk;
  }

  /** Beside the name servers, the SOA and all records of the apex stand the addresses of the name
      servers in the zone; beside anything stands an OPT record if the server sees one in the query. */
  lemma ServedAdditional(query: Bytes, name: Labels, config: Config, now: u32)
    requires StandardQuery(query, name) && ValidConfig(config) && InZone(name, config)
    ensures var t, additional := AskedType(query, name), PlainAdditional(query, config, now);
            && additional.Some?
            && multiset(additional.value)
               == multiset((if AtApex(name, config) && t in {2, 6, 255} then GlueRecords(config.nsNames, config) else [])
                           + (if QueryHasOpt(query) then [ServerOpt(config.dnssec.Some? && QueryDnssecOk(query))] else []))
  {
    hide StandardQuery, ValidConfig, InZone, ServedRoute, QuestionSectionEnd, WellFormed, Reply, Answer, ReplySections, ReadReply, D.Decode,
      ToRecords, QueryDnssecOk, RunsInOrder, Unsigned, AtApex, QueryRoute, AskedType, OptRecords, Glue, GlueRecords, QueryHasOpt, ServerOpt;
    SectionsServed(query, name, config, now);
    ReplyDecodes(query, name, config, now);
    ApexWhen(name, config);
    var params := ReplyParams(query, config, now);
    BesideApex(query, ServedRoute(name, config), AskedType(query, name), config, params);
    ServerNames(config);
    GlueServed(name, config.nsNames, config, QueryDnssecOk(query), now);
    NoneServed(name);
    OptServed(query, config, now);
  }

  // ----- header and refusals ---------------------------------------------------

  /** RCODE: not implemented, refused, or no error. */
  function ServedCode(query: Bytes, name: Labels, config: Config): nat
    requires |query| >= 12 + |Wire(name)| + 4
  {
    if D.DecodeHeader(query).opcode != 0 then 4
    else if AskedClass(query, name) != 1 then 5
    else if InZone(name, config) then 0
    else if IsVersionName(name) && AskedType(query, name) in {16, 255} then 0
    else 5
  }

  /** The header of a reply: identity, OPCODE and RD of the query, QR set, AA iff it is answered. */
  function ServedHeader(h: D.Header, code: nat): D.Header { D.Header(h.id, true, h.opcode, code == 0, false, h.rd, false, 0, code) }

  lemma HeaderIs(query: Bytes, code: byte)
    requires |query| >= 12
    ensures ExpectedHeader(query, code == 0, code) == ServedHeader(D.DecodeHeader(query), code)
    ensures Opcode(query) == D.DecodeHeader(query).opcode
  {
  }

  lemma QuestionIs(query: Bytes, name: Labels)
    requires Asks(query, name) && QuestionSectionEnd(query) == Some(12 + |Wire(name)| + 4)
    ensures ParseQtypeQclass(query) == Some((AskedType(query, name), AskedClass(query, name)))
    ensures AskedQuestion(query, name) == D.Question(name, AskedType(query, name), AskedClass(query, name))
  {
    hide Wire, QuestionSectionEnd;
  }

  lemma RefusalOctets(query: Bytes, name: Labels, config: Config, now: u32)
    requires Asks(query, name) && ParseQtypeQclass(query).Some? && ParsedDomain(query).Some?
    ensures Opcode(query) != 0 ==> Reply(query, config, now) == ErrorReply(query, 4)
    ensures Opcode(query) == 0 && ParseQtypeQclass(query).value.1 != 1 ==> Reply(query, config, now) == ErrorReply(query, 5)
  {
    hide ParsedDomain, ParseQtypeQclass, Opcode, Routed, ErrorReply;
  }

  lemma RefusedWhen(query: Bytes, name: Labels, config: Config, now: u32)
    requires StandardQuery(query, name) && ValidConfig(config) && |query| >= 12 + |Wire(name)| + 4
    requires QuestionSectionEnd(query).Some? && ParseQtypeQclass(query).Some?
    ensures ReplySections(query, name, config, now).None? <==> ServedCode(query, name, config) == 5
    ensures ServedCode(query, name, config) in {0, 5}
  {
    hide InZone, TextLabels, Join, ValidName, DistinctNames, ValidKey, QuestionSectionEnd, ParseQtypeQclass, Wire, NodataSections,
      IsVersionName, IsDmarcName, IsApex, IsServer, AddressesOf, QueryDnssecOk, QueryRoute, QueryType, ApexSections, AddressSections,
      WellFormed, VersionText, AskedType, AskedClass;
    StandardIsWellFormed(query, name);
    RouteServed(name, config);
    ServerNames(config);
  }

  /** Every query with one legal question is answered with its identity and its question, and is
      refused, with no records but for OPT, exactly when `ServedCode` says so. */
  lemma ServedReply(query: Bytes, name: Labels, config: Config, now: u32)
    requires Asks(query, name) && ValidName(name) && ValidConfig(config)
    ensures D.Decode(Reply(query, config, now)).Some?
    ensures var m, code := D.Decode(Reply(query, config, now)).value, ServedCode(query, name, config);
            && m.header == ServedHeader(D.DecodeHeader(query), code)
            && m.questions == [D.Question(name, AskedType(query, name), AskedClass(query, name))]
            && (code != 0 ==> m.answers == [] && m.authority == []
                              && m.additional == if QueryHasOpt(query) then [ServerOpt(false)] else [])
  {
    hide Wire, QuestionSectionEnd, ParseQtypeQclass, D.Decode, D.DecodeHeader, Reply, ErrorReply, Opcode, ExpectedHeader, AskedQuestion,
      OptRecords, AskedType, AskedClass, ServedCode, ServedHeader, ParsedDomain, Asks, ValidName, ValidConfig, ReplySections, ReadReply,
      QueryHasOpt, ServerOpt, FullMessage, TextLabels, Encode, Join, LowerWire, QnameWire, LabelsBeforeRoot;
    ReadersAgree(query, name);
    AsksLength(query, name);
    QuestionIs(query, name);
    RefusalOctets(query, name, config, now);
    HeaderIs(query, 0);
    HeaderIs(query, 4);
    HeaderIs(query, 5);
    CodeOf(query, name, config);
    OptPlain(query);
    if D.DecodeHeader(query).opcode != 0 {
      ErrorReplyDecodes(query, name, 4);
    } else if AskedClass(query, name) != 1 {
      ErrorReplyDecodes(query, name, 5);
    } else {
      assert WellFormed(query, name);
      RefusedWhen(query, name, config, now);
      ReplyReads(query, name, config, now);
      FullParts(query, name, config, now);
    }
  }

  lemma AsksLength(query: Bytes, name: Labels)
    requires Asks(query, name)
    ensures |query| >= 12 + |Wire(name)| + 4 && |query| >= 12
  {
  }

  lemma CodeOf(query: Bytes, name: Labels, config: Config)
    requires |query| >= 12 + |Wire(name)| + 4
    ensures D.DecodeHeader(query).opcode != 0 ==> ServedCode(query, name, config) == 4
    ensures D.DecodeHeader(query).opcode == 0 && AskedClass(query, name) != 1 ==> ServedCode(query, name, config) == 5
  {
    hide D.DecodeHeader, AskedClass, InZone, Wire;
  }

  lemma OptPlain(query: Bytes)
    ensures OptRecords(query, false) == if QueryHasOpt(query) then [ServerOpt(false)] else []
  {
    hide QueryHasOpt;
  }

  lemma FullParts(query: Bytes, name: Labels, config: Config, now: u32)
    requires QuestionSectionEnd(query).Some? && ParseQtypeQclass(query).Some?
    ensures var m, answered := FullMessage(query, name, config, now), ReplySections(query, name, config, now).Some?;
            && m.questions == [AskedQuestion(query, name)]
            && m.header == ExpectedHeader(query, answered, if answered then 0 else 5)
            && (!answered ==> m.answers == [] && m.authority == [] && m.additional == OptRecords(query, false))
  {
    hide ReplySections, ExpectedHeader, AskedQuestion, OptRecords, QuestionSectionEnd, ParseQtypeQclass, Emitted, ToRecords, ReplyParams;
  }

  /** Outside the zone, too, the version is told to whoever asks for text or for everything. */
  lemma VersionServedOutside(query: Bytes, name: Labels, config: Config, now: u32)
    requires StandardQuery(query, name) && ValidConfig(config) && !InZone(name, config) && IsVersionName(name)
    requires |query| >= 12 + |Wire(name)| + 4 && AskedType(query, name) in {16, 255}
    ensures PlainAnswers(query, config, now) == Some([TextRecord(name, VersionLine(config))])
  {
    hide StandardQuery, ValidConfig, InZone, IsVersionName, TextLabels, QuestionSectionEnd, WellFormed, PlainAnswers, Wire, TxtRr, TextRecord,
      VersionText, VersionLine, ToRecords, AskedType, IsDmarcName, IsApex, IsServer, AddressesOf, ParseQtypeQclass, QueryType, Join,
      QueryRoute, QueryDnssecOk;
    StandardIsWellFormed(query, name);
    WellAsked(query, name);
    ServerNames(config);
    RouteServed(name, config);
    TextServed(config);
    TextsServed(name, VersionLine(config));
    AnswersRead(query, name, config, now);
  }
}
