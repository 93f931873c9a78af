/**
 The hypotheses of the main results can be met: every legal name can be asked for, every
 in-zone name has a signed denial, and a legal signing configuration exists.  So can the
 exceptions: names whose signatures are refused, and a type whose denial is not the truth.
 */
module Questions {
  import opened Octets
  import opened Names
  import opened Zone
  import opened QueryReader
  import opened Dnssec
  import opened Message
  import opened Responses
  import opened Query
  import opened RoundTrip
  import opened Emission
  import opened Validator
  import opened Answers
  import opened Replies
  import opened Denial
  import opened Letters
  import opened ZoneData
  import opened Served
  import opened Hosts
  import D = Decoder

  function QueryHead(): Bytes { [0, 0, 0, 0, 0, 1, 0, 0, 0, 0, 0, 1] }

  function ClientOpt(dnssecOk: bool): Bytes { [0, 0, 0x29, 0x04, 0xD0, 0, 0, if dnssecOk then 0x80 else 0, 0, 0, 0] }

  /** A client's query in class IN with an OPT record of 1232 octets. */
  function QueryFor(qname: Labels, qtype: u16, dnssecOk: bool): Bytes {
    QueryHead() + Wire(qname) + (U16Bytes(qtype) + U16Bytes(1)) + ClientOpt(dnssecOk)
  }

  lemma QueryParts(qname: Labels, qtype: u16, dnssecOk: bool)
    ensures var q, n := QueryFor(qname, qtype, dnssecOk), 12 + |Wire(qname)|;
            && |q| == n + 15 && U16At(q, 4) == 1 && U16At(q, 10) == 1 && q[2] == 0 && At(q, 12, Wire(qname))
            && U16At(q, n) == qtype && U16At(q, n + 2) == 1 && q[n + 4..] == ClientOpt(dnssecOk)
  {
    hide Wire;
    var q, w := QueryFor(qname, qtype, dnssecOk), Wire(qname);
    var types := U16Bytes(qtype) + U16Bytes(1);
    assert q[12..12 + |w|] == w && q[12 + |w|..12 + |w| + 4] == types;
    AtConcat(q, 12 + |w|, U16Bytes(qtype), U16Bytes(1));
    AtU16(q, 12 + |w|, qtype);
    AtU16(q, 12 + |w| + 2, 1);
  }

  /** Every legal name can be asked for, with every type, with and without the DO bit. */
  lemma EveryNameCanBeAsked(qname: Labels, qtype: u16, dnssecOk: bool)
    requires PlainLabels(qname) && ValidName(qname)
    ensures var q := QueryFor(qname, qtype, dnssecOk);
            WellFormed(q, qname) && QueryType(q) == qtype && QueryHasOpt(q) && QueryDnssecOk(q) == dnssecOk
    ensures var q := QueryFor(qname, qtype, dnssecOk);
            StandardQuery(q, qname) && |q| >= 12 + |Wire(qname)| + 4 && AskedType(q, qname) == qtype
  {
    hide Wire, QueryFor, PlainLabels, ValidName, QuestionSectionEnd, At, U16At;
    var q := QueryFor(qname, qtype, dnssecOk);
    QueryParts(qname, qtype, dnssecOk);
    QuestionEndAt(q, qname);
  }

  /** Every name in a signed zone has a signed denial, to which `NsecTruthful` applies. */
  lemma EveryNameIsDenied(qname: Labels, config: Config, now: u32)
    requires PlainLabels(qname) && ValidName(qname)
    requires ValidConfig(config) && IsInZone(Join(qname, DOT), config.glueName) && config.dnssec.Some?
    ensures var q := QueryFor(qname, 0xFFFF, true);
            && WellFormed(q, qname) && QueryDnssecOk(q) && D.Decode(Reply(q, config, now)).Some?
            && D.Decode(Reply(q, config, now)).value.answers == []
            && exists r :: r in D.Decode(Reply(q, config, now)).value.authority && r.typ == TYPE_NSEC && r.name == qname
  {
    hide QueryFor, PlainLabels, ValidName, WellFormed, ValidConfig, IsInZone, D.Decode, Reply, QueryDnssecOk, ToRecord, NsecRr,
      ReplySections, Params, Emitted, Answer, RouteOf, NodataSections, ReadReply, Unsigned, RunsInOrder, QuestionSectionEnd;
    var q := QueryFor(qname, 0xFFFF, true);
    EveryNameCanBeAsked(qname, 0xFFFF, true);
    InZoneAnswered(q, qname, config, now);
    ReplyDecodes(q, qname, config, now);
    NothingAnswered(q, qname, config, now);
    DenialHoldsNsec(q, qname, config, now);
    NsecIsNsec(q, qname, config, now);
  }

  lemma NsecIsNsec(q: Bytes, qname: Labels, config: Config, now: u32)
    requires QuestionSectionEnd(q).Some?
    ensures var params := ReplyParams(q, config, now);
            var nsec := ToRecord(qname, NsecRr(q, ExistingTypes(QueryRoute(qname, config), params), params));
            nsec.typ == TYPE_NSEC && nsec.name == qname
  {
    hide NsecRdata, QuestionSectionEnd, QueryRoute, ExistingTypes, NsecTypes, QnameWire;
  }

  lemma NothingAnswered(q: Bytes, qname: Labels, config: Config, now: u32)
    requires WellFormed(q, qname) && QueryType(q) == 0xFFFF && ValidConfig(config) && IsInZone(Join(qname, DOT), config.glueName)
    requires ReplySections(q, qname, config, now).Some?
    ensures var sections := ReplySections(q, qname, config, now).value;
            ReadReply(q, qname, sections, ReplyParams(q, config, now)).answers == []
  {
    hide IsInZone, D.Decode, Reply, QueryDnssecOk, RouteOf, NodataSections, Emitted, Asks, ValidName, DistinctNames, ValidKey,
      QuestionSectionEnd, TextLabels;
    var params, route := ReplyParams(q, config, now), QueryRoute(qname, config);
    InZoneAnswered(q, qname, config, now);
    assert params.nsNames != [];
    Unanswerable(route, params);
    hide Answer;
    AnswersNonempty(q, route, 0xFFFF, config, params);
    EmittedNonempty([], q, params);
  }

  lemma Unanswerable(route: Route, params: ZoneParams)
    ensures !Answered(route, 0xFFFF, params)
  {
  }

  // ----- a legal configuration -------------------------------------------------

  function Signature(): Bytes { seq(64, _ => 7) }

  function Digest(): Bytes { seq(32, _ => 9) }

  function DnskeyOf(point: Bytes): Bytes { U16Bytes(DNSKEY_FLAGS_CSK) + [DNSKEY_PROTOCOL, ALG_ECDSAP256SHA256] + point }

  /** A key whose signatures all look alike. */
  function SomeKey(): DnssecKey {
    var rdata := DnskeyOf(Signature());
    DnssecKey(_ => Signature(), _ => Digest(), rdata, KeyTagOf(rdata))
  }

  function SomeIp(): Ipv4 { [192, 0, 2, 1] }

  function NameBelowA(first: byte): Bytes { [first, DOT, 97] }

  /** The zone "a" with the name server "n.a". */
  function SomeConfig(): Config {
    Config([97], SomeIp(), None, NameBelowA(110), [NameBelowA(110)], NameBelowA(104), 1, 2, 3, 4, 5, [], [], [49],
           Some(SomeKey()), _ => None)
  }

  function SomeAnchor(): Anchor { Anchor([[97]], DnskeyOf(Signature()), (m, s) => s == Signature()) }

  lemma ShortNames(x: byte)
    requires x != DOT
    ensures TextLabels([x]) == [[x]] && TextLabels([x, DOT, 97]) == [[x], [97]]
    ensures ValidName([[x]]) && ValidName([[x], [97]])
  {
    var one, two: Labels := [[x]], [[x], [97]];
    JoinedLabels(one);
    JoinedLabels(two);
    assert two[1..] == [[97]];
    assert Join([[97]], DOT) == [97];
    assert [x] + [DOT] + [97] == [x, DOT, 97];
    WireOfOne([x]);
    WireOfOne([97]);
    hide ValidLabels, Split, TrimDots;
    WireUnfold(two);
    assert ValidLabels(one) && ValidLabels(two) by { ShortLabels(x); }
  }

  lemma ShortLabels(x: byte)
    ensures ValidLabels([[x]]) && ValidLabels([[x], [97]])
  {
  }

  lemma SomeKeyIsValid()
    ensures ValidKey(SomeKey()) && SomeKey().dnskeyRdata == DnskeyOf(Signature())
  {
    hide KeyTagOf;
    assert DnskeyOf(Signature())[..4] == U16Bytes(DNSKEY_FLAGS_CSK) + [DNSKEY_PROTOCOL, ALG_ECDSAP256SHA256];
  }

  /** The hypotheses of `InZoneRepliesAuthentic` hold together: a legal signing configuration, a
      validator that trusts its key, and a question for the zone apex. */
  lemma LegalSetupExists(now: u32)
    ensures var config, qname := SomeConfig(), [[97]];
            var q := QueryFor(qname, TYPE_SOA, true);
            && ValidConfig(config) && NoStars(config) && config.dnssec.Some?
            && WellFormed(q, qname) && IsInZone(Join(qname, DOT), config.glueName) && !LeadingStar(qname)
            && SignsFor(ReplyParams(q, config, now), SomeAnchor())
  {
    hide KeyTagOf, ValidKey, TextLabels, ValidName, QueryFor, Signature, DnskeyOf, SomeKey, WellFormed, IsInZone;
    var qname: Labels := [[97]];
    ShortNames(97);
    ShortNames(110);
    ShortNames(104);
    SomeKeyIsValid();
    ApexIsPlain();
    EveryNameCanBeAsked(qname, TYPE_SOA, true);
    assert Join(qname, DOT) == [97];
    InZoneReflexive([97]);
    SomeKeySigns();
  }

  lemma ApexIsPlain()
    ensures PlainLabels([[97]])
  {
    assert ValidUtf8([97][1..]);
  }

  lemma SomeKeySigns()
    ensures forall m :: SomeAnchor().verify(m, SomeKey().sign(m))
  {
    hide KeyTagOf, DnskeyOf;
  }

  /** Names of both kinds can be asked for: the name server "n.a", and "b.a", which is none. */
  lemma HostsExist()
    ensures var server: Labels := [[110], [97]];
            AsksHost(QueryFor(server, 1, false), server, SomeConfig()) && IsServer(server, SomeConfig())
    ensures var other: Labels := [[98], [97]];
            AsksHost(QueryFor(other, 1, false), other, SomeConfig()) && !IsServer(other, SomeConfig())
  {
    BelowZoneA(110);
    BelowZoneA(98);
  }

  lemma BelowZoneA(x: byte)
    requires x in {98, 110}
    ensures var name: Labels := [[x], [97]];
            AsksHost(QueryFor(name, 1, false), name, SomeConfig()) && (IsServer(name, SomeConfig()) <==> x == 110)
  {
    hide QueryFor, SomeKey, StandardQuery, ValidName, PlainLabels, TextLabels, ReadAs;
    var name: Labels := [[x], [97]];
    ShortNames(x);
    ShortNames(97);
    ShortNames(110);
    PlainTwo(x);
    EveryNameCanBeAsked(name, 1, false);
    DotFreeReads(name);
    assert name[1..] == [[97]];
    assert SameText([x], [110]) <==> x == 110;
    assert SameName(name, [[110], [97]]) <==> x == 110 by { TwoLabels(name, [[110], [97]]); }
    assert !SameName(name, [[97]]);
  }

  lemma TwoLabels(a: Labels, b: Labels)
    requires |a| == 2 && |b| == 2
    ensures SameName(a, b) <==> SameText(a[0], b[0]) && SameText(a[1], b[1])
  {
    hide SameText;
  }

  lemma PlainTwo(x: byte)
    requires x in {98, 110}
    ensures PlainLabels([[x], [97]])
  {
    assert ValidUtf8([x][1..]) && ValidUtf8([97][1..]);
  }

  // ----- where the answers fall short ------------------------------------------

  lemma PlainOwner(a: Labels, b: Labels, zone: Labels)
    requires LowerLabels(a) == LowerLabels(b)
    ensures LeadingStar(a) <==> LeadingStar(b)
    ensures HasLabelSuffix(a, zone) <==> HasLabelSuffix(b, zone)
  {
    StarSurvivesCase(a);
    StarSurvivesCase(b);
    assert |LowerLabels(a)| == |a| && |LowerLabels(b)| == |b|;
    if |zone| <= |a| {
      LowerLabelsDrop(a, |a| - |zone|);
      LowerLabelsDrop(b, |b| - |zone|);
    }
  }

  /** Some signature in the section is refused. */
  ghost predicate SomeRefused(section: seq<D.Record>, anchor: Anchor, t: u32) {
    exists s :: s in section && s.typ == TYPE_RRSIG && !Authentic(section, s, anchor, t)
  }

  lemma RefusedWith(section: seq<D.Record>, r: D.Record, anchor: Anchor, now: u32, t: u32)
    requires ValidatesAt(section, anchor, now, t) && r in section && r.typ != TYPE_RRSIG && r.typ != TYPE_OPT
    requires LeadingStar(r.name) || !HasLabelSuffix(r.name, anchor.zone)
    ensures SomeRefused(section, anchor, t)
  {
    hide Authentic, LeadingStar, HasLabelSuffix, LowerLabels, ParseRrsig;
    var s :| s in section && CoveredBy(r, s);
    PlainOwner(s.name, r.name, anchor.zone);
  }

  lemma AnsweredWithAuthority(q: Bytes, qname: Labels, config: Config, now: u32)
    requires WellFormed(q, qname) && ValidConfig(config) && ReplySections(q, qname, config, now).Some?
    ensures D.Decode(Reply(q, config, now)).Some?
    ensures D.Decode(Reply(q, config, now)).value.header.aa && D.Decode(Reply(q, config, now)).value.header.rcode == 0
  {
    hide ValidConfig, D.Decode, Reply, ReadReply, ReplySections, Unsigned, RunsInOrder, Emitted, ToRecord, Asks, ValidName,
      QuestionSectionEnd, QueryDnssecOk;
    ReplyDecodes(q, qname, config, now);
    ReadParts(q, qname, ReplySections(q, qname, config, now).value, ReplyParams(q, config, now));
  }

  /** Every name that lies in the zone by its text, and begins with an asterisk or lies outside by
      its labels on the wire, has an authoritative denial with a signature that a validator
      refuses. */
  lemma DenialRefused(qname: Labels, config: Config, now: u32, anchor: Anchor, t: u32)
    requires PlainLabels(qname) && ValidName(qname) && (LeadingStar(qname) || !HasLabelSuffix(qname, TextLabels(config.glueName)))
    requires ValidConfig(config) && IsInZone(Join(qname, DOT), config.glueName) && config.dnssec.Some?
    requires SignsFor(Params(config, true, now), anchor)
    ensures var q := QueryFor(qname, 0xFFFF, true);
            && WellFormed(q, qname) && D.Decode(Reply(q, config, now)).Some?
            && D.Decode(Reply(q, config, now)).value.header.aa && D.Decode(Reply(q, config, now)).value.header.rcode == 0
            && SomeRefused(D.Decode(Reply(q, config, now)).value.authority, anchor, t)
  {
    hide QueryFor, PlainLabels, ValidName, WellFormed, ValidConfig, IsInZone, D.Decode, Reply, QueryDnssecOk, SomeRefused, ReadReply,
      LeadingStar, ValidatesAt, QuestionSectionEnd, ReplySections, ToRecord, NsecRr, Join, HasLabelSuffix, ValidKey, TextLabels,
      Emitted, Unsigned, RunsInOrder;
    var q := QueryFor(qname, 0xFFFF, true);
    EveryNameIsDenied(qname, config, now);
    InZoneAnswered(q, qname, config, now);
    AnsweredWithAuthority(q, qname, config, now);
    ReplyValidates(q, qname, config, now, anchor, t);
    var authority := D.Decode(Reply(q, config, now)).value.authority;
    var r :| r in authority && r.typ == TYPE_NSEC && r.name == qname;
    RefusedWith(authority, r, anchor, now, t);
  }

  /** Every version answer outside the zone carries a signature that a validator refuses. */
  lemma OutsideVersionRefused(qname: Labels, config: Config, now: u32, anchor: Anchor, t: u32)
    requires PlainLabels(qname) && ValidName(qname) && ValidConfig(config)
    requires IsVersionQuery(Join(qname, DOT)) && !IsInZone(Join(qname, DOT), config.glueName)
    requires SignsFor(Params(config, true, now), anchor)
    ensures var q := QueryFor(qname, TYPE_TXT, true);
            && WellFormed(q, qname) && D.Decode(Reply(q, config, now)).Some?
            && SomeRefused(D.Decode(Reply(q, config, now)).value.answers, anchor, t)
  {
    hide QueryFor, ValidName, WellFormed, IsInZone, IsVersionQuery, D.Decode, Reply, QueryDnssecOk, SomeRefused, ValidName, DistinctNames,
      ValidKey, TextLabels, PlainLabels, ValidatesAt, QuestionSectionEnd, HasLabelSuffix, ToRecord, TxtRr, Join, VersionText, Unsigned,
      RunsInOrder, ReadReply, ReplySections, Params, SignsFor, ValidConfig;
    var q := QueryFor(qname, TYPE_TXT, true);
    EveryNameCanBeAsked(qname, TYPE_TXT, true);
    VersionSections(q, qname, config, now);
    ReplyDecodes(q, qname, config, now);
    ReplyValidates(q, qname, config, now, anchor, t);
    var answers := D.Decode(Reply(q, config, now)).value.answers;
    var txt := ToRecord(qname, TxtRr(VersionText(config)));
    OnlyText(qname, VersionText(config));
    assert txt in multiset(Unsigned(answers)) by { assert txt in multiset([txt]); }
    FromUnsigned(answers, txt);
    OutsideHasNoSuffix(qname, config, now, anchor);
    RefusedWith(answers, txt, anchor, now, t);
  }

  lemma VersionSections(q: Bytes, qname: Labels, config: Config, now: u32)
    requires WellFormed(q, qname) && QueryType(q) == TYPE_TXT
    requires IsVersionQuery(Join(qname, DOT)) && !IsInZone(Join(qname, DOT), config.glueName)
    ensures ReplySections(q, qname, config, now) == Some(TxtSections(VersionText(config)))
  {
    hide IsInZone, IsVersionQuery, Asks, ValidName, VersionText, QuestionSectionEnd, QueryDnssecOk;
  }

  lemma OnlyText(qname: Labels, txt: Bytes)
    ensures ToRecords(qname, TxtSections(txt).answers) == [ToRecord(qname, TxtRr(txt))]
    ensures ToRecord(qname, TxtRr(txt)).name == qname && ToRecord(qname, TxtRr(txt)).typ == TYPE_TXT
  {
  }

  lemma OutsideHasNoSuffix(qname: Labels, config: Config, now: u32, anchor: Anchor)
    requires PlainLabels(qname) && !IsInZone(Join(qname, DOT), config.glueName)
    requires ValidConfig(config) && SignsFor(Params(config, true, now), anchor)
    ensures !HasLabelSuffix(qname, anchor.zone)
  {
    hide IsInZone, HasLabelSuffix, ValidName, DistinctNames, ValidKey, TextLabels, Join;
    assert TextLabels(config.glueName) != [] && anchor.zone == TextLabels(config.glueName);
    PlainAreNonempty(qname);
    WireMembership(qname, config.glueName);
  }

  lemma PlainAreNonempty(qname: Labels)
    requires PlainLabels(qname)
    ensures qname != [] && forall l | l in qname :: l != []
  {
    hide ValidUtf8;
    forall l | l in qname ensures l != [] { assert PlainLabel(l); }
  }

  /** At every name that reads back, the denial lists RRSIG although asking for it finds no answer. */
  lemma SignatureTypeListed(qname: Labels, config: Config, now: u32)
    requires PlainLabels(qname) && ValidName(qname) && |Wire(qname)| <= 253
    requires ValidConfig(config) && IsInZone(Join(qname, DOT), config.glueName) && config.dnssec.Some?
    ensures var denied, asked := QueryFor(qname, 0xFFFF, true), QueryFor(qname, TYPE_RRSIG, true);
            && WellFormed(denied, qname) && WellFormed(asked, qname) && QueryType(asked) == TYPE_RRSIG
            && ListsUnanswered(denied, asked, TYPE_RRSIG, config, now)
  {
    hide QueryFor, PlainLabels, ValidName, WellFormed, ValidConfig, IsInZone, D.Decode, Reply, QueryDnssecOk, Join, QueryRoute,
      QuestionSectionEnd, ParseNsec, Answered, Wire;
    var denied, asked := QueryFor(qname, 0xFFFF, true), QueryFor(qname, TYPE_RRSIG, true);
    EveryNameIsDenied(qname, config, now);
    EveryNameCanBeAsked(qname, TYPE_RRSIG, true);
    var r :| r in D.Decode(Reply(denied, config, now)).value.authority && r.typ == TYPE_NSEC;
    NsecTruthful(denied, qname, asked, qname, config, now, now, r);
    AnswerCount(asked, qname, config, now);
    SignaturesUnanswered(QueryRoute(qname, config), ReplyParams(asked, config, now));
  }

  lemma SignaturesUnanswered(route: Route, params: ZoneParams)
    ensures !Answered(route, TYPE_RRSIG, params)
  {
  }

  /** Every in-zone name of 254 or 255 octets has a denial whose NSEC record no reader accepts. */
  lemma LongOwnerUnreadable(qname: Labels, config: Config, now: u32)
    requires PlainLabels(qname) && ValidName(qname) && |Wire(qname)| > 253
    requires ValidConfig(config) && IsInZone(Join(qname, DOT), config.glueName) && config.dnssec.Some?
    ensures var denied := QueryFor(qname, 0xFFFF, true);
            && WellFormed(denied, qname) && D.Decode(Reply(denied, config, now)).Some?
            && exists r :: r in D.Decode(Reply(denied, config, now)).value.authority && r.typ == TYPE_NSEC && ParseNsec(r.rdata).None?
  {
    hide QueryFor, PlainLabels, ValidName, WellFormed, ValidConfig, IsInZone, D.Decode, Reply, QueryDnssecOk, Join, QueryRoute,
      QuestionSectionEnd, ParseNsec, Answered, Wire;
    var denied := QueryFor(qname, 0xFFFF, true);
    EveryNameIsDenied(qname, config, now);
    var r :| r in D.Decode(Reply(denied, config, now)).value.authority && r.typ == TYPE_NSEC;
    NsecTruthful(denied, qname, denied, qname, config, now, now, r);
  }

  function RunOfB(n: nat): Bytes { seq(n, _ => 98) }

  lemma {:induction false} AsciiIsUtf8(s: Bytes)
    requires forall b | b in s :: b < 0x80
    ensures ValidUtf8(s)
  {
    if s != [] {
      assert s[0] in s;
      assert forall b | b in s[1..] :: b in s;
      AsciiIsUtf8(s[1..]);
    }
  }

  lemma RunOfBIsPlain(n: nat)
    requires 1 <= n <= 63
    ensures PlainLabel(RunOfB(n)) && |RunOfB(n)| == n
  {
    AsciiIsUtf8(RunOfB(n));
    hide ValidUtf8;
  }

  /** There are such names: four long labels below "a" make 255 octets. */
  lemma LongOwnerExists()
    ensures var name: Labels := [RunOfB(63), RunOfB(63), RunOfB(63), RunOfB(59), [97]];
            PlainLabels(name) && ValidName(name) && |Wire(name)| == 255 && IsInZone(Join(name, DOT), [97])
  {
    hide RunOfB, PlainLabel, IsInZone, TextLabels, Join, ValidUtf8, Split;
    var name: Labels := [RunOfB(63), RunOfB(63), RunOfB(63), RunOfB(59), [97]];
    RunOfBIsPlain(63);
    RunOfBIsPlain(59);
    ApexIsPlain();
    assert PlainLabel([97]) by { assert [97] in [[97]]; }
    assert forall l | l in name :: PlainLabel(l);
    PlainAreNonempty(name);
    LongWire(name);
    ShortNames(97);
    WireMembership(name, [97]);
    assert name[4..] == [[97]];
  }

  lemma LongWire(name: Labels)
    requires |name| == 5 && |name[0]| == |name[1]| == |name[2]| == 63 && |name[3]| == 59 && |name[4]| == 1
    ensures |Wire(name)| == 255 && ValidLabels(name)
  {
    hide Wire;
    WireUnfold(name);
    WireUnfold(name[1..]);
    WireUnfold(name[2..]);
    WireUnfold(name[3..]);
    WireUnfold(name[4..]);
    assert name[1..][1..] == name[2..] && name[2..][1..] == name[3..] && name[3..][1..] == name[4..] && name[4..][1..] == [];
    assert |Wire([])| == 1 by { EmptyWire(); }
  }

  lemma EmptyWire()
    ensures |Wire([])| == 1
  {
  }

  /** The denial lists a type for which the reply counts no answer. */
  ghost predicate ListsUnanswered(denied: Bytes, asked: Bytes, typ: u16, config: Config, now: u32) {
    && |Reply(asked, config, now)| >= 12 && U16At(Reply(asked, config, now), 6) == 0 && D.Decode(Reply(denied, config, now)).Some?
    && exists r :: r in D.Decode(Reply(denied, config, now)).value.authority && r.typ == TYPE_NSEC
                   && ParseNsec(r.rdata).Some? && typ in ParseNsec(r.rdata).value.1
  }

  /** The exceptions at work in one configuration: the names "*.a" and "v", type RRSIG at "a", the
      one label "b.a", and the text ".a" that is not in the zone "a". */
  lemma ShortfallsHappen(now: u32)
    ensures var config, anchor := SomeConfig(), SomeAnchor();
            var starred, version: Labels := [[STAR], [97]], [[118]];
            var q, v := QueryFor(starred, 0xFFFF, true), QueryFor(version, TYPE_TXT, true);
            && WellFormed(q, starred) && WellFormed(v, version)
            && D.Decode(Reply(q, config, now)).Some? && SomeRefused(D.Decode(Reply(q, config, now)).value.authority, anchor, now)
            && D.Decode(Reply(v, config, now)).Some? && SomeRefused(D.Decode(Reply(v, config, now)).value.answers, anchor, now)
    ensures var apex: Labels := [[97]];
            ListsUnanswered(QueryFor(apex, 0xFFFF, true), QueryFor(apex, TYPE_RRSIG, true), TYPE_RRSIG, SomeConfig(), now)
    ensures var dotted: Labels := [[98, DOT, 97]];
            var q := QueryFor(dotted, 0xFFFF, true);
            && WellFormed(q, dotted) && !HasLabelSuffix(dotted, TextLabels(SomeConfig().glueName))
            && D.Decode(Reply(q, SomeConfig(), now)).Some? && D.Decode(Reply(q, SomeConfig(), now)).value.header.aa
            && SomeRefused(D.Decode(Reply(q, SomeConfig(), now)).value.authority, SomeAnchor(), now)
    ensures !IsInZone([DOT, 97], [97])
  {
    hide HasLabelSuffix, ListsUnanswered, Wire, QueryFor, WellFormed, ValidConfig, D.Decode, Reply, SomeRefused, SignsFor, ValidName,
      PlainLabels, SomeAnchor, Params, KeyTagOf, IsInZone, TextLabels, SomeKey;
    ConfigSigns(now);
    StarredName();
    VersionName();
    DottedName();
    DenialRefused([[STAR], [97]], SomeConfig(), now, SomeAnchor(), now);
    DenialRefused([[98, DOT, 97]], SomeConfig(), now, SomeAnchor(), now);
    OutsideVersionRefused([[118]], SomeConfig(), now, SomeAnchor(), now);
    ApexName();
    SignatureTypeListed([[97]], SomeConfig(), now);
    DotInFront();
  }

  lemma ApexName()
    ensures var name: Labels := [[97]];
            PlainLabels(name) && ValidName(name) && |Wire(name)| <= 253 && IsInZone(Join(name, DOT), [97])
  {
    ShortNames(97);
    ApexIsPlain();
    WireOfOne([97]);
    assert Join([[97]], DOT) == [97];
    InZoneReflexive([97]);
  }

  lemma ConfigSigns(now: u32)
    ensures ValidConfig(SomeConfig()) && SomeConfig().dnssec.Some? && SomeConfig().glueName == [97]
    ensures SignsFor(Params(SomeConfig(), true, now), SomeAnchor())
  {
    hide KeyTagOf, ValidKey, TextLabels, ValidName, Signature, DnskeyOf, SomeKey;
    ShortNames(97);
    ShortNames(110);
    ShortNames(104);
    SomeKeyIsValid();
    SomeKeySigns();
  }

  lemma StarredName()
    ensures var name: Labels := [[STAR], [97]];
            PlainLabels(name) && ValidName(name) && LeadingStar(name) && IsInZone(Join(name, DOT), [97])
  {
    var name: Labels := [[STAR], [97]];
    ShortNames(STAR);
    ShortNames(97);
    assert ValidUtf8([STAR][1..]) && ValidUtf8([97][1..]);
    assert Join(name, DOT) == [STAR, DOT, 97] by { assert name[1..] == [[97]]; }
    InZoneIsLabelSuffix([STAR, DOT, 97], [97]);
    assert name[1..] == [[97]];
    hide ValidName, TextLabels, IsInZone;
  }

  /** One label that holds a dot: in the zone as text, outside as labels. */
  lemma DottedName()
    ensures var name: Labels := [[98, DOT, 97]];
            PlainLabels(name) && ValidName(name) && IsInZone(Join(name, DOT), [97]) && !HasLabelSuffix(name, TextLabels([97]))
  {
    var part: Bytes := [98, DOT, 97];
    assert Join([part], DOT) == part;
    AsciiIsUtf8(part);
    WireOfOne(part);
    assert PlainLabel(part);
    ShortNames(98);
    ShortNames(97);
    InZoneIsLabelSuffix(part, [97]);
    assert [[98], [97]][1..] == [[97]];
    assert [part][0..] == [part];
    assert LowerLabels([part])[0] == LowerAll(part) && LowerLabels([[97]])[0] == LowerAll([97]);
    assert |LowerAll(part)| == 3 && |LowerAll([97])| == 1;
    hide TextLabels, IsInZone, ValidUtf8;
  }

  lemma VersionName()
    ensures var name: Labels := [[118]];
            PlainLabels(name) && ValidName(name) && IsVersionQuery(Join(name, DOT)) && !IsInZone(Join(name, DOT), [97])
  {
    ShortNames(118);
    ShortNames(97);
    assert ValidUtf8([118][1..]);
    assert Join([[118]], DOT) == [118];
    assert Ascii("v") == [118] + Ascii("v"[1..]);
    assert Ascii("v"[1..]) == [];
    assert LowerAll([118])[0] == 118 && LowerAll([97])[0] == 97;
    hide ValidName;
  }

  lemma DotInFront()
    ensures !IsInZone([DOT, 97], [97])
  {
    assert |LowerAll([DOT, 97])| == 2 && |LowerAll([97])| == 1;
  }
}
