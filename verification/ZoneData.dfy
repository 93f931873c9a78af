/**
 What the server should serve, said from its configuration alone: the records of every name, and
 that the decision chain and the builders collect exactly these.
 */
module ZoneData {
  import opened Octets
  import opened Names
  import opened Letters
  import opened Zone
  import opened QueryReader
  import opened Dnssec
  import opened Message
  import opened Responses
  import opened Query
  import opened Ip = IpParser
  import opened RoundTrip
  import opened Emission
  import opened Replies
  import opened Contents
  import opened Denial
  import D = Decoder

  // ----- the zone as configured ------------------------------------------------

  /** The domain name that a configured text stands for, in canonical form. */
  function NameData(name: Bytes): Bytes { Wire(LowerLabels(TextLabels(name))) }

  /** One character-string (section 3.3 of RFC 1035) with as much of the text as it can hold. */
  function TextData(txt: Bytes): Bytes {
    var n := if |txt| < 256 then |txt| else 255;
    [n] + txt[..n]
  }

  function SoaData(config: Config): Bytes {
    NameData(config.soaName) + NameData(config.hostmaster)
    + (U32Bytes(config.serial) + U32Bytes(config.refresh) + U32Bytes(config.retry) + U32Bytes(config.expire)
       + U32Bytes(config.minimum))
  }

  /** Section 5.1 of RFC 4034, for algorithm 13 and a SHA-256 digest. */
  function CdsData(key: DnssecKey, config: Config): Bytes {
    U16Bytes(key.keyTag) + [13, 2] + key.sha256(NameData(config.glueName) + key.dnskeyRdata)
  }

  function AddressRecords(owner: Labels, v4: Option<Ipv4>, v6: Option<Ipv6>): seq<D.Record> {
    (if v4.Some? then [D.Record(owner, 1, 1, 60, v4.value)] else [])
    + (if v6.Some? then [D.Record(owner, 28, 1, 60, v6.value)] else [])
  }

  function ServerRecords(owner: Labels, config: Config): seq<D.Record> {
    seq(|config.nsNames|, i requires 0 <= i < |config.nsNames| => D.Record(owner, 2, 1, 60, NameData(config.nsNames[i])))
  }

  function KeyRecords(owner: Labels, config: Config): seq<D.Record> {
    if config.dnssec.None? then []
    else
      var key := config.dnssec.value;
      [D.Record(owner, 48, 1, 3600, key.dnskeyRdata), D.Record(owner, 59, 1, 3600, CdsData(key, config)),
       D.Record(owner, 60, 1, 3600, key.dnskeyRdata)]
  }

  function SoaRecord(owner: Labels, config: Config): D.Record { D.Record(owner, 6, 1, 3600, SoaData(config)) }

  function TextRecord(owner: Labels, txt: Bytes): D.Record { D.Record(owner, 16, 1, 60, TextData(txt)) }

  function ApexRecords(owner: Labels, config: Config): seq<D.Record> {
    [SoaRecord(owner, config)] + ServerRecords(owner, config) + AddressRecords(owner, Some(config.glueIp), config.glueIp6)
    + (if config.spf == [] then [] else [TextRecord(owner, config.spf)]) + KeyRecords(owner, config)
  }

  /** The labels of the text that the server makes of a name.  They are the labels of the name, unless
      one of these holds a dot: in the text that dot stands between labels. */
  function ReadAs(name: Labels): Labels { TextLabels(Join(name, DOT)) }

  /** The same with the empty labels behind dots at the end of the text. */
  function Pieces(name: Labels): Labels { Split(Join(name, DOT), DOT) }

  lemma DotFreeReads(name: Labels)
    requires name != [] && (forall l | l in name :: l != []) && DotFree(name)
    ensures ReadAs(name) == name && Pieces(name) == name
  {
    hide Join, Split, TrimDots;
    JoinedLabels(name);
    JoinThenSplit(name, DOT);
  }

  /** "version", "ver" and "v". */
  predicate IsVersionName(name: Labels) {
    && |name| == 1
    && (SameText(name[0], [118, 101, 114, 115, 105, 111, 110]) || SameText(name[0], [118, 101, 114]) || SameText(name[0], [118]))
  }

  /** "_dmarc" in front of the zone. */
  predicate IsDmarcName(name: Labels, config: Config) {
    config.dmarc != [] && SameName(ReadAs(name), [[95, 100, 109, 97, 114, 99]] + TextLabels(config.glueName))
  }

  predicate IsApex(name: Labels, config: Config) { SameName(ReadAs(name), TextLabels(config.glueName)) }

  predicate IsServer(name: Labels, config: Config) {
    || (exists ns | ns in config.nsNames :: SameName(ReadAs(name), TextLabels(ns)))
    || SameName(ReadAs(name), TextLabels(config.soaName))
  }

  /** The name ends in the labels of the zone and is not the zone behind one empty label. */
  predicate InZone(name: Labels, config: Config) {
    var read, zone := ReadAs(name), TextLabels(config.glueName);
    Below(read, zone) && !(|read| == |zone| + 1 && read[0] == [])
  }

  /** "RustyAlias v" and the version. */
  function VersionLine(config: Config): Bytes { [82, 117, 115, 116, 121, 65, 108, 105, 97, 115, 32, 118] + config.version }

  /** Every record that a name owns, denials and signatures apart. */
  function Owned(name: Labels, config: Config): seq<D.Record> {
    if IsVersionName(name) then [TextRecord(name, VersionLine(config))]
    else if IsDmarcName(name, config) then [TextRecord(name, config.dmarc)]
    else if IsApex(name, config) then ApexRecords(name, config)
    else if IsServer(name, config) then AddressRecords(name, Some(config.glueIp), config.glueIp6)
    else AddressRecords(name, AddressesOf(Pieces(name), config.readIpv6).0, AddressesOf(Pieces(name), config.readIpv6).1)
  }

  predicate AtApex(name: Labels, config: Config) {
    !IsVersionName(name) && !IsDmarcName(name, config) && IsApex(name, config)
  }

  function OnlyType(rs: seq<D.Record>, t: u16): seq<D.Record> {
    if rs == [] then [] else (if rs[0].typ == t then [rs[0]] else []) + OnlyType(rs[1..], t)
  }

  // ----- routes ----------------------------------------------------------------

  /** The route that a name should take. */
  function ServedRoute(name: Labels, config: Config): Route {
    if IsVersionName(name) then Version(InZone(name, config))
    else if !InZone(name, config) then Outside
    else if IsDmarcName(name, config) then Dmarc
    else if IsApex(name, config) then Apex
    else if IsServer(name, config) then Address((Some(config.glueIp), config.glueIp6))
    else
      var ip := AddressesOf(Pieces(name), config.readIpv6);
      if ip.0.None? && ip.1.None? then Empty else Address(ip)
  }

  lemma JoinHasDot(name: Labels)
    requires |name| > 1
    ensures DOT in Join(name, DOT)
  {
    assert Join(name, DOT) == name[0] + [DOT] + Join(name[1..], DOT);
    assert Join(name, DOT)[|name[0]|] == DOT;
  }

  lemma OneWord(name: Labels, word: Bytes)
    requires name != [] && DOT !in word
    ensures EqIgnoreCase(Join(name, DOT), word) <==> |name| == 1 && SameText(name[0], word)
  {
    SameTextLower(Join(name, DOT), word);
    if |name| > 1 {
      JoinHasDot(name);
      LowerKeepsDots(Join(name, DOT));
      LowerKeepsDots(word);
    }
  }

  lemma VersionWords()
    ensures Ascii("version") == [118, 101, 114, 115, 105, 111, 110] && Ascii("ver") == [118, 101, 114] && Ascii("v") == [118]
  {
    hide Ascii;
    AsciiOf("version");
    AsciiOf("ver");
    AsciiOf("v");
  }

  lemma {:induction false} AsciiOf(s: string)
    requires forall i | 0 <= i < |s| :: s[i] as int < 128
    ensures |Ascii(s)| == |s| && forall i | 0 <= i < |s| :: Ascii(s)[i] == s[i] as int
  {
    if s != "" {
      AsciiOf(s[1..]);
    }
  }

  lemma VersionServed(name: Labels)
    requires name != []
    ensures IsVersionQuery(Join(name, DOT)) <==> IsVersionName(name)
  {
    hide Join, EqIgnoreCase, SameText, Ascii;
    VersionWords();
    OneWord(name, [118, 101, 114, 115, 105, 111, 110]);
    OneWord(name, [118, 101, 114]);
    OneWord(name, [118]);
  }

  lemma TextServed(config: Config)
    ensures VersionText(config) == VersionLine(config)
  {
    hide Ascii;
    AsciiOf("RustyAlias v");
    assert Ascii("RustyAlias v") == [82, 117, 115, 116, 121, 65, 108, 105, 97, 115, 32, 118];
  }

  lemma SameNames(name: Labels, text: Bytes)
    ensures NamesEq(Join(name, DOT), text) <==> SameName(ReadAs(name), TextLabels(text))
  {
    hide NamesEq, SameName, Join, TextLabels, LowerLabels;
    NamesEqByLabels(Join(name, DOT), text);
    SameNameLower(ReadAs(name), TextLabels(text));
  }

  lemma DmarcLabels(zone: Bytes)
    requires TextLabels(zone) != []
    ensures TextLabels(DmarcOwner(zone)) == [[95, 100, 109, 97, 114, 99]] + TextLabels(zone)
  {
    hide Split, TrimDots, Ascii;
    var z, word: Bytes := TrimDots(zone), [95, 100, 109, 97, 114, 99];
    AsciiOf("_dmarc.");
    assert DmarcOwner(zone) == word + [DOT] + z;
    TrimDotsNoTrailing(zone);
    NoTrailing(word + [DOT] + z);
    SplitConcat(word, z, DOT);
    SplitWhole(word, DOT);
  }

  lemma NoTrailing(s: Bytes)
    requires s != [] && s[|s| - 1] != DOT
    ensures TrimDots(s) == s
  {
  }

  lemma ZoneServed(name: Labels, config: Config)
    requires TextLabels(config.glueName) != []
    ensures IsInZone(Join(name, DOT), config.glueName) <==> InZone(name, config)
  {
    hide IsInZone, SameName, Join, TextLabels, LowerLabels;
    var read, zone := ReadAs(name), TextLabels(config.glueName);
    InZoneIsLabelSuffix(Join(name, DOT), config.glueName);
    if |zone| <= |read| {
      SameNameLower(read[|read| - |zone|..], zone);
    }
  }

  /** The decision chain takes every name where the labels of its text say. */
  lemma RouteServed(name: Labels, config: Config)
    requires name != [] && TextLabels(config.glueName) != []
    ensures QueryRoute(name, config) == ServedRoute(name, config)
  {
    hide IsInZone, NamesEq, IsVersionQuery, Join, Split, AddressesOf, TextLabels, SameName, InZone, DmarcOwner, IsVersionName, ReadAs;
    VersionServed(name);
    ZoneServed(name, config);
    SameNames(name, config.glueName);
    SameNames(name, config.soaName);
    SameNames(name, DmarcOwner(config.glueName));
    DmarcLabels(config.glueName);
    forall ns | ns in config.nsNames ensures NamesEq(Join(name, DOT), ns) <==> SameName(ReadAs(name), TextLabels(ns)) {
      SameNames(name, ns);
    }
  }

  // ----- records ---------------------------------------------------------------

  lemma OwnRecord(name: Labels, typ: u16, ttl: u32, rdata: Bytes)
    ensures ToRecords(name, [Rr(Question, typ, ttl, rdata)]) == [D.Record(name, typ, 1, ttl, rdata)]
  {
  }

  lemma SoaServed(name: Labels, config: Config, doBit: bool, now: u32)
    ensures ToRecords(name, [SoaRr(Question, Params(config, doBit, now))]) == [SoaRecord(name, config)]
    ensures ToRecord(name, SoaRr(Name(config.glueName), Params(config, doBit, now)))
         == SoaRecord(LowerLabels(TextLabels(config.glueName)), config)
  {
    hide U32Bytes, Wire, LowerLabels, TextLabels;
    OwnRecord(name, TYPE_SOA, TTL_SOA, SoaData(config));
  }

  /** The SOA data of the zone reads back as what is configured, each in its place. */
  lemma SoaSays(config: Config)
    requires ValidName(TextLabels(config.soaName)) && ValidName(TextLabels(config.hostmaster))
    ensures ReadSoa(SoaData(config))
         == Some(Soa(LowerLabels(TextLabels(config.soaName)), LowerLabels(TextLabels(config.hostmaster)),
                     config.serial, config.refresh, config.retry, config.expire, config.minimum))
  {
    hide ReadSoa, U32Bytes, Wire, LowerLabels, TextLabels, ValidName;
    SoaReadsBack(Question, Params(config, false, 0));
  }

  /** Text data reads back as the text, as far as one character-string holds it. */
  lemma TextSays(txt: Bytes)
    ensures ReadText(TextData(txt)) == Some(if |txt| < 256 then txt else txt[..255])
  {
    var n := if |txt| < 256 then |txt| else 255;
    assert TextData(txt)[1..] == txt[..n] && (n == |txt| ==> txt[..n] == txt);
  }

  lemma ServersServed(name: Labels, config: Config)
    ensures ToRecords(name, NsSet(config.nsNames)) == ServerRecords(name, config)
  {
    hide Wire, LowerLabels, TextLabels;
  }

  lemma AddressesServed(name: Labels, v4: Option<Ipv4>, v6: Option<Ipv6>)
    ensures ToRecords(name, (if v4.Some? then [ARr(Question, v4.value)] else []) + (if v6.Some? then [AaaaRr(Question, v6.value)] else []))
         == AddressRecords(name, v4, v6)
  {
  }

  lemma TextsServed(name: Labels, txt: Bytes)
    ensures ToRecords(name, [TxtRr(txt)]) == [TextRecord(name, txt)]
  {
    OwnRecord(name, TYPE_TXT, TTL_RR, TextData(txt));
  }

  lemma KeysServed(name: Labels, config: Config, doBit: bool, now: u32)
    ensures ToRecords(name, AnyKeys(Params(config, doBit, now))) == KeyRecords(name, config)
  {
    hide U16Bytes, Wire, LowerLabels, TextLabels;
    if config.dnssec.Some? {
      assert CdsData(config.dnssec.value, config) == DsRdata(config.dnssec.value, config.glueName);
    }
  }

  lemma ApexServed(name: Labels, config: Config, doBit: bool, now: u32)
    ensures ToRecords(name, AnyAnswers(Params(config, doBit, now))) == ApexRecords(name, config)
  {
    hide ToRecords, SoaRr, NsSet, AnyKeys, ServerRecords, AddressRecords, SoaRecord, TextRecord, KeyRecords, TxtRr, ARr, AaaaRr;
    var params := Params(config, doBit, now);
    SoaServed(name, config, doBit, now);
    ServersServed(name, config);
    AddressesServed(name, Some(config.glueIp), config.glueIp6);
    TextsServed(name, config.spf);
    KeysServed(name, config, doBit, now);
    NoneServed(name);
    var soa, ns, a, text := [SoaRr(Question, params)], NsSet(params.nsNames), [ARr(Question, params.glueIp)], AnyText(params);
    var addresses := a + AnyAaaa(params);
    assert AnyFixed(params) + AnyAaaa(params) == soa + ns + addresses;
    ToRecordsConcat(name, soa + ns + addresses + text, AnyKeys(params));
    ToRecordsConcat(name, soa + ns + addresses, text);
    ToRecordsConcat(name, soa + ns, addresses);
    ToRecordsConcat(name, soa, ns);
  }

  lemma NoneServed(name: Labels)
    ensures ToRecords(name, []) == []
  {
  }

  /** An answer to ANY holds every record of the name. */
  lemma OwnedIsAny(query: Bytes, name: Labels, config: Config, doBit: bool, now: u32)
    requires QuestionSectionEnd(query).Some? && !ServedRoute(name, config).Outside?
    ensures var sections := Answer(query, ServedRoute(name, config), TYPE_ANY, config, Params(config, doBit, now));
            sections.Some? && ToRecords(name, sections.value.answers) == Owned(name, config)
  {
    hide ToRecords, QuestionSectionEnd, IsVersionName, IsDmarcName, IsApex, IsServer, InZone, AddressesOf, ApexRecords, AddressRecords,
      TextRecord, TxtRr, AnyAnswers, Glue, VersionText, VersionLine, ARr, AaaaRr, NsecRr, SoaRr;
    var route, params := ServedRoute(name, config), Params(config, doBit, now);
    match route {
      case Version(_) =>
        TextServed(config);
        TextsServed(name, VersionLine(config));
      case Dmarc => TextsServed(name, config.dmarc);
      case Apex =>
        AnyAtApex(query, params);
        ApexServed(name, config, doBit, now);
      case Address(ip) =>
        AddressesServed(name, ip.0, ip.1);
        AnyAddress(query, ip, params);
      case Empty =>
        NoneServed(name);
        NothingOwned(name);
        NodataHoldsNothing(query, [], params);
    }
  }

  lemma NothingOwned(name: Labels)
    ensures AddressRecords(name, None, None) == []
  {
  }

  lemma AnyAddress(query: Bytes, ip: Addresses, params: ZoneParams)
    requires QuestionSectionEnd(query).Some?
    ensures AddressSections(query, TYPE_ANY, ip, params).answers
         == (if ip.0.Some? then [ARr(Question, ip.0.value)] else []) + (if ip.1.Some? then [AaaaRr(Question, ip.1.value)] else [])
  {
    hide QuestionSectionEnd, ARr, AaaaRr, NsecRr, SoaRr;
  }

  lemma {:induction false} OnlyTypeServed(name: Labels, rrs: seq<Rr>, t: u16)
    ensures OnlyType(ToRecords(name, rrs), t) == ToRecords(name, OfType(rrs, t))
  {
    if rrs == [] {
    } else {
      OnlyTypeServed(name, rrs[1..], t);
      assert ToRecords(name, rrs)[1..] == ToRecords(name, rrs[1..]);
      var first := if rrs[0].typ == t then [rrs[0]] else [];
      ToRecordsConcat(name, first, OfType(rrs[1..], t));
      assert ToRecords(name, first) == if rrs[0].typ == t then [ToRecord(name, rrs[0])] else [];
    }
  }

  lemma {:induction false} NoneOfType(rrs: seq<Rr>, t: u16)
    requires forall rr | rr in rrs :: rr.typ != t
    ensures OfType(rrs, t) == []
  {
    if rrs != [] {
      assert rrs[0] in rrs;
      assert forall rr | rr in rrs[1..] :: rr in rrs;
      NoneOfType(rrs[1..], t);
    }
  }

  /** Every answer but to ANY, and to NSEC at the apex, holds the records of the type asked for. */
  lemma OwnedIsAnswer(query: Bytes, name: Labels, qtype: u16, config: Config, doBit: bool, now: u32)
    requires QuestionSectionEnd(query).Some? && config.nsNames != []
    requires var route := ServedRoute(name, config); !route.Outside? && (route.Version? ==> route.inZone)
    requires qtype != TYPE_ANY && !(qtype == TYPE_NSEC && ServedRoute(name, config).Apex? && config.dnssec.Some?)
    ensures var sections := Answer(query, ServedRoute(name, config), qtype, config, Params(config, doBit, now));
            sections.Some? && ToRecords(name, sections.value.answers) == OnlyType(Owned(name, config), qtype)
  {
    hide ToRecords, QuestionSectionEnd, ServedRoute, Owned, OnlyType, OfType, ExistingTypes, Answer;
    var route, params := ServedRoute(name, config), Params(config, doBit, now);
    OwnedIsAny(query, name, config, doBit, now);
    var all := Answer(query, route, TYPE_ANY, config, params).value.answers;
    OnlyTypeServed(name, all, qtype);
    AnswersNonempty(query, route, qtype, config, params);
    if qtype in ExistingTypes(route, params) {
      AnyIsUnion(query, route, qtype, config, params);
    } else {
      AnyHoldsExisting(query, route, config, params);
      NoneOfType(all, qtype);
      NoneServed(name);
    }
  }
}
