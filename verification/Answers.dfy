/**
 The sections of every answer are well formed: no RRset is split, every record fits
 the wire and is canonical, and the counts fit their header fields.
 */
module Answers {
  import opened Octets
  import opened Names
  import opened Zone
  import opened QueryReader
  import opened TypeBitmap
  import opened Dnssec
  import opened Message
  import opened Responses
  import opened RoundTrip
  import opened Rrsets
  import opened Validator

  const MAX_NS_NAMES: nat := 16000

  ghost predicate DistinctNames(names: seq<Bytes>) {
    forall i, j | 0 <= i < j < |names| :: !NamesEq(names[i], names[j])
  }

  /** A configuration whose names are legal, whose name servers are distinct and not too many. */
  ghost predicate ValidParams(params: ZoneParams) {
    && TextLabels(params.zone) != [] && ValidName(TextLabels(params.zone))
    && ValidName(TextLabels(params.nsName)) && ValidName(TextLabels(params.hostmaster))
    && (forall n | n in params.nsNames :: ValidName(TextLabels(n)))
    && DistinctNames(params.nsNames) && 1 <= |params.nsNames| <= MAX_NS_NAMES
    && (params.dnssec.Some? ==> ValidKey(params.dnssec.value))
  }

  /** A question for a legal name. */
  ghost predicate AsksName(query: Bytes, qname: Labels) {
    Asks(query, qname) && ValidName(qname) && QuestionSectionEnd(query).Some?
  }

  ghost predicate Good(rr: Rr, qname: Labels) {
    && rr.typ != TYPE_RRSIG && Checkable(rr, qname)
    && (rr.owner.Name? ==> ValidName(TextLabels(rr.owner.name)))
    && |rr.rdata| <= 2000
  }

  /** A list of good records in which no RRset is split. */
  ghost predicate GoodList(rrs: seq<Rr>, qname: Labels) {
    Proper(rrs, qname) && forall rr | rr in rrs :: Good(rr, qname)
  }

  lemma GoodConcat(a: seq<Rr>, b: seq<Rr>, qname: Labels)
    requires GoodList(a, qname) && GoodList(b, qname) && KeysApart(a, b, qname)
    ensures GoodList(a + b, qname)
  {
    ProperConcat(a, b, qname);
    hide Proper, Good;
  }

  lemma GoodNone(qname: Labels)
    ensures GoodList([], qname)
  {
  }

  lemma GoodOne(rr: Rr, qname: Labels)
    requires Good(rr, qname)
    ensures GoodList([rr], qname)
  {
    ProperSingle(rr, qname);
    hide Proper, Good;
  }

  // ----- single records --------------------------------------------------------

  lemma EncodedLength(name: Bytes)
    requires ValidName(TextLabels(name))
    ensures |Encode(name)| <= 255 && ValidLabels(TextLabels(name))
  {
    WireLower(TextLabels(name));
  }

  lemma PlainGood(rr: Rr, qname: Labels)
    requires ValidName(qname) && rr.owner == Question && NamesIn(rr.typ) == 0
    requires rr.typ != TYPE_RRSIG && rr.typ != TYPE_OPT && |rr.rdata| <= 2000
    ensures Good(rr, qname)
  {
  }

  lemma NameOwnerValid(name: Bytes)
    requires ValidName(TextLabels(name))
    ensures ValidName(LowerLabels(TextLabels(name)))
  {
    WireLower(TextLabels(name));
  }

  lemma SoaGood(owner: Owner, params: ZoneParams, qname: Labels)
    requires ValidParams(params) && ValidName(qname)
    requires owner == Question || owner == Name(params.zone)
    ensures Good(SoaRr(owner, params), qname)
  {
    hide ValidName, TextLabels, LowerLabels, Encode, U32Bytes, DistinctNames, ValidKey;
    var tail := U32Bytes(params.serial) + U32Bytes(params.refresh) + U32Bytes(params.retry)
                + U32Bytes(params.expire) + U32Bytes(params.minimum);
    assert |tail| == 20 by { FourEach(params); }
    assert SoaRdata(params) == Encode(params.nsName) + (Encode(params.hostmaster) + tail);
    SoaRdataGood(params.nsName, params.hostmaster, tail);
    NameOwnerValid(params.zone);
    hide LowerNames, SoaRdata;
  }

  lemma SoaRdataGood(mname: Bytes, rname: Bytes, tail: Bytes)
    requires ValidName(TextLabels(mname)) && ValidName(TextLabels(rname)) && |tail| == 20
    ensures var rdata := Encode(mname) + (Encode(rname) + tail);
            LowerNames(2, rdata) == rdata && |rdata| <= 2000
  {
    EncodedLength(mname);
    EncodedLength(rname);
    assert LowerNames(0, tail) == tail;
    EncodedKeeps(0, rname, tail);
    EncodedKeeps(1, mname, Encode(rname) + tail);
    hide LowerNames, Encode, ValidName;
  }

  lemma FourEach(params: ZoneParams)
    ensures |U32Bytes(params.serial) + U32Bytes(params.refresh) + U32Bytes(params.retry)
             + U32Bytes(params.expire) + U32Bytes(params.minimum)| == 20
  {
  }

  lemma NsGood(name: Bytes, qname: Labels)
    requires ValidName(TextLabels(name)) && ValidName(qname)
    ensures Good(NsRr(Question, name), qname)
  {
    EncodedLength(name);
    assert LowerNames(0, []) == [];
    EncodedKeeps(0, name, []);
    assert Encode(name) + [] == Encode(name);
    hide ValidName, Encode;
  }

  lemma GlueRecordGood(name: Bytes, typ: u16, rdata: Bytes, qname: Labels)
    requires ValidName(TextLabels(name)) && |rdata| <= 16 && (typ == TYPE_A || typ == TYPE_AAAA)
    ensures Good(Rr(Name(name), typ, TTL_RR, rdata), qname)
  {
    NameOwnerValid(name);
    hide ValidName;
  }

  lemma NsecGood(query: Bytes, existing: seq<u16>, params: ZoneParams, qname: Labels)
    requires AsksName(query, qname) && forall t | t in existing :: t < 0x100
    ensures Good(NsecRr(query, existing, params), qname)
  {
    hide Wire, LowerLabels, TypeField, LowerNames, ValidName, Asks, NsecRdata, Encode, TextLabels, ValidLabels, QnameWire;
    var next, field := [[0]] + LowerLabels(qname), TypeField(NsecTypes(existing));
    NsecRdataIs(query, existing, qname);
    AskedLabels(query, qname);
    NoNames(field);
    NextIsLower(qname);
    LowerNamesKeeps(0, next, field);
    FieldLength(NsecTypes(existing), existing);
    NextLength(qname);
    hide NsecTypes;
  }

  lemma NoNames(rdata: Bytes)
    ensures LowerNames(0, rdata) == rdata
  {
  }

  lemma NextIsLower(qname: Labels)
    requires ValidLabels(qname)
    ensures var next := [[0]] + LowerLabels(qname); ValidLabels(next) && LowerLabels(next) == next
  {
    WireLower(qname);
    LowerLabelsIdempotent(qname);
    var next := [[0]] + LowerLabels(qname);
    assert LowerAll([0]) == [0];
    assert LowerLabels(next) == [LowerAll([0])] + LowerLabels(LowerLabels(qname));
  }

  lemma NextLength(qname: Labels)
    requires ValidName(qname)
    ensures |Wire([[0]] + LowerLabels(qname))| == 2 + |Wire(qname)| <= 257
  {
    WireLower(qname);
    var next := [[0]] + LowerLabels(qname);
    WireUnfold(next);
    assert next[1..] == LowerLabels(qname);
    hide Wire;
  }

  /** The NSEC RDATA is the wire form of `\000.<qname>` and the type field. */
  lemma NsecRdataIs(query: Bytes, existing: seq<u16>, qname: Labels)
    requires Asks(query, qname) && QuestionSectionEnd(query).Some?
    ensures NsecRdata(QnameWire(query), NsecTypes(existing))
         == Wire([[0]] + LowerLabels(qname)) + TypeField(NsecTypes(existing))
  {
    hide Wire, LowerWire, TypeField, LowerLabels, Asks, QnameWire, QuestionSectionEnd, ValidLabels;
    QuestionEndAt(query, qname);
    AskedLabels(query, qname);
    LowerWireOfWire(qname);
    var lower := LowerLabels(qname);
    var next := [[0]] + lower;
    WireUnfold(next);
    assert next[1..] == lower;
    assert Wire(next) == [1, 0] + Wire(lower);
  }

  /** Types below 256 take one window block of at most 34 octets. */
  lemma FieldLength(types: seq<u16>, existing: seq<u16>)
    requires TypeSet(types) == TypeSet(existing) + {TYPE_NSEC, TYPE_RRSIG}
    requires forall t | t in existing :: t < 0x100
    ensures |TypeField(types)| <= 34
  {
    forall t | t in TypeSet(types) ensures t < 1 * 0x100 {
    }
    if types != [] {
      NoTypesBetween(TypeSet(types), 1, 0x100);
      var octets := WindowOctets(TypeSet(types), 0);
      TrimZerosIsPrefix(octets);
      assert |octets| == 32;
      assert BlocksBelow(TypeSet(types), 0) == [];
      hide WindowOctets, TrimZeros;
      assert |Block(TypeSet(types), 0)| <= 34;
    }
  }

  // ----- NS sets and glue ------------------------------------------------------

  lemma NsSetGood(names: seq<Bytes>, qname: Labels)
    requires ValidName(qname) && DistinctNames(names) && forall n | n in names :: ValidName(TextLabels(n))
    ensures GoodList(NsSet(names), qname)
  {
    hide Encode, ValidName, Good, ProperAt, NamesEq, TextLabels;
    var rrs := NsSet(names);
    forall j | 0 <= j < |rrs| ensures Good(rrs[j], qname) && ProperAt(rrs, qname, j) {
      assert names[j] in names;
      NsGood(names[j], qname);
      NsProper(names, qname, j);
    }
  }

  lemma NsProper(names: seq<Bytes>, qname: Labels, j: nat)
    requires j < |names| && DistinctNames(names) && forall n | n in names :: ValidName(TextLabels(n))
    ensures ProperAt(NsSet(names), qname, j)
  {
    hide Encode, ValidName, NamesEq, TextLabels;
    forall i | 0 <= i < j ensures Encode(names[i]) != Encode(names[j]) {
      assert names[i] in names && names[j] in names;
      DistinctEncodings(names[i], names[j]);
    }
  }

  lemma DistinctEncodings(a: Bytes, b: Bytes)
    requires ValidName(TextLabels(a)) && ValidName(TextLabels(b)) && !NamesEq(a, b)
    ensures Encode(a) != Encode(b)
  {
    forall l | l in TextLabels(a) + TextLabels(b) ensures |l| < 0x100 {
    }
    EncodeInjective(a, b);
  }

  lemma GlueForGood(name: Bytes, params: ZoneParams, qname: Labels)
    requires ValidName(TextLabels(name))
    ensures GoodList(GlueFor(name, params), qname)
    ensures forall rr | rr in GlueFor(name, params) :: rr.owner == Name(name)
  {
    hide NameInBailiwick, Good, Proper, ValidName;
    GoodNone(qname);
    var a := ARr(Name(name), params.glueIp);
    GlueRecordGood(name, TYPE_A, params.glueIp, qname);
    GoodOne(a, qname);
    if params.glueIp6.Some? {
      var aaaa := AaaaRr(Name(name), params.glueIp6.value);
      GlueRecordGood(name, TYPE_AAAA, params.glueIp6.value, qname);
      GoodOne(aaaa, qname);
      TypesApart([a], [aaaa], qname);
      GoodConcat([a], [aaaa], qname);
    } else {
      assert [a] + [] == [a];
    }
  }

  lemma NameKeysApart(a: Rr, b: Rr, qname: Labels)
    requires a.owner.Name? && b.owner.Name? && !NamesEq(a.owner.name, b.owner.name)
    ensures Key(qname, a) != Key(qname, b)
  {
    NamesEqByLabels(a.owner.name, b.owner.name);
    LowerLabelsIdempotent(TextLabels(a.owner.name));
    LowerLabelsIdempotent(TextLabels(b.owner.name));
    hide LowerLabels, TextLabels, NamesEq;
  }

  lemma {:induction false} GlueGood(names: seq<Bytes>, params: ZoneParams, qname: Labels)
    requires DistinctNames(names) && forall n | n in names :: ValidName(TextLabels(n))
    ensures GoodList(Glue(names, params), qname) && |Glue(names, params)| <= 2 * |names|
    ensures forall rr | rr in Glue(names, params) :: rr.owner.Name? && rr.owner.name in names
  {
    hide NameInBailiwick, Good, Proper, ValidName, NamesEq;
    if names == [] {
      GoodNone(qname);
    } else {
      var n := |names| - 1;
      var init, name := names[..n], names[n];
      assert forall x | x in init :: x in names;
      assert forall i | 0 <= i < n :: init[i] == names[i];
      GlueGood(init, params, qname);
      GlueForGood(name, params, qname);
      assert |GlueFor(name, params)| <= 2;
      forall x, y | x in Glue(init, params) && y in GlueFor(name, params) ensures Key(qname, x) != Key(qname, y) {
        var i :| 0 <= i < n && init[i] == x.owner.name;
        assert names[i] == x.owner.name;
        NameKeysApart(x, y, qname);
      }
      hide GlueFor;
      GoodConcat(Glue(init, params), GlueFor(name, params), qname);
    }
  }

  // ----- the answer to TYPE_ANY ------------------------------------------------

  lemma AppendGood(a: seq<Rr>, rr: Rr, qname: Labels)
    requires GoodList(a, qname) && Good(rr, qname) && forall x | x in a :: x.typ != rr.typ
    ensures GoodList(a + [rr], qname)
  {
    GoodOne(rr, qname);
    TypesApart(a, [rr], qname);
    GoodConcat(a, [rr], qname);
    hide GoodList;
  }

  lemma AddressesGood(params: ZoneParams, qname: Labels)
    requires ValidParams(params) && ValidName(qname)
    ensures GoodList(AnyFixed(params) + AnyAaaa(params), qname)
    ensures forall rr | rr in AnyFixed(params) + AnyAaaa(params) :: rr.typ in {TYPE_SOA, TYPE_NS, TYPE_A, TYPE_AAAA}
  {
    hide Good, Proper, SoaRdata, Encode, ValidName, DistinctNames;
    var soa, ns, a := SoaRr(Question, params), NsSet(params.nsNames), ARr(Question, params.glueIp);
    SoaGood(Question, params, qname);
    GoodOne(soa, qname);
    NsSetGood(params.nsNames, qname);
    TypesApart([soa], ns, qname);
    GoodConcat([soa], ns, qname);
    PlainGood(a, qname);
    AppendGood([soa] + ns, a, qname);
    if params.glueIp6.Some? {
      var aaaa := AaaaRr(Question, params.glueIp6.value);
      PlainGood(aaaa, qname);
      AppendGood(AnyFixed(params), aaaa, qname);
    } else {
      assert AnyFixed(params) + [] == AnyFixed(params);
    }
  }

  lemma KeysGood(key: DnssecKey, params: ZoneParams, qname: Labels)
    requires params.dnssec == Some(key) && ValidParams(params) && ValidName(qname)
    ensures Good(DnskeyRr(key), qname) && Good(CdsRr(key, params.zone), qname) && Good(CdnskeyRr(key), qname)
    ensures GoodList(AnyKeys(params), qname)
  {
    hide ValidName, Encode, DistinctNames, TextLabels, Good;
    assert |DsRdata(key, params.zone)| == 36;
    PlainGood(DnskeyRr(key), qname);
    PlainGood(CdsRr(key, params.zone), qname);
    PlainGood(CdnskeyRr(key), qname);
    hide Good, Proper, ValidParams, ValidName, DsRdata;
    GoodOne(DnskeyRr(key), qname);
    AppendGood([DnskeyRr(key)], CdsRr(key, params.zone), qname);
    AppendGood([DnskeyRr(key), CdsRr(key, params.zone)], CdnskeyRr(key), qname);
    assert [DnskeyRr(key)] + [CdsRr(key, params.zone)] == [DnskeyRr(key), CdsRr(key, params.zone)];
    assert [DnskeyRr(key), CdsRr(key, params.zone)] + [CdnskeyRr(key)] == AnyKeys(params);
  }

  lemma TxtGood(txt: Bytes, qname: Labels)
    requires ValidName(qname)
    ensures Good(TxtRr(txt), qname)
  {
    PlainGood(TxtRr(txt), qname);
  }

  lemma AnyGood(params: ZoneParams, qname: Labels)
    requires ValidParams(params) && ValidName(qname)
    ensures GoodList(AnyAnswers(params), qname) && |AnyAnswers(params)| <= |params.nsNames| + 7
  {
    var base := AnyFixed(params) + AnyAaaa(params);
    AddressesGood(params, qname);
    AnyLength(params);
    hide *;
    AnyParts(params);
    if params.spf.Some? {
      TxtAfter(base, params.spf.value, qname);
    } else {
      assert base + AnyText(params) == base;
    }
    var more := base + AnyText(params);
    if params.dnssec.Some? {
      KeysGood(params.dnssec.value, params, qname);
      KeysAfter(base, params, qname);
      GoodConcat(more, AnyKeys(params), qname);
    } else {
      assert more + AnyKeys(params) == more;
    }
  }

  lemma TxtAfter(base: seq<Rr>, txt: Bytes, qname: Labels)
    requires ValidName(qname) && GoodList(base, qname)
    requires forall rr | rr in base :: rr.typ in {TYPE_SOA, TYPE_NS, TYPE_A, TYPE_AAAA}
    ensures GoodList(base + [TxtRr(txt)], qname)
  {
    TxtGood(txt, qname);
    hide Good, GoodList;
    AppendGood(base, TxtRr(txt), qname);
  }

  lemma KeysAfter(base: seq<Rr>, params: ZoneParams, qname: Labels)
    requires forall rr | rr in base :: rr.typ in {TYPE_SOA, TYPE_NS, TYPE_A, TYPE_AAAA}
    ensures KeysApart(base + AnyText(params), AnyKeys(params), qname)
  {
    TypesApart(base + AnyText(params), AnyKeys(params), qname);
    hide KeysApart;
  }

  lemma AnyLength(params: ZoneParams)
    ensures |AnyAnswers(params)| <= |params.nsNames| + 7
  {
  }

  // ----- every answer ----------------------------------------------------------

  ghost predicate GoodSections(sections: Sections, qname: Labels) {
    && GoodList(sections.answers, qname) && GoodList(sections.authority, qname) && GoodList(sections.additional, qname)
    && |sections.answers| <= MAX_NS_NAMES + 7 && |sections.authority| <= MAX_NS_NAMES
    && |sections.additional| <= 2 * MAX_NS_NAMES
  }

  lemma OneAnswerGood(rr: Rr, qname: Labels)
    requires Good(rr, qname)
    ensures GoodSections(Sections([rr], [], []), qname)
  {
    GoodOne(rr, qname);
    GoodNone(qname);
    hide GoodList;
  }

  lemma NodataGood(query: Bytes, existing: seq<u16>, params: ZoneParams, qname: Labels)
    requires AsksName(query, qname) && ValidParams(params) && forall t | t in existing :: t < 0x100
    ensures GoodSections(NodataSections(query, existing, params), qname)
  {
    hide GoodList, Good, Asks, ValidName, SoaRdata, NsecRdata, QuestionSectionEnd;
    var soa := SoaRr(Name(params.zone), params);
    SoaGood(Name(params.zone), params, qname);
    GoodOne(soa, qname);
    GoodNone(qname);
    if params.Sign() {
      var nsec := NsecRr(query, existing, params);
      NsecGood(query, existing, params, qname);
      AppendGood([soa], nsec, qname);
    } else {
      assert [soa] + [] == [soa];
    }
  }

  lemma TxtOrGood(query: Bytes, txt: Bytes, params: ZoneParams, qname: Labels)
    requires AsksName(query, qname) && ValidParams(params)
    ensures GoodSections(TxtSections(txt), qname) && GoodSections(NodataSections(query, [TYPE_TXT], params), qname)
  {
    TxtGood(txt, qname);
    OneAnswerGood(TxtRr(txt), qname);
    NodataGood(query, [TYPE_TXT], params, qname);
    hide GoodSections;
  }

  lemma ApexTypesSmall(params: ZoneParams)
    ensures forall t | t in ApexTypes(params) :: t < 0x100
  {
  }

  lemma ApexGood(query: Bytes, qtype: u16, params: ZoneParams, qname: Labels)
    requires AsksName(query, qname) && ValidParams(params)
    ensures GoodSections(ApexSections(query, qtype, params), qname)
  {
    hide GoodSections, AsksName, ValidParams, Asks, ValidName, Glue, QuestionSectionEnd, ApexTypes, NodataSections, AnyAnswers,
      SoaRr, NsSet, TxtSections, DnskeyRr, CdsRr, CdnskeyRr, NsecRr, ARr, AaaaRr;
    if qtype == TYPE_SOA || qtype == TYPE_NS || qtype == TYPE_ANY {
      ApexGlueGood(params, qname) by { AskedName(query, qname); }
    } else if params.dnssec.Some? && (qtype == TYPE_DNSKEY || qtype == TYPE_CDS || qtype == TYPE_CDNSKEY || qtype == TYPE_NSEC) {
      ApexKeyGood(query, params, qname);
    } else {
      AskedName(query, qname);
      ApexPlainGood(params, qname);
      ApexTypesSmall(params);
      NodataGood(query, ApexTypes(params), params, qname);
    }
  }

  lemma AskedName(query: Bytes, qname: Labels)
    requires AsksName(query, qname)
    ensures ValidName(qname)
  {
  }

  lemma ApexGlueGood(params: ZoneParams, qname: Labels)
    requires ValidName(qname) && ValidParams(params)
    ensures var glue := Glue(params.nsNames, params);
            && GoodSections(Sections([SoaRr(Question, params)], NsSet(params.nsNames), glue), qname)
            && GoodSections(Sections(NsSet(params.nsNames), [], glue), qname)
            && GoodSections(Sections(AnyAnswers(params), [], glue), qname)
  {
    GlueGood(params.nsNames, params, qname);
    NsSetGood(params.nsNames, qname);
    SoaGood(Question, params, qname);
    GoodOne(SoaRr(Question, params), qname);
    AnyGood(params, qname);
    GoodNone(qname);
    hide GoodList, Good, ValidName, SoaRr, Glue, AnyAnswers, DistinctNames, ValidKey;
  }

  lemma ApexKeyGood(query: Bytes, params: ZoneParams, qname: Labels)
    requires AsksName(query, qname) && ValidParams(params) && params.dnssec.Some?
    ensures GoodSections(Sections([DnskeyRr(params.dnssec.value)], [], []), qname)
    ensures GoodSections(Sections([CdsRr(params.dnssec.value, params.zone)], [], []), qname)
    ensures GoodSections(Sections([CdnskeyRr(params.dnssec.value)], [], []), qname)
    ensures GoodSections(Sections([NsecRr(query, ApexTypes(params), params)], [], []), qname)
  {
    hide GoodSections, ApexTypes, ValidParams, DnskeyRr, CdsRr, CdnskeyRr, NsecRr, Asks, ValidName;
    KeysGood(params.dnssec.value, params, qname);
    OneAnswerGood(DnskeyRr(params.dnssec.value), qname);
    OneAnswerGood(CdsRr(params.dnssec.value, params.zone), qname);
    OneAnswerGood(CdnskeyRr(params.dnssec.value), qname);
    ApexTypesSmall(params);
    NsecGood(query, ApexTypes(params), params, qname);
    OneAnswerGood(NsecRr(query, ApexTypes(params), params), qname);
  }

  lemma ApexPlainGood(params: ZoneParams, qname: Labels)
    requires ValidName(qname)
    ensures GoodSections(Sections([ARr(Question, params.glueIp)], [], []), qname)
    ensures params.glueIp6.Some? ==> GoodSections(Sections([AaaaRr(Question, params.glueIp6.value)], [], []), qname)
    ensures params.spf.Some? ==> GoodSections(TxtSections(params.spf.value), qname)
  {
    hide GoodSections;
    PlainGood(ARr(Question, params.glueIp), qname);
    OneAnswerGood(ARr(Question, params.glueIp), qname);
    if params.glueIp6.Some? {
      PlainGood(AaaaRr(Question, params.glueIp6.value), qname);
      OneAnswerGood(AaaaRr(Question, params.glueIp6.value), qname);
    }
    if params.spf.Some? {
      TxtGood(params.spf.value, qname);
      OneAnswerGood(TxtRr(params.spf.value), qname);
    }
  }

  lemma AddressListGood(a: seq<Rr>, aaaa: seq<Rr>, qname: Labels)
    requires |a| <= 1 && |aaaa| <= 1
    requires forall rr | rr in a :: Good(rr, qname) && rr.typ == TYPE_A
    requires forall rr | rr in aaaa :: Good(rr, qname) && rr.typ == TYPE_AAAA
    ensures GoodSections(Sections(a + aaaa, [], []), qname)
  {
    hide Good, Proper;
    GoodNone(qname);
    if a == [] {
      assert a + aaaa == aaaa;
      if aaaa != [] {
        assert aaaa == [aaaa[0]];
        GoodOne(aaaa[0], qname);
      }
    } else {
      assert a == [a[0]];
      GoodOne(a[0], qname);
      if aaaa == [] {
        assert a + aaaa == a;
      } else {
        assert aaaa == [aaaa[0]];
        AppendGood(a, aaaa[0], qname);
      }
    }
  }

  lemma AddressGood(query: Bytes, qtype: u16, ip: (Option<Ipv4>, Option<Ipv6>), params: ZoneParams, qname: Labels)
    requires AsksName(query, qname) && ValidParams(params)
    ensures GoodSections(AddressSections(query, qtype, ip, params), qname)
  {
    hide GoodSections, Good, Asks, ValidParams, NodataSections, QuestionSectionEnd, ValidName;
    var a := if ip.0.Some? && (qtype == TYPE_A || qtype == TYPE_ANY) then [ARr(Question, ip.0.value)] else [];
    var aaaa := if ip.1.Some? && (qtype == TYPE_AAAA || qtype == TYPE_ANY) then [AaaaRr(Question, ip.1.value)] else [];
    if a + aaaa == [] {
      NodataGood(query, AddressTypes(ip), params, qname);
    } else {
      forall rr | rr in a ensures Good(rr, qname) {
        PlainGood(rr, qname);
      }
      forall rr | rr in aaaa ensures Good(rr, qname) {
        PlainGood(rr, qname);
      }
      AddressListGood(a, aaaa, qname);
    }
  }
}
