/**
 A reference validator, written from sections 3.1.8.1, 6.2 and 6.3 of RFC 4034 and
 sections 5.3.1 and 5.3.2 of RFC 4035, and its agreement with the signer.
 */
module Validator {
  import opened Octets
  import opened Names
  import opened Zone
  import opened QueryReader
  import opened Dnssec
  import opened Message
  import opened Responses
  import opened RoundTrip
  import opened Rrsets
  import opened Emission
  import opened KeyTags
  import D = Decoder

  datatype Rrsig = Rrsig(
    typeCovered: u16, algorithm: byte, labels: byte, originalTtl: u32, expiration: u32, inception: u32,
    keyTag: u16, signer: Labels, signature: Bytes)

  /** The zone's DNSKEY RDATA and the library's signature check under it. */
  datatype Anchor = Anchor(zone: Labels, dnskey: Bytes, verify: (Bytes, Bytes) -> bool)

  /** RRSIG RDATA of section 3.1 of RFC 4034; its signer name is not compressed. */
  function ParseRrsig(rdata: Bytes): Option<Rrsig> {
    if |rdata| < 18 then None
    else
      var signer := D.DecodeName(rdata, 0, 18);
      if signer.None? then None
      else Some(Rrsig(U16At(rdata, 0), rdata[2], rdata[3], U32At(rdata, 4), U32At(rdata, 8), U32At(rdata, 12),
                      U16At(rdata, 16), signer.value.0, rdata[signer.value.1..]))
  }

  // ----- canonical forms -------------------------------------------------------

  predicate LeadingStar(name: Labels) { name != [] && name[0] == [STAR] }

  /** Labels without a leading asterisk (section 3.1.3 of RFC 4034). */
  function FqdnLabels(name: Labels): nat { if LeadingStar(name) then |name| - 1 else |name| }

  /** The owner name that was signed (section 5.3.2 of RFC 4035). */
  function SignedName(owner: Labels, labels: nat): Option<Labels> {
    var fqdn := LowerLabels(owner);
    if labels == FqdnLabels(fqdn) then Some(fqdn)
    else if labels < FqdnLabels(fqdn) then Some([[STAR]] + fqdn[|fqdn| - labels..])
    else None
  }

  /** How many domain names open the RDATA of a type whose names are lowercased. */
  function NamesIn(typ: u16): nat {
    if typ == TYPE_NS || typ == TYPE_NSEC then 1 else if typ == TYPE_SOA then 2 else 0
  }

  function LowerNames(n: nat, rdata: Bytes): Bytes {
    if n == 0 then rdata
    else
      var name := D.DecodeName(rdata, 0, 0);
      if name.None? then rdata
      else Wire(LowerLabels(name.value.0)) + LowerNames(n - 1, rdata[name.value.1..])
  }

  /** Section 6.2 of RFC 4034, for the types this server emits. */
  function CanonicalRdata(typ: u16, rdata: Bytes): Bytes { LowerNames(NamesIn(typ), rdata) }

  function CanonicalRdatas(typ: u16, rdatas: seq<Bytes>): seq<Bytes> {
    seq(|rdatas|, i requires 0 <= i < |rdatas| => CanonicalRdata(typ, rdatas[i]))
  }

  function Dedup(s: seq<Bytes>): seq<Bytes> {
    if |s| < 2 then s
    else if s[0] == s[1] then Dedup(s[1..])
    else [s[0]] + Dedup(s[1..])
  }

  /** `owner | type | class | TTL | RDATA length | RDATA` for each record. */
  function RrsForm(owner: Bytes, typ: u16, cls: u16, ttl: u32, rdatas: seq<Bytes>): Bytes {
    if rdatas == [] then []
    else
      owner + U16Bytes(typ) + U16Bytes(cls) + U32Bytes(ttl) + U16Bytes(|rdatas[0]| % 0x1_0000) + rdatas[0]
      + RrsForm(owner, typ, cls, ttl, rdatas[1..])
  }

  /** The octets a signature must cover: its own RDATA, then the RRset in canonical form. */
  function SignedData(section: seq<D.Record>, r: D.Record, sig: Rrsig): Option<Bytes> {
    var name := SignedName(r.name, sig.labels);
    if name.None? then None
    else
      var rdatas := RdatasOf(section, LowerLabels(r.name), sig.typeCovered, r.cls);
      Some(U16Bytes(sig.typeCovered) + [sig.algorithm, sig.labels] + U32Bytes(sig.originalTtl) + U32Bytes(sig.expiration)
           + U32Bytes(sig.inception) + U16Bytes(sig.keyTag) + Wire(LowerLabels(sig.signer))
           + RrsForm(Wire(name.value), sig.typeCovered, r.cls, sig.originalTtl,
                     Dedup(Sort(CanonicalRdatas(sig.typeCovered, rdatas)))))
  }

  // ----- the checks of section 5.3.1 of RFC 4035 -------------------------------

  /** Serial number order (RFC 1982), in which section 3.1.5 of RFC 4034 compares times. */
  predicate SerialLeq(a: u32, b: u32) { (b - a) % 0x1_0000_0000 < 0x8000_0000 }

  /** A short span of time holds in serial order what it holds as numbers. */
  lemma SerialSpan(first: u32, last: u32, t: u32)
    requires first <= last < first + 0x4000_0000
    ensures SerialLeq(first, t) && SerialLeq(t, last) <==> first <= t <= last
  {
    if t < first {
      Wraps(first - t);
    } else if t > last {
      Wraps(t - last);
    }
  }

  lemma Wraps(n: u32)
    requires n > 0
    ensures (0 - n as int) % 0x1_0000_0000 == 0x1_0000_0000 - n as int
  {
  }

  ghost predicate Acceptable(sig: Rrsig, owner: Labels, anchor: Anchor, now: u32) {
    && LowerLabels(sig.signer) == LowerLabels(anchor.zone)
    && HasLabelSuffix(owner, anchor.zone)
    && SerialLeq(sig.inception, now) && SerialLeq(now, sig.expiration)
    && |anchor.dnskey| >= 4
    && sig.algorithm == anchor.dnskey[3] && anchor.dnskey[2] == 3
    && anchor.dnskey[0] % 2 == 1
    && sig.keyTag == ValidatorTag(anchor.dnskey)
  }

  /** The RRSIG record `r` authenticates the RRset it covers within its section. */
  ghost predicate Authentic(section: seq<D.Record>, r: D.Record, anchor: Anchor, now: u32) {
    var sig := ParseRrsig(r.rdata);
    && r.typ == TYPE_RRSIG && sig.Some?
    && Acceptable(sig.value, r.name, anchor, now)
    && RdatasOf(section, LowerLabels(r.name), sig.value.typeCovered, r.cls) != []
    && SignedData(section, r, sig.value).Some?
    && anchor.verify(SignedData(section, r, sig.value).value, sig.value.signature)
  }

  /** `r` belongs to the RRset that the signature `s` covers: same owner, class and TTL, the type
      covered, and the original TTL (section 3 of RFC 4034). */
  ghost predicate CoveredBy(r: D.Record, s: D.Record) {
    && s.typ == TYPE_RRSIG && ParseRrsig(s.rdata).Some? && ParseRrsig(s.rdata).value.typeCovered == r.typ
    && LowerLabels(s.name) == LowerLabels(r.name) && s.cls == r.cls
    && s.ttl == r.ttl && ParseRrsig(s.rdata).value.originalTtl == r.ttl
  }

  /** The validity that a signature made at `now` should have: from an hour before to seven days
      after, as far as 32 bits hold it. */
  predicate TimedFor(sig: Rrsig, now: u32) {
    && sig.inception as int == (if now < 3600 then 0 else now as int - 3600)
    && sig.expiration as int == (if now as int + 604800 > 4294967295 then 4294967295 else now as int + 604800)
  }

  /** A signature made at `now` names its validity, and at time `t` it is good exactly within that
      validity, if its owner is in the zone and has no leading asterisk. */
  ghost predicate Sound(section: seq<D.Record>, s: D.Record, anchor: Anchor, now: u32, t: u32) {
    && ParseRrsig(s.rdata).Some? && TimedFor(ParseRrsig(s.rdata).value, now)
    && (Authentic(section, s, anchor, t)
        <==> !LeadingStar(s.name) && HasLabelSuffix(s.name, anchor.zone) && now - 3600 <= t <= now + 604800)
  }

  // ----- the signer's side -----------------------------------------------------

  /** The key signs for the zone and its signatures verify. */
  ghost predicate SignsFor(params: ZoneParams, anchor: Anchor) {
    && params.Sign() && ValidKey(params.dnssec.value)
    && anchor.zone == TextLabels(params.zone) && ValidName(anchor.zone)
    && anchor.dnskey == params.dnssec.value.dnskeyRdata
    && forall m :: anchor.verify(m, params.dnssec.value.sign(m))
  }

  lemma RrsFormIsSigned(owner: Bytes, typ: u16, ttl: u32, rdatas: seq<Bytes>)
    ensures RrsForm(owner, typ, CLASS_IN, ttl, rdatas) == SignedRrs(owner, typ, ttl, rdatas)
  {
    if rdatas != [] {
      RrsFormIsSigned(owner, typ, ttl, rdatas[1..]);
    }
  }

  lemma LabelsBound(labels: Labels)
    requires ValidLabels(labels)
    ensures |Wire(labels)| >= 2 * |labels| + 1
  {
    if labels != [] {
      assert labels[0] in labels;
      assert forall l | l in labels[1..] :: l in labels;
      LabelsBound(labels[1..]);
      WireUnfold(labels);
    }
  }

  lemma OwnerWireIs(query: Bytes, qname: Labels, owner: Owner)
    requires Asks(query, qname) && QuestionSectionEnd(query).Some?
    ensures OwnerCanonicalWire(query, owner) == Wire(LowerLabels(OwnerLabels(qname, owner)))
  {
    match owner {
      case Question =>
        QuestionEndAt(query, qname);
        AskedLabels(query, qname);
        LowerWireOfWire(qname);
      case Name(name) => LowerLabelsIdempotent(TextLabels(name));
    }
  }

  lemma LabelsOfOwner(name: Labels)
    requires ValidName(name)
    ensures Min(255, LabelsBeforeRoot(Wire(LowerLabels(name)))) == |name|
    ensures |LowerLabels(name)| == |name|
  {
    WireLower(name);
    LowerWireOfWire(LowerLabels(name));
    LabelsBound(name);
  }

  lemma DropPrefix(a: Bytes, b: Bytes)
    ensures (a + b)[|a|..] == b
  {
  }

  lemma SignerAt(rdata: Bytes, pos: nat, zone: Labels, signature: Bytes)
    requires ValidName(zone)
    requires At(rdata, pos, Wire(zone) + signature) && |rdata| == pos + |Wire(zone) + signature|
    ensures pos + |Wire(zone)| <= |rdata|
    ensures D.DecodeName(rdata, 0, pos) == Some((zone, pos + |Wire(zone)|))
    ensures rdata[pos + |Wire(zone)|..] == signature
  {
    hide Wire, D.DecodeName, ValidLabels;
    AtConcat(rdata, pos, Wire(zone), signature);
    D.NameDecodes(rdata, 0, pos, zone);
  }

  function FixedFieldsOf(typ: u16, labels: byte, ttl: u32, expiration: u32, inception: u32, tag: u16): Bytes {
    U16Bytes(typ) + [ALG_ECDSAP256SHA256, labels] + U32Bytes(ttl) + U32Bytes(expiration) + U32Bytes(inception) + U16Bytes(tag)
  }

  /** A signature's RDATA reads back field by field. */
  lemma RrsigReadsBack(key: DnssecKey, owner: Labels, labels: byte, typ: u16, ttl: u32, rdatas: seq<Bytes>, signer: Bytes, now: u32)
    requires ValidName(owner) && labels == |owner| && ValidName(TextLabels(signer))
    ensures var wire := Wire(LowerLabels(owner));
            var prefix := RrsigPrefix(key, wire, typ, ttl, signer, now);
            ParseRrsig(RrsigRdata(key, wire, typ, ttl, rdatas, signer, now))
            == Some(Rrsig(typ, 13, labels, ttl,
                          if now as int + 604800 > 4294967295 then 4294967295 else now as int + 604800,
                          if now < 3600 then 0 else now as int - 3600,
                          key.keyTag, LowerLabels(TextLabels(signer)), key.sign(prefix + SignedRrs(wire, typ, ttl, rdatas))))
  {
    hide Expiration, Inception;
    LabelsOfOwner(owner);
    SevenDays(now);
    var wire := Wire(LowerLabels(owner));
    var zone := LowerLabels(TextLabels(signer));
    hide SignedRrs, LabelsBeforeRoot, ValidLabels, TextLabels, LowerLabels, ParseRrsig;
    WireLower(TextLabels(signer));
    var fixed := FixedFieldsOf(typ, labels, ttl, Expiration(now), Inception(now), key.keyTag);
    assert RrsigPrefix(key, wire, typ, ttl, signer, now) == fixed + Wire(zone);
    hide Wire, RrsigPrefix, FixedFieldsOf;
    var signature := key.sign(fixed + Wire(zone) + SignedRrs(wire, typ, ttl, rdatas));
    assert fixed + Wire(zone) + signature == fixed + (Wire(zone) + signature);
    ParseWritten(typ, labels, ttl, Expiration(now), Inception(now), key.keyTag, zone, signature);
  }

  lemma SevenDays(now: u32)
    ensures Expiration(now) == if now as int + 604800 > 4294967295 then 4294967295 else now as int + 604800
    ensures Inception(now) == if now < 3600 then 0 else now as int - 3600
  {
  }

  lemma ParseWritten(typ: u16, labels: byte, ttl: u32, expiration: u32, inception: u32, tag: u16, zone: Labels, signature: Bytes)
    requires ValidName(zone)
    ensures ParseRrsig(FixedFieldsOf(typ, labels, ttl, expiration, inception, tag) + (Wire(zone) + signature))
         == Some(Rrsig(typ, ALG_ECDSAP256SHA256, labels, ttl, expiration, inception, tag, zone, signature))
  {
    hide FixedFieldsOf, U16At, U32At, D.DecodeName, Wire, ValidName, At;
    var fixed, tail := FixedFieldsOf(typ, labels, ttl, expiration, inception, tag), Wire(zone) + signature;
    FixedLength(typ, labels, ttl, expiration, inception, tag);
    AtSuffix(fixed, tail);
    SignerAt(fixed + tail, 18, zone, signature);
    FixedRrsig(fixed, tail, typ, labels, ttl, expiration, inception, tag);
  }

  lemma FixedLength(typ: u16, labels: byte, ttl: u32, expiration: u32, inception: u32, tag: u16)
    ensures |FixedFieldsOf(typ, labels, ttl, expiration, inception, tag)| == 18
  {
  }

  lemma FixedRrsig(fixed: Bytes, tail: Bytes, typ: u16, labels: byte, ttl: u32, expiration: u32, inception: u32, tag: u16)
    requires fixed == FixedFieldsOf(typ, labels, ttl, expiration, inception, tag)
    ensures var rdata := fixed + tail;
            && |rdata| >= 18
            && U16At(rdata, 0) == typ && rdata[2] == ALG_ECDSAP256SHA256 && rdata[3] == labels && U32At(rdata, 4) == ttl
            && U32At(rdata, 8) == expiration && U32At(rdata, 12) == inception && U16At(rdata, 16) == tag
  {
    assert forall i | 0 <= i < 18 :: (fixed + tail)[i] == fixed[i];
  }

  // ----- canonical RDATA of what the server writes -----------------------------

  /** The record's RDATA is already in canonical form. */
  ghost predicate CanonicalAlready(rr: Rr) { CanonicalRdata(rr.typ, rr.rdata) == rr.rdata }

  /** A lowercase name in front of other RDATA stays as it is. */
  lemma LowerNamesKeeps(n: nat, labels: Labels, rest: Bytes)
    requires ValidLabels(labels) && LowerLabels(labels) == labels
    requires LowerNames(n, rest) == rest
    ensures LowerNames(n + 1, Wire(labels) + rest) == Wire(labels) + rest
  {
    var rdata := Wire(labels) + rest;
    assert At(rdata, 0, Wire(labels));
    D.NameDecodes(rdata, 0, 0, labels);
    DropPrefix(Wire(labels), rest);
    hide Wire, D.DecodeName, LowerLabels;
  }

  lemma EncodedKeeps(n: nat, name: Bytes, rest: Bytes)
    requires ValidLabels(TextLabels(name)) && LowerNames(n, rest) == rest
    ensures LowerNames(n + 1, Encode(name) + rest) == Encode(name) + rest
  {
    WireLower(TextLabels(name));
    LowerLabelsIdempotent(TextLabels(name));
    hide *;
    LowerNamesKeeps(n, LowerLabels(TextLabels(name)), rest);
    assert Encode(name) == Wire(LowerLabels(TextLabels(name))) by { EncodeIs(name); }
  }

  lemma EncodeIs(name: Bytes)
    ensures Encode(name) == Wire(LowerLabels(TextLabels(name)))
  {
  }

  // ----- duplicates ------------------------------------------------------------

  lemma {:induction false} SortedDistinct(s: seq<Bytes>)
    requires forall i | 0 <= i < |s| - 1 :: s[i] != s[i + 1]
    ensures Dedup(s) == s
  {
    if |s| >= 2 {
      assert s[0] != s[0 + 1];
      forall i | 0 <= i < |s[1..]| - 1 ensures s[1..][i] != s[1..][i + 1] {
        assert s[i + 1] != s[i + 1 + 1];
      }
      SortedDistinct(s[1..]);
    }
  }

  lemma {:induction false} DistinctOnce(s: seq<Bytes>, x: Bytes)
    requires forall i, j | 0 <= i < j < |s| :: s[i] != s[j]
    ensures multiset(s)[x] <= 1
  {
    if s != [] {
      var n := |s| - 1;
      assert s == s[..n] + [s[n]];
      DistinctOnce(s[..n], x);
    }
  }

  lemma EqualNeighbours(t: seq<Bytes>, i: nat)
    requires i + 1 < |t| && t[i] == t[i + 1]
    ensures multiset(t)[t[i]] >= 2
  {
    var a, b, c := t[..i], t[i..i + 2], t[i + 2..];
    assert t == a + b + c;
    assert b == [t[i], t[i]];
    hide *;
    assert multiset(b)[t[i]] == 2;
    assert multiset(t) == multiset(a) + multiset(b) + multiset(c);
  }

  /** Sorting distinct RDATA leaves nothing to drop. */
  lemma DedupSorted(s: seq<Bytes>)
    requires forall i, j | 0 <= i < j < |s| :: s[i] != s[j]
    ensures Dedup(Sort(s)) == Sort(s)
  {
    hide Sort, Dedup;
    var t := Sort(s);
    forall i | 0 <= i < |t| - 1 ensures t[i] != t[i + 1] {
      if t[i] == t[i + 1] {
        EqualNeighbours(t, i);
        DistinctOnce(s, t[i]);
      }
    }
    SortedDistinct(t);
  }

  // ----- agreement -------------------------------------------------------------

  /** Records a validator can check: canonical RDATA under an owner that is a legal name. */
  ghost predicate Checkable(rr: Rr, qname: Labels) {
    CanonicalAlready(rr) && ValidName(OwnerLabels(qname, rr.owner)) && rr.typ != TYPE_OPT
  }

  /** A section as read: the emitted records, then at most an OPT record. */
  ghost predicate SectionOf(section: seq<D.Record>, rrs: seq<Rr>, query: Bytes, params: ZoneParams, qname: Labels)
    requires QuestionSectionEnd(query).Some?
  {
    && ToRecords(qname, Emitted(rrs, query, params)) <= section
    && forall i | |Emitted(rrs, query, params)| <= i < |section| :: section[i].typ == TYPE_OPT
  }

  lemma {:induction false} RdatasOfNone(section: seq<D.Record>, name: Labels, typ: u16, cls: u16)
    requires forall i | 0 <= i < |section| :: section[i].typ != typ
    ensures RdatasOf(section, name, typ, cls) == []
  {
    if section != [] {
      assert section[0].typ != typ;
      forall i | 0 <= i < |section[1..]| ensures section[1..][i].typ != typ {
        assert section[1..][i] == section[i + 1];
      }
      RdatasOfNone(section[1..], name, typ, cls);
    }
  }

  /** In a proper section a reader finds each RRset whole and sorted. */
  lemma SectionRdatas(section: seq<D.Record>, rrs: seq<Rr>, query: Bytes, params: ZoneParams, qname: Labels, k: nat)
    requires QuestionSectionEnd(query).Some? && Proper(rrs, qname) && SectionOf(section, rrs, query, params, qname)
    requires k < |Groups(rrs)| && Groups(rrs)[k][0].typ != TYPE_OPT
    ensures RdatasOf(section, LowerLabels(OwnerLabels(qname, Groups(rrs)[k][0].owner)), Groups(rrs)[k][0].typ, CLASS_IN)
         == Sort(Rdatas(Groups(rrs)[k]))
  {
    GroupsAreRrsets(rrs, qname);
    var groups := Groups(rrs);
    assert ProperGroup(groups[k], qname) by { assert groups[k] in groups; }
    var name, typ := LowerLabels(OwnerLabels(qname, groups[k][0].owner)), groups[k][0].typ;
    RdatasOfGroups(groups, query, params, qname, k);
    assert Key(qname, groups[k][0]).0 == name;
    assert Emitted(rrs, query, params) == EmittedGroups(groups, query, params);
    var records := ToRecords(qname, Emitted(rrs, query, params));
    assert |records| == |Emitted(rrs, query, params)|;
    hide *;
    RdatasOfExtended(section, records, name, typ);
  }

  lemma RdatasOfExtended(section: seq<D.Record>, records: seq<D.Record>, name: Labels, typ: u16)
    requires records <= section && typ != TYPE_OPT
    requires forall i | |records| <= i < |section| :: section[i].typ == TYPE_OPT
    ensures RdatasOf(section, name, typ, CLASS_IN) == RdatasOf(records, name, typ, CLASS_IN)
  {
    var extra := section[|records|..];
    assert section == records + extra;
    RdatasOfConcat(records, extra, name, typ, CLASS_IN);
    forall i | 0 <= i < |extra| ensures extra[i].typ != typ {
      assert extra[i] == section[|records| + i];
    }
    RdatasOfNone(extra, name, typ, CLASS_IN);
  }

  lemma CanonicalGroup(g: Group, rrs: seq<Rr>, qname: Labels)
    requires ProperGroup(g, qname) && (forall rr | rr in g :: rr in rrs) && forall rr | rr in rrs :: Checkable(rr, qname)
    ensures Dedup(Sort(CanonicalRdatas(g[0].typ, Sort(Rdatas(g))))) == Sort(Rdatas(g))
  {
    var rdatas := Rdatas(g);
    var sorted := Sort(rdatas);
    hide Sort, Dedup, CanonicalRdata;
    forall i | 0 <= i < |sorted| ensures CanonicalRdata(g[0].typ, sorted[i]) == sorted[i] {
      assert sorted[i] in multiset(rdatas);
      var j :| 0 <= j < |g| && rdatas[j] == sorted[i];
      assert g[j] in rrs && Checkable(g[j], qname);
    }
    assert CanonicalRdatas(g[0].typ, sorted) == sorted;
    SortedUnique(Sort(sorted), sorted);
    DedupSorted(rdatas);
  }

  lemma StarSurvivesCase(name: Labels)
    ensures LeadingStar(LowerLabels(name)) <==> LeadingStar(name)
  {
    if name != [] {
      assert LowerLabels(name)[0] == LowerAll(name[0]);
      if |name[0]| == 1 {
        assert LowerAll(name[0])[0] == Lower(name[0][0]);
        assert LowerAll(name[0]) == [Lower(name[0][0])];
      }
    }
  }

  /** The parsed form of a group's signature. */
  ghost function GroupSig(g: Group, qname: Labels, params: ZoneParams): Rrsig
    requires params.dnssec.Some? && |OwnerLabels(qname, g[0].owner)| <= 255
  {
    var key := params.dnssec.value;
    var owner := OwnerLabels(qname, g[0].owner);
    Rrsig(g[0].typ, ALG_ECDSAP256SHA256, |owner|, g[0].ttl, Expiration(params.now), Inception(params.now), key.keyTag,
          LowerLabels(TextLabels(params.zone)), key.sign(ToSign(g, qname, params)))
  }

  /** The octets the signer hands to the key. */
  ghost function ToSign(g: Group, qname: Labels, params: ZoneParams): Bytes
    requires params.dnssec.Some?
  {
    var wire := Wire(LowerLabels(OwnerLabels(qname, g[0].owner)));
    RrsigPrefix(params.dnssec.value, wire, g[0].typ, g[0].ttl, params.zone, params.now)
    + SignedRrs(wire, g[0].typ, g[0].ttl, Sort(Rdatas(g)))
  }

  lemma GroupSigTimed(g: Group, qname: Labels, params: ZoneParams)
    requires params.dnssec.Some? && |OwnerLabels(qname, g[0].owner)| <= 255
    ensures TimedFor(GroupSig(g, qname, params), params.now)
  {
    hide OwnerLabels, ToSign, LowerLabels, TextLabels;
  }

  lemma GroupSigReads(g: Group, query: Bytes, params: ZoneParams, qname: Labels)
    requires Asks(query, qname) && QuestionSectionEnd(query).Some? && params.dnssec.Some?
    requires ValidName(OwnerLabels(qname, g[0].owner)) && ValidName(TextLabels(params.zone))
    ensures |OwnerLabels(qname, g[0].owner)| <= 255
    ensures ParseRrsig(ToRecord(qname, GroupRrsig(g, query, params)).rdata) == Some(GroupSig(g, qname, params))
  {
    var owner := OwnerLabels(qname, g[0].owner);
    LabelsBound(owner);
    OwnerWireIs(query, qname, g[0].owner);
    hide LowerLabels, TextLabels, OwnerLabels, Wire, ValidLabels, Sort, Rdatas, RrsigPrefix, SignedRrs, RrsigRdata,
      ParseRrsig, OwnerCanonicalWire, Asks, QuestionSectionEnd, Expiration, Inception;
    RrsigReadsBack(params.dnssec.value, owner, |owner|, g[0].typ, g[0].ttl, Sort(Rdatas(g)), params.zone, params.now);
  }

  /** Byte for byte, the validator rebuilds what was signed, unless the owner begins with an asterisk. */
  lemma SignedDataAgrees(g: Group, section: seq<D.Record>, r: D.Record, qname: Labels, params: ZoneParams)
    requires params.dnssec.Some? && ValidName(OwnerLabels(qname, g[0].owner))
    requires |OwnerLabels(qname, g[0].owner)| <= 255
    requires r.name == OwnerLabels(qname, g[0].owner) && r.cls == CLASS_IN
    requires RdatasOf(section, LowerLabels(r.name), g[0].typ, CLASS_IN) == Sort(Rdatas(g))
    requires Dedup(Sort(CanonicalRdatas(g[0].typ, Sort(Rdatas(g))))) == Sort(Rdatas(g))
    ensures SignedData(section, r, GroupSig(g, qname, params))
         == if LeadingStar(r.name) then None else Some(ToSign(g, qname, params))
  {
    var sorted, wire := Sort(Rdatas(g)), Wire(LowerLabels(r.name));
    StarSurvivesCase(r.name);
    LabelsOfOwner(r.name);
    RrsFormIsSigned(wire, g[0].typ, g[0].ttl, sorted);
    LowerLabelsIdempotent(TextLabels(params.zone));
    hide Sort, Rdatas, Dedup, CanonicalRdatas, RdatasOf, OwnerLabels, LeadingStar, LowerLabels, RrsForm, SignedRrs,
      ValidLabels, TextLabels, LabelsBeforeRoot, Wire, U16Bytes, U32Bytes, Expiration, Inception;
  }

  /** A group's signature is accepted exactly from an hour before it was made to seven days after,
      and when its owner lies in the zone and does not begin with an asterisk. */
  lemma GroupAuthentic(rrs: seq<Rr>, k: nat, section: seq<D.Record>, query: Bytes, params: ZoneParams, qname: Labels, anchor: Anchor, t: u32)
    requires Asks(query, qname) && QuestionSectionEnd(query).Some? && SignsFor(params, anchor)
    requires Proper(rrs, qname) && (forall rr | rr in rrs :: Checkable(rr, qname)) && SectionOf(section, rrs, query, params, qname)
    requires k < |Groups(rrs)|
    ensures var r := ToRecord(qname, GroupRrsig(Groups(rrs)[k], query, params));
            Sound(section, r, anchor, params.now, t)
  {
    GroupsAreRrsets(rrs, qname);
    var g := Groups(rrs)[k];
    assert g in Groups(rrs) && g[0] in g;
    assert Checkable(g[0], qname);
    var r := ToRecord(qname, GroupRrsig(g, query, params));
    RrsigType(g, query, params);
    GroupSigReads(g, query, params, qname);
    SectionRdatas(section, rrs, query, params, qname, k);
    CanonicalGroup(g, rrs, qname);
    SignedDataAgrees(g, section, r, qname, params);
    LowerLabelsIdempotent(TextLabels(params.zone));
    GroupSigTimed(g, qname, params);
    AcceptableSig(GroupSig(g, qname, params), r.name, params, anchor, t);
    assert |Sort(Rdatas(g))| == |multiset(Rdatas(g))| == |g|;
    hide Groups, GroupRrsig, Sort, Rdatas, SignedData, ParseRrsig, RdatasOf, LeadingStar, HasLabelSuffix, Acceptable,
      TimedFor, LowerLabels, OwnerLabels, TextLabels, ToSign, Asks, QuestionSectionEnd, Proper, ProperGroup, Checkable, SectionOf,
      ValidName, ValidKey, DistinctGroups;
  }

  lemma AcceptableSig(sig: Rrsig, owner: Labels, params: ZoneParams, anchor: Anchor, t: u32)
    requires SignsFor(params, anchor) && TimedFor(sig, params.now)
    requires sig.signer == LowerLabels(TextLabels(params.zone)) && sig.algorithm == ALG_ECDSAP256SHA256
    requires sig.keyTag == params.dnssec.value.keyTag
    ensures Acceptable(sig, owner, anchor, t)
       <==> HasLabelSuffix(owner, anchor.zone) && params.now - 3600 <= t <= params.now + 604800
  {
    LowerLabelsIdempotent(TextLabels(params.zone));
    TagsAgree(anchor.dnskey);
    SerialSpan(sig.inception, sig.expiration, t);
    var key := anchor.dnskey;
    assert key[0] == key[..4][0] && key[2] == key[..4][2] && key[3] == key[..4][3];
    hide LowerLabels, TextLabels, KeyTagOf, ValidatorTag, HasLabelSuffix, ValidName, SerialLeq;
  }

  /** Of the emitted records, number `j` is the signature of group `k`, and number `i` is
      that signature or a record of the group's owner and type, both with the group's TTL. */
  ghost predicate SignedAt(groups: seq<Group>, query: Bytes, params: ZoneParams, i: nat, j: nat, k: nat)
    requires QuestionSectionEnd(query).Some? && params.dnssec.Some?
  {
    var emitted := EmittedGroups(groups, query, params);
    && k < |groups| && i < |emitted| && j < |emitted| && emitted[j] == GroupRrsig(groups[k], query, params)
    && emitted[i].owner == groups[k][0].owner && emitted[i].ttl == groups[k][0].ttl
    && (emitted[i].typ == groups[k][0].typ || (emitted[i].typ == TYPE_RRSIG && emitted[i] == emitted[j]))
  }

  ghost predicate NoSignatures(groups: seq<Group>) { forall k | 0 <= k < |groups| :: groups[k][0].typ != TYPE_RRSIG }

  lemma OwnRecords(g: Group, query: Bytes, params: ZoneParams, i: nat)
    requires QuestionSectionEnd(query).Some? && params.Sign() && g[0].typ != TYPE_RRSIG
    requires i < |EmittedGroup(g, query, params)|
    ensures var emitted, sig := EmittedGroup(g, query, params), GroupRrsig(g, query, params);
            && emitted[|emitted| - 1] == sig && emitted[i].owner == g[0].owner && emitted[i].ttl == g[0].ttl
            && (emitted[i].typ == g[0].typ || (emitted[i].typ == TYPE_RRSIG && emitted[i] == sig))
  {
    hide Sort, Rdatas, GroupRrsig, QuestionSectionEnd;
    RrsigType(g, query, params);
    RrsigTtl(g, query, params);
  }

  lemma RrsigTtl(g: Group, query: Bytes, params: ZoneParams)
    requires QuestionSectionEnd(query).Some? && params.dnssec.Some?
    ensures GroupRrsig(g, query, params).ttl == g[0].ttl
  {
    hide Sort, Rdatas, RrsigRdata, QuestionSectionEnd;
  }

  lemma OwnSignature(groups: seq<Group>, query: Bytes, params: ZoneParams, i: nat)
    requires QuestionSectionEnd(query).Some? && params.Sign() && groups != [] && NoSignatures(groups)
    requires i < |EmittedGroup(groups[0], query, params)|
    ensures SignedAt(groups, query, params, i, |EmittedGroup(groups[0], query, params)| - 1, 0)
  {
    hide EmittedGroup, EmittedGroups, GroupRrsig, QuestionSectionEnd;
    var first, rest := groups[0], groups[1..];
    assert groups == [first] + rest;
    OwnRecords(first, query, params, i);
    EmittedCons(groups, first, rest, query, params);
  }

  lemma LaterSignature(groups: seq<Group>, first: Group, rest: seq<Group>, query: Bytes, params: ZoneParams, i: nat, j: nat, k: nat)
    requires QuestionSectionEnd(query).Some? && params.dnssec.Some? && groups == [first] + rest
    requires SignedAt(rest, query, params, i, j, k)
    ensures var n := |EmittedGroup(first, query, params)|;
            SignedAt(groups, query, params, i + n, j + n, k + 1)
  {
    hide EmittedGroup, GroupRrsig, QuestionSectionEnd;
    var a, b := EmittedGroup(first, query, params), EmittedGroups(rest, query, params);
    EmittedCons(groups, first, rest, query, params);
    hide EmittedGroups;
    assert (a + b)[i + |a|] == b[i] && (a + b)[j + |a|] == b[j];
    assert groups[k + 1] == rest[k];
  }

  lemma EmittedCons(groups: seq<Group>, first: Group, rest: seq<Group>, query: Bytes, params: ZoneParams)
    requires QuestionSectionEnd(query).Some? && groups == [first] + rest
    ensures EmittedGroups(groups, query, params) == EmittedGroup(first, query, params) + EmittedGroups(rest, query, params)
    ensures NoSignatures(groups) ==> NoSignatures(rest)
  {
    hide EmittedGroup, QuestionSectionEnd;
    assert groups[1..] == rest;
    forall k | 0 <= k < |rest| ensures rest[k] == groups[k + 1] {
    }
  }

  lemma NothingEmitted(query: Bytes, params: ZoneParams)
    requires QuestionSectionEnd(query).Some?
    ensures EmittedGroups([], query, params) == []
  {
  }

  /** Every emitted record is an RRset member with its signature, or such a signature. */
  lemma {:induction false} SignaturesAreGroups(groups: seq<Group>, query: Bytes, params: ZoneParams, i: nat) returns (j: nat, k: nat)
    requires QuestionSectionEnd(query).Some? && params.Sign() && NoSignatures(groups)
    requires i < |EmittedGroups(groups, query, params)|
    ensures SignedAt(groups, query, params, i, j, k)
    decreases |groups|
  {
    hide EmittedGroup, EmittedGroups, SignedAt, NoSignatures, QuestionSectionEnd;
    NothingEmitted(query, params);
    var first, rest := groups[0], groups[1..];
    assert groups == [first] + rest;
    EmittedCons(groups, first, rest, query, params);
    var n := |EmittedGroup(first, query, params)|;
    if i < n {
      OwnSignature(groups, query, params, i);
      j, k := n - 1, 0;
    } else {
      j, k := SignaturesAreGroups(rest, query, params, i - n);
      LaterSignature(groups, first, rest, query, params, i - n, j, k);
      j, k := j + n, k + 1;
    }
  }

  /** What a validator finds in a section signed at `now`: every RRset is covered by a signature,
      and every signature is sound. */
  ghost predicate ValidatesAt(section: seq<D.Record>, anchor: Anchor, now: u32, t: u32) {
    && (forall s | s in section && s.typ == TYPE_RRSIG :: Sound(section, s, anchor, now, t))
    && (forall r | r in section && r.typ != TYPE_RRSIG && r.typ != TYPE_OPT :: exists s :: s in section && CoveredBy(r, s))
  }

  lemma SectionValidates(rrs: seq<Rr>, section: seq<D.Record>, query: Bytes, params: ZoneParams, qname: Labels, anchor: Anchor, t: u32)
    requires Asks(query, qname) && QuestionSectionEnd(query).Some? && SignsFor(params, anchor)
    requires Proper(rrs, qname) && (forall rr | rr in rrs :: Checkable(rr, qname)) && SectionOf(section, rrs, query, params, qname)
    ensures ValidatesAt(section, anchor, params.now, t)
  {
    forall i | 0 <= i < |section|
      ensures section[i].typ == TYPE_RRSIG ==> Sound(section, section[i], anchor, params.now, t)
      ensures section[i].typ != TYPE_RRSIG && section[i].typ != TYPE_OPT ==> exists s :: s in section && CoveredBy(section[i], s)
    {
      if section[i].typ != TYPE_OPT {
        RecordValidates(rrs, section, query, params, qname, anchor, t, i);
      }
    }
    hide *;
    assert ValidatesAt(section, anchor, params.now, t) by { Validates(section, anchor, params.now, t); }
  }

  lemma Validates(section: seq<D.Record>, anchor: Anchor, now: u32, t: u32)
    requires forall i | 0 <= i < |section| && section[i].typ == TYPE_RRSIG :: Sound(section, section[i], anchor, now, t)
    requires forall i | 0 <= i < |section| && section[i].typ != TYPE_RRSIG && section[i].typ != TYPE_OPT ::
        exists s :: s in section && CoveredBy(section[i], s)
    ensures ValidatesAt(section, anchor, now, t)
  {
    hide Sound, CoveredBy;
  }

  lemma RecordValidates(rrs: seq<Rr>, section: seq<D.Record>, query: Bytes, params: ZoneParams, qname: Labels, anchor: Anchor, t: u32, i: nat)
    requires Asks(query, qname) && QuestionSectionEnd(query).Some? && SignsFor(params, anchor)
    requires Proper(rrs, qname) && (forall rr | rr in rrs :: Checkable(rr, qname)) && SectionOf(section, rrs, query, params, qname)
    requires i < |section| && section[i].typ != TYPE_OPT
    ensures section[i].typ == TYPE_RRSIG ==> Sound(section, section[i], anchor, params.now, t)
    ensures section[i].typ != TYPE_RRSIG ==> exists s :: s in section && CoveredBy(section[i], s)
    ensures exists rr :: rr in rrs && section[i].name == OwnerLabels(qname, rr.owner)
  {
    hide Sound, CoveredBy, OwnerLabels, SectionOf, Proper, Checkable, Asks, QuestionSectionEnd,
      SignedAt, NoSignatures, GroupRrsig, EmittedGroups, Groups, ToRecord, ValidKey, ValidName, TextLabels;
    var groups, emitted := Groups(rrs), Emitted(rrs, query, params);
    GroupsAreProper(rrs, qname);
    SectionIndex(section, rrs, query, params, qname);
    var j, k := SignaturesAreGroups(groups, query, params, i);
    SignedAtMeans(emitted, groups, query, params, qname, i, j, k);
    assert groups[k][0] in rrs && section[i].name == OwnerLabels(qname, groups[k][0].owner);
    if section[i].typ == TYPE_RRSIG {
      GroupAuthentic(rrs, k, section, query, params, qname, anchor, t);
    } else {
      GroupCovers(section[i], groups[k], query, params, qname);
      assert section[j] in section;
    }
  }

  lemma SectionIndex(section: seq<D.Record>, rrs: seq<Rr>, query: Bytes, params: ZoneParams, qname: Labels)
    requires QuestionSectionEnd(query).Some? && SectionOf(section, rrs, query, params, qname)
    ensures var emitted := Emitted(rrs, query, params);
            && |emitted| <= |section| && (forall i | 0 <= i < |emitted| :: section[i] == ToRecord(qname, emitted[i]))
            && (forall i | |emitted| <= i < |section| :: section[i].typ == TYPE_OPT)
  {
    hide Emitted, ToRecord, QuestionSectionEnd;
    var emitted := Emitted(rrs, query, params);
    assert forall i | 0 <= i < |emitted| :: section[i] == ToRecords(qname, emitted)[i];
  }

  lemma SignedAtMeans(emitted: seq<Rr>, groups: seq<Group>, query: Bytes, params: ZoneParams, qname: Labels, i: nat, j: nat, k: nat)
    requires QuestionSectionEnd(query).Some? && params.dnssec.Some? && SignedAt(groups, query, params, i, j, k)
    requires emitted == EmittedGroups(groups, query, params) && NoSignatures(groups)
    ensures k < |groups| && i < |emitted| && j < |emitted| && emitted[j] == GroupRrsig(groups[k], query, params)
    ensures ToRecord(qname, emitted[i]).typ == emitted[i].typ
    ensures ToRecord(qname, emitted[i]).name == OwnerLabels(qname, groups[k][0].owner)
    ensures ToRecord(qname, emitted[i]).cls == CLASS_IN && ToRecord(qname, emitted[i]).ttl == groups[k][0].ttl
    ensures if emitted[i].typ == TYPE_RRSIG then emitted[i] == emitted[j] else emitted[i].typ == groups[k][0].typ
  {
    assert groups[k][0].typ != TYPE_RRSIG;
    hide GroupRrsig, OwnerLabels, EmittedGroups;
  }

  lemma GroupsAreProper(rrs: seq<Rr>, qname: Labels)
    requires Proper(rrs, qname) && forall rr | rr in rrs :: Checkable(rr, qname)
    ensures NoSignatures(Groups(rrs))
    ensures forall k | 0 <= k < |Groups(rrs)| ::
        Groups(rrs)[k][0] in rrs && ValidName(OwnerLabels(qname, Groups(rrs)[k][0].owner))
  {
    GroupsAreRrsets(rrs, qname);
    var groups := Groups(rrs);
    forall k | 0 <= k < |groups|
      ensures groups[k][0].typ != TYPE_RRSIG && groups[k][0] in rrs && ValidName(OwnerLabels(qname, groups[k][0].owner))
    {
      assert groups[k] in groups && groups[k][0] in groups[k];
      assert Checkable(groups[k][0], qname);
    }
  }

  lemma GroupCovers(r: D.Record, g: Group, query: Bytes, params: ZoneParams, qname: Labels)
    requires Asks(query, qname) && QuestionSectionEnd(query).Some? && params.dnssec.Some?
    requires ValidName(OwnerLabels(qname, g[0].owner)) && ValidName(TextLabels(params.zone))
    requires r.typ == g[0].typ && r.name == OwnerLabels(qname, g[0].owner) && r.cls == CLASS_IN && r.ttl == g[0].ttl
    ensures CoveredBy(r, ToRecord(qname, GroupRrsig(g, query, params)))
  {
    GroupSigReads(g, query, params, qname);
    RrsigType(g, query, params);
    RrsigTtl(g, query, params);
    hide ParseRrsig, GroupRrsig, LowerLabels, OwnerLabels;
  }

  /** Every owner lies in the zone and none begins with an asterisk. */
  ghost predicate PlainOwners(rrs: seq<Rr>, qname: Labels, zone: Labels) {
    forall rr | rr in rrs ::
      !LeadingStar(OwnerLabels(qname, rr.owner)) && HasLabelSuffix(OwnerLabels(qname, rr.owner), zone)
  }

  ghost predicate SignaturesGood(section: seq<D.Record>, anchor: Anchor, t: u32) {
    forall s | s in section && s.typ == TYPE_RRSIG :: Authentic(section, s, anchor, t)
  }

  /** With plain owners, every signature of the section is good. */
  lemma AllAuthentic(rrs: seq<Rr>, section: seq<D.Record>, query: Bytes, params: ZoneParams, qname: Labels, anchor: Anchor, t: u32)
    requires Asks(query, qname) && QuestionSectionEnd(query).Some? && SignsFor(params, anchor)
    requires Proper(rrs, qname) && (forall rr | rr in rrs :: Checkable(rr, qname)) && SectionOf(section, rrs, query, params, qname)
    requires params.now - 3600 <= t <= params.now + 604800 && PlainOwners(rrs, qname, anchor.zone)
    ensures SignaturesGood(section, anchor, t)
  {
    forall i | 0 <= i < |section| && section[i].typ == TYPE_RRSIG ensures Authentic(section, section[i], anchor, t) {
      RecordValidates(rrs, section, query, params, qname, anchor, t, i);
      hide *;
      OwnerIsPlain(rrs, qname, anchor.zone, section[i].name);
      SoundIsGood(section, section[i], anchor, params.now, t);
    }
    hide Authentic;
  }

  lemma SoundIsGood(section: seq<D.Record>, s: D.Record, anchor: Anchor, now: u32, t: u32)
    requires Sound(section, s, anchor, now, t)
    requires !LeadingStar(s.name) && HasLabelSuffix(s.name, anchor.zone) && now - 3600 <= t <= now + 604800
    ensures Authentic(section, s, anchor, t)
  {
    hide Authentic, LeadingStar, HasLabelSuffix;
  }

  lemma OwnerIsPlain(rrs: seq<Rr>, qname: Labels, zone: Labels, name: Labels)
    requires PlainOwners(rrs, qname, zone) && exists rr :: rr in rrs && name == OwnerLabels(qname, rr.owner)
    ensures !LeadingStar(name) && HasLabelSuffix(name, zone)
  {
    hide LeadingStar, HasLabelSuffix;
  }
}
