/**
 Online signing: key tags, the RRSIG RDATA and the octets it signs, and the
 RDATA of CDS and NSEC records.  ECDSA and SHA-256 are functions the key carries.
 */
module Dnssec {
  import opened Octets
  import opened Names
  import opened QueryReader
  import opened TypeBitmap

  const CLASS_IN: u16 := 1
  const TYPE_RRSIG: u16 := 46
  const TYPE_NSEC: u16 := 47
  const ALG_ECDSAP256SHA256: byte := 13
  const DIGEST_SHA256: byte := 2
  const DNSKEY_FLAGS_CSK: u16 := 257
  const DNSKEY_PROTOCOL: byte := 3
  const SIGNATURE_VALIDITY_SECS: nat := 604800
  const INCEPTION_SKEW_SECS: nat := 3600

  /** `sign` and `sha256` stand for the library's ECDSA P-256 signer and digest. */
  datatype DnssecKey = DnssecKey(
    sign: Bytes -> Bytes,
    sha256: Bytes -> Bytes,
    dnskeyRdata: Bytes,
    keyTag: u16)

  // ----- key tag (Appendix B of RFC 4034) --------------------------------------

  /** Sum of the big-endian 16-bit words, an odd last octet padded with zero. */
  function WordSum(rdata: Bytes): nat {
    if rdata == [] then 0
    else if |rdata| == 1 then 0x100 * rdata[0] as int
    else 0x100 * rdata[0] as int + rdata[1] as int + WordSum(rdata[2..])
  }

  function KeyTagOf(rdata: Bytes): u16 { (WordSum(rdata) + WordSum(rdata) / 0x1_0000) % 0x1_0000 }

  lemma {:induction false} WordSumAppend(rdata: Bytes, b: byte)
    ensures WordSum(rdata + [b]) == WordSum(rdata) + if |rdata| % 2 == 0 then 0x100 * b as int else b as int
  {
    if |rdata| >= 2 {
      WordSumAppend(rdata[2..], b);
      assert (rdata + [b])[2..] == rdata[2..] + [b];
    }
  }

  lemma {:induction false} WordSumBound(rdata: Bytes)
    ensures 2 * WordSum(rdata) <= 0xFFFF * (|rdata| + 1)
  {
    if |rdata| >= 2 {
      WordSumBound(rdata[2..]);
    }
  }

  /** Adds octets into a `u32`; the subset type of `ac` is the proof that it never overflows. */
  method KeyTag(dnskeyRdata: Bytes) returns (tag: u16)
    requires |dnskeyRdata| <= 0xFFFF
    ensures tag == KeyTagOf(dnskeyRdata)
  {
    var ac: u32 := 0;
    for i := 0 to |dnskeyRdata|
      invariant ac == WordSum(dnskeyRdata[..i])
    {
      var b := dnskeyRdata[i];
      assert dnskeyRdata[..i + 1] == dnskeyRdata[..i] + [b];
      WordSumAppend(dnskeyRdata[..i], b);
      WordSumBound(dnskeyRdata[..i + 1]);
      ac := ac + if i % 2 == 0 then 0x100 * b as int else b as int;
    }
    assert dnskeyRdata[..|dnskeyRdata|] == dnskeyRdata;
    WordSumBound(dnskeyRdata);
    ac := ac + ac / 0x1_0000;
    tag := ac % 0x1_0000;
  }

  /** A zone signing key for DNSSEC with its tag and its RDATA of section 2.1 of RFC 4034: flags 257
      (zone key and entry point), protocol 3, algorithm 13, a public point of 64 octets. */
  ghost predicate ValidKey(key: DnssecKey) {
    && |key.dnskeyRdata| == 68
    && key.dnskeyRdata[..4] == [1, 1, 3, 13]
    && key.keyTag == KeyTagOf(key.dnskeyRdata)
    && (forall m :: |key.sign(m)| == 64)
    && (forall m :: |key.sha256(m)| == 32)
  }

  /** `from_signing_key`, given the two halves of the public point. */
  method FromSigningKey(sign: Bytes -> Bytes, sha256: Bytes -> Bytes, point: Bytes) returns (key: DnssecKey)
    requires |point| == 64 && (forall m :: |sign(m)| == 64) && (forall m :: |sha256(m)| == 32)
    ensures ValidKey(key) && key.sign == sign && key.sha256 == sha256 && key.dnskeyRdata == [1, 1, 3, 13] + point
  {
    var rdata := U16Bytes(DNSKEY_FLAGS_CSK) + [DNSKEY_PROTOCOL] + [ALG_ECDSAP256SHA256] + point;
    var tag := KeyTag(rdata);
    key := DnssecKey(sign, sha256, rdata, tag);
  }

  // ----- RRSIG -----------------------------------------------------------------

  function Inception(now: u32): u32 { Max(now - INCEPTION_SKEW_SECS, 0) }

  function Expiration(now: u32): u32 { Min(now + SIGNATURE_VALIDITY_SECS, 0xFFFF_FFFF) }

  /** RRSIG RDATA without the signature. */
  function RrsigPrefix(key: DnssecKey, ownerWire: Bytes, typ: u16, ttl: u32, signer: Bytes, now: u32): Bytes {
    U16Bytes(typ) + [ALG_ECDSAP256SHA256, Min(255, LabelsBeforeRoot(ownerWire))] + U32Bytes(ttl)
    + U32Bytes(Expiration(now)) + U32Bytes(Inception(now)) + U16Bytes(key.keyTag) + Encode(signer)
  }

  /** One record in the form that is signed; its length field is a truncated `u16`. */
  function SignedRr(ownerWire: Bytes, typ: u16, ttl: u32, rdata: Bytes): Bytes {
    ownerWire + U16Bytes(typ) + U16Bytes(CLASS_IN) + U32Bytes(ttl) + U16Bytes(|rdata| % 0x1_0000) + rdata
  }

  function SignedRrs(ownerWire: Bytes, typ: u16, ttl: u32, rdatas: seq<Bytes>): Bytes {
    if rdatas == [] then []
    else SignedRr(ownerWire, typ, ttl, rdatas[0]) + SignedRrs(ownerWire, typ, ttl, rdatas[1..])
  }

  function RrsigRdata(key: DnssecKey, ownerWire: Bytes, typ: u16, ttl: u32, rdatas: seq<Bytes>, signer: Bytes, now: u32): Bytes {
    var prefix := RrsigPrefix(key, ownerWire, typ, ttl, signer, now);
    prefix + key.sign(prefix + SignedRrs(ownerWire, typ, ttl, rdatas))
  }

  method SignRrsig(key: DnssecKey, ownerWire: Bytes, typ: u16, originalTtl: u32, rdatas: seq<Bytes>, signerName: Bytes, now: u32)
    returns (rdata: Bytes)
    ensures rdata == RrsigRdata(key, ownerWire, typ, originalTtl, rdatas, signerName, now)
  {
    hide RrsigPrefix, SignedRrs;
    var prefix := BuildRrsigPrefix(key, ownerWire, typ, originalTtl, signerName, now);
    ghost var signed := SignedRrs(ownerWire, typ, originalTtl, rdatas);
    assert RrsigRdata(key, ownerWire, typ, originalTtl, rdatas, signerName, now) == prefix + key.sign(prefix + signed);
    hide *;
    var toSign := prefix;
    assert rdatas[0..] == rdatas;
    for i := 0 to |rdatas|
      invariant toSign + SignedRrs(ownerWire, typ, originalTtl, rdatas[i..]) == prefix + signed
    {
      SignedRrsStep(ownerWire, typ, originalTtl, rdatas, i, toSign);
      toSign := toSign + ownerWire;
      toSign := toSign + U16Bytes(typ);
      toSign := toSign + U16Bytes(CLASS_IN);
      toSign := toSign + U32Bytes(originalTtl);
      toSign := toSign + U16Bytes(|rdatas[i]| % 0x1_0000);
      toSign := toSign + rdatas[i];
    }
    SignedRrsNone(ownerWire, typ, originalTtl, rdatas[|rdatas|..]);
    assert toSign == prefix + signed;
    rdata := prefix + key.sign(toSign);
  }

  method BuildRrsigPrefix(key: DnssecKey, ownerWire: Bytes, typ: u16, originalTtl: u32, signerName: Bytes, now: u32)
    returns (prefix: Bytes)
    ensures prefix == RrsigPrefix(key, ownerWire, typ, originalTtl, signerName, now)
  {
    var labels := LabelCount(ownerWire);
    var signer := EncodeDomainName(signerName);
    hide Encode, LabelsBeforeRoot, U16Bytes, U32Bytes;
    prefix := U16Bytes(typ);
    prefix := prefix + [ALG_ECDSAP256SHA256];
    prefix := prefix + [labels];
    prefix := prefix + U32Bytes(originalTtl);
    prefix := prefix + U32Bytes(Expiration(now));
    prefix := prefix + U32Bytes(Inception(now));
    prefix := prefix + U16Bytes(key.keyTag);
    prefix := prefix + signer;
  }

  lemma SignedRrsNone(ownerWire: Bytes, typ: u16, ttl: u32, rdatas: seq<Bytes>)
    requires rdatas == []
    ensures SignedRrs(ownerWire, typ, ttl, rdatas) == []
  {
  }

  lemma SignedRrsStep(ownerWire: Bytes, typ: u16, ttl: u32, rdatas: seq<Bytes>, i: nat, before: Bytes)
    requires i < |rdatas|
    ensures before + SignedRrs(ownerWire, typ, ttl, rdatas[i..])
         == before + ownerWire + U16Bytes(typ) + U16Bytes(CLASS_IN) + U32Bytes(ttl)
            + U16Bytes(|rdatas[i]| % 0x1_0000) + rdatas[i] + SignedRrs(ownerWire, typ, ttl, rdatas[i + 1..])
  {
    assert rdatas[i..][1..] == rdatas[i + 1..];
    assert SignedRrs(ownerWire, typ, ttl, rdatas[i..])
        == SignedRr(ownerWire, typ, ttl, rdatas[i]) + SignedRrs(ownerWire, typ, ttl, rdatas[i + 1..]);
    hide SignedRrs, U16Bytes, U32Bytes;
  }

  // ----- CDS and NSEC ----------------------------------------------------------

  function DsRdata(key: DnssecKey, zone: Bytes): Bytes {
    U16Bytes(key.keyTag) + [ALG_ECDSAP256SHA256, DIGEST_SHA256] + key.sha256(Encode(zone) + key.dnskeyRdata)
  }

  function NsecTypes(existing: seq<u16>): (types: seq<u16>)
    ensures TypeSet(types) == TypeSet(existing) + {TYPE_NSEC, TYPE_RRSIG}
  {
    SortDedup(existing + [TYPE_NSEC, TYPE_RRSIG])
  }

  function NsecRdata(qnameWire: Bytes, existing: seq<u16>): Bytes {
    [1, 0] + LowerWire(qnameWire) + TypeField(existing)
  }

  method BuildNsecRdata(qnameWire: Bytes, existing: seq<u16>) returns (rdata: Bytes)
    ensures rdata == NsecRdata(qnameWire, existing)
  {
    rdata := [1, 0];
    var lower := LowercaseWireName(qnameWire);
    rdata := rdata + lower;
    var field := EncodeTypes(existing);
    rdata := rdata + field;
  }
}
