/**
 Building a response in one growing buffer: header counts bumped in place, records
 grouped into RRsets, RDATA sorted, signatures interleaved, OPT last.
 */
module Message {
  import opened Octets
  import opened Names
  import opened QueryReader
  import opened Dnssec

  const OFFSET_ANCOUNT: nat := 6
  const OFFSET_NSCOUNT: nat := 8
  const OFFSET_ARCOUNT: nat := 10

  type Ipv4 = b: Bytes | |b| == 4 witness [0, 0, 0, 0]
  type Ipv6 = b: Bytes | |b| == 16 witness [0, 0, 0, 0, 0, 0, 0, 0, 0, 0, 0, 0, 0, 0, 0, 0]

  /** At most one address of each family. */
  type Addresses = (Option<Ipv4>, Option<Ipv6>)

  /** `ZoneParams`, with the clock reading that signatures of this response use. */
  datatype ZoneParams = ZoneParams(
    zone: Bytes,
    nsName: Bytes,
    nsNames: seq<Bytes>,
    glueIp: Ipv4,
    glueIp6: Option<Ipv6>,
    hostmaster: Bytes,
    serial: u32,
    refresh: u32,
    retry: u32,
    expire: u32,
    minimum: u32,
    spf: Option<Bytes>,
    dnssec: Option<DnssecKey>,
    doBit: bool,
    now: u32)
  {
    predicate Sign() { dnssec.Some? && doBit }
  }

  /** `Question` is the compression pointer to the QNAME at offset 12. */
  datatype Owner = Question | Name(name: Bytes)

  datatype Rr = Rr(owner: Owner, typ: u16, ttl: u32, rdata: Bytes)

  /** A growable octet buffer, `Vec<u8>`. */
  class ByteBuffer {
    var data: Bytes

    constructor (data: Bytes)
      ensures this.data == data
    {
      this.data := data;
    }

    method Extend(more: Bytes)
      modifies this
      ensures data == old(data) + more
    {
      data := data + more;
    }
  }

  // ----- header ----------------------------------------------------------------

  /** QR set, OPCODE and RD copied, AA as asked, TC, RA and Z clear. */
  function ResponseFlags(query: Bytes, aa: bool, rcode: byte): Bytes {
    var q2: int := if |query| > 2 then query[2] else 0;
    [128 + 8 * ((q2 / 8) % 16) + (if aa then 4 else 0) + q2 % 2, rcode % 16]
  }

  /** `data` with the 16-bit count at `offset` raised by `k`, saturating. */
  function Bumped(data: Bytes, offset: nat, k: nat): (r: Bytes)
    requires offset + 2 <= |data|
    ensures |r| == |data|
  {
    data[..offset] + U16Bytes(Min(0xFFFF, U16At(data, offset) + k)) + data[offset + 2..]
  }

  method BumpCount(buf: ByteBuffer, offset: nat)
    requires offset + 2 <= |buf.data|
    modifies buf
    ensures buf.data == Bumped(old(buf.data), offset, 1)
  {
    var n := Min(0xFFFF, U16At(buf.data, offset) as int + 1);
    buf.data := buf.data[offset := n / 0x100][offset + 1 := n % 0x100];
  }

  lemma BumpedTwice(data: Bytes, offset: nat, j: nat, k: nat)
    requires offset + 2 <= |data|
    ensures Bumped(Bumped(data, offset, j), offset, k) == Bumped(data, offset, j + k)
  {
    var once := Bumped(data, offset, j);
    assert U16At(once, offset) == Min(0xFFFF, U16At(data, offset) + j);
    assert once[..offset] == data[..offset] && once[offset + 2..] == data[offset + 2..];
  }

  lemma BumpedConcat(data: Bytes, more: Bytes, offset: nat, k: nat)
    requires offset + 2 <= |data|
    ensures Bumped(data + more, offset, k) == Bumped(data, offset, k) + more
  {
    assert (data + more)[..offset] == data[..offset];
    assert (data + more)[offset + 2..] == data[offset + 2..] + more;
  }

  // ----- records ---------------------------------------------------------------

  function OwnerBytes(owner: Owner): Bytes {
    match owner
    case Question => [0xC0, 0x0C]
    case Name(name) => Encode(name)
  }

  function RrBytes(rr: Rr): Bytes {
    OwnerBytes(rr.owner) + (U16Bytes(rr.typ) + U16Bytes(CLASS_IN) + U32Bytes(rr.ttl)
                            + U16Bytes(|rr.rdata| % 0x1_0000) + rr.rdata)
  }

  function RrsBytes(rrs: seq<Rr>): Bytes {
    if rrs == [] then [] else RrBytes(rrs[0]) + RrsBytes(rrs[1..])
  }

  lemma RrsBytesStep(rr: Rr, rest: seq<Rr>)
    ensures RrsBytes([rr] + rest) == RrBytes(rr) + RrsBytes(rest)
    ensures RrsBytes([]) == []
  {
    hide RrBytes;
    assert ([rr] + rest)[1..] == rest;
  }

  lemma {:induction false} RrsBytesConcat(a: seq<Rr>, b: seq<Rr>)
    ensures RrsBytes(a + b) == RrsBytes(a) + RrsBytes(b)
  {
    hide RrBytes, RrsBytes;
    if a == [] {
      RrsBytesStep(Rr(Question, 1, 0, []), []);
      assert a + b == b;
    } else {
      var first, rest := a[0], a[1..];
      RrsBytesConcat(rest, b);
      RrsBytesStep(first, rest);
      RrsBytesStep(first, rest + b);
      assert a == [first] + rest && a + b == [first] + (rest + b);
    }
  }

  method WriteRr(buf: ByteBuffer, owner: Owner, typ: u16, ttl: u32, rdata: Bytes)
    modifies buf
    ensures buf.data == old(buf.data) + RrBytes(Rr(owner, typ, ttl, rdata))
  {
    hide U16Bytes, U32Bytes, Encode;
    ghost var before := buf.data;
    match owner {
      case Question => buf.Extend([0xC0, 0x0C]);
      case Name(name) =>
        var encoded := EncodeDomainName(name);
        buf.Extend(encoded);
    }
    buf.Extend(U16Bytes(typ));
    buf.Extend(U16Bytes(CLASS_IN));
    buf.Extend(U32Bytes(ttl));
    buf.Extend(U16Bytes(|rdata| % 0x1_0000));
    buf.Extend(rdata);
    FieldsGather(before, OwnerBytes(owner), U16Bytes(typ), U16Bytes(CLASS_IN), U32Bytes(ttl), U16Bytes(|rdata| % 0x1_0000), rdata);
  }

  lemma FieldsGather(a: Bytes, b: Bytes, c: Bytes, d: Bytes, e: Bytes, f: Bytes, g: Bytes)
    ensures a + b + c + d + e + f + g == a + (b + (c + d + e + f + g))
  {
  }

  // ----- RRsets ----------------------------------------------------------------

  predicate OwnerEq(a: Owner, b: Owner) {
    match (a, b)
    case (Question, Question) => true
    case (Name(x), Name(y)) => NamesEq(x, y)
    case _ => false
  }

  predicate SameRrset(a: Rr, b: Rr) { OwnerEq(a.owner, b.owner) && a.typ == b.typ }

  type Group = g: seq<Rr> | g != [] witness [Rr(Question, 1, 0, [])]

  /** `rr` joins the last group when it matches that group's first record. */
  function AddToGroups(groups: seq<Group>, rr: Rr): seq<Group> {
    if groups != [] && SameRrset(groups[|groups| - 1][0], rr)
    then groups[..|groups| - 1] + [groups[|groups| - 1] + [rr]]
    else groups + [[rr]]
  }

  function Groups(rrs: seq<Rr>): seq<Group> {
    if rrs == [] then [] else AddToGroups(Groups(rrs[..|rrs| - 1]), rrs[|rrs| - 1])
  }

  function Rdatas(g: seq<Rr>): seq<Bytes> { seq(|g|, i requires 0 <= i < |g| => g[i].rdata) }

  function OwnerCanonicalWire(query: Bytes, owner: Owner): Bytes
    requires QuestionSectionEnd(query).Some?
  {
    match owner
    case Question => LowerWire(QnameWire(query))
    case Name(name) => Encode(name)
  }

  function RrsetRrs(owner: Owner, typ: u16, ttl: u32, rdatas: seq<Bytes>): seq<Rr> {
    seq(|rdatas|, i requires 0 <= i < |rdatas| => Rr(owner, typ, ttl, rdatas[i]))
  }

  function GroupRrsig(g: Group, query: Bytes, params: ZoneParams): Rr
    requires QuestionSectionEnd(query).Some? && params.dnssec.Some?
  {
    var rdatas := Sort(Rdatas(g));
    Rr(g[0].owner, TYPE_RRSIG, g[0].ttl,
       RrsigRdata(params.dnssec.value, OwnerCanonicalWire(query, g[0].owner), g[0].typ, g[0].ttl, rdatas, params.zone, params.now))
  }

  /** What one group is written as: its RDATA in canonical order, then its signature. */
  function EmittedGroup(g: Group, query: Bytes, params: ZoneParams): seq<Rr>
    requires QuestionSectionEnd(query).Some?
  {
    RrsetRrs(g[0].owner, g[0].typ, g[0].ttl, Sort(Rdatas(g)))
    + if g[0].typ != TYPE_RRSIG && params.Sign() then [GroupRrsig(g, query, params)] else []
  }

  function EmittedGroups(groups: seq<Group>, query: Bytes, params: ZoneParams): seq<Rr>
    requires QuestionSectionEnd(query).Some?
  {
    if groups == [] then []
    else EmittedGroup(groups[0], query, params) + EmittedGroups(groups[1..], query, params)
  }

  function Emitted(rrs: seq<Rr>, query: Bytes, params: ZoneParams): seq<Rr>
    requires QuestionSectionEnd(query).Some?
  {
    EmittedGroups(Groups(rrs), query, params)
  }

  /** The buffer once the records in `done` are written and counted. */
  ghost predicate Holds(data: Bytes, start: Bytes, offset: nat, done: seq<Rr>) {
    offset + 2 <= |start| && data == Bumped(start, offset, |done|) + RrsBytes(done)
  }

  lemma HoldsNothing(start: Bytes, offset: nat)
    requires offset + 2 <= |start|
    ensures Holds(start, start, offset, [])
  {
    assert Bumped(start, offset, 0) == start;
  }

  lemma HoldsOneMore(data: Bytes, start: Bytes, offset: nat, done: seq<Rr>, rr: Rr)
    requires Holds(data, start, offset, done)
    ensures offset + 2 <= |data + RrBytes(rr)|
    ensures Holds(Bumped(data + RrBytes(rr), offset, 1), start, offset, done + [rr])
  {
    hide RrsBytes, RrBytes, Bumped;
    var bumped := Bumped(start, offset, |done|);
    var more := RrsBytes(done) + RrBytes(rr);
    RrsBytesOneMore(done, rr);
    BumpedConcat(bumped, more, offset, 1);
    BumpedTwice(start, offset, |done|, 1);
    assert data + RrBytes(rr) == bumped + more;
  }

  lemma RrsBytesOneMore(done: seq<Rr>, rr: Rr)
    ensures RrsBytes(done + [rr]) == RrsBytes(done) + RrBytes(rr)
  {
    RrsBytesConcat(done, [rr]);
    assert RrsBytes([rr]) == RrBytes(rr);
  }

  lemma GroupsStep(rrs: seq<Rr>, i: nat)
    requires i < |rrs|
    ensures Groups(rrs[..i + 1]) == AddToGroups(Groups(rrs[..i]), rrs[i])
    ensures Groups(rrs[..0]) == [] && rrs[..|rrs|] == rrs
  {
    assert rrs[..i + 1][..i] == rrs[..i];
  }

  lemma EmittedGroupsStep(groups: seq<Group>, i: nat, query: Bytes, params: ZoneParams)
    requires QuestionSectionEnd(query).Some?
    ensures i < |groups| ==>
        EmittedGroups(groups[i..], query, params)
        == EmittedGroup(groups[i], query, params) + EmittedGroups(groups[i + 1..], query, params)
    ensures i == |groups| ==> EmittedGroups(groups[i..], query, params) == []
  {
    if i < |groups| {
      assert groups[i..][1..] == groups[i + 1..];
    }
  }

  method GroupRrs(rrs: seq<Rr>) returns (groups: seq<Group>)
    ensures groups == Groups(rrs)
  {
    hide OwnerEq;
    groups := [];
    for i := 0 to |rrs|
      invariant groups == Groups(rrs[..i])
    {
      GroupsStep(rrs, i);
      var rr := rrs[i];
      var last := |groups| - 1;
      if groups != [] && OwnerEq(groups[last][0].owner, rr.owner) && groups[last][0].typ == rr.typ {
        groups := groups[..last] + [groups[last] + [rr]];
      } else {
        groups := groups + [[rr]];
      }
    }
    assert rrs[..|rrs|] == rrs;
  }

  method EmitSection(buf: ByteBuffer, offset: nat, rrs: seq<Rr>, query: Bytes, params: ZoneParams)
    requires offset + 2 <= |buf.data| && QuestionSectionEnd(query).Some?
    modifies buf
    ensures Holds(buf.data, old(buf.data), offset, Emitted(rrs, query, params))
  {
    hide EmittedGroups, EmittedGroup, Holds, Groups;
    var groups := GroupRrs(rrs);
    ghost var start := buf.data;
    ghost var done: seq<Rr> := [];
    HoldsNothing(start, offset);
    assert groups[0..] == groups;
    for i := 0 to |groups|
      invariant Holds(buf.data, start, offset, done)
      invariant done + EmittedGroups(groups[i..], query, params) == EmittedGroups(groups, query, params)
    {
      EmittedGroupsStep(groups, i, query, params);
      done := EmitGroup(buf, offset, groups[i], query, params, start, done);
    }
    EmittedGroupsStep(groups, |groups|, query, params);
    assert done == Emitted(rrs, query, params);
  }

  /** The body of the loop over groups: the RRset in order, then its signature. */
  method EmitGroup(buf: ByteBuffer, offset: nat, group: Group, query: Bytes, params: ZoneParams, ghost start: Bytes, ghost before: seq<Rr>)
    returns (ghost done: seq<Rr>)
    requires QuestionSectionEnd(query).Some? && Holds(buf.data, start, offset, before)
    modifies buf
    ensures done == before + EmittedGroup(group, query, params)
    ensures Holds(buf.data, start, offset, done)
  {
    hide Holds, Rdatas, LowerWire, Encode, RrsigRdata, RrBytes;
    var owner, typ, ttl := group[0].owner, group[0].typ, group[0].ttl;
    var rdatas := Sort(Rdatas(group));
    ghost var rrset := RrsetRrs(owner, typ, ttl, rdatas);
    done := before;
    for i := 0 to |rdatas|
      invariant done == before + rrset[..i]
      invariant Holds(buf.data, start, offset, done)
    {
      HoldsOneMore(buf.data, start, offset, done, rrset[i]);
      WriteRr(buf, owner, typ, ttl, rdatas[i]);
      BumpCount(buf, offset);
      done := done + [rrset[i]];
    }
    assert rrset[..|rdatas|] == rrset;
    if typ != TYPE_RRSIG {
      if params.dnssec.Some? && params.doBit {
        var rrsig := SignGroup(owner, typ, ttl, rdatas, query, params);
        var rr := Rr(owner, TYPE_RRSIG, ttl, rrsig);
        assert rr == GroupRrsig(group, query, params);
        HoldsOneMore(buf.data, start, offset, done, rr);
        WriteRr(buf, owner, TYPE_RRSIG, ttl, rrsig);
        BumpCount(buf, offset);
        done := done + [rr];
      }
    }
  }

  method SignGroup(owner: Owner, typ: u16, ttl: u32, rdatas: seq<Bytes>, query: Bytes, params: ZoneParams)
    returns (rrsig: Bytes)
    requires QuestionSectionEnd(query).Some? && params.dnssec.Some?
    ensures rrsig == RrsigRdata(params.dnssec.value, OwnerCanonicalWire(query, owner), typ, ttl, rdatas, params.zone, params.now)
  {
    var ownerWire: Bytes;
    match owner {
      case Question =>
        ownerWire := LowercaseWireName(query[12..QuestionSectionEnd(query).value - 4]);
      case Name(name) =>
        ownerWire := EncodeDomainName(name);
    }
    rrsig := SignRrsig(params.dnssec.value, ownerWire, typ, ttl, rdatas, params.zone, params.now);
  }
}
