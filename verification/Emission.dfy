/**
 What a section looks like once emitted: conserved records, one run per RRset in
 canonical order, and independence from the configured order of name servers.
 */
module Emission {
  import opened Octets
  import opened Names
  import opened QueryReader
  import opened Dnssec
  import opened Message
  import opened Responses
  import opened RoundTrip
  import opened Rrsets
  import D = Decoder

  lemma ToRecordsConcat(qname: Labels, a: seq<Rr>, b: seq<Rr>)
    ensures ToRecords(qname, a + b) == ToRecords(qname, a) + ToRecords(qname, b)
  {
    hide ToRecord;
  }

  // ----- reading one RRset out of a section ------------------------------------

  /** RDATA of the records with this lowercased owner, type and class, in order. */
  function RdatasOf(section: seq<D.Record>, name: Labels, typ: u16, cls: u16): seq<Bytes> {
    if section == [] then []
    else
      RdataIf(section[0], name, typ, cls) + RdatasOf(section[1..], name, typ, cls)
  }

  lemma {:induction false} RdatasOfConcat(a: seq<D.Record>, b: seq<D.Record>, name: Labels, typ: u16, cls: u16)
    ensures RdatasOf(a + b, name, typ, cls) == RdatasOf(a, name, typ, cls) + RdatasOf(b, name, typ, cls)
  {
    hide RdatasOf, RdataIf;
    if a == [] {
      RdatasOfNothing(name, typ, cls);
      assert a + b == b;
    } else {
      var r, rest := a[0], a[1..];
      RdatasOfConcat(rest, b, name, typ, cls);
      assert a == [r] + rest && a + b == [r] + (rest + b);
      RdatasOfStep(r, rest + b, name, typ, cls);
      RdatasOfStep(r, rest, name, typ, cls);
      JoinAssociates(RdataIf(r, name, typ, cls), RdatasOf(rest, name, typ, cls), RdatasOf(b, name, typ, cls));
    }
  }

  lemma RdatasOfNothing(name: Labels, typ: u16, cls: u16)
    ensures RdatasOf([], name, typ, cls) == []
  {
  }

  function RdataIf(r: D.Record, name: Labels, typ: u16, cls: u16): seq<Bytes> {
    if LowerLabels(r.name) == name && r.typ == typ && r.cls == cls then [r.rdata] else []
  }

  lemma RdatasOfStep(r: D.Record, rest: seq<D.Record>, name: Labels, typ: u16, cls: u16)
    ensures RdatasOf([r] + rest, name, typ, cls) == RdataIf(r, name, typ, cls) + RdatasOf(rest, name, typ, cls)
  {
    assert ([r] + rest)[1..] == rest;
    hide LowerLabels;
  }

  lemma JoinAssociates<T>(a: seq<T>, b: seq<T>, c: seq<T>)
    ensures a + (b + c) == a + b + c
  {
  }

  lemma {:induction false} RdatasOfRrset(qname: Labels, owner: Owner, typ: u16, ttl: u32, rdatas: seq<Bytes>, name: Labels, t: u16)
    ensures RdatasOf(ToRecords(qname, RrsetRrs(owner, typ, ttl, rdatas)), name, t, CLASS_IN)
         == if LowerLabels(OwnerLabels(qname, owner)) == name && typ == t then rdatas else []
  {
    var section := ToRecords(qname, RrsetRrs(owner, typ, ttl, rdatas));
    hide LowerLabels, OwnerLabels;
    if rdatas != [] {
      RdatasOfRrset(qname, owner, typ, ttl, rdatas[1..], name, t);
      assert section[0] == ToRecord(qname, Rr(owner, typ, ttl, rdatas[0]));
      assert section[1..] == ToRecords(qname, RrsetRrs(owner, typ, ttl, rdatas[1..]));
      assert rdatas == [rdatas[0]] + rdatas[1..];
    }
  }

  /** From one emitted group, a reader takes its sorted RDATA or nothing. */
  lemma RdatasOfGroup(g: Group, query: Bytes, params: ZoneParams, qname: Labels, name: Labels, typ: u16)
    requires QuestionSectionEnd(query).Some? && typ != TYPE_RRSIG
    ensures RdatasOf(ToRecords(qname, EmittedGroup(g, query, params)), name, typ, CLASS_IN)
         == if Key(qname, g[0]) == (name, typ) then Sort(Rdatas(g)) else []
  {
    hide Sort, Rdatas, GroupRrsig, LowerLabels, OwnerLabels, QuestionSectionEnd;
    var rrset := RrsetRrs(g[0].owner, g[0].typ, g[0].ttl, Sort(Rdatas(g)));
    RdatasOfRrset(qname, g[0].owner, g[0].typ, g[0].ttl, Sort(Rdatas(g)), name, typ);
    hide RrsetRrs;
    if g[0].typ != TYPE_RRSIG && params.Sign() {
      var sig := GroupRrsig(g, query, params);
      ToRecordsConcat(qname, rrset, [sig]);
      RdatasOfConcat(ToRecords(qname, rrset), ToRecords(qname, [sig]), name, typ, CLASS_IN);
      assert sig.typ == TYPE_RRSIG by { RrsigType(g, query, params); }
      assert ToRecords(qname, [sig]) == [ToRecord(qname, sig)];
      assert RdatasOf([ToRecord(qname, sig)], name, typ, CLASS_IN) == [];
    } else {
      assert EmittedGroup(g, query, params) == rrset;
    }
  }

  lemma RrsigType(g: Group, query: Bytes, params: ZoneParams)
    requires QuestionSectionEnd(query).Some? && params.dnssec.Some?
    ensures GroupRrsig(g, query, params).typ == TYPE_RRSIG && GroupRrsig(g, query, params).owner == g[0].owner
  {
  }

  lemma {:induction false} RdatasOfGroups(groups: seq<Group>, query: Bytes, params: ZoneParams, qname: Labels, k: nat)
    requires QuestionSectionEnd(query).Some? && k < |groups| && groups[k][0].typ != TYPE_RRSIG
    requires DistinctGroups(groups, qname)
    ensures RdatasOf(ToRecords(qname, EmittedGroups(groups, query, params)), Key(qname, groups[k][0]).0, groups[k][0].typ, CLASS_IN)
         == Sort(Rdatas(groups[k]))
    decreases |groups|
  {
    hide EmittedGroup, Sort, Rdatas, ToRecords, RdatasOf, QuestionSectionEnd, LowerLabels, OwnerLabels;
    var (name, typ) := Key(qname, groups[k][0]);
    var first, rest := groups[0], groups[1..];
    var a, b := EmittedGroup(first, query, params), EmittedGroups(rest, query, params);
    assert EmittedGroups(groups, query, params) == a + b;
    assert forall i | 0 <= i < |rest| :: rest[i] == groups[i + 1];
    hide EmittedGroups;
    ToRecordsConcat(qname, a, b);
    RdatasOfConcat(ToRecords(qname, a), ToRecords(qname, b), name, typ, CLASS_IN);
    RdatasOfGroup(first, query, params, qname, name, typ);
    if k == 0 {
      RdatasOfOthers(rest, query, params, qname, name, typ);
    } else {
      RdatasOfGroups(rest, query, params, qname, k - 1);
    }
  }

  lemma {:induction false} RdatasOfOthers(groups: seq<Group>, query: Bytes, params: ZoneParams, qname: Labels, name: Labels, typ: u16)
    requires QuestionSectionEnd(query).Some? && typ != TYPE_RRSIG
    requires forall i | 0 <= i < |groups| :: Key(qname, groups[i][0]) != (name, typ)
    ensures RdatasOf(ToRecords(qname, EmittedGroups(groups, query, params)), name, typ, CLASS_IN) == []
  {
    hide EmittedGroup, Key, QuestionSectionEnd;
    if groups == [] {
      assert ToRecords(qname, []) == [];
    } else {
      RdatasOfGroup(groups[0], query, params, qname, name, typ);
      RdatasOfOthers(groups[1..], query, params, qname, name, typ);
      ToRecordsConcat(qname, EmittedGroup(groups[0], query, params), EmittedGroups(groups[1..], query, params));
      RdatasOfConcat(ToRecords(qname, EmittedGroup(groups[0], query, params)),
                     ToRecords(qname, EmittedGroups(groups[1..], query, params)), name, typ, CLASS_IN);
    }
  }

  // ----- conservation ----------------------------------------------------------

  /** The records of a section that are not signatures. */
  function Unsigned(section: seq<D.Record>): seq<D.Record> {
    if section == [] then []
    else if section[0].typ == TYPE_RRSIG then Unsigned(section[1..])
    else [section[0]] + Unsigned(section[1..])
  }

  lemma {:induction false} UnsignedConcat(a: seq<D.Record>, b: seq<D.Record>)
    ensures Unsigned(a + b) == Unsigned(a) + Unsigned(b)
  {
    if a == [] {
      assert a + b == b;
    } else {
      var r, rest := a[0], a[1..];
      UnsignedConcat(rest, b);
      assert a == [r] + rest && a + b == [r] + (rest + b);
      hide *;
      UnsignedStep(r, rest + b);
      UnsignedStep(r, rest);
      if r.typ != TYPE_RRSIG {
        JoinAssociates([r], Unsigned(rest), Unsigned(b));
      }
    }
  }

  lemma UnsignedStep(r: D.Record, rest: seq<D.Record>)
    ensures Unsigned([r] + rest) == if r.typ == TYPE_RRSIG then Unsigned(rest) else [r] + Unsigned(rest)
  {
    assert ([r] + rest)[1..] == rest;
  }

  lemma {:induction false} UnsignedAll(section: seq<D.Record>)
    requires forall r | r in section :: r.typ != TYPE_RRSIG
    ensures Unsigned(section) == section
  {
    if section != [] {
      assert section[0] in section;
      assert forall r | r in section[1..] :: r in section;
      UnsignedAll(section[1..]);
    }
  }

  function RecordsOf(name: Labels, typ: u16, ttl: u32, rdatas: seq<Bytes>): seq<D.Record> {
    seq(|rdatas|, i requires 0 <= i < |rdatas| => D.Record(name, typ, CLASS_IN, ttl, rdatas[i]))
  }

  lemma {:induction false} RecordsOfPermutation(name: Labels, typ: u16, ttl: u32, a: seq<Bytes>, b: seq<Bytes>)
    requires multiset(a) == multiset(b)
    ensures multiset(RecordsOf(name, typ, ttl, a)) == multiset(RecordsOf(name, typ, ttl, b))
  {
    if a == [] {
      SameSize(a, b);
    } else {
      var k := FindHead(a, b);
      var less := b[..k] + b[k + 1..];
      RecordsOfPermutation(name, typ, ttl, a[1..], less);
      var ra, rb := RecordsOf(name, typ, ttl, a), RecordsOf(name, typ, ttl, b);
      assert RecordsOf(name, typ, ttl, a[1..]) == ra[1..];
      assert RecordsOf(name, typ, ttl, less) == rb[..k] + rb[k + 1..];
      HeadMoved(ra, rb, k);
    }
  }

  lemma SameSize<T>(a: seq<T>, b: seq<T>)
    requires multiset(a) == multiset(b)
    ensures |a| == |b|
  {
    assert |a| == |multiset(a)| == |multiset(b)| == |b|;
  }

  /** Where the first element of `a` stands in a permutation of it. */
  lemma FindHead<T>(a: seq<T>, b: seq<T>) returns (k: nat)
    requires a != [] && multiset(a) == multiset(b)
    ensures k < |b| && b[k] == a[0] && multiset(a[1..]) == multiset(b[..k] + b[k + 1..])
  {
    assert a[0] in multiset(b);
    k :| 0 <= k < |b| && b[k] == a[0];
    TailMultiset(a);
    WithoutIndex(b, k);
  }

  lemma HeadMoved<T>(a: seq<T>, b: seq<T>, k: nat)
    requires a != [] && k < |b| && b[k] == a[0] && multiset(a[1..]) == multiset(b[..k] + b[k + 1..])
    ensures multiset(a) == multiset(b)
  {
    WithoutIndex(b, k);
    WithoutIndex(a, 0);
    assert a[..0] + a[0 + 1..] == a[1..];
  }

  lemma WithoutIndex<T>(s: seq<T>, k: nat)
    requires k < |s|
    ensures multiset(s) == multiset(s[..k] + s[k + 1..]) + multiset{s[k]}
  {
    assert s == s[..k] + [s[k]] + s[k + 1..];
  }

  lemma GroupConserved(g: Group, query: Bytes, params: ZoneParams, qname: Labels)
    requires QuestionSectionEnd(query).Some? && ProperGroup(g, qname)
    ensures multiset(Unsigned(ToRecords(qname, EmittedGroup(g, query, params)))) == multiset(ToRecords(qname, g))
  {
    hide OwnerLabels, QuestionSectionEnd, GroupRrsig, Sort, Rdatas, RrsetRrs, RecordsOf, ToRecords, Unsigned, ProperGroup;
    var name, typ, ttl, sorted := OwnerLabels(qname, g[0].owner), g[0].typ, g[0].ttl, Sort(Rdatas(g));
    var rrset := RrsetRrs(g[0].owner, typ, ttl, sorted);
    GroupRecords(g, qname);
    RecordsOfPermutation(name, typ, ttl, Rdatas(g), sorted);
    RrsetRecords(qname, g[0].owner, typ, ttl, sorted);
    NotSignatures(g, qname, sorted);
    if params.Sign() {
      var sig := GroupRrsig(g, query, params);
      RrsigType(g, query, params);
      ToRecordsConcat(qname, rrset, [sig]);
      UnsignedConcat(ToRecords(qname, rrset), ToRecords(qname, [sig]));
      OneSignature(qname, sig);
      assert Unsigned(ToRecords(qname, rrset)) + [] == Unsigned(ToRecords(qname, rrset));
    } else {
      assert EmittedGroup(g, query, params) == rrset;
    }
  }

  lemma OneSignature(qname: Labels, sig: Rr)
    requires sig.typ == TYPE_RRSIG
    ensures Unsigned(ToRecords(qname, [sig])) == []
  {
    hide OwnerLabels;
    assert ToRecords(qname, [sig])[1..] == [];
  }

  lemma NotSignatures(g: Group, qname: Labels, rdatas: seq<Bytes>)
    requires ProperGroup(g, qname)
    ensures g[0].typ != TYPE_RRSIG
    ensures Unsigned(RecordsOf(OwnerLabels(qname, g[0].owner), g[0].typ, g[0].ttl, rdatas))
         == RecordsOf(OwnerLabels(qname, g[0].owner), g[0].typ, g[0].ttl, rdatas)
  {
    hide OwnerLabels;
    UnsignedAll(RecordsOf(OwnerLabels(qname, g[0].owner), g[0].typ, g[0].ttl, rdatas));
  }

  lemma RrsetRecords(qname: Labels, owner: Owner, typ: u16, ttl: u32, rdatas: seq<Bytes>)
    ensures ToRecords(qname, RrsetRrs(owner, typ, ttl, rdatas)) == RecordsOf(OwnerLabels(qname, owner), typ, ttl, rdatas)
  {
    hide OwnerLabels;
  }

  lemma GroupRecords(g: Group, qname: Labels)
    requires ProperGroup(g, qname)
    ensures ToRecords(qname, g) == RecordsOf(OwnerLabels(qname, g[0].owner), g[0].typ, g[0].ttl, Rdatas(g))
  {
    hide OwnerLabels;
    forall k | 0 <= k < |g|
      ensures ToRecord(qname, g[k]) == D.Record(OwnerLabels(qname, g[0].owner), g[0].typ, CLASS_IN, g[0].ttl, g[k].rdata)
    {
      SameRrsetSameKey(qname, g[0], g[k]);
    }
  }

  lemma {:induction false} GroupsConserved(groups: seq<Group>, query: Bytes, params: ZoneParams, qname: Labels)
    requires QuestionSectionEnd(query).Some? && forall g | g in groups :: ProperGroup(g, qname)
    ensures multiset(Unsigned(ToRecords(qname, EmittedGroups(groups, query, params)))) == multiset(ToRecords(qname, Flat(groups)))
  {
    hide EmittedGroup, ProperGroup, QuestionSectionEnd, ToRecord;
    if groups != [] {
      var a, b := EmittedGroup(groups[0], query, params), EmittedGroups(groups[1..], query, params);
      assert groups[0] in groups;
      assert forall g | g in groups[1..] :: g in groups;
      GroupConserved(groups[0], query, params, qname);
      GroupsConserved(groups[1..], query, params, qname);
      ToRecordsConcat(qname, a, b);
      UnsignedConcat(ToRecords(qname, a), ToRecords(qname, b));
      ToRecordsConcat(qname, groups[0], Flat(groups[1..]));
    }
  }

  /** Emission neither loses, adds nor alters a record. */
  lemma EmissionConserves(rrs: seq<Rr>, query: Bytes, params: ZoneParams, qname: Labels)
    requires QuestionSectionEnd(query).Some? && Proper(rrs, qname)
    ensures multiset(Unsigned(ToRecords(qname, Emitted(rrs, query, params)))) == multiset(ToRecords(qname, rrs))
  {
    GroupsAreRrsets(rrs, qname);
    GroupsFlat(rrs);
    GroupsConserved(Groups(rrs), query, params, qname);
  }

  // ----- runs ------------------------------------------------------------------

  /** Two records of one RRset have only records of that RRset between them, and stand in
      canonical order. */
  ghost predicate RunsInOrder(section: seq<D.Record>) {
    forall i, j | 0 <= i < j < |section| && section[i].typ != TYPE_RRSIG && KeyOf(section[i]) == KeyOf(section[j]) ::
      && LexLeq(section[i].rdata, section[j].rdata)
      && forall k | i < k < j :: KeyOf(section[k]) == KeyOf(section[i])
  }

  lemma EmittedKeys(groups: seq<Group>, query: Bytes, params: ZoneParams, qname: Labels, i: nat)
    requires QuestionSectionEnd(query).Some?
    requires i < |EmittedGroups(groups, query, params)|
    requires EmittedGroups(groups, query, params)[i].typ != TYPE_RRSIG
    ensures exists k :: 0 <= k < |groups| && Key(qname, EmittedGroups(groups, query, params)[i]) == Key(qname, groups[k][0])
  {
    hide Sort, Rdatas, GroupRrsig, OwnerLabels, LowerLabels, QuestionSectionEnd;
    var a := EmittedGroup(groups[0], query, params);
    if i < |a| {
      if i == |Sort(Rdatas(groups[0]))| {
        RrsigType(groups[0], query, params);
      }
      assert Key(qname, EmittedGroups(groups, query, params)[i]) == Key(qname, groups[0][0]);
    } else {
      EmittedKeys(groups[1..], query, params, qname, i - |a|);
      var k :| 0 <= k < |groups[1..]| && Key(qname, EmittedGroups(groups[1..], query, params)[i - |a|]) == Key(qname, groups[1..][k][0]);
      assert groups[1..][k] == groups[k + 1];
    }
  }

  lemma GroupRuns(g: Group, query: Bytes, params: ZoneParams, qname: Labels)
    requires QuestionSectionEnd(query).Some? && g[0].typ != TYPE_RRSIG
    ensures RunsInOrder(ToRecords(qname, EmittedGroup(g, query, params)))
  {
    var section := ToRecords(qname, EmittedGroup(g, query, params));
    var sorted := Sort(Rdatas(g));
    if params.Sign() {
      RrsigType(g, query, params);
    }
    hide Sort, Rdatas, GroupRrsig, OwnerLabels, LowerLabels, QuestionSectionEnd, LexLeq;
    forall i | 0 <= i < |section| && section[i].typ != TYPE_RRSIG
      ensures i < |sorted| && section[i].rdata == sorted[i] && KeyOf(section[i]) == Key(qname, g[0])
    {
    }
  }

  lemma {:induction false} GroupsRuns(groups: seq<Group>, query: Bytes, params: ZoneParams, qname: Labels)
    requires QuestionSectionEnd(query).Some? && DistinctGroups(groups, qname)
    requires forall i | 0 <= i < |groups| :: groups[i][0].typ != TYPE_RRSIG
    ensures RunsInOrder(ToRecords(qname, EmittedGroups(groups, query, params)))
  {
    if groups != [] {
      var a, b := EmittedGroup(groups[0], query, params), EmittedGroups(groups[1..], query, params);
      var section := ToRecords(qname, a + b);
      assert EmittedGroups(groups, query, params) == a + b;
      GroupRuns(groups[0], query, params, qname);
      GroupsRuns(groups[1..], query, params, qname);
      KeysDisjoint(groups, query, params, qname);
      ToRecordsConcat(qname, a, b);
      hide *;
      RunsConcat(ToRecords(qname, a), ToRecords(qname, b));
    }
  }

  lemma KeysDisjoint(groups: seq<Group>, query: Bytes, params: ZoneParams, qname: Labels)
    requires QuestionSectionEnd(query).Some? && DistinctGroups(groups, qname) && groups != []
    ensures var a, b := ToRecords(qname, EmittedGroup(groups[0], query, params)), ToRecords(qname, EmittedGroups(groups[1..], query, params));
            forall i, j | 0 <= i < |a| && 0 <= j < |b| && a[i].typ != TYPE_RRSIG :: KeyOf(a[i]) != KeyOf(b[j])
  {
    var a, b := EmittedGroup(groups[0], query, params), EmittedGroups(groups[1..], query, params);
    hide EmittedGroup, EmittedGroups, QuestionSectionEnd, LowerLabels, OwnerLabels;
    forall i, j | 0 <= i < |a| && 0 <= j < |b| && a[i].typ != TYPE_RRSIG ensures Key(qname, a[i]) != Key(qname, b[j]) {
      if b[j].typ != TYPE_RRSIG {
        EmittedKeys(groups[1..], query, params, qname, j);
        var k :| 0 <= k < |groups[1..]| && Key(qname, b[j]) == Key(qname, groups[1..][k][0]);
        assert groups[1..][k] == groups[k + 1];
        OwnKey(groups[0], query, params, qname, i);
      }
    }
  }

  lemma OwnKey(g: Group, query: Bytes, params: ZoneParams, qname: Labels, i: nat)
    requires QuestionSectionEnd(query).Some? && i < |EmittedGroup(g, query, params)|
    requires EmittedGroup(g, query, params)[i].typ != TYPE_RRSIG
    ensures Key(qname, EmittedGroup(g, query, params)[i]) == Key(qname, g[0])
  {
    hide Sort, Rdatas, GroupRrsig, OwnerLabels, LowerLabels, QuestionSectionEnd;
    if i == |Sort(Rdatas(g))| {
      RrsigType(g, query, params);
    }
  }

  lemma RunsConcat(a: seq<D.Record>, b: seq<D.Record>)
    requires RunsInOrder(a) && RunsInOrder(b)
    requires forall i, j | 0 <= i < |a| && 0 <= j < |b| && a[i].typ != TYPE_RRSIG :: KeyOf(a[i]) != KeyOf(b[j])
    ensures RunsInOrder(a + b)
  {
    var all := a + b;
    hide KeyOf, LexLeq;
    forall i, j | 0 <= i < j < |all| && all[i].typ != TYPE_RRSIG && KeyOf(all[i]) == KeyOf(all[j])
      ensures LexLeq(all[i].rdata, all[j].rdata) && forall k | i < k < j :: KeyOf(all[k]) == KeyOf(all[i])
    {
      assert forall k | 0 <= k < |a| :: all[k] == a[k];
      assert forall k | |a| <= k < |all| :: all[k] == b[k - |a|];
    }
  }

  /** Each RRset of an emitted section is one run, in the order of section 6.3 of RFC 4034. */
  lemma EmissionRuns(rrs: seq<Rr>, query: Bytes, params: ZoneParams, qname: Labels)
    requires QuestionSectionEnd(query).Some? && Proper(rrs, qname)
    ensures RunsInOrder(ToRecords(qname, Emitted(rrs, query, params)))
  {
    GroupsAreRrsets(rrs, qname);
    forall i | 0 <= i < |Groups(rrs)| ensures Groups(rrs)[i][0].typ != TYPE_RRSIG {
      assert Groups(rrs)[i] in Groups(rrs);
    }
    GroupsRuns(Groups(rrs), query, params, qname);
  }

  lemma EmittedTypes(rrs: seq<Rr>, query: Bytes, params: ZoneParams, qname: Labels)
    requires QuestionSectionEnd(query).Some? && Proper(rrs, qname) && forall rr | rr in rrs :: rr.typ != TYPE_OPT
    ensures forall i | 0 <= i < |Emitted(rrs, query, params)| :: Emitted(rrs, query, params)[i].typ != TYPE_OPT
  {
    var groups := Groups(rrs);
    GroupsAreRrsets(rrs, qname);
    forall k | 0 <= k < |groups| ensures groups[k][0].typ != TYPE_OPT {
      assert groups[k] in groups && groups[k][0] in groups[k];
    }
    hide Groups, Proper, EmittedGroups, QuestionSectionEnd, LowerLabels, OwnerLabels, WellGrouped;
    forall i | 0 <= i < |Emitted(rrs, query, params)| ensures Emitted(rrs, query, params)[i].typ != TYPE_OPT {
      if Emitted(rrs, query, params)[i].typ != TYPE_RRSIG {
        EmittedKeys(groups, query, params, qname, i);
      }
    }
  }

  /** With the OPT record behind it an emitted section is still in runs. */
  lemma RunsWithOpt(rrs: seq<Rr>, query: Bytes, params: ZoneParams, qname: Labels, ok: bool)
    requires QuestionSectionEnd(query).Some? && Proper(rrs, qname) && forall rr | rr in rrs :: rr.typ != TYPE_OPT
    ensures RunsInOrder(ToRecords(qname, Emitted(rrs, query, params)) + OptRecords(query, ok))
  {
    hide Emitted, QueryHasOpt, QuestionSectionEnd, LowerLabels, OwnerLabels, Proper, LexLeq;
    EmissionRuns(rrs, query, params, qname);
    EmittedTypes(rrs, query, params, qname);
    RunsConcat(ToRecords(qname, Emitted(rrs, query, params)), OptRecords(query, ok));
  }

  // ----- the order of the configured name servers ------------------------------

  lemma {:induction false} OneGroup(rrs: seq<Rr>)
    requires rrs != [] && forall i | 0 <= i < |rrs| :: SameRrset(rrs[0], rrs[i])
    ensures Groups(rrs) == [rrs]
  {
    var n := |rrs| - 1;
    assert rrs == rrs[..n] + [rrs[n]];
    if n == 0 {
      assert rrs[..0] == [];
    } else {
      OneGroup(rrs[..n]);
    }
  }

  function EncodeAll(names: seq<Bytes>): seq<Bytes> {
    seq(|names|, i requires 0 <= i < |names| => Encode(names[i]))
  }

  lemma {:induction false} EncodedPermutation(a: seq<Bytes>, b: seq<Bytes>)
    requires multiset(a) == multiset(b)
    ensures multiset(EncodeAll(a)) == multiset(EncodeAll(b))
  {
    hide Encode;
    if a == [] {
      SameSize(a, b);
    } else {
      var k := FindHead(a, b);
      var less := b[..k] + b[k + 1..];
      EncodedPermutation(a[1..], less);
      assert EncodeAll(a[1..]) == EncodeAll(a)[1..];
      assert EncodeAll(less) == EncodeAll(b)[..k] + EncodeAll(b)[k + 1..];
      HeadMoved(EncodeAll(a), EncodeAll(b), k);
    }
  }

  lemma NsRdatas(names: seq<Bytes>)
    ensures Rdatas(NsSet(names)) == EncodeAll(names)
  {
    hide Encode;
  }

  /** Reordering the configured name servers changes no octet of the NS RRset or its signature. */
  lemma NsOrderIsInvisible(a: seq<Bytes>, b: seq<Bytes>, query: Bytes, params: ZoneParams)
    requires QuestionSectionEnd(query).Some? && multiset(a) == multiset(b)
    ensures RrsBytes(Emitted(NsSet(a), query, params)) == RrsBytes(Emitted(NsSet(b), query, params))
  {
    assert |a| == |multiset(a)| == |multiset(b)| == |b|;
    if a == [] {
      assert NsSet(a) == NsSet(b);
    } else {
      var ga: Group, gb: Group := NsSet(a), NsSet(b);
      NsSetIsGroup(a);
      NsSetIsGroup(b);
      hide *;
      EncodedPermutation(a, b);
      NsRdatas(a);
      NsRdatas(b);
      SortedUnique(Sort(Rdatas(ga)), Sort(Rdatas(gb)));
      SameRdatasEmitAlike(ga, gb, query, params);
    }
  }

  lemma NsSetIsGroup(names: seq<Bytes>)
    requires names != []
    ensures NsSet(names) != [] && Groups(NsSet(names)) == [NsSet(names)]
    ensures NsSet(names)[0].owner == Question && NsSet(names)[0].typ == TYPE_NS && NsSet(names)[0].ttl == TTL_RR
  {
    hide Encode;
    OneGroup(NsSet(names));
  }

  lemma SameRdatasEmitAlike(a: Group, b: Group, query: Bytes, params: ZoneParams)
    requires QuestionSectionEnd(query).Some? && Groups(a) == [a] && Groups(b) == [b]
    requires a[0].owner == b[0].owner && a[0].typ == b[0].typ && a[0].ttl == b[0].ttl && Sort(Rdatas(a)) == Sort(Rdatas(b))
    ensures Emitted(a, query, params) == Emitted(b, query, params)
  {
    hide Sort, Rdatas, QuestionSectionEnd, RrsigRdata, Groups;
    GroupAlone(a, query, params);
    GroupAlone(b, query, params);
  }

  lemma GroupAlone(g: Group, query: Bytes, params: ZoneParams)
    requires QuestionSectionEnd(query).Some?
    ensures EmittedGroups([g], query, params) == EmittedGroup(g, query, params)
  {
    hide EmittedGroup;
    assert [g][1..] == [];
    assert EmittedGroup(g, query, params) + [] == EmittedGroup(g, query, params);
  }
}
