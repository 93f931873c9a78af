/**
 The addresses of hosts: those of the name servers as configured, those of every other name as the
 name spells them.
 */
module Hosts {
  import opened Octets
  import opened Names
  import opened QueryReader
  import opened Letters
  import opened Message
  import opened Query
  import opened Ip = IpParser
  import opened Spelling
  import opened Replies
  import opened ZoneData
  import opened Served
  import D = Decoder

  // ----- hosts -----------------------------------------------------------------

  /** A name of the zone that is neither its apex nor one of the two kinds of text. */
  ghost predicate AsksHost(query: Bytes, name: Labels, config: Config) {
    && StandardQuery(query, name) && InZone(name, config)
    && !IsVersionName(name) && !IsDmarcName(name, config) && !IsApex(name, config)
  }

  lemma OnlyOne(r: D.Record, t: u16)
    ensures OnlyType([r], t) == if r.typ == t then [r] else []
  {
    assert [r][1..] == [];
  }

  lemma OnlyAddresses(owner: Labels, v4: Option<Ipv4>, v6: Option<Ipv6>)
    ensures OnlyType(AddressRecords(owner, v4, v6), 1) == AddressRecords(owner, v4, None)
    ensures OnlyType(AddressRecords(owner, v4, v6), 28) == AddressRecords(owner, None, v6)
  {
    var a, aaaa := AddressRecords(owner, v4, None), AddressRecords(owner, None, v6);
    if v4.Some? {
      OnlyOne(a[0], 1);
      OnlyOne(a[0], 28);
    }
    if v6.Some? {
      OnlyOne(aaaa[0], 1);
      OnlyOne(aaaa[0], 28);
    }
    assert AddressRecords(owner, v4, v6) == a + aaaa;
    if v4.Some? {
      assert (a + aaaa)[1..] == aaaa;
    }
  }

  lemma OneFamily(owner: Labels, v4: Option<Ipv4>, v6: Option<Ipv6>)
    ensures AddressRecords(owner, v4, None) == if v4.Some? then [D.Record(owner, 1, 1, 60, v4.value)] else []
    ensures AddressRecords(owner, None, v6) == if v6.Some? then [D.Record(owner, 28, 1, 60, v6.value)] else []
  {
  }

  lemma AtMostOne<T>(s: seq<T>, r: seq<T>)
    requires multiset(s) == multiset(r) && |r| <= 1
    ensures s == r
  {
    assert |s| == |multiset(s)| == |multiset(r)| == |r|;
    if r != [] {
      assert r == [r[0]];
      OneElement(s, r[0]);
    }
  }

  lemma AddressAnswer(query: Bytes, name: Labels, config: Config, now: u32, v4: Option<Ipv4>, v6: Option<Ipv6>)
    requires StandardQuery(query, name) && ValidConfig(config) && InZone(name, config) && |query| >= 12 + |Wire(name)| + 4
    requires Owned(name, config) == AddressRecords(name, v4, v6) && !AtApex(name, config)
    ensures AskedType(query, name) == 1 ==>
              PlainAnswers(query, config, now) == Some(if v4.Some? then [D.Record(name, 1, 1, 60, v4.value)] else [])
    ensures AskedType(query, name) == 28 ==>
              PlainAnswers(query, config, now) == Some(if v6.Some? then [D.Record(name, 28, 1, 60, v6.value)] else [])
  {
    hide StandardQuery, ValidConfig, InZone, Owned, OnlyType, AtApex, PlainAnswers, AskedType, Wire, SaysOwned;
    ServedAnswers(query, name, config, now);
    OnlyAddresses(name, v4, v6);
    OneFamily(name, v4, v6);
    if AskedType(query, name) == 1 {
      AtMostOne(PlainAnswers(query, config, now).value, AddressRecords(name, v4, None));
    }
    if AskedType(query, name) == 28 {
      AtMostOne(PlainAnswers(query, config, now).value, AddressRecords(name, None, v6));
    }
  }

  /** A configured name server in the zone has the configured addresses, whatever its labels spell. */
  lemma NameServerServed(query: Bytes, name: Labels, config: Config, now: u32)
    requires AsksHost(query, name, config) && ValidConfig(config) && |query| >= 12 + |Wire(name)| + 4
    requires SameName(ReadAs(name), TextLabels(config.soaName)) || exists ns :: ns in config.nsNames && SameName(ReadAs(name), TextLabels(ns))
    ensures AskedType(query, name) == 1 ==> PlainAnswers(query, config, now) == Some([D.Record(name, 1, 1, 60, config.glueIp)])
    ensures AskedType(query, name) == 28 ==>
              PlainAnswers(query, config, now)
              == Some(if config.glueIp6.Some? then [D.Record(name, 28, 1, 60, config.glueIp6.value)] else [])
  {
    hide StandardQuery, ValidConfig, InZone, IsVersionName, IsDmarcName, IsApex, SameName, TextLabels, ReadAs, PlainAnswers, AskedType, Wire;
    AddressAnswer(query, name, config, now, Some(config.glueIp), config.glueIp6);
  }

  /** Every other name has the addresses that it spells, and no others: a question for an A record is
      answered with an address exactly when the name spells it, a question for an AAAA record alike. */
  lemma SpelledServed(query: Bytes, name: Labels, config: Config, now: u32, v4: Ipv4, v6: Ipv6)
    requires AsksHost(query, name, config) && ValidConfig(config) && !IsServer(name, config) && |query| >= 12 + |Wire(name)| + 4
    ensures AskedType(query, name) == 1 ==>
              && PlainAnswers(query, config, now).Some? && |PlainAnswers(query, config, now).value| <= 1
              && (PlainAnswers(query, config, now) == Some([D.Record(name, 1, 1, 60, v4)]) <==> NameSpells(Pieces(name), v4))
              && (PlainAnswers(query, config, now) == Some([]) <==> forall ip: Ipv4 :: !NameSpells(Pieces(name), ip))
    ensures AskedType(query, name) == 28 ==>
              && PlainAnswers(query, config, now).Some? && |PlainAnswers(query, config, now).value| <= 1
              && (PlainAnswers(query, config, now) == Some([D.Record(name, 28, 1, 60, v6)])
                  <==> NameSpellsV6(Pieces(name), v6, config.readIpv6))
              && (PlainAnswers(query, config, now) == Some([]) <==> forall ip: Ipv6 :: !NameSpellsV6(Pieces(name), ip, config.readIpv6))
  {
    hide StandardQuery, ValidConfig, InZone, IsVersionName, IsDmarcName, IsApex, IsServer, PlainAnswers, AskedType, Wire, AddressesOf,
      NameSpells, NameSpellsV6, Pieces;
    var ip := AddressesOf(Pieces(name), config.readIpv6);
    AddressAnswer(query, name, config, now, ip.0, ip.1);
    SpelledOrNot(Pieces(name), v4, v6, config.readIpv6);
  }

  lemma SpelledOrNot(name: Labels, v4: Ipv4, v6: Ipv6, read: Ipv6Reader)
    ensures AddressesOf(name, read).0 == Some(v4) <==> NameSpells(name, v4)
    ensures AddressesOf(name, read).0.None? <==> forall ip: Ipv4 :: !NameSpells(name, ip)
    ensures AddressesOf(name, read).1 == Some(v6) <==> NameSpellsV6(name, v6, read)
    ensures AddressesOf(name, read).1.None? <==> forall ip: Ipv6 :: !NameSpellsV6(name, ip, read)
  {
    hide AddressesOf, NameSpells, NameSpellsV6;
    forall ip: Ipv4 ensures AddressesOf(name, read).0 == Some(ip) <==> NameSpells(name, ip) {
      NameReads(name, ip, read);
    }
    forall ip: Ipv6 ensures AddressesOf(name, read).1 == Some(ip) <==> NameSpellsV6(name, ip, read) {
      NameReadsV6(name, ip, read);
    }
    if AddressesOf(name, read).0.Some? {
      assert NameSpells(name, AddressesOf(name, read).0.value);
    }
    if AddressesOf(name, read).1.Some? {
      assert NameSpellsV6(name, AddressesOf(name, read).1.value, read);
    }
  }

  /** Eight hexadecimal digits between hyphens in the first label: where no four of its parts in a row
      print an address and none before them has eight such digits, they are the answer. */
  lemma HexPartServed(query: Bytes, name: Labels, config: Config, now: u32, pre: seq<Bytes>, digits: Bytes, post: seq<Bytes>, ip: Ipv4)
    requires AsksHost(query, name, config) && ValidConfig(config) && !IsServer(name, config) && |query| >= 12 + |Wire(name)| + 4
    requires AskedType(query, name) == 1 && Pieces(name)[0] == Join(pre + [digits] + post, 45)
    requires forall p | p in pre + [digits] + post :: 45 !in p
    requires NoDecimal(pre + [digits] + post) && SameText(digits, PrintedHex(ip)) && NoHex(pre)
    ensures PlainAnswers(query, config, now) == Some([D.Record(name, 1, 1, 60, ip)])
  {
    hide AsksHost, ValidConfig, IsServer, PlainAnswers, AskedType, Wire, LabelSpells, Join, NoDecimal, NoHex, SameText, PrintedHex, LabelIpv4,
      NameSpellsV6;
    HexPartReads(pre, digits, post, ip);
    LabelReads(Pieces(name)[0], ip);
    assert NameSpells(Pieces(name), ip);
    SpelledServed(query, name, config, now, ip, [0, 0, 0, 0, 0, 0, 0, 0, 0, 0, 0, 0, 0, 0, 0, 0]);
  }

  // ----- printed addresses -----------------------------------------------------

  lemma AnsweredAs(query: Bytes, name: Labels, config: Config, now: u32, ip: Ipv4)
    requires AsksHost(query, name, config) && ValidConfig(config) && !IsServer(name, config) && |query| >= 12 + |Wire(name)| + 4
    requires AskedType(query, name) == 1 && DotFree(name)
    ensures PlainAnswers(query, config, now) == Some([D.Record(name, 1, 1, 60, ip)])
       <==> AddressesOf(name, config.readIpv6).0 == Some(ip)
  {
    hide AsksHost, ValidConfig, IsServer, PlainAnswers, AskedType, Wire, AddressesOf, NameSpells, NameSpellsV6, Pieces, ReadAs, DotFree;
    PlainName(query, name, config);
    DotFreeReads(name);
    NameReads(name, ip, config.readIpv6);
    SpelledServed(query, name, config, now, ip, [0, 0, 0, 0, 0, 0, 0, 0, 0, 0, 0, 0, 0, 0, 0, 0]);
  }

  lemma PlainName(query: Bytes, name: Labels, config: Config)
    requires AsksHost(query, name, config)
    ensures name != [] && forall l | l in name :: l != []
  {
    hide InZone, IsVersionName, IsDmarcName, IsApex, ValidName, AskedClass, Wire;
    AskedLabels(query, name);
  }

  lemma FirstLabelReads(name: Labels, ip: Ipv4, read: Ipv6Reader)
    requires name != []
    requires name[0] == Join(PrintedParts(ip), 45) || SameText(name[0], PrintedHex(ip))
    ensures AddressesOf(name, read).0 == Some(ip)
  {
    hide PrintedParts, PrintedHex, HyphenIp, HexIp, Join, FirstWindow, SameText;
    HyphenPrintParse(ip);
    WholeHexIsPart(name[0]);
    HexReads(name[0], ip);
    if SameText(name[0], PrintedHex(ip)) {
      DigitsPrint(name[0], ip);
    }
    assert LabelIpv4(name[0]) == Some(ip);
  }

  /** An address printed with hyphens, or as eight hexadecimal digits in either case, in front of a
      name is what a question for its A record is answered with. */
  lemma SpelledAddressAnswered(query: Bytes, name: Labels, config: Config, now: u32, ip: Ipv4)
    requires AsksHost(query, name, config) && ValidConfig(config) && !IsServer(name, config) && |query| >= 12 + |Wire(name)| + 4
    requires AskedType(query, name) == 1 && DotFree(name) && name != []
    requires name[0] == Join(PrintedParts(ip), 45) || SameText(name[0], PrintedHex(ip))
    ensures PlainAnswers(query, config, now) == Some([D.Record(name, 1, 1, 60, ip)])
  {
    hide AsksHost, ValidConfig, IsServer, PlainAnswers, AskedType, Wire, AddressesOf, PrintedParts, PrintedHex, Join, SameText, DotFree;
    FirstLabelReads(name, ip, config.readIpv6);
    AnsweredAs(query, name, config, now, ip);
  }

  lemma PrintedOctetAlone(v: byte)
    ensures LabelIpv4(PrintOctet(v)).None?
  {
    assert HYPHEN !in PrintOctet(v) && |PrintOctet(v)| <= 3;
    ShortLabel(PrintOctet(v));
  }

  lemma {:induction false} FirstMatchAfter<T>(pre: seq<Bytes>, post: seq<Bytes>, f: Bytes -> Option<T>)
    requires forall p | p in pre :: f(p).None?
    ensures FirstMatch(pre + post, f) == FirstMatch(post, f)
  {
    if pre == [] {
      assert pre + post == post;
    } else {
      assert pre[0] in pre;
      assert forall p | p in pre[1..] :: p in pre;
      FirstMatchAfter(pre[1..], post, f);
      assert (pre + post)[1..] == pre[1..] + post;
    }
  }

  /** Four decimal labels in front of others read as their address, unless one of the others reads
      as an address by itself: then the first of these wins. */
  lemma DottedReads(ip: Ipv4, others: Labels, read: Ipv6Reader)
    ensures AddressesOf(PrintedParts(ip) + others, read).0
         == Some(if FirstMatch(others, LabelIpv4).Some? then FirstMatch(others, LabelIpv4).value else ip)
  {
    hide LabelIpv4, PrintOctet, FirstMatch;
    var four := PrintedParts(ip);
    PrintedOctetAlone(ip[0]);
    PrintedOctetAlone(ip[1]);
    PrintedOctetAlone(ip[2]);
    PrintedOctetAlone(ip[3]);
    FirstMatchAfter(four, others, LabelIpv4);
    assert (four + others)[0..4] == four;
    FourIsPrinted(four, ip);
    assert WindowAt(four + others, 0) == Some(ip);
    hide WindowAt, FourOctets;
  }

  /** An address printed with dots in front of a name is what a question for its A record is
      answered with, exactly when the first label behind it that spells an address, if any,
      spells the same one. */
  lemma DottedAddressAnswered(query: Bytes, ip: Ipv4, others: Labels, config: Config, now: u32)
    requires var name := PrintedParts(ip) + others;
             && AsksHost(query, name, config) && ValidConfig(config) && !IsServer(name, config)
             && |query| >= 12 + |Wire(name)| + 4 && AskedType(query, name) == 1 && DotFree(name)
    ensures PlainAnswers(query, config, now) == Some([D.Record(PrintedParts(ip) + others, 1, 1, 60, ip)])
       <==> NoneSpells(others) || LabelsSpell(others, ip)
  {
    hide AsksHost, ValidConfig, IsServer, PlainAnswers, AskedType, Wire, AddressesOf, PrintedParts, LabelIpv4, FirstMatch, DotFree,
      NoneSpells, LabelsSpell;
    DottedReads(ip, others, config.readIpv6);
    LabelsRead(others, ip);
    AnsweredAs(query, PrintedParts(ip) + others, config, now, ip);
  }

  /** A zone label may win: 1.2.3.4.deadbeef reads 222.173.190.239. */
  lemma ZoneLabelWins(read: Ipv6Reader)
    ensures AddressesOf(PrintedParts([1, 2, 3, 4]) + [[100, 101, 97, 100, 98, 101, 101, 102]], read).0 == Some([222, 173, 190, 239])
  {
    hide LabelIpv4, PrintedParts, AddressesOf, PrintedHex;
    var word: Bytes := [100, 101, 97, 100, 98, 101, 101, 102];
    DeadBeef();
    HexPrintParse([222, 173, 190, 239]);
    DottedReads([1, 2, 3, 4], [word], read);
    assert [word][0] == word;
  }

  lemma HexPrintParse(ip: Ipv4)
    ensures LabelIpv4(PrintedHex(ip)) == Some(ip)
  {
    hide PrintedHex, HyphenIp, HexIp;
    HexReads(PrintedHex(ip), ip);
    LowerIsSmall(PrintedHex(ip));
    assert HexPrints(PrintedHex(ip), ip);
  }

  lemma DeadBeef()
    ensures PrintedHex([222, 173, 190, 239]) == [100, 101, 97, 100, 98, 101, 101, 102]
  {
  }
}
