/**
 One query to one reply: the routing decision, the builders behind it, and the
 UDP truncation on top.
 */
module Query {
  import opened Octets
  import opened Names
  import opened Zone
  import opened QueryReader
  import opened Dnssec
  import opened Message
  import opened Responses
  import Ip = IpParser

  /** `Config`; an empty `spf` or `dmarc` text switches the record off. */
  datatype Config = Config(
    glueName: Bytes,
    glueIp: Ipv4,
    glueIp6: Option<Ipv6>,
    soaName: Bytes,
    nsNames: seq<Bytes>,
    hostmaster: Bytes,
    serial: u32,
    refresh: u32,
    retry: u32,
    expire: u32,
    minimum: u32,
    spf: Bytes,
    dmarc: Bytes,
    version: Bytes,
    dnssec: Option<DnssecKey>,
    readIpv6: Ip.Ipv6Reader)

  function Params(config: Config, doBit: bool, now: u32): ZoneParams {
    ZoneParams(config.glueName, config.soaName, config.nsNames, config.glueIp, config.glueIp6, config.hostmaster,
               config.serial, config.refresh, config.retry, config.expire, config.minimum,
               if config.spf == [] then None else Some(config.spf), config.dnssec, doBit, now)
  }

  // ----- text constants --------------------------------------------------------

  function Ascii(s: string): Bytes
    requires forall i | 0 <= i < |s| :: s[i] as int < 128
  {
    if s == [] then [] else [s[0] as int] + Ascii(s[1..])
  }

  predicate IsVersionQuery(domain: Bytes) {
    EqIgnoreCase(domain, Ascii("version")) || EqIgnoreCase(domain, Ascii("ver")) || EqIgnoreCase(domain, Ascii("v"))
  }

  function DmarcOwner(zone: Bytes): Bytes { Ascii("_dmarc.") + TrimDots(zone) }

  predicate IsConfiguredNs(domain: Bytes, config: Config) {
    (exists ns | ns in config.nsNames :: NamesEq(domain, ns)) || NamesEq(domain, config.soaName)
  }

  function VersionText(config: Config): Bytes { Ascii("RustyAlias v") + config.version }

  // ----- routing ---------------------------------------------------------------

  /** Which builder a name belongs to; the query type does not matter. */
  datatype Route = Outside | Version(inZone: bool) | Dmarc | Apex | Address(ip: Addresses) | Empty

  function RouteOf(domain: Bytes, config: Config): Route {
    var inZone := IsInZone(domain, config.glueName);
    if !inZone && !IsVersionQuery(domain) then Outside
    else if IsVersionQuery(domain) then Version(inZone)
    else if config.dmarc != [] && NamesEq(domain, DmarcOwner(config.glueName)) then Dmarc
    else if NamesEq(domain, config.glueName) then Apex
    else HostRoute(domain, config, inZone)
  }

  /** The route of a name below the apex: a configured name server, an address label, or nothing. */
  function HostRoute(domain: Bytes, config: Config, inZone: bool): (route: Route)
    ensures route.Address? || route.Empty?
  {
    if IsConfiguredNs(domain, config) && inZone then Address((Some(config.glueIp), config.glueIp6))
    else
      var ip := Ip.Interpretation(domain, config.readIpv6);
      if ip.Some? then Address(ip.value) else Empty
  }

  function TxtOr(query: Bytes, qtype: u16, txt: Bytes, params: ZoneParams): Sections
    requires QuestionSectionEnd(query).Some?
  {
    if qtype == TYPE_TXT || qtype == TYPE_ANY then TxtSections(txt) else NodataSections(query, [TYPE_TXT], params)
  }

  /** The records of the authoritative answer, or none when the query is refused. */
  function Answer(query: Bytes, route: Route, qtype: u16, config: Config, params: ZoneParams): Option<Sections>
    requires QuestionSectionEnd(query).Some?
  {
    match route
    case Outside => None
    case Version(inZone) =>
      if qtype != TYPE_TXT && qtype != TYPE_ANY && !inZone then None
      else Some(TxtOr(query, qtype, VersionText(config), params))
    case Dmarc => Some(TxtOr(query, qtype, config.dmarc, params))
    case Apex => Some(ApexSections(query, qtype, params))
    case Address(ip) => Some(AddressSections(query, qtype, ip, params))
    case Empty => Some(NodataSections(query, [], params))
  }

  /** The reply to a query for `domain` in class IN. */
  function Routed(query: Bytes, domain: Bytes, qtype: u16, config: Config, params: ZoneParams): Bytes
    requires QuestionSectionEnd(query).Some?
  {
    var sections := Answer(query, RouteOf(domain, config), qtype, config, params);
    if sections.None? then ErrorReply(query, RCODE_REFUSED) else Rendered(query, sections.value, params)
  }

  /** The reply to one query at one clock reading; empty means no reply is sent. */
  function Reply(query: Bytes, config: Config, now: u32): Bytes {
    if Opcode(query) != 0 then ErrorReply(query, RCODE_NOTIMP)
    else
      var domain := ParsedDomain(query);
      var types := ParseQtypeQclass(query);
      if domain.None? || types.None? then []
      else if types.value.1 != 1 then ErrorReply(query, RCODE_REFUSED)
      else Routed(query, domain.value, types.value.0, config, Params(config, QueryDnssecOk(query), now))
  }

  method HandleQueryInternal(query: Bytes, config: Config, now: u32) returns (response: Bytes)
    ensures response == Reply(query, config, now)
  {
    hide ErrorReply, Routed, ParsedDomain, QueryDnssecOk, Opcode;
    if Opcode(query) != 0 {
      response := ErrorResponse(query, RCODE_NOTIMP);
      return;
    }
    var domain := ParseQuery(query);
    if domain.None? {
      return [];
    }
    var types := ParseQtypeQclass(query);
    if types.None? {
      return [];
    }
    var (qtype, qclass) := types.value;
    if qclass != 1 {
      response := ErrorResponse(query, RCODE_REFUSED);
      return;
    }
    response := RouteQuery(query, domain.value, qtype, config, now);
  }

  /** The decision chain from the zone test on. */
  method RouteQuery(query: Bytes, domain: Bytes, qtype: u16, config: Config, now: u32) returns (response: Bytes)
    requires QuestionSectionEnd(query).Some?
    ensures response == Routed(query, domain, qtype, config, Params(config, QueryDnssecOk(query), now))
  {
    hide ErrorReply, Rendered, ApexSections, AddressSections, TxtOr, NodataSections, IsInZone, NamesEq,
      IsVersionQuery, DmarcOwner, QueryDnssecOk, Params, QuestionSectionEnd, HostRoute;
    var inZone := IsInZone(domain, config.glueName);
    if !inZone && !IsVersionQuery(domain) {
      response := ErrorResponse(query, RCODE_REFUSED);
      return;
    }
    var params := Params(config, QueryDnssecOk(query), now);
    ghost var route := RouteOf(domain, config);
    if IsVersionQuery(domain) {
      assert route == Version(inZone);
      if !inZone && qtype != TYPE_TXT && qtype != TYPE_ANY {
        response := ErrorResponse(query, RCODE_REFUSED);
      } else {
        response := BuildTxtOr(query, qtype, VersionText(config), params);
      }
    } else if config.dmarc != [] && NamesEq(domain, DmarcOwner(config.glueName)) {
      assert route == Dmarc;
      response := BuildTxtOr(query, qtype, config.dmarc, params);
    } else if NamesEq(domain, config.glueName) {
      assert route == Apex;
      response := BuildApex(query, qtype, params);
    } else {
      response := RouteHost(query, domain, qtype, config, inZone, params);
    }
  }

  method BuildTxtOr(query: Bytes, qtype: u16, txt: Bytes, params: ZoneParams) returns (response: Bytes)
    requires QuestionSectionEnd(query).Some?
    ensures response == Rendered(query, TxtOr(query, qtype, txt, params), params)
  {
    hide Rendered, NodataSections, TxtSections;
    if qtype == TYPE_TXT || qtype == TYPE_ANY {
      response := BuildTxt(query, txt, params);
    } else {
      response := BuildNodata(query, params, [TYPE_TXT]);
    }
  }

  method RouteHost(query: Bytes, domain: Bytes, qtype: u16, config: Config, inZone: bool, params: ZoneParams)
    returns (response: Bytes)
    requires QuestionSectionEnd(query).Some?
    ensures var route := HostRoute(domain, config, inZone);
            response == Rendered(query, if route.Address? then AddressSections(query, qtype, route.ip, params)
                                        else NodataSections(query, [], params), params)
  {
    hide Rendered, AddressSections, NodataSections, IsConfiguredNs, QuestionSectionEnd;
    if IsConfiguredNs(domain, config) && inZone {
      response := BuildAddress(query, qtype, (Some(config.glueIp), config.glueIp6), params);
    } else {
      var ip := Ip.InterpretIp(domain, config.readIpv6);
      if ip.Some? {
        response := BuildAddress(query, qtype, ip.value, params);
      } else {
        response := BuildNodata(query, params, []);
      }
    }
  }

  // ----- truncation ------------------------------------------------------------

  function SetTc(flags: byte): byte { if (flags / 2) % 2 == 1 then flags else flags + 2 }

  /** Header and question of `response` with TC set and the other sections dropped. */
  function TruncatedBase(response: Bytes, query: Bytes, qend: nat): Bytes
    requires |response| >= 4 && 12 <= qend <= |query|
  {
    response[0..2] + [SetTc(response[2]), response[3]] + query[4..6] + [0, 0, 0, 0, 0, 0] + query[12..qend]
  }

  function Truncated(response: Bytes, query: Bytes): Bytes {
    var limit := UdpResponseLimit(query);
    if |response| <= limit || QuestionSectionEnd(query).None? then response
    else
      var qend := QuestionSectionEnd(query).value;
      var full := WithOpt(TruncatedBase(response, query, qend), query, false);
      if |full| > limit then full[..qend][OFFSET_ARCOUNT := 0][OFFSET_ARCOUNT + 1 := 0] else full
  }

  method MaybeTruncateUdp(response: Bytes, query: Bytes) returns (r: Bytes)
    ensures r == Truncated(response, query)
  {
    var limit := UdpResponseLimit(query);
    if |response| <= limit {
      return response;
    }
    var end := QuestionSectionEnd(query);
    if end.None? {
      return response;
    }
    hide UdpResponseLimit, QuestionSectionEnd, WithOpt;
    var qend := end.value;
    var truncated := new ByteBuffer([]);
    truncated.Extend(response[0..2]);
    truncated.Extend([SetTc(response[2])]);
    truncated.Extend([response[3]]);
    truncated.Extend(query[4..6]);
    truncated.Extend([0, 0, 0, 0, 0, 0]);
    truncated.Extend(query[12..qend]);
    assert truncated.data == TruncatedBase(response, query, qend);
    MaybeAppendOpt(truncated, query, false);
    if |truncated.data| > limit {
      truncated.data := truncated.data[..12 + (qend - 12)];
      truncated.data := truncated.data[OFFSET_ARCOUNT := 0];
      truncated.data := truncated.data[OFFSET_ARCOUNT + 1 := 0];
    }
    r := truncated.data;
  }

  /** `handle_query` up to the socket: no datagram for an empty response. */
  method HandleQuery(query: Bytes, config: Config, now: u32) returns (datagram: Option<Bytes>)
    ensures datagram == if Reply(query, config, now) == [] then None
                        else Some(Truncated(Reply(query, config, now), query))
  {
    hide Reply, Truncated;
    var response := HandleQueryInternal(query, config, now);
    if response == [] {
      return None;
    }
    var r := MaybeTruncateUdp(response, query);
    return Some(r);
  }
}
