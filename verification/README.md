# RustyAlias verification

A Dafny model of RustyAlias, the authoritative DNS server that makes up every answer from the
name asked for and signs it on the way out, with proofs of what its replies mean.

The model follows the program's own structure. Octet strings are `seq<byte>` (`Octets.dfy`), names
exist as text, label lists and wire octets (`Names.dfy`, `Zone.dfy`, `QueryReader.dfy`). The response
builder is the `Msg` object over a growing buffer (`Message.dfy`, `Responses.dfy`), routing and
truncation are in `Query.dfy`, signing in `Dnssec.dfy` and `TypeBitmap.dfy`, the address readers in
`IpParser.dfy`, the shared rate limiter in `RateLimiter.dfy`, its runs in `RateRuns.dfy`. Code that
loops or updates in place is a method or a class proved against a function; the theorems are about
those functions.

`ZoneData.dfy` says from the configuration alone, in the numbers of the standards, which records every
name has, and `Spelling.dfy` which address a name spells. `Served.dfy`, `Hosts.dfy` and
`PublishedKeys.dfy` compare these with the replies on the wire: `Served.ServedReply`,
`Served.ServedAnswers`, `Served.ServedAuthority`, `Served.ServedAdditional`, `Hosts.SpelledServed` and
`Hosts.NameServerServed` together fix header, question and every section of every reply to a legal
question. What a query's OPT record means is in `Edns.dfy`, which queries get no reply in
`Silence.dfy`.

Against the program stand readers written from the standards alone: a message decoder with
compression pointers (`Decoder.dfy`, section 4.1 of RFC 1035), a signature validator
(`Validator.dfy`, sections 3.1.8.1, 6.2 and 6.3 of RFC 4034 and sections 5.3.1 and 5.3.2 of RFC
4035) with key tags of its own (`KeyTags.dfy`, Appendix B of RFC 4034), a strict type-bitmap reader
(section 4.1.2 of RFC 4034), an NSEC reader (`Denial.dfy`), the canonical order of names
(`CanonicalOrder.dfy`, section 6.1 of RFC 4034), and UTF-8 from its code points (`Utf8.dfy`, section 3
of RFC 3629). The decoder refuses names of more than 255 octets. That these readers recover from the
octets of a reply exactly what the builders put in is said by
`Replies.ReplyDecodes`, `Replies.ReplyValidates`, `Replies.InZoneRepliesAuthentic`,
`Denial.NsecTruthful`, `Truncation.DatagramWhole` and `PublishedKeys.PublishedKeyValidates`. For the
rate limiter the main results are
`RateLimiter.BehaviorConserves`, `RateRuns.ClientsAreIsolated`, `RateRuns.AdmissionBound` and
`RateRuns.AdmissionBoundAttained`.

A question is well formed when it asks for one legal name in class IN with labels of UTF-8 that
hold no octet 0; a configuration is legal when its names are and its name servers are distinct under
`names_eq` and from 1 to 16000 in number, a chosen bound under which no count of a reply exceeds its
16 bits. `Questions.dfy` shows that these hypotheses are met, by every legal name and by a concrete
configuration. Where the program falls short of what one would like, the model keeps the program
and proves when it does:

- A signature whose owner begins with an asterisk counts that label, so a validator rebuilds other
  octets or none; a version answer outside the zone is signed with a signer the owner does not
  belong to. `Replies.ReplyValidates` accepts a signature in its time iff neither is the case, and
  `Questions.ShortfallsHappen` shows both.
- The NSEC bitmap always lists RRSIG and NSEC, and ANY is answered without being listed:
  `Denial.NsecTruthful` is an equivalence with exactly these exceptions, and
  `Questions.SignatureTypeListed` is one at every name.
- `is_in_zone` refuses a zone prefixed with a single dot: the exception of
  `Zone.InZoneIsLabelSuffix`.
- The Next Domain Name is too long for owners of more than 253 octets
  (`CanonicalOrder.ImmediateSuccessor`), so a reader refuses that NSEC record: `Denial.NsecReads`,
  `Questions.LongOwnerUnreadable`.
- Length octets wrap at 256: `Names.LongLabelsCollide`.
- The dual-stack hostnames of the repository's README.md may name the families "in either order".
  For two labels of which one reads as IPv4 that holds iff they do not disagree on a family; where
  neither does, the dotted windows must agree as well: `IpParser.OrderMatters`, with
  `IpParser.RivalLabels` and `IpParser.DottedOrderMatters` for the two ways to fail.
- Pruning is invisible as long as no clock reading is earlier than that of a previous call that
  found more than 1024 entries: `RateRuns.PruningIsInvisible`. Otherwise a client may be admitted with
  its quota spent: `RateRuns.WhenPruningShows` says when, `RateRuns.PruningShowsOutOfOrder` gives a
  run.
- The server looks for the client's OPT record at one place only, behind the question:
  `Edns.OptScanExact` says which record it takes for one, `Edns.SecondOptUnseen` and
  `Edns.AnswerTakenForOpt` show it wrong both ways.
- A label may hold a dot, which the text of the name turns into a label boundary. Such a name may lie
  in the zone by its text and outside by its labels, and is then answered with authority:
  `Zone.WireMembership`, `Questions.DenialRefused`. What is served is the zone's data for the labels of
  the text (`ZoneData.ReadAs`), which are the name's own unless it has such a label.
- A label of the zone that reads as an address takes precedence over a dotted address in front of it:
  `Hosts.DottedAddressAnswered`.
- A fixed window admits up to 2N - 1 requests in a half-open interval of one window length, not 2N,
  because the admission that opened the earlier window lies before the interval:
  `RateRuns.SharpInWindows`, attained by `RateRuns.AdmissionBoundAttained`.

## Model

| member | source | states |
|---|---|---|
| `Served.ServedReply` | src/dns/query.rs:126-197 | every query with one legal question gets a reply that decodes: ID, OPCODE and RD echoed, QR set, TC, RA and Z clear, the question echoed; RCODE 4 iff the OPCODE is not 0, else 5 iff the class is not IN or the name lies outside the zone and is not a version name asked for TXT or ANY; AA iff the RCODE is 0; a refusal has no records but OPT |
| `Served.ServedAnswers` | src/dns/response.rs:508-633 | for every name of the zone and every type the answers read off the wire are exactly the records that the configuration gives the name: those of the type asked for, all of them for ANY, and for NSEC at a signed apex one record that reads back as their types with 46 and 47 |
| `Served.ServedAuthority` | src/dns/response.rs:468-490 | beside an answer stand the name servers, for the SOA of the apex, or nothing; where there is none, the SOA of the zone and, in a signed reply, an NSEC that reads back as the types of the name's records with 46 and 47 |
| `Served.ServedAdditional` | src/dns/response.rs:323-347 | for SOA, NS and ANY at the apex the configured addresses of every name server in the zone, else nothing, and an OPT record of size 1232 iff the server sees one in the query, with DO iff the reply is signed |
| `Served.VersionServedOutside` | src/dns/query.rs:159-162 | outside the zone too, version, ver and v are answered to TXT and ANY with RustyAlias v and the version |
| `ZoneData.RouteServed` | src/dns/query.rs:152-196 | the decision chain over texts takes every name where the labels of its text say, up to case: version, outside, DMARC, apex, name server, address, nothing |
| `ZoneData.OwnedIsAnswer` | src/dns/response.rs:508-633 | the builders collect the records of the type asked for, for every name and every type but the two exceptions |
| `ZoneData.SoaSays` | src/dns/query.rs:38-55 | the SOA data of the zone reads back as the configured MNAME, RNAME, serial, refresh, retry, expire and minimum |
| `ZoneData.TextSays` | src/dns/response.rs:280-287 | text data reads back as the text or its first 255 octets |
| `Silence.DroppedWhen` | src/dns/query.rs:88-143 | behind a whole header and question, of any legal labels, a query gets no reply iff its OPCODE is 0 and it counts not one question, asks for the root, or has a label that is no UTF-8 |
| `Silence.ShortDropped` | src/dns/query.rs:88-92 | less than a header gets no reply |
| `Utf8.TextIsUtf8` | src/dns/query.rs:119 | octets are taken for text iff they encode code points that are no surrogates |
| `Letters.SameTextLower` | src/dns/response.rs:425-428 | lowercased texts are equal iff the texts differ at most in the case of ASCII letters |
| `Letters.LowerIsSmall` | src/dns/dnssec.rs:300-302 | lowercasing leaves no capital and changes nothing but case |
| `Replies.ReplyDecodes` | src/dns/response.rs:334-348 | for every well-formed question and legal configuration the reply decodes under RFC 1035 section 4.1: echoed header and question, each section as a multiset exactly the records put in next to signatures, OPT last iff the server sees one in the query (`Edns.OptScanExact` says when), every RRset one run in canonical order |
| `Replies.ReplyValidates` | src/dns/dnssec.rs:117-153 | in the signed reply as read off the wire every RRset is covered by a signature, and every signature names its validity and is accepted by a validator of RFC 4034/4035 at any time t iff its owner lies in the zone, has no leading asterisk, and t lies from 3600 seconds before the clock reading to 604800 after it, cut to 32 bits |
| `Replies.InZoneRepliesAuthentic` | src/dns/response.rs:370-412 | for every question that ends in the zone's labels, without a leading asterisk, every signature in every section is accepted from 3600 seconds before the clock reading to 604800 after it |
| `Replies.ReplyIsRendered` | src/dns/query.rs:126-197 | the reply to a well-formed question is the rendering of the sections of its route, or a refusal; all readers of the question agree on the way |
| `Replies.AnswerGood` | src/dns/response.rs:508-633 | the sections of every answer, on every route and type, hold no split RRset, no repeated RDATA, only canonical RDATA, one TTL per RRset |
| `Replies.SectionsFit` | src/dns/response.rs:358-368 | names, RDATA lengths and record counts of every answer fit their fields, so no 16-bit count or length wraps or saturates |
| `Replies.AnswerOwners` | src/dns/response.rs:266-332 | answers belong to the question, authority records to the question or the zone, additional records to the glue |
| `Emission.RunsWithOpt` | src/dns/response.rs:334-347 | the additional section stays in runs with the OPT record behind it |
| `Replies.GlueOwners` | src/dns/response.rs:323-332 | glue is owned by configured name servers inside the zone only |
| `RoundTrip.FinishedDecodes` | src/dns/response.rs:334-348 | whatever is put into a message, if it fits the wire the reader recovers it: identity, flags, question, the three emitted lists, OPT |
| `RoundTrip.FinishedLayout` | src/dns/response.rs:334-347 | the buffer is one counted header, the question and the three sections; the counts bumped in place equal the list lengths, OPT included |
| `RoundTrip.RecordDecodes` | src/dns/response.rs:358-368 | a written record reads back, its pointer owner as the QNAME |
| `RoundTrip.OptDecodes` | src/dns/response.rs:151-164 | the appended OPT record reads back as the root-owned OPT with size 1232 and the DO bit |
| `RoundTrip.HeaderReads` | src/dns/response.rs:79-86 | the reader finds ID, OPCODE and RD of the query, AA and RCODE as asked, QR set, TC, RA and Z clear |
| `RoundTrip.PartsDecode` | src/dns/response.rs:218-232 | header, question and any three lists in one buffer decode to one message |
| `Decoder.NameDecodes` | src/dns/response.rs:430-441 | a written name reads back as its own labels iff it is a legal name; one that is only too long is refused |
| `Decoder.PointerDecodes` | src/dns/response.rs:358-361 | the pointer to offset 12 reads as the QNAME and takes two octets |
| `Emission.EmissionConserves` | src/dns/response.rs:370-412 | emitting a section neither loses, adds nor alters a record: without signatures it is the same multiset, TTLs included |
| `Emission.EmissionRuns` | src/dns/response.rs:377-398 | each RRset of an emitted section is one unbroken run with RDATA in the order of RFC 4034 section 6.3 |
| `Emission.NsOrderIsInvisible` | src/dns/response.rs:266-270 | reordering the configured name servers changes no octet of the emitted NS RRset or its signature |
| `Emission.RdatasOfGroups` | src/dns/response.rs:388-398 | a reader that collects one owner and type from an emitted section gets that RRset's sorted RDATA, nothing else |
| `Rrsets.GroupsAreRrsets` | src/dns/response.rs:377-386 | for a proper list the adjacent groups are exactly the RRsets: no RRset is split over two groups |
| `Rrsets.GroupsFlat` | src/dns/response.rs:377-386 | grouping only inserts boundaries |
| `Octets.SortedUnique` | src/dns/response.rs:393 | canonical order is unique: one arrangement of a multiset of RDATA is sorted |
| `Octets.LexByFirstDifference` | src/dns/response.rs:393 | the order is that of the first octet in which two strings differ, the shorter first without one |
| `Octets.Sort` | src/dns/response.rs:393 | the result is sorted as unsigned octet strings and is a permutation |
| `Message.BumpCount` | src/dns/response.rs:146-149 | the count at the offset goes up by one, saturating, and no other octet changes |
| `Message.BumpedTwice` | src/dns/response.rs:146-149 | bumping j and then k times is bumping j + k times, saturation included |
| `Message.WriteRr` | src/dns/response.rs:358-368 | appends one record in wire form |
| `Message.GroupRrs` | src/dns/response.rs:377-386 | the loop computes the grouping that the RRset theorems are about |
| `Message.EmitSection` | src/dns/response.rs:370-412 | the buffer gains the emitted records and the header count rises by their number, signatures included |
| `Message.EmitGroup` | src/dns/response.rs:388-411 | one group is written as its sorted RRset and then its signature |
| `Message.SignGroup` | src/dns/response.rs:401-406 | the signature is made over the canonical owner of the group |
| `Contents.AnyIsUnion` | src/dns/response.rs:574-590 | at every name, ANY answers for each existing type exactly the records that type alone answers, and nothing of any other type |
| `Contents.AnyHoldsExisting` | src/dns/response.rs:574-590 | ANY answers nothing but existing types, at names without any included |
| `Contents.AnswersFitQuestion` | src/dns/response.rs:508-633 | an answer record is owned by the question and has the type asked for, unless that was ANY |
| `Contents.SoaReadsBack` | src/dns/response.rs:249-259 | SOA RDATA reads back as the configured MNAME, RNAME and five numbers, each in its place |
| `Contents.NegativeTtl` | src/dns/response.rs:468-490 | a negative answer leads with the SOA of the zone apex and its NSEC has that SOA's MINIMUM for a TTL, which is the negative lifetime of RFC 2308 iff it is at most the SOA's own TTL of 3600 |
| `Contents.TextReadsBack` | src/dns/response.rs:280-287 | TXT RDATA is one character-string, a prefix of the text, and the whole text iff it has at most 255 octets |
| `Denial.NsecTruthful` | src/dns/response.rs:468-490 | the NSEC of a signed denial, read off the wire, reads back iff the owner has at most 253 octets; it then tells the truth about the octets of the reply to any other question for the name, in any spelling (type in bitmap iff ANCOUNT > 0), for exactly the types other than 46, 47 below the apex, and 255 where types exist; and it covers no other name |
| `Denial.DenialHoldsNsec` | src/dns/response.rs:473-489 | a signed answer without records holds the NSEC of the question and no other |
| `Denial.NsecReads` | src/dns/dnssec.rs:193-206 | NSEC RDATA reads back, iff the owner has at most 253 octets, as the successor of the lowercased question and the existing types with 46 and 47 |
| `CaseBlind.RouteBlind` | src/dns/query.rs:152-195 | two spellings of one name take one route, given an IPv6 parser that does not tell case |
| `CaseBlind.InZoneBlind` | src/dns/query.rs:68-86 | zone membership looks through case |
| `CaseBlind.InterpretationBlind` | src/dns/ip_parser.rs:9-47 | so do the address readers |
| `Denial.AnswerCount` | src/dns/query.rs:157-196 | ANCOUNT on the wire is positive iff the name answers the type, over all routes |
| `Denial.AnswersNonempty` | src/dns/response.rs:508-633 | which types each route answers; everything else gets the negative sections for the route's types |
| `Denial.BitmapMatches` | src/dns/response.rs:57-69 | bitmap and answers agree iff the type is none of the exceptions, for every route |
| `CanonicalOrder.ImmediateSuccessor` | src/dns/dnssec.rs:193-198 | the Next Domain Name is greater than the owner in the order of RFC 4034 section 6.1, no legal name lies between, and it is itself a legal name iff the owner has at most 253 octets |
| `CanonicalOrder.NothingBetween` | src/dns/dnssec.rs:193-198 | no name without an empty label lies between a name and its successor |
| `CanonicalOrder.NameLessTotal` | src/dns/dnssec.rs:193-198 | the canonical order is total up to case |
| `CanonicalOrder.NameLessTransitive` | src/dns/dnssec.rs:193-198 | the canonical order is transitive |
| `CanonicalOrder.NameLessIrreflexive` | src/dns/dnssec.rs:193-198 | the canonical order is strict, whatever the case |
| `Questions.EveryNameIsDenied` | src/dns/response.rs:468-490 | every legal name in a signed zone has a signed denial with an NSEC, so the hypotheses of `Denial.NsecTruthful` are met for each of them |
| `Questions.EveryNameCanBeAsked` | src/dns/query.rs:88-124 | every legal name can be asked for with every type, with and without the DO bit, and the server reads that type and bit; so the hypotheses of `Served.ServedReply` are met |
| `Questions.LegalSetupExists` | src/dns/response.rs:31-50 | the hypotheses of the validation theorems hold together for a concrete signing configuration, validator, time and question |
| `Questions.HostsExist` | src/dns/query.rs:178-195 | the hypotheses of `Hosts.NameServerServed` and of `Hosts.SpelledServed` are met in one configuration |
| `Questions.DenialRefused` | src/dns/dnssec.rs:125-132 | every name in the zone by its text that has a leading asterisk, or lies outside by its labels, has an authoritative denial with a signature that a validator refuses |
| `Questions.OutsideVersionRefused` | src/dns/query.rs:159-162 | every version answer outside the zone carries a signature that a validator refuses |
| `Questions.SignatureTypeListed` | src/dns/dnssec.rs:200-206 | at every name of at most 253 octets the denial lists type 46 although the reply to it counts no answer |
| `Questions.LongOwnerUnreadable` | src/dns/dnssec.rs:193-198 | every in-zone name of 254 or 255 octets has a denial whose NSEC no reader accepts |
| `Questions.LongOwnerExists` | src/dns/dnssec.rs:193-198 | there are such names |
| `Questions.ShortfallsHappen` | src/dns/query.rs:126-197 | these at work in one configuration: the names *.a and v, type 46 at a, the one label b.a, and the text .a that is not in the zone a |
| `PublishedKeys.KeyAnswer` | src/dns/response.rs:289-321 | the one record that answers a question of type 48, 59 or 60 at the apex |
| `PublishedKeys.CdsMatchesDnskey` | src/dns/dnssec.rs:89-101 | the CDS answer, read next to the DNSKEY answer, is that key's delegation signer: the tag a validator computes for it from Appendix B of RFC 4034, algorithm 13, digest type 2, digest of owner and key |
| `PublishedKeys.PublishedKeyValidates` | src/dns/response.rs:538-543 | a validator that trusts the key decoded from the DNSKEY answer accepts every signature of every in-zone reply |
| `Validator.SignedDataAgrees` | src/dns/dnssec.rs:139-147 | the octets rebuilt from the decoded RRset as in RFC 4034 section 3.1.8.1 and RFC 4035 section 5.3.2 are byte for byte those that were signed, except for owners with a leading asterisk, for which nothing can be rebuilt |
| `Validator.GroupAuthentic` | src/dns/dnssec.rs:117-153 | a group's signature is accepted iff its owner lies in the zone without a leading asterisk and the time is within its validity, which is stated in seconds |
| `Validator.SectionValidates` | src/dns/response.rs:388-411 | the same for a whole section: every RRset covered, every signature decided by that condition |
| `Validator.RrsigReadsBack` | src/dns/dnssec.rs:129-151 | RRSIG RDATA reads back field by field: algorithm 13, expiration min(now + 604800, 4294967295), inception max(now - 3600, 0) |
| `Validator.DedupSorted` | src/dns/response.rs:393 | sorting distinct RDATA leaves a validator nothing to drop |
| `Dnssec.KeyTag` | src/dns/dnssec.rs:269-281 | for RDATA of up to 65535 octets the u32 sum never overflows and the tag is (S + S / 65536) mod 65536 for the word sum S |
| `KeyTags.TagsAgree` | src/dns/dnssec.rs:269-281 | the signer's tag of any RDATA is the one of Appendix B of RFC 4034, octets summed by the parity of their index and the upper half added once |
| `KeyTags.TagIsSum` | src/dns/dnssec.rs:277-280 | where the halves of the sum add up to less than 65536, tag and sum agree modulo 65535 |
| `KeyTags.PublishedTag` | src/dns/dnssec.rs:269-281 | the key of section 5.4 of RFC 4034 has the tag printed there, 60485 |
| `Dnssec.WordSumBound` | src/dns/dnssec.rs:271-279 | the word sum stays below what a u32 holds |
| `Dnssec.FromSigningKey` | src/dns/dnssec.rs:30-49 | DNSKEY RDATA is flags 257, protocol 3, algorithm 13 and the point, with its own tag |
| `Dnssec.SignRrsig` | src/dns/dnssec.rs:117-153 | RRSIG RDATA is the prefix and the signature over the prefix and every record in signed form |
| `Dnssec.BuildRrsigPrefix` | src/dns/dnssec.rs:129-137 | type, algorithm, label count, TTL, expiration before inception, tag, signer |
| `Dnssec.NsecTypes` | src/dns/dnssec.rs:200-206 | the list holds the given types and 46 and 47 |
| `Dnssec.BuildNsecRdata` | src/dns/dnssec.rs:193-198 | the RDATA that `Denial.NsecReads` reads |
| `TypeBitmap.TypeFieldRoundTrip` | src/dns/dnssec.rs:208-244 | for every list of types, in any order and with repeats, a strict reader (windows ascending, lengths 1 to 32, no trailing zero octet) returns exactly its set; the empty list alone writes a field no reader accepts |
| `TypeBitmap.BitmapRoundTrip` | src/dns/dnssec.rs:221-243 | the blocks of a set read back as that set |
| `TypeBitmap.EncodeTypes` | src/dns/dnssec.rs:208-244 | the single pass with window, bits and max_byte writes the field of the list's set |
| `TypeBitmap.SetBit` | src/dns/dnssec.rs:237-238 | setting one bit in place adds one type to the open window and keeps the last used octet nonzero |
| `TypeBitmap.SortDedup` | src/dns/dnssec.rs:209-211 | strictly ascending, same set |
| `QueryReader.ReadersAgree` | src/dns/query.rs:88-124 | for a question whose labels have 1 to 63 octets of UTF-8 without octet 0, the text parser, the section scan, the lowercasing walk and the label counter see the same labels; the text stands for them, and encodes to the same octets, iff no label holds a dot |
| `QueryReader.EncodedNameParsesBack` | src/dns/response.rs:430-441 | a query for an encoded name parses back to that name, trimmed and lowercased |
| `QueryReader.QuestionEndAt` | src/dns/response.rs:88-95 | the zero-octet scan finds the end of the question, and the slice taken as QNAME is the name on the wire |
| `QueryReader.QuestionSectionEnd` | src/dns/response.rs:88-95 | a question end lies between 17 and the length of the query |
| `Edns.OptScanExact` | src/dns/response.rs:110-128 | for every query that decodes to one plain question, the server sees an OPT record iff the additional section is not empty and the record behind the question, in whichever section, is an OPT owned by one zero octet; its size is then the larger of class and 512, its DO bit is bit 15 of the TTL |
| `Edns.OptScanRight` | src/dns/response.rs:110-128 | for a query without answers and authority, whose additional section has an OPT at most in front and that one written with one zero octet, the server sees an OPT iff the query has one |
| `Edns.SecondOptUnseen` | src/dns/response.rs:119-127 | a query whose OPT is the second additional record: it decodes, and the server sees no OPT, no DO bit and a limit of 512 |
| `Edns.AnswerTakenForOpt` | src/dns/response.rs:119-127 | a query with a type 41 record in its answer section and no OPT: the server takes that record for one |
| `Edns.LimitIsAllowed` | src/dns/response.rs:140-144 | for every query that decodes to one plain question the limit is the class of the OPT record behind the question, not less than 512 and not more than 1232, and 512 without one |
| `QueryReader.UdpResponseLimit` | src/dns/response.rs:140-144 | the limit lies between 512 and 1232 octets; which one it is, `Edns.LimitIsAllowed` says |
| `QueryReader.ParseQueryOpt` | src/dns/response.rs:110-128 | an OPT record is only read behind a question, and its size is at least 512; which record is read, and what its DO bit means, is `Edns.OptScanExact` |
| `QueryReader.ParseQuery` | src/dns/query.rs:88-124 | the loop reads what the label walk reads, with every refusal |
| `QueryReader.LowercaseWireName` | src/dns/dnssec.rs:293-306 | the in-place walk lowercases label contents and leaves length octets and what follows the root alone, truncated names included |
| `QueryReader.LowercaseRange` | src/dns/dnssec.rs:300-302 | only the octets of the range change, to lower case |
| `QueryReader.LabelCount` | src/dns/dnssec.rs:283-291 | the number of labels before the root, saturating at 255 |
| `QueryReader.LowerWireOfWire` | src/dns/dnssec.rs:293-306 | lowercasing a name on the wire is writing its lowercased labels |
| `Names.EncodeDomainName` | src/dns/response.rs:430-441 | the encoding is the lowercased, trimmed labels on the wire |
| `Names.EncodeInjective` | src/dns/response.rs:425-441 | for labels under 256 octets two names have one encoding iff they are equal names |
| `Names.LongLabelsCollide` | src/dns/response.rs:435 | from 256 octets on a label's length octet wraps: a family of unequal names with one encoding |
| `Names.NamesEqByLabels` | src/dns/response.rs:425-428 | names are equal iff their label lists are, up to case |
| `Names.JoinThenSplit` | src/dns/response.rs:434 | splitting joined dot-free labels returns them |
| `Names.SplitThenJoin` | src/dns/query.rs:107-109 | joining what was split returns the text |
| `Zone.InZoneIsLabelSuffix` | src/dns/query.rs:68-86 | for every nonempty zone: in the zone iff the zone's labels are a case-insensitive suffix of the domain's and the only extra label is not an empty one |
| `Zone.BailiwickIsZoneMembership` | src/dns/response.rs:414-423 | the glue builder's test is the router's for every nonempty zone, and what it is for the empty one |
| `Zone.WireMembership` | src/dns/query.rs:68-86 | a name on the wire ends in the zone's labels iff it lies in the zone by its text and the labels that stand for the zone hold no dot |
| `Zone.InZoneReflexive` | src/dns/query.rs:68-77 | a nonempty zone lies in itself |
| `Zone.InZoneTransitive` | src/dns/query.rs:68-86 | zone membership is transitive |
| `Responses.Msg.constructor` | src/dns/response.rs:219-232 | header and question copied, counts zero, lists empty |
| `Responses.Msg.AddRr` | src/dns/response.rs:235-247 | one list grows by one record, chosen by the count offset; the others stay |
| `Responses.Msg.AddSoa` | src/dns/response.rs:249-259 | one SOA record joins the answers or the authority list |
| `Responses.Msg.AddNsSet` | src/dns/response.rs:261-270 | the whole NS set joins one list, in order |
| `Responses.Msg.AddInBailiwickGlue` | src/dns/response.rs:323-332 | the additional list grows by the glue of in-zone name servers |
| `Responses.Msg.Finish` | src/dns/response.rs:334-347 | the response is the layout that `RoundTrip.FinishedLayout` and `RoundTrip.FinishedDecodes` are about |
| `Responses.MaybeAppendOpt` | src/dns/response.rs:151-164 | an OPT record and its count iff the server sees one in the query and a header is there |
| `Responses.BuildNodata` | src/dns/response.rs:468-498 | the negative sections, or nothing without a question |
| `Responses.BuildTxt` | src/dns/response.rs:500-506 | one TXT answer, or nothing without a question |
| `Responses.BuildApex` | src/dns/response.rs:508-595 | the sections of the apex table, all eleven arms |
| `Responses.AddAny` | src/dns/response.rs:574-590 | the records of the ANY arm |
| `Responses.BuildAddress` | src/dns/response.rs:608-633 | the addresses of the families asked for, else the negative sections |
| `Responses.ErrorResponse` | src/dns/response.rs:443-466 | header, question when there is one, OPT when the server sees one in the query |
| `Query.HandleQueryInternal` | src/dns/query.rs:126-197 | the reply at one clock reading, every refusal and silent drop included |
| `Query.RouteQuery` | src/dns/query.rs:152-196 | the decision chain is the routing table |
| `Query.BuildTxtOr` | src/dns/query.rs:160-174 | TXT and ANY get the text, other types its denial |
| `Query.RouteHost` | src/dns/query.rs:178-195 | name server, address label, or nothing, in this order |
| `Query.MaybeTruncateUdp` | src/dns/response.rs:167-202 | the buffer operations compute the truncation that the next rows are about |
| `Query.HandleQuery` | src/dns/query.rs:13-26 | no datagram for an empty response, else the truncated response |
| `Truncation.DatagramLength` | src/dns/response.rs:167-202 | every datagram, for every query, is at most max(limit, question) octets, limit in 512 to 1232 |
| `Truncation.LegalNameFits` | src/dns/response.rs:191-195 | for legal names every datagram fits the limit and the cut that drops OPT is never taken |
| `Truncation.TruncatedDecodes` | src/dns/response.rs:177-189 | a truncated response decodes to the header of the full one with TC set, the question, nothing else but an OPT iff the server sees one in the query, as in `Edns.OptScanExact` |
| `Truncation.DatagramDecodes` | src/dns/query.rs:19-24 | every datagram for a well-formed query, answered or refused, decodes, whole or with TC |
| `Truncation.DatagramWhole` | src/dns/response.rs:167-202 | where the query itself decodes, the datagram is the whole reply iff the size allowed by the OPT record behind the question, 512 to 1232, holds it, and otherwise the same message under TC without its records |
| `Truncation.ReplyReads` | src/dns/query.rs:126-197 | every reply to a well-formed query decodes to its answer or its refusal |
| `Truncation.TruncationIsIdempotent` | src/dns/response.rs:167-202 | truncating again changes nothing, for any response and any query |
| `Truncation.TruncatedLength` | src/dns/response.rs:167-202 | the length bound for any response to a question |
| `Truncation.ErrorReplyDecodes` | src/dns/response.rs:443-466 | a refusal, or NOTIMP to a query with a legal question, decodes to header and question |
| `IpParser.InterpretIp` | src/dns/ip_parser.rs:9-47 | the first label with an IPv4 reading, else the leftmost dotted window, paired with the first label with an IPv6 reading: the early break loses nothing |
| `IpParser.FirstMatch` | src/dns/ip_parser.rs:16-32 | the result is that of the first label with one, and none iff there is none |
| `IpParser.FirstWindow` | src/dns/ip_parser.rs:58-69 | the leftmost window of four canonical octets, and none iff there is none |
| `IpParser.ParseLabelIpv4` | src/dns/ip_parser.rs:49-56 | hexadecimal before hyphenated |
| `IpParser.ParseDottedIpv4` | src/dns/ip_parser.rs:58-69 | joining four labels and parsing the text is reading the window |
| `IpParser.ParseHyphenatedIp` | src/dns/ip_parser.rs:81-105 | both decimal branches are one: the leftmost window of canonical octets, else the leftmost hexadecimal part |
| `IpParser.WindowTest` | src/dns/ip_parser.rs:84-95 | the u8 test in front of the address parser decides nothing |
| `IpParser.ParseHexadecimalIp` | src/dns/ip_parser.rs:107-124 | eight hexadecimal digits, two to an octet |
| `IpParser.ParseHyphenatedIpv6` | src/dns/ip_parser.rs:71-79 | the address parser is handed the label with a colon for every hyphen |
| `IpParser.TwoReplacements` | src/dns/ip_parser.rs:76-77 | replacing pairs first changes nothing |
| `IpParser.DualStackOrder` | src/dns/ip_parser.rs:16-32 | a v4 label and a v6 label among inert ones mean the same pair in either order |
| `IpParser.OrderMatters` | src/dns/ip_parser.rs:16-32 | for any two labels among inert ones the order is immaterial iff they agree on every family both can be read in and, where neither reads as IPv4, the leftmost dotted windows are both absent, or at one place and clear of two unequal labels, or at two places with the same labels |
| `IpParser.LikeLabelsSwap` | src/dns/ip_parser.rs:58-69 | labels of which both are decimal octets, or neither is, leave the leftmost dotted window in its place; if neither is, it also stays the same |
| `IpParser.WindowsDecide` | src/dns/ip_parser.rs:58-69 | the dotted reading survives the swap iff the leftmost windows compare as stated |
| `IpParser.DottedOrderMatters` | src/dns/ip_parser.rs:58-69 | labels without an address of their own may still not swap: 1.2.3.4.a-b reads 1.2.3.4 and 1.2.3.a-b.4 reads no IPv4 address |
| `IpParser.RivalLabels` | src/dns/ip_parser.rs:16-32 | labels that both read as IPv4 may not swap: 1-2-3-4-5-6-7-8 and 9-9-9-9 |
| `IpParser.HyphenPrintParse` | src/dns/ip_parser.rs:81-105 | every IPv4 address printed with hyphens parses back |
| `Spelling.LabelReads` | src/dns/ip_parser.rs:49-105 | a label reads as an IPv4 address iff it spells it: its parts at the hyphens hold the printed octets of the address as the leftmost four that print one, or no four print any and the leftmost part of eight hexadecimal digits, in either case, prints it |
| `Spelling.NothingReads` | src/dns/ip_parser.rs:81-105 | a label reads as nothing iff no four of its parts in a row print an address and none is eight hexadecimal digits |
| `Spelling.HexPartReads` | src/dns/ip_parser.rs:99-103 | so a part of eight hexadecimal digits anywhere between hyphens is read, if none before it has eight |
| `Spelling.WholeHexIsPart` | src/dns/ip_parser.rs:49-56 | trying the whole label as eight digits first decides nothing |
| `Spelling.NameReads` | src/dns/ip_parser.rs:9-47 | a name reads as an IPv4 address iff the first of its labels that spells one spells this one, or none does and the leftmost four labels that print an address print it |
| `Spelling.NameReadsV6` | src/dns/ip_parser.rs:23-28 | a name reads as an IPv6 address iff the first label with a hyphen whose text the library reads, with colons for hyphens, reads as it |
| `Hosts.NameServerServed` | src/dns/query.rs:178-188 | on the wire, a name of the zone that is a configured server name or the SOA's, and neither apex nor text, is answered with exactly the configured address of the family asked for, or nothing where none is configured |
| `Hosts.SpelledServed` | src/dns/query.rs:189-195 | on the wire, every other name is answered for type A with an address iff it spells it, for type AAAA alike, with one address at most, and with nothing iff it spells none |
| `Hosts.HexPartServed` | src/dns/ip_parser.rs:99-103 | on the wire, eight hexadecimal digits between hyphens in the first label are the answer under the conditions of `Spelling.HexPartReads` |
| `Hosts.SpelledAddressAnswered` | src/dns/query.rs:189-192 | so an address printed with hyphens or as eight hexadecimal digits in the first label is what the A question is answered with, for every address |
| `Hosts.DottedAddressAnswered` | src/dns/ip_parser.rs:34-39 | an address printed with dots is, iff the first later label that spells an address, if any, spells the same one |
| `Hosts.ZoneLabelWins` | src/dns/ip_parser.rs:16-39 | 1.2.3.4.deadbeef reads 222.173.190.239 |
| `Hosts.HexPrintParse` | src/dns/ip_parser.rs:107-124 | every address printed as eight hexadecimal digits parses back |
| `IpParser.FourIsPrinted` | src/dns/ip_parser.rs:84-88 | four parts are an address iff they are its printed octets |
| `IpParser.DecimalOccursVerbatim` | src/dns/ip_parser.rs:89-97 | the printed form of a decimal result occurs as a run of parts |
| `RateLimiter.Limiter.constructor` | src/rate_limit.rs:29-37 | an empty map and the given limits |
| `RateLimiter.Limiter.Check` | src/rate_limit.rs:46-82 | one call: disabled limiters admit and keep nothing; otherwise the new map and the answer are those of the one-call specification |
| `RateLimiter.BehaviorConserves` | src/rate_limit.rs:46-82 | in every interleaving of any number of threads, clock readings out of lock order included: each bucket counts the admissions of its current window and never exceeds the quota; the map changes by decided calls only; an in-place restart advances the start by a window or more; denials happen only with the quota spent in a live window; a bucket is dropped only from a map above 1024 entries and only once its window is over at the reading of the call that drops it, after which a late reading may start its address anew; all other buckets stay as they are; the map holds at most max(1025, live + 1) entries |
| `RateLimiter.CommitConserves` | src/rate_limit.rs:52-81 | one locked section keeps all of that |
| `RateLimiter.SizeAfterCall` | src/rate_limit.rs:59-68 | after one call the map holds at most 1025 entries or one more than the addresses whose window is not over |
| `RateLimiter.PrunedAreLive` | src/rate_limit.rs:59-63 | from a crowded map exactly the buckets are dropped whose window is over |
| `RateRuns.PruningIsInvisible` | src/rate_limit.rs:59-63 | on every run in which no call has an earlier reading than a previous call that found more than 1024 entries, the limiter answers as one that never prunes |
| `RateRuns.InOrderSuffices` | src/rate_limit.rs:51-63 | nondecreasing readings are such a run |
| `RateRuns.QuietSuffices` | src/rate_limit.rs:59-63 | so is any run, in any order, whose map stays at 1024 entries or fewer |
| `RateRuns.WhenPruningShows` | src/rate_limit.rs:59-81 | in any order of readings the buckets stay buckets of the limiter that never prunes iff no call opens another bucket in place of a dropped one whose window is not over for it; while they do, all answers agree iff no such call has its quota spent |
| `RateRuns.VerdictsDiffer` | src/rate_limit.rs:59-81 | from such maps one call is decided differently iff its bucket is dropped, not over at its reading, and spent |
| `RateRuns.PruningShowsOutOfOrder` | src/rate_limit.rs:51-63 | behind a crowded call it may not: for every window a concrete run of 1027 calls in which a late reading is admitted with the quota of its live window spent |
| `RateRuns.ClientsAreIsolated` | src/rate_limit.rs:59-82 | what a client is answered is a function of its own call times, whoever else calls |
| `RateRuns.AdmissionBound` | src/rate_limit.rs:70-81 | no half-open interval holds more admissions of one client than the exact bound, for every window, quota and length, when its own readings do not decrease and no call looks back behind a crowded one |
| `RateRuns.AdmissionBoundAttained` | src/rate_limit.rs:70-81 | for every window, quota and length some run attains the bound |
| `RateRuns.SharpInWindows` | src/rate_limit.rs:70-81 | the bound lies strictly below one quota more than the windows of the interval: 2N - 1 in one window length of two ticks or more, 2N in one tick more |
| `RateRuns.CapIsCeiling` | src/rate_limit.rs:70-81 | the windows of an interval are its length divided by the window, rounded up |
| `RateRuns.BehaviorIsSequential` | src/rate_limit.rs:46-82 | every interleaving decides its calls as one sequential run in lock order |
| `RateRuns.SharedAdmissionBound` | src/rate_limit.rs:46-82 | the same for threads that share the limiter, whatever the interleaving |

## Left out

- Sockets, threads and TCP framing of `src/main.rs`: input and output. Two facts are kept, that threads share one limiter and that a clock reading precedes the lock.
- Environment reading in `src/config.rs`: plumbing. Only the nonempty name-server list is used.
- ECDSA P-256, SHA-256 and `Ipv6Addr::from_str`: library code, carried as functions by the key and the configuration. A signature is assumed to verify under its own key.
- Key generation, PEM and hexadecimal key parsing, DS presentation and all logging: output formatting and library code.
- `Vec::sort`, `dedup`, `HashMap::retain`, `str::split`, `join`, `replace` and `trim_end_matches`: modelled as functions with the same results.
- Dnssec.SignRrsig: reads the clock through a parameter; one reading serves all signatures of a reply, where the program reads it once for every signature.
- RateLimiter.Limiter.Check: time is in ticks and the poisoned-lock branch, which goes on with the map as it is, has no step of its own.
- Replies.ReplyDecodes: for names over 255 octets, labels that are not UTF-8 or more name servers than 16000, whose records would not fit the counts, only the octets of the reply are specified.
- Truncation.ErrorReplyDecodes: NOTIMP replies to queries without a legal question copy QDCOUNT without a question behind it, so they are not claimed to decode.
- Responses.ErrorResponse: the two wrappers that fix its RCODE are its callers in the model.
