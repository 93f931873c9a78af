/**
 The independent readers of one query: the section-end scan, the label walk to
 text, the lowercasing walk and the label counter, and why they agree.
 */
module QueryReader {
  import opened Octets
  import opened Names

  const TYPE_OPT: u16 := 41
  const DEFAULT_UDP_SIZE: nat := 512
  const EDNS_UDP_SIZE: u16 := 1232

  // ----- the question section --------------------------------------------------

  /** Offset of the first zero octet. */
  function FirstZero(s: Bytes): (k: Option<nat>)
    ensures k.Some? ==> k.value < |s| && s[k.value] == 0 && 0 !in s[..k.value]
    ensures k.None? ==> 0 !in s
  {
    if s == [] then None
    else if s[0] == 0 then Some(0)
    else
      var rest := FirstZero(s[1..]);
      assert s == [s[0]] + s[1..];
      if rest.None? then None
      else
        assert s[..rest.value + 1] == [s[0]] + s[1..][..rest.value];
        Some(rest.value + 1)
  }

  function QuestionSectionEnd(query: Bytes): (end: Option<nat>)
    ensures end.Some? ==> 17 <= end.value <= |query|
  {
    if |query| < 12 then None
    else
      var zero := FirstZero(query[12..]);
      if zero.None? then None
      else if 12 + zero.value + 5 <= |query| then Some(12 + zero.value + 5) else None
  }

  function ParseQtypeQclass(query: Bytes): Option<(u16, u16)> {
    var end := QuestionSectionEnd(query);
    if end.None? then None
    else Some((U16At(query, end.value - 4), U16At(query, end.value - 2)))
  }

  /** The wire form of QNAME, as the signer and the NSEC builder slice it out. */
  function QnameWire(query: Bytes): Bytes
    requires QuestionSectionEnd(query).Some?
  {
    query[12..QuestionSectionEnd(query).value - 4]
  }

  // ----- the client's OPT record -----------------------------------------------

  /** (advertised size, at least 512; DO bit) of an OPT record right behind the question. */
  function ParseQueryOpt(query: Bytes): (opt: Option<(nat, bool)>)
    ensures opt.Some? ==> opt.value.0 >= 512 && QuestionSectionEnd(query).Some?
  {
    if |query| < 12 || U16At(query, 10) == 0 || QuestionSectionEnd(query).None? then None
    else
      var rest := query[QuestionSectionEnd(query).value..];
      if |rest| >= 11 && rest[0] == 0 && rest[1] == 0 && rest[2] == 0x29 then
        Some((Max(U16At(rest, 3), 512), rest[7] >= 0x80))
      else None
  }

  predicate QueryHasOpt(query: Bytes) { ParseQueryOpt(query).Some? }

  predicate QueryDnssecOk(query: Bytes) {
    ParseQueryOpt(query).Some? && ParseQueryOpt(query).value.1
  }

  function UdpResponseLimit(query: Bytes): (limit: nat)
    ensures 512 <= limit <= 1232
  {
    Min(if QueryHasOpt(query) then ParseQueryOpt(query).value.0 else DEFAULT_UDP_SIZE, EDNS_UDP_SIZE)
  }

  function Opcode(query: Bytes): nat { if |query| > 2 then (query[2] / 8) % 16 else 0 }

  // ----- QNAME to text ---------------------------------------------------------

  predicate Continuation(b: byte) { 0x80 <= b <= 0xBF }

  /** What `std::str::from_utf8` accepts: the well-formed sequences of Unicode, Table 3-7. */
  predicate ValidUtf8(s: Bytes) {
    if s == [] then true
    else if s[0] < 0x80 then ValidUtf8(s[1..])
    else if 0xC2 <= s[0] <= 0xDF then
      |s| >= 2 && Continuation(s[1]) && ValidUtf8(s[2..])
    else if 0xE0 <= s[0] <= 0xEF then
      && |s| >= 3 && Continuation(s[1]) && Continuation(s[2])
      && (s[0] == 0xE0 ==> s[1] >= 0xA0) && (s[0] == 0xED ==> s[1] <= 0x9F)
      && ValidUtf8(s[3..])
    else if 0xF0 <= s[0] <= 0xF4 then
      && |s| >= 4 && Continuation(s[1]) && Continuation(s[2]) && Continuation(s[3])
      && (s[0] == 0xF0 ==> s[1] >= 0x90) && (s[0] == 0xF4 ==> s[1] <= 0x8F)
      && ValidUtf8(s[4..])
    else false
  }

  function Dotted(domain: Bytes, part: Bytes): Bytes {
    if domain == [] then part else domain + [DOT] + part
  }

  /** The walk of `parse_query` from offset `pos` with `domain` read so far. */
  function WalkLabels(query: Bytes, pos: nat, domain: Bytes): Option<Bytes>
    requires pos <= |query|
    decreases |query| - pos
  {
    if pos == |query| || query[pos] == 0 then
      if domain == [] then None else Some(domain)
    else
      var next := pos + 1 + query[pos];
      if next > |query| then None
      else
        var part := query[pos + 1..next];
        if !ValidUtf8(part) then None
        else WalkLabels(query, next, Dotted(domain, part))
  }

  function ParsedDomain(query: Bytes): Option<Bytes> {
    if |query| < 12 || U16At(query, 4) != 1 then None else WalkLabels(query, 12, [])
  }

  lemma WalkStops(query: Bytes, pos: nat, text: Bytes)
    requires pos <= |query| && (pos == |query| || query[pos] == 0)
    ensures WalkLabels(query, pos, text) == if text == [] then None else Some(text)
  {
  }

  lemma WalkOn(query: Bytes, pos: nat, text: Bytes)
    requires pos < |query|
    ensures query[pos] != 0 ==>
              var next := pos + 1 + query[pos];
              WalkLabels(query, pos, text)
              == if next > |query| || !ValidUtf8(query[pos + 1..next]) then None
                 else WalkLabels(query, next, Dotted(text, query[pos + 1..next]))
  {
    hide ValidUtf8, Dotted;
  }

  method ParseQuery(query: Bytes) returns (domain: Option<Bytes>)
    ensures domain == ParsedDomain(query)
  {
    hide ValidUtf8, U16At, WalkLabels;
    if |query| < 12 {
      return None;
    }
    var qdcount := U16At(query, 4);
    if qdcount != 1 {
      return None;
    }
    var pos := 12;
    var text: Bytes := [];
    while pos < |query|
      invariant 12 <= pos <= |query|
      invariant WalkLabels(query, pos, text) == ParsedDomain(query)
    {
      WalkOn(query, pos, text);
      var len := query[pos];
      if len == 0 {
        break;
      }
      pos := pos + 1;
      if pos + len > |query| {
        return None;
      }
      if !ValidUtf8(query[pos..pos + len]) {
        return None;
      }
      ghost var before := text;
      if text != [] {
        text := text + [DOT];
      }
      text := text + query[pos..pos + len];
      assert text == Dotted(before, query[pos..pos + len]);
      pos := pos + len;
    }
    WalkStops(query, pos, text);
    if text == [] {
      return None;
    }
    return Some(text);
  }

  // ----- walks over a wire name ------------------------------------------------

  /** Where the first label of a wire name ends, or the name itself does. */
  function SegmentEnd(name: Bytes): (end: nat)
    requires name != []
    ensures 1 <= end <= |name|
  {
    Min(name[0] as int + 1, |name|)
  }

  function LowerWire(name: Bytes): Bytes {
    if name == [] || name[0] == 0 then name
    else
      var end := SegmentEnd(name);
      [name[0]] + LowerAll(name[1..end]) + LowerWire(name[end..])
  }

  method LowercaseWireName(name: Bytes) returns (r: Bytes)
    ensures r == LowerWire(name)
  {
    hide *;
    var out := new byte[|name|](i requires 0 <= i < |name| => name[i]);
    var i := 0;
    assert name[0..] == name && out[..] == name;
    while i < out.Length && out[i] != 0
      invariant i <= out.Length == |name|
      invariant out[i..] == name[i..]
      invariant out[..i] + LowerWire(name[i..]) == LowerWire(name)
    {
      assert out[i] == name[i..][0];
      var start := i + 1;
      var end := if start + out[i] <= out.Length then start + out[i] else out.Length;
      ghost var done := out[..i];
      LowerWireAfterLabel(done, name, i, end);
      assert out[..start] == done + [name[i]];
      assert forall k | i <= k < |name| :: out[k] == out[i..][k - i] == name[i..][k - i] == name[k];
      assert out[start..end] == name[start..end];
      assert out[end..] == name[end..];
      LowercaseRange(out, start, end);
      assert out[..end] == out[..start] + out[start..end];
      i := end;
    }
    LowerWireDone(name[i..]);
    assert out[..] == out[..i] + out[i..];
    return out[..];
  }

  lemma LowerWireDone(name: Bytes)
    requires name == [] || name[0] == 0
    ensures LowerWire(name) == name
  {
  }

  lemma LowerWireAfterLabel(done: Bytes, name: Bytes, i: nat, end: nat)
    requires i < |name| && name[i] != 0
    requires end == if i + 1 + name[i] <= |name| then i + 1 + name[i] else |name|
    ensures done + LowerWire(name[i..])
         == done + [name[i]] + LowerAll(name[i + 1..end]) + LowerWire(name[end..])
  {
    hide LowerAll;
    var rest := name[i..];
    assert SegmentEnd(rest) == end - i;
    assert rest[1..end - i] == name[i + 1..end] && rest[end - i..] == name[end..];
    var first, last := LowerAll(name[i + 1..end]), LowerWire(name[end..]);
    assert LowerWire(rest) == [name[i]] + first + last;
    Reassociate(done, name[i], first, last);
  }

  lemma Reassociate(a: Bytes, b: byte, c: Bytes, d: Bytes)
    ensures a + ([b] + c + d) == a + [b] + c + d
  {
  }

  method LowercaseRange(out: array<byte>, start: nat, end: nat)
    requires start <= end <= out.Length
    modifies out
    ensures out[..start] == old(out[..start])
    ensures out[start..end] == LowerAll(old(out[start..end]))
    ensures out[end..] == old(out[end..])
  {
    for j := start to end
      invariant forall k | 0 <= k < out.Length ::
          out[k] == if start <= k < j then Lower(old(out[k])) else old(out[k])
    {
      out[j] := Lower(out[j]);
    }
  }

  function LabelsBeforeRoot(name: Bytes): nat {
    if name == [] || name[0] == 0 then 0
    else 1 + LabelsBeforeRoot(name[SegmentEnd(name)..])
  }

  /** `label_count`: a saturating `u8`. */
  method LabelCount(name: Bytes) returns (n: byte)
    ensures n == Min(255, LabelsBeforeRoot(name))
  {
    n := 0;
    var i := 0;
    while i < |name| && name[i] != 0
      invariant i >= 0
      invariant Min(255, n as int + LabelsFrom(name, i)) == Min(255, LabelsBeforeRoot(name))
      decreases |name| - i
    {
      LabelsFromStep(name, i);
      i := i + 1 + name[i];
      n := if n == 255 then 255 else n + 1;
    }
  }

  ghost function LabelsFrom(name: Bytes, i: nat): nat {
    if i >= |name| then 0 else LabelsBeforeRoot(name[i..])
  }

  lemma LabelsFromStep(name: Bytes, i: nat)
    requires i < |name| && name[i] != 0
    ensures LabelsFrom(name, i) == 1 + LabelsFrom(name, i + 1 + name[i])
  {
    var rest := name[i..];
    var end := SegmentEnd(rest);
    assert rest[end..] == name[i + end..];
    assert LabelsBeforeRoot(rest) == 1 + LabelsBeforeRoot(rest[end..]);
  }

  // ----- agreement on well-formed questions ------------------------------------

  /** A label that the server reads whole: 1 to 63 octets of UTF-8 without octet 0. */
  ghost predicate PlainLabel(l: Bytes) {
    1 <= |l| <= 63 && 0 !in l && ValidUtf8(l)
  }

  ghost predicate PlainLabels(labels: Labels) {
    labels != [] && forall l | l in labels :: PlainLabel(l)
  }

  /** One question, whose QNAME is these labels. */
  ghost predicate Asks(query: Bytes, labels: Labels) {
    && |query| >= 12 + |Wire(labels)| + 4
    && U16At(query, 4) == 1
    && At(query, 12, Wire(labels))
    && PlainLabels(labels)
  }

  lemma {:induction false} WireLabelsNoZero(labels: Labels)
    requires forall l | l in labels :: 1 <= |l| <= 63 && 0 !in l
    ensures 0 !in WireLabels(labels)
  {
    if labels != [] {
      hide WireLabels;
      var first, rest := labels[0], labels[1..];
      assert first in labels;
      assert forall l | l in rest :: l in labels;
      WireLabelsNoZero(rest);
      NoZeroConcat([|first|], first);
      NoZeroConcat([|first|] + first, WireLabels(rest));
      WireLabelsCons(labels);
    }
  }

  lemma WireLabelsCons(labels: Labels)
    requires labels != [] && |labels[0]| < 0x100
    ensures WireLabels(labels) == [|labels[0]|] + labels[0] + WireLabels(labels[1..])
  {
  }

  lemma NoZeroConcat(a: Bytes, b: Bytes)
    requires 0 !in a && 0 !in b
    ensures 0 !in a + b
  {
  }

  lemma FirstZeroAt(s: Bytes, p: nat)
    requires p < |s| && s[p] == 0 && 0 !in s[..p]
    ensures FirstZero(s) == Some(p)
  {
  }

  lemma QuestionEndAt(query: Bytes, labels: Labels)
    requires Asks(query, labels)
    ensures QuestionSectionEnd(query) == Some(12 + |Wire(labels)| + 4)
    ensures QnameWire(query) == Wire(labels)
  {
    WireLabelsNoZero(labels);
    var w, s := Wire(labels), query[12..];
    assert s[..|w|] == w;
    assert s[|w| - 1] == w[|w| - 1];
    assert s[..|w| - 1] == w[..|w| - 1] == WireLabels(labels);
    FirstZeroAt(s, |w| - 1);
  }

  lemma PlainBounds(l: Bytes)
    requires PlainLabel(l)
    ensures 1 <= |l| <= 63 && ValidUtf8(l)
  {
  }

  lemma WalkOne(query: Bytes, pos: nat, part: Bytes, domain: Bytes)
    requires 1 <= |part| && ValidUtf8(part) && pos + 1 + |part| <= |query|
    requires query[pos] as int == |part| && query[pos + 1..pos + 1 + |part|] == part
    ensures WalkLabels(query, pos, domain)
         == WalkLabels(query, pos + 1 + |part|, Dotted(domain, part))
  {
    hide ValidUtf8, Dotted;
  }

  lemma WalkStep(query: Bytes, pos: nat, labels: Labels, domain: Bytes)
    requires labels != [] && PlainLabel(labels[0]) && At(query, pos, Wire(labels))
    ensures pos + 1 + |labels[0]| <= |query|
    ensures WalkLabels(query, pos, domain)
         == WalkLabels(query, pos + 1 + |labels[0]|, Dotted(domain, labels[0]))
    ensures At(query, pos + 1 + |labels[0]|, Wire(labels[1..]))
  {
    hide WalkLabels, At, Wire, PlainLabel, Dotted;
    PlainBounds(labels[0]);
    WireAtHead(query, pos, labels);
    WalkOne(query, pos, labels[0], domain);
  }

  lemma WalkEnds(query: Bytes, pos: nat, domain: Bytes)
    requires At(query, pos, Wire([])) && domain != []
    ensures pos <= |query| && WalkLabels(query, pos, domain) == Some(domain)
  {
    AtIndex(query, pos, Wire([]), 0);
  }

  lemma {:induction false} WalkReadsLabels(query: Bytes, pos: nat, labels: Labels, domain: Bytes)
    requires At(query, pos, Wire(labels))
    requires forall l | l in labels :: PlainLabel(l)
    requires labels != [] || domain != []
    ensures pos <= |query|
    ensures WalkLabels(query, pos, domain)
         == Some(if labels == [] then domain else Dotted(domain, Join(labels, DOT)))
    decreases |labels|
  {
    hide WalkLabels, At, Wire, PlainLabel, Dotted, Join;
    AtBounds(query, pos, Wire(labels));
    if labels == [] {
      WalkEnds(query, pos, domain);
    } else {
      var first, rest := labels[0], labels[1..];
      assert first in labels;
      assert forall l | l in rest :: l in labels;
      PlainBounds(first);
      WalkStep(query, pos, labels, domain);
      DottedJoin(domain, labels);
      WalkReadsLabels(query, pos + 1 + |first|, rest, Dotted(domain, first));
    }
  }

  lemma DottedJoin(domain: Bytes, labels: Labels)
    requires labels != [] && labels[0] != []
    ensures Dotted(domain, labels[0]) != []
    ensures Dotted(domain, Join(labels, DOT))
         == if |labels| == 1 then Dotted(domain, labels[0])
            else Dotted(Dotted(domain, labels[0]), Join(labels[1..], DOT))
  {
  }

  lemma {:induction false} LowerWireOfWire(labels: Labels)
    requires ValidLabels(labels)
    ensures LowerWire(Wire(labels)) == Wire(LowerLabels(labels))
    ensures LabelsBeforeRoot(Wire(labels)) == |labels|
  {
    if labels == [] {
      assert LowerLabels(labels) == [];
    } else {
      assert labels[0] in labels;
      assert forall l | l in labels[1..] :: l in labels;
      LowerWireOfWire(labels[1..]);
      LowerWireHead(labels);
      WireUnfold(LowerLabels(labels));
      LowerLabelsHead(labels);
      hide *;
    }
  }

  lemma LowerLabelsHead(labels: Labels)
    requires labels != []
    ensures |LowerLabels(labels)| == |labels|
    ensures LowerLabels(labels)[0] == LowerAll(labels[0]) && |LowerAll(labels[0])| == |labels[0]|
    ensures LowerLabels(labels)[1..] == LowerLabels(labels[1..])
  {
  }

  lemma LowerWireHead(labels: Labels)
    requires labels != [] && 1 <= |labels[0]| <= 63
    ensures LowerWire(Wire(labels)) == [|labels[0]|] + (LowerAll(labels[0]) + LowerWire(Wire(labels[1..])))
    ensures LabelsBeforeRoot(Wire(labels)) == 1 + LabelsBeforeRoot(Wire(labels[1..]))
  {
    hide Wire, LowerAll;
    var w, end := Wire(labels), 1 + |labels[0]|;
    WireUnfold(labels);
    assert w[0] == |labels[0]| && w[1..end] == labels[0] && w[end..] == Wire(labels[1..]);
    LowerWireSegment(w, end);
  }

  lemma LowerWireSegment(name: Bytes, end: nat)
    requires name != [] && name[0] != 0 && end == 1 + name[0] as int <= |name|
    ensures LowerWire(name) == [name[0]] + (LowerAll(name[1..end]) + LowerWire(name[end..]))
    ensures LabelsBeforeRoot(name) == 1 + LabelsBeforeRoot(name[end..])
  {
    hide LowerAll;
    assert SegmentEnd(name) == end;
  }

  lemma AskedLabels(query: Bytes, labels: Labels)
    requires Asks(query, labels)
    ensures labels != [] && ValidLabels(labels)
  {
    hide ValidUtf8;
    forall l | l in labels ensures 1 <= |l| <= 63 { assert PlainLabel(l); }
  }

  /** All readers of one question see the same name; the text stands for the same labels, and
      encodes to the same octets, exactly when no label holds a dot. */
  lemma ReadersAgree(query: Bytes, labels: Labels)
    requires Asks(query, labels)
    ensures ParsedDomain(query) == Some(Join(labels, DOT))
    ensures QuestionSectionEnd(query) == Some(12 + |Wire(labels)| + 4)
    ensures LowerWire(QnameWire(query)) == Wire(LowerLabels(labels))
    ensures LabelsBeforeRoot(QnameWire(query)) == |labels|
    ensures TextLabels(ParsedDomain(query).value) == labels <==> DotFree(labels)
    ensures LowerWire(QnameWire(query)) == Encode(ParsedDomain(query).value) <==> DotFree(labels)
  {
    AskedLabels(query, labels);
    QuestionEndAt(query, labels);
    WalkReadsLabels(query, 12, labels, []);
    LowerWireOfWire(labels);
    TextKeepsLabels(labels);
    hide Wire, Join, TextLabels, Encode, LowerWire, WalkLabels;
  }

  /** A query for an encoded name parses back to that name, lowercased and trimmed. */
  lemma EncodedNameParsesBack(query: Bytes, name: Bytes)
    requires PlainLabels(LowerLabels(TextLabels(name)))
    requires |query| >= 12 + |Encode(name)| + 4 && U16At(query, 4) == 1 && At(query, 12, Encode(name))
    ensures ParsedDomain(query) == Some(LowerAll(TrimDots(name)))
  {
    var lower := LowerLabels(TextLabels(name));
    ReadersAgree(query, lower);
    SplitLower(TrimDots(name), DOT);
    SplitThenJoin(LowerAll(TrimDots(name)), DOT);
  }
}
