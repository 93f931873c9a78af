/**
 Which queries get a reply at all.
 */
module Silence {
  import opened Octets
  import opened Names
  import opened QueryReader
  import opened Utf8
  import opened Message
  import opened Query
  import D = Decoder

  lemma WalkFirst(query: Bytes, pos: nat, labels: Labels, domain: Bytes)
    requires labels != [] && 1 <= |labels[0]| <= 63 && At(query, pos, Wire(labels))
    ensures pos + 1 + |labels[0]| <= |query| && At(query, pos + 1 + |labels[0]|, Wire(labels[1..]))
    ensures WalkLabels(query, pos, domain)
         == if !ValidUtf8(labels[0]) then None
            else WalkLabels(query, pos + 1 + |labels[0]|, Dotted(domain, labels[0]))
  {
    hide WalkLabels, At, Wire, ValidUtf8, Dotted;
    WireAtHead(query, pos, labels);
    WalkOn(query, pos, domain);
  }

  lemma WalkRoot(query: Bytes, pos: nat, domain: Bytes)
    requires At(query, pos, Wire([]))
    ensures pos <= |query| && (WalkLabels(query, pos, domain).Some? <==> domain != [])
  {
    AtIndex(query, pos, Wire([]), 0);
  }

  /** The walk over a legal name yields a text exactly when there is a label and all are text. */
  lemma {:induction false} WalkYields(query: Bytes, pos: nat, labels: Labels, domain: Bytes)
    requires At(query, pos, Wire(labels)) && ValidLabels(labels)
    ensures pos <= |query|
    ensures WalkLabels(query, pos, domain).Some? <==> (labels != [] || domain != []) && forall l | l in labels :: ValidUtf8(l)
    decreases |labels|
  {
    hide WalkLabels, At, Wire, ValidUtf8;
    AtBounds(query, pos, Wire(labels));
    if labels == [] {
      WalkRoot(query, pos, domain);
    } else {
      var first, rest := labels[0], labels[1..];
      assert labels == [first] + rest && first in labels;
      assert forall l | l in rest :: l in labels;
      WalkFirst(query, pos, labels, domain);
      if ValidUtf8(first) {
        WalkYields(query, pos + 1 + |first|, rest, Dotted(domain, first));
        assert Dotted(domain, first) != [];
      }
    }
  }

  lemma ZeroInside(s: Bytes, n: nat)
    requires n < |s| && s[n] == 0
    ensures FirstZero(s).Some? && FirstZero(s).value <= n
  {
    forall end: nat | n < end <= |s| ensures 0 in s[..end] {
      assert s[..end][n] == s[n];
    }
  }

  lemma QuestionEnds(query: Bytes, labels: Labels)
    requires At(query, 12, Wire(labels)) && |query| >= 12 + |Wire(labels)| + 4
    ensures QuestionSectionEnd(query).Some? && ParseQtypeQclass(query).Some?
  {
    var n := |Wire(labels)| - 1;
    AtIndex(query, 12, Wire(labels), n);
    assert query[12..][n] == query[12 + n] == 0;
    hide FirstZero, Wire;
    ZeroInside(query[12..], n);
  }

  lemma RepliesWhen(query: Bytes, config: Config, now: u32)
    requires |query| >= 12 && QuestionSectionEnd(query).Some? && ParseQtypeQclass(query).Some?
    ensures Reply(query, config, now) != [] <==> Opcode(query) != 0 || ParsedDomain(query).Some?
  {
    hide ParsedDomain, QuestionSectionEnd, Opcode, ResponseFlags, QueryHasOpt, Emitted, RrsBytes, Bumped, RouteOf, Answer, Params,
      QueryDnssecOk, ParseQtypeQclass;
  }

  /** Behind 12 octets of header with a legal name, type and class, a query is dropped exactly when
      it is a standard query that has not one question, or asks for the root, or has a label that
      is no UTF-8. */
  lemma DroppedWhen(query: Bytes, labels: Labels, config: Config, now: u32)
    requires ValidLabels(labels) && At(query, 12, Wire(labels)) && |query| >= 12 + |Wire(labels)| + 4
    ensures Reply(query, config, now) == []
       <==> && D.DecodeHeader(query).opcode == 0
            && (U16At(query, 4) != 1 || labels == [] || exists l :: l in labels && !IsUtf8(l))
  {
    hide Reply, WalkLabels, At, Wire, ValidUtf8, IsUtf8, U16At, QuestionSectionEnd, ParseQtypeQclass;
    QuestionEnds(query, labels);
    WalkYields(query, 12, labels, []);
    RepliesWhen(query, config, now);
    forall l | l in labels ensures ValidUtf8(l) <==> IsUtf8(l) {
      TextIsUtf8(l);
    }
  }

  /** Less than a header is dropped, whatever it says. */
  lemma ShortDropped(query: Bytes, config: Config, now: u32)
    requires |query| < 12
    ensures Reply(query, config, now) == []
  {
  }
}
