/**
 A reference reader of DNS messages, written from section 4.1 of RFC 1035: header,
 questions, three sections of resource records, and compressed names whose
 pointers must lead strictly backwards and which end at 255 octets.
 */
module Decoder {
  import opened Octets
  import opened Names

  const MAX_NAME: nat := 255

  datatype Header = Header(
    id: u16, qr: bool, opcode: nat, aa: bool, tc: bool, rd: bool, ra: bool, z: nat, rcode: nat)

  datatype Question = Question(name: Labels, qtype: u16, qclass: u16)

  datatype Record = Record(name: Labels, typ: u16, cls: u16, ttl: u32, rdata: Bytes)

  datatype Message = Message(
    header: Header,
    questions: seq<Question>,
    answers: seq<Record>,
    authority: seq<Record>,
    additional: seq<Record>)

  // ----- names (sections 2.3.4, 3.1 and 4.1.4) ---------------------------------

  /** The labels at `pos`, whose current run of labels began at `start`, and the offset
      behind them.  A pointer must lead to an offset before `start`. */
  function ReadLabels(msg: Bytes, start: nat, pos: nat): (r: Option<(Labels, nat)>)
    requires start <= pos
    ensures r.Some? ==> pos < r.value.1 <= |msg| && ValidLabels(r.value.0)
    decreases start, |msg| - pos
  {
    if pos >= |msg| then None
    else
      var n := msg[pos];
      if n == 0 then Some(([], pos + 1))
      else if n < 64 then
        var next := pos + 1 + n;
        if next > |msg| then None
        else
          var rest := ReadLabels(msg, start, next);
          if rest.None? then None
          else Some(([msg[pos + 1..next]] + rest.value.0, rest.value.1))
      else if n >= 192 && pos + 2 <= |msg| then
        var target := (n as int - 192) * 0x100 + msg[pos + 1];
        if target >= start then None
        else
          var rest := ReadLabels(msg, target, target);
          if rest.None? then None else Some((rest.value.0, pos + 2))
      else None
  }

  /** The name at `pos` and the offset behind it; names of more than 255 octets are refused. */
  function DecodeName(msg: Bytes, start: nat, pos: nat): (r: Option<(Labels, nat)>)
    requires start <= pos
    ensures r.Some? ==> pos < r.value.1 <= |msg| && ValidName(r.value.0)
  {
    var r := ReadLabels(msg, start, pos);
    if r.Some? && |Wire(r.value.0)| > MAX_NAME then None else r
  }

  // ----- questions and records (sections 4.1.2 and 4.1.3) ----------------------

  function DecodeQuestions(msg: Bytes, pos: nat, n: nat): (r: Option<(seq<Question>, nat)>)
    requires pos <= |msg|
    ensures r.Some? ==> pos <= r.value.1 <= |msg|
    decreases n
  {
    if n == 0 then Some(([], pos))
    else
      var name := DecodeName(msg, pos, pos);
      if name.None? || name.value.1 + 4 > |msg| then None
      else
        var p := name.value.1;
        var rest := DecodeQuestions(msg, p + 4, n - 1);
        if rest.None? then None
        else Some(([Question(name.value.0, U16At(msg, p), U16At(msg, p + 2))] + rest.value.0, rest.value.1))
  }

  function DecodeRecord(msg: Bytes, pos: nat): (r: Option<(Record, nat)>)
    ensures r.Some? ==> pos < r.value.1 <= |msg|
  {
    var name := DecodeName(msg, pos, pos);
    if name.None? || name.value.1 + 10 > |msg| then None
    else
      var p := name.value.1;
      var end := p + 10 + U16At(msg, p + 8);
      if end > |msg| then None
      else Some((Record(name.value.0, U16At(msg, p), U16At(msg, p + 2), U32At(msg, p + 4), msg[p + 10..end]), end))
  }

  function DecodeRecords(msg: Bytes, pos: nat, n: nat): (r: Option<(seq<Record>, nat)>)
    requires pos <= |msg|
    ensures r.Some? ==> pos <= r.value.1 <= |msg|
    decreases n
  {
    if n == 0 then Some(([], pos))
    else
      var first := DecodeRecord(msg, pos);
      if first.None? then None
      else
        var rest := DecodeRecords(msg, first.value.1, n - 1);
        if rest.None? then None
        else Some(([first.value.0] + rest.value.0, rest.value.1))
  }

  // ----- header and message (sections 4.1.1 and 4.1) ---------------------------

  function DecodeHeader(msg: Bytes): Header
    requires |msg| >= 12
  {
    var hi, lo := msg[2], msg[3];
    Header(U16At(msg, 0), hi / 128 == 1, (hi / 8) % 16, (hi / 4) % 2 == 1, (hi / 2) % 2 == 1, hi % 2 == 1,
           lo / 128 == 1, (lo / 16) % 8, lo % 16)
  }

  /** The whole message; octets left over at the end are refused. */
  function Decode(msg: Bytes): Option<Message> {
    if |msg| < 12 then None
    else
      var questions := DecodeQuestions(msg, 12, U16At(msg, 4));
      if questions.None? then None
      else
        var answers := DecodeRecords(msg, questions.value.1, U16At(msg, 6));
        if answers.None? then None
        else
          var authority := DecodeRecords(msg, answers.value.1, U16At(msg, 8));
          if authority.None? then None
          else
            var additional := DecodeRecords(msg, authority.value.1, U16At(msg, 10));
            if additional.None? || additional.value.1 != |msg| then None
            else Some(Message(DecodeHeader(msg), questions.value.0, answers.value.0,
                              authority.value.0, additional.value.0))
  }

  // ----- what the reader makes of written names --------------------------------

  lemma RootReads(msg: Bytes, start: nat, pos: nat)
    requires start <= pos && At(msg, pos, Wire([]))
    ensures ReadLabels(msg, start, pos) == Some(([], pos + |Wire([])|))
  {
    AtIndex(msg, pos, Wire([]), 0);
  }

  lemma LabelStep(msg: Bytes, start: nat, pos: nat, part: Bytes)
    requires start <= pos && 1 <= |part| <= 63 && pos + 1 + |part| <= |msg|
    requires msg[pos] as int == |part| && msg[pos + 1..pos + 1 + |part|] == part
    ensures var rest := ReadLabels(msg, start, pos + 1 + |part|);
            ReadLabels(msg, start, pos)
            == if rest.None? then None else Some(([part] + rest.value.0, rest.value.1))
  {
  }

  lemma {:induction false} LabelsRead(msg: Bytes, start: nat, pos: nat, labels: Labels)
    requires start <= pos && At(msg, pos, Wire(labels)) && ValidLabels(labels)
    ensures ReadLabels(msg, start, pos) == Some((labels, pos + |Wire(labels)|))
    decreases |labels|
  {
    hide ReadLabels, At, Wire;
    if labels == [] {
      RootReads(msg, start, pos);
    } else {
      var first, rest := labels[0], labels[1..];
      assert first in labels;
      assert forall l | l in rest :: l in labels;
      WireAtHead(msg, pos, labels);
      LabelStep(msg, start, pos, first);
      LabelsRead(msg, start, pos + 1 + |first|, rest);
      assert labels == [first] + rest;
    }
  }

  /** A written name reads back as its own labels exactly when it is a legal name; one that is
      only too long is refused. */
  lemma NameDecodes(msg: Bytes, start: nat, pos: nat, labels: Labels)
    requires start <= pos && At(msg, pos, Wire(labels))
    ensures DecodeName(msg, start, pos) == Some((labels, pos + |Wire(labels)|)) <==> ValidName(labels)
    ensures ValidLabels(labels) && |Wire(labels)| > MAX_NAME ==> DecodeName(msg, start, pos).None?
  {
    hide ReadLabels, At, Wire, ValidLabels;
    if ValidLabels(labels) {
      LabelsRead(msg, start, pos, labels);
    }
  }

  /** A pointer to offset 12, written behind the question, reads as the QNAME. */
  lemma PointerDecodes(msg: Bytes, pos: nat, qname: Labels)
    requires At(msg, 12, Wire(qname)) && ValidName(qname)
    requires 12 < pos && At(msg, pos, [0xC0, 0x0C])
    ensures DecodeName(msg, pos, pos) == Some((qname, pos + 2))
  {
    AtIndex(msg, pos, [0xC0, 0x0C], 0);
    AtIndex(msg, pos, [0xC0, 0x0C], 1);
    LabelsRead(msg, 12, 12, qname);
    hide At, Wire, ValidLabels;
  }
}
