/**
 Domain names: as text with dots, as a list of labels, and as length-prefixed
 labels on the wire.
 */
module Names {
  import opened Octets

  type Labels = seq<Bytes>

  // ----- splitting and joining text --------------------------------------------

  /** `str::split` on a one-octet separator. */
  function Split(s: Bytes, sep: byte): (parts: seq<Bytes>)
    ensures |parts| >= 1
  {
    if s == [] then [[]]
    else
      var rest := Split(s[1..], sep);
      if s[0] == sep then [[]] + rest else [[s[0]] + rest[0]] + rest[1..]
  }

  /** `[&str]::join` with a one-octet separator. */
  function Join(parts: seq<Bytes>, sep: byte): Bytes {
    if parts == [] then []
    else if |parts| == 1 then parts[0]
    else parts[0] + [sep] + Join(parts[1..], sep)
  }

  lemma {:induction false} SplitThenJoin(s: Bytes, sep: byte)
    ensures Join(Split(s, sep), sep) == s
  {
    if s != [] {
      SplitThenJoin(s[1..], sep);
      var rest := Split(s[1..], sep);
      assert s == [s[0]] + s[1..];
      if s[0] == sep {
        assert ([[]] + rest)[1..] == rest;
      } else {
        var parts := [[s[0]] + rest[0]] + rest[1..];
        assert parts[1..] == rest[1..];
        if |rest| > 1 {
          assert Join(parts, sep) == [s[0]] + (rest[0] + [sep] + Join(rest[1..], sep));
        }
      }
    }
  }

  lemma {:induction false} SplitConcat(x: Bytes, y: Bytes, sep: byte)
    ensures Split(x + [sep] + y, sep) == Split(x, sep) + Split(y, sep)
  {
    hide Split;
    if x == [] {
      assert x + [sep] + y == [sep] + y;
      SplitCons(sep, y, sep);
      assert Split([], sep) == [[]] by { SplitEmpty(sep); }
    } else {
      var c, rest := x[0], x[1..];
      SplitConcat(rest, y, sep);
      assert x == [c] + rest && x + [sep] + y == [c] + (rest + [sep] + y);
      SplitCons(c, rest, sep);
      SplitCons(c, rest + [sep] + y, sep);
      assert (Split(rest, sep) + Split(y, sep))[1..] == Split(rest, sep)[1..] + Split(y, sep);
    }
  }

  lemma SplitEmpty(sep: byte)
    ensures Split([], sep) == [[]]
  {
  }

  lemma SplitCons(c: byte, s: Bytes, sep: byte)
    ensures Split([c] + s, sep)
         == if c == sep then [[]] + Split(s, sep) else [[c] + Split(s, sep)[0]] + Split(s, sep)[1..]
  {
    assert ([c] + s)[1..] == s;
  }

  lemma {:induction false} SplitWhole(x: Bytes, sep: byte)
    requires sep !in x
    ensures Split(x, sep) == [x]
  {
    if x != [] {
      SplitWhole(x[1..], sep);
      assert x == [x[0]] + x[1..];
    }
  }

  lemma {:induction false} SplitHasNoSeparator(s: Bytes, sep: byte, i: nat)
    requires i < |Split(s, sep)|
    ensures sep !in Split(s, sep)[i]
  {
    if s != [] {
      var rest := Split(s[1..], sep);
      if s[0] == sep {
        if i > 0 { SplitHasNoSeparator(s[1..], sep, i - 1); }
      } else {
        SplitHasNoSeparator(s[1..], sep, i);
      }
    }
  }

  lemma {:induction false} JoinThenSplit(parts: seq<Bytes>, sep: byte)
    requires parts != [] && forall p | p in parts :: sep !in p
    ensures Split(Join(parts, sep), sep) == parts
  {
    SplitWhole(parts[0], sep);
    if |parts| > 1 {
      JoinThenSplit(parts[1..], sep);
      SplitConcat(parts[0], Join(parts[1..], sep), sep);
      assert parts == [parts[0]] + parts[1..];
    }
  }

  lemma {:induction false} JoinConcat(a: seq<Bytes>, b: seq<Bytes>, sep: byte)
    requires a != [] && b != []
    ensures Join(a + b, sep) == Join(a, sep) + [sep] + Join(b, sep)
  {
    assert (a + b)[1..] == a[1..] + b;
    if |a| > 1 {
      JoinConcat(a[1..], b, sep);
    }
  }

  // ----- text names ------------------------------------------------------------

  /** `str::trim_end_matches('.')`. */
  function TrimDots(s: Bytes): Bytes {
    if s != [] && s[|s| - 1] == DOT then TrimDots(s[..|s| - 1]) else s
  }

  function TextLabels(name: Bytes): Labels {
    var t := TrimDots(name);
    if t == [] then [] else Split(t, DOT)
  }

  function LowerLabels(labels: Labels): Labels {
    seq(|labels|, i requires 0 <= i < |labels| => LowerAll(labels[i]))
  }

  predicate NamesEq(a: Bytes, b: Bytes) { EqIgnoreCase(TrimDots(a), TrimDots(b)) }

  lemma {:induction false} TrimDotsNoTrailing(s: Bytes)
    ensures TrimDots(s) != [] ==> TrimDots(s)[|TrimDots(s)| - 1] != DOT
    ensures TrimDots(TrimDots(s)) == TrimDots(s)
  {
    if s != [] && s[|s| - 1] == DOT {
      TrimDotsNoTrailing(s[..|s| - 1]);
    }
  }

  /** A separator that is no letter splits both spellings alike. */
  lemma {:induction false} SplitLower(s: Bytes, sep: byte)
    requires sep == DOT || sep == HYPHEN
    ensures Split(LowerAll(s), sep) == LowerLabels(Split(s, sep))
  {
    hide Split;
    if s == [] {
      SplitEmpty(sep);
    } else {
      var c, tail := s[0], s[1..];
      SplitLower(tail, sep);
      assert s == [c] + tail && LowerAll(s) == [Lower(c)] + LowerAll(tail);
      SplitCons(c, tail, sep);
      SplitCons(Lower(c), LowerAll(tail), sep);
      LowerParts(c, Split(tail, sep));
    }
  }

  lemma LowerParts(c: byte, parts: Labels)
    requires parts != []
    ensures LowerLabels([[]] + parts) == [[]] + LowerLabels(parts)
    ensures LowerLabels([[c] + parts[0]] + parts[1..]) == [[Lower(c)] + LowerLabels(parts)[0]] + LowerLabels(parts)[1..]
  {
    assert LowerAll([c] + parts[0]) == [Lower(c)] + LowerAll(parts[0]);
    assert LowerAll([]) == [];
    hide LowerAll;
  }

  lemma LowerLabelsIdempotent(labels: Labels)
    ensures LowerLabels(LowerLabels(labels)) == LowerLabels(labels)
  {
    forall i | 0 <= i < |labels| ensures LowerAll(LowerAll(labels[i])) == LowerAll(labels[i]) {
      LowerAllIdempotent(labels[i]);
    }
  }

  /** Names are equal exactly when their label lists are, up to case. */
  lemma NamesEqByLabels(a: Bytes, b: Bytes)
    ensures NamesEq(a, b) <==> LowerLabels(TextLabels(a)) == LowerLabels(TextLabels(b))
  {
    var x, y := TrimDots(a), TrimDots(b);
    SplitLower(x, DOT);
    SplitLower(y, DOT);
    SplitThenJoin(LowerAll(x), DOT);
    SplitThenJoin(LowerAll(y), DOT);
    assert |LowerAll(x)| == |x| && |LowerAll(y)| == |y|;
  }

  // ----- names on the wire (section 3.1 of RFC 1035) ---------------------------

  /** Each label behind its length octet, no terminator; the length is a `u8`. */
  function WireLabels(labels: Labels): Bytes {
    if labels == [] then []
    else [|labels[0]| % 0x100] + labels[0] + WireLabels(labels[1..])
  }

  function Wire(labels: Labels): Bytes { WireLabels(labels) + [0] }

  lemma WireUnfold(labels: Labels)
    requires labels != []
    ensures Wire(labels) == [|labels[0]| % 0x100] + (labels[0] + Wire(labels[1..]))
    ensures |Wire(labels)| == 1 + |labels[0]| + |Wire(labels[1..])|
  {
  }

  /** The first label of a name on the wire, and what stands behind it. */
  lemma WireAtHead(msg: Bytes, pos: nat, labels: Labels)
    requires labels != [] && |labels[0]| < 0x100 && At(msg, pos, Wire(labels))
    ensures msg[pos] == |labels[0]|
    ensures pos + 1 + |labels[0]| < |msg| && msg[pos + 1..pos + 1 + |labels[0]|] == labels[0]
    ensures At(msg, pos + 1 + |labels[0]|, Wire(labels[1..]))
    ensures |Wire(labels)| == 1 + |labels[0]| + |Wire(labels[1..])|
  {
    WireUnfold(labels);
    AtConcat(msg, pos, [|labels[0]|], labels[0] + Wire(labels[1..]));
    AtIndex(msg, pos, [|labels[0]|], 0);
    AtConcat(msg, pos + 1, labels[0], Wire(labels[1..]));
  }

  predicate ValidLabels(labels: Labels) { forall l | l in labels :: 1 <= |l| <= 63 }

  /** Sections 2.3.4 and 3.1 of RFC 1035: labels of 1 to 63 octets, names of at most 255. */
  predicate ValidName(labels: Labels) { ValidLabels(labels) && |Wire(labels)| <= 255 }

  function Encode(name: Bytes): Bytes { Wire(LowerLabels(TextLabels(name))) }

  method EncodeDomainName(name: Bytes) returns (encoded: Bytes)
    ensures encoded == Encode(name)
  {
    encoded := [];
    var t := TrimDots(name);
    if t != [] {
      var parts := Split(t, DOT);
      ghost var lower := LowerLabels(parts);
      hide LowerAll, LowerLabels, TrimDots, Split;
      LowerLabelsAt(parts);
      for i := 0 to |parts|
        invariant encoded + WireLabels(lower[i..]) == WireLabels(lower)
      {
        WireLabelsStep(encoded, lower, i);
        encoded := encoded + [|parts[i]| % 0x100];
        encoded := encoded + LowerAll(parts[i]);
      }
      assert lower[|parts|..] == [];
    } else {
      assert LowerLabels([]) == [];
    }
    encoded := encoded + [0];
  }

  lemma LowerLabelsAt(labels: Labels)
    ensures |LowerLabels(labels)| == |labels|
    ensures forall i | 0 <= i < |labels| ::
        LowerLabels(labels)[i] == LowerAll(labels[i]) && |LowerAll(labels[i])| == |labels[i]|
  {
  }

  lemma WireLabelsStep(done: Bytes, labels: Labels, i: nat)
    requires i < |labels|
    ensures done + WireLabels(labels[i..]) == done + [|labels[i]| % 0x100] + labels[i] + WireLabels(labels[i + 1..])
  {
    assert labels[i..][1..] == labels[i + 1..];
  }

  lemma {:induction false} WireLabelsInjective(a: Labels, b: Labels)
    requires forall l | l in a + b :: |l| < 0x100
    requires WireLabels(a) == WireLabels(b)
    ensures a == b
  {
    if a != [] && b != [] {
      assert a[0] in a + b && b[0] in a + b;
      var wa, wb := WireLabels(a), WireLabels(b);
      assert wa[0] == |a[0]| && wb[0] == |b[0]|;
      assert wa[1..1 + wa[0]] == a[0] && wb[1..1 + wb[0]] == b[0];
      assert wa[1 + wa[0]..] == WireLabels(a[1..]) && wb[1 + wb[0]..] == WireLabels(b[1..]);
      WireLabelsInjective(a[1..], b[1..]);
      assert a == [a[0]] + a[1..] && b == [b[0]] + b[1..];
    }
  }

  /** Two names share an encoding exactly when they are the same name. */
  lemma EncodeInjective(a: Bytes, b: Bytes)
    requires forall l | l in TextLabels(a) + TextLabels(b) :: |l| < 0x100
    ensures Encode(a) == Encode(b) <==> NamesEq(a, b)
  {
    NamesEqByLabels(a, b);
    if Encode(a) == Encode(b) {
      var x, y := LowerLabels(TextLabels(a)), LowerLabels(TextLabels(b));
      assert WireLabels(x) == Wire(x)[..|Wire(x)| - 1];
      assert WireLabels(y) == Wire(y)[..|Wire(y)| - 1];
      forall l | l in x + y ensures |l| < 0x100 {
        if l in x {
          var i :| 0 <= i < |x| && x[i] == l;
          assert TextLabels(a)[i] in TextLabels(a) + TextLabels(b);
        } else {
          var i :| 0 <= i < |y| && y[i] == l;
          assert TextLabels(b)[i] in TextLabels(a) + TextLabels(b);
        }
      }
      WireLabelsInjective(x, y);
    }
  }

  /** The bound on label lengths matters: the length octet of a label of 256 or more wraps, and
      its text then reads as several labels.  Here `p` has 63 octets, whose length octet is a
      question mark. */
  lemma LongLabelsCollide(x: Bytes, p: Bytes)
    requires 1 <= |x| <= 63 && |p| == 63 && DOT !in x && DOT !in p
    ensures var wrapped := x + [63] + p + [63] + p + [63] + p + [63] + p;
            var legal := Join([x, p, p, p, p], DOT);
            Encode(legal) == Encode(wrapped) && !NamesEq(legal, wrapped)
  {
    hide LowerAll, LowerLabels, TextLabels, WireLabels;
    var labels, wrapped := [x, p, p, p, p], x + [63] + p + [63] + p + [63] + p + [63] + p;
    assert Join([wrapped], DOT) == wrapped;
    JoinedLabels(labels);
    JoinedLabels([wrapped]);
    NamesEqByLabels(Join(labels, DOT), wrapped);
    LowerFive(x, p);
    WireOfFive(LowerAll(x), LowerAll(p));
    WireOfOne(LowerAll(wrapped));
  }

  lemma LowerFive(x: Bytes, p: Bytes)
    requires 1 <= |x| <= 63 && |p| == 63
    ensures var wrapped, u, q := x + [63] + p + [63] + p + [63] + p + [63] + p, LowerAll(x), LowerAll(p);
            && |u| == |x| && |q| == 63 && |LowerAll(wrapped)| % 0x100 == |x|
            && LowerAll(wrapped) == u + [63] + q + [63] + q + [63] + q + [63] + q
            && LowerLabels([wrapped]) == [LowerAll(wrapped)] && LowerLabels([x, p, p, p, p]) == [u, q, q, q, q]
  {
    var wrapped := x + [63] + p + [63] + p + [63] + p + [63] + p;
    assert |wrapped| == |x| + 256 && |LowerAll(wrapped)| == |wrapped|;
  }

  lemma WireOfOne(a: Bytes)
    ensures WireLabels([a]) == [|a| % 0x100] + a
  {
    assert [a][1..] == [];
    assert WireLabels([]) == [];
  }

  lemma WireOfFive(u: Bytes, q: Bytes)
    requires |u| <= 63 && |q| == 63
    ensures WireLabels([u, q, q, q, q]) == [|u|] + (u + [63] + q + [63] + q + [63] + q + [63] + q)
  {
    WireOfOne(q);
    assert [u, q, q, q, q][1..] == [q, q, q, q] && [q, q, q, q][1..] == [q, q, q] && [q, q, q][1..] == [q, q] && [q, q][1..] == [q];
    assert WireLabels([q, q]) == [63] + q + WireLabels([q]);
    assert WireLabels([q, q, q]) == [63] + q + WireLabels([q, q]);
    assert WireLabels([q, q, q, q]) == [63] + q + WireLabels([q, q, q]);
    assert WireLabels([u, q, q, q, q]) == [|u|] + u + WireLabels([q, q, q, q]);
  }

  lemma {:induction false} WireLower(labels: Labels)
    ensures |Wire(LowerLabels(labels))| == |Wire(labels)|
    ensures ValidLabels(labels) ==> ValidLabels(LowerLabels(labels))
    ensures ValidName(labels) ==> ValidName(LowerLabels(labels))
  {
    if labels != [] {
      WireLower(labels[1..]);
      assert LowerLabels(labels)[1..] == LowerLabels(labels[1..]);
    }
    if ValidLabels(labels) {
      forall l | l in LowerLabels(labels) ensures 1 <= |l| <= 63 {
        var i :| 0 <= i < |labels| && LowerLabels(labels)[i] == l;
        assert labels[i] in labels;
      }
    }
  }

  /** Text joined from nonempty dot-free labels has exactly those labels. */
  lemma JoinedLabels(labels: Labels)
    requires forall l | l in labels :: l != [] && DOT !in l
    ensures TextLabels(Join(labels, DOT)) == labels
  {
    if labels != [] {
      JoinThenSplit(labels, DOT);
      JoinEndsInLabel(labels);
    }
  }

  lemma {:induction false} JoinEndsInLabel(labels: Labels)
    requires labels != [] && forall l | l in labels :: l != [] && DOT !in l
    ensures Join(labels, DOT) != []
    ensures Join(labels, DOT)[|Join(labels, DOT)| - 1] != DOT
  {
    assert labels[0] in labels;
    if |labels| > 1 {
      assert forall l | l in labels[1..] :: l in labels;
      JoinEndsInLabel(labels[1..]);
    }
  }

  // ----- labels that hold dots -------------------------------------------------

  /** On the wire a label may hold a dot; in text that dot separates labels. */
  predicate DotFree(labels: Labels) { forall l | l in labels :: DOT !in l }

  lemma {:induction false} SplitPieces(s: Bytes, sep: byte)
    ensures forall p | p in Split(s, sep) :: |p| <= |s|
  {
    hide Split;
    if s == [] {
      SplitEmpty(sep);
    } else {
      SplitPieces(s[1..], sep);
      SplitCons(s[0], s[1..], sep);
      assert s == [s[0]] + s[1..];
    }
  }

  lemma {:induction false} JoinedPieces(labels: Labels, n: nat)
    requires labels != [] && forall l | l in labels :: |l| <= n
    ensures forall p | p in Split(Join(labels, DOT), DOT) :: |p| <= n
  {
    hide Split;
    assert labels[0] in labels;
    SplitPieces(labels[0], DOT);
    if |labels| > 1 {
      assert forall l | l in labels[1..] :: l in labels;
      JoinedPieces(labels[1..], n);
      SplitConcat(labels[0], Join(labels[1..], DOT), DOT);
    }
  }

  lemma {:induction false} TrimmedPieces(s: Bytes)
    ensures forall p | p in Split(TrimDots(s), DOT) :: p in Split(s, DOT)
  {
    hide Split;
    if s != [] && s[|s| - 1] == DOT {
      var t := s[..|s| - 1];
      TrimmedPieces(t);
      assert s == t + [DOT] + [];
      SplitConcat(t, [], DOT);
    }
  }

  /** No label of a text is longer than the longest label it was joined from. */
  lemma TextLabelsShort(labels: Labels, n: nat)
    requires labels != [] && forall l | l in labels :: |l| <= n
    ensures forall p | p in TextLabels(Join(labels, DOT)) :: |p| <= n
  {
    hide Split, Join, TrimDots;
    JoinedPieces(labels, n);
    TrimmedPieces(Join(labels, DOT));
  }

  lemma TextLabelsDotFree(text: Bytes)
    ensures DotFree(TextLabels(text))
  {
    var t := TrimDots(text);
    forall l | l in TextLabels(text) ensures DOT !in l {
      var i :| 0 <= i < |Split(t, DOT)| && Split(t, DOT)[i] == l;
      SplitHasNoSeparator(t, DOT, i);
    }
  }

  lemma DotFreeLower(labels: Labels)
    ensures DotFree(LowerLabels(labels)) <==> DotFree(labels)
  {
    var lower := LowerLabels(labels);
    forall i | 0 <= i < |labels| ensures lower[i] == LowerAll(labels[i]) && (DOT in lower[i] <==> DOT in labels[i]) {
      LowerKeepsDots(labels[i]);
    }
    assert forall i | 0 <= i < |labels| :: labels[i] in labels && lower[i] in lower;
  }

  lemma LowerKeepsDots(s: Bytes)
    ensures DOT in LowerAll(s) <==> DOT in s
  {
    assert forall i | 0 <= i < |s| :: LowerAll(s)[i] == Lower(s[i]) && (LowerAll(s)[i] == DOT <==> s[i] == DOT);
    if DOT in s {
      var i :| 0 <= i < |s| && s[i] == DOT;
      assert LowerAll(s)[i] == DOT;
    }
  }

  /** Text and wire hold the same labels, and the same encoding, exactly when no label holds a dot. */
  lemma TextKeepsLabels(labels: Labels)
    requires labels != [] && ValidLabels(labels)
    ensures TextLabels(Join(labels, DOT)) == labels <==> DotFree(labels)
    ensures Encode(Join(labels, DOT)) == Wire(LowerLabels(labels)) <==> DotFree(labels)
  {
    var text := Join(labels, DOT);
    TextLabelsDotFree(text);
    if DotFree(labels) {
      JoinedLabels(labels);
    }
    if Encode(text) == Wire(LowerLabels(labels)) {
      TextLabelsShort(labels, 63);
      SameWire(TextLabels(text), labels);
      DotFreeLower(TextLabels(text));
      DotFreeLower(labels);
    }
  }

  lemma SameWire(a: Labels, b: Labels)
    requires (forall l | l in a :: |l| <= 63) && (forall l | l in b :: |l| <= 63)
    requires Wire(LowerLabels(a)) == Wire(LowerLabels(b))
    ensures LowerLabels(a) == LowerLabels(b)
  {
    var x, y := LowerLabels(a), LowerLabels(b);
    assert WireLabels(x) == Wire(x)[..|Wire(x)| - 1];
    assert WireLabels(y) == Wire(y)[..|Wire(y)| - 1];
    LowerLabelsAt(a);
    LowerLabelsAt(b);
    hide LowerLabels, WireLabels, Wire, LowerAll;
    forall l | l in x + y ensures |l| < 0x100 {
      if l in x {
        var i :| 0 <= i < |x| && x[i] == l;
        assert a[i] in a;
      } else {
        var i :| 0 <= i < |y| && y[i] == l;
        assert b[i] in b;
      }
    }
    WireLabelsInjective(x, y);
  }
}
