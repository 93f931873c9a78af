/**
 Reading addresses out of names: decimal octets between hyphens or dots, eight
 hexadecimal digits, and IPv6 text with hyphens for colons.
 */
module IpParser {
  import opened Octets
  import opened Names
  import opened Message

  /** `Ipv6Addr::from_str` of the standard library. */
  type Ipv6Reader = Bytes -> Option<Ipv6>

  // ----- decimal octets --------------------------------------------------------

  predicate IsDigit(b: byte) { 48 <= b <= 57 }

  predicate AllDigits(s: Bytes) { forall b | b in s :: IsDigit(b) }

  function DigitsValue(s: Bytes): nat
    requires AllDigits(s)
  {
    if s == [] then 0
    else
      assert forall b | b in s[..|s| - 1] :: b in s;
      var last := s[|s| - 1];
      assert last in s;
      10 * DigitsValue(s[..|s| - 1]) + (last - 48)
  }

  /** `str::parse::<u8>().is_ok()`: an optional plus sign, and leading zeros allowed. */
  predicate ParsesAsU8(s: Bytes) {
    var digits := if s != [] && s[0] == 43 then s[1..] else s;
    digits != [] && AllDigits(digits) && DigitsValue(digits) <= 255
  }

  /** An octet as `Ipv4Addr::from_str` takes it: one to three digits, no sign, no leading zero. */
  function CanonicalOctet(s: Bytes): Option<byte> {
    if 1 <= |s| <= 3 && AllDigits(s) && (s[0] != 48 || |s| == 1) && DigitsValue(s) <= 255
    then Some(DigitsValue(s)) else None
  }

  function FourOctets(parts: seq<Bytes>): Option<Ipv4> {
    if && |parts| == 4
       && CanonicalOctet(parts[0]).Some? && CanonicalOctet(parts[1]).Some?
       && CanonicalOctet(parts[2]).Some? && CanonicalOctet(parts[3]).Some?
    then Some([CanonicalOctet(parts[0]).value, CanonicalOctet(parts[1]).value,
               CanonicalOctet(parts[2]).value, CanonicalOctet(parts[3]).value])
    else None
  }

  /** `Ipv4Addr::from_str`. */
  function Ipv4FromStr(s: Bytes): Option<Ipv4> { FourOctets(Split(s, DOT)) }

  // ----- the simple readings that the scans refine -----------------------------

  /** The first result of `f` along `xs`. */
  function FirstMatch<T>(xs: seq<Bytes>, f: Bytes -> Option<T>): (r: Option<T>)
    ensures r.None? <==> forall k | 0 <= k < |xs| :: f(xs[k]).None?
    ensures r.Some? ==> exists k :: 0 <= k < |xs| && f(xs[k]) == r && forall j | 0 <= j < k :: f(xs[j]).None?
  {
    if xs == [] then None
    else if f(xs[0]).Some? then f(xs[0])
    else
      var r := FirstMatch(xs[1..], f);
      assert r.Some? ==> exists k :: 0 <= k < |xs| && f(xs[k]) == r && forall j | 0 <= j < k :: f(xs[j]).None? by {
        if r.Some? {
          var k :| 0 <= k < |xs[1..]| && f(xs[1..][k]) == r && forall j | 0 <= j < k :: f(xs[1..][j]).None?;
          assert forall j | 0 < j < k + 1 :: xs[j] == xs[1..][j - 1];
          assert f(xs[k + 1]) == r;
        }
      }
      r
  }

  function WindowAt(parts: seq<Bytes>, k: nat): Option<Ipv4>
    requires k + 4 <= |parts|
  {
    FourOctets(parts[k..k + 4])
  }

  /** The leftmost run of four canonical octets that starts at `from` or later. */
  function FirstWindow(parts: seq<Bytes>, from: nat): (r: Option<Ipv4>)
    ensures r.None? <==> forall k | from <= k <= |parts| - 4 :: WindowAt(parts, k).None?
    ensures r.Some? ==> exists k :: from <= k <= |parts| - 4 && WindowAt(parts, k) == r
                                    && forall j | from <= j < k :: WindowAt(parts, j).None?
    decreases |parts| - from
  {
    if from + 4 > |parts| then None
    else if WindowAt(parts, from).Some? then WindowAt(parts, from)
    else FirstWindow(parts, from + 1)
  }

  predicate IsHexDigit(b: byte) { 48 <= b <= 57 || 65 <= b <= 70 || 97 <= b <= 102 }

  function HexValue(b: byte): (v: nat)
    requires IsHexDigit(b)
    ensures v < 16
  {
    if b <= 57 then b - 48 else if b <= 70 then b - 55 else b - 87
  }

  function HexIp(s: Bytes): Option<Ipv4> {
    if |s| == 8 && forall b | b in s :: IsHexDigit(b) then
      Some([16 * HexValue(s[0]) + HexValue(s[1]), 16 * HexValue(s[2]) + HexValue(s[3]),
            16 * HexValue(s[4]) + HexValue(s[5]), 16 * HexValue(s[6]) + HexValue(s[7])])
    else None
  }

  function OrElse<T>(a: Option<T>, b: Option<T>): Option<T> { if a.Some? then a else b }

  /** A hyphenated label: the leftmost canonical window, else the leftmost hex part. */
  function HyphenIp(s: Bytes): Option<Ipv4> {
    var parts := Split(s, HYPHEN);
    OrElse(FirstWindow(parts, 0), FirstMatch(parts, HexIp))
  }

  function LabelIpv4(s: Bytes): Option<Ipv4> { OrElse(HexIp(s), HyphenIp(s)) }

  function ColonsForHyphens(s: Bytes): Bytes {
    seq(|s|, i requires 0 <= i < |s| => if s[i] == HYPHEN then COLON else s[i])
  }

  function LabelIpv6(s: Bytes, read: Ipv6Reader): Option<Ipv6> {
    if HYPHEN !in s then None else read(ColonsForHyphens(s))
  }

  function V6OfLabels(read: Ipv6Reader): Bytes -> Option<Ipv6> { s => LabelIpv6(s, read) }

  /** One address of each family at most; the dotted reading only when no label has one. */
  function AddressesOf(labels: seq<Bytes>, read: Ipv6Reader): Addresses {
    (OrElse(FirstMatch(labels, LabelIpv4), FirstWindow(labels, 0)), FirstMatch(labels, V6OfLabels(read)))
  }

  function Interpretation(domain: Bytes, read: Ipv6Reader): Option<Addresses> {
    var ip := AddressesOf(Split(domain, DOT), read);
    if ip.0.None? && ip.1.None? then None else Some(ip)
  }

  // ----- joining four parts with dots and parsing the result -------------------

  lemma JoinedFour(parts: seq<Bytes>)
    requires |parts| == 4 && forall p | p in parts :: DOT !in p
    ensures Ipv4FromStr(Join(parts, DOT)) == FourOctets(parts)
  {
    JoinThenSplit(parts, DOT);
  }

  lemma DigitsHaveNoDot(s: Bytes)
    requires ParsesAsU8(s)
    ensures DOT !in s
  {
    if s[0] == 43 {
      assert s == [s[0]] + s[1..];
    }
  }

  lemma CanonicalParses(s: Bytes)
    requires CanonicalOctet(s).Some?
    ensures ParsesAsU8(s)
  {
    assert s[0] in s;
  }

  predicate AllParseAsU8(parts: seq<Bytes>) { forall p | p in parts :: ParsesAsU8(p) }

  /** The extra `u8` test in front of `from_str` decides nothing. */
  lemma WindowTest(parts: seq<Bytes>)
    requires |parts| == 4
    ensures AllParseAsU8(parts) ==> Ipv4FromStr(Join(parts, DOT)) == FourOctets(parts)
    ensures !AllParseAsU8(parts) ==> FourOctets(parts).None?
  {
    hide ParsesAsU8, CanonicalOctet, Ipv4FromStr;
    if AllParseAsU8(parts) {
      forall p | p in parts ensures DOT !in p {
        DigitsHaveNoDot(p);
      }
      JoinedFour(parts);
    } else if FourOctets(parts).Some? {
      forall p | p in parts ensures ParsesAsU8(p) {
        var i :| 0 <= i < |parts| && parts[i] == p;
        CanonicalParses(parts[i]);
      }
    }
  }

  // ----- the scans of the source -----------------------------------------------

  method ParseHexadecimalIp(s: Bytes) returns (ip: Option<Ipv4>)
    ensures ip == HexIp(s)
  {
    if |s| != 8 {
      return None;
    }
    if !(forall b | b in s :: IsHexDigit(b)) {
      return None;
    }
    var octets := new byte[4](_ => 0);
    for i := 0 to 4
      invariant forall j | 0 <= j < i :: octets[j] == 16 * HexValue(s[2 * j]) + HexValue(s[2 * j + 1])
    {
      octets[i] := 16 * HexValue(s[2 * i]) + HexValue(s[2 * i + 1]);
    }
    assert octets[..] == [octets[2 * 0], octets[1], octets[2], octets[3]];
    assert octets[0] == 16 * HexValue(s[2 * 0]) + HexValue(s[2 * 0 + 1]);
    assert octets[1] == 16 * HexValue(s[2 * 1]) + HexValue(s[2 * 1 + 1]);
    assert octets[2] == 16 * HexValue(s[2 * 2]) + HexValue(s[2 * 2 + 1]);
    assert octets[3] == 16 * HexValue(s[2 * 3]) + HexValue(s[2 * 3 + 1]);
    return Some(octets[..]);
  }

  method ParseHyphenatedIp(s: Bytes) returns (ip: Option<Ipv4>)
    ensures ip == HyphenIp(s)
  {
    var parts := Split(s, HYPHEN);
    hide FourOctets, Ipv4FromStr, AllParseAsU8, HexIp;
    if |parts| == 4 && AllParseAsU8(parts) {
      WindowTest(parts);
      assert parts[0..4] == parts;
      var r := Ipv4FromStr(Join(parts, DOT));
      if r.Some? {
        return r;
      }
    } else if |parts| > 4 {
      for i := 0 to |parts| - 3
        invariant FirstWindow(parts, i) == FirstWindow(parts, 0)
      {
        WindowTest(parts[i..i + 4]);
        if AllParseAsU8(parts[i..i + 4]) {
          var r := Ipv4FromStr(Join(parts[i..i + 4], DOT));
          if r.Some? {
            return r;
          }
        }
      }
    } else if |parts| == 4 {
      WindowTest(parts);
      assert parts[0..4] == parts;
    }
    assert FirstWindow(parts, 0).None?;
    for i := 0 to |parts|
      invariant FirstMatch(parts[i..], HexIp) == FirstMatch(parts, HexIp)
    {
      assert parts[i..][1..] == parts[i + 1..];
      if |parts[i]| == 8 {
        var r := ParseHexadecimalIp(parts[i]);
        if r.Some? {
          return r;
        }
      } else {
        OnlyEightIsHex(parts[i]);
      }
    }
    return None;
  }

  lemma OnlyEightIsHex(s: Bytes)
    requires |s| != 8
    ensures HexIp(s).None?
  {
  }

  method ParseLabelIpv4(s: Bytes) returns (ip: Option<Ipv4>)
    ensures ip == LabelIpv4(s)
  {
    if |s| == 8 {
      ip := ParseHexadecimalIp(s);
      if ip.Some? {
        return;
      }
    }
    ip := ParseHyphenatedIp(s);
  }

  method ParseDottedIpv4(parts: seq<Bytes>) returns (ip: Option<Ipv4>)
    requires forall p | p in parts :: DOT !in p
    ensures ip == FirstWindow(parts, 0)
  {
    hide FourOctets, Ipv4FromStr;
    if |parts| < 4 {
      return None;
    }
    for i := 0 to |parts| - 3
      invariant FirstWindow(parts, i) == FirstWindow(parts, 0)
    {
      JoinedFour(parts[i..i + 4]);
      var r := Ipv4FromStr(Join(parts[i..i + 4], DOT));
      if r.Some? {
        return r;
      }
    }
    return None;
  }

  /** `s.replace("--", "::")`. */
  function ReplacePairs(s: Bytes): Bytes {
    if |s| < 2 then s
    else if s[0] == HYPHEN && s[1] == HYPHEN then [COLON, COLON] + ReplacePairs(s[2..])
    else [s[0]] + ReplacePairs(s[1..])
  }

  /** The two replacements of the source are one: every hyphen becomes a colon. */
  lemma {:induction false} TwoReplacements(s: Bytes)
    ensures ColonsForHyphens(ReplacePairs(s)) == ColonsForHyphens(s)
  {
    if |s| >= 2 {
      if s[0] == HYPHEN && s[1] == HYPHEN {
        TwoReplacements(s[2..]);
        ColonsConcat([COLON, COLON], ReplacePairs(s[2..]));
        ColonsConcat(s[..2], s[2..]);
        assert s == s[..2] + s[2..];
      } else {
        TwoReplacements(s[1..]);
        ColonsConcat([s[0]], ReplacePairs(s[1..]));
        ColonsConcat([s[0]], s[1..]);
        assert s == [s[0]] + s[1..];
      }
    }
  }

  lemma ColonsConcat(a: Bytes, b: Bytes)
    ensures ColonsForHyphens(a + b) == ColonsForHyphens(a) + ColonsForHyphens(b)
  {
  }

  function ParseHyphenatedIpv6(s: Bytes, read: Ipv6Reader): (ip: Option<Ipv6>)
    ensures ip == LabelIpv6(s, read)
  {
    TwoReplacements(s);
    if HYPHEN !in s then None else read(ColonsForHyphens(ReplacePairs(s)))
  }

  method InterpretIp(domain: Bytes, read: Ipv6Reader) returns (ip: Option<Addresses>)
    ensures ip == Interpretation(domain, read)
  {
    var parts := Split(domain, DOT);
    var ipv4: Option<Ipv4> := None;
    var ipv6: Option<Ipv6> := None;
    var i := 0;
    while i < |parts|
      invariant i <= |parts|
      invariant OrElse(ipv4, FirstMatch(parts[i..], LabelIpv4)) == FirstMatch(parts, LabelIpv4)
      invariant OrElse(ipv6, FirstMatch(parts[i..], V6OfLabels(read))) == FirstMatch(parts, V6OfLabels(read))
    {
      hide LabelIpv4, LabelIpv6;
      var part := parts[i];
      assert parts[i..][1..] == parts[i + 1..];
      if ipv4.None? {
        ipv4 := ParseLabelIpv4(part);
      }
      if ipv6.None? {
        ipv6 := ParseHyphenatedIpv6(part, read);
      }
      i := i + 1;
      if ipv4.Some? && ipv6.Some? {
        break;
      }
    }
    assert ipv4 == FirstMatch(parts, LabelIpv4) && ipv6 == FirstMatch(parts, V6OfLabels(read));
    if ipv4.None? {
      forall p | p in parts ensures DOT !in p {
        var k :| 0 <= k < |parts| && parts[k] == p;
        SplitHasNoSeparator(domain, DOT, k);
      }
      ipv4 := ParseDottedIpv4(parts);
    }
    if ipv4.None? && ipv6.None? {
      return None;
    }
    return Some((ipv4, ipv6));
  }

  // ----- dual-stack names ------------------------------------------------------

  predicate Inert(s: Bytes, read: Ipv6Reader) { LabelIpv4(s).None? && LabelIpv6(s, read).None? }

  lemma {:induction false} FirstMatchSkips<T>(pre: seq<Bytes>, x: Bytes, post: seq<Bytes>, f: Bytes -> Option<T>)
    requires (forall p | p in pre :: f(p).None?) && f(x).Some?
    ensures FirstMatch(pre + [x] + post, f) == f(x)
  {
    var all := pre + [x] + post;
    assert all[|pre|] == x;
    assert forall k | 0 <= k < |pre| :: all[k] == pre[k] && pre[k] in pre;
  }

  /** A v4 label and a v6 label mean the same pair in either order. */
  lemma DualStackOrder(pre: seq<Bytes>, mid: seq<Bytes>, post: seq<Bytes>, v4: Bytes, v6: Bytes, read: Ipv6Reader)
    requires forall p | p in pre + mid + post :: Inert(p, read)
    requires LabelIpv4(v4).Some? && LabelIpv6(v4, read).None?
    requires LabelIpv6(v6, read).Some? && LabelIpv4(v6).None?
    ensures AddressesOf(pre + [v4] + mid + [v6] + post, read) == (LabelIpv4(v4), LabelIpv6(v6, read))
    ensures AddressesOf(pre + [v6] + mid + [v4] + post, read) == (LabelIpv4(v4), LabelIpv6(v6, read))
  {
    hide *;
    InertMeans(pre + mid + post, v4, v6, read);
    var f := V6OfLabels(read);
    FirstOfTwo(pre, v4, mid, v6, post, LabelIpv4);
    SecondOfTwo(pre, v4, mid, v6, post, f);
    FirstOfTwo(pre, v6, mid, v4, post, f);
    SecondOfTwo(pre, v6, mid, v4, post, LabelIpv4);
    PairOf(pre + [v4] + mid + [v6] + post, read);
    PairOf(pre + [v6] + mid + [v4] + post, read);
  }

  lemma PairOf(labels: seq<Bytes>, read: Ipv6Reader)
    requires FirstMatch(labels, LabelIpv4).Some?
    ensures AddressesOf(labels, read) == (FirstMatch(labels, LabelIpv4), FirstMatch(labels, V6OfLabels(read)))
  {
  }

  lemma InertMeans(inert: seq<Bytes>, v4: Bytes, v6: Bytes, read: Ipv6Reader)
    requires forall p | p in inert :: Inert(p, read)
    ensures forall p | p in inert :: LabelIpv4(p).None? && V6OfLabels(read)(p).None?
    ensures V6OfLabels(read)(v4) == LabelIpv6(v4, read) && V6OfLabels(read)(v6) == LabelIpv6(v6, read)
  {
  }

  lemma FirstOfTwo<T>(pre: seq<Bytes>, x: Bytes, mid: seq<Bytes>, y: Bytes, post: seq<Bytes>, f: Bytes -> Option<T>)
    requires forall p | p in pre + mid + post :: f(p).None?
    requires f(x).Some?
    ensures FirstMatch(pre + [x] + mid + [y] + post, f) == f(x)
  {
    assert forall p | p in pre :: p in pre + mid + post;
    FirstMatchSkips(pre, x, mid + [y] + post, f);
    assert pre + [x] + mid + [y] + post == pre + [x] + (mid + [y] + post);
  }

  lemma SecondOfTwo<T>(pre: seq<Bytes>, x: Bytes, mid: seq<Bytes>, y: Bytes, post: seq<Bytes>, f: Bytes -> Option<T>)
    requires forall p | p in pre + mid + post :: f(p).None?
    requires f(x).None? && f(y).Some?
    ensures FirstMatch(pre + [x] + mid + [y] + post, f) == f(y)
  {
    forall p | p in pre + [x] + mid ensures f(p).None? {
      assert p == x || p in pre + mid + post;
    }
    FirstMatchSkips(pre + [x] + mid, y, post, f);
  }

  lemma FirstOfPair<T>(pre: seq<Bytes>, x: Bytes, mid: seq<Bytes>, y: Bytes, post: seq<Bytes>, f: Bytes -> Option<T>)
    requires forall p | p in pre + mid + post :: f(p).None?
    ensures FirstMatch(pre + [x] + mid + [y] + post, f) == OrElse(f(x), f(y))
  {
    if f(x).Some? {
      FirstOfTwo(pre, x, mid, y, post, f);
    } else if f(y).Some? {
      SecondOfTwo(pre, x, mid, y, post, f);
    } else {
      var all := pre + [x] + mid + [y] + post;
      forall k | 0 <= k < |all| ensures f(all[k]).None? {
        assert all[k] == x || all[k] == y || all[k] in pre + mid + post;
      }
    }
  }

  /** Where the leftmost run of four canonical octets starts. */
  function LeftmostAt(labels: seq<Bytes>, from: nat): (at: Option<nat>)
    ensures at.Some? ==> from <= at.value && at.value + 4 <= |labels| && WindowAt(labels, at.value).Some?
    decreases |labels| - from
  {
    if from + 4 > |labels| then None
    else if WindowAt(labels, from).Some? then Some(from)
    else LeftmostAt(labels, from + 1)
  }

  lemma OctetsOf(labels: seq<Bytes>, k: nat)
    requires k + 4 <= |labels|
    ensures WindowAt(labels, k).Some? <==> forall n | k <= n < k + 4 :: CanonicalOctet(labels[n]).Some?
  {
    hide CanonicalOctet;
    var w := labels[k..k + 4];
    assert w[0] == labels[k] && w[1] == labels[k + 1] && w[2] == labels[k + 2] && w[3] == labels[k + 3];
  }

  lemma {:induction false} LeftmostReads(labels: seq<Bytes>, from: nat)
    ensures FirstWindow(labels, from)
         == if LeftmostAt(labels, from).None? then None else WindowAt(labels, LeftmostAt(labels, from).value)
    decreases |labels| - from
  {
    hide WindowAt;
    if from + 4 <= |labels| {
      LeftmostReads(labels, from + 1);
    }
  }

  /** The leftmost windows before and after two labels change places: at one position they are the
      same window but for those labels; at two positions they must hold the same labels. */
  ghost predicate SameWindow(x: Bytes, y: Bytes, i: nat, j: nat, there: seq<Bytes>, back: seq<Bytes>) {
    match (LeftmostAt(there, 0), LeftmostAt(back, 0))
    case (None, None) => true
    case (Some(p), Some(q)) =>
      if p == q then x == y || !(p <= i < p + 4 || p <= j < p + 4) else there[p..p + 4] == back[q..q + 4]
    case _ => false
  }

  /** What keeps the IPv4 reading when two labels change places: they agree where both can be
      read; where neither can, the dotted windows decide. */
  ghost predicate SameIpv4(x: Bytes, y: Bytes, i: nat, j: nat, there: seq<Bytes>, back: seq<Bytes>) {
    if LabelIpv4(x).Some? || LabelIpv4(y).Some?
    then LabelIpv4(x).Some? && LabelIpv4(y).Some? ==> LabelIpv4(x) == LabelIpv4(y)
    else SameWindow(x, y, i, j, there, back)
  }

  /** For any two labels among inert ones, the order does not matter exactly when they do not
      disagree on a family. */
  lemma OrderMatters(pre: seq<Bytes>, mid: seq<Bytes>, post: seq<Bytes>, x: Bytes, y: Bytes, read: Ipv6Reader)
    requires forall p | p in pre + mid + post :: Inert(p, read)
    ensures var there, back := pre + [x] + mid + [y] + post, pre + [y] + mid + [x] + post;
            (AddressesOf(there, read) == AddressesOf(back, read)
             <==> && SameIpv4(x, y, |pre|, |pre| + 1 + |mid|, there, back)
                  && (LabelIpv6(x, read).Some? && LabelIpv6(y, read).Some? ==> LabelIpv6(x, read) == LabelIpv6(y, read)))
  {
    hide Inert, LabelIpv4, LabelIpv6, FirstMatch, FirstWindow, SameWindow;
    InertMeans(pre + mid + post, x, y, read);
    var f := V6OfLabels(read);
    FirstOfPair(pre, x, mid, y, post, LabelIpv4);
    FirstOfPair(pre, y, mid, x, post, LabelIpv4);
    FirstOfPair(pre, x, mid, y, post, f);
    FirstOfPair(pre, y, mid, x, post, f);
    WindowsDecide(pre, mid, post, x, y);
  }

  /** An address names its four labels. */
  lemma LabelsOfWindow(a: seq<Bytes>, p: nat, b: seq<Bytes>, q: nat)
    requires p + 4 <= |a| && q + 4 <= |b| && WindowAt(a, p).Some? && WindowAt(b, q).Some?
    ensures WindowAt(a, p) == WindowAt(b, q) <==> a[p..p + 4] == b[q..q + 4]
  {
    hide FourOctets, PrintedParts;
    FourIsPrinted(a[p..p + 4], WindowAt(a, p).value);
    FourIsPrinted(b[q..q + 4], WindowAt(b, q).value);
  }

  lemma WindowsDecide(pre: seq<Bytes>, mid: seq<Bytes>, post: seq<Bytes>, x: Bytes, y: Bytes)
    ensures var there, back := pre + [x] + mid + [y] + post, pre + [y] + mid + [x] + post;
            (FirstWindow(there, 0) == FirstWindow(back, 0) <==> SameWindow(x, y, |pre|, |pre| + 1 + |mid|, there, back))
  {
    hide FirstWindow, CanonicalOctet, WindowAt, LeftmostAt;
    var there, back := pre + [x] + mid + [y] + post, pre + [y] + mid + [x] + post;
    var i, j := |pre|, |pre| + 1 + |mid|;
    LeftmostReads(there, 0);
    LeftmostReads(back, 0);
    var p, q := LeftmostAt(there, 0), LeftmostAt(back, 0);
    if p.Some? && q.Some? {
      LabelsOfWindow(there, p.value, back, q.value);
      if p == q {
        SwappedSlices(there, back, i, j, p.value);
      }
    }
  }

  /** Two lists that differ by swapped elements have one slice in common iff it holds neither, or
      the elements are equal. */
  lemma SwappedSlices(there: seq<Bytes>, back: seq<Bytes>, i: nat, j: nat, p: nat)
    requires i < j < |there| && back == there[i := there[j]][j := there[i]] && p + 4 <= |there|
    ensures there[p..p + 4] == back[p..p + 4] <==> there[i] == there[j] || !(p <= i < p + 4 || p <= j < p + 4)
  {
    var w, v := there[p..p + 4], back[p..p + 4];
    if w == v {
      assert p <= i < p + 4 ==> w[i - p] == there[i] && v[i - p] == there[j];
      assert p <= j < p + 4 ==> w[j - p] == there[j] && v[j - p] == there[i];
    } else {
      var n :| 0 <= n < 4 && w[n] != v[n];
      assert there[p + n] != back[p + n];
    }
  }

  lemma FourNeedAll(parts: seq<Bytes>, i: nat)
    requires i < |parts| && CanonicalOctet(parts[i]).None?
    ensures FourOctets(parts).None?
  {
    hide CanonicalOctet;
  }

  lemma {:induction false} SamePlaces(a: seq<Bytes>, b: seq<Bytes>, from: nat)
    requires |a| == |b| && forall k | 0 <= k < |a| :: CanonicalOctet(a[k]).Some? <==> CanonicalOctet(b[k]).Some?
    ensures LeftmostAt(a, from) == LeftmostAt(b, from)
    decreases |a| - from
  {
    hide CanonicalOctet, WindowAt;
    if from + 4 <= |a| {
      OctetsOf(a, from);
      OctetsOf(b, from);
      SamePlaces(a, b, from + 1);
    }
  }

  /** Labels of which both are decimal octets, or neither is, leave the leftmost window in its
      place; if neither is, it also stays the same. */
  lemma LikeLabelsSwap(pre: seq<Bytes>, mid: seq<Bytes>, post: seq<Bytes>, x: Bytes, y: Bytes)
    requires CanonicalOctet(x).Some? <==> CanonicalOctet(y).Some?
    ensures var there, back := pre + [x] + mid + [y] + post, pre + [y] + mid + [x] + post;
            && LeftmostAt(there, 0) == LeftmostAt(back, 0)
            && (CanonicalOctet(x).None? ==> FirstWindow(there, 0) == FirstWindow(back, 0))
  {
    hide CanonicalOctet, FirstWindow, LeftmostAt, WindowAt;
    var there, back := pre + [x] + mid + [y] + post, pre + [y] + mid + [x] + post;
    var i, j := |pre|, |pre| + 1 + |mid|;
    assert forall n | 0 <= n < |there| && n != i && n != j :: there[n] == back[n];
    assert there[i] == x && there[j] == y && back[i] == y && back[j] == x;
    SamePlaces(there, back, 0);
    WindowsDecide(pre, mid, post, x, y);
    if CanonicalOctet(x).None? && LeftmostAt(there, 0).Some? {
      OctetsOf(there, LeftmostAt(there, 0).value);
    }
  }

  lemma ShortLabel(s: Bytes)
    requires |s| != 8 && HYPHEN !in s
    ensures LabelIpv4(s).None?
  {
    SplitWhole(s, HYPHEN);
  }

  lemma TwoShortParts(a: Bytes, b: Bytes)
    requires |a| == 1 && |b| == 1 && HYPHEN !in a && HYPHEN !in b
    ensures LabelIpv4(a + [HYPHEN] + b).None?
  {
    assert Join([a, b], HYPHEN) == a + [HYPHEN] + b;
    JoinThenSplit([a, b], HYPHEN);
  }

  lemma OneDigit(d: byte)
    requires 49 <= d <= 57
    ensures CanonicalOctet([d]) == Some(d - 48) && LabelIpv4([d]).None?
  {
    SmallDigits([d]);
    ShortLabel([d]);
  }

  lemma NoLabelReads(labels: seq<Bytes>, read: Ipv6Reader)
    requires forall p | p in labels :: LabelIpv4(p).None?
    ensures AddressesOf(labels, read).0 == FirstWindow(labels, 0)
  {
    hide LabelIpv4, FirstWindow;
  }

  /** Four labels that read as an address only together, and a label that is no octet. */
  lemma DottedSplit(four: seq<Bytes>, other: Bytes, ip: Ipv4, read: Ipv6Reader)
    requires FourOctets(four) == Some(ip) && |four| == 4 && CanonicalOctet(other).None?
    requires LabelIpv4(other).None? && forall p | p in four :: LabelIpv4(p).None?
    ensures AddressesOf(four + [other], read).0 == Some(ip)
    ensures AddressesOf(four[..3] + [other] + [four[3]], read).0 == None
  {
    hide LabelIpv4, CanonicalOctet, FourOctets, AddressesOf;
    NoLabelReads(four + [other], read);
    NoLabelReads(four[..3] + [other] + [four[3]], read);
    WholeWindow(four, other);
    SplitWindow(four[..3], other, four[3]);
  }

  lemma WholeWindow(four: seq<Bytes>, other: Bytes)
    requires |four| == 4 && FourOctets(four).Some?
    ensures FirstWindow(four + [other], 0) == FourOctets(four)
  {
    hide FourOctets;
    assert (four + [other])[0..4] == four;
  }

  lemma SplitWindow(three: seq<Bytes>, other: Bytes, last: Bytes)
    requires |three| == 3 && CanonicalOctet(other).None?
    ensures FirstWindow(three + [other] + [last], 0).None?
  {
    hide FourOctets, CanonicalOctet;
    var back := three + [other] + [last];
    forall k | 0 <= k <= |back| - 4 ensures WindowAt(back, k).None? {
      assert back[k..k + 4][3 - k] == other;
      FourNeedAll(back[k..k + 4], 3 - k);
    }
  }

  /** Two labels of which neither reads as an address: 1.2.3.4.a-b against 1.2.3.a-b.4. */
  lemma DottedOrderMatters(read: Ipv6Reader)
    ensures AddressesOf([[49], [50], [51], [52], [97, HYPHEN, 98]], read).0 == Some([1, 2, 3, 4])
    ensures AddressesOf([[49], [50], [51], [97, HYPHEN, 98], [52]], read).0 == None
  {
    hide LabelIpv4, CanonicalOctet, AddressesOf;
    var four: seq<Bytes>, other: Bytes := [[49], [50], [51], [52]], [97, HYPHEN, 98];
    OneDigit(49);
    OneDigit(50);
    OneDigit(51);
    OneDigit(52);
    TwoShortParts([97], [98]);
    assert [97] + [HYPHEN] + [98] == other;
    NoOctet();
    FourSmall();
    DottedSplit(four, other, [1, 2, 3, 4], read);
    assert four + [other] == [[49], [50], [51], [52], other];
    assert four[..3] + [other] + [four[3]] == [[49], [50], [51], other, [52]];
  }

  lemma FourSmall()
    ensures FourOctets([[49], [50], [51], [52]]) == Some([1, 2, 3, 4])
  {
    hide CanonicalOctet, LabelIpv4;
    OneDigit(49);
    OneDigit(50);
    OneDigit(51);
    OneDigit(52);
  }

  lemma NoOctet()
    ensures CanonicalOctet([97, HYPHEN, 98]).None?
  {
    assert HYPHEN in [97, HYPHEN, 98];
  }

  // ----- printing --------------------------------------------------------------

  function PrintOctet(v: byte): Bytes {
    if v < 10 then [48 + v] else if v < 100 then [48 + v / 10, 48 + v % 10]
    else [48 + v / 100, 48 + (v / 10) % 10, 48 + v % 10]
  }

  function PrintedParts(ip: Ipv4): seq<Bytes> {
    [PrintOctet(ip[0]), PrintOctet(ip[1]), PrintOctet(ip[2]), PrintOctet(ip[3])]
  }

  lemma SmallDigits(s: Bytes)
    requires 1 <= |s| <= 3 && AllDigits(s)
    ensures DigitsValue(s) == if |s| == 1 then s[0] as int - 48
                              else if |s| == 2 then 10 * (s[0] as int - 48) + (s[1] as int - 48)
                              else 100 * (s[0] as int - 48) + 10 * (s[1] as int - 48) + (s[2] as int - 48)
  {
    var most := s[..|s| - 1];
    if |s| == 3 {
      assert most[..1] == s[..1] && s[..1][..0] == [];
      assert DigitsValue(s[..1]) == s[0] as int - 48;
      assert DigitsValue(most) == 10 * DigitsValue(s[..1]) + (s[1] as int - 48);
    } else {
      assert most == if |s| == 1 then [] else [s[0]];
    }
  }

  lemma PrintedIsCanonical(v: byte)
    ensures CanonicalOctet(PrintOctet(v)) == Some(v)
  {
    var p := PrintOctet(v);
    assert AllDigits(p);
    SmallDigits(p);
    DecimalDigits(v);
    hide DigitsValue, AllDigits;
  }

  lemma DecimalDigits(v: byte)
    ensures v as int == 100 * (v as int / 100) + 10 * ((v as int / 10) % 10) + v as int % 10
    ensures v < 100 ==> v as int == 10 * (v as int / 10) + v as int % 10
  {
    assert (v as int / 10) / 10 == v as int / 100;
  }

  lemma CanonicalIsPrinted(s: Bytes)
    requires CanonicalOctet(s).Some?
    ensures s == PrintOctet(CanonicalOctet(s).value)
  {
    assert forall i | 0 <= i < |s| :: s[i] in s;
    SmallDigits(s);
    var v := DigitsValue(s);
    hide DigitsValue, AllDigits;
    if |s| == 2 {
      TwoDigits(v, s[0] as int - 48, s[1] as int - 48);
    } else if |s| == 3 {
      ThreeDigits(v, s[0] as int - 48, s[1] as int - 48, s[2] as int - 48);
    }
  }

  lemma TwoDigits(v: byte, a: nat, b: nat)
    requires 1 <= a <= 9 && b <= 9 && v as int == 10 * a + b
    ensures PrintOctet(v) == [48 + a, 48 + b]
  {
    assert v as int / 10 == a && v as int % 10 == b;
  }

  lemma ThreeDigits(v: byte, a: nat, b: nat, c: nat)
    requires 1 <= a <= 2 && b <= 9 && c <= 9 && v as int == 100 * a + 10 * b + c
    ensures PrintOctet(v) == [48 + a, 48 + b, 48 + c]
  {
    assert v as int / 100 == a && v as int / 10 == 10 * a + b && v as int % 10 == c;
  }

  /** Four parts are canonical exactly when they are what the printer writes. */
  lemma FourIsPrinted(parts: seq<Bytes>, ip: Ipv4)
    ensures FourOctets(parts) == Some(ip) <==> parts == PrintedParts(ip)
  {
    hide CanonicalOctet, PrintOctet;
    if FourOctets(parts) == Some(ip) {
      forall i | 0 <= i < 4 ensures parts[i] == PrintOctet(ip[i]) {
        CanonicalIsPrinted(parts[i]);
      }
    }
    if parts == PrintedParts(ip) {
      forall i | 0 <= i < 4 ensures CanonicalOctet(parts[i]) == Some(ip[i]) {
        PrintedIsCanonical(ip[i]);
      }
      assert ip == [ip[0], ip[1], ip[2], ip[3]];
    }
  }

  /** Every address printed with hyphens parses back. */
  lemma HyphenPrintParse(ip: Ipv4)
    ensures HyphenIp(Join(PrintedParts(ip), HYPHEN)) == Some(ip)
  {
    var parts := PrintedParts(ip);
    forall p | p in parts ensures HYPHEN !in p {
    }
    JoinThenSplit(parts, HYPHEN);
    FourIsPrinted(parts, ip);
    assert parts[0..4] == parts;
    assert WindowAt(parts, 0) == Some(ip);
  }

  lemma PrintedDigits()
    ensures PrintedParts([1, 2, 3, 4]) == [[49], [50], [51], [52]]
    ensures PrintedParts([9, 9, 9, 9]) == [[57], [57], [57], [57]]
  {
  }

  lemma FirstOfRivals(x: Bytes, y: Bytes, read: Ipv6Reader)
    requires LabelIpv4(x).Some?
    ensures AddressesOf([x, y], read).0 == LabelIpv4(x)
  {
    hide LabelIpv4;
    assert [x, y][0] == x;
  }

  lemma EightReads()
    ensures LabelIpv4(Join([[49], [50], [51], [52], [53], [54], [55], [56]], HYPHEN)) == Some([1, 2, 3, 4])
  {
    hide LabelIpv4, Join, PrintedParts;
    PrintedDigits();
    var eight: seq<Bytes> := [[49], [50], [51], [52], [53], [54], [55], [56]];
    assert eight[..4] == [[49], [50], [51], [52]];
    LongLabelReads(eight, [1, 2, 3, 4]);
  }

  lemma NinesRead()
    ensures LabelIpv4(Join([[57], [57], [57], [57]], HYPHEN)) == Some([9, 9, 9, 9])
  {
    hide LabelIpv4, Join, PrintedParts;
    PrintedDigits();
    var nines: seq<Bytes> := [[57], [57], [57], [57]];
    assert nines[..4] == nines;
    LongLabelReads(nines, [9, 9, 9, 9]);
  }

  /** Two labels that both read as IPv4 addresses: 1-2-3-4-5-6-7-8 against 9-9-9-9. */
  lemma RivalLabels(read: Ipv6Reader)
    ensures var x := Join([[49], [50], [51], [52], [53], [54], [55], [56]], HYPHEN);
            var y := Join([[57], [57], [57], [57]], HYPHEN);
            AddressesOf([x, y], read).0 == Some([1, 2, 3, 4]) && AddressesOf([y, x], read).0 == Some([9, 9, 9, 9])
  {
    hide LabelIpv4, AddressesOf, Join;
    EightReads();
    NinesRead();
    var x, y := Join([[49], [50], [51], [52], [53], [54], [55], [56]], HYPHEN), Join([[57], [57], [57], [57]], HYPHEN);
    FirstOfRivals(x, y, read);
    FirstOfRivals(y, x, read);
  }

  lemma LongLabelReads(parts: seq<Bytes>, ip: Ipv4)
    requires |parts| >= 4 && (forall p | p in parts :: |p| == 1 && HYPHEN !in p) && parts[..4] == PrintedParts(ip)
    ensures LabelIpv4(Join(parts, HYPHEN)) == Some(ip)
  {
    hide HexIp, PrintedParts, FourOctets, Join;
    JoinThenSplit(parts, HYPHEN);
    FourIsPrinted(parts[..4], ip);
    assert parts[0..4] == parts[..4];
    JoinedOnes(parts);
    OnlyEightIsHex(Join(parts, HYPHEN));
  }

  lemma {:induction false} JoinedOnes(parts: seq<Bytes>)
    requires parts != [] && forall p | p in parts :: |p| == 1
    ensures |Join(parts, HYPHEN)| == 2 * |parts| - 1
  {
    assert parts[0] in parts;
    if |parts| > 1 {
      assert forall p | p in parts[1..] :: p in parts;
      JoinedOnes(parts[1..]);
    }
  }

  /** A decimal reading occurs verbatim: four adjacent parts are its printed octets. */
  lemma DecimalOccursVerbatim(s: Bytes, ip: Ipv4)
    requires FirstWindow(Split(s, HYPHEN), 0) == Some(ip)
    ensures exists a, b :: Split(s, HYPHEN) == a + PrintedParts(ip) + b
  {
    hide FourOctets, PrintedParts, Split;
    var parts := Split(s, HYPHEN);
    var k :| 0 <= k <= |parts| - 4 && WindowAt(parts, k) == Some(ip);
    FourIsPrinted(parts[k..k + 4], ip);
    assert parts == parts[..k] + PrintedParts(ip) + parts[k + 4..];
  }
}
