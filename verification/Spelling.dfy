/**
 What it means for a name to spell an address, stated from the printed forms of addresses, and
 that the readers read exactly what is spelled.
 */
module Spelling {
  import opened Octets
  import opened Names
  import opened Letters
  import opened Message
  import opened Ip = IpParser

  // ----- printed forms ---------------------------------------------------------

  function HexDigit(v: nat): byte
    requires v < 16
  {
    if v < 10 then 48 + v else 87 + v
  }

  /** An address as eight hexadecimal digits. */
  function PrintedHex(ip: Ipv4): Bytes {
    [HexDigit(ip[0] / 16), HexDigit(ip[0] % 16), HexDigit(ip[1] / 16), HexDigit(ip[1] % 16),
     HexDigit(ip[2] / 16), HexDigit(ip[2] % 16), HexDigit(ip[3] / 16), HexDigit(ip[3] % 16)]
  }

  /** The four parts from `k` on are the printed octets of the address. */
  predicate PrintsAt(parts: seq<Bytes>, k: nat, ip: Ipv4) { k + 4 <= |parts| && parts[k..k + 4] == PrintedParts(ip) }

  predicate HexPrints(part: Bytes, ip: Ipv4) { SameText(part, PrintedHex(ip)) }

  /** The leftmost four adjacent printed octets are those of the address. */
  ghost predicate DecimalSpelled(parts: seq<Bytes>, ip: Ipv4) {
    exists k: nat :: PrintsAt(parts, k, ip) && forall j: nat, other: Ipv4 | j < k :: !PrintsAt(parts, j, other)
  }

  ghost predicate NoDecimal(parts: seq<Bytes>) { forall k: nat, ip: Ipv4 :: !PrintsAt(parts, k, ip) }

  /** The leftmost part of eight hexadecimal digits prints the address. */
  ghost predicate HexSpelled(parts: seq<Bytes>, ip: Ipv4) {
    exists k: nat :: k < |parts| && HexPrints(parts[k], ip) && forall j: nat, other: Ipv4 | j < k :: !HexPrints(parts[j], other)
  }

  ghost predicate NoHex(parts: seq<Bytes>) { forall k: nat, ip: Ipv4 | k < |parts| :: !HexPrints(parts[k], ip) }

  /** The parts of a label between hyphens. */
  predicate Hyphenated(word: Bytes, parts: seq<Bytes>) {
    parts != [] && Join(parts, 45) == word && forall p | p in parts :: 45 !in p
  }

  /** Decimal octets between hyphens come before hexadecimal digits. */
  ghost predicate LabelSpells(word: Bytes, ip: Ipv4) {
    exists parts :: Hyphenated(word, parts)
                    && (DecimalSpelled(parts, ip) || (NoDecimal(parts) && HexSpelled(parts, ip)))
  }

  /** The first label that spells an address spells this one. */
  ghost predicate LabelsSpell(labels: Labels, ip: Ipv4) {
    exists k: nat :: k < |labels| && LabelSpells(labels[k], ip)
                     && forall j: nat, other: Ipv4 | j < k :: !LabelSpells(labels[j], other)
  }

  ghost predicate NoneSpells(labels: Labels) { forall k: nat, ip: Ipv4 | k < |labels| :: !LabelSpells(labels[k], ip) }

  /** Where no label spells an address, four adjacent labels may print one. */
  ghost predicate NameSpells(labels: Labels, ip: Ipv4) {
    LabelsSpell(labels, ip) || (NoneSpells(labels) && DecimalSpelled(labels, ip))
  }

  /** IPv6 text with hyphens in the place of its colons, one at least. */
  predicate HyphensForColons(word: Bytes, text: Bytes) {
    && |word| == |text| && 45 in word
    && forall i | 0 <= i < |word| :: text[i] as int == if word[i] == 45 then 58 else word[i] as int
  }

  ghost predicate LabelSpellsV6(word: Bytes, ip: Ipv6, read: Ipv6Reader) {
    exists text :: HyphensForColons(word, text) && read(text) == Some(ip)
  }

  ghost predicate NameSpellsV6(labels: Labels, ip: Ipv6, read: Ipv6Reader) {
    exists k: nat :: k < |labels| && LabelSpellsV6(labels[k], ip, read)
                     && forall j: nat, other: Ipv6 | j < k :: !LabelSpellsV6(labels[j], other, read)
  }

  // ----- decimal windows -------------------------------------------------------

  lemma WindowPrints(parts: seq<Bytes>, k: nat, ip: Ipv4)
    requires k + 4 <= |parts|
    ensures WindowAt(parts, k) == Some(ip) <==> PrintsAt(parts, k, ip)
  {
    hide FourOctets, PrintedParts;
    FourIsPrinted(parts[k..k + 4], ip);
  }

  lemma NoWindow(parts: seq<Bytes>, k: nat)
    requires k + 4 <= |parts|
    ensures WindowAt(parts, k).None? <==> forall ip: Ipv4 :: !PrintsAt(parts, k, ip)
  {
    hide WindowAt, PrintsAt;
    forall ip: Ipv4 ensures WindowAt(parts, k) == Some(ip) <==> PrintsAt(parts, k, ip) {
      WindowPrints(parts, k, ip);
    }
    if WindowAt(parts, k).Some? {
      var ip := WindowAt(parts, k).value;
      assert PrintsAt(parts, k, ip);
    }
  }

  lemma WindowsSpell(parts: seq<Bytes>, ip: Ipv4)
    ensures FirstWindow(parts, 0) == Some(ip) <==> DecimalSpelled(parts, ip)
    ensures FirstWindow(parts, 0).None? <==> NoDecimal(parts)
  {
    hide WindowAt, FirstWindow, PrintsAt;
    forall k: nat, other: Ipv4 | k + 4 > |parts| ensures !PrintsAt(parts, k, other) {
      TooFar(parts, k, other);
    }
    forall k: nat | k + 4 <= |parts|
      ensures WindowAt(parts, k) == Some(ip) <==> PrintsAt(parts, k, ip)
      ensures WindowAt(parts, k).None? <==> forall other: Ipv4 :: !PrintsAt(parts, k, other)
    {
      WindowPrints(parts, k, ip);
      NoWindow(parts, k);
    }
    var r := FirstWindow(parts, 0);
    if r.Some? {
      var k: nat :| k <= |parts| - 4 && WindowAt(parts, k) == r && forall j | 0 <= j < k :: WindowAt(parts, j).None?;
      forall j: nat, other: Ipv4 | j < k ensures !PrintsAt(parts, j, other) {
        assert WindowAt(parts, j).None?;
      }
      assert exists other: Ipv4 :: PrintsAt(parts, k, other);
    } else {
      forall k: nat, other: Ipv4 ensures !PrintsAt(parts, k, other) {
        assert k + 4 <= |parts| ==> WindowAt(parts, k).None?;
      }
    }
    if k: nat :| PrintsAt(parts, k, ip) && forall j: nat, other: Ipv4 | j < k :: !PrintsAt(parts, j, other) {
      assert k + 4 <= |parts| && WindowAt(parts, k) == Some(ip);
      FirstIs(parts, k);
    }
  }

  lemma TooFar(parts: seq<Bytes>, k: nat, ip: Ipv4)
    requires k + 4 > |parts|
    ensures !PrintsAt(parts, k, ip)
  {
  }

  lemma FirstIs(parts: seq<Bytes>, k: nat)
    requires k + 4 <= |parts| && WindowAt(parts, k).Some? && forall j: nat | j < k :: WindowAt(parts, j).None?
    ensures FirstWindow(parts, 0) == WindowAt(parts, k)
  {
    hide WindowAt;
    var r := FirstWindow(parts, 0);
    assert r.Some?;
    var m :| 0 <= m <= |parts| - 4 && WindowAt(parts, m) == r && forall j | 0 <= j < m :: WindowAt(parts, j).None?;
  }

  // ----- hexadecimal parts -----------------------------------------------------

  lemma HexOctet(v: byte, a: byte, b: byte)
    ensures IsHexDigit(a) && IsHexDigit(b) && 16 * HexValue(a) + HexValue(b) == v as int
       <==> SameLetter(a, HexDigit(v as int / 16)) && SameLetter(b, HexDigit(v as int % 16))
  {
    HexLetter(a, v as int / 16);
    HexLetter(b, v as int % 16);
    hide SameLetter, HexDigit, HexValue, IsHexDigit;
    if IsHexDigit(a) && IsHexDigit(b) && 16 * HexValue(a) + HexValue(b) == v as int {
      Halves(v, HexValue(a), HexValue(b));
    }
  }

  lemma Halves(v: byte, high: nat, low: nat)
    requires v as int == 16 * high + low && low < 16
    ensures v as int / 16 == high && v as int % 16 == low
  {
  }

  lemma HexLetter(a: byte, n: nat)
    requires n < 16
    ensures IsHexDigit(a) && HexValue(a) == n <==> SameLetter(a, HexDigit(n))
  {
  }

  lemma HexReads(part: Bytes, ip: Ipv4)
    ensures HexIp(part) == Some(ip) <==> HexPrints(part, ip)
  {
    hide HexDigit, HexValue, IsHexDigit, SameLetter;
    assert ip == [ip[0], ip[1], ip[2], ip[3]];
    if |part| == 8 {
      HexOctet(ip[0], part[0], part[1]);
      HexOctet(ip[1], part[2], part[3]);
      HexOctet(ip[2], part[4], part[5]);
      HexOctet(ip[3], part[6], part[7]);
      EightDigits(part);
      EightLetters(part, ip);
    }
  }

  lemma NoHexReads(part: Bytes)
    ensures HexIp(part).None? <==> forall ip: Ipv4 :: !HexPrints(part, ip)
  {
    hide HexIp, HexPrints;
    forall ip: Ipv4 ensures HexIp(part) == Some(ip) <==> HexPrints(part, ip) {
      HexReads(part, ip);
    }
    if HexIp(part).Some? {
      var ip := HexIp(part).value;
      assert HexPrints(part, ip);
    }
  }

  lemma EightDigits(s: Bytes)
    requires |s| == 8
    ensures (forall b | b in s :: IsHexDigit(b))
       <==> && IsHexDigit(s[0]) && IsHexDigit(s[1]) && IsHexDigit(s[2]) && IsHexDigit(s[3])
            && IsHexDigit(s[4]) && IsHexDigit(s[5]) && IsHexDigit(s[6]) && IsHexDigit(s[7])
  {
    hide IsHexDigit;
  }

  lemma EightLetters(s: Bytes, ip: Ipv4)
    requires |s| == 8
    ensures HexPrints(s, ip)
       <==> && SameLetter(s[0], HexDigit(ip[0] / 16)) && SameLetter(s[1], HexDigit(ip[0] % 16))
            && SameLetter(s[2], HexDigit(ip[1] / 16)) && SameLetter(s[3], HexDigit(ip[1] % 16))
            && SameLetter(s[4], HexDigit(ip[2] / 16)) && SameLetter(s[5], HexDigit(ip[2] % 16))
            && SameLetter(s[6], HexDigit(ip[3] / 16)) && SameLetter(s[7], HexDigit(ip[3] % 16))
  {
    hide SameLetter, HexDigit;
    var h := PrintedHex(ip);
    assert HexPrints(s, ip) ==> forall i | 0 <= i < 8 :: SameLetter(s[i], h[i]);
  }

  /** The first result of a function along a list, as a relation. */
  lemma FirstMatchIs<T>(xs: seq<Bytes>, f: Bytes -> Option<T>, v: T)
    ensures FirstMatch(xs, f) == Some(v)
       <==> exists k: nat :: k < |xs| && f(xs[k]) == Some(v) && forall j: nat | j < k :: f(xs[j]).None?
  {
    hide FirstMatch;
    var r := FirstMatch(xs, f);
    if r.Some? {
      var k :| 0 <= k < |xs| && f(xs[k]) == r && forall j | 0 <= j < k :: f(xs[j]).None?;
      if n: nat :| n < |xs| && f(xs[n]) == Some(v) && forall j: nat | j < n :: f(xs[j]).None? {
        assert n == k;
      }
    }
  }

  lemma HexSpells(parts: seq<Bytes>, ip: Ipv4)
    ensures FirstMatch(parts, HexIp) == Some(ip) <==> HexSpelled(parts, ip)
    ensures FirstMatch(parts, HexIp).None? <==> NoHex(parts)
  {
    hide FirstMatch, HexIp, HexPrints;
    forall k: nat | k < |parts|
      ensures HexIp(parts[k]) == Some(ip) <==> HexPrints(parts[k], ip)
      ensures HexIp(parts[k]).None? <==> forall other: Ipv4 :: !HexPrints(parts[k], other)
    {
      HexReads(parts[k], ip);
      NoHexReads(parts[k]);
    }
    FirstMatchIs(parts, HexIp, ip);
  }

  // ----- labels and names ------------------------------------------------------

  lemma PartsOf(word: Bytes, parts: seq<Bytes>)
    ensures Hyphenated(word, parts) <==> parts == Split(word, HYPHEN)
  {
    hide Split, Join;
    if Hyphenated(word, parts) {
      JoinThenSplit(parts, HYPHEN);
    }
    if parts == Split(word, HYPHEN) {
      SplitThenJoin(word, HYPHEN);
      forall p | p in parts ensures HYPHEN !in p {
        var i :| 0 <= i < |parts| && parts[i] == p;
        SplitHasNoSeparator(word, HYPHEN, i);
      }
    }
  }

  /** Eight digits without a hyphen are the one part of their label, so that reading them first
      decides nothing. */
  lemma WholeHexIsPart(word: Bytes)
    ensures LabelIpv4(word) == HyphenIp(word)
  {
    if HexIp(word).Some? {
      assert HYPHEN !in word;
      SplitWhole(word, HYPHEN);
      assert FirstWindow([word], 0).None?;
    }
  }

  /** A label reads as an address exactly when it spells it. */
  lemma LabelReads(word: Bytes, ip: Ipv4)
    ensures LabelIpv4(word) == Some(ip) <==> LabelSpells(word, ip)
  {
    hide LabelIpv4, FirstWindow, FirstMatch, Split, DecimalSpelled, NoDecimal, HexSpelled, NoHex, Hyphenated, HexIp;
    var parts := Split(word, HYPHEN);
    WholeHexIsPart(word);
    PartsOf(word, parts);
    WindowsSpell(parts, ip);
    HexSpells(parts, ip);
    if LabelSpells(word, ip) {
      var others :| Hyphenated(word, others) && (DecimalSpelled(others, ip) || (NoDecimal(others) && HexSpelled(others, ip)));
      PartsOf(word, others);
    }
  }

  lemma NoneSpelled(word: Bytes)
    ensures LabelIpv4(word).None? <==> forall ip: Ipv4 :: !LabelSpells(word, ip)
  {
    hide LabelIpv4, LabelSpells;
    forall ip: Ipv4 ensures LabelIpv4(word) == Some(ip) <==> LabelSpells(word, ip) {
      LabelReads(word, ip);
    }
  }

  lemma LabelsRead(labels: Labels, ip: Ipv4)
    ensures FirstMatch(labels, LabelIpv4) == Some(ip) <==> LabelsSpell(labels, ip)
    ensures FirstMatch(labels, LabelIpv4).None? <==> NoneSpells(labels)
  {
    hide LabelIpv4, LabelSpells, FirstMatch;
    forall k: nat | k < |labels|
      ensures LabelIpv4(labels[k]) == Some(ip) <==> LabelSpells(labels[k], ip)
      ensures LabelIpv4(labels[k]).None? <==> forall other: Ipv4 :: !LabelSpells(labels[k], other)
    {
      LabelReads(labels[k], ip);
      NoneSpelled(labels[k]);
    }
    FirstMatchIs(labels, LabelIpv4, ip);
    assert FirstMatch(labels, LabelIpv4).None? <==> forall k | 0 <= k < |labels| :: LabelIpv4(labels[k]).None?;
  }

  /** A name reads as an IPv4 address exactly when it spells it. */
  lemma NameReads(labels: Labels, ip: Ipv4, read: Ipv6Reader)
    ensures AddressesOf(labels, read).0 == Some(ip) <==> NameSpells(labels, ip)
  {
    hide LabelIpv4, FirstWindow, FirstMatch, DecimalSpelled, LabelsSpell, NoneSpells;
    LabelsRead(labels, ip);
    WindowsSpell(labels, ip);
  }

  lemma LabelReadsV6(word: Bytes, ip: Ipv6, read: Ipv6Reader)
    ensures LabelIpv6(word, read) == Some(ip) <==> LabelSpellsV6(word, ip, read)
  {
    var text := ColonsForHyphens(word);
    if HYPHEN in word {
      assert HyphensForColons(word, text);
    }
    if LabelSpellsV6(word, ip, read) {
      var other :| HyphensForColons(word, other) && read(other) == Some(ip);
      assert other == text;
    }
  }

  lemma NoneSpelledV6(word: Bytes, read: Ipv6Reader)
    ensures LabelIpv6(word, read).None? <==> forall ip: Ipv6 :: !LabelSpellsV6(word, ip, read)
  {
    hide LabelIpv6, LabelSpellsV6;
    forall ip: Ipv6 ensures LabelIpv6(word, read) == Some(ip) <==> LabelSpellsV6(word, ip, read) {
      LabelReadsV6(word, ip, read);
    }
    if LabelIpv6(word, read).Some? {
      var ip := LabelIpv6(word, read).value;
      assert LabelSpellsV6(word, ip, read);
    }
  }

  /** The first label whose text with colons for hyphens the library reads is the IPv6 address. */
  lemma NameReadsV6(labels: Labels, ip: Ipv6, read: Ipv6Reader)
    ensures AddressesOf(labels, read).1 == Some(ip) <==> NameSpellsV6(labels, ip, read)
  {
    hide LabelIpv6, LabelSpellsV6, FirstMatch, FirstWindow;
    var f := V6OfLabels(read);
    forall k: nat | k < |labels|
      ensures f(labels[k]) == Some(ip) <==> LabelSpellsV6(labels[k], ip, read)
      ensures f(labels[k]).None? <==> forall other: Ipv6 :: !LabelSpellsV6(labels[k], other, read)
    {
      LabelReadsV6(labels[k], ip, read);
      NoneSpelledV6(labels[k], read);
    }
    FirstMatchIs(labels, f, ip);
  }

  // ----- hexadecimal digits between hyphens ------------------------------------

  /** Parts of which no four in a row print an address read as the first eight hexadecimal digits
      among them, in either case of letters, and as nothing where there are none. */
  lemma HexPartReads(pre: seq<Bytes>, digits: Bytes, post: seq<Bytes>, ip: Ipv4)
    requires forall p | p in pre + [digits] + post :: 45 !in p
    requires NoDecimal(pre + [digits] + post) && SameText(digits, PrintedHex(ip)) && NoHex(pre)
    ensures LabelIpv4(Join(pre + [digits] + post, 45)) == Some(ip)
  {
    hide NoDecimal, HexPrints, Join, PrintedHex, SameText;
    var parts := pre + [digits] + post;
    var word := Join(parts, 45);
    assert parts[|pre|] == digits && forall j: nat | j < |pre| :: parts[j] == pre[j];
    assert HexPrints(digits, ip) by { DigitsPrint(digits, ip); }
    assert HexSpelled(parts, ip);
    assert Hyphenated(word, parts);
    LabelReads(word, ip);
  }

  lemma DigitsPrint(digits: Bytes, ip: Ipv4)
    requires SameText(digits, PrintedHex(ip))
    ensures HexPrints(digits, ip)
  {
  }

  lemma NothingReads(parts: seq<Bytes>)
    requires parts != [] && forall p | p in parts :: 45 !in p
    ensures LabelIpv4(Join(parts, 45)).None? <==> NoDecimal(parts) && NoHex(parts)
  {
    hide NoDecimal, NoHex, Join, Split, FirstWindow, FirstMatch, LabelIpv4;
    var word := Join(parts, 45);
    PartsOf(word, parts);
    WholeHexIsPart(word);
    WindowsSpell(parts, [0, 0, 0, 0]);
    HexSpells(parts, [0, 0, 0, 0]);
  }
}
