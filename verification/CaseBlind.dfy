/**
 Names that differ in case only take one route: zone tests, name comparisons and the
 address readers look through ASCII case.
 */
module CaseBlind {
  import opened Octets
  import opened Names
  import opened Zone
  import opened Query
  import opened Ip = IpParser

  /** `Ipv6Addr::from_str` does not tell upper from lower hexadecimal digits. */
  ghost predicate BlindReader(read: Ipv6Reader) { forall s: Bytes :: read(LowerAll(s)) == read(s) }

  // ----- text ------------------------------------------------------------------

  lemma SameLength(a: Bytes, b: Bytes)
    requires EqIgnoreCase(a, b)
    ensures |a| == |b|
    ensures forall i | 0 <= i < |a| :: Lower(a[i]) == Lower(b[i]) && (a[i] == DOT <==> b[i] == DOT)
  {
    assert |LowerAll(a)| == |a| && |LowerAll(b)| == |b|;
    forall i | 0 <= i < |a| ensures Lower(a[i]) == Lower(b[i]) {
      assert LowerAll(a)[i] == LowerAll(b)[i];
    }
  }

  lemma {:induction false} TrimBlind(a: Bytes, b: Bytes)
    requires EqIgnoreCase(a, b)
    ensures EqIgnoreCase(TrimDots(a), TrimDots(b))
  {
    SameLength(a, b);
    if a != [] && a[|a| - 1] == DOT {
      var n := |a| - 1;
      SliceBlind(a, b, 0, n);
      TrimBlind(a[..n], b[..n]);
    }
  }

  lemma SliceBlind(a: Bytes, b: Bytes, lo: nat, hi: nat)
    requires EqIgnoreCase(a, b) && lo <= hi <= |a|
    ensures hi <= |b| && EqIgnoreCase(a[lo..hi], b[lo..hi])
  {
    SameLength(a, b);
    assert LowerAll(a[lo..hi]) == LowerAll(a)[lo..hi];
    assert LowerAll(b[lo..hi]) == LowerAll(b)[lo..hi];
  }

  lemma NamesEqBlind(a: Bytes, b: Bytes, name: Bytes)
    requires EqIgnoreCase(a, b)
    ensures NamesEq(a, name) <==> NamesEq(b, name)
  {
    TrimBlind(a, b);
  }

  lemma InZoneBlind(a: Bytes, b: Bytes, zone: Bytes)
    requires EqIgnoreCase(a, b)
    ensures IsInZone(a, zone) <==> IsInZone(b, zone)
  {
    TrimBlind(a, b);
    var d, e, z := TrimDots(a), TrimDots(b), TrimDots(zone);
    hide TrimDots, LowerAll;
    SameLength(d, e);
    if |d| > |z| + 1 {
      SliceBlind(d, e, |d| - |z|, |d|);
      assert d[|d| - |z|..|d|] == d[|d| - |z|..] && e[|d| - |z|..|d|] == e[|d| - |z|..];
    }
  }

  // ----- labels ----------------------------------------------------------------

  predicate AllHex(s: Bytes) { forall b | b in s :: IsHexDigit(b) }

  lemma AllHexBlind(s: Bytes)
    ensures AllHex(LowerAll(s)) <==> AllHex(s)
  {
    var t := LowerAll(s);
    assert forall i | 0 <= i < |s| :: s[i] in s && t[i] in t && (IsHexDigit(t[i]) <==> IsHexDigit(s[i]));
    assert |t| == |s|;
    if AllHex(s) {
      forall b | b in t ensures IsHexDigit(b) {
        var i :| 0 <= i < |t| && t[i] == b;
        assert IsHexDigit(s[i]);
      }
    }
    if AllHex(t) {
      forall b | b in s ensures IsHexDigit(b) {
        var i :| 0 <= i < |s| && s[i] == b;
        assert IsHexDigit(t[i]);
      }
    }
  }

  lemma HexBlind(s: Bytes)
    ensures HexIp(LowerAll(s)) == HexIp(s)
  {
    var t := LowerAll(s);
    AllHexBlind(s);
    assert |t| == |s|;
    if |s| == 8 && AllHex(s) {
      assert AllHex(t);
      forall i | 0 <= i < 8 ensures IsHexDigit(s[i]) && IsHexDigit(t[i]) && HexValue(t[i]) == HexValue(s[i]) {
        assert s[i] in s && t[i] in t && t[i] == Lower(s[i]);
      }
      hide HexValue, LowerAll, IsHexDigit;
    }
  }

  lemma OctetBlind(s: Bytes)
    ensures CanonicalOctet(LowerAll(s)) == CanonicalOctet(s)
  {
    var t := LowerAll(s);
    assert |t| == |s|;
    if AllDigits(s) {
      forall i | 0 <= i < |s| ensures t[i] == s[i] { assert s[i] in s; }
      assert t == s;
    } else {
      var b :| b in s && !IsDigit(b);
      var i :| 0 <= i < |s| && s[i] == b;
      assert t[i] in t && !IsDigit(t[i]);
    }
  }

  lemma WindowBlind(parts: seq<Bytes>, k: nat)
    requires k + 4 <= |parts|
    ensures WindowAt(LowerLabels(parts), k) == WindowAt(parts, k)
  {
    hide CanonicalOctet, LowerAll;
    OctetBlind(parts[k]);
    OctetBlind(parts[k + 1]);
    OctetBlind(parts[k + 2]);
    OctetBlind(parts[k + 3]);
    var w, v := parts[k..k + 4], LowerLabels(parts)[k..k + 4];
    assert forall i | 0 <= i < 4 :: w[i] == parts[k + i] && v[i] == LowerAll(parts[k + i]);
  }

  lemma {:induction false} FirstWindowBlind(parts: seq<Bytes>, from: nat)
    ensures FirstWindow(LowerLabels(parts), from) == FirstWindow(parts, from)
    decreases |parts| - from
  {
    hide WindowAt, LowerAll;
    if from + 4 <= |parts| {
      WindowBlind(parts, from);
      FirstWindowBlind(parts, from + 1);
    }
  }

  lemma {:induction false} FirstMatchBlind<T>(xs: seq<Bytes>, f: Bytes -> Option<T>)
    requires forall x | x in xs :: f(LowerAll(x)) == f(x)
    ensures FirstMatch(LowerLabels(xs), f) == FirstMatch(xs, f)
  {
    hide LowerAll;
    if xs != [] {
      assert xs[0] in xs;
      assert forall x | x in xs[1..] :: x in xs;
      FirstMatchBlind(xs[1..], f);
      assert LowerLabels(xs)[1..] == LowerLabels(xs[1..]);
    }
  }

  lemma Ipv4Blind(s: Bytes)
    ensures LabelIpv4(LowerAll(s)) == LabelIpv4(s)
  {
    hide HexIp, FirstWindow, LowerAll, LowerLabels, Split;
    var parts := Split(s, HYPHEN);
    SplitLower(s, HYPHEN);
    HexBlind(s);
    FirstWindowBlind(parts, 0);
    forall p | p in parts ensures HexIp(LowerAll(p)) == HexIp(p) {
      HexBlind(p);
    }
    FirstMatchBlind(parts, HexIp);
  }

  lemma Ipv6Blind(s: Bytes, read: Ipv6Reader)
    requires BlindReader(read)
    ensures LabelIpv6(LowerAll(s), read) == LabelIpv6(s, read)
  {
    var t := LowerAll(s);
    assert |t| == |s|;
    assert ColonsForHyphens(t) == LowerAll(ColonsForHyphens(s));
    if HYPHEN in s {
      var i :| 0 <= i < |s| && s[i] == HYPHEN;
      assert t[i] == HYPHEN;
    }
    if HYPHEN in t {
      var i :| 0 <= i < |t| && t[i] == HYPHEN;
      assert s[i] == HYPHEN;
    }
  }

  lemma InterpretationLower(s: Bytes, read: Ipv6Reader)
    requires BlindReader(read)
    ensures Interpretation(LowerAll(s), read) == Interpretation(s, read)
  {
    hide LabelIpv4, LabelIpv6, FirstWindow, FirstMatch, BlindReader, LowerAll, LowerLabels, Split;
    var labels := Split(s, DOT);
    SplitLower(s, DOT);
    FirstWindowBlind(labels, 0);
    forall x | x in labels ensures LabelIpv4(LowerAll(x)) == LabelIpv4(x) && V6OfLabels(read)(LowerAll(x)) == V6OfLabels(read)(x) {
      Ipv4Blind(x);
      Ipv6Blind(x, read);
    }
    FirstMatchBlind(labels, LabelIpv4);
    FirstMatchBlind(labels, V6OfLabels(read));
  }

  lemma InterpretationBlind(a: Bytes, b: Bytes, read: Ipv6Reader)
    requires EqIgnoreCase(a, b) && BlindReader(read)
    ensures Interpretation(a, read) == Interpretation(b, read)
  {
    hide Interpretation, BlindReader;
    InterpretationLower(a, read);
    InterpretationLower(b, read);
  }

  // ----- routes ----------------------------------------------------------------

  /** Two spellings of one domain take one route. */
  lemma RouteBlind(a: Bytes, b: Bytes, config: Config)
    requires EqIgnoreCase(a, b) && BlindReader(config.readIpv6)
    ensures RouteOf(a, config) == RouteOf(b, config)
  {
    hide IsInZone, NamesEq, Interpretation, BlindReader, DmarcOwner, Ascii, LowerAll;
    InZoneBlind(a, b, config.glueName);
    NamesEqBlind(a, b, DmarcOwner(config.glueName));
    NamesEqBlind(a, b, config.glueName);
    NamesEqBlind(a, b, config.soaName);
    forall ns | ns in config.nsNames ensures NamesEq(a, ns) <==> NamesEq(b, ns) {
      NamesEqBlind(a, b, ns);
    }
    InterpretationBlind(a, b, config.readIpv6);
  }

  lemma JoinBlind(a: Labels, b: Labels)
    requires LowerLabels(a) == LowerLabels(b)
    ensures EqIgnoreCase(Join(a, DOT), Join(b, DOT))
  {
    JoinLower(a);
    JoinLower(b);
  }
}
