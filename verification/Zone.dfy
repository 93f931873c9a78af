/**
 Zone membership: the text tests of the query and response code are one and the
 same relation, "these labels end in those labels, up to case".
 */
module Zone {
  import opened Octets
  import opened Names

  predicate IsInZone(domain: Bytes, zone: Bytes) {
    var d := TrimDots(domain);
    var z := TrimDots(zone);
    if z == [] then false
    else if EqIgnoreCase(d, z) then true
    else if |d| <= |z| + 1 then false
    else
      var splitAt := |d| - |z|;
      if d[splitAt - 1] != DOT then false
      else EqIgnoreCase(d[splitAt..], z)
  }

  predicate NameInBailiwick(name: Bytes, zone: Bytes) {
    var n := TrimDots(name);
    var z := TrimDots(zone);
    if EqIgnoreCase(n, z) then true
    else
      && |n| > |z| + 1
      && n[|n| - |z| - 1] == DOT
      && EqIgnoreCase(n[|n| - |z|..], z)
  }

  // ----- the label reading -----------------------------------------------------

  ghost predicate HasLabelSuffix(labels: Labels, suffix: Labels) {
    && |suffix| <= |labels|
    && LowerLabels(labels[|labels| - |suffix|..]) == LowerLabels(suffix)
  }

  /** The name is the zone with one empty label in front, as in ".example". */
  ghost predicate OnlyEmptyLabelExtra(labels: Labels, suffix: Labels) {
    |labels| == |suffix| + 1 && labels[0] == []
  }

  lemma InZoneIsLabelSuffix(domain: Bytes, zone: Bytes)
    requires TextLabels(zone) != []
    ensures IsInZone(domain, zone)
       <==> && HasLabelSuffix(TextLabels(domain), TextLabels(zone))
            && !OnlyEmptyLabelExtra(TextLabels(domain), TextLabels(zone))
  {
    var d, z := TrimDots(domain), TrimDots(zone);
    var dl, zl := TextLabels(domain), TextLabels(zone);
    SplitLower(d, DOT);
    SplitLower(z, DOT);
    if IsInZone(domain, zone) {
      if LowerAll(d) == LowerAll(z) {
        assert |LowerAll(d)| == |LowerAll(z)|;
        assert dl[|dl| - |zl|..] == dl;
      } else {
        var k := |d| - |z|;
        assert d == d[..k - 1] + [DOT] + d[k..];
        SplitConcat(d[..k - 1], d[k..], DOT);
        SplitLower(d[k..], DOT);
        assert dl == Split(d[..k - 1], DOT) + Split(d[k..], DOT);
        assert |LowerLabels(Split(d[k..], DOT))| == |LowerLabels(zl)|;
        assert dl[|dl| - |zl|..] == Split(d[k..], DOT);
        SplitThenJoin(d[..k - 1], DOT);
        assert Split(d[..k - 1], DOT) != [[]];
      }
    }
    if HasLabelSuffix(dl, zl) && !OnlyEmptyLabelExtra(dl, zl) {
      SplitThenJoin(d, DOT);
      SplitThenJoin(z, DOT);
      SuffixIsTextSuffix(d, z, dl, zl);
    }
  }

  lemma JoinEmpty(parts: seq<Bytes>)
    requires parts != [] && Join(parts, DOT) == []
    ensures parts == [[]]
  {
  }

  lemma SuffixIsTextSuffix(d: Bytes, z: Bytes, dl: Labels, zl: Labels)
    requires dl != [] && zl != [] && d == Join(dl, DOT) && z == Join(zl, DOT)
    requires HasLabelSuffix(dl, zl) && !OnlyEmptyLabelExtra(dl, zl)
    ensures EqIgnoreCase(d, z)
         || (|d| > |z| + 1 && d[|d| - |z| - 1] == DOT && EqIgnoreCase(d[|d| - |z|..], z))
  {
    var head, tail := dl[..|dl| - |zl|], dl[|dl| - |zl|..];
    assert dl == head + tail;
    var y := Join(tail, DOT);
    assert LowerAll(y) == LowerAll(z) by {
      JoinLower(tail);
      JoinLower(zl);
    }
    if head == [] {
      assert tail == dl;
    } else {
      JoinConcat(head, tail, DOT);
      if Join(head, DOT) == [] {
        JoinEmpty(head);
      }
      TextBehindDot(Join(head, DOT), y, d, z);
    }
  }

  lemma TextBehindDot(x: Bytes, y: Bytes, d: Bytes, z: Bytes)
    requires x != [] && d == x + [DOT] + y && LowerAll(y) == LowerAll(z)
    ensures |d| > |z| + 1 && d[|d| - |z| - 1] == DOT && EqIgnoreCase(d[|d| - |z|..], z)
  {
    assert |LowerAll(y)| == |LowerAll(z)|;
    assert d[|d| - |z|..] == y;
  }

  lemma {:induction false} JoinLower(parts: seq<Bytes>)
    ensures LowerAll(Join(parts, DOT)) == Join(LowerLabels(parts), DOT)
  {
    if |parts| > 1 {
      JoinLower(parts[1..]);
      assert LowerLabels(parts)[1..] == LowerLabels(parts[1..]);
      LowerAllConcat(parts[0] + [DOT], Join(parts[1..], DOT));
      LowerAllConcat(parts[0], [DOT]);
    }
  }

  /** The last labels of a joined name, when these hold no dot, are the last labels of its text. */
  lemma TailSurvives(head: Labels, tail: Labels)
    requires tail != [] && DotFree(tail) && forall l | l in tail :: l != []
    ensures TextLabels(Join(head + tail, DOT)) == (if head == [] then [] else Split(Join(head, DOT), DOT)) + tail
  {
    JoinEndsInLabel(tail);
    JoinThenSplit(tail, DOT);
    if head == [] {
      assert head + tail == tail;
    } else {
      JoinConcat(head, tail, DOT);
      SplitConcat(Join(head, DOT), Join(tail, DOT), DOT);
    }
    hide Split, Join;
  }

  /** A name on the wire lies in the zone by its labels exactly when it does by its text and the
      labels that stand for the zone hold no dot. */
  lemma WireMembership(qname: Labels, zone: Bytes)
    requires TextLabels(zone) != [] && forall l | l in qname :: l != []
    ensures var n := |TextLabels(zone)|;
            (HasLabelSuffix(qname, TextLabels(zone))
             <==> IsInZone(Join(qname, DOT), zone) && |qname| >= n && DotFree(qname[|qname| - n..]))
  {
    hide IsInZone, TextLabels, Join, LowerLabels, DotFree;
    var zl := TextLabels(zone);
    if |qname| >= |zl| {
      var head, tail := qname[..|qname| - |zl|], qname[|qname| - |zl|..];
      assert qname == head + tail;
      TextLabelsDotFree(zone);
      DotFreeLower(zl);
      DotFreeLower(tail);
      if DotFree(tail) {
        assert forall l | l in head + tail :: l != [];
        TailDecides(head, tail, zone);
      }
    }
  }

  lemma TailDecides(head: Labels, tail: Labels, zone: Bytes)
    requires tail != [] && DotFree(tail) && (forall l | l in head + tail :: l != []) && |tail| == |TextLabels(zone)|
    ensures IsInZone(Join(head + tail, DOT), zone) <==> LowerLabels(tail) == LowerLabels(TextLabels(zone))
  {
    hide IsInZone, TextLabels, Join, LowerLabels, DotFree, Split, HasLabelSuffix, OnlyEmptyLabelExtra;
    var front := if head == [] then [] else Split(Join(head, DOT), DOT);
    assert forall l | l in tail :: l in head + tail;
    assert forall l | l in head :: l in head + tail;
    TailSurvives(head, tail);
    InZoneIsLabelSuffix(Join(head + tail, DOT), zone);
    NoEmptyHead(head);
    SuffixOfSum(front, tail, TextLabels(zone));
  }

  lemma NoEmptyHead(head: Labels)
    requires forall l | l in head :: l != []
    ensures head != [] ==> Split(Join(head, DOT), DOT) != [[]]
  {
    if head != [] {
      assert head[0] in head;
      SplitThenJoin(Join(head, DOT), DOT);
    }
  }

  lemma SuffixOfSum(head: Labels, tail: Labels, zone: Labels)
    requires |tail| == |zone|
    ensures HasLabelSuffix(head + tail, zone) <==> LowerLabels(tail) == LowerLabels(zone)
    ensures OnlyEmptyLabelExtra(head + tail, zone) <==> head == [[]]
  {
    assert (head + tail)[|head|..] == tail;
    hide LowerLabels;
    if OnlyEmptyLabelExtra(head + tail, zone) {
      assert |head| == 1 && (head + tail)[0] == head[0];
    }
  }

  /** The query router and the glue builder agree on what lies inside a zone. */
  lemma BailiwickIsZoneMembership(name: Bytes, zone: Bytes)
    ensures TextLabels(zone) != [] ==> (NameInBailiwick(name, zone) <==> IsInZone(name, zone))
    ensures TextLabels(zone) == [] ==> !IsInZone(name, zone)
    ensures TextLabels(zone) == [] ==> (NameInBailiwick(name, zone) <==> TextLabels(name) == [])
  {
    TrimDotsNoTrailing(name);
    assert |LowerAll(TrimDots(name))| == |TrimDots(name)|;
  }

  lemma InZoneReflexive(zone: Bytes)
    requires TextLabels(zone) != []
    ensures IsInZone(zone, zone)
  {
  }

  lemma InZoneTransitive(a: Bytes, b: Bytes, c: Bytes)
    requires IsInZone(a, b) && IsInZone(b, c)
    ensures IsInZone(a, c)
  {
    var al, bl, cl := TextLabels(a), TextLabels(b), TextLabels(c);
    InZoneIsLabelSuffix(a, b);
    InZoneIsLabelSuffix(b, c);
    InZoneIsLabelSuffix(a, c);
    SuffixTransitive(al, bl, cl);
  }

  lemma LowerLabelsDrop(labels: Labels, k: nat)
    requires k <= |labels|
    ensures LowerLabels(labels[k..]) == LowerLabels(labels)[k..]
  {
  }

  lemma SuffixTransitive(al: Labels, bl: Labels, cl: Labels)
    requires HasLabelSuffix(al, bl) && !OnlyEmptyLabelExtra(al, bl)
    requires HasLabelSuffix(bl, cl) && !OnlyEmptyLabelExtra(bl, cl)
    ensures HasLabelSuffix(al, cl) && !OnlyEmptyLabelExtra(al, cl)
  {
    var m, n := |al| - |bl|, |bl| - |cl|;
    LowerLabelsDrop(al, m);
    LowerLabelsDrop(bl, n);
    LowerLabelsDrop(al, m + n);
    assert LowerLabels(al)[m + n..] == LowerLabels(al)[m..][n..];
    if m == 0 && |bl| > 0 {
      assert LowerAll(al[0]) == LowerLabels(al)[0] == LowerLabels(bl)[0] == LowerAll(bl[0]);
      assert |LowerAll(al[0])| == |LowerAll(bl[0])|;
    }
  }
}
