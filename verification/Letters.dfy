/**
 What "up to case" means, octet by octet, against the lowercasing the server does.
 */
module Letters {
  import opened Octets
  import opened Names

  /** Equal octets, or a capital letter of ASCII and its small one. */
  predicate SameLetter(a: byte, b: byte) {
    a == b || (65 <= a <= 90 && b as int == a as int + 32) || (65 <= b <= 90 && a as int == b as int + 32)
  }

  predicate SameText(a: Bytes, b: Bytes) { |a| == |b| && forall i | 0 <= i < |a| :: SameLetter(a[i], b[i]) }

  predicate SameName(a: Labels, b: Labels) { |a| == |b| && forall i | 0 <= i < |a| :: SameText(a[i], b[i]) }

  /** The name ends in the labels of the zone (section 4.3.2 of RFC 1034). */
  predicate Below(name: Labels, zone: Labels) { |zone| <= |name| && SameName(name[|name| - |zone|..], zone) }

  /** Lowercasing leaves no capital and changes nothing but case. */
  lemma LowerIsSmall(s: Bytes)
    ensures SameText(LowerAll(s), s) && forall i | 0 <= i < |s| :: !(65 <= LowerAll(s)[i] <= 90)
  {
  }

  /** Two texts are the same up to case exactly when their lowercased forms are equal. */
  lemma SameTextLower(a: Bytes, b: Bytes)
    ensures SameText(a, b) <==> LowerAll(a) == LowerAll(b)
  {
    if |a| == |b| {
      assert forall i | 0 <= i < |a| :: LowerAll(a)[i] == Lower(a[i]) && LowerAll(b)[i] == Lower(b[i]);
    }
    assert |LowerAll(a)| == |a| && |LowerAll(b)| == |b|;
  }

  lemma SameNameLower(a: Labels, b: Labels)
    ensures SameName(a, b) <==> LowerLabels(a) == LowerLabels(b)
  {
    hide SameText, LowerAll;
    assert |LowerLabels(a)| == |a| && |LowerLabels(b)| == |b|;
    if |a| == |b| {
      forall i | 0 <= i < |a| ensures SameText(a[i], b[i]) <==> LowerLabels(a)[i] == LowerLabels(b)[i] {
        SameTextLower(a[i], b[i]);
      }
    }
  }
}
