/**
 RRsets in an emitted section: every record is kept, each RRset is one run in
 canonical order, and its signature follows it.
 */
module Rrsets {
  import opened Octets
  import opened Names
  import opened Dnssec
  import opened Message
  import opened RoundTrip
  import D = Decoder

  // ----- what a reader takes for one RRset -------------------------------------

  /** Lowercased owner and type. */
  function KeyOf(r: D.Record): (Labels, u16) { (LowerLabels(r.name), r.typ) }

  function Key(qname: Labels, rr: Rr): (Labels, u16) { KeyOf(ToRecord(qname, rr)) }

  lemma SameRrsetSameKey(qname: Labels, a: Rr, b: Rr)
    requires SameRrset(a, b)
    ensures OwnerLabels(qname, a.owner) == OwnerLabels(qname, b.owner) && Key(qname, a) == Key(qname, b)
  {
    if a.owner.Name? {
      NamesEqByLabels(a.owner.name, b.owner.name);
    }
  }

  lemma SameRrsetTransitive(a: Rr, b: Rr, c: Rr)
    requires SameRrset(a, b) && SameRrset(b, c)
    ensures SameRrset(a, c)
  {
  }

  // ----- sections in which no RRset is split -----------------------------------

  /** `rrs[j]` opens a new RRset or continues the one just before it, and within an RRset
      TTLs agree and RDATA differ. */
  ghost predicate ProperAt(rrs: seq<Rr>, qname: Labels, j: nat)
    requires j < |rrs|
  {
    && rrs[j].typ != TYPE_RRSIG
    && (forall i | 0 <= i < j && Key(qname, rrs[i]) == Key(qname, rrs[j]) ::
          rrs[i].ttl == rrs[j].ttl && rrs[i].rdata != rrs[j].rdata)
    && ((forall i | 0 <= i < j :: Key(qname, rrs[i]) != Key(qname, rrs[j]))
        || (j > 0 && SameRrset(rrs[j - 1], rrs[j])))
  }

  ghost predicate Proper(rrs: seq<Rr>, qname: Labels) { forall j | 0 <= j < |rrs| :: ProperAt(rrs, qname, j) }

  ghost predicate KeysApart(a: seq<Rr>, b: seq<Rr>, qname: Labels) {
    forall x, y | x in a && y in b :: Key(qname, x) != Key(qname, y)
  }

  lemma ProperConcat(a: seq<Rr>, b: seq<Rr>, qname: Labels)
    requires Proper(a, qname) && Proper(b, qname) && KeysApart(a, b, qname)
    ensures Proper(a + b, qname)
  {
    var all := a + b;
    forall j | 0 <= j < |all| ensures ProperAt(all, qname, j) {
      hide Key, SameRrset;
      if j < |a| {
        assert ProperAt(a, qname, j);
        assert forall i | 0 <= i <= j :: all[i] == a[i];
      } else {
        var k := j - |a|;
        assert ProperAt(b, qname, k);
        assert all[j] == b[k];
        forall i | 0 <= i < j ensures i < |a| ==> Key(qname, all[i]) != Key(qname, all[j]) {
          if i < |a| {
            assert all[i] in a && all[j] in b;
          }
        }
        assert forall i | |a| <= i < |all| :: all[i] == b[i - |a|];
      }
    }
  }

  lemma ProperSingle(rr: Rr, qname: Labels)
    requires rr.typ != TYPE_RRSIG
    ensures Proper([rr], qname)
  {
  }

  lemma TypesApart(a: seq<Rr>, b: seq<Rr>, qname: Labels)
    requires forall x, y | x in a && y in b :: x.typ != y.typ
    ensures KeysApart(a, b, qname)
  {
  }

  // ----- groups ----------------------------------------------------------------

  /** One RRset: its members match the first, share the TTL and have distinct RDATA. */
  ghost predicate ProperGroup(g: Group, qname: Labels) {
    && g[0].typ != TYPE_RRSIG
    && (forall k | 0 <= k < |g| :: SameRrset(g[0], g[k]) && g[k].ttl == g[0].ttl)
    && (forall i, j | 0 <= i < j < |g| :: g[i].rdata != g[j].rdata)
  }

  ghost predicate DistinctGroups(groups: seq<Group>, qname: Labels) {
    forall i, j | 0 <= i < j < |groups| :: Key(qname, groups[i][0]) != Key(qname, groups[j][0])
  }

  function Flat(groups: seq<Group>): seq<Rr> {
    if groups == [] then [] else groups[0] + Flat(groups[1..])
  }

  lemma {:induction false} FlatConcat(a: seq<Group>, b: seq<Group>)
    ensures Flat(a + b) == Flat(a) + Flat(b)
  {
    if a == [] {
      assert a + b == b;
    } else {
      var first, rest := a[0], a[1..];
      FlatConcat(rest, b);
      assert (a + b)[1..] == rest + b && (a + b)[0] == first;
      assert first + (Flat(rest) + Flat(b)) == first + Flat(rest) + Flat(b);
    }
  }

  lemma FlatOne(g: Group)
    ensures Flat([g]) == g
  {
  }

  /** Grouping only inserts boundaries. */
  lemma {:induction false} GroupsFlat(rrs: seq<Rr>)
    ensures Flat(Groups(rrs)) == rrs
  {
    hide AddToGroups;
    if rrs != [] {
      var n := |rrs| - 1;
      GroupsFlat(rrs[..n]);
      FlatAdd(Groups(rrs[..n]), rrs[n]);
      assert rrs == rrs[..n] + [rrs[n]];
    }
  }

  lemma FlatAdd(groups: seq<Group>, rr: Rr)
    ensures Flat(AddToGroups(groups, rr)) == Flat(groups) + [rr]
  {
    hide SameRrset, Flat;
    if groups != [] && SameRrset(groups[|groups| - 1][0], rr) {
      var most, last := groups[..|groups| - 1], groups[|groups| - 1];
      assert groups == most + [last];
      FlatConcat(most, [last]);
      FlatConcat(most, [last + [rr]]);
      FlatOne(last);
      FlatOne(last + [rr]);
    } else {
      FlatConcat(groups, [[rr]]);
      FlatOne([rr]);
    }
  }

  /** What holds of the groups of a proper list. */
  ghost predicate WellGrouped(groups: seq<Group>, rrs: seq<Rr>, qname: Labels) {
    && DistinctGroups(groups, qname)
    && (forall g | g in groups :: ProperGroup(g, qname) && forall rr | rr in g :: rr in rrs)
    && (rrs != [] ==> groups != [] && rrs[|rrs| - 1] in groups[|groups| - 1])
  }

  lemma WellGroupedStep(groups: seq<Group>, rrs: seq<Rr>, qname: Labels)
    requires rrs != [] && ProperAt(rrs, qname, |rrs| - 1)
    requires WellGrouped(groups, rrs[..|rrs| - 1], qname)
    ensures WellGrouped(AddToGroups(groups, rrs[|rrs| - 1]), rrs, qname)
  {
    var n := |rrs| - 1;
    var rr, before := rrs[n], rrs[..n];
    if groups != [] && SameRrset(groups[|groups| - 1][0], rr) {
      JoinLastGroup(groups, rrs, qname);
    } else {
      NewGroup(groups, rrs, qname);
    }
  }

  lemma JoinLastGroup(groups: seq<Group>, rrs: seq<Rr>, qname: Labels)
    requires rrs != [] && ProperAt(rrs, qname, |rrs| - 1) && groups != []
    requires WellGrouped(groups, rrs[..|rrs| - 1], qname)
    requires SameRrset(groups[|groups| - 1][0], rrs[|rrs| - 1])
    ensures WellGrouped(groups[..|groups| - 1] + [groups[|groups| - 1] + [rrs[|rrs| - 1]]], rrs, qname)
  {
    hide SameRrset, Key, ProperGroup, ProperAt;
    var n, m := |rrs| - 1, |groups| - 1;
    var last: Group := groups[m];
    var longer: Group := last + [rrs[n]];
    assert last in groups;
    LongerGroup(last, rrs, qname);
    var more := groups[..m] + [longer];
    assert forall i | 0 <= i <= m :: more[i][0] == groups[i][0];
    forall g | g in more ensures ProperGroup(g, qname) && forall x | x in g :: x in rrs {
      assert g == longer || g in groups;
    }
  }

  lemma LongerGroup(last: Group, rrs: seq<Rr>, qname: Labels)
    requires rrs != [] && ProperAt(rrs, qname, |rrs| - 1)
    requires ProperGroup(last, qname) && forall rr | rr in last :: rr in rrs[..|rrs| - 1]
    requires SameRrset(last[0], rrs[|rrs| - 1])
    ensures ProperGroup(last + [rrs[|rrs| - 1]], qname)
  {
    hide Key, SameRrset, ProperAt, ProperGroup;
    var n := |rrs| - 1;
    var rr := rrs[n];
    SameRrsetSameKey(qname, last[0], rr);
    forall k | 0 <= k < |last| ensures last[k].ttl == rr.ttl && last[k].rdata != rr.rdata {
      GroupMember(last, qname, k);
      SameRrsetSameKey(qname, last[0], last[k]);
      var i :| 0 <= i < n && rrs[..n][i] == last[k];
      ProperPair(rrs, qname, n, i);
    }
    GroupGrows(last, rr, qname);
  }

  lemma GroupMember(g: Group, qname: Labels, k: nat)
    requires ProperGroup(g, qname) && k < |g|
    ensures g[k] in g && SameRrset(g[0], g[k])
  {
    hide SameRrset;
  }

  lemma ProperPair(rrs: seq<Rr>, qname: Labels, j: nat, i: nat)
    requires i < j < |rrs| && ProperAt(rrs, qname, j) && Key(qname, rrs[i]) == Key(qname, rrs[j])
    ensures rrs[i].ttl == rrs[j].ttl && rrs[i].rdata != rrs[j].rdata
  {
    hide Key, SameRrset;
  }

  lemma GroupGrows(g: Group, rr: Rr, qname: Labels)
    requires ProperGroup(g, qname) && SameRrset(g[0], rr)
    requires forall k | 0 <= k < |g| :: g[k].ttl == rr.ttl && g[k].rdata != rr.rdata
    ensures ProperGroup(g + [rr], qname)
  {
    hide SameRrset;
  }

  lemma NewGroup(groups: seq<Group>, rrs: seq<Rr>, qname: Labels)
    requires rrs != [] && ProperAt(rrs, qname, |rrs| - 1)
    requires WellGrouped(groups, rrs[..|rrs| - 1], qname)
    requires groups == [] || !SameRrset(groups[|groups| - 1][0], rrs[|rrs| - 1])
    ensures WellGrouped(groups + [[rrs[|rrs| - 1]]], rrs, qname)
  {
    var n := |rrs| - 1;
    var rr := rrs[n];
    assert forall i | 0 <= i < n :: Key(qname, rrs[i]) != Key(qname, rr) by {
      if n > 0 && SameRrset(rrs[n - 1], rr) {
        var last := groups[|groups| - 1];
        assert rrs[..n][n - 1] == rrs[n - 1];
        assert last in groups && rrs[n - 1] in last;
        var k :| 0 <= k < |last| && last[k] == rrs[n - 1];
        SameRrsetTransitive(last[0], rrs[n - 1], rr);
      }
    }
    var one: Group := [rr];
    assert ProperGroup(one, qname);
    hide SameRrset, Key;
    var more := groups + [one];
    forall i | 0 <= i < |groups| ensures Key(qname, groups[i][0]) != Key(qname, rr) {
      assert groups[i] in groups && groups[i][0] in groups[i];
      var k :| 0 <= k < n && rrs[..n][k] == groups[i][0];
      assert rrs[k] == groups[i][0];
    }
    forall g | g in more ensures ProperGroup(g, qname) && forall x | x in g :: x in rrs {
      assert g == one || g in groups;
    }
  }

  /** A proper section falls into one group per RRset. */
  lemma {:induction false} GroupsAreRrsets(rrs: seq<Rr>, qname: Labels)
    requires Proper(rrs, qname)
    ensures WellGrouped(Groups(rrs), rrs, qname)
  {
    if rrs != [] {
      var n := |rrs| - 1;
      forall j | 0 <= j < n ensures ProperAt(rrs[..n], qname, j) {
        assert ProperAt(rrs, qname, j);
        assert forall i | 0 <= i <= j :: rrs[..n][i] == rrs[i];
      }
      GroupsAreRrsets(rrs[..n], qname);
      assert ProperAt(rrs, qname, n);
      WellGroupedStep(Groups(rrs[..n]), rrs, qname);
    }
  }
}
