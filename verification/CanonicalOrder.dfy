/**
 The canonical order of names (section 6.1 of RFC 4034) and the immediate
 successor that an online-signed NSEC record names.
 */
module CanonicalOrder {
  import opened Octets
  import opened Names

  /** Labels compared from the right, lowercased, as octet strings; a missing label sorts first. */
  predicate NameLess(a: Labels, b: Labels) {
    if b == [] then false
    else if a == [] then true
    else
      var x, y := LowerAll(a[|a| - 1]), LowerAll(b[|b| - 1]);
      LexLess(x, y) || (x == y && NameLess(a[..|a| - 1], b[..|b| - 1]))
  }

  /** `\000.<name>`. */
  function Successor(name: Labels): Labels { [[0]] + name }

  lemma {:induction false} NameLessIrreflexive(a: Labels, b: Labels)
    requires LowerLabels(a) == LowerLabels(b)
    ensures !NameLess(a, b)
  {
    assert |LowerLabels(a)| == |LowerLabels(b)|;
    if a != [] {
      assert LowerLabels(a)[|a| - 1] == LowerLabels(b)[|b| - 1];
      assert LowerLabels(a[..|a| - 1]) == LowerLabels(a)[..|a| - 1];
      assert LowerLabels(b[..|b| - 1]) == LowerLabels(b)[..|b| - 1];
      NameLessIrreflexive(a[..|a| - 1], b[..|b| - 1]);
    }
  }

  lemma {:induction false} NameLessTotal(a: Labels, b: Labels)
    ensures NameLess(a, b) || NameLess(b, a) || LowerLabels(a) == LowerLabels(b)
  {
    if a != [] && b != [] {
      var x, y := LowerAll(a[|a| - 1]), LowerAll(b[|b| - 1]);
      LexTotal(x, y);
      NameLessTotal(a[..|a| - 1], b[..|b| - 1]);
      if x == y && LowerLabels(a[..|a| - 1]) == LowerLabels(b[..|b| - 1]) {
        assert LowerLabels(a) == LowerLabels(a[..|a| - 1]) + [x];
        assert LowerLabels(b) == LowerLabels(b[..|b| - 1]) + [y];
      }
    }
  }

  lemma {:induction false} NameLessTransitive(a: Labels, b: Labels, c: Labels)
    requires NameLess(a, b) && NameLess(b, c)
    ensures NameLess(a, c)
  {
    if a != [] {
      var x, y, z := LowerAll(a[|a| - 1]), LowerAll(b[|b| - 1]), LowerAll(c[|c| - 1]);
      LexReflexive(y);
      LexTransitive(x, y, z);
      if x == z {
        if x != y {
          LexAntisymmetric(x, y);
        }
        NameLessTransitive(a[..|a| - 1], b[..|b| - 1], c[..|c| - 1]);
      }
    }
  }

  lemma {:induction false} SuccessorIsGreater(name: Labels)
    ensures NameLess(name, Successor(name))
  {
    if name != [] {
      SuccessorIsGreater(name[..|name| - 1]);
      assert Successor(name)[..|name|] == Successor(name[..|name| - 1]);
    }
  }

  lemma LeastNonempty(s: Bytes)
    requires s != []
    ensures !LexLess(s, [0])
  {
    var zero: Bytes := [0];
    if LexLeq(s, zero) {
      assert zero[1..] == [] && s[0] == 0;
      assert LexLeq(s[1..], []);
      assert s == [s[0]] + s[1..];
      assert s == zero;
    }
  }

  /** Nothing sorts below octet 0 but the empty label, which no name has. */
  lemma {:induction false} NothingBetween(name: Labels, x: Labels)
    requires forall l | l in x :: l != []
    ensures !(NameLess(name, x) && NameLess(x, Successor(name)))
  {
    var next := Successor(name);
    if x != [] {
      var k := |x| - 1;
      assert x[k] in x;
      assert forall l | l in x[..k] :: l in x;
      if name == [] {
        assert next[..0] == [];
        assert LowerAll(next[0]) == [0];
        LeastNonempty(LowerAll(x[k]));
      } else {
        assert next[..|name|] == Successor(name[..|name| - 1]);
        assert next[|name|] == name[|name| - 1];
        var u, v := LowerAll(name[|name| - 1]), LowerAll(x[k]);
        if LexLess(u, v) && LexLess(v, u) {
          LexAntisymmetric(u, v);
        }
        NothingBetween(name[..|name| - 1], x[..k]);
      }
    }
  }

  /** An NSEC from `name` to its successor covers no other name, and the successor is a
      legal name exactly when the owner leaves two octets of the 255. */
  lemma ImmediateSuccessor(name: Labels)
    requires ValidName(name)
    ensures NameLess(name, Successor(name))
    ensures forall x: Labels | ValidLabels(x) :: !(NameLess(name, x) && NameLess(x, Successor(name)))
    ensures ValidName(Successor(name)) <==> |Wire(name)| <= 253
  {
    SuccessorIsGreater(name);
    forall x: Labels | ValidLabels(x) ensures !(NameLess(name, x) && NameLess(x, Successor(name))) {
      NothingBetween(name, x);
    }
    WireUnfold(Successor(name));
    assert Successor(name)[1..] == name;
  }
}
