/**
 Octets, big-endian integers, ASCII case and the order of octet strings.

 A Rust `str` or `Vec<u8>` is a sequence of octets here.  Integers keep the
 width the source gives them through the subset types below.
 */
module Octets {
  type byte = b: int | 0 <= b < 0x100
  type u16 = n: int | 0 <= n < 0x1_0000
  type u32 = n: int | 0 <= n < 0x1_0000_0000
  type Bytes = seq<byte>

  const DOT: byte := 46
  const HYPHEN: byte := 45
  const COLON: byte := 58
  const STAR: byte := 42

  datatype Option<+T> = None | Some(value: T)

  function Min(a: int, b: int): int { if a <= b then a else b }

  function Max(a: int, b: int): int { if a <= b then b else a }

  // ----- big-endian integers ---------------------------------------------------

  function U16Bytes(n: u16): Bytes { [n / 0x100, n % 0x100] }

  function U32Bytes(n: u32): Bytes { U16Bytes(n / 0x1_0000) + U16Bytes(n % 0x1_0000) }

  function U16At(b: Bytes, i: nat): u16
    requires i + 2 <= |b|
  {
    (b[i] as int) * 0x100 + b[i + 1]
  }

  function U32At(b: Bytes, i: nat): u32
    requires i + 4 <= |b|
  {
    (U16At(b, i) as int) * 0x1_0000 + U16At(b, i + 2)
  }

  // ----- "these octets stand at this offset" -----------------------------------

  ghost predicate At(msg: Bytes, pos: nat, part: Bytes) {
    pos + |part| <= |msg| && msg[pos..pos + |part|] == part
  }

  lemma AtConcat(msg: Bytes, pos: nat, a: Bytes, b: Bytes)
    ensures At(msg, pos, a + b) <==> At(msg, pos, a) && At(msg, pos + |a|, b)
  {
    if At(msg, pos, a + b) {
      assert msg[pos..pos + |a|] == (a + b)[..|a|];
      assert msg[pos + |a|..pos + |a| + |b|] == (a + b)[|a|..];
    }
    if At(msg, pos, a) && At(msg, pos + |a|, b) {
      assert msg[pos..pos + |a| + |b|] == msg[pos..pos + |a|] + msg[pos + |a|..pos + |a| + |b|];
    }
  }

  lemma AtBounds(msg: Bytes, pos: nat, part: Bytes)
    requires At(msg, pos, part)
    ensures pos + |part| <= |msg| && msg[pos..pos + |part|] == part
  {
  }

  lemma AtIndex(msg: Bytes, pos: nat, part: Bytes, i: nat)
    requires At(msg, pos, part) && i < |part|
    ensures msg[pos + i] == part[i]
  {
  }

  lemma AtU16(msg: Bytes, pos: nat, n: u16)
    requires At(msg, pos, U16Bytes(n))
    ensures U16At(msg, pos) == n
  {
  }

  lemma AtU32(msg: Bytes, pos: nat, n: u32)
    requires At(msg, pos, U32Bytes(n))
    ensures U32At(msg, pos) == n
  {
  }

  // ----- ASCII case ------------------------------------------------------------

  function Lower(b: byte): byte { if 65 <= b <= 90 then b + 32 else b }

  function LowerAll(s: Bytes): Bytes { seq(|s|, i requires 0 <= i < |s| => Lower(s[i])) }

  /** `str::eq_ignore_ascii_case`. */
  predicate EqIgnoreCase(a: Bytes, b: Bytes) { LowerAll(a) == LowerAll(b) }

  lemma LowerAllConcat(a: Bytes, b: Bytes)
    ensures LowerAll(a + b) == LowerAll(a) + LowerAll(b)
  {
  }

  lemma LowerAllIdempotent(s: Bytes)
    ensures LowerAll(LowerAll(s)) == LowerAll(s)
  {
  }

  // ----- the order of octet strings (section 6.3 of RFC 4034) ------------------

  /** Left-justified unsigned octets; the absence of an octet sorts before octet 0. */
  predicate LexLeq(a: Bytes, b: Bytes) {
    a == [] || (b != [] && (a[0] < b[0] || (a[0] == b[0] && LexLeq(a[1..], b[1..]))))
  }

  predicate LexLess(a: Bytes, b: Bytes) { LexLeq(a, b) && a != b }

  /** Octet `k` is the first in which the strings differ, and the smaller there is `a`. */
  ghost predicate LessAt(a: Bytes, b: Bytes, k: nat) { k < |a| && k < |b| && a[..k] == b[..k] && a[k] < b[k] }

  /** The first octet in which two strings differ decides; without one, the shorter is first. */
  lemma {:induction false} LexByFirstDifference(a: Bytes, b: Bytes)
    ensures LexLeq(a, b) <==> a <= b || exists k: nat :: LessAt(a, b, k)
  {
    if a != [] && b != [] {
      var c, d := a[1..], b[1..];
      LexByFirstDifference(c, d);
      assert a == [a[0]] + c && b == [b[0]] + d;
      hide LexLeq, LessAt;
      assert a <= b <==> a[0] == b[0] && c <= d;
      if k: nat :| LessAt(a, b, k) {
        LaterDifference(a, b, k);
      }
      if k: nat :| LessAt(c, d, k) {
        LaterDifference(a, b, k + 1);
      }
      LaterDifference(a, b, 0);
      FirstDecides(a, b);
    }
  }

  lemma FirstDecides(a: Bytes, b: Bytes)
    requires a != [] && b != []
    ensures LexLeq(a, b) <==> a[0] < b[0] || (a[0] == b[0] && LexLeq(a[1..], b[1..]))
  {
  }

  lemma LaterDifference(a: Bytes, b: Bytes, k: nat)
    requires a != [] && b != []
    ensures LessAt(a, b, k) <==> if k == 0 then a[0] < b[0] else a[0] == b[0] && LessAt(a[1..], b[1..], k - 1)
  {
    if 0 < k < |a| && k < |b| {
      assert a[..k] == [a[0]] + a[1..][..k - 1] && b[..k] == [b[0]] + b[1..][..k - 1];
      if a[..k] == b[..k] {
        SameFirst(a, b, k);
        assert a[1..][..k - 1] == a[..k][1..];
      }
    }
  }

  lemma SameFirst(a: Bytes, b: Bytes, k: nat)
    requires k <= |a| && k <= |b| && a[..k] == b[..k]
    ensures k > 0 ==> a[0] == b[0]
  {
    if k > 0 {
      assert a[..k][0] == b[..k][0];
    }
  }

  lemma {:induction false} LexReflexive(a: Bytes)
    ensures LexLeq(a, a)
  {
    if a != [] {
      LexReflexive(a[1..]);
    }
  }

  lemma {:induction false} LexTotal(a: Bytes, b: Bytes)
    ensures LexLeq(a, b) || LexLeq(b, a)
  {
    if a != [] && b != [] {
      LexTotal(a[1..], b[1..]);
    }
  }

  lemma {:induction false} LexAntisymmetric(a: Bytes, b: Bytes)
    requires LexLeq(a, b) && LexLeq(b, a)
    ensures a == b
  {
    if a != [] {
      LexAntisymmetric(a[1..], b[1..]);
      assert a == [a[0]] + a[1..] && b == [b[0]] + b[1..];
    }
  }

  lemma {:induction false} LexTransitive(a: Bytes, b: Bytes, c: Bytes)
    requires LexLeq(a, b) && LexLeq(b, c)
    ensures LexLeq(a, c)
  {
    if a != [] && a[0] == b[0] == c[0] {
      LexTransitive(a[1..], b[1..], c[1..]);
    }
  }

  ghost predicate Sorted(s: seq<Bytes>) {
    forall i, j | 0 <= i < j < |s| :: LexLeq(s[i], s[j])
  }

  /** `Vec<Vec<u8>>::sort`, as insertion of one element at a time. */
  function Sort(s: seq<Bytes>): (r: seq<Bytes>)
    ensures Sorted(r) && multiset(r) == multiset(s)
  {
    if s == [] then []
    else
      assert s == s[..|s| - 1] + [s[|s| - 1]];
      InsertKeepsOrder(s[|s| - 1], Sort(s[..|s| - 1]));
      Insert(s[|s| - 1], Sort(s[..|s| - 1]))
  }

  function Insert(x: Bytes, s: seq<Bytes>): seq<Bytes> {
    if s == [] then [x]
    else if LexLeq(x, s[0]) then [x] + s
    else [s[0]] + Insert(x, s[1..])
  }

  lemma {:induction false} InsertKeepsOrder(x: Bytes, s: seq<Bytes>)
    requires Sorted(s)
    ensures Sorted(Insert(x, s)) && multiset(Insert(x, s)) == multiset(s) + multiset{x}
  {
    hide LexLeq;
    if s == [] {
    } else if LexLeq(x, s[0]) {
      forall j | 0 <= j < |s| ensures LexLeq(x, s[j]) {
        if j > 0 {
          LexTransitive(x, s[0], s[j]);
        }
      }
    } else {
      LexTotal(x, s[0]);
      InsertKeepsOrder(x, s[1..]);
      assert s == [s[0]] + s[1..];
      var r := Insert(x, s[1..]);
      forall j | 0 <= j < |r| ensures LexLeq(s[0], r[j]) {
        assert r[j] in multiset(r);
        if r[j] != x {
          assert r[j] in multiset(s[1..]);
          var k :| 0 <= k < |s[1..]| && s[1..][k] == r[j];
          assert s[k + 1] == r[j];
        }
      }
    }
  }

  lemma LeastFirst(a: seq<Bytes>, b: seq<Bytes>)
    requires Sorted(a) && multiset(a) == multiset(b) && a != [] && b != []
    ensures LexLeq(a[0], b[0])
  {
    assert b[0] in multiset(b);
    assert b[0] in multiset(a);
    var j :| 0 <= j < |a| && a[j] == b[0];
    if j == 0 {
      LexReflexive(a[0]);
    }
  }

  lemma SameHead(a: seq<Bytes>, b: seq<Bytes>)
    requires Sorted(a) && Sorted(b) && multiset(a) == multiset(b) && a != [] && b != []
    ensures a[0] == b[0] && multiset(a[1..]) == multiset(b[1..])
  {
    hide LexLeq, Sorted;
    LeastFirst(a, b);
    LeastFirst(b, a);
    LexAntisymmetric(a[0], b[0]);
    TailMultiset(a);
    TailMultiset(b);
  }

  /** Canonical order is unique: one arrangement of a multiset is sorted. */
  lemma {:induction false} SortedUnique(a: seq<Bytes>, b: seq<Bytes>)
    requires Sorted(a) && Sorted(b) && multiset(a) == multiset(b)
    ensures a == b
  {
    hide LexLeq;
    assert |a| == |multiset(a)| == |multiset(b)| == |b|;
    if a != [] {
      SameHead(a, b);
      assert Sorted(a[1..]) && Sorted(b[1..]);
      SortedUnique(a[1..], b[1..]);
      assert a == [a[0]] + a[1..] && b == [b[0]] + b[1..];
    }
  }

  lemma TailMultiset<T>(a: seq<T>)
    requires a != []
    ensures multiset(a[1..]) == multiset(a) - multiset{a[0]}
  {
    assert a == [a[0]] + a[1..];
  }
}
