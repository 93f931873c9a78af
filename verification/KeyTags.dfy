/**
 The key tag a validator computes for itself, from Appendix B of RFC 4034, against the tag
 the signer writes.
 */
module KeyTags {
  import opened Octets
  import opened Dnssec

  /** The first `n` octets added up, each in the half that the parity of its index gives it. */
  function Accumulated(rdata: Bytes, n: nat): nat
    requires n <= |rdata|
  {
    if n == 0 then 0
    else Accumulated(rdata, n - 1) + if n % 2 == 1 then 256 * rdata[n - 1] as int else rdata[n - 1] as int
  }

  /** `ac += (ac >> 16) & 0xFFFF; return ac & 0xFFFF;` */
  function ValidatorTag(rdata: Bytes): u16 {
    var ac := Accumulated(rdata, |rdata|);
    (ac + (ac / 65536) % 65536) % 65536
  }

  lemma {:induction false} AccumulatedWords(rdata: Bytes, n: nat)
    requires n <= |rdata|
    ensures Accumulated(rdata, n) == WordSum(rdata[..n])
  {
    if n > 0 {
      AccumulatedWords(rdata, n - 1);
      assert rdata[..n] == rdata[..n - 1] + [rdata[n - 1]];
      WordSumAppend(rdata[..n - 1], rdata[n - 1]);
    }
  }

  /** Signer and validator give every RDATA the same tag. */
  lemma TagsAgree(rdata: Bytes)
    ensures KeyTagOf(rdata) == ValidatorTag(rdata)
  {
    AccumulatedWords(rdata, |rdata|);
    assert rdata[..|rdata|] == rdata;
    FoldOnce(WordSum(rdata));
  }

  lemma FoldOnce(ac: nat)
    ensures (ac + ac / 65536) % 65536 == (ac + (ac / 65536) % 65536) % 65536
  {
    var high := ac / 65536;
    assert (ac + high) - (ac + high % 65536) == 65536 * (high / 65536);
  }

  /** Where its two halves add up to less than 65536, the tag is the sum of the words modulo 65535. */
  lemma TagIsSum(rdata: Bytes)
    requires Accumulated(rdata, |rdata|) % 65536 + Accumulated(rdata, |rdata|) / 65536 < 65536
    ensures KeyTagOf(rdata) as int % 65535 == Accumulated(rdata, |rdata|) % 65535
  {
    TagsAgree(rdata);
    var ac := Accumulated(rdata, |rdata|);
    var high, low := ac / 65536, ac % 65536;
    assert ac == 65536 * high + low;
    assert ac + high == 65536 * high + (low + high);
    TopCut(high, low + high);
    assert ac == (low + high) + 65535 * high;
    SameRemainder(low + high, high);
  }

  lemma TopCut(q: nat, r: nat)
    requires r < 65536
    ensures (65536 * q + r) % 65536 == r
  {
  }

  lemma SameRemainder(r: nat, q: nat)
    ensures (r + 65535 * q) % 65535 == r % 65535
  {
  }

  // ----- the published example --------------------------------------------------

  /** The DNSKEY RDATA of section 5.4 of RFC 4034, in rows of seven words. */
  function Row0(): Bytes { [1, 0, 3, 5, 1, 3, 158, 138, 36, 116, 24, 227, 24, 144] }
  function Row1(): Bytes { [59, 33, 90, 132, 138, 207, 213, 243, 127, 2, 107, 212, 6, 45] }
  function Row2(): Bytes { [178, 108, 119, 76, 105, 9, 104, 213, 213, 109, 248, 191, 218, 145] }
  function Row3(): Bytes { [230, 243, 109, 154, 39, 152, 136, 244, 19, 51, 53, 124, 94, 96] }
  function Row4(): Bytes { [41, 153, 13, 16, 253, 245, 102, 48, 98, 165, 18, 118, 51, 38] }
  function Row5(): Bytes { [152, 10, 97, 93, 219, 241, 122, 5, 221, 252, 206, 126, 95, 179] }
  function Row6(): Bytes { [171, 204, 160, 90, 49, 176, 149, 116, 82, 212, 82, 30, 131, 135] }
  function Row7(): Bytes { [7, 137, 6, 49, 21, 191, 151, 246, 195, 8, 204, 245, 124, 220] }
  function Row8(): Bytes { [156, 231, 254, 16, 246, 237, 27, 208, 204, 6, 96, 3, 140, 80] }
  function Row9(): Bytes { [220, 219, 15, 235, 150, 60, 47, 23] }

  function PublishedKey(): Bytes {
    Row0() + Row1() + Row2() + Row3() + Row4() + Row5() + Row6() + Row7() + Row8() + Row9()
  }

  lemma {:induction false} EvenConcat(a: Bytes, b: Bytes)
    requires |a| % 2 == 0
    ensures WordSum(a + b) == WordSum(a) + WordSum(b)
  {
    if a == [] {
      assert a + b == b;
    } else {
      EvenConcat(a[2..], b);
      assert (a + b)[2..] == a[2..] + b;
    }
  }

  lemma Sum0() ensures WordSum(Row0()) == 63865 && |Row0()| == 14 { }
  lemma Sum1() ensures WordSum(Row1()) == 190314 && |Row1()| == 14 { }
  lemma Sum2() ensures WordSum(Row2()) == 304211 && |Row2()| == 14 { }
  lemma Sum3() ensures WordSum(Row3()) == 175144 && |Row3()| == 14 { }
  lemma Sum4() ensures WordSum(Row4()) == 148239 && |Row4()| == 14 { }
  lemma Sum5() ensures WordSum(Row5()) == 285578 && |Row5()| == 14 { }
  lemma Sum6() ensures WordSum(Row6()) == 211907 && |Row6()| == 14 { }
  lemma Sum7() ensures WordSum(Row7()) == 182344 && |Row7()| == 14 { }
  lemma Sum8() ensures WordSum(Row8()) == 288269 && |Row8()| == 14 { }
  lemma Sum9() ensures WordSum(Row9()) == 111129 && |Row9()| == 8 { }

  /** It has the tag that is printed there. */
  lemma PublishedTag()
    ensures KeyTagOf(PublishedKey()) == 60485
  {
    hide WordSum, Row0, Row1, Row2, Row3, Row4, Row5, Row6, Row7, Row8, Row9;
    Sum0();
    Sum1();
    Sum2();
    Sum3();
    Sum4();
    Sum5();
    Sum6();
    Sum7();
    Sum8();
    Sum9();
    EvenConcat(Row0(), Row1());
    EvenConcat(Row0() + Row1(), Row2());
    EvenConcat(Row0() + Row1() + Row2(), Row3());
    EvenConcat(Row0() + Row1() + Row2() + Row3(), Row4());
    EvenConcat(Row0() + Row1() + Row2() + Row3() + Row4(), Row5());
    EvenConcat(Row0() + Row1() + Row2() + Row3() + Row4() + Row5(), Row6());
    EvenConcat(Row0() + Row1() + Row2() + Row3() + Row4() + Row5() + Row6(), Row7());
    EvenConcat(Row0() + Row1() + Row2() + Row3() + Row4() + Row5() + Row6() + Row7(), Row8());
    EvenConcat(Row0() + Row1() + Row2() + Row3() + Row4() + Row5() + Row6() + Row7() + Row8(), Row9());
    assert WordSum(PublishedKey()) == 1961000;
  }
}
