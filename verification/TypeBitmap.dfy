/**
 The NSEC Type Bit Maps field: the single-pass encoder of the source, the field
 as section 4.1.2 of RFC 4034 describes it, and a strict reader of the field.
 */
module TypeBitmap {
  import opened Octets

  // ----- bits ------------------------------------------------------------------

  /** Value of bit `j`, counted from the most significant end. */
  function Weight(j: nat): byte
    requires j < 8
  {
    if j == 0 then 128 else if j == 1 then 64 else if j == 2 then 32 else if j == 3 then 16
    else if j == 4 then 8 else if j == 5 then 4 else if j == 6 then 2 else 1
  }

  predicate BitIsSet(b: byte, j: nat)
    requires j < 8
  {
    if j == 0 then b / 128 == 1 else if j == 1 then (b / 64) % 2 == 1
    else if j == 2 then (b / 32) % 2 == 1 else if j == 3 then (b / 16) % 2 == 1
    else if j == 4 then (b / 8) % 2 == 1 else if j == 5 then (b / 4) % 2 == 1
    else if j == 6 then (b / 2) % 2 == 1 else b % 2 == 1
  }

  /** `b |= 1 << (7 - j)`. */
  function OrBit(b: byte, j: nat): byte
    requires j < 8
  {
    if BitIsSet(b, j) then b else b + Weight(j)
  }

  // ----- the field of section 4.1.2 of RFC 4034 --------------------------------

  function Bit(types: set<u16>, t: u16): (bit: nat)
    ensures bit <= 1
  {
    if t in types then 1 else 0
  }

  /** The octet whose bits are the types `base .. base + 7`. */
  function Octet(types: set<u16>, base: nat): byte
    requires base + 8 <= 0x1_0000
  {
    128 * Bit(types, base) + 64 * Bit(types, base + 1) + 32 * Bit(types, base + 2) + 16 * Bit(types, base + 3)
    + 8 * Bit(types, base + 4) + 4 * Bit(types, base + 5) + 2 * Bit(types, base + 6) + Bit(types, base + 7)
  }

  function WindowOctets(types: set<u16>, w: byte): seq<byte> {
    seq(32, k requires 0 <= k < 32 => Octet(types, w as int * 0x100 + k * 8))
  }

  function TrimZeros(s: Bytes): Bytes {
    if s != [] && s[|s| - 1] == 0 then TrimZeros(s[..|s| - 1]) else s
  }

  /** A window block without trailing zero octets, absent when the window is empty. */
  function Block(types: set<u16>, w: byte): Bytes {
    var octets := TrimZeros(WindowOctets(types, w));
    if octets == [] then [] else
      TrimZerosIsPrefix(WindowOctets(types, w));
      [w, |octets|] + octets
  }

  function BlocksBelow(types: set<u16>, n: nat): Bytes
    requires n <= 0x100
  {
    if n == 0 then [] else BlocksBelow(types, n - 1) + Block(types, n - 1)
  }

  function Bitmap(types: set<u16>): Bytes { BlocksBelow(types, 0x100) }

  // ----- a strict reader of the field ------------------------------------------

  function BlockTypes(w: byte, octets: Bytes): set<u16> {
    set t: u16 | w as int * 0x100 <= t < w as int * 0x100 + 0x100
                 && (t % 0x100) / 8 < |octets| && BitIsSet(octets[(t % 0x100) / 8], t % 8)
  }

  /** Reads window blocks numbered `floor` or more.  Refuses blocks out of order, lengths
      outside 1 to 32, blocks that end in a zero octet, and truncated blocks. */
  function DecodeBlocks(field: Bytes, floor: nat): Option<set<u16>> {
    if field == [] then Some({})
    else if |field| < 2 then None
    else
      var w, len := field[0], field[1];
      if w < floor || len == 0 || len > 32 || |field| < 2 + len as int || field[1 + len as int] == 0 then None
      else
        var rest := DecodeBlocks(field[2 + len as int..], w as int + 1);
        if rest.None? then None
        else Some(BlockTypes(w, field[2..2 + len as int]) + rest.value)
  }

  /** The field holds at least one block. */
  function DecodeBitmap(field: Bytes): Option<set<u16>> {
    if field == [] then None else DecodeBlocks(field, 0)
  }

  ghost function Window(types: set<u16>, w: nat): set<u16> {
    set t | t in types && w * 0x100 <= t < w * 0x100 + 0x100
  }

  ghost function FromWindow(types: set<u16>, w: nat): set<u16> {
    set t | t in types && t >= w * 0x100
  }

  // ----- what the blocks hold --------------------------------------------------

  lemma OctetBits(types: set<u16>, base: nat, j: nat)
    requires base + 8 <= 0x1_0000 && j < 8
    ensures BitIsSet(Octet(types, base), j) <==> base + j in types
  {
    hide Octet, BitIsSet;
    var o := Octet(types, base);
    OctetSum(types, base);
    var a0, a1, a2, a3 := Bit(types, base), Bit(types, base + 1), Bit(types, base + 2), Bit(types, base + 3);
    var a4, a5, a6, a7 := Bit(types, base + 4), Bit(types, base + 5), Bit(types, base + 6), Bit(types, base + 7);
    HighBits(o, a0, a1, a2, a3, 8 * a4 + 4 * a5 + 2 * a6 + a7);
    LowBits(o, 8 * a0 + 4 * a1 + 2 * a2 + a3, a4, a5, a6, a7);
  }

  lemma OctetSum(types: set<u16>, base: nat)
    requires base + 8 <= 0x1_0000
    ensures Octet(types, base) as int
         == 128 * Bit(types, base) + 64 * Bit(types, base + 1) + 32 * Bit(types, base + 2) + 16 * Bit(types, base + 3)
            + 8 * Bit(types, base + 4) + 4 * Bit(types, base + 5) + 2 * Bit(types, base + 6) + Bit(types, base + 7)
  {
  }

  lemma HighBits(o: byte, a: nat, b: nat, c: nat, d: nat, low: nat)
    requires a <= 1 && b <= 1 && c <= 1 && d <= 1 && low < 16
    requires o == 128 * a + 64 * b + 32 * c + 16 * d + low
    ensures BitIsSet(o, 0) <==> a == 1
    ensures BitIsSet(o, 1) <==> b == 1
    ensures BitIsSet(o, 2) <==> c == 1
    ensures BitIsSet(o, 3) <==> d == 1
  {
    assert o / 64 == 2 * a + b;
    assert o / 32 == 4 * a + 2 * b + c;
    assert o / 16 == 8 * a + 4 * b + 2 * c + d;
  }

  lemma LowBits(o: byte, high: nat, a: nat, b: nat, c: nat, d: nat)
    requires a <= 1 && b <= 1 && c <= 1 && d <= 1
    requires o == 16 * high + 8 * a + 4 * b + 2 * c + d
    ensures BitIsSet(o, 4) <==> a == 1
    ensures BitIsSet(o, 5) <==> b == 1
    ensures BitIsSet(o, 6) <==> c == 1
    ensures BitIsSet(o, 7) <==> d == 1
  {
    assert o / 8 == 2 * high + a;
    assert o / 4 == 4 * high + 2 * a + b;
    assert o / 2 == 8 * high + 4 * a + 2 * b + c;
  }

  lemma OctetZero(types: set<u16>, base: nat)
    requires base + 8 <= 0x1_0000
    ensures Octet(types, base) == 0 <==> forall t: u16 | base <= t < base + 8 :: t !in types
  {
    if Octet(types, base) == 0 {
      forall t: u16 | base <= t < base + 8 ensures t !in types {
        OctetBits(types, base, t - base);
      }
    }
  }

  lemma OctetOr(types: set<u16>, base: nat, j: nat)
    requires base + 8 <= 0x1_0000 && j < 8
    ensures OrBit(Octet(types, base), j) == Octet(types + {base + j}, base)
  {
    OctetBits(types, base, j);
    var more := types + {base + j};
    hide BitIsSet;
    if base + j in types {
      assert more == types;
    } else {
      assert forall t: u16 :: Bit(more, t) == if t == base + j then 1 else Bit(types, t);
      assert Bit(types, base + j) == 0;
      hide Bit;
    }
  }

  lemma {:induction false} TrimZerosIsPrefix(s: Bytes)
    ensures TrimZeros(s) <= s
    ensures TrimZeros(s) != [] ==> TrimZeros(s)[|TrimZeros(s)| - 1] != 0
    ensures forall i | |TrimZeros(s)| <= i < |s| :: s[i] == 0
  {
    if s != [] && s[|s| - 1] == 0 {
      TrimZerosIsPrefix(s[..|s| - 1]);
    }
  }

  lemma {:induction false} TrimZerosAt(s: Bytes, last: nat)
    requires last < |s| && s[last] != 0 && forall i | last < i < |s| :: s[i] == 0
    ensures TrimZeros(s) == s[..last + 1]
  {
    if |s| - 1 == last {
      assert s[..last + 1] == s;
    } else {
      TrimZerosAt(s[..|s| - 1], last);
      assert s[..|s| - 1][..last + 1] == s[..last + 1];
    }
  }

  lemma OctetOfType(w: byte, t: u16)
    requires w as int * 0x100 <= t < w as int * 0x100 + 0x100
    ensures var k := (t % 0x100) / 8;
            k < 32 && w as int * 0x100 + k * 8 <= t < w as int * 0x100 + k * 8 + 8
  {
  }

  lemma BlockIsEmpty(types: set<u16>, w: byte)
    ensures Block(types, w) == [] <==> TrimZeros(WindowOctets(types, w)) == []
  {
    hide TrimZeros, WindowOctets;
  }

  lemma WindowOctetZero(types: set<u16>, w: byte, k: nat)
    requires k < 32
    ensures |WindowOctets(types, w)| == 32
    ensures WindowOctets(types, w)[k] == 0
            <==> forall t: u16 | w as int * 0x100 + k * 8 <= t < w as int * 0x100 + k * 8 + 8 :: t !in types
  {
    OctetZero(types, w as int * 0x100 + k * 8);
    hide Octet;
  }

  lemma WindowEmpty(types: set<u16>, w: byte)
    ensures Block(types, w) == [] <==> forall t: u16 | w as int * 0x100 <= t < w as int * 0x100 + 0x100 :: t !in types
  {
    hide Block, WindowOctets, TrimZeros;
    var octets := WindowOctets(types, w);
    BlockIsEmpty(types, w);
    TrimZerosIsPrefix(octets);
    if TrimZeros(octets) == [] {
      forall t: u16 | w as int * 0x100 <= t < w as int * 0x100 + 0x100 ensures t !in types {
        OctetOfType(w, t);
        WindowOctetZero(types, w, (t % 0x100) / 8);
      }
    } else {
      WindowOctetZero(types, w, 0);
      WindowOctetZero(types, w, |TrimZeros(octets)| - 1);
    }
  }

  lemma BlockHoldsWindow(types: set<u16>, w: byte)
    ensures var octets := TrimZeros(WindowOctets(types, w));
            BlockTypes(w, octets) == Window(types, w)
  {
    var all := WindowOctets(types, w);
    var octets := TrimZeros(all);
    TrimZerosIsPrefix(all);
    hide TrimZeros;
    forall t: u16 | w as int * 0x100 <= t < w as int * 0x100 + 0x100
      ensures t in BlockTypes(w, octets) <==> t in types
    {
      TypeInOctet(types, w, t);
      hide BitIsSet, Octet;
    }
  }

  lemma TypeInOctet(types: set<u16>, w: byte, t: u16)
    requires w as int * 0x100 <= t < w as int * 0x100 + 0x100
    ensures BitIsSet(WindowOctets(types, w)[(t % 0x100) / 8], t % 8) <==> t in types
    ensures WindowOctets(types, w)[(t % 0x100) / 8] == 0 ==> t !in types
  {
    var k := (t % 0x100) / 8;
    assert t == w as int * 0x100 + k * 8 + t % 8;
    OctetBits(types, w as int * 0x100 + k * 8, t % 8);
    OctetZero(types, w as int * 0x100 + k * 8);
    hide BitIsSet, Octet;
  }

  // ----- round trip ------------------------------------------------------------

  ghost function BlocksFrom(types: set<u16>, n: nat): Bytes
    requires n <= 0x100
    decreases 0x100 - n
  {
    if n == 0x100 then [] else Block(types, n) + BlocksFrom(types, n + 1)
  }

  lemma {:induction false} BelowAndFrom(types: set<u16>, n: nat)
    requires n <= 0x100
    ensures BlocksBelow(types, n) + BlocksFrom(types, n) == BlocksFrom(types, 0)
  {
    hide Block;
    if n > 0 {
      BelowAndFrom(types, n - 1);
      assert BlocksBelow(types, n) + BlocksFrom(types, n)
          == BlocksBelow(types, n - 1) + (Block(types, n - 1) + BlocksFrom(types, n));
    }
  }

  lemma {:induction false} DecodeBlocksFrom(types: set<u16>, n: nat, floor: nat)
    requires floor <= n <= 0x100
    ensures DecodeBlocks(BlocksFrom(types, n), floor) == Some(FromWindow(types, n))
    decreases 0x100 - n
  {
    hide Block, DecodeBlocks, FromWindow, Window;
    FromWindowStep(types, n);
    if n < 0x100 {
      if Block(types, n) == [] {
        DecodeBlocksFrom(types, n + 1, floor);
        assert BlocksFrom(types, n) == BlocksFrom(types, n + 1);
      } else {
        DecodeBlocksFrom(types, n + 1, n + 1);
        DecodeOneBlock(types, n, BlocksFrom(types, n + 1), floor);
      }
    } else {
      DecodeNothing(floor);
    }
  }

  lemma DecodeNothing(floor: nat)
    ensures DecodeBlocks([], floor) == Some({})
  {
  }

  lemma FromWindowStep(types: set<u16>, n: nat)
    requires n <= 0x100
    ensures n == 0x100 ==> FromWindow(types, n) == {}
    ensures n < 0x100 ==> FromWindow(types, n) == Window(types, n) + FromWindow(types, n + 1)
    ensures n < 0x100 && Block(types, n) == [] ==> FromWindow(types, n) == FromWindow(types, n + 1)
  {
    if n < 0x100 {
      WindowEmpty(types, n);
    }
    hide Block;
  }

  lemma BlockParts(types: set<u16>, w: byte)
    requires Block(types, w) != []
    ensures var octets := TrimZeros(WindowOctets(types, w));
            && Block(types, w) == [w, |octets|] + octets
            && 1 <= |octets| <= 32 && octets[|octets| - 1] != 0
  {
    TrimZerosIsPrefix(WindowOctets(types, w));
    hide Octet, TrimZeros;
  }

  lemma DecodeOneBlock(types: set<u16>, w: byte, rest: Bytes, floor: nat)
    requires floor <= w && Block(types, w) != []
    requires DecodeBlocks(rest, w as int + 1).Some?
    ensures DecodeBlocks(Block(types, w) + rest, floor)
         == Some(Window(types, w) + DecodeBlocks(rest, w as int + 1).value)
  {
    hide TrimZeros, BlockTypes, WindowOctets, Window, Block;
    BlockHoldsWindow(types, w);
    BlockParts(types, w);
    var octets := TrimZeros(WindowOctets(types, w));
    var field := Block(types, w) + rest;
    assert field[1 + |octets|] == octets[|octets| - 1];
    assert field[2..2 + |octets|] == octets && field[2 + |octets|..] == rest;
  }

  lemma BitmapEmpty(types: set<u16>)
    ensures Bitmap(types) == [] <==> types == {}
  {
    BelowAndFrom(types, 0x100);
    assert BlocksFrom(types, 0x100) == [];
    assert BlocksFrom(types, 0) == Bitmap(types);
    DecodeBlocksFrom(types, 0, 0);
    assert FromWindow(types, 0) == types;
    if types == {} {
      NoBlocks(0x100);
    }
  }

  lemma {:induction false} NoBlocks(n: nat)
    requires n <= 0x100
    ensures BlocksBelow({}, n) == []
  {
    hide Block;
    if n > 0 {
      NoBlocks(n - 1);
      WindowEmpty({}, n - 1);
    }
  }

  /** Reading the field back gives exactly the types that went in. */
  lemma BitmapRoundTrip(types: set<u16>)
    ensures types != {} ==> DecodeBitmap(Bitmap(types)) == Some(types)
    ensures types == {} ==> Bitmap(types) == []
  {
    BelowAndFrom(types, 0x100);
    DecodeBlocksFrom(types, 0, 0);
    assert FromWindow(types, 0) == types;
    assert BlocksFrom(types, 0x100) == [];
    hide BlocksBelow, BlocksFrom, DecodeBlocks;
    assert BlocksFrom(types, 0) == Bitmap(types);
    BitmapEmpty(types);
  }

  // ----- the encoder of the source ---------------------------------------------

  ghost predicate Ascending(types: seq<u16>) { forall i, j | 0 <= i < j < |types| :: types[i] < types[j] }

  function TypeSet(types: seq<u16>): set<u16> { set t | t in types }

  /** The Type Bit Maps octets for a list of types. */
  function TypeField(types: seq<u16>): Bytes {
    if types == [] then [0, 0] else Bitmap(TypeSet(types))
  }

  /** `sort_unstable` followed by `dedup`. */
  function SortDedup(types: seq<u16>): (r: seq<u16>)
    ensures Ascending(r) && TypeSet(r) == TypeSet(types)
  {
    if types == [] then []
    else
      assert types == types[..|types| - 1] + [types[|types| - 1]];
      InsertTypeKeepsOrder(types[|types| - 1], SortDedup(types[..|types| - 1]));
      InsertType(types[|types| - 1], SortDedup(types[..|types| - 1]))
  }

  function InsertType(t: u16, types: seq<u16>): seq<u16> {
    if types == [] then [t]
    else if t == types[0] then types
    else if t < types[0] then [t] + types
    else [types[0]] + InsertType(t, types[1..])
  }

  lemma {:induction false} InsertTypeKeepsOrder(t: u16, types: seq<u16>)
    requires Ascending(types)
    ensures Ascending(InsertType(t, types)) && TypeSet(InsertType(t, types)) == TypeSet(types) + {t}
  {
    if types != [] {
      var rest := types[1..];
      assert types == [types[0]] + rest;
      assert Ascending(rest);
      hide Ascending, TypeSet;
      AscendingCons(types[0], rest);
      if t < types[0] {
        AscendingCons(t, types);
      } else if t > types[0] {
        InsertTypeKeepsOrder(t, rest);
        AscendingCons(types[0], InsertType(t, rest));
      }
    }
  }

  lemma AscendingCons(t: u16, types: seq<u16>)
    requires Ascending(types)
    ensures Ascending([t] + types) <==> forall s | s in TypeSet(types) :: t < s
    ensures TypeSet([t] + types) == {t} + TypeSet(types)
  {
    var r := [t] + types;
    if Ascending(r) {
      forall s | s in TypeSet(types) ensures t < s {
        var i :| 0 <= i < |types| && types[i] == s;
        assert r[0] < r[i + 1];
      }
    }
    if forall s | s in TypeSet(types) :: t < s {
      forall i, j | 0 <= i < j < |r| ensures r[i] < r[j] {
        assert r[j] == types[j - 1] && r[j] in TypeSet(types);
        if i > 0 {
          assert r[i] == types[i - 1];
        }
      }
    }
  }

  /** One window's block, as the `flush` closure writes it. */
  function Flushed(w: byte, bits: seq<byte>, maxByte: nat): Bytes
    requires |bits| == 32 && maxByte < 32
  {
    [w, maxByte + 1] + bits[..maxByte + 1]
  }

  /** What the loop variables of the encoder mean once `types` are done and window `w` is open. */
  ghost predicate Encoding(types: set<u16>, w: byte, bits: seq<byte>, maxByte: nat, out: Bytes) {
    && bits == WindowOctets(types, w)
    && maxByte < 32 && (forall k | maxByte < k < 32 :: bits[k] == 0)
    && out == BlocksBelow(types, w)
    && forall t | t in types :: t < (w as int + 1) * 0x100
  }

  lemma NoTypesBetween(types: set<u16>, n: nat, m: nat)
    requires n <= m <= 0x100
    requires forall t | t in types :: t < n * 0x100
    ensures BlocksBelow(types, m) == BlocksBelow(types, n)
  {
    hide Block;
    if n < m {
      NoTypesBetween(types, n, m - 1);
      WindowEmpty(types, m - 1);
    }
  }

  lemma {:induction false} BlocksBelowFrame(a: set<u16>, b: set<u16>, n: nat)
    requires n <= 0x100
    requires forall t: u16 | t < n * 0x100 :: t in a <==> t in b
    ensures BlocksBelow(a, n) == BlocksBelow(b, n)
  {
    hide Block;
    if n > 0 {
      BlocksBelowFrame(a, b, n - 1);
      BlockFrame(a, b, n - 1);
    }
  }

  lemma BlockFrame(a: set<u16>, b: set<u16>, w: byte)
    requires forall t: u16 | t < (w as int + 1) * 0x100 :: t in a <==> t in b
    ensures Block(a, w) == Block(b, w)
  {
    hide WindowOctets, TrimZeros;
    WindowFrame(a, b, w);
  }

  lemma WindowFrame(a: set<u16>, b: set<u16>, w: byte)
    requires forall t: u16 | t < (w as int + 1) * 0x100 :: t in a <==> t in b
    ensures WindowOctets(a, w) == WindowOctets(b, w)
  {
    forall k | 0 <= k < 32 ensures Octet(a, w as int * 0x100 + k * 8) == Octet(b, w as int * 0x100 + k * 8) {
      OctetFrame(a, b, w as int * 0x100 + k * 8);
    }
    hide Octet;
  }

  lemma OctetFrame(a: set<u16>, b: set<u16>, base: nat)
    requires base + 8 <= 0x1_0000
    requires forall t: u16 | base <= t < base + 8 :: t in a <==> t in b
    ensures Octet(a, base) == Octet(b, base)
  {
    SameBit(a, b, base);
    SameBit(a, b, base + 1);
    SameBit(a, b, base + 2);
    SameBit(a, b, base + 3);
    SameBit(a, b, base + 4);
    SameBit(a, b, base + 5);
    SameBit(a, b, base + 6);
    SameBit(a, b, base + 7);
    hide Bit;
  }

  lemma SameBit(a: set<u16>, b: set<u16>, t: u16)
    requires t in a <==> t in b
    ensures Bit(a, t) == Bit(b, t)
  {
  }

  lemma WriteBlock(types: set<u16>, w: byte, bits: seq<byte>, maxByte: nat, out: Bytes)
    requires Encoding(types, w, bits, maxByte, out) && bits[maxByte] != 0
    ensures out + Flushed(w, bits, maxByte) == BlocksBelow(types, w as int + 1)
  {
    TrimZerosAt(bits, maxByte);
  }

  lemma OpenWindow(types: set<u16>, w: byte, bits: seq<byte>, maxByte: nat, out: Bytes, next: byte)
    requires w < next && Encoding(types, w, bits, maxByte, out)
    ensures Encoding(types, next, seq(32, _ => 0), 0, BlocksBelow(types, w as int + 1))
  {
    hide BlocksBelow, WindowOctets;
    NoTypesBetween(types, w as int + 1, next);
    NothingYet(types, next);
  }

  lemma NothingYet(types: set<u16>, w: byte)
    requires forall t | t in types :: t < w as int * 0x100
    ensures WindowOctets(types, w) == seq(32, _ => 0)
  {
    hide WindowOctets;
    forall k | 0 <= k < 32 ensures |WindowOctets(types, w)| == 32 && WindowOctets(types, w)[k] == 0 {
      WindowOctetZero(types, w, k);
    }
    WindowOctetZero(types, w, 0);
  }

  lemma SetType(types: set<u16>, w: byte, bits: seq<byte>, maxByte: nat, out: Bytes, typ: u16)
    requires Encoding(types, w, bits, maxByte, out) && typ / 0x100 == w
    ensures var k := (typ % 0x100) / 8;
            var more := bits[k := OrBit(bits[k], typ % 8)];
            var top := if maxByte >= k then maxByte else k;
            && Encoding(types + {typ}, w, more, top, out)
            && (bits[maxByte] != 0 || maxByte == 0 ==> more[top] != 0)
  {
    BlocksBelowFrame(types, types + {typ}, w);
    SetBitInWindow(types, w, typ);
    hide BlocksBelow, WindowOctets, OrBit;
  }

  lemma SetBitInWindow(types: set<u16>, w: byte, typ: u16)
    requires typ / 0x100 == w
    ensures var k, bits := (typ % 0x100) / 8, WindowOctets(types, w);
            && bits[k := OrBit(bits[k], typ % 8)] == WindowOctets(types + {typ}, w)
            && WindowOctets(types + {typ}, w)[k] != 0
  {
    hide Octet, OrBit;
    var k := (typ % 0x100) / 8;
    var base := w as int * 0x100 + k * 8;
    assert typ == base + typ % 8;
    OctetOr(types, base, typ % 8);
    OctetZero(types + {typ}, base);
    forall i | 0 <= i < 32 && i != k
      ensures Octet(types + {typ}, w as int * 0x100 + i * 8) == Octet(types, w as int * 0x100 + i * 8)
    {
      OctetFrame(types, types + {typ}, w as int * 0x100 + i * 8);
    }
  }

  lemma NoTypesIffEmpty(types: seq<u16>)
    ensures TypeSet(types) == {} <==> types == []
  {
    if types != [] {
      assert types[0] in TypeSet(types);
    }
  }

  lemma TypeSetStep(types: seq<u16>, i: nat)
    requires i < |types|
    ensures TypeSet(types[..i + 1]) == TypeSet(types[..i]) + {types[i]}
    ensures TypeSet(types[..0]) == {}
  {
    assert types[..i + 1] == types[..i] + [types[i]];
  }

  lemma OpenFirst(w: byte)
    ensures Encoding({}, w, seq(32, _ => 0), 0, [])
  {
    if w > 0 {
      NoTypesBetween({}, 0, w);
    }
    NothingYet({}, w);
  }

  lemma LastWindow(types: seq<u16>, given: seq<u16>, w: byte, bits: seq<byte>, maxByte: nat, out: Bytes)
    requires TypeSet(types) == TypeSet(given)
    requires Encoding(TypeSet(types[..|types|]), w, bits, maxByte, out) && bits[maxByte] != 0
    ensures out + Flushed(w, bits, maxByte) == Bitmap(TypeSet(given))
  {
    assert types[..|types|] == types;
    WriteBlock(TypeSet(types), w, bits, maxByte, out);
    NoTypesBetween(TypeSet(types), w as int + 1, 0x100);
  }

  method SetBit(bits: array<byte>, maxByte: nat, typ: u16, w: byte, ghost done: set<u16>, ghost out: Bytes)
    returns (top: nat)
    requires Encoding(done, w, bits[..], maxByte, out) && typ / 0x100 == w
    requires bits.Length == 32 && maxByte < 32 && (bits[maxByte] != 0 || maxByte == 0)
    modifies bits
    ensures Encoding(done + {typ}, w, bits[..], top, out)
    ensures top < 32 && bits[top] != 0
  {
    SetType(done, w, bits[..], maxByte, out, typ);
    hide *;
    var k, j := (typ % 0x100) / 8, typ % 8;
    ghost var after := bits[..][k := OrBit(bits[k], j)];
    bits[k] := OrBit(bits[k], j);
    assert bits[..] == after;
    top := if maxByte >= k then maxByte else k;
    assert bits[top] == after[top];
  }

  method EncodeTypes(given: seq<u16>) returns (out: Bytes)
    ensures out == TypeField(given)
  {
    hide TypeSet, Encoding, BlocksBelow, WindowOctets, OrBit, SortDedup, Bitmap, Flushed;
    var types := SortDedup(given);
    NoTypesIffEmpty(types);
    NoTypesIffEmpty(given);
    if types == [] {
      return [0, 0];
    }
    out := [];
    var window: Option<byte> := None;
    var bits := new byte[32](i => 0);
    var maxByte: nat := 0;
    for i := 0 to |types|
      invariant bits.Length == 32 && fresh(bits)
      invariant window.None? <==> i == 0
      invariant i == 0 ==> out == [] && maxByte == 0 && bits[..] == seq(32, _ => 0)
      invariant i > 0 ==> window.value == types[i - 1] / 0x100
      invariant i > 0 ==> Encoding(TypeSet(types[..i]), window.value, bits[..], maxByte, out)
      invariant maxByte < 32 && (i > 0 ==> bits[maxByte] != 0)
    {
      ghost var done := TypeSet(types[..i]);
      TypeSetStep(types, i);
      var typ := types[i];
      var w := typ / 0x100;
      assert i > 0 ==> types[i - 1] < typ;
      if window.None? {
        OpenFirst(w);
      }
      hide *;
      if window.Some? && window.value != w {
        WriteBlock(done, window.value, bits[..], maxByte, out);
        OpenWindow(done, window.value, bits[..], maxByte, out, w);
        out := out + Flushed(window.value, bits[..], maxByte);
        bits := new byte[32](i => 0);
        assert bits[..] == seq(32, _ => 0);
        maxByte := 0;
      }
      window := Some(w);
      maxByte := SetBit(bits, maxByte, typ, w, done, out);
    }
    if window.Some? {
      LastWindow(types, given, window.value, bits[..], maxByte, out);
      out := out + Flushed(window.value, bits[..], maxByte);
    }
  }

  /** A list of types, in any order and with repeats, reads back as its set; only the empty
      list writes a field that no reader accepts. */
  lemma TypeFieldRoundTrip(types: seq<u16>)
    ensures DecodeBitmap(TypeField(types)) == if types == [] then None else Some(TypeSet(types))
  {
    NoTypesIffEmpty(types);
    BitmapRoundTrip(TypeSet(types));
  }
}
