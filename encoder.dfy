/**
 * The encoder: the payload's bits, least-significant bit of byte 0 first, cut
 * into 5-bit groups, each written as its value symbol; no padding; an optional
 * check symbol for `byte0 mod 37` at the end.
 */
module Encoding {
  import opened Arith
  import opened Tables

  /** ceil(8n/5): the number of 5-bit groups that cover n bytes */
  function EncodedLength(n: nat): (len: nat)
    ensures 5 * len >= 8 * n && 5 * len < 8 * n + 5
  {
    (8 * n + 4) / 5
  }

  /** The value symbols for a sequence of 5-bit values. */
  function Spell(ds: seq<int>): (s: seq<Byte>)
    requires AllDigits32(ds)
    ensures |s| == |ds| && forall k :: 0 <= k < |ds| ==> s[k] == EncTable[ds[k]]
  {
    if |ds| == 0 then [] else [EncTable[ds[0]]] + Spell(ds[1..])
  }

  /**
   * What the encoder writes: the ceil(8n/5) lowest base-32 digits of the
   * payload's little-endian number, as symbols, and with a checksum the symbol
   * for `val[0] % 37`; nothing at all for an empty payload.
   */
  function Encoded(val: seq<Byte>, withCheckSum: bool): seq<Byte>
  {
    if |val| == 0 then []
    else Spell(Digits32(LE256(val), EncodedLength(|val|)))
         + (if withCheckSum then [EncTable[val[0] % 37]] else [])
  }

  /** The up to 16 bits the encoder looks at for a group that starts in byte `byi`. */
  function Window(val: seq<Byte>, byi: nat): int
    requires byi < |val|
  {
    val[byi] + (if byi != |val| - 1 then val[byi + 1] as int * 256 else 0)
  }

  /** Dropping the bytes below `byi` leaves the number the bytes from `byi` on spell. */
  lemma {:induction false} DropLowBytes(val: seq<Byte>, byi: nat)
    requires byi <= |val|
    ensures LE256(val) / Pow2(8 * byi) == LE256(val[byi..])
  {
    LE256Split(val, byi);
    LE256Bound(val[..byi]);
    DivModUnique(LE256(val), Pow2(8 * byi), LE256(val[byi..]), LE256(val[..byi]));
  }

  /** From byte `byi` on, the number is the window plus a multiple of 2^16. */
  lemma {:induction false} WindowOfRest(val: seq<Byte>, byi: nat) returns (rest: nat)
    requires byi < |val|
    ensures LE256(val[byi..]) == Window(val, byi) + 65536 * rest
  {
    var t := val[byi..];
    if |t| >= 2 {
      rest := LE256(t[2..]);
      assert t[1..][1..] == t[2..];
      assert LE256(t) == t[0] + 256 * (t[1] + 256 * rest);
    } else {
      rest := 0;
      assert LE256(t) == t[0];
    }
  }

  /** Adding a multiple of 2^16 does not change bits sh..sh+4 when sh < 8. */
  lemma {:induction false} GroupIgnoresHighBits(w: int, sh: nat, rest: int)
    requires sh < 8
    ensures (w + 65536 * rest) / Pow2(sh) % 32 == w / Pow2(sh) % 32
  {
    var p, q := Pow2(sh), Pow2(11 - sh);
    Pow2Add(sh, 16 - sh);
    Pow2Add(5, 11 - sh);
    Pow2Small();
    var k := q * rest;
    Assoc(p, 32, k);
    Assoc(32, q, rest);
    Assoc(p, 32 * q, rest);
    var m := 32 * k;
    assert 65536 * rest == p * m;
    DivAddMultiple(w, p, m);
    var low := w / p;
    assert (w + 65536 * rest) / p == low + 32 * k;
    DivAddMultiple(low, 32, k);
  }

  /**
   * Shifting the window by the group's offset within its byte and keeping 5
   * bits gives the same value as cutting bits bi..bi+4 out of the whole
   * payload: a group never reaches past the byte after the one it starts in,
   * and past the last byte the payload has only zero bits.
   */
  lemma {:induction false} WindowGroup(val: seq<Byte>, bi: nat)
    requires bi < 8 * |val|
    ensures Window(val, bi / 8) / Pow2(bi % 8) % 32 == LE256(val) / Pow2(bi) % 32
  {
    var byi, sh := bi / 8, bi % 8;
    DropLowBytes(val, byi);
    Pow2Add(8 * byi, sh);
    DivDiv(LE256(val), Pow2(8 * byi), Pow2(sh));
    var rest := WindowOfRest(val, byi);
    GroupIgnoresHighBits(Window(val, byi), sh, rest);
  }

  /** The group the encoder cuts at bit `5k` is digit `k` of the encoding. */
  lemma {:induction false} WindowDigit(val: seq<Byte>, k: nat)
    requires 5 * k < 8 * |val|
    ensures k < EncodedLength(|val|)
    ensures Window(val, 5 * k / 8) / Pow2(5 * k % 8) % 32 == Digits32(LE256(val), EncodedLength(|val|))[k]
  {
    WindowGroup(val, 5 * k);
    Digits32At(LE256(val), EncodedLength(|val|), k);
  }

  /**
   * Walks the payload 5 bits at a time; each group is read from a window of
   * the byte it starts in and the byte after it, when there is one. Go's
   * `>>` by `bi & 7` is division by 2^(bi % 8), `& 0x1f` is `% 32`, and the
   * `|` of the two window bytes adds disjoint bit ranges.
   */
  method Encode(val: seq<Byte>, withCheckSum: bool) returns (s: seq<Byte>)
    ensures s == Encoded(val, withCheckSum)
  {
    var vl := |val|;
    if vl == 0 {
      return [];
    }
    ghost var digits := Digits32(LE256(val), EncodedLength(vl));
    s := [];
    var bi := 0;
    while bi < vl * 8
      invariant bi == 5 * |s| && bi < 8 * vl + 5
      invariant forall k :: 0 <= k < |s| ==> s[k] == EncTable[digits[k]]
    {
      var byi := bi / 8;
      var v: int := val[byi];
      if byi != vl - 1 {
        v := v + val[byi + 1] as int * 256;
      }
      assert v == Window(val, byi);
      WindowDigit(val, |s|);
      s := s + [EncTable[v / Pow2(bi % 8) % 32]];
      bi := bi + 5;
    }
    assert s == Spell(digits);
    if withCheckSum {
      s := s + [EncTable[val[0] % 37]];
    }
  }

  /** `Encode` without a check symbol. */
  method EncodePlain(val: seq<Byte>) returns (s: seq<Byte>)
    ensures s == Encoded(val, false)
    ensures |val| > 0 ==> |s| == EncodedLength(|val|)
  {
    s := Encode(val, false);
  }

  /** `Encode` with the check symbol appended. */
  method EncodeWithCheckSum(val: seq<Byte>) returns (s: seq<Byte>)
    ensures s == Encoded(val, true)
    ensures |val| > 0 ==> |s| == EncodedLength(|val|) + 1 && s[|s| - 1] == EncTable[val[0] % 37]
  {
    s := Encode(val, true);
  }

  // ----- properties of the encoding -----

  /**
   * Shape of the output: ceil(8n/5) value symbols, then one check symbol when
   * asked for; an empty payload gives an empty string even with a checksum.
   */
  lemma {:induction false} EncodedShape(val: seq<Byte>, withCheckSum: bool)
    ensures |val| == 0 ==> Encoded(val, withCheckSum) == []
    ensures |val| > 0 ==>
      |Encoded(val, withCheckSum)| == EncodedLength(|val|) + (if withCheckSum then 1 else 0)
    ensures forall k :: 0 <= k < EncodedLength(|val|) && |val| > 0 ==>
      IsDataSymbol(Encoded(val, withCheckSum)[k])
    ensures |val| > 0 && withCheckSum ==>
      Encoded(val, true)[EncodedLength(|val|)] == EncTable[val[0] % 37]
  {
    if |val| > 0 {
      var ds := Digits32(LE256(val), EncodedLength(|val|));
      forall k | 0 <= k < EncodedLength(|val|)
        ensures IsDataSymbol(Encoded(val, withCheckSum)[k])
      {
        DecodesEncTable(ds[k]);
      }
    }
  }

  /** Symbol k is bits 5k..5k+4 of the payload. */
  lemma {:induction false} EncodedSymbol(val: seq<Byte>, withCheckSum: bool, k: nat)
    requires k < EncodedLength(|val|)
    ensures k < |Encoded(val, withCheckSum)|
    ensures DecTable(Encoded(val, withCheckSum)[k]) == LE256(val) / Pow2(5 * k) % 32
  {
    Digits32At(LE256(val), EncodedLength(|val|), k);
    DecodesEncTable(LE256(val) / Pow2(5 * k) % 32);
  }

  lemma {:induction false} SpellAppend(a: seq<int>, b: seq<int>)
    requires AllDigits32(a) && AllDigits32(b)
    ensures AllDigits32(a + b) && Spell(a + b) == Spell(a) + Spell(b)
  {
    var l, r := Spell(a + b), Spell(a) + Spell(b);
    forall k | 0 <= k < |l|
      ensures l[k] == r[k]
    {
      if k < |a| {
        assert (a + b)[k] == a[k];
      } else {
        assert (a + b)[k] == b[k - |a|];
      }
    }
  }

  lemma {:induction false} BytesAppend(a: string, b: string)
    ensures Bytes(a + b) == Bytes(a) + Bytes(b)
  {
  }

  // ----- the fixed vector of the test suite -----

  /** The bytes 255 down to 240, written as two halves of eight. */
  const TestPayload: seq<Byte> :=
    [255, 254, 253, 252, 251, 250, 249, 248] + [247, 246, 245, 244, 243, 242, 241, 240]

  lemma {:induction false} TestLowHalf()
    ensures LE256([255, 254, 253, 252, 251, 250, 249, 248]) == 17940646550795321087
  {
  }

  lemma {:induction false} TestHighHalf()
    ensures LE256([247, 246, 245, 244, 243, 242, 241, 240]) == 17361925168090707703
  {
  }

  lemma {:induction false} Halves(v: seq<Byte>, low: seq<Byte>, high: seq<Byte>, a: nat, b: nat)
    requires v == low + high && |low| == 8 && LE256(low) == a && LE256(high) == b
    ensures LE256(v) == a + Pow2(64) * b
  {
    LE256Concat(low, high);
  }

  lemma {:induction false} TestPayloadShape()
    ensures |TestPayload| == 16 && EncodedLength(16) == 26 && TestPayload[0] == 255
  {
  }

  lemma {:induction false} TestPayloadNumber()
    ensures LE256(TestPayload) == TestNumber
  {
    TestLowHalf();
    TestHighHalf();
    Pow2Of64();
    Halves(TestPayload, [255, 254, 253, 252, 251, 250, 249, 248], [247, 246, 245, 244, 243, 242, 241, 240],
      17940646550795321087, 17361925168090707703);
  }

  lemma {:induction false} TestDigitsA()
    ensures Digits32(TestNumber, 6) == [31, 23, 31, 27, 15, 30]
  {
  }

  lemma {:induction false} TestDropA()
    ensures DropDigits(TestNumber, 6) == 298275603170195569400229653487
  {
  }

  lemma {:induction false} TestDigitsB()
    ensures Digits32(298275603170195569400229653487, 5) == [15, 31, 26, 15, 30]
  {
  }

  lemma {:induction false} TestDropB()
    ensures DropDigits(298275603170195569400229653487, 5) == 8889305686062442344433
  {
  }

  lemma {:induction false} TestDigitsC()
    ensures Digits32(8889305686062442344433, 5) == [17, 31, 27, 27, 30]
  {
  }

  lemma {:induction false} TestDropC()
    ensures DropDigits(8889305686062442344433, 5) == 264921953858805
  {
  }

  lemma {:induction false} TestDigitsD()
    ensures Digits32(264921953858805, 5) == [21, 7, 29, 7, 15]
  {
  }

  lemma {:induction false} TestDropD()
    ensures DropDigits(264921953858805, 5) == 7895289
  {
  }

  lemma {:induction false} TestDigitsE()
    ensures Digits32(7895289, 5) == [25, 7, 30, 16, 7]
  {
  }

  /** The digits of `x` in five runs, each run starting where the previous one stops. */
  lemma {:induction false} DigitsInFive(x: nat, m1: nat, m2: nat, m3: nat, m4: nat,
                     a: seq<int>, b: seq<int>, c: seq<int>, d: seq<int>, e: seq<int>)
    requires DropDigits(x, 6) == m1 && DropDigits(m1, 5) == m2 && DropDigits(m2, 5) == m3 && DropDigits(m3, 5) == m4
    requires Digits32(x, 6) == a && Digits32(m1, 5) == b && Digits32(m2, 5) == c && Digits32(m3, 5) == d
    requires Digits32(m4, 5) == e
    ensures Digits32(x, 26) == a + (b + (c + (d + e)))
  {
    Digits32Split(m3, 5, 5);
    Digits32Split(m2, 5, 10);
    Digits32Split(m1, 5, 15);
    Digits32Split(x, 6, 20);
  }

  /** Digits spell a string when each digit's alphabet entry is that string's character. */
  lemma {:induction false} SpellsString(ds: seq<int>, str: string)
    requires AllDigits32(ds) && |ds| == |str|
    requires forall k :: 0 <= k < |ds| ==> Alphabet[ds[k]] == str[k]
    ensures Spell(ds) == Bytes(str)
  {
    AlphabetFacts();
  }

  lemma {:induction false} TestSpellA()
    ensures AllDigits32([31, 23, 31, 27, 15, 30]) && Spell([31, 23, 31, 27, 15, 30]) == Bytes("zqzvfy")
  {
    SpellsString([31, 23, 31, 27, 15, 30], "zqzvfy");
  }

  lemma {:induction false} TestSpellB()
    ensures AllDigits32([15, 31, 26, 15, 30]) && Spell([15, 31, 26, 15, 30]) == Bytes("fztfy")
  {
    SpellsString([15, 31, 26, 15, 30], "fztfy");
  }

  lemma {:induction false} TestSpellC()
    ensures AllDigits32([17, 31, 27, 27, 30]) && Spell([17, 31, 27, 27, 30]) == Bytes("hzvvy")
  {
    SpellsString([17, 31, 27, 27, 30], "hzvvy");
  }

  lemma {:induction false} TestSpellD()
    ensures AllDigits32([21, 7, 29, 7, 15]) && Spell([21, 7, 29, 7, 15]) == Bytes("n7x7f")
  {
    SpellsString([21, 7, 29, 7, 15], "n7x7f");
  }

  lemma {:induction false} TestSpellE()
    ensures AllDigits32([25, 7, 30, 16, 7]) && Spell([25, 7, 30, 16, 7]) == Bytes("s7yg7")
  {
    SpellsString([25, 7, 30, 16, 7], "s7yg7");
  }

  /** Five runs of digits spell the concatenation of the strings they each spell. */
  lemma {:induction false} SpellInFive(a: seq<int>, b: seq<int>, c: seq<int>, d: seq<int>, e: seq<int>,
                    sa: string, sb: string, sc: string, sd: string, se: string, whole: string)
    requires AllDigits32(a) && AllDigits32(b) && AllDigits32(c) && AllDigits32(d) && AllDigits32(e)
    requires Spell(a) == Bytes(sa) && Spell(b) == Bytes(sb) && Spell(c) == Bytes(sc)
    requires Spell(d) == Bytes(sd) && Spell(e) == Bytes(se)
    requires whole == sa + (sb + (sc + (sd + se)))
    ensures AllDigits32(a + (b + (c + (d + e)))) && Spell(a + (b + (c + (d + e)))) == Bytes(whole)
  {
    SpellAppend(d, e);
    SpellAppend(c, d + e);
    SpellAppend(b, c + (d + e));
    SpellAppend(a, b + (c + (d + e)));
    BytesAppend(sd, se);
    BytesAppend(sc, sd + se);
    BytesAppend(sb, sc + (sd + se));
    BytesAppend(sa, sb + (sc + (sd + se)));
  }

  /** The little-endian number of the test payload and its 26 base-32 digits. */
  const TestNumber: nat := 320270990202665973124521174155042619135
  const TestDigits: seq<int> :=
    [31, 23, 31, 27, 15, 30] + ([15, 31, 26, 15, 30] + ([17, 31, 27, 27, 30] + ([21, 7, 29, 7, 15] + [25, 7, 30, 16, 7])))
  const TestText: string := "zqzvfyfztfyhzvvyn7x7fs7yg7"

  lemma {:induction false} TestPayloadDigits()
    ensures Digits32(TestNumber, 26) == TestDigits
  {
    TestDigitsA();
    TestDigitsB();
    TestDigitsC();
    TestDigitsD();
    TestDigitsE();
    TestDropA();
    TestDropB();
    TestDropC();
    TestDropD();
    DigitsInFive(TestNumber, 298275603170195569400229653487, 8889305686062442344433, 264921953858805, 7895289,
      [31, 23, 31, 27, 15, 30], [15, 31, 26, 15, 30], [17, 31, 27, 27, 30], [21, 7, 29, 7, 15], [25, 7, 30, 16, 7]);
  }

  lemma {:induction false} TestString()
    ensures "zqzvfy" + ("fztfy" + ("hzvvy" + ("n7x7f" + "s7yg7"))) == TestText
  {
  }

  lemma {:induction false} TestPayloadSpelled()
    ensures AllDigits32(TestDigits) && Spell(TestDigits) == Bytes(TestText)
  {
    var a, b, c, d, e := [31, 23, 31, 27, 15, 30], [15, 31, 26, 15, 30], [17, 31, 27, 27, 30], [21, 7, 29, 7, 15], [25, 7, 30, 16, 7];
    TestSpellA();
    TestSpellB();
    TestSpellC();
    TestSpellD();
    TestSpellE();
    TestString();
    SpellInFive(a, b, c, d, e, "zqzvfy", "fztfy", "hzvvy", "n7x7f", "s7yg7", TestText);
  }

  lemma {:induction false} EncodedFrom(val: seq<Byte>, n: nat, len: nat, ds: seq<int>, str: string)
    requires |val| > 0 && EncodedLength(|val|) == len && LE256(val) == n && Digits32(n, len) == ds
    requires Spell(ds) == Bytes(str)
    ensures Encoded(val, false) == Bytes(str)
  {
  }

  lemma {:induction false} EncodedWithCheckFrom(val: seq<Byte>, str: string, c: char)
    requires |val| > 0 && Encoded(val, false) == Bytes(str) && EncTable[val[0] % 37] == c as int
    ensures Encoded(val, true) == Bytes(str + [c])
  {
    AlphabetFacts();
    BytesAppend(str, [c]);
  }

  /** The bytes 255, 254, ..., 240 encode to the fixed string of the test suite. */
  lemma {:induction false} TestVector()
    ensures Encoded(TestPayload, false) == Bytes(TestText)
  {
    TestPayloadNumber();
    TestPayloadDigits();
    TestPayloadSpelled();
    TestPayloadShape();
    EncodedFrom(TestPayload, TestNumber, 26, TestDigits, TestText);
  }

  lemma {:induction false} TildeSymbol()
    ensures EncTable[255 % 37] == '~' as int
  {
    AlphabetFacts();
    assert Alphabet[33] == CheckSymbols[1];
  }

  /** With a checksum the same bytes gain `~`, the symbol for 255 mod 37 = 33. */
  lemma {:induction false} TestVectorWithCheckSum()
    ensures Encoded(TestPayload, true) == Bytes(TestText + "~")
  {
    TestVector();
    TestPayloadShape();
    TildeSymbol();
    EncodedWithCheckFrom(TestPayload, TestText, '~');
  }
}
