/**
 * `VerifyCheckSum`: a read-only scan of a text with a check symbol. Every
 * symbol must decode, only the last may be a check-only symbol, and the last
 * must name the low byte of the number the data symbols spell, modulo 37.
 * Only the first two data symbols reach that low byte.
 */
module CheckSum {
  import opened Arith
  import opened Tables
  import opened Encoding
  import opened Decoding
  import opened RoundTrip

  /** The low byte as the checker computes it from the first two symbols (`lo | hi << 5`). */
  function LowByte(src: seq<Byte>): int
    requires |src| >= 2
  {
    var lo := DecTable(src[0]);
    var hi := if |src| == 2 then 0 else DecTable(src[1]);
    (lo + 32 * hi) % 256
  }

  /** The text is accepted: long enough, every symbol valid in its place, and the check symbol right. */
  predicate CheckSumHolds(src: seq<Byte>)
  {
    |src| >= 2
    && (forall k :: 0 <= k < |src| ==> 0 <= DecTable(src[k]))
    && (forall k :: 0 <= k < |src| - 1 ==> DecTable(src[k]) <= 31)
    && LowByte(src) % 37 == DecTable(src[|src| - 1])
  }

  method VerifyCheckSum(src: seq<Byte>) returns (ok: bool)
    ensures ok == CheckSumHolds(src)
  {
    if |src| < 2 {
      return false;
    }
    var i := 0;
    while i < |src|
      invariant i <= |src|
      invariant forall k :: 0 <= k < i ==> 0 <= DecTable(src[k])
      invariant forall k :: 0 <= k < i && k < |src| - 1 ==> DecTable(src[k]) <= 31
    {
      var dv := DecTable(src[i]);
      if dv < 0 {
        return false;
      }
      if dv > 31 {
        if i < |src| - 1 || dv > 36 {
          return false;
        }
      }
      i := i + 1;
    }
    var lo := DecTable(src[0]);
    var hi := if |src| == 2 then 0 else DecTable(src[1]);
    ok := (lo + hi * 32) % 256 % 37 == DecTable(src[|src| - 1]);
  }

  // ----- agreement with the decoder -----

  /** The low byte of the decoded number depends only on the first two data symbols. */
  lemma {:induction false} LowByteOfDecodedNumber(src: seq<Byte>)
    requires |src| >= 2 && DataPrefix(src, |src| - 1)
    ensures DecodedNumber(src, true) % 256 == LowByte(src)
  {
    var n := |src| - 1;
    var lo := DecTable(src[0]);
    ShiftLeftIsProduct(lo, 0);
    assert PrefixNumber(src, 1) == lo;
    if n >= 2 {
      var hi := DecTable(src[1]);
      ShiftLeftIsProduct(hi, 5);
      Pow2Small();
      assert PrefixNumber(src, 2) == lo + 32 * hi;
      var high := PrefixNumberHigh(src, 2, n);
      Pow2Add(5, 5);
      DivAddMultiple(lo + 32 * hi, 256, 4 * high);
    }
  }

  /**
   * The checker accepts exactly the texts whose symbols before the last are
   * data and whose last symbol `DecodeWithCheckSum` would accept as the check.
   */
  lemma {:induction false} CheckSumMatchesDecoder(src: seq<Byte>)
    ensures CheckSumHolds(src) <==>
      |src| >= 2 && DataPrefix(src, |src| - 1) && CheckSymbolMatches(src)
  {
    if |src| >= 2 && DataPrefix(src, |src| - 1) {
      LowByteOfDecodedNumber(src);
    }
  }

  /** Whatever `EncodeWithCheckSum` writes passes the check. */
  lemma {:induction false} EncodedPassesCheck(val: seq<Byte>)
    requires |val| > 0
    ensures CheckSumHolds(Encoded(val, true))
  {
    EncodedShape(val, true);
    EncodedDecodable(val, true);
    CheckSumMatchesDecoder(Encoded(val, true));
  }

  // ----- what the check catches -----

  /** Two different 5-bit values under the same high part give different check values. */
  lemma {:induction false} CheckValuesDiffer(u: int, v: int, hi: int)
    requires 0 <= u < 32 && 0 <= v < 32 && u != v && 0 <= hi < 32
    ensures (u + 32 * hi) % 256 % 37 != (v + 32 * hi) % 256 % 37
  {
    var h := 32 * (hi % 8);
    DivModUnique(u + 32 * hi, 256, hi / 8, u + h);
    DivModUnique(v + 32 * hi, 256, hi / 8, v + h);
    if (u + h) % 37 == (v + h) % 37 {
      DivModUnique(u - v, 37, (u + h) / 37 - (v + h) / 37, 0);
    }
  }

  /** Replacing the first symbol by one of another value makes a passing text fail. */
  lemma {:induction false} FirstSymbolChangeDetected(src: seq<Byte>, c: Byte)
    requires CheckSumHolds(src) && DecTable(c) != DecTable(src[0])
    ensures !CheckSumHolds(src[0 := c])
  {
    var t := src[0 := c];
    if CheckSumHolds(t) {
      assert 0 <= DecTable(t[0]) <= 31;
      var hi := if |src| == 2 then 0 else DecTable(src[1]);
      if |src| > 2 {
        assert 0 <= DecTable(src[1]) <= 31;
        assert t[1] == src[1];
      }
      assert t[|t| - 1] == src[|src| - 1];
      CheckValuesDiffer(DecTable(c), DecTable(src[0]), hi);
      assert false;
    }
  }

  /** Replacing the check symbol by one of another value makes a passing text fail. */
  lemma {:induction false} CheckSymbolChangeDetected(src: seq<Byte>, c: Byte)
    requires CheckSumHolds(src) && DecTable(c) != DecTable(src[|src| - 1])
    ensures !CheckSumHolds(src[|src| - 1 := c])
  {
    var t := src[|src| - 1 := c];
    assert t[0] == src[0];
    if |src| > 2 {
      assert t[1] == src[1];
    }
  }

  /** A text is rejected when any symbol is invalid or a check-only symbol is not last. */
  lemma {:induction false} MisplacedSymbolRejected(src: seq<Byte>, k: nat)
    requires k < |src|
    requires DecTable(src[k]) < 0 || (k < |src| - 1 && DecTable(src[k]) > 31)
    ensures !CheckSumHolds(src)
  {
  }

  // ----- the cases the repository's test exercises -----

  /** A payload whose first byte is 0: its first symbol is the symbol for 0. */
  lemma {:induction false} FirstSymbolOfZeroByte(val: seq<Byte>)
    requires |val| > 0 && val[0] == 0
    ensures DecTable(Encoded(val, true)[0]) == 0
  {
    EncodedShape(val, true);
    EncodedSymbol(val, true, 0);
    LE256FirstByte(val);
    LowSymbolOfLowByte(LE256(val));
  }

  lemma {:induction false} LowSymbolOfLowByte(x: nat)
    requires x % 256 == 0
    ensures x / Pow2(5 * 0) % 32 == 0
  {
    assert Pow2(0) == 1;
    DivModUnique(x, 1, x, 0);
    DivModUnique(x, 256, x / 256, 0);
    DivModUnique(x, 32, 8 * (x / 256), 0);
  }

  /**
   * A payload starting with a zero byte encodes to a text that passes, and
   * putting `_` or `a` in place of its first symbol makes it fail.
   */
  lemma {:induction false} FirstSymbolTampered(val: seq<Byte>)
    requires |val| > 0 && val[0] == 0
    ensures var enc := Encoded(val, true);
      CheckSumHolds(enc) && !CheckSumHolds(enc[0 := '_' as int]) && !CheckSumHolds(enc[0 := 'a' as int])
  {
    var enc := Encoded(val, true);
    EncodedPassesCheck(val);
    FirstSymbolOfZeroByte(val);
    UnderscoreRejected();
    MisplacedSymbolRejected(enc[0 := '_' as int], 0);
    AlphabetFacts();
    DecodesEncTable(10);
    assert EncTable[10] == 'a' as int;
    FirstSymbolChangeDetected(enc, 'a' as int);
  }

  /** The payloads of the repository's checksum test: `[0]`, and `[0, 154, 0, 0, 0]` tampered with. */
  lemma {:induction false} VerifyCheckSumCases()
    ensures CheckSumHolds(Encoded([0], true))
    ensures var enc := Encoded([0, 154, 0, 0, 0], true);
      CheckSumHolds(enc) && !CheckSumHolds(enc[0 := '_' as int]) && !CheckSumHolds(enc[0 := 'a' as int])
  {
    FirstSymbolTampered([0]);
    FirstSymbolTampered([0, 154, 0, 0, 0]);
  }

  /** The repository's test vector with its check symbol passes. */
  lemma {:induction false} TestVectorPasses()
    ensures CheckSumHolds(Bytes(TestText + "~"))
  {
    TestPayloadShape();
    TestVectorWithCheckSum();
    EncodedPassesCheck(TestPayload);
  }
}
