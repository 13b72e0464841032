/**
 * How `encode` and `decode` relate. Decoding what was encoded gives the
 * payload back; the other direction holds only for the canonical spelling,
 * since the decoder also takes aliases, shifted letters and fewer symbols
 * than the encoder writes.
 */
module RoundTrip {
  import opened Arith
  import opened Tables
  import opened Encoding
  import opened Decoding

  /** The first `k` symbols of an encoding are data and spell the payload's low `5k` bits. */
  lemma {:induction false} EncodedPrefix(val: seq<Byte>, withCheckSum: bool, k: nat)
    requires |val| > 0 && k <= EncodedLength(|val|)
    ensures k <= |Encoded(val, withCheckSum)| && DataPrefix(Encoded(val, withCheckSum), k)
    ensures PrefixNumber(Encoded(val, withCheckSum), k) == LE256(val) % Pow2(5 * k)
  {
    EncodedShape(val, withCheckSum);
    if k > 0 {
      var s := Encoded(val, withCheckSum);
      EncodedPrefix(val, withCheckSum, k - 1);
      EncodedSymbol(val, withCheckSum, k - 1);
      assert IsDataSymbol(s[k - 1]);
      assert DataPrefix(s, k);
      ShiftLeftIsProduct(DecTable(s[k - 1]), 5 * (k - 1));
      Pow2Symbol(k - 1);
      NextDigit(LE256(val), Pow2(5 * (k - 1)));
    }
  }

  /** Adding base-32 digit `k` to the low `5k` bits gives the low `5(k+1)` bits. */
  lemma {:induction false} NextDigit(x: nat, p: int)
    requires p > 0
    ensures x % p + (x / p % 32) * p == x % (32 * p)
  {
    ModMul(x, p, 32);
  }

  /** A number below the modulus is its own remainder. */
  lemma {:induction false} ModBelow(x: nat, m: int)
    requires x < m
    ensures x % m == x
  {
    DivModUnique(x, m, 0, x);
  }

  /** The encoding of a non-empty payload decodes into `|val|` bytes, to the payload's number. */
  lemma {:induction false} EncodedDecodable(val: seq<Byte>, withCheckSum: bool)
    requires |val| > 0
    ensures Decodable(Encoded(val, withCheckSum), |val|, withCheckSum)
    ensures DecodedNumber(Encoded(val, withCheckSum), withCheckSum) == LE256(val)
    ensures withCheckSum ==> CheckSymbolMatches(Encoded(val, withCheckSum))
  {
    var s, len := Encoded(val, withCheckSum), EncodedLength(|val|);
    EncodedShape(val, withCheckSum);
    assert DataLength(s, withCheckSum) == len;
    EncodedPrefix(val, withCheckSum, len);
    LE256Bound(val);
    Pow2Monotone(8 * |val|, 5 * len);
    ModBelow(LE256(val), Pow2(5 * len));
    if withCheckSum {
      LE256FirstByte(val);
      DecodesEncTable(val[0] % 37);
    }
  }

  /**
   * Encoding a payload and decoding the result into a buffer of the payload's
   * length gives the payload back; only the empty payload fails, because its
   * encoding is empty.
   */
  method EncodeThenDecode(val: seq<Byte>, withCheckSum: bool) returns (ok: bool, decoded: seq<Byte>)
    ensures ok <==> |val| > 0
    ensures ok ==> decoded == val
  {
    var s := Encode(val, withCheckSum);
    var dest := new Byte[|val|](_ => 0);
    EncodedShape(val, withCheckSum);
    if |val| > 0 {
      EncodedDecodable(val, withCheckSum);
      BytesAreDigits(val);
    }
    ok := Decode(s, dest, withCheckSum);
    decoded := dest[..];
  }

  // ----- spellings with the same values -----

  /** Two texts whose symbols decode to the same values spell the same prefixes. */
  lemma {:induction false} SameValuesSamePrefix(a: seq<Byte>, b: seq<Byte>, i: nat)
    requires |a| == |b| && i <= |a|
    requires forall k :: 0 <= k < |a| ==> DecTable(a[k]) == DecTable(b[k])
    ensures DataPrefix(a, i) == DataPrefix(b, i) && PrefixNumber(a, i) == PrefixNumber(b, i)
  {
    if i > 0 {
      SameValuesSamePrefix(a, b, i - 1);
      assert DataPrefix(a, i) == (DataPrefix(a, i - 1) && IsDataSymbol(a[i - 1]));
      assert DataPrefix(b, i) == (DataPrefix(b, i - 1) && IsDataSymbol(b[i - 1]));
    }
  }

  /**
   * Decoding looks only at the values of the symbols: a text with an alias
   * (`i`, `I`, `l`, `L` for `1`; `o`, `O` for `0`) or a shifted letter in
   * place of a symbol decodes exactly as the text with that symbol does.
   */
  lemma {:induction false} AliasSpellingDecodesAlike(a: seq<Byte>, b: seq<Byte>, len: nat, withCheckSum: bool)
    requires |a| == |b|
    requires forall k :: 0 <= k < |a| ==> DecTable(a[k]) == DecTable(b[k])
    ensures Decodable(a, len, withCheckSum) == Decodable(b, len, withCheckSum)
    ensures Decodable(a, len, withCheckSum) ==>
              DecodedNumber(a, withCheckSum) == DecodedNumber(b, withCheckSum)
    ensures withCheckSum && Decodable(a, len, true) ==> CheckSymbolMatches(a) == CheckSymbolMatches(b)
  {
    var n := DataLength(a, withCheckSum);
    if n >= 0 {
      SameValuesSamePrefix(a, b, n);
    }
  }

  /** The alias `o` in place of the symbol `0`, in a text the decoder takes. */
  lemma {:induction false} ZeroAliasDecodesAlike(a: seq<Byte>, k: nat, len: nat, withCheckSum: bool)
    requires k < |a| && a[k] == '0' as int
    ensures Decodable(a[k := 'o' as int], len, withCheckSum) == Decodable(a, len, withCheckSum)
    ensures Decodable(a, len, withCheckSum) ==>
              DecodedNumber(a[k := 'o' as int], withCheckSum) == DecodedNumber(a, withCheckSum)
  {
    AliasesDecode();
    var b := a[k := 'o' as int];
    assert forall j :: 0 <= j < |b| ==> DecTable(b[j]) == DecTable(a[j]);
    AliasSpellingDecodesAlike(b, a, len, withCheckSum);
  }

  // ----- decoding, then encoding -----

  /** The symbols from `k` on add a multiple of `2^(5k)` to the number the first `k` spell. */
  lemma {:induction false} PrefixNumberHigh(src: seq<Byte>, k: nat, n: nat) returns (high: nat)
    requires k <= n <= |src| && DataPrefix(src, n)
    ensures PrefixNumber(src, n) == PrefixNumber(src, k) + Pow2(5 * k) * high
    decreases n - k
  {
    if n == k {
      high := 0;
    } else {
      var rest := PrefixNumberHigh(src, k, n - 1);
      var d, q := DecTable(src[n - 1]), Pow2(5 * (n - 1 - k));
      ShiftLeftIsProduct(d, 5 * (n - 1));
      Pow2Add(5 * k, 5 * (n - 1 - k));
      high := rest + d * q;
      GatherHigh(PrefixNumber(src, k), Pow2(5 * k), rest, d, q);
    }
  }

  lemma {:induction false} GatherHigh(low: int, p: int, rest: int, d: int, q: int)
    ensures low + p * rest + d * (p * q) == low + p * (rest + d * q)
  {
    Assoc(d, p, q);
    Distrib(p, rest, d * q);
  }

  /** Symbol `k` of a data run is base-32 digit `k` of the number the run spells. */
  lemma {:induction false} PrefixNumberDigit(src: seq<Byte>, n: nat, k: nat)
    requires k < n <= |src| && DataPrefix(src, n)
    ensures PrefixNumber(src, n) / Pow2(5 * k) % 32 == DecTable(src[k])
  {
    var high := PrefixNumberHigh(src, k + 1, n);
    PrefixNumberBound(src, k);
    ShiftLeftIsProduct(DecTable(src[k]), 5 * k);
    Pow2Symbol(k);
    DigitAt(PrefixNumber(src, n), PrefixNumber(src, k), Pow2(5 * k), DecTable(src[k]), high);
  }

  /** A digit between the low part and a multiple of `32p` is recovered by `/ p % 32`. */
  lemma {:induction false} DigitAt(x: int, low: int, p: int, d: int, high: int)
    requires p > 0 && 0 <= low < p && 0 <= d < 32
    requires x == low + d * p + (32 * p) * high
    ensures x / p % 32 == d
  {
    Assoc(p, 32, high);
    Distrib(p, d, 32 * high);
    DivModUnique(x, p, d + 32 * high, low);
    DivModUnique(d + 32 * high, 32, high, d);
  }

  /** A symbol as the encoder writes it: the encode table's entry for its own value. */
  predicate IsCanonical(c: Byte)
  {
    0 <= DecTable(c) <= 31 && EncTable[DecTable(c)] == c
  }

  /**
   * A decodable text of exactly the encoder's length whose symbols are all
   * canonical is the encoding of the bytes it decodes to.
   */
  lemma {:induction false} CanonicalDecodeThenEncode(src: seq<Byte>, len: nat)
    requires |src| == EncodedLength(len) && Decodable(src, len, false)
    requires forall k :: 0 <= k < |src| ==> IsCanonical(src[k])
    ensures Encoded(Digits256(DecodedNumber(src, false), len), false) == src
  {
    var x := DecodedNumber(src, false);
    var val := Digits256(x, len);
    Digits256Value(x, len);
    ModBelow(x, Pow2(8 * len));
    var ds := Digits32(x, |src|);
    var enc := Encoded(val, false);
    assert enc == Spell(ds);
    forall k | 0 <= k < |src|
      ensures enc[k] == src[k]
    {
      Digits32At(x, |src|, k);
      PrefixNumberDigit(src, |src|, k);
    }
  }

  /**
   * The decoder takes any number of symbols that reaches into the last byte,
   * the missing high bits read as zero: `zz` decodes into the two bytes 255, 3,
   * whose encoding is `zz00`.
   */
  lemma {:induction false} ShortSpellingAccepted()
    ensures Decodable(Bytes("zz"), 2, false) && DecodedNumber(Bytes("zz"), false) == 1023
    ensures Digits256(1023, 2) == [255, 3] && Encoded([255, 3], false) == Bytes("zz00")
  {
    AlphabetFacts();
    DecodesEncTable(31);
    Pow2Small();
    var s := Bytes("zz");
    assert s == [EncTable[31], EncTable[31]];
    ShiftLeftIsProduct(31, 0);
    ShiftLeftIsProduct(31, 5);
    assert PrefixNumber(s, 2) == 1023;
    LongSpelling();
  }

  lemma {:induction false} LongSpelling()
    ensures Digits256(1023, 2) == [255, 3] && Encoded([255, 3], false) == Bytes("zz00")
  {
    LongSpellingNumber();
    LongSpellingDigits();
    EncodedFrom([255, 3], 1023, 4, [31, 31, 0, 0], "zz00");
  }

  lemma {:induction false} LongSpellingNumber()
    ensures Digits256(1023, 2) == [255, 3] && LE256([255, 3]) == 1023
  {
    assert [255, 3][1..] == [3];
    assert [3][1..] == [];
  }

  lemma {:induction false} LongSpellingDigits()
    ensures Digits32(1023, 4) == [31, 31, 0, 0] && Spell([31, 31, 0, 0]) == Bytes("zz00")
  {
    AlphabetFacts();
    SpellsString([31, 31, 0, 0], "zz00");
  }
}
