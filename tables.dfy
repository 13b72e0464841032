/**
 * The symbol tables of the codec: 32 value symbols (digits and lower-case
 * letters without `i`, `l`, `o`, `u`), then 5 check-only symbols. The encode
 * table maps a value 0..36 to its symbol byte; the decode table maps each of
 * the 256 byte values to a value 0..36, or to -1 for an invalid byte.
 */
module Tables {
  import opened Arith

  const ValueSymbols: string := "0123456789abcdefghjkmnpqrstvwxyz"
  const CheckSymbols: string := "*~$=u"
  const Alphabet: string := ValueSymbols + CheckSymbols

  /** The bytes of a string; a character above 255 (none is used) reads as 0. */
  function Bytes(s: string): (b: seq<Byte>)
    ensures |b| == |s| && forall k :: 0 <= k < |s| && s[k] as int < 256 ==> b[k] == s[k] as int
  {
    seq(|s|, k requires 0 <= k < |s| => if s[k] as int < 256 then s[k] as int else 0)
  }

  /** value -> symbol; the last five entries are the check-only symbols */
  const EncTable: seq<Byte> := Bytes(Alphabet)

  predicate IsLowerLetter(c: int)
  {
    'a' as int <= c <= 'z' as int
  }

  /** Position of byte `c` in the alphabet, or -1 when it is not a symbol. */
  function SymbolIndex(c: int): (r: int)
    ensures -1 <= r < |Alphabet|
  {
    IndexFrom(Alphabet, c, 0)
  }

  /** The first position at or after `from` where `s` holds `c`, or -1. */
  function IndexFrom(s: string, c: int, from: nat): (r: int)
    requires from <= |s|
    ensures -1 <= r < |s|
    decreases |s| - from
  {
    if from == |s| then -1
    else if s[from] as int == c then from
    else IndexFrom(s, c, from + 1)
  }

  lemma {:induction false} IndexFromFinds(s: string, c: int, from: nat)
    requires from <= |s|
    ensures var r := IndexFrom(s, c, from);
            (r >= 0 ==> from <= r && s[r] as int == c)
            && (r < 0 ==> forall k :: from <= k < |s| ==> s[k] as int != c)
    decreases |s| - from
  {
    if from < |s| && s[from] as int != c {
      IndexFromFinds(s, c, from + 1);
    }
  }

  /** `SymbolIndex` finds `c` in the alphabet exactly when it is there. */
  lemma {:induction false} SymbolIndexFinds(c: int)
    ensures SymbolIndex(c) >= 0 ==> Alphabet[SymbolIndex(c)] as int == c
    ensures SymbolIndex(c) < 0 ==> forall k :: 0 <= k < |Alphabet| ==> Alphabet[k] as int != c
  {
    IndexFromFinds(Alphabet, c, 0);
  }

  predicate IsOneAlias(c: int)
  {
    c == 'i' as int || c == 'I' as int || c == 'l' as int || c == 'L' as int
  }

  predicate IsZeroAlias(c: int)
  {
    c == 'o' as int || c == 'O' as int
  }

  /**
   * symbol -> value. The aliases win over every other rule; after them a byte
   * decodes to its own position in the alphabet, and a byte 32 above a
   * lower-case letter of the alphabet (0x81..0x9a) decodes like that letter.
   */
  function DecTable(c: Byte): (v: int)
    ensures -1 <= v <= 36
  {
    if IsOneAlias(c) then 1
    else if IsZeroAlias(c) then 0
    else if SymbolIndex(c) >= 0 then SymbolIndex(c)
    else if c >= 32 && IsLowerLetter(c - 32) && SymbolIndex(c - 32) >= 0 then SymbolIndex(c - 32)
    else -1
  }

  /** A byte that may carry data: it decodes to one of the 32 value symbols. */
  predicate IsDataSymbol(c: Byte)
  {
    0 <= DecTable(c) <= 31
  }

  // ----- properties of the tables -----

  /** No symbol lies in the ASCII block 'A'..'_' (upper-case letters and `[\]^_`). */
  predicate OutsideUpperBlock(c: int)
  {
    !('A' as int <= c <= '_' as int)
  }

  lemma {:induction false} ValueSymbolFacts()
    ensures forall k :: 0 <= k < 32 ==>
      ValueSymbols[k] as int < 128 && !IsOneAlias(ValueSymbols[k] as int) && !IsZeroAlias(ValueSymbols[k] as int)
      && OutsideUpperBlock(ValueSymbols[k] as int)
  {
  }

  lemma {:induction false} CheckSymbolFacts()
    ensures forall k :: 0 <= k < 5 ==>
      CheckSymbols[k] as int < 128 && !IsOneAlias(CheckSymbols[k] as int) && !IsZeroAlias(CheckSymbols[k] as int)
      && OutsideUpperBlock(CheckSymbols[k] as int)
    ensures forall i, j :: 0 <= i < j < 5 ==> CheckSymbols[i] != CheckSymbols[j]
  {
  }

  /** The symbols are ASCII, none of them is an alias, and the encode table holds them. */
  lemma {:induction false} AlphabetFacts()
    ensures |Alphabet| == 37 && |EncTable| == 37
    ensures forall k :: 0 <= k < 37 ==> EncTable[k] == Alphabet[k] as int
    ensures forall k :: 0 <= k < 37 ==>
      Alphabet[k] as int < 128 && !IsOneAlias(Alphabet[k] as int) && !IsZeroAlias(Alphabet[k] as int)
  {
    ValueSymbolFacts();
    CheckSymbolFacts();
    assert forall k :: 0 <= k < 37 ==> Alphabet[k] == if k < 32 then ValueSymbols[k] else CheckSymbols[k - 32];
  }

  lemma {:induction false} SymbolFacts(k: int)
    requires 0 <= k < 37
    ensures Alphabet[k] as int < 128 && !IsOneAlias(Alphabet[k] as int) && !IsZeroAlias(Alphabet[k] as int)
    ensures OutsideUpperBlock(Alphabet[k] as int)
  {
    ValueSymbolFacts();
    CheckSymbolFacts();
    if k < 32 {
      assert Alphabet[k] == ValueSymbols[k];
    } else {
      assert Alphabet[k] == CheckSymbols[k - 32];
    }
  }

  lemma {:induction false} ValueSymbolsAscending()
    ensures forall k :: 0 <= k < 31 ==> ValueSymbols[k] < ValueSymbols[k + 1]
  {
  }

  lemma {:induction false} AscendingDistinct(s: string, i: nat, j: nat)
    requires forall k :: 0 <= k < |s| - 1 ==> s[k] < s[k + 1]
    requires i < j < |s|
    ensures s[i] < s[j]
  {
    if i + 1 < j {
      AscendingDistinct(s, i, j - 1);
    }
  }

  lemma {:induction false} ValueAndCheckDiffer()
    ensures forall i, j :: 0 <= i < 32 && 0 <= j < 5 ==> ValueSymbols[i] != CheckSymbols[j]
  {
  }

  lemma {:induction false} AlphabetDistinct()
    ensures forall i, j :: 0 <= i < j < 37 ==> Alphabet[i] != Alphabet[j]
  {
    ValueSymbolsAscending();
    ValueAndCheckDiffer();
    CheckSymbolFacts();
    forall i, j | 0 <= i < j < 37
      ensures Alphabet[i] != Alphabet[j]
    {
      if j < 32 {
        AscendingDistinct(ValueSymbols, i, j);
        assert Alphabet[i] == ValueSymbols[i] && Alphabet[j] == ValueSymbols[j];
      } else if i < 32 {
        assert Alphabet[i] == ValueSymbols[i] && Alphabet[j] == CheckSymbols[j - 32];
      } else {
        assert Alphabet[i] == CheckSymbols[i - 32] && Alphabet[j] == CheckSymbols[j - 32];
      }
    }
  }

  lemma {:induction false} SymbolIndexOfSymbol(i: int)
    requires 0 <= i < 37
    ensures SymbolIndex(Alphabet[i] as int) == i
  {
    AlphabetDistinct();
    SymbolIndexFinds(Alphabet[i] as int);
    var r := SymbolIndex(Alphabet[i] as int);
    assert r >= 0 && Alphabet[r] == Alphabet[i];
  }

  /** The decode table inverts the encode table on all 37 symbols, so the symbols are distinct. */
  lemma {:induction false} DecodesEncTable(i: int)
    requires 0 <= i < 37
    ensures DecTable(EncTable[i]) == i
    ensures i < 32 <==> IsDataSymbol(EncTable[i])
  {
    AlphabetFacts();
    SymbolIndexOfSymbol(i);
  }

  /** `i`, `I`, `l`, `L` read as the symbol for 1; `o`, `O` as the symbol for 0. */
  lemma {:induction false} AliasesDecode()
    ensures DecTable('i' as int) == 1 && DecTable('I' as int) == 1
    ensures DecTable('l' as int) == 1 && DecTable('L' as int) == 1
    ensures DecTable('o' as int) == 0 && DecTable('O' as int) == 0
    ensures DecTable('1' as int) == 1 && DecTable('0' as int) == 0
  {
    SymbolIndexOfSymbol(0);
    SymbolIndexOfSymbol(1);
  }

  /** A byte 32 above a lower-case symbol decodes like that symbol. */
  lemma {:induction false} ShiftedLetterDecodes(c: Byte)
    requires IsLowerLetter(c) && SymbolIndex(c) >= 0
    ensures DecTable(c + 32) == DecTable(c)
  {
    SymbolIndexFinds(c);
    SymbolFacts(SymbolIndex(c));
    NonAsciiNoSymbol(c + 32);
  }

  /**
   * Upper-case letters other than I, L and O are not symbols: the table's
   * second copy of each letter sits at 0x81..0x9a, not at 'A'..'Z'.
   */
  lemma {:induction false} UpperCaseRejected(c: Byte)
    requires 'A' as int <= c <= 'Z' as int && !IsOneAlias(c) && !IsZeroAlias(c)
    ensures DecTable(c) == -1
  {
    SymbolIndexFinds(c);
    if SymbolIndex(c) >= 0 {
      SymbolFacts(SymbolIndex(c));
    }
  }

  /** `_` is not a symbol. */
  lemma {:induction false} UnderscoreRejected()
    ensures DecTable('_' as int) == -1
  {
    SymbolIndexFinds('_' as int);
    if SymbolIndex('_' as int) >= 0 {
      SymbolFacts(SymbolIndex('_' as int));
    }
  }

  /** Every byte that decodes is a symbol, an alias, or a shifted lower-case symbol. */
  lemma {:induction false} DecodableBytes(c: Byte)
    requires DecTable(c) != -1
    ensures (exists k :: 0 <= k < 37 && EncTable[k] == c)
         || IsOneAlias(c) || IsZeroAlias(c)
         || (0x81 <= c <= 0x9a && exists k :: 0 <= k < 37 && EncTable[k] == c - 32)
  {
    AlphabetFacts();
    SymbolIndexFinds(c);
    SymbolIndexFinds(c - 32);
    if !IsOneAlias(c) && !IsZeroAlias(c) {
      if SymbolIndex(c) >= 0 {
        assert EncTable[SymbolIndex(c)] == c;
      } else {
        assert EncTable[SymbolIndex(c - 32)] == c - 32;
      }
    }
  }

  // ----- the tables as the source builds them -----

  /** The table filled from the first `n` symbols of the alphabet, before the aliases. */
  ghost function PartialDec(n: nat, c: int): int
  {
    if 0 <= SymbolIndex(c) < n then SymbolIndex(c)
    else if c >= 32 && IsLowerLetter(c - 32) && 0 <= SymbolIndex(c - 32) < n then SymbolIndex(c - 32)
    else -1
  }

  lemma {:induction false} StepAtSymbol(i: nat, c: int)
    requires i < 37 && c == Alphabet[i] as int
    ensures PartialDec(i + 1, c) == i
  {
    SymbolIndexOfSymbol(i);
  }

  lemma {:induction false} NonAsciiNoSymbol(c: int)
    requires c >= 128
    ensures SymbolIndex(c) == -1
  {
    var r := SymbolIndex(c);
    if r >= 0 {
      SymbolIndexFinds(c);
      SymbolFacts(r);
    }
  }

  lemma {:induction false} StepAtShifted(i: nat, c: int)
    requires i < 37 && IsLowerLetter(Alphabet[i] as int) && c == Alphabet[i] as int + 32
    ensures PartialDec(i + 1, c) == i
  {
    SymbolIndexOfSymbol(i);
    assert SymbolIndex(c - 32) == i;
    NonAsciiNoSymbol(c);
  }

  lemma {:induction false} StepElsewhere(i: nat, c: int)
    requires i < 37 && c != Alphabet[i] as int
    requires !(IsLowerLetter(Alphabet[i] as int) && c == Alphabet[i] as int + 32)
    ensures PartialDec(i + 1, c) == PartialDec(i, c)
  {
    SymbolIndexFinds(c);
    SymbolIndexFinds(c - 32);
    assert SymbolIndex(c) != i;
    assert c >= 32 && IsLowerLetter(c - 32) ==> SymbolIndex(c - 32) != i;
  }

  /** Filling in symbol `i` changes the entries for that symbol and its shifted copy only. */
  lemma {:induction false} PartialDecStep(i: nat, c: int)
    requires i < 37
    ensures PartialDec(i + 1, c) ==
      if c == Alphabet[i] as int then i
      else if IsLowerLetter(Alphabet[i] as int) && c == Alphabet[i] as int + 32 then i
      else PartialDec(i, c)
  {
    var sym := Alphabet[i] as int;
    if c == sym {
      StepAtSymbol(i, c);
    } else if IsLowerLetter(sym) && c == sym + 32 {
      StepAtShifted(i, c);
    } else {
      StepElsewhere(i, c);
    }
  }

  lemma {:induction false} PartialDecComplete(c: Byte)
    ensures DecTable(c) ==
      if IsOneAlias(c) then 1 else if IsZeroAlias(c) then 0 else PartialDec(37, c)
  {
  }

  /** A 256-entry table holding the first `n` symbols and nothing else. */
  ghost predicate FilledUpTo(t: seq<int>, n: nat)
  {
    |t| == 256 && forall c :: 0 <= c < 256 ==> t[c] == PartialDec(n, c)
  }

  /** Symbol `i` goes in at its own byte and, for a letter, 32 bytes higher. */
  ghost function AddSymbol(t: seq<int>, i: nat): seq<int>
    requires i < 37 && |t| == 256
  {
    SymbolFacts(i);
    var sym := Alphabet[i] as int;
    if IsLowerLetter(sym) then t[sym := i][sym + 32 := i] else t[sym := i]
  }

  lemma {:induction false} AddSymbolStep(t: seq<int>, i: nat)
    requires i < 37 && FilledUpTo(t, i)
    ensures FilledUpTo(AddSymbol(t, i), i + 1)
  {
    var sym, u := Alphabet[i] as int, AddSymbol(t, i);
    forall c | 0 <= c < 256
      ensures u[c] == PartialDec(i + 1, c)
    {
      PartialDecStep(i, c);
    }
  }

  /** The six alias entries, written last. */
  ghost function AddAliases(t: seq<int>): seq<int>
    requires |t| == 256
  {
    t['i' as int := 1]['I' as int := 1]['l' as int := 1]['L' as int := 1]['o' as int := 0]['O' as int := 0]
  }

  lemma {:induction false} AddAliasesComplete(t: seq<int>)
    requires FilledUpTo(t, 37)
    ensures |AddAliases(t)| == 256 && forall c :: 0 <= c < 256 ==> AddAliases(t)[c] == DecTable(c)
  {
    forall c | 0 <= c < 256
      ensures AddAliases(t)[c] == DecTable(c)
    {
      PartialDecComplete(c);
    }
  }

  /**
   * Builds both tables in place: the encode table from the alphabet, the
   * decode table as all -1, then every symbol and its shifted lower-case copy,
   * then the six aliases last.
   */
  method Init() returns (encTable: array<Byte>, decTable: array<int>)
    ensures encTable.Length == 37 && encTable[..] == EncTable
    ensures decTable.Length == 256
    ensures forall c :: 0 <= c < 256 ==> decTable[c] == DecTable(c)
  {
    assert |Alphabet| == 37 && |EncTable| == 37;
    encTable := new Byte[37];
    for i := 0 to 37
      invariant forall k :: 0 <= k < i ==> encTable[k] == EncTable[k]
    {
      SymbolFacts(i);
      encTable[i] := Alphabet[i] as int;
    }
    assert encTable[..] == EncTable;
    decTable := new int[256];
    for i := 0 to 256
      modifies decTable
      invariant forall c :: 0 <= c < i ==> decTable[c] == -1
    {
      decTable[i] := -1;
    }
    assert FilledUpTo(decTable[..], 0);
    for i := 0 to 37
      modifies decTable
      invariant FilledUpTo(decTable[..], i)
    {
      ghost var before := decTable[..];
      SymbolFacts(i);
      var sym := Alphabet[i] as int;
      decTable[sym] := i;
      if IsLowerLetter(sym) {
        decTable[sym + 32] := i;
      }
      assert decTable[..] == AddSymbol(before, i);
      AddSymbolStep(before, i);
    }
    ghost var filled := decTable[..];
    decTable['i' as int] := 1;
    decTable['I' as int] := 1;
    decTable['l' as int] := 1;
    decTable['L' as int] := 1;
    decTable['o' as int] := 0;
    decTable['O' as int] := 0;
    assert decTable[..] == AddAliases(filled);
    AddAliasesComplete(filled);
  }
}
