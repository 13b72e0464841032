/**
 * The decoder: reads value symbols into a bit buffer, least-significant bits
 * first, and writes a byte into the caller's destination each time eight bits
 * are available. It stops when the input or the destination runs out; the
 * call succeeds only when every data symbol was used, the destination was
 * filled exactly and no set bit was left over. With a checksum the last
 * symbol is not data: it must name the first decoded byte modulo 37.
 */
module Decoding {
  import opened Arith
  import opened Tables
  import opened Encoding

  /** How many symbols carry data: all of them, or all but the last. */
  function DataLength(src: seq<Byte>, withCheckSum: bool): int
  {
    if withCheckSum then |src| - 1 else |src|
  }

  /** The first `i` symbols of `src` are all data symbols. */
  predicate DataPrefix(src: seq<Byte>, i: nat)
    requires i <= |src|
  {
    forall k :: 0 <= k < i ==> IsDataSymbol(src[k])
  }

  /** The number the first `i` symbols of `src` spell, least significant symbol first. */
  function PrefixNumber(src: seq<Byte>, i: nat): int
    requires i <= |src|
  {
    if i == 0 then 0 else PrefixNumber(src, i - 1) + ShiftLeft(DecTable(src[i - 1]), 5 * (i - 1))
  }

  /** Data symbols spell a number of five bits per symbol. */
  lemma {:induction false} PrefixNumberBound(src: seq<Byte>, i: nat)
    requires i <= |src| && DataPrefix(src, i)
    ensures 0 <= PrefixNumber(src, i) < Pow2(5 * i)
  {
    if i > 0 {
      PrefixNumberBound(src, i - 1);
      ShiftLeftIsProduct(DecTable(src[i - 1]), 5 * (i - 1));
      Pow2Symbol(i - 1);
      BelowNext(PrefixNumber(src, i - 1), DecTable(src[i - 1]), Pow2(5 * (i - 1)));
    }
  }

  /** The number of data symbols at the front of `src[from..n]`, counted from 0. */
  function DataRunFrom(src: seq<Byte>, n: nat, from: nat): (r: nat)
    requires from <= n <= |src| && DataPrefix(src, from)
    ensures from <= r <= n && DataPrefix(src, r)
    ensures r < n ==> !IsDataSymbol(src[r])
    decreases n - from
  {
    if from == n || !IsDataSymbol(src[from]) then from
    else DataRunFrom(src, n, from + 1)
  }

  /** How far the data symbols reach: the first symbol of the data part that is not data, or its end. */
  function DataSymbolsRead(src: seq<Byte>, withCheckSum: bool): nat
  {
    var n := DataLength(src, withCheckSum);
    DataRunFrom(src, if n < 0 then 0 else n, 0)
  }

  /**
   * `n` symbols fill `len` bytes exactly: the last byte is reached, and at
   * most four bits are left over past it. Whether those bits are zero is
   * the bound on the decoded number in `Decodable`.
   */
  predicate LengthFits(n: int, len: nat)
  {
    5 * n <= 8 * len + 4 && 8 * len <= 5 * n + 7
  }

  /** The number the data symbols of `src` spell. */
  function DecodedNumber(src: seq<Byte>, withCheckSum: bool): nat
    requires 0 <= DataLength(src, withCheckSum) && DataPrefix(src, DataLength(src, withCheckSum))
  {
    var n := DataLength(src, withCheckSum);
    PrefixNumberBound(src, n);
    PrefixNumber(src, n)
  }

  /** The data symbols decode into `len` bytes without a failure. */
  predicate Decodable(src: seq<Byte>, len: nat, withCheckSum: bool)
  {
    var n := DataLength(src, withCheckSum);
    n >= 1 && DataPrefix(src, n) && LengthFits(n, len)
    && DecodedNumber(src, withCheckSum) < Pow2(8 * len)
  }

  /** The check symbol names the low byte of the decoded number, modulo 37. */
  predicate CheckSymbolMatches(src: seq<Byte>)
    requires 1 <= |src| && DataPrefix(src, |src| - 1)
  {
    DecodedNumber(src, true) % 256 % 37 == DecTable(src[|src| - 1])
  }

  // ----- the state of the decoding loop -----

  /**
   * The `i` symbols read so far are all data, and the number they spell is
   * the bytes in `written` followed by the bits in `bitbuf`.
   */
  ghost predicate Spells(src: seq<Byte>, i: nat, written: seq<Byte>, bitbuf: nat)
  {
    i <= |src| && DataPrefix(src, i)
    && PrefixNumber(src, i) == LE256(written) + ShiftLeft(bitbuf, 8 * |written|)
  }

  /**
   * What holds at the head of the decoding loop after `i` symbols: `written`
   * holds the completed bytes and `bitbuf` the `nbits` < 8 bits read but not
   * yet written.
   */
  ghost predicate LoopState(src: seq<Byte>, i: nat, written: seq<Byte>, bitbuf: nat, nbits: nat)
  {
    Spells(src, i, written, bitbuf)
    && 5 * i == 8 * |written| + nbits && nbits < 8 && bitbuf < Pow2(nbits)
  }

  /** `bitbuf |= v << nbits` puts `v` just above the bits already buffered. */
  lemma {:induction false} AbsorbBound(bitbuf: nat, nbits: nat, v: nat)
    requires v < 32 && bitbuf < Pow2(nbits)
    ensures bitbuf + ShiftLeft(v, nbits) < Pow2(nbits + 5)
  {
    ShiftLeftIsProduct(v, nbits);
    Pow2Add(5, nbits);
    Pow2Small();
    BelowNext(bitbuf, v, Pow2(nbits));
  }

  lemma {:induction false} AbsorbValue(bitbuf: nat, nbits: nat, v: nat, di: nat, i: nat)
    requires 5 * i == 8 * di + nbits
    ensures ShiftLeft(bitbuf + ShiftLeft(v, nbits), 8 * di) == ShiftLeft(bitbuf, 8 * di) + ShiftLeft(v, 5 * i)
  {
    ShiftLeftIsProduct(v, nbits);
    ShiftLeftIsProduct(bitbuf + ShiftLeft(v, nbits), 8 * di);
    ShiftLeftIsProduct(bitbuf, 8 * di);
    ShiftLeftIsProduct(v, 5 * i);
    Pow2Add(8 * di, nbits);
    ShiftIn(bitbuf, v, Pow2(nbits), Pow2(8 * di));
  }

  /** Writing `bitbuf & 0xFF` and shifting right by 8 moves eight bits into the byte string. */
  lemma {:induction false} EmitBound(bitbuf: nat, nbits: nat)
    requires 8 <= nbits && bitbuf < Pow2(nbits)
    ensures bitbuf / 256 < Pow2(nbits - 8)
  {
    Pow2Add(8, nbits - 8);
    Pow2Small();
    DivBelow(bitbuf, 256, Pow2(nbits - 8));
  }

  lemma {:induction false} EmitValue(bitbuf: nat, di: nat)
    ensures ShiftLeft(bitbuf, 8 * di) == ShiftLeft(bitbuf % 256, 8 * di) + ShiftLeft(bitbuf / 256, 8 * (di + 1))
  {
    ShiftLeftIsProduct(bitbuf, 8 * di);
    ShiftLeftIsProduct(bitbuf % 256, 8 * di);
    ShiftLeftIsProduct(bitbuf / 256, 8 * (di + 1));
    Pow2Byte(di);
    ShiftOut(bitbuf, Pow2(8 * di));
  }

  /** Reading one more data symbol into the bit buffer. */
  lemma {:induction false} Absorb(src: seq<Byte>, i: nat, written: seq<Byte>, bitbuf: nat, nbits: nat)
    requires LoopState(src, i, written, bitbuf, nbits) && i < |src| && IsDataSymbol(src[i])
    ensures var full := bitbuf + ShiftLeft(DecTable(src[i]), nbits);
            Spells(src, i + 1, written, full) && full < Pow2(nbits + 5)
  {
    var v := DecTable(src[i]);
    assert PrefixNumber(src, i + 1) == PrefixNumber(src, i) + ShiftLeft(v, 5 * i);
    AbsorbBound(bitbuf, nbits, v);
    AbsorbValue(bitbuf, nbits, v, |written|, i);
  }

  /** One iteration of the decoding loop on a data symbol that does not complete a byte. */
  lemma {:induction false} StepKeep(src: seq<Byte>, i: nat, written: seq<Byte>, bitbuf: nat, nbits: nat)
    requires LoopState(src, i, written, bitbuf, nbits) && i < |src| && IsDataSymbol(src[i])
    requires nbits + 5 < 8
    ensures LoopState(src, i + 1, written, bitbuf + ShiftLeft(DecTable(src[i]), nbits), nbits + 5)
  {
    Absorb(src, i, written, bitbuf, nbits);
  }

  /** One iteration of the decoding loop on a data symbol that completes a byte. */
  lemma {:induction false} StepEmit(src: seq<Byte>, i: nat, written: seq<Byte>, bitbuf: nat, nbits: nat)
    requires LoopState(src, i, written, bitbuf, nbits) && i < |src| && IsDataSymbol(src[i])
    requires nbits + 5 >= 8
    ensures var full := bitbuf + ShiftLeft(DecTable(src[i]), nbits);
            LoopState(src, i + 1, written + [full % 256], full / 256, nbits + 5 - 8)
  {
    Absorb(src, i, written, bitbuf, nbits);
    Emit(src, i + 1, written, bitbuf + ShiftLeft(DecTable(src[i]), nbits), nbits + 5);
  }

  /** Writing the low byte of the buffer out. */
  lemma {:induction false} Emit(src: seq<Byte>, i: nat, written: seq<Byte>, full: nat, nbits: nat)
    requires Spells(src, i, written, full) && 8 <= nbits < 16 && full < Pow2(nbits)
    requires 5 * i == 8 * |written| + nbits
    ensures LoopState(src, i, written + [full % 256], full / 256, nbits - 8)
  {
    EmitBound(full, nbits);
    EmitValue(full, |written|);
    LE256Append(written, full % 256);
    ShiftLeftIsProduct(full % 256, 8 * |written|);
  }

  /** The loop stopped at a full destination with data symbols still unread. */
  lemma {:induction false} Overlong(src: seq<Byte>, len: nat, withCheckSum: bool, i: nat)
    requires i < DataLength(src, withCheckSum) && 8 * len <= 5 * i
    ensures !Decodable(src, len, withCheckSum)
  {
  }

  /** Every data symbol was read, and bits are left over past a full destination. */
  lemma {:induction false} Overflow(src: seq<Byte>, withCheckSum: bool, written: seq<Byte>, bitbuf: nat, nbits: nat)
    requires 0 <= DataLength(src, withCheckSum)
    requires LoopState(src, DataLength(src, withCheckSum), written, bitbuf, nbits) && bitbuf != 0
    ensures !Decodable(src, |written|, withCheckSum)
  {
    ShiftLeftIsProduct(bitbuf, 8 * |written|);
    AtLeastUnit(DecodedNumber(src, withCheckSum), LE256(written), bitbuf, Pow2(8 * |written|));
  }

  /** The leftover bits, fewer than eight, written out as the last byte. */
  lemma {:induction false} Flush(src: seq<Byte>, i: nat, written: seq<Byte>, bitbuf: nat, nbits: nat)
    requires LoopState(src, i, written, bitbuf, nbits)
    ensures bitbuf < 256 && Spells(src, i, written + [bitbuf], 0)
  {
    Pow2Monotone(nbits, 8);
    Pow2Small();
    LE256Append(written, bitbuf);
    ShiftLeftIsProduct(bitbuf, 8 * |written|);
    ShiftLeftZero(8 * |written| + 8);
  }

  /** With the bit buffer empty, the bytes written spell the symbols' number. */
  lemma {:induction false} SpellsExactly(src: seq<Byte>, i: nat, written: seq<Byte>)
    requires Spells(src, i, written, 0)
    ensures PrefixNumber(src, i) == LE256(written)
  {
    ShiftLeftZero(8 * |written|);
  }

  /** All data symbols read, and the bytes written spell their number exactly. */
  lemma {:induction false} Exact(src: seq<Byte>, withCheckSum: bool, written: seq<Byte>)
    requires 1 <= DataLength(src, withCheckSum)
    requires Spells(src, DataLength(src, withCheckSum), written, 0)
    requires LengthFits(DataLength(src, withCheckSum), |written|)
    ensures Decodable(src, |written|, withCheckSum)
    ensures DecodedNumber(src, withCheckSum) == LE256(written)
  {
    SpellsExactly(src, DataLength(src, withCheckSum), written);
    LE256Bound(written);
  }

  /** The bytes in the destination when the decoder ends, before its last checks. */
  ghost function Final(written: seq<Byte>, bitbuf: nat, nbits: nat, len: nat): seq<Byte>
  {
    if nbits > 0 && |written| < len then written + [bitbuf % 256] else written
  }

  /** Leftover bits that are set but have no byte left to go into. */
  predicate Rejected(written: seq<Byte>, bitbuf: nat, nbits: nat, len: nat)
  {
    nbits > 0 && |written| == len && bitbuf != 0
  }

  /**
   * What the checks after the loop decide: the decoder succeeds (before the
   * checksum) exactly when the data symbols are decodable, and then the
   * destination holds the decoded bytes.
   */
  lemma {:induction false} Finish(src: seq<Byte>, withCheckSum: bool, len: nat, i: nat, written: seq<Byte>, bitbuf: nat, nbits: nat)
    requires 1 <= DataLength(src, withCheckSum) && i <= DataLength(src, withCheckSum)
    requires LoopState(src, i, written, bitbuf, nbits) && |written| <= len
    requires i < DataLength(src, withCheckSum) ==> |written| == len
    requires i > 0 ==> 5 * (i - 1) < 8 * len
    ensures Decodable(src, len, withCheckSum) <==>
              i == DataLength(src, withCheckSum) && |Final(written, bitbuf, nbits, len)| == len
              && !Rejected(written, bitbuf, nbits, len)
    ensures Decodable(src, len, withCheckSum) ==>
              len >= 1 && LE256(Final(written, bitbuf, nbits, len)) == DecodedNumber(src, withCheckSum)
  {
    var n := DataLength(src, withCheckSum);
    if i < n {
      Overlong(src, len, withCheckSum, i);
    } else if Rejected(written, bitbuf, nbits, len) {
      Overflow(src, withCheckSum, written, bitbuf, nbits);
    } else if nbits > 0 && |written| < len {
      Flush(src, i, written, bitbuf, nbits);
      if |written| + 1 == len {
        Exact(src, withCheckSum, written + [bitbuf]);
      }
    } else {
      if nbits == 0 {
        assert bitbuf == 0;
      }
      if |written| == len {
        Exact(src, withCheckSum, written);
      }
    }
  }

  /** A run of data symbols reaches at least as far as any data prefix. */
  lemma {:induction false} DataRunCovers(src: seq<Byte>, n: nat, from: nat, i: nat)
    requires from <= i <= n <= |src| && DataPrefix(src, i)
    ensures i <= DataRunFrom(src, n, from)
    decreases n - from
  {
    if from < i {
      DataRunCovers(src, n, from + 1, i);
    }
  }

  /**
   * What `decode` turns down: no data part, a symbol in the data part that is
   * not a value symbol, more symbols than the encoder writes for `len` bytes,
   * too few to reach the last byte, and set bits past the last byte.
   */
  lemma {:induction false} DecodeRejects(src: seq<Byte>, len: nat, withCheckSum: bool)
    ensures DataLength(src, withCheckSum) <= 0 ==> !Decodable(src, len, withCheckSum)
    ensures forall k :: 0 <= k < DataLength(src, withCheckSum) && !IsDataSymbol(src[k]) ==>
              !Decodable(src, len, withCheckSum)
    ensures DataLength(src, withCheckSum) > EncodedLength(len) ==> !Decodable(src, len, withCheckSum)
    ensures 5 * DataLength(src, withCheckSum) <= 8 * (len - 1) ==> !Decodable(src, len, withCheckSum)
    ensures var n := DataLength(src, withCheckSum);
      n >= 0 && DataPrefix(src, n) && DecodedNumber(src, withCheckSum) >= Pow2(8 * len) ==>
      !Decodable(src, len, withCheckSum)
  {
  }

  /** Bytes that are determined by their number. */
  lemma {:induction false} BytesOfNumber(bs: seq<Byte>, x: nat)
    requires LE256(bs) == x
    ensures bs == Digits256(x, |bs|)
    ensures |bs| > 0 ==> bs[0] == x % 256
  {
    BytesAreDigits(bs);
    if |bs| > 0 {
      LE256FirstByte(bs);
    }
  }

  /**
   * The main loop of the decoder over the first `n` symbols. It stops at the
   * first symbol that is not data (`invalid`), or when the symbols or the
   * destination run out. `written` is what it wrote into `dest`, from index 0.
   */
  method ReadSymbols(src: seq<Byte>, n: nat, dest: array<Byte>)
      returns (invalid: bool, i: nat, di: nat, bitbuf: nat, nbits: nat, ghost written: seq<Byte>)
    requires n <= |src|
    modifies dest
    ensures i <= n && di == |written| <= dest.Length
    ensures LoopState(src, i, written, bitbuf, nbits)
    ensures invalid ==> i < n && !IsDataSymbol(src[i])
    ensures !invalid ==> i == n || di == dest.Length
    ensures 5 * i < 8 * dest.Length + 5
    ensures forall k :: 0 <= k < dest.Length ==> dest[k] == if k < di then written[k] else old(dest[k])
  {
    bitbuf, nbits, di, i := 0, 0, 0, 0;
    written := [];
    while i < n && di < dest.Length
      invariant i <= n && di == |written| <= dest.Length
      invariant LoopState(src, i, written, bitbuf, nbits)
      invariant 5 * i < 8 * dest.Length + 5
      invariant forall k :: 0 <= k < dest.Length ==> dest[k] == if k < di then written[k] else old(dest[k])
    {
      var v := DecTable(src[i]);
      if v == -1 || v > 31 {
        return true, i, di, bitbuf, nbits, written;
      }
      ghost var bitbuf0, nbits0 := bitbuf, nbits;
      bitbuf := bitbuf + ShiftLeft(v, nbits);
      nbits := nbits + 5;
      if nbits >= 8 {
        StepEmit(src, i, written, bitbuf0, nbits0);
        dest[di] := bitbuf % 256;
        written := written + [bitbuf % 256];
        di := di + 1;
        nbits := nbits - 8;
        bitbuf := bitbuf / 256;
      } else {
        StepKeep(src, i, written, bitbuf0, nbits0);
      }
      i := i + 1;
    }
    invalid := false;
  }

  /**
   * The decoder as written. `dest` is filled from index 0; on success it
   * holds the decoded bytes. On failure the bytes from the first one the
   * data symbols never reached stay as they were; when decoding stops at a
   * symbol that is not data, so does the byte that symbol would have
   * completed.
   */
  method Decode(src: seq<Byte>, dest: array<Byte>, withCheckSum: bool) returns (ok: bool)
    modifies dest
    ensures ok <==> Decodable(src, dest.Length, withCheckSum)
                    && (withCheckSum ==> CheckSymbolMatches(src))
    ensures Decodable(src, dest.Length, withCheckSum) ==>
              dest[..] == Digits256(DecodedNumber(src, withCheckSum), dest.Length)
    ensures forall k :: 0 <= k < dest.Length && 8 * k >= 5 * DataSymbolsRead(src, withCheckSum) ==>
              dest[k] == old(dest[k])
    ensures DataSymbolsRead(src, withCheckSum) < DataLength(src, withCheckSum) ==>
              forall k :: 5 * DataSymbolsRead(src, withCheckSum) / 8 <= k < dest.Length ==> dest[k] == old(dest[k])
  {
    var n := |src|;
    if withCheckSum {
      n := n - 1;
    }
    if n <= 0 {
      return false;
    }
    ghost var run := DataSymbolsRead(src, withCheckSum);
    var invalid, i, di, bitbuf, nbits, written := ReadSymbols(src, n, dest);
    if invalid {
      DataRunCovers(src, n, 0, i);
      return false;
    }
    DataRunCovers(src, n, 0, i);
    assert 5 * run >= 8 * di + nbits;
    Finish(src, withCheckSum, dest.Length, i, written, bitbuf, nbits);
    ghost var final := Final(written, bitbuf, nbits, dest.Length);
    if nbits > 0 {
      if di == dest.Length {
        if bitbuf != 0 {
          return false;
        }
      } else {
        dest[di] := bitbuf % 256;
        written := written + [bitbuf % 256];
        di := di + 1;
      }
    }
    assert written == final;
    if i != n || di != dest.Length {
      return false;
    }
    assert dest[..] == final;
    BytesOfNumber(dest[..], DecodedNumber(src, withCheckSum));
    if withCheckSum {
      return dest[0] % 37 == DecTable(src[n]);
    } else {
      return true;
    }
  }

  /** `Decode` without a check symbol. */
  method DecodePlain(src: seq<Byte>, dest: array<Byte>) returns (ok: bool)
    modifies dest
    ensures ok <==> Decodable(src, dest.Length, false)
    ensures Decodable(src, dest.Length, false) ==>
              dest[..] == Digits256(DecodedNumber(src, false), dest.Length)
    ensures forall k :: 0 <= k < dest.Length && 8 * k >= 5 * DataSymbolsRead(src, false) ==>
              dest[k] == old(dest[k])
    ensures DataSymbolsRead(src, false) < DataLength(src, false) ==>
              forall k :: 5 * DataSymbolsRead(src, false) / 8 <= k < dest.Length ==> dest[k] == old(dest[k])
  {
    ok := Decode(src, dest, false);
  }

  /** `Decode` with a check symbol after the data. */
  method DecodeWithCheckSum(src: seq<Byte>, dest: array<Byte>) returns (ok: bool)
    modifies dest
    ensures ok <==> Decodable(src, dest.Length, true) && CheckSymbolMatches(src)
    ensures Decodable(src, dest.Length, true) ==>
              dest[..] == Digits256(DecodedNumber(src, true), dest.Length)
    ensures forall k :: 0 <= k < dest.Length && 8 * k >= 5 * DataSymbolsRead(src, true) ==>
              dest[k] == old(dest[k])
    ensures DataSymbolsRead(src, true) < DataLength(src, true) ==>
              forall k :: 5 * DataSymbolsRead(src, true) / 8 <= k < dest.Length ==> dest[k] == old(dest[k])
  {
    ok := Decode(src, dest, true);
  }
}
