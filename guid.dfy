/**
 * Random identifiers: sixteen random bytes stamped as a version-4, variant-10
 * UUID, then encoded. The random source is a parameter: `random` stands for
 * the sixteen bytes the generator would have produced.
 */
module Guid {
  import opened Arith
  import opened Tables
  import opened Encoding
  import opened Decoding
  import opened RoundTrip
  import opened CheckSum

  /** The version nibble 0100 in byte 6 and the variant bits 10 on top of byte 8. */
  function StampVersion(uuid: seq<Byte>): seq<Byte>
    requires |uuid| == 16
  {
    uuid[6 := uuid[6] % 16 + 0x40][8 := uuid[8] % 64 + 0x80]
  }

  /** A UUID that says it is version 4, variant 10. */
  predicate IsVersion4(uuid: seq<Byte>)
    requires |uuid| == 16
  {
    uuid[6] / 16 == 4 && uuid[8] / 64 == 2
  }

  /** Stamping sets the version and the variant bits, and keeps every other bit. */
  lemma {:induction false} StampSetsVersion(uuid: seq<Byte>)
    requires |uuid| == 16
    ensures |StampVersion(uuid)| == 16 && IsVersion4(StampVersion(uuid))
    ensures StampVersion(uuid)[6] % 16 == uuid[6] % 16
    ensures StampVersion(uuid)[8] % 64 == uuid[8] % 64
    ensures forall k :: 0 <= k < 16 && k != 6 && k != 8 ==> StampVersion(uuid)[k] == uuid[k]
  {
  }

  /** Stamping leaves a UUID alone exactly when it already is version 4, variant 10. */
  lemma {:induction false} StampFixesVersion4(uuid: seq<Byte>)
    requires |uuid| == 16
    ensures StampVersion(uuid) == uuid <==> IsVersion4(uuid)
  {
    var r := StampVersion(uuid);
    StampSetsVersion(uuid);
    if IsVersion4(uuid) {
      DivModUnique(uuid[6], 16, 4, uuid[6] % 16);
      DivModUnique(uuid[8], 64, 2, uuid[8] % 64);
      assert r[6] == uuid[6] && r[8] == uuid[8];
      assert forall k :: 0 <= k < 16 ==> r[k] == uuid[k];
    }
  }

  /** `newGUID`: stamp the random bytes in a 16-byte buffer and encode the buffer. */
  method NewGuid(random: seq<Byte>, withCheckSum: bool) returns (s: seq<Byte>)
    requires |random| == 16
    ensures s == Encoded(StampVersion(random), withCheckSum)
    ensures |s| == if withCheckSum then 27 else 26
  {
    var uuid := new Byte[16](i requires 0 <= i < 16 => random[i]);
    uuid[6] := uuid[6] % 16 + 0x40;
    uuid[8] := uuid[8] % 64 + 0x80;
    assert uuid[..] == StampVersion(random);
    s := Encode(uuid[..], withCheckSum);
    EncodedShape(uuid[..], withCheckSum);
  }

  method NewGUID(random: seq<Byte>) returns (s: seq<Byte>)
    requires |random| == 16
    ensures s == Encoded(StampVersion(random), false) && |s| == 26
  {
    s := NewGuid(random, false);
  }

  method NewGUIDWithCheckSum(random: seq<Byte>) returns (s: seq<Byte>)
    requires |random| == 16
    ensures s == Encoded(StampVersion(random), true) && |s| == 27
  {
    s := NewGuid(random, true);
  }

  /**
   * An identifier decodes into 16 bytes, to the stamped UUID, and one with a
   * check symbol passes both the decoder's check and `VerifyCheckSum`.
   */
  lemma {:induction false} GuidDecodes(random: seq<Byte>, withCheckSum: bool)
    requires |random| == 16
    ensures var s := Encoded(StampVersion(random), withCheckSum);
      Decodable(s, 16, withCheckSum)
      && Digits256(DecodedNumber(s, withCheckSum), 16) == StampVersion(random)
      && (withCheckSum ==> CheckSymbolMatches(s))
    ensures CheckSumHolds(Encoded(StampVersion(random), true))
  {
    var uuid := StampVersion(random);
    EncodedDecodable(uuid, withCheckSum);
    BytesAreDigits(uuid);
    EncodedPassesCheck(uuid);
  }
}
