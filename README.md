# base32dc in Dafny

A model of `base32dc`, a Go byte-to-text codec in the style of Douglas
Crockford's Base32. It uses Crockford's 32 value symbols
`0123456789abcdefghjkmnpqrstvwxyz` and the five check-only symbols `*~$=u`.
It differs from Crockford's scheme in three ways:

- bits are packed least-significant first;
- there is no padding;
- the optional check symbol is the first payload byte modulo 37.

The model covers:

- the symbol tables built by `init`;
- `encode`, `Encode` and `EncodeWithCheckSum`;
- `decode`, `Decode` and `DecodeWithCheckSum`;
- `newGUID`, `NewGUID` and `NewGUIDWithCheckSum`;
- `VerifyCheckSum`.

Go strings are byte strings, modelled as `seq<Byte>` with `Byte = 0..255`.

Modules:

- `Arith`: the payload read as a little-endian number (`LE256`), its base-32 digits (`Digits32`) and base-256 digits (`Digits256`), and powers of two.
- `Tables`:
  - the encode table `EncTable` and the decode function `DecTable`;
  - the method `Init`, which fills two arrays the way `init` does;
  - the table properties.
- `Encoding`: the specification `Encoded(val, withCheckSum)` (the `⌈8n/5⌉` base-32 digits of `LE256(val)`, spelled through the table, then the check symbol), the loop `Encode` proved against it, and the repository's test vector.
- `Decoding`:
  - what a successful decode needs (`Decodable`);
  - the loop `ReadSymbols` and the rest of `decode` as `Decode`, which writes into a `dest` array;
  - the loop invariant (`LoopState`): the symbols read so far spell the bytes written, followed by the bits still buffered.
- `RoundTrip`:
  - decoding an encoding gives the payload back;
  - re-encoding a decoded canonical text gives the text back;
  - a short spelling that the decoder also takes.
- `CheckSum`: `VerifyCheckSum` as a byte scan proved against `CheckSumHolds`, its agreement with the decoder's check, and what the check catches.
- `Guid`: stamping random bytes as a version-4, variant-10 UUID, then encoding them.

Bit operations on values whose bit ranges do not overlap are written as arithmetic:

- `a` or-ed with `b << k` becomes `a + b * 2^k`;
- `>> k` becomes `/ 2^k`;
- `& 0x1f` becomes `% 32`;
- `& 0xFF` and `byte(..)` become `% 256`.

In `Decoding`, `v << k` is `ShiftLeft(v, k)`, which doubles `v` `k` times.

Where the code and its documentation differ, the model follows the code.

**Upper-case letters are not decoded.** The decode table stores the second copy of each lower-case letter at the letter plus 32 (`base32dc.go:29-30`). That puts it at bytes 0x81..0x9a, not at `A`..`Z`.

- `Tables.ShiftedLetterDecodes` states what the code does.
- `Tables.UpperCaseRejected` shows that upper-case letters other than the aliases `I`, `L`, `O` decode to -1.
- Crockford's published Base32 scheme decodes letters case-insensitively; this code does not.

**Decoding is not the inverse of encoding.** The decoder takes:

- aliases and the shifted letters, which decode exactly as the symbols they stand for (`RoundTrip.AliasSpellingDecodesAlike`);
- fewer symbols than the encoder writes, as long as they reach into the last byte.

So the round trip is proved in one direction for every payload (`RoundTrip.EncodeThenDecode`). In the other direction it is proved only for canonical text of the encoder's length (`RoundTrip.CanonicalDecodeThenEncode`).

## Model

| member | source | states |
|---|---|---|
| Tables.Init | base32dc.go:20-39 | The arrays it builds hold the 37 symbols in alphabet order. The decode array agrees with `DecTable` at every one of the 256 byte values. |
| Tables.DecTable | base32dc.go:20-39 | Every decode-table entry is between -1 and 36. |
| Tables.DecodesEncTable | base32dc.go:27-29 | The decode table inverts the encode table on all 37 symbols, so the symbols are distinct. A symbol is a data symbol exactly when its value is below 32. |
| Tables.AliasesDecode | base32dc.go:33-38 | `i`, `I`, `l`, `L` decode to 1 and `o`, `O` decode to 0, the same values as `1` and `0`. |
| Tables.ShiftedLetterDecodes | base32dc.go:29-30 | A byte 32 above a lower-case symbol decodes to the same value as that symbol. |
| Tables.UpperCaseRejected | base32dc.go:24-38 | Upper-case letters other than `I`, `L`, `O` decode to -1. |
| Tables.UnderscoreRejected | base32dc.go:24-26 | `_` decodes to -1. |
| Tables.DecodableBytes | base32dc.go:24-38 | Every byte that does not decode to -1 is a symbol, an alias, or a symbol plus 32 in 0x81..0x9a. |
| Encoding.EncodedLength | base32dc.go:47-47 | The loop writes `⌈8n/5⌉` symbols: the least count whose 5-bit groups cover all `8n` bits. |
| Encoding.Encode | base32dc.go:41-59 | The output is the `⌈8n/5⌉` base-32 digits of the payload's little-endian number, least significant first, spelled through the encode table. The check symbol `EncTable[val[0] % 37]` follows when asked for. Empty input gives empty output. |
| Encoding.EncodePlain | base32dc.go:61-63 | Go's `Encode`: the encoding without a check symbol, `⌈8n/5⌉` symbols long for non-empty input. |
| Encoding.EncodeWithCheckSum | base32dc.go:65-67 | `EncodeWithCheckSum`: one symbol longer, ending in `EncTable[val[0] % 37]`. |
| Encoding.EncodedShape | base32dc.go:41-59 | Empty input gives `""` even with a checksum. Otherwise there are `⌈8n/5⌉` data symbols, and then the check symbol when asked for. |
| Encoding.EncodedSymbol | base32dc.go:48-54 | Symbol `k` decodes to bits `5k..5k+4` of the payload's bit stream. |
| Encoding.TestVector | base32dc_test.go:44-50 | The bytes 255, 254, …, 240 encode to `zqzvfyfztfyhzvvyn7x7fs7yg7`. |
| Encoding.TestVectorWithCheckSum | base32dc_test.go:51-54 | With a checksum the same bytes encode to `zqzvfyfztfyhzvvyn7x7fs7yg7~`. |
| Decoding.ReadSymbols | base32dc.go:81-94 | The loop stops at the first symbol that is not a value symbol, or when the symbols or the destination run out. At the stop, `nbits < 8` and `bitbuf < 2^nbits`. The symbols read spell the bytes written followed by `bitbuf`. `dest` changes only below `di`. |
| Decoding.Decode | base32dc.go:69-115 | Returns true iff the input is `Decodable` and, with a checksum, the check symbol matches. `Decodable` means: the data part is non-empty and all value symbols; its length fills `len(dest)` bytes; no set bit lies past the last byte. On success `dest` holds the base-256 digits of the decoded number. Bytes the symbols never reach stay unchanged. When decoding stops at a symbol that is not data, the byte that symbol would have completed stays unchanged too. |
| Decoding.DecodeRejects | base32dc.go:71-108 | Decoding fails when: there is no data part; a data symbol decodes to -1 or above 31; there are more symbols than the encoder writes for `len(dest)` bytes; the symbols do not reach the last byte; or set bits are left over past the last byte. |
| Decoding.DecodePlain | base32dc.go:117-119 | Go's `Decode`: succeeds iff the text is decodable without a check symbol. Whenever the text is decodable, `dest` holds the decoded bytes. Bytes the symbols never reach stay unchanged. When decoding stops at a symbol that is not data, the byte that symbol would have completed stays unchanged too. |
| Decoding.DecodeWithCheckSum | base32dc.go:121-123 | `DecodeWithCheckSum`: succeeds iff the data decodes and the last symbol's value is the first decoded byte modulo 37. Whenever the data is decodable, `dest` holds the decoded bytes, even when the check symbol does not match. Bytes the symbols never reach stay unchanged. When decoding stops at a symbol that is not data, the byte that symbol would have completed stays unchanged too. |
| RoundTrip.EncodedDecodable | base32dc.go:41-115 | The encoding of any non-empty payload decodes into a buffer of the payload's length, to the payload's number. With a checksum, its check symbol matches. |
| RoundTrip.EncodeThenDecode | base32dc_test.go:59-81 | Encoding and then decoding into a buffer of the same length succeeds iff the payload is non-empty. On success it gives the payload back, with and without a checksum. |
| RoundTrip.CanonicalDecodeThenEncode | base32dc.go:69-115 | Take a decodable text whose symbols are canonical and whose length is what the encoder writes for `len` bytes. It is exactly the encoding of the bytes it decodes to. |
| RoundTrip.AliasSpellingDecodesAlike | base32dc.go:82-95 | Decoding looks only at symbol values. Two texts whose symbols decode to the same values are decodable alike, decode to the same number, and have matching check symbols alike. So an alias, or a shifted letter, in place of a symbol changes nothing. |
| RoundTrip.ZeroAliasDecodesAlike | base32dc.go:37-38 | Putting `o` in place of a `0` symbol leaves whether the text decodes, and what it decodes to, unchanged. |
| RoundTrip.ShortSpellingAccepted | base32dc.go:96-108 | `zz` decodes into the two bytes 255, 3, whose encoding is `zz00`. The decoder accepts spellings shorter than the encoder's. |
| CheckSum.VerifyCheckSum | base32dc.go:141-164 | Returns true iff: the text has at least two symbols; every symbol decodes; only the last may be a check-only symbol; and `lo` or-ed with `hi << 5`, masked with `0xFF`, modulo 37, equals the last symbol's value, with `hi = 0` for a two-symbol text. |
| CheckSum.LowByteOfDecodedNumber | base32dc.go:156-162 | `lo` or-ed with `hi << 5`, taken modulo 256, is the low byte of the number that all the data symbols spell. |
| CheckSum.CheckSumMatchesDecoder | base32dc.go:141-164 | The checker accepts a text iff its symbols before the last are data and the decoder's check-symbol test holds for it. |
| CheckSum.EncodedPassesCheck | base32dc_test.go:9-15 | Every non-empty payload encoded with a checksum passes `VerifyCheckSum`. |
| CheckSum.CheckValuesDiffer | base32dc.go:163-163 | Two first symbols with different values, under the same second symbol, always give different check values. |
| CheckSum.FirstSymbolChangeDetected | base32dc_test.go:28-35 | Replacing the first symbol of a passing text with a symbol of another value makes it fail. |
| CheckSum.CheckSymbolChangeDetected | base32dc.go:163-163 | Replacing the check symbol of a passing text with a symbol of another value makes it fail. |
| CheckSum.MisplacedSymbolRejected | base32dc.go:145-155 | A text is rejected when any symbol is invalid, or when a check-only symbol stands anywhere but last. |
| CheckSum.FirstSymbolTampered | base32dc_test.go:16-35 | A payload starting with a zero byte encodes to a passing text. Putting `_` or `a` in place of its first symbol makes it fail. |
| CheckSum.VerifyCheckSumCases | base32dc_test.go:8-36 | The test's payloads `[0]` and `[0, 154, 0, 0, 0]` pass, and the second fails with `_` or `a` as its first symbol. |
| CheckSum.TestVectorPasses | base32dc_test.go:55-57 | `zqzvfyfztfyhzvvyn7x7fs7yg7~` passes `VerifyCheckSum`. |
| Guid.StampSetsVersion | base32dc.go:128-129 | After stamping: byte 6 has high nibble 0100; byte 8 has top bits 10; their other bits and all other bytes are unchanged. |
| Guid.StampFixesVersion4 | base32dc.go:128-129 | Stamping leaves a UUID unchanged iff it already carries version 4 and variant 10. |
| Guid.NewGuid | base32dc.go:125-131 | The identifier is the encoding of the stamped random bytes: 26 symbols, or 27 with a checksum. |
| Guid.NewGUID | base32dc.go:133-135 | `NewGUID`: the plain encoding of the stamped bytes, 26 symbols. |
| Guid.NewGUIDWithCheckSum | base32dc.go:137-139 | `NewGUIDWithCheckSum`: the encoding with a check symbol, 27 symbols. |
| Guid.GuidDecodes | base32dc.go:125-131 | An identifier decodes into 16 bytes, giving the stamped UUID back. With a checksum, its check symbol matches, and it passes `VerifyCheckSum`. |

## Left out

- The random source of `newGUID` (`rand.Read`) is a parameter: `random` stands for the 16 bytes it would have produced. Its error result is ignored by the code, so there is no failure path.
- The tables are global variables filled once at package initialisation. `Init` builds them as arrays and is proved to produce `EncTable` and `DecTable`. The other operations use those two definitions directly rather than the arrays.
- `strings.Builder` is modelled as appending to a byte sequence.
- Go's `uint` width is not modelled: the encode window stays below 2^16 and the decode bit buffer below 2^13, so nothing wraps.
- The rune-wise `for i := range src` in `VerifyCheckSum` is modelled as a scan over every byte. The only bytes it skips follow a valid multi-byte lead byte (0xC2 and up), and such a lead byte already decodes to -1, so the result is the same.
- The unreachable `dv > 36` test in `VerifyCheckSum` is kept as written. No decode-table value exceeds 36.
- `decode`'s loop is the method `Decoding.ReadSymbols`; `Decoding.Decode` calls it and then does the flush and final checks. The loop's values are returned rather than kept in shared local variables.
- Decoding.Decode, Decoding.DecodePlain, Decoding.DecodeWithCheckSum: on a failed decode of an undecodable text they state only which bytes of `dest` stay untouched: those past the last byte the data symbols completed. They say nothing about the bytes already written below those, which the code leaves in place.
- Concurrency: there is none in the code beyond the one-time initialisation.
