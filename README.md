# base64_type in Dafny

A model of the `base64_type` crate: two newtype wrappers over a byte vector.
`Base64` is shown as text in the standard alphabet of RFC 4648 (section 4).
`UrlBase64` is shown in the URL- and filename-safe alphabet (section 5).

Both wrappers use an engine that encodes with canonical `=` padding (section
3.2 of RFC 4648) and decodes in "indifferent" padding mode. That mode accepts
the text with or without its trailing `=`. It still refuses characters outside
the alphabet.

The engine comes from the external `base64` crate, so the codec here is written
from RFC 4648. On top of it sit:

- the wrapper operations: parsing (`FromStr`) and display (`Display`) of `Base64`;
- serialization of both types, modelled on a JSON value;
- the `From` conversions, which copy a slice or move the bytes to the other type;
- the in-place swap that `DerefMut` allows;
- `TryFrom<Base64> for [u8; 32]`, modelled as a method that fills a fresh array.

Files:

- `wrappers.dfy`: `Option` and `Result`.
- `alphabet.dfy`: the two alphabets, the symbol of each six-bit value and the value of each symbol.
- `codec.dfy`:
  - regrouping bytes into sextets and back;
  - `Encode` and `Decode`;
  - the characterization of what `Decode` accepts and what each of its errors means.
- `base64_type.dfy`: the `Base64` and `UrlBase64` types, their text and serialization forms, the conversions, and the 32-byte key conversion.

The decoder's central theorem is `Codec.DecodeCharacterization`.
`Decode(a, s)` returns `Ok(b)` exactly when `s` is `Encode(a, b)` with some or all of its trailing `=` dropped.

Decoding of malformed input follows sections 3.3 and 3.5 of RFC 4648 conservatively.
`Decode` sets the trailing `=` apart and checks the text before them in this order, stopping at the first failure:

1. `InvalidByte`
2. `InvalidLength`
3. `InvalidPadding`
4. `InvalidLastSymbol`

Each error has a lemma that states what it means:

- `InvalidByte(i, c)` means `c` at index `i` is the first character before the trailing `=` that is not a symbol of the alphabet. This covers a `=` that is followed by anything other than `=`.
- `InvalidLength` means that the text before the trailing `=` has length 1 modulo 4.
- `InvalidPadding` means there are more trailing `=` than the canonical form has.
- `InvalidLastSymbol(i, c)` means `c` at index `i` is the last symbol before the trailing `=`, and it ends a partial group of two or three symbols. It is a symbol of the alphabet, and its unused low bits are not all zero.

Because of the order, an input with two faults reports only the first. For example, `AB===` has too much padding and also non-zero unused bits in `B`, and it is refused with `InvalidPadding`. Without the padding, `AB` is refused with `InvalidLastSymbol` (`Codec.PaddingCheckedBeforeLastSymbol`).

## Model

| member | source | states |
|---|---|---|
| Alphabet.Symbol | src/lib.rs:21-24 | the symbol of a six-bit value is never `=`, and values below 62 map to `A-Z`, `a-z`, `0-9` in both alphabets |
| Alphabet.Index | src/lib.rs:21-24 | a character the alphabet knows is the symbol of the value it is read as |
| Alphabet.IndexOfSymbol | src/lib.rs:21-24 | reading the symbol of any value gives that value back |
| Alphabet.UrlSafeSymbolIsTranslated | src/lib.rs:125-128 | the URL-safe symbol of each value is the standard one with `+` replaced by `-` and `/` by `_` |
| Alphabet.AlphabetsAreExclusive | src/lib.rs:125-128 | `-` and `_` are outside the standard alphabet, `+` and `/` outside the URL-safe one, and `=` is outside both |
| Codec.TripleRoundTrip | src/lib.rs:21-24 | three bytes split into four sextets are recovered from them |
| Codec.QuadRoundTrip | src/lib.rs:21-24 | four sextets joined into three bytes are recovered from them |
| Codec.BytesToSextets | src/lib.rs:21-24 | n bytes become ceil(8n/6) sextets |
| Codec.SextetsToBytes | src/lib.rs:21-24 | sextets that decode give three bytes per four sextets, and only a partial last group can be refused |
| Codec.RefusedLastSextet | src/lib.rs:21-24 | sextets are refused only when the last sextet of a partial last group has non-zero unused bits |
| Codec.BytesRoundTrip | src/lib.rs:21-24 | the sextets of any byte sequence decode to that byte sequence |
| Codec.SextetsRoundTrip | src/lib.rs:21-24 | any sextet sequence that decodes is the canonical grouping of its bytes |
| Codec.Sextets | src/lib.rs:21-24 | reading text gives values whose symbols are that text, or the index of the first character outside the alphabet |
| Codec.SextetsOfSymbols | src/lib.rs:21-24 | reading the symbols of any values gives the values back |
| Codec.PadLength | src/lib.rs:21-24 | the canonical padding is under four characters and rounds the symbols out to a multiple of four |
| Codec.TrailingPads | src/lib.rs:21-24 | the counted suffix is all `=` and is preceded by a character that is not `=` |
| Codec.EncodeUnpadded | src/lib.rs:184-194 | the encoding of n bytes without padding is ceil(8n/6) symbols with no `=`; it decodes to the bytes (DecodeUnpadded) |
| Codec.Encode | src/lib.rs:95-99 | the encoding of n bytes is 4 * ceil(n/3) characters long; decoding it gives the bytes back (DecodeEncode) |
| Codec.Decode | src/lib.rs:21-24 | the empty text decodes to no bytes; in general it accepts exactly the padding variants of Encode (DecodeCharacterization), and each error's meaning is in DecodeInvalidByte, DecodeInvalidLength, DecodeInvalidPadding and DecodeInvalidLastSymbol |
| Codec.DecodeBody | src/lib.rs:21-24 | the checks after the trailing `=` are set apart, in the order given above (DecodeBodyCheckOrder); an error with a position names a character of the text; each error's meaning is in DecodeBodyErrors |
| Codec.DecodeSound | src/lib.rs:21-24 | every string that decodes is the canonical encoding of its bytes with some padding dropped |
| Codec.DecodeComplete | src/lib.rs:21-24 | every such padding variant of the encoding of b decodes to b |
| Codec.DecodeCharacterization | src/lib.rs:21-24 | a string decodes to b if and only if it is the encoding of b with some padding dropped |
| Codec.DecodeEncode | src/lib.rs:125-128 | decoding the encoding of any bytes gives them back, in either alphabet |
| Codec.DecodeUnpadded | src/lib.rs:184-194 | the encoding with all padding removed decodes, and its length is not a multiple of four whenever the byte count is not a multiple of three |
| Codec.DecodedChars | src/lib.rs:21-24 | every character of a decodable string before its trailing `=` is a symbol of the alphabet |
| Codec.DecodedLength | src/lib.rs:21-24 | no decodable string has length 1 modulo 4 |
| Codec.DecodeBodyErrors | src/lib.rs:21-24 | each error of the decoding of the text before the padding implies its cause, as listed above |
| Codec.DecodeBodyCheckOrder | src/lib.rs:21-24 | a later error implies that the earlier checks passed: any error but `InvalidByte` means every character is in the alphabet, `InvalidPadding` and `InvalidLastSymbol` mean the length is not 1 modulo 4, and `InvalidLastSymbol` means the padding is at most the canonical count |
| Codec.DecodeInvalidByte | src/lib.rs:21-24 | `InvalidByte` names the first character before the trailing `=` that is outside the alphabet |
| Codec.DecodeInvalidLength | src/lib.rs:21-24 | `InvalidLength` means the text before the trailing `=` has length 1 modulo 4 |
| Codec.DecodeInvalidPadding | src/lib.rs:21-24 | `InvalidPadding` means more trailing `=` than the canonical padding |
| Codec.DecodeInvalidLastSymbol | src/lib.rs:21-24 | `InvalidLastSymbol` names the last symbol before the padding; the text before the padding ends in a partial group of two or three symbols, and that symbol is a symbol of the alphabet whose unused low bits (four after two symbols, two after three) are not all zero |
| Codec.PaddingCheckedBeforeLastSymbol | src/lib.rs:21-24 | `AB` is refused for the unused bits of `B`, and `AB===` is refused for its padding first |
| Codec.DecodeRejectsForeignSymbol | src/lib.rs:196-202 | any character outside the alphabet other than `=` makes decoding fail |
| Codec.DecodeRejectsInnerPadding | src/lib.rs:21-24 | a `=` followed later by a character other than `=` makes decoding fail |
| Codec.StandardRejectsUrlSafeSymbols | src/lib.rs:259-265 | a string containing `-` or `_` fails the standard decoder |
| Codec.UrlSafeRejectsStandardSymbols | src/lib.rs:196-202 | a string containing `+` or `/` fails the URL-safe decoder |
| Codec.EncodeUrlSafeIsTranslated | src/lib.rs:125-128 | the URL-safe encoding is the standard encoding with `+` and `/` translated |
| Codec.EncodeUsesAlphabet | src/lib.rs:95-99 | an encoding is symbols of its alphabet followed by the canonical padding of at most two `=` |
| Codec.EncodeEmpty | src/lib.rs:204-208 | the empty byte sequence encodes to the empty string in both alphabets |
| Base64Type.DefaultUrlBase64 | src/lib.rs:133 | the derived default holds no bytes and is shown as the empty string (SerializeEmpty) |
| Base64Type.ParseBase64 | src/lib.rs:69-74 | `from_str`: what parses is the canonical encoding of its bytes with some padding dropped, and a refusal is the decoder's own error (ParseAcceptsDisplayUpToPadding) |
| Base64Type.DisplayBase64 | src/lib.rs:95-99 | `fmt`: the text is 4 * ceil(n/3) characters and decodes back to the bytes (DisplayParseRoundTrip) |
| Base64Type.SerializeBase64 | src/lib.rs:50-60 | the serialized form is a JSON string of 4 * ceil(n/3) characters that decodes back to the bytes, so it is the canonical padded encoding shown by `Display` (SerdeRoundTrip) |
| Base64Type.DeserializeBase64 | src/lib.rs:61-68 | a non-string is a type error; a string gives the standard decoding or its error as a data error (DeserializeAgreesWithDecode) |
| Base64Type.SerializeUrlBase64 | src/lib.rs:136-146 | the serialized form is a JSON string of 4 * ceil(n/3) characters that decodes back to the bytes with the URL-safe alphabet, so it is the canonical padded encoding (SerdeRoundTrip) |
| Base64Type.DeserializeUrlBase64 | src/lib.rs:147-154 | a non-string is a type error; a string gives the URL-safe decoding or its error as a data error (DeserializeRejectsOtherAlphabet) |
| Base64Type.Base64FromSlice | src/lib.rs:75-79 | the value holds exactly the slice and is shown as its standard encoding (FromSliceCopies) |
| Base64Type.UrlBase64FromSlice | src/lib.rs:155-159 | the value holds exactly the slice and serializes to its URL-safe encoding (FromSliceCopies) |
| Base64Type.Base64FromUrlBase64 | src/lib.rs:90-94 | the bytes move over unchanged (CrossConversionRoundTrip) |
| Base64Type.UrlBase64FromBase64 | src/lib.rs:170-174 | the bytes move over unchanged, and converting back gives the original (CrossConversionKeepsBytes) |
| Base64Type.DisplayParseRoundTrip | src/lib.rs:339-344 | parsing the displayed form of any value gives the value back |
| Base64Type.ParseAcceptsDisplayUpToPadding | src/lib.rs:69-74 | a string parses to b exactly when it is the display of b with some padding dropped |
| Base64Type.DisplayParseKnown | src/lib.rs:281-295 | `[2, 99]` is shown as `AmM=`, and both `AmM=` and `AmM` parse to it |
| Base64Type.SerdeRoundTrip | src/lib.rs:313-319 | deserializing the serialization of any value gives it back, for both types |
| Base64Type.SerializeEmpty | src/lib.rs:267-271 | an empty value serializes to the empty string, for both types |
| Base64Type.SerializeKnown | src/lib.rs:273-279 | `[2, 99]` serializes to the string `AmM=` |
| Base64Type.DeserializeRejectsNonString | src/lib.rs:61-68 | a value that is not a string is refused as the wrong type, for both types |
| Base64Type.DeserializeRejectsOtherAlphabet | src/lib.rs:259-265 | a string with a symbol of the other alphabet is refused with a data error, for both types |
| Base64Type.DeserializeAgreesWithDecode | src/lib.rs:248-257 | deserializing a string succeeds exactly when the type's engine decodes it, with the same bytes |
| Base64Type.DeserializeUnpadded | src/lib.rs:184-194 | a UrlBase64 is read back from its encoding with all padding dropped |
| Base64Type.FromSliceCopies | src/lib.rs:75-79 | a slice conversion holds exactly the slice's bytes, for both types |
| Base64Type.CrossConversionRoundTrip | src/lib.rs:90-94 | converting to the other type and back gives the original value |
| Base64Type.CrossConversionKeepsBytes | src/lib.rs:170-174 | a converted value is shown as the URL-safe translation of the original text and decodes to the same bytes |
| Base64Type.CopyFromSlice | src/lib.rs:115 | after the copy the array holds exactly the source bytes |
| Base64Type.TryIntoKey | src/lib.rs:110-121 | the conversion succeeds exactly when there are 32 bytes; the fresh array then equals the bytes, and otherwise the error is the fixed message |
| Base64Type.KeyConversionExamples | src/lib.rs:297-311 | a 12-byte and a 64-byte value are refused with the fixed message, and a 32-byte key comes back element by element |
| Base64Type.Swapped | src/lib.rs:331-337 | swapping two positions exchanges their bytes, keeps all others, and permutes the sequence |
| Base64Type.SwapBytes | src/lib.rs:45-49 | swapping through the mutable buffer changes it to the swapped sequence |

## Left out

- `Deref` and `AsRef` (src/lib.rs:33-44): the bytes are the `bytes` field of each datatype. Reading them through a reference is not modelled separately.
- `DerefMut` (src/lib.rs:45-49): only the swap that its test performs is modelled, on an array. No other `Vec` mutation is modelled.
- `Base64Type.SwapBytes`: an index out of range makes `Vec::swap` panic in the source; the model requires both indices in range instead.
- `bytes::Bytes` interop (src/lib.rs:80-89, 100-109, 160-169): it uses an external buffer type and only copies the bytes, so it is left out.
- The `Debug`, `Hash` and `Arbitrary` derives carry no behaviour and are left out. `Default` for `UrlBase64` is the function `DefaultUrlBase64`.
- Serialization works on a JSON value: a string, or anything else. The JSON text, its quoting and its escaping are left out. The `base64_serde_type!` glue is modelled by the functions it generates.
- The long test strings (src/lib.rs:187, 198, 250, 261) are not restated. Only the general properties those tests rely on are proved.
- `Codec.Decode`'s error kinds, their precedence and the indexes in its errors are this model's own. The external `base64` crate decides by where a `=` sits in its group, so it may report a different kind even for an input with one fault (the model gives `InvalidPadding` for `AAAA==` and `InvalidLength` for `A===`). Which inputs are refused is what the model states; what each of its errors means is proved.
- `Codec.Decode`: the external crate's exact tolerance of non-canonical input is not known here. The model refuses a non-trailing `=` and more `=` than the canonical padding, following section 3.3 of RFC 4648, and non-zero unused bits in the last symbol, following section 3.5.
- `UrlBase64` has no `FromStr` or `Display` in the source, so the model gives it none. Its text form appears only through serialization.
- Nothing about memory allocation failure is modelled.
