/**
  The two newtype wrappers over a byte buffer: Base64, presented as text with the
  standard alphabet, and UrlBase64, presented with the URL-safe alphabet. Both
  decode with indifferent padding and encode with canonical padding. The module
  also holds their conversions: from a byte slice, from each other (the bytes
  move unchanged, nothing is re-encoded) and from Base64 to a 32-byte key array.
 */
module Base64Type {
  import opened Wrappers
  import opened Alphabet
  import opened Codec

  /** A byte buffer shown as standard-alphabet base64. Equality is equality of the bytes. */
  datatype Base64 = Base64(bytes: seq<Byte>)

  /** A byte buffer shown as URL-safe base64. Equality is equality of the bytes. */
  datatype UrlBase64 = UrlBase64(bytes: seq<Byte>)

  /** The derived Default: a UrlBase64 that holds no bytes, and is shown as the empty string. */
  function DefaultUrlBase64(): (u: UrlBase64)
    ensures |u.bytes| == 0
    ensures Encode(UrlSafe, u.bytes) == ""
  {
    EncodeEmpty(UrlSafe);
    UrlBase64([])
  }

  // ----- Text: parse and display (Base64 only) ----------------------------

  /**
    Parsing a string: decode with the standard alphabet and indifferent padding.
    What parses is the canonical encoding of its bytes with some padding dropped;
    a refusal is the decoder's own error.
   */
  function ParseBase64(s: string): (r: Result<Base64, DecodeError>)
    ensures r.Ok? ==> IsPaddingVariant(s, Encode(Standard, r.value.bytes))
    ensures r.Err? <==> Decode(Standard, s).Err?
    ensures r.Err? ==> r.error == Decode(Standard, s).error
  {
    match Decode(Standard, s)
    case Ok(bytes) =>
      DecodeSound(Standard, s);
      Ok(Base64(bytes))
    case Err(e) => Err(e)
  }

  /** Displaying a value: its canonical, padded standard encoding, which decodes back to the value's bytes. */
  function DisplayBase64(b: Base64): (s: string)
    ensures |s| == 4 * ((|b.bytes| + 2) / 3)
    ensures Decode(Standard, s) == Ok(b.bytes)
  {
    DecodeEncode(Standard, b.bytes);
    Encode(Standard, b.bytes)
  }

  /** Displaying and parsing back gives the original value, for every byte sequence. */
  lemma DisplayParseRoundTrip(b: Base64)
    ensures ParseBase64(DisplayBase64(b)) == Ok(b)
  {
    DecodeEncode(Standard, b.bytes);
  }

  /**
    Parsing accepts exactly the displayed form of a value with any part of its
    padding dropped, and nothing else.
   */
  lemma ParseAcceptsDisplayUpToPadding(s: string, b: Base64)
    ensures ParseBase64(s) == Ok(b) <==> IsPaddingVariant(s, DisplayBase64(b))
  {
    DecodeCharacterization(Standard, s, b.bytes);
  }

  /** The example of the crate's tests from_str_known and to_str_known: [2, 99] is shown as "AmM=", and "AmM=" as well as the unpadded "AmM" parse to [2, 99]. */
  lemma DisplayParseKnown()
    ensures DisplayBase64(Base64([2, 99])) == "AmM="
    ensures ParseBase64("AmM=") == Ok(Base64([2, 99]))
    ensures ParseBase64("AmM") == Ok(Base64([2, 99]))
  {
    KnownEncoding();
    DecodeComplete(Standard, [2, 99], "AmM=");
    assert "AmM" == "AmM="[..3];
    DecodeComplete(Standard, [2, 99], "AmM");
  }

  /** The standard encoding of [2, 99]: sextets 0, 38 and 12, then one '='. */
  lemma KnownEncoding()
    ensures Encode(Standard, [2, 99]) == "AmM="
  {
    assert BytesToSextets([2, 99]) == [0, 38, 12];
  }

  // ----- Structured serialization ------------------------------------------

  /** The value the serialization framework exchanges: a JSON string, or any JSON value that is not a string. */
  datatype JsonValue = JsonString(text: string) | JsonNonString

  /** Deserialization errors; both are data errors of the framework, never fatal. */
  datatype SerdeError =
    | InvalidType                   // the value is not a string
    | InvalidValue(cause: DecodeError) // the string does not decode

  /** Serializing a Base64: a JSON string holding its standard encoding, which decodes back to its bytes. */
  function SerializeBase64(b: Base64): (j: JsonValue)
    ensures j.JsonString? && Decode(Standard, j.text) == Ok(b.bytes)
    ensures |j.text| == 4 * ((|b.bytes| + 2) / 3)
  {
    DecodeEncode(Standard, b.bytes);
    JsonString(Encode(Standard, b.bytes))
  }

  /**
    Deserializing a Base64: only a JSON string is accepted, and it must decode
    with the standard alphabet; a decoding error becomes a data error.
   */
  function DeserializeBase64(j: JsonValue): (r: Result<Base64, SerdeError>)
    ensures j.JsonNonString? ==> r == Err(InvalidType)
    ensures j.JsonString? && Decode(Standard, j.text).Ok? ==> r == Ok(Base64(Decode(Standard, j.text).value))
    ensures j.JsonString? && Decode(Standard, j.text).Err? ==> r == Err(InvalidValue(Decode(Standard, j.text).error))
    ensures r.Ok? ==> j.JsonString? && IsPaddingVariant(j.text, Encode(Standard, r.value.bytes))
  {
    match j
    case JsonNonString => Err(InvalidType)
    case JsonString(t) =>
      match Decode(Standard, t)
      case Ok(bytes) =>
        DecodeSound(Standard, t);
        Ok(Base64(bytes))
      case Err(e) => Err(InvalidValue(e))
  }

  /** Serializing a UrlBase64: a JSON string holding its URL-safe encoding, which decodes back to its bytes. */
  function SerializeUrlBase64(u: UrlBase64): (j: JsonValue)
    ensures j.JsonString? && Decode(UrlSafe, j.text) == Ok(u.bytes)
    ensures |j.text| == 4 * ((|u.bytes| + 2) / 3)
  {
    DecodeEncode(UrlSafe, u.bytes);
    JsonString(Encode(UrlSafe, u.bytes))
  }

  /**
    Deserializing a UrlBase64: only a JSON string is accepted, and it must decode
    with the URL-safe alphabet; a decoding error becomes a data error.
   */
  function DeserializeUrlBase64(j: JsonValue): (r: Result<UrlBase64, SerdeError>)
    ensures j.JsonNonString? ==> r == Err(InvalidType)
    ensures j.JsonString? && Decode(UrlSafe, j.text).Ok? ==> r == Ok(UrlBase64(Decode(UrlSafe, j.text).value))
    ensures j.JsonString? && Decode(UrlSafe, j.text).Err? ==> r == Err(InvalidValue(Decode(UrlSafe, j.text).error))
    ensures r.Ok? ==> j.JsonString? && IsPaddingVariant(j.text, Encode(UrlSafe, r.value.bytes))
  {
    match j
    case JsonNonString => Err(InvalidType)
    case JsonString(t) =>
      match Decode(UrlSafe, t)
      case Ok(bytes) =>
        DecodeSound(UrlSafe, t);
        Ok(UrlBase64(bytes))
      case Err(e) => Err(InvalidValue(e))
  }

  /** Serializing and deserializing gives the original value back, for both types. */
  lemma SerdeRoundTrip(b: Base64, u: UrlBase64)
    ensures DeserializeBase64(SerializeBase64(b)) == Ok(b)
    ensures DeserializeUrlBase64(SerializeUrlBase64(u)) == Ok(u)
  {
    DecodeEncode(Standard, b.bytes);
    DecodeEncode(UrlSafe, u.bytes);
  }

  /** An empty buffer serializes to the empty string, for both types. */
  lemma SerializeEmpty()
    ensures SerializeBase64(Base64([])) == JsonString("")
    ensures SerializeUrlBase64(DefaultUrlBase64()) == JsonString("")
  {
    EncodeEmpty(Standard);
    EncodeEmpty(UrlSafe);
  }

  lemma SerializeKnown()
    ensures SerializeBase64(Base64([2, 99])) == JsonString("AmM=")
  {
    DisplayParseKnown();
  }

  /** A value that is not a string is refused by both types. */
  lemma DeserializeRejectsNonString()
    ensures DeserializeBase64(JsonNonString) == Err(InvalidType)
    ensures DeserializeUrlBase64(JsonNonString) == Err(InvalidType)
  {
  }

  /**
    A string with '-' or '_' is not a Base64 and a string with '+' or '/' is not
    a UrlBase64; the refusal is a data error carrying the decoding error.
   */
  lemma DeserializeRejectsOtherAlphabet(t: string, i: nat)
    requires i < |t|
    ensures t[i] == '-' || t[i] == '_' ==>
      DeserializeBase64(JsonString(t)).Err? && DeserializeBase64(JsonString(t)).error.InvalidValue?
    ensures t[i] == '+' || t[i] == '/' ==>
      DeserializeUrlBase64(JsonString(t)).Err? && DeserializeUrlBase64(JsonString(t)).error.InvalidValue?
  {
    if t[i] == '-' || t[i] == '_' {
      StandardRejectsUrlSafeSymbols(t, i);
    }
    if t[i] == '+' || t[i] == '/' {
      UrlSafeRejectsStandardSymbols(t, i);
    }
  }

  /** Deserializing a string gives exactly what decoding it with the type's alphabet gives. */
  lemma DeserializeAgreesWithDecode(t: string)
    ensures DeserializeBase64(JsonString(t)).Ok? <==> Decode(Standard, t).Ok?
    ensures Decode(Standard, t).Ok? ==> DeserializeBase64(JsonString(t)).value.bytes == Decode(Standard, t).value
    ensures DeserializeUrlBase64(JsonString(t)).Ok? <==> Decode(UrlSafe, t).Ok?
    ensures Decode(UrlSafe, t).Ok? ==> DeserializeUrlBase64(JsonString(t)).value.bytes == Decode(UrlSafe, t).value
  {
  }

  /**
    The unpadded URL-safe text accepted by deserialization: any value whose length
    is not a multiple of three is also read back from its encoding with every '='
    dropped, whose length is then not a multiple of four.
   */
  lemma DeserializeUnpadded(u: UrlBase64)
    ensures DeserializeUrlBase64(JsonString(EncodeUnpadded(UrlSafe, u.bytes))) == Ok(u)
    ensures |u.bytes| % 3 != 0 ==> |EncodeUnpadded(UrlSafe, u.bytes)| % 4 != 0
  {
    DecodeUnpadded(UrlSafe, u.bytes);
  }

  // ----- Conversions ------------------------------------------------------

  /** From<&[u8]>: a copy of the slice, shown as its standard encoding. */
  function Base64FromSlice(s: seq<Byte>): (b: Base64)
    ensures b.bytes == s
    ensures DisplayBase64(b) == Encode(Standard, s)
  {
    Base64(s)
  }

  /** From<&[u8]>: a copy of the slice, serialized as its URL-safe encoding. */
  function UrlBase64FromSlice(s: seq<Byte>): (u: UrlBase64)
    ensures u.bytes == s
    ensures SerializeUrlBase64(u) == JsonString(Encode(UrlSafe, s))
  {
    UrlBase64(s)
  }

  /** From<UrlBase64>: the bytes move over unchanged; nothing is re-encoded. */
  function Base64FromUrlBase64(u: UrlBase64): (b: Base64)
    ensures b.bytes == u.bytes
  {
    Base64(u.bytes)
  }

  /** From<Base64>: the bytes move over unchanged, and From<UrlBase64> undoes it. */
  function UrlBase64FromBase64(b: Base64): (u: UrlBase64)
    ensures u.bytes == b.bytes
    ensures Base64FromUrlBase64(u) == b
  {
    UrlBase64(b.bytes)
  }

  /** Every slice conversion holds exactly the bytes of the slice, and the two types agree on them. */
  lemma FromSliceCopies(s: seq<Byte>)
    ensures Base64FromSlice(s).bytes == s && UrlBase64FromSlice(s).bytes == s
    ensures Base64FromUrlBase64(UrlBase64FromSlice(s)) == Base64FromSlice(s)
  {
  }

  /** Converting to the other type and back gives the original value. */
  lemma CrossConversionRoundTrip(b: Base64, u: UrlBase64)
    ensures Base64FromUrlBase64(UrlBase64FromBase64(b)) == b
    ensures UrlBase64FromBase64(Base64FromUrlBase64(u)) == u
  {
  }

  /**
    A conversion re-interprets the bytes, not the text: the converted value is
    shown as the URL-safe translation of the original's text, and that text
    decodes back to the same bytes.
   */
  lemma CrossConversionKeepsBytes(b: Base64)
    ensures var d := DisplayBase64(b);
      SerializeUrlBase64(UrlBase64FromBase64(b))
        == JsonString(seq(|d|, i requires 0 <= i < |d| => ToUrlSafeChar(d[i])))
    ensures DeserializeUrlBase64(SerializeUrlBase64(UrlBase64FromBase64(b))) == Ok(UrlBase64(b.bytes))
    ensures DeserializeBase64(SerializeBase64(Base64FromUrlBase64(UrlBase64FromBase64(b)))) == Ok(b)
  {
    EncodeUrlSafeIsTranslated(b.bytes);
    DecodeEncode(UrlSafe, b.bytes);
    DecodeEncode(Standard, b.bytes);
  }

  // ----- Fixed-length key conversion --------------------------------------

  const KeyLength: nat := 32

  const KeyLengthError: string := "Base64 was not 32 bytes of data."

  /** Copies src into dst element by element; the lengths must agree. */
  method CopyFromSlice(dst: array<Byte>, src: seq<Byte>)
    requires dst.Length == |src|
    modifies dst
    ensures dst[..] == src
  {
    forall i | 0 <= i < dst.Length {
      dst[i] := src[i];
    }
  }

  /**
    TryFrom<Base64> for [u8; 32]: a fresh zeroed 32-byte array filled with the
    bytes when there are exactly 32 of them, an error otherwise; never truncates
    and never pads.
   */
  method TryIntoKey(b: Base64) returns (r: Result<array<Byte>, string>)
    ensures r.Ok? <==> |b.bytes| == KeyLength
    ensures r.Ok? ==> fresh(r.value) && r.value.Length == KeyLength && r.value[..] == b.bytes
    ensures r.Err? ==> r.error == KeyLengthError
  {
    if |b.bytes| == KeyLength {
      var key := new Byte[KeyLength](_ => 0);
      CopyFromSlice(key, b.bytes);
      r := Ok(key);
    } else {
      r := Err(KeyLengthError);
    }
  }

  // ----- In-place access to the buffer -------------------------------------

  /** s with the elements at i and j exchanged. */
  function Swapped(s: seq<Byte>, i: nat, j: nat): (r: seq<Byte>)
    requires i < |s| && j < |s|
    ensures |r| == |s| && r[i] == s[j] && r[j] == s[i]
    ensures forall k :: 0 <= k < |s| && k != i && k != j ==> r[k] == s[k]
    ensures multiset(r) == multiset(s)
  {
    s[i := s[j]][j := s[i]]
  }

  /**
    DerefMut hands out the wrapped buffer for change in place; swapping two of its
    bytes through the wrapper swaps them in the buffer, and nothing else changes.
   */
  method SwapBytes(buf: array<Byte>, i: nat, j: nat)
    requires i < buf.Length && j < buf.Length
    modifies buf
    ensures buf[..] == Swapped(old(buf[..]), i, j)
  {
    var t := buf[i];
    buf[i] := buf[j];
    buf[j] := t;
  }

  /**
    The crate's key conversion tests: a 12-byte and a 64-byte value of zeros are
    refused, and a 32-byte key comes back element by element.
   */
  method KeyConversionExamples(key: seq<Byte>)
    returns (short: Result<array<Byte>, string>, long: Result<array<Byte>, string>, exact: Result<array<Byte>, string>)
    requires |key| == KeyLength
    ensures short == Err(KeyLengthError) && long == Err(KeyLengthError)
    ensures exact.Ok? && exact.value[..] == key
  {
    short := TryIntoKey(Base64FromSlice(seq(12, _ => 0)));
    long := TryIntoKey(Base64FromSlice(seq(64, _ => 0)));
    exact := TryIntoKey(Base64FromSlice(key));
  }
}
