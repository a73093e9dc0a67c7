/**
  The base64 codec of RFC 4648 that both wrapper types are configured with:
  encoding always writes the canonical '=' padding of section 3.2, decoding
  accepts the padding whether it is present, partly present or absent (the
  "indifferent" padding mode), rejects every character outside the configured
  alphabet, and follows section 3.5 conservatively by rejecting a last symbol
  whose unused low bits are not zero.

  Bytes are grouped by three into four sextets; a final group of one byte gives
  two sextets and a final group of two bytes gives three.
 */
module Codec {
  import opened Wrappers
  import opened Alphabet

  type Byte = b: int | 0 <= b < 256

  datatype DecodeError =
    | InvalidByte(index: nat, symbol: char)      // a character outside the alphabet, or a '=' that is not trailing
    | InvalidLength                              // a length that leaves a single symbol in the last group
    | InvalidPadding                             // more trailing '=' than the canonical padding
    | InvalidLastSymbol(index: nat, symbol: char) // the last symbol carries bits that encode no byte

  // ----- Groups -----------------------------------------------------------

  /** The four sextets of the 24-bit group b0 b1 b2, most significant first. */
  function EncodeTriple(b0: Byte, b1: Byte, b2: Byte): (v: seq<Sextet>)
    ensures |v| == 4
  {
    [b0 / 4, (b0 % 4) * 16 + b1 / 16, (b1 % 16) * 4 + b2 / 64, b2 % 64]
  }

  /** The three bytes of the 24-bit group c0 c1 c2 c3. */
  function DecodeQuad(c0: Sextet, c1: Sextet, c2: Sextet, c3: Sextet): (b: seq<Byte>)
    ensures |b| == 3
  {
    [c0 * 4 + c1 / 16, (c1 % 16) * 16 + c2 / 4, (c2 % 4) * 64 + c3]
  }

  lemma TripleRoundTrip(b0: Byte, b1: Byte, b2: Byte)
    ensures var v := EncodeTriple(b0, b1, b2);
      DecodeQuad(v[0], v[1], v[2], v[3]) == [b0, b1, b2]
  {
  }

  lemma QuadRoundTrip(c0: Sextet, c1: Sextet, c2: Sextet, c3: Sextet)
    ensures var b := DecodeQuad(c0, c1, c2, c3);
      EncodeTriple(b[0], b[1], b[2]) == [c0, c1, c2, c3]
  {
    var b := DecodeQuad(c0, c1, c2, c3);
    assert b[0] / 4 == c0 && b[0] % 4 == c1 / 16;
    assert b[1] / 16 == c1 % 16 && b[1] % 16 == c2 / 4;
    assert b[2] / 64 == c2 % 4 && b[2] % 64 == c3;
  }

  // ----- Bytes to sextets and back ----------------------------------------

  /** The sextets that encode b: ceil(8|b| / 6) of them, the unused low bits of the last one zero. */
  function BytesToSextets(b: seq<Byte>): (v: seq<Sextet>)
    ensures |v| == 4 * (|b| / 3) + (if |b| % 3 == 0 then 0 else |b| % 3 + 1)
    decreases |b|
  {
    if |b| == 0 then []
    else if |b| == 1 then EncodeTriple(b[0], 0, 0)[..2]
    else if |b| == 2 then EncodeTriple(b[0], b[1], 0)[..3]
    else EncodeTriple(b[0], b[1], b[2]) + BytesToSextets(b[3..])
  }

  /**
    The low bits of the last sextet of a group of n symbols that carry no data:
    four bits after two symbols, two after three, none for a whole group.
   */
  function UnusedBits(n: nat, v: Sextet): nat {
    if n % 4 == 2 then v % 16 else if n % 4 == 3 then v % 4 else 0
  }

  /**
    The bytes of a final group of zero, two or three sextets, or None when its
    last sextet has non-zero unused bits (a non-canonical last symbol).
   */
  function LastGroupToBytes(v: seq<Sextet>): (r: Option<seq<Byte>>)
    requires |v| < 4 && |v| != 1
    ensures r.Some? ==> |r.value| == |v| * 3 / 4
    ensures r.None? ==> |v| != 0
  {
    if |v| == 0 then Some([])
    else if |v| == 2 then
      if v[1] % 16 == 0 then Some(DecodeQuad(v[0], v[1], 0, 0)[..1]) else None
    else
      if v[2] % 4 == 0 then Some(DecodeQuad(v[0], v[1], v[2], 0)[..2]) else None
  }

  /**
    The bytes that the sextets v encode, or None when the last sextet of a final
    partial group has non-zero unused bits (a non-canonical last symbol).
   */
  function SextetsToBytes(v: seq<Sextet>): (r: Option<seq<Byte>>)
    requires |v| % 4 != 1
    ensures r.Some? ==> |r.value| == |v| * 3 / 4
    ensures r.None? ==> |v| % 4 != 0
    decreases |v|
  {
    if |v| < 4 then LastGroupToBytes(v)
    else
      assert |v| * 3 / 4 == 3 + |v[4..]| * 3 / 4;
      match SextetsToBytes(v[4..])
      case None => None
      case Some(rest) => Some(DecodeQuad(v[0], v[1], v[2], v[3]) + rest)
  }

  /** A final group of one byte survives the round trip, its last sextet carrying four zero bits. */
  lemma OneByteRoundTrip(b0: Byte)
    ensures SextetsToBytes(BytesToSextets([b0])) == Some([b0])
  {
    var v := BytesToSextets([b0]);
    TripleRoundTrip(b0, 0, 0);
    assert v[1] % 16 == 0;
    assert DecodeQuad(v[0], v[1], 0, 0)[..1] == [b0];
  }

  /** A final group of two bytes survives the round trip, its last sextet carrying two zero bits. */
  lemma TwoBytesRoundTrip(b0: Byte, b1: Byte)
    ensures SextetsToBytes(BytesToSextets([b0, b1])) == Some([b0, b1])
  {
    var v := BytesToSextets([b0, b1]);
    TripleRoundTrip(b0, b1, 0);
    assert v[2] % 4 == 0;
    assert DecodeQuad(v[0], v[1], v[2], 0)[..2] == [b0, b1];
  }

  /** Turning bytes into sextets loses nothing: the sextets give the bytes back. */
  lemma {:induction false} BytesRoundTrip(b: seq<Byte>)
    ensures |BytesToSextets(b)| % 4 != 1
    ensures SextetsToBytes(BytesToSextets(b)) == Some(b)
    decreases |b|
  {
    if |b| == 1 {
      assert b == [b[0]];
      OneByteRoundTrip(b[0]);
    } else if |b| == 2 {
      assert b == [b[0], b[1]];
      TwoBytesRoundTrip(b[0], b[1]);
    } else if |b| >= 3 {
      var q := EncodeTriple(b[0], b[1], b[2]);
      var rest := BytesToSextets(b[3..]);
      BytesRoundTrip(b[3..]);
      TripleRoundTrip(b[0], b[1], b[2]);
      assert BytesToSextets(b) == q + rest;
      WholeGroupFirst(q, rest);
      assert b == [b[0], b[1], b[2]] + b[3..];
    }
  }

  /** A whole group in front decodes on its own, ahead of what follows it. */
  lemma WholeGroupFirst(q: seq<Sextet>, rest: seq<Sextet>)
    requires |q| == 4 && |rest| % 4 != 1
    ensures |q + rest| % 4 != 1
    ensures SextetsToBytes(q + rest) ==
      match SextetsToBytes(rest)
      case None => None
      case Some(r) => Some(DecodeQuad(q[0], q[1], q[2], q[3]) + r)
  {
    assert (q + rest)[4..] == rest;
  }

  /** Two sextets that decode are the canonical grouping of the one byte they decode to. */
  lemma TwoSextetsRoundTrip(v: seq<Sextet>)
    requires |v| == 2 && SextetsToBytes(v).Some?
    ensures BytesToSextets(SextetsToBytes(v).value) == v
  {
    var q := DecodeQuad(v[0], v[1], 0, 0);
    QuadRoundTrip(v[0], v[1], 0, 0);
    assert q[1] == 0 && q[2] == 0;
    assert q[..1] == [q[0]];
  }

  /** Three sextets that decode are the canonical grouping of the two bytes they decode to. */
  lemma ThreeSextetsRoundTrip(v: seq<Sextet>)
    requires |v| == 3 && SextetsToBytes(v).Some?
    ensures BytesToSextets(SextetsToBytes(v).value) == v
  {
    var q := DecodeQuad(v[0], v[1], v[2], 0);
    QuadRoundTrip(v[0], v[1], v[2], 0);
    assert q[2] == 0;
    assert q[..2] == [q[0], q[1]];
  }

  /** Every sextet sequence that decodes is the canonical encoding of what it decodes to. */
  lemma {:induction false} SextetsRoundTrip(v: seq<Sextet>)
    requires |v| % 4 != 1
    requires SextetsToBytes(v).Some?
    ensures BytesToSextets(SextetsToBytes(v).value) == v
    decreases |v|
  {
    if |v| == 2 {
      TwoSextetsRoundTrip(v);
    } else if |v| == 3 {
      ThreeSextetsRoundTrip(v);
    } else if |v| >= 4 {
      WholeGroupFirst(v[..4], v[4..]);
      assert v == v[..4] + v[4..];
      SextetsRoundTrip(v[4..]);
      QuadThenRest(v[..4], SextetsToBytes(v[4..]).value);
    }
  }

  /** A whole group of sextets in front of the canonical grouping of rest is the canonical grouping of its bytes and rest. */
  lemma QuadThenRest(c: seq<Sextet>, rest: seq<Byte>)
    requires |c| == 4
    ensures BytesToSextets(DecodeQuad(c[0], c[1], c[2], c[3]) + rest) == c + BytesToSextets(rest)
  {
    var q := DecodeQuad(c[0], c[1], c[2], c[3]);
    var b := q + rest;
    QuadRoundTrip(c[0], c[1], c[2], c[3]);
    assert b[..3] == q && b[3..] == rest;
    assert c == [c[0], c[1], c[2], c[3]];
  }

  /** When sextets are refused, it is for the unused low bits of the last sextet of a partial group. */
  lemma {:induction false} RefusedLastSextet(v: seq<Sextet>)
    requires |v| % 4 != 1 && SextetsToBytes(v).None?
    ensures |v| % 4 == 2 || |v| % 4 == 3
    ensures UnusedBits(|v|, v[|v| - 1]) != 0
    decreases |v|
  {
    if |v| >= 4 {
      RefusedLastSextet(v[4..]);
      assert v[|v| - 1] == v[4..][|v| - 5];
    }
  }

  // ----- Symbols ----------------------------------------------------------

  /** The symbols of a in the order of the sextets. */
  function Symbols(a: Alphabet, v: seq<Sextet>): (t: string)
    ensures |t| == |v|
  {
    seq(|v|, i requires 0 <= i < |v| => Symbol(a, v[i]))
  }

  /**
    The values of the symbols of t, or Err(i) where t[i] is the first character
    that is not a symbol of a.
   */
  function Sextets(a: Alphabet, t: string): (r: Result<seq<Sextet>, nat>)
    ensures r.Ok? ==> Symbols(a, r.value) == t
    ensures r.Err? ==> r.error < |t| && !InAlphabet(a, t[r.error])
    ensures r.Err? ==> forall i :: 0 <= i < r.error ==> InAlphabet(a, t[i])
    decreases |t|
  {
    if t == [] then Ok([])
    else match Index(a, t[0])
      case None => Err(0)
      case Some(v) =>
        match Sextets(a, t[1..])
        case Err(i) => Err(i + 1)
        case Ok(rest) =>
          assert Symbols(a, [v] + rest) == [t[0]] + t[1..];
          Ok([v] + rest)
  }

  /** Reading the symbols of v back gives v. */
  lemma SextetsOfSymbols(a: Alphabet, v: seq<Sextet>)
    ensures Sextets(a, Symbols(a, v)) == Ok(v)
  {
    var t := Symbols(a, v);
    match Sextets(a, t)
    case Err(i) =>
      IndexOfSymbol(a, v[i]);
    case Ok(w) =>
      forall i | 0 <= i < |v| ensures w[i] == v[i] {
        IndexOfSymbol(a, v[i]);
        IndexOfSymbol(a, w[i]);
        assert Symbols(a, w)[i] == t[i];
      }
      assert w == v;
  }

  // ----- Padding ----------------------------------------------------------

  /** k pad characters. */
  function Pad(k: nat): (t: string)
    ensures |t| == k && forall i :: 0 <= i < k ==> t[i] == PadChar
  {
    seq(k, _ => PadChar)
  }

  /** The canonical number of '=' after n symbols: the group is rounded out to four. */
  function PadLength(n: nat): (k: nat)
    ensures k < 4 && (n % 4 != 1 ==> (n + k) % 4 == 0)
  {
    if n % 4 == 2 then 2 else if n % 4 == 3 then 1 else 0
  }

  /** The number of '=' at the end of s. */
  function TrailingPads(s: string): (p: nat)
    ensures p <= |s|
    ensures forall i :: |s| - p <= i < |s| ==> s[i] == PadChar
    ensures p < |s| ==> s[|s| - p - 1] != PadChar
    decreases |s|
  {
    if |s| > 0 && s[|s| - 1] == PadChar then TrailingPads(s[..|s| - 1]) + 1 else 0
  }

  // ----- The codec --------------------------------------------------------

  /** The encoding of b without its padding: ceil(8|b| / 6) symbols, none of them '='. */
  function EncodeUnpadded(a: Alphabet, b: seq<Byte>): (t: string)
    ensures |t| == (8 * |b| + 5) / 6
    ensures forall i :: 0 <= i < |t| ==> t[i] != PadChar
  {
    Symbols(a, BytesToSextets(b))
  }

  /** The canonical, padded encoding of b (sections 3.2 and 4 or 5 of RFC 4648). */
  function Encode(a: Alphabet, b: seq<Byte>): (s: string)
    ensures |s| == 4 * ((|b| + 2) / 3)
  {
    var v := BytesToSextets(b);
    Symbols(a, v) + Pad(PadLength(|v|))
  }

  /**
    Decoding under the indifferent padding mode: the trailing '=' are set apart
    and the symbols before them are decoded.
   */
  function Decode(a: Alphabet, s: string): (r: Result<seq<Byte>, DecodeError>)
    ensures s == [] ==> r == Ok([])
  {
    DecodeBody(a, s[..|s| - TrailingPads(s)], TrailingPads(s))
  }

  /**
    Decoding of body, the input without its p trailing '=': a character outside
    the alphabet is refused first, then a lone symbol in the last group, then
    more padding than the canonical form has, then non-zero unused bits in the
    last symbol.
   */
  function DecodeBody(a: Alphabet, body: string, p: nat): (r: Result<seq<Byte>, DecodeError>)
    ensures r.Err? && (r.error.InvalidByte? || r.error.InvalidLastSymbol?) ==>
      r.error.index < |body| && body[r.error.index] == r.error.symbol
  {
    match Sextets(a, body)
    case Err(i) => Err(InvalidByte(i, body[i]))
    case Ok(v) =>
      if |v| % 4 == 1 then Err(InvalidLength)
      else if p > PadLength(|v|) then Err(InvalidPadding)
      else match SextetsToBytes(v)
          case None => Err(InvalidLastSymbol(|body| - 1, body[|body| - 1]))
          case Some(bytes) => Ok(bytes)
  }

  /** s is the encoding e with some (possibly none, possibly all) of its trailing '=' dropped. */
  predicate IsPaddingVariant(s: string, e: string) {
    |s| <= |e| && s == e[..|s|] && forall i :: |s| <= i < |e| ==> e[i] == PadChar
  }

  // ----- Properties of the codec -------------------------------------------

  /** What DecodeBody accepts is the unpadded encoding of its result, followed by at most the canonical padding. */
  lemma DecodeBodySound(a: Alphabet, body: string, p: nat)
    requires DecodeBody(a, body, p).Ok?
    ensures var b := DecodeBody(a, body, p).value;
      body == EncodeUnpadded(a, b) && p <= PadLength(|BytesToSextets(b)|)
  {
    var v := Sextets(a, body).value;
    SextetsRoundTrip(v);
  }

  /** Every decoded string is the canonical encoding of its bytes, up to dropped padding. */
  lemma DecodeSound(a: Alphabet, s: string)
    requires Decode(a, s).Ok?
    ensures IsPaddingVariant(s, Encode(a, Decode(a, s).value))
  {
    var p := TrailingPads(s);
    var body := s[..|s| - p];
    assert Decode(a, s) == DecodeBody(a, body, p);
    var b := Decode(a, s).value;
    DecodeBodySound(a, body, p);
    EncodeShape(a, b);
    SplitTrailingPads(s);
    ShorterPadding(body, p, PadLength(|BytesToSextets(b)|));
  }

  /** s is the text before its trailing '=' followed by those '='. */
  lemma SplitTrailingPads(s: string)
    ensures s == s[..|s| - TrailingPads(s)] + Pad(TrailingPads(s))
  {
    SplitPadSuffix(s, TrailingPads(s));
  }

  /** A string whose last p characters are '=' is its first |s| - p characters followed by Pad(p). */
  lemma SplitPadSuffix(s: string, p: nat)
    requires p <= |s| && forall i :: |s| - p <= i < |s| ==> s[i] == PadChar
    ensures s == s[..|s| - p] + Pad(p)
  {
    assert forall i :: 0 <= i < |s| ==> s[i] == (s[..|s| - p] + Pad(p))[i];
  }

  /** Dropping some of the padding gives a padding variant. */
  lemma ShorterPadding(t: string, p: nat, k: nat)
    requires p <= k
    ensures IsPaddingVariant(t + Pad(p), t + Pad(k))
  {
    assert t + Pad(p) == (t + Pad(k))[..|t| + p];
  }

  /** t holds no pad character. */
  predicate NoPad(t: string) {
    forall i :: 0 <= i < |t| ==> t[i] != PadChar
  }

  /** The encoding is its symbols followed by the canonical padding, and the symbols hold no '='. */
  lemma EncodeShape(a: Alphabet, b: seq<Byte>)
    ensures Encode(a, b) == EncodeUnpadded(a, b) + Pad(PadLength(|BytesToSextets(b)|))
    ensures NoPad(EncodeUnpadded(a, b))
  {
  }

  /** A padding variant of t + Pad(k), where t holds no '=', keeps all of t and some of the padding. */
  lemma PaddingVariantShape(s: string, t: string, k: nat)
    requires NoPad(t) && IsPaddingVariant(s, t + Pad(k))
    ensures |t| <= |s| <= |t| + k && s == t + Pad(|s| - |t|)
  {
    var e := t + Pad(k);
    assert |t| > 0 ==> e[|t| - 1] == t[|t| - 1];
    forall i | 0 <= i < |s| ensures s[i] == (t + Pad(|s| - |t|))[i] {
      assert s[i] == e[i];
    }
  }

  /** The trailing '=' of t + Pad(k) are exactly the k added ones when t does not end in '='. */
  lemma TrailingPadsOfPadded(t: string, k: nat)
    requires t == [] || t[|t| - 1] != PadChar
    ensures TrailingPads(t + Pad(k)) == k
  {
    var s := t + Pad(k);
    assert forall i :: |t| <= i < |s| ==> s[i] == PadChar;
    assert |t| > 0 ==> s[|t| - 1] == t[|t| - 1];
  }

  /** Decode succeeds on well-formed symbols followed by at most the canonical padding. */
  lemma DecodeOfSymbols(a: Alphabet, s: string, v: seq<Sextet>)
    requires |v| % 4 != 1 && SextetsToBytes(v).Some?
    requires TrailingPads(s) <= PadLength(|v|)
    requires s[..|s| - TrailingPads(s)] == Symbols(a, v)
    ensures Decode(a, s) == Ok(SextetsToBytes(v).value)
  {
    SextetsOfSymbols(a, v);
  }

  /** Symbols followed by at most the canonical padding never leave a single symbol in the last group. */
  lemma PaddedLength(n: nat, p: nat)
    requires n % 4 != 1 && p <= PadLength(n)
    ensures (n + p) % 4 != 1
  {
  }

  /** Every padding variant of the encoding of b decodes to b. */
  lemma DecodeComplete(a: Alphabet, b: seq<Byte>, s: string)
    requires IsPaddingVariant(s, Encode(a, b))
    ensures Decode(a, s) == Ok(b)
  {
    var v := BytesToSextets(b);
    var sym := Symbols(a, v);
    EncodeShape(a, b);
    PaddingVariantShape(s, sym, PadLength(|v|));
    TrailingPadsOfPadded(sym, |s| - |sym|);
    assert s[..|s| - TrailingPads(s)] == sym;
    BytesRoundTrip(b);
    DecodeOfSymbols(a, s, v);
  }

  /** Decoding accepts exactly the canonical encodings with any part of their padding dropped. */
  lemma DecodeCharacterization(a: Alphabet, s: string, b: seq<Byte>)
    ensures Decode(a, s) == Ok(b) <==> IsPaddingVariant(s, Encode(a, b))
  {
    if Decode(a, s) == Ok(b) {
      DecodeSound(a, s);
    }
    if IsPaddingVariant(s, Encode(a, b)) {
      DecodeComplete(a, b, s);
    }
  }

  /** The round trip: decoding the encoding gives the bytes back. */
  lemma DecodeEncode(a: Alphabet, b: seq<Byte>)
    ensures Decode(a, Encode(a, b)) == Ok(b)
  {
    DecodeComplete(a, b, Encode(a, b));
  }

  /**
    Padding indifference: the encoding with all its padding removed also decodes
    to b, and its length is not a multiple of four whenever |b| is not a multiple
    of three.
   */
  lemma DecodeUnpadded(a: Alphabet, b: seq<Byte>)
    ensures Decode(a, EncodeUnpadded(a, b)) == Ok(b)
    ensures |b| % 3 != 0 <==> |EncodeUnpadded(a, b)| % 4 != 0
  {
    var t := EncodeUnpadded(a, b);
    EncodeShape(a, b);
    assert t == Encode(a, b)[..|t|];
    DecodeComplete(a, b, t);
    assert |t| == |BytesToSextets(b)|;
    SextetCountMod(|b|);
  }

  /** The number of sextets of n bytes is a multiple of four exactly when n is a multiple of three. */
  lemma SextetCountMod(n: nat)
    ensures var m := 4 * (n / 3) + (if n % 3 == 0 then 0 else n % 3 + 1);
      n % 3 != 0 <==> m % 4 != 0
  {
  }

  /** What a successful DecodeBody has established about the body and its padding. */
  lemma DecodeBodyOk(a: Alphabet, body: string, p: nat)
    requires DecodeBody(a, body, p).Ok?
    ensures |body| % 4 != 1 && p <= PadLength(|body|)
    ensures forall k :: 0 <= k < |body| ==> InAlphabet(a, body[k])
  {
    var v := Sextets(a, body).value;
    forall k | 0 <= k < |body| ensures InAlphabet(a, body[k]) {
      IndexOfSymbol(a, v[k]);
    }
  }

  /** In a string that decodes, every character before the trailing '=' is a symbol of the alphabet. */
  lemma DecodedChars(a: Alphabet, s: string)
    requires Decode(a, s).Ok?
    ensures forall k :: 0 <= k < |s| - TrailingPads(s) ==> InAlphabet(a, s[k])
  {
    var body := s[..|s| - TrailingPads(s)];
    DecodeBodyOk(a, body, TrailingPads(s));
    assert forall k :: 0 <= k < |body| ==> s[k] == body[k];
  }

  /** A string that decodes never leaves a single symbol in its last group of four. */
  lemma DecodedLength(a: Alphabet, s: string)
    requires Decode(a, s).Ok?
    ensures |s| % 4 != 1
  {
    var p := TrailingPads(s);
    DecodeBodyOk(a, s[..|s| - p], p);
    PaddedLength(|s| - p, p);
  }

  // Each decoding error points at what is wrong with the input. The facts are
  // first stated about DecodeBody, then carried over to the whole input.

  /** What each error of DecodeBody says about the body and its padding. */
  lemma DecodeBodyErrors(a: Alphabet, body: string, p: nat)
    requires DecodeBody(a, body, p).Err?
    ensures var e := DecodeBody(a, body, p).error;
      && (e.InvalidByte? ==>
            && e.index < |body| && body[e.index] == e.symbol && !InAlphabet(a, e.symbol)
            && forall j :: 0 <= j < e.index ==> InAlphabet(a, body[j]))
      && (e.InvalidLength? ==> |body| % 4 == 1)
      && (e.InvalidPadding? ==> p > PadLength(|body|))
      && (e.InvalidLastSymbol? ==>
            && 0 < |body| && e.index == |body| - 1 && body[e.index] == e.symbol
            && InAlphabet(a, e.symbol)
            && (|body| % 4 == 2 || |body| % 4 == 3)
            && UnusedBits(|body|, Index(a, e.symbol).value) != 0)
  {
    match Sextets(a, body)
    case Err(i) =>
    case Ok(v) =>
      if DecodeBody(a, body, p).error.InvalidLastSymbol? {
        DecodeBodyLastSymbol(a, body, p);
      }
  }

  /** The length case of DecodeBodyErrors on its own. */
  lemma DecodeBodyLength(a: Alphabet, body: string, p: nat)
    requires DecodeBody(a, body, p).Err? && DecodeBody(a, body, p).error.InvalidLength?
    ensures |body| % 4 == 1
  {
    assert |Sextets(a, body).value| == |body|;
  }

  /** The padding case of DecodeBodyErrors on its own. */
  lemma DecodeBodyPadding(a: Alphabet, body: string, p: nat)
    requires DecodeBody(a, body, p).Err? && DecodeBody(a, body, p).error.InvalidPadding?
    ensures p > PadLength(|body|)
  {
    assert |Sextets(a, body).value| == |body|;
  }

  /** Decode is DecodeBody applied to the input without its trailing '='. */
  lemma SplitDecode(a: Alphabet, s: string) returns (body: string, p: nat)
    ensures p == TrailingPads(s) && p <= |s| && body == s[..|s| - p] && |body| == |s| - p
    ensures Decode(a, s) == DecodeBody(a, body, p)
  {
    p := TrailingPads(s);
    body := s[..|s| - p];
  }

  /** The last-symbol case of DecodeBodyErrors on its own. */
  lemma DecodeBodyLastSymbol(a: Alphabet, body: string, p: nat)
    requires DecodeBody(a, body, p).Err? && DecodeBody(a, body, p).error.InvalidLastSymbol?
    ensures var e := DecodeBody(a, body, p).error;
      && 0 < |body|
      && e.index == |body| - 1
      && body[e.index] == e.symbol
      && InAlphabet(a, e.symbol)
      && (|body| % 4 == 2 || |body| % 4 == 3)
      && UnusedBits(|body|, Index(a, e.symbol).value) != 0
  {
    var v := Sextets(a, body).value;
    IndexOfSymbol(a, v[|body| - 1]);
    RefusedLastSextet(v);
  }

  /**
    The order of DecodeBody's checks: an error other than InvalidByte means every
    character of the body is in the alphabet; InvalidPadding and InvalidLastSymbol
    mean the length check passed; InvalidLastSymbol means the padding check passed.
   */
  lemma DecodeBodyCheckOrder(a: Alphabet, body: string, p: nat)
    requires DecodeBody(a, body, p).Err?
    ensures var e := DecodeBody(a, body, p).error;
      !e.InvalidByte? ==> forall k :: 0 <= k < |body| ==> InAlphabet(a, body[k])
    ensures var e := DecodeBody(a, body, p).error;
      (e.InvalidPadding? || e.InvalidLastSymbol?) ==> |body| % 4 != 1
    ensures var e := DecodeBody(a, body, p).error;
      e.InvalidLastSymbol? ==> p <= PadLength(|body|)
  {
    match Sextets(a, body)
    case Err(i) =>
    case Ok(v) =>
      forall k | 0 <= k < |body| ensures InAlphabet(a, body[k]) {
        IndexOfSymbol(a, v[k]);
      }
  }

  /** InvalidByte names the first character, before the trailing '=', that is not in the alphabet. */
  lemma DecodeInvalidByte(a: Alphabet, s: string)
    requires Decode(a, s).Err? && Decode(a, s).error.InvalidByte?
    ensures var e := Decode(a, s).error;
      && e.index < |s| - TrailingPads(s)
      && s[e.index] == e.symbol
      && !InAlphabet(a, e.symbol)
      && forall j :: 0 <= j < e.index ==> InAlphabet(a, s[j])
  {
    var body := s[..|s| - TrailingPads(s)];
    DecodeBodyErrors(a, body, TrailingPads(s));
    assert forall j :: 0 <= j < |body| ==> s[j] == body[j];
  }

  /** InvalidLength: the symbols before the trailing '=' cannot form whole bytes. */
  lemma DecodeInvalidLength(a: Alphabet, s: string)
    requires Decode(a, s).Err? && Decode(a, s).error.InvalidLength?
    ensures (|s| - TrailingPads(s)) % 4 == 1
  {
    var body, p := SplitDecode(a, s);
    DecodeBodyLength(a, body, p);
  }

  /** InvalidPadding: there are more trailing '=' than the canonical form has. */
  lemma DecodeInvalidPadding(a: Alphabet, s: string)
    requires Decode(a, s).Err? && Decode(a, s).error.InvalidPadding?
    ensures TrailingPads(s) > PadLength(|s| - TrailingPads(s))
  {
    var body, p := SplitDecode(a, s);
    DecodeBodyPadding(a, body, p);
  }

  /**
    InvalidLastSymbol names the last symbol before the trailing '=': a symbol of
    the alphabet whose unused low bits (four after two symbols, two after three)
    are not all zero.
   */
  lemma DecodeInvalidLastSymbol(a: Alphabet, s: string)
    requires Decode(a, s).Err? && Decode(a, s).error.InvalidLastSymbol?
    ensures var e := Decode(a, s).error;
      && 0 < |s| - TrailingPads(s)
      && e.index == |s| - TrailingPads(s) - 1
      && s[e.index] == e.symbol
      && InAlphabet(a, e.symbol)
      && ((|s| - TrailingPads(s)) % 4 == 2 || (|s| - TrailingPads(s)) % 4 == 3)
      && UnusedBits(|s| - TrailingPads(s), Index(a, e.symbol).value) != 0
  {
    var body, p := SplitDecode(a, s);
    DecodeBodyLastSymbol(a, body, p);
    var e := DecodeBody(a, body, p).error;
    assert s[e.index] == body[e.index];
    assert |s| - TrailingPads(s) == |body|;
  }

  /**
    The order of the checks: "AB" has non-zero unused bits in 'B' and is refused
    for them, but with three '=' added the padding is refused first.
   */
  lemma PaddingCheckedBeforeLastSymbol()
    ensures Decode(Standard, "AB") == Err(InvalidLastSymbol(1, 'B'))
    ensures Decode(Standard, "AB===") == Err(InvalidPadding)
  {
    assert Sextets(Standard, "AB") == Ok([0, 1]) by {
      SextetsOfSymbols(Standard, [0, 1]);
      assert Symbols(Standard, [0, 1]) == "AB";
    }
    TrailingPadsOfPadded("AB", 0);
    assert "AB" + Pad(0) == "AB";
    TrailingPadsOfPadded("AB", 3);
    assert "AB" + Pad(3) == "AB===";
    assert "AB==="[..2] == "AB";
  }

  /** A character outside the alphabet that is not '=' makes decoding fail. */
  lemma DecodeRejectsForeignSymbol(a: Alphabet, s: string, i: nat)
    requires i < |s| && s[i] != PadChar && !InAlphabet(a, s[i])
    ensures Decode(a, s).Err?
  {
    if Decode(a, s).Ok? {
      DecodedChars(a, s);
    }
  }

  /** A '=' followed by a symbol, that is padding that is not at the end, makes decoding fail. */
  lemma DecodeRejectsInnerPadding(a: Alphabet, s: string, i: nat, j: nat)
    requires i < j < |s| && s[i] == PadChar && s[j] != PadChar
    ensures Decode(a, s).Err?
  {
    if Decode(a, s).Ok? {
      DecodedChars(a, s);
    }
  }

  /** The standard decoder rejects the URL-safe symbols '-' and '_'. */
  lemma StandardRejectsUrlSafeSymbols(s: string, i: nat)
    requires i < |s| && (s[i] == '-' || s[i] == '_')
    ensures Decode(Standard, s).Err?
  {
    DecodeRejectsForeignSymbol(Standard, s, i);
  }

  /** The URL-safe decoder rejects the standard symbols '+' and '/'. */
  lemma UrlSafeRejectsStandardSymbols(s: string, i: nat)
    requires i < |s| && (s[i] == '+' || s[i] == '/')
    ensures Decode(UrlSafe, s).Err?
  {
    DecodeRejectsForeignSymbol(UrlSafe, s, i);
  }

  /** The two encodings of the same bytes differ only in '+' / '-' and '/' / '_'. */
  lemma EncodeUrlSafeIsTranslated(b: seq<Byte>)
    ensures var e := Encode(Standard, b);
      Encode(UrlSafe, b) == seq(|e|, i requires 0 <= i < |e| => ToUrlSafeChar(e[i]))
  {
    var v := BytesToSextets(b);
    var e := Encode(Standard, b);
    var u := Encode(UrlSafe, b);
    assert e == Symbols(Standard, v) + Pad(PadLength(|v|));
    assert u == Symbols(UrlSafe, v) + Pad(PadLength(|v|));
    forall i | 0 <= i < |v| ensures u[i] == ToUrlSafeChar(e[i]) {
      UrlSafeSymbolIsTranslated(v[i]);
    }
  }

  /** Every character of an encoding is a symbol of its alphabet or trailing padding. */
  lemma EncodeUsesAlphabet(a: Alphabet, b: seq<Byte>)
    ensures var e := Encode(a, b);
      forall i :: 0 <= i < |e| - TrailingPads(e) ==> InAlphabet(a, e[i])
    ensures TrailingPads(Encode(a, b)) == PadLength(|BytesToSextets(b)|) <= 2
  {
    var v := BytesToSextets(b);
    var e := Encode(a, b);
    EncodeShape(a, b);
    TrailingPadsOfPadded(Symbols(a, v), PadLength(|v|));
    forall i | 0 <= i < |v| ensures InAlphabet(a, e[i]) {
      IndexOfSymbol(a, v[i]);
    }
  }

  lemma EncodeEmpty(a: Alphabet)
    ensures Encode(a, []) == ""
  {
  }
}
