/**
  The two 64-symbol alphabets of RFC 4648: the standard one of section 4 and the
  URL- and filename-safe one of section 5. They agree on the first 62 symbols
  (A-Z, a-z, 0-9) and differ in the symbols for 62 and 63: '+' and '/' in the
  standard alphabet, '-' and '_' in the URL-safe one. The pad character '=' is
  in neither.
 */
module Alphabet {
  import opened Wrappers

  /** The value of one base64 symbol: six bits. */
  type Sextet = v: int | 0 <= v < 64

  datatype Alphabet = Standard | UrlSafe

  const PadChar: char := '='

  /** The symbol that encodes the value v (the encoding tables of sections 4 and 5). */
  function Symbol(a: Alphabet, v: Sextet): (c: char)
    ensures c != PadChar
    ensures v < 62 ==> ('A' <= c <= 'Z' || 'a' <= c <= 'z' || '0' <= c <= '9')
  {
    if v < 26 then ('A' as int + v) as char
    else if v < 52 then ('a' as int + (v - 26)) as char
    else if v < 62 then ('0' as int + (v - 52)) as char
    else if v == 62 then (if a == Standard then '+' else '-')
    else (if a == Standard then '/' else '_')
  }

  /** The value a symbol stands for, or None for a character outside the alphabet. */
  function Index(a: Alphabet, c: char): (r: Option<Sextet>)
    ensures r.Some? ==> Symbol(a, r.value) == c
  {
    if 'A' <= c <= 'Z' then Some(c as int - 'A' as int)
    else if 'a' <= c <= 'z' then Some(c as int - 'a' as int + 26)
    else if '0' <= c <= '9' then Some(c as int - '0' as int + 52)
    else if c == Symbol(a, 62) then Some(62)
    else if c == Symbol(a, 63) then Some(63)
    else None
  }

  predicate InAlphabet(a: Alphabet, c: char) {
    Index(a, c).Some?
  }

  /** Index inverts Symbol: every symbol is read back as the value it encodes. */
  lemma IndexOfSymbol(a: Alphabet, v: Sextet)
    ensures Index(a, Symbol(a, v)) == Some(v)
  {
  }

  /** The symbol of the other alphabet: '+' and '/' become '-' and '_' and the rest stay. */
  function ToUrlSafeChar(c: char): char {
    if c == '+' then '-' else if c == '/' then '_' else c
  }

  /** The alphabets differ exactly in the two symbols for 62 and 63. */
  lemma UrlSafeSymbolIsTranslated(v: Sextet)
    ensures Symbol(UrlSafe, v) == ToUrlSafeChar(Symbol(Standard, v))
    ensures v < 62 <==> Symbol(UrlSafe, v) == Symbol(Standard, v)
  {
  }

  /** '-' and '_' are not standard symbols, '+' and '/' are not URL-safe ones, '=' is in neither. */
  lemma AlphabetsAreExclusive()
    ensures !InAlphabet(Standard, '-') && !InAlphabet(Standard, '_')
    ensures !InAlphabet(UrlSafe, '+') && !InAlphabet(UrlSafe, '/')
    ensures !InAlphabet(Standard, PadChar) && !InAlphabet(UrlSafe, PadChar)
  {
  }
}
