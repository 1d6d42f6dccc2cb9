/** Character classes (ascii.c) and the path alphabet of the request parser. */
module Ascii {

  predicate IsUpper(c: char) {
    'A' <= c <= 'Z'
  }

  predicate IsAlpha(c: char) {
    'a' <= c <= 'z' || 'A' <= c <= 'Z'
  }

  predicate IsDigit(c: char) {
    '0' <= c <= '9'
  }

  predicate IsAlnum(c: char) {
    IsDigit(c) || IsAlpha(c)
  }

  predicate IsHex(c: char) {
    IsDigit(c) || 'A' <= c <= 'F' || 'a' <= c <= 'f'
  }

  /** Everything outside the unreserved set of section 2.3 of RFC 3986. */
  predicate NeedsEncoding(c: char) {
    !IsAlnum(c) && c != '-' && c != '.' && c != '_' && c != '~'
  }

  /** Header names are made of letters and '-' only. */
  predicate IsNameChar(c: char) {
    IsAlpha(c) || c == '-'
  }

  /** The source asks strchr, which also finds the terminating NUL of its
      alphabet: NUL is a path character. */
  predicate IsPathChar(c: char) {
    IsAlpha(c) || IsDigit(c) || c in "!$?&'()*+,;=%-._~:@/" || c == '\0'
  }

  function ToLower(c: char): char {
    if IsUpper(c) then (c as int - 'A' as int + 'a' as int) as char else c
  }

  const UPPER := "ABCDEFGHIJKLMNOPQRSTUVWXYZ"
  const LOWER := "abcdefghijklmnopqrstuvwxyz"
  const DIGITS := "0123456789"

  /** The classes as alphabets: method names are written with capital letters, header
      names with letters and '-', paths with the unreserved characters, the delimiters
      ! $ & ' ( ) * + , ; = and : @ / ? and %, or a NUL. */
  lemma AlphabetsExactly(c: char)
    ensures IsUpper(c) <==> c in UPPER
    ensures IsDigit(c) <==> c in DIGITS
    ensures IsAlnum(c) <==> c in UPPER || c in LOWER || c in DIGITS
    ensures IsNameChar(c) <==> c in UPPER || c in LOWER || c == '-'
    ensures IsPathChar(c) <==> !NeedsEncoding(c) || c in "!$&'()*+,;=" || c in ":@/?" || c == '%' || c == '\0'
  {
    UpperExactly(c);
    LowerExactly(c);
    DigitsExactly(c);
  }

  lemma UpperExactly(c: char)
    ensures 'A' <= c <= 'Z' <==> c in UPPER
  {
    if 'A' <= c <= 'Z' { assert UPPER[c as int - 'A' as int] == c; }
  }

  lemma LowerExactly(c: char)
    ensures 'a' <= c <= 'z' <==> c in LOWER
  {
    if 'a' <= c <= 'z' { assert LOWER[c as int - 'a' as int] == c; }
  }

  lemma DigitsExactly(c: char)
    ensures '0' <= c <= '9' <==> c in DIGITS
  {
    if '0' <= c <= '9' { assert DIGITS[c as int - '0' as int] == c; }
  }

  /** tolower takes the k-th capital letter to the k-th small one and leaves everything
      else alone. */
  lemma ToLowerExactly(c: char)
    ensures forall k | 0 <= k < 26 :: ToLower(UPPER[k]) == LOWER[k]
    ensures c !in UPPER ==> ToLower(c) == c
  {
    UpperExactly(c);
  }
}
