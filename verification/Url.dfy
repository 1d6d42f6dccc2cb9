/** Percent-coding (buf_encode_url and decode_url in http.c; sections 2.1 and 2.3
    of RFC 3986). */
module Url {
  import opened Ascii
  import opened Text
  import opened Buffers

  ghost predicate IsBytes(s: string) {
    forall i | 0 <= i < |s| :: s[i] as int < 256
  }

  const HEX := "0123456789ABCDEF"

  function EncodeByte(c: char): (e: string)
    requires c as int < 256
  {
    if NeedsEncoding(c) then ['%', HEX[c as int / 16], HEX[c as int % 16]] else [c]
  }

  function EncodeUrl(s: string): string
    requires IsBytes(s)
  {
    if s == [] then [] else EncodeUrl(s[..|s| - 1]) + EncodeByte(s[|s| - 1])
  }

  function HexValue(c: char): (v: nat)
    requires IsHex(c)
    ensures v < 16
  {
    if IsDigit(c) then c as int - '0' as int
    else if 'A' <= c <= 'F' then c as int - 'A' as int + 10
    else c as int - 'a' as int + 10
  }

  /** The byte a decoding step writes and the number of bytes it reads. */
  function DecodeOne(s: string): (r: (char, nat))
    requires s != []
    ensures 1 <= r.1 <= |s|
  {
    if s[0] == '%' && |s| >= 2 && s[1] == '%' then ('%', 2)
    else if s[0] == '%' && |s| >= 3 && IsHex(s[1]) && IsHex(s[2]) then
      ((HexValue(s[1]) * 16 + HexValue(s[2])) as char, 3)
    else (s[0], 1)
  }

  function DecodeUrl(s: string): (t: string)
    ensures |t| <= |s|
  {
    if s == [] then [] else [DecodeOne(s).0] + DecodeUrl(s[DecodeOne(s).1..])
  }

  // ----- The loops -----

  /** The body of the loop of buf_encode_url. */
  method PushEncoded(buf: Buffer, c: char)
    requires buf.Valid() && c as int < 256
    modifies buf, buf.data
    ensures buf.Valid() && (buf.data == old(buf.data) || fresh(buf.data))
    ensures buf.Contents() == old(buf.Contents()) + EncodeByte(c)
  {
    if NeedsEncoding(c) {
      buf.Push('%');
      buf.Push(HEX[c as int / 16]);
      buf.Push(HEX[c as int % 16]);
    } else {
      buf.Push(c);
    }
  }

  /** buf_encode_url: appends the encoding, whatever the buffer held before and
      however often it has to grow. */
  method BufEncodeUrl(buf: Buffer, url: string)
    requires buf.Valid()
    requires IsBytes(url) && NUL !in url
    modifies buf, buf.data
    ensures buf.Valid() && (buf.data == old(buf.data) || fresh(buf.data))
    ensures buf.Contents() == old(buf.Contents()) + EncodeUrl(url)
  {
    hide EncodeByte;
    assert url[..0] == [];
    for i := 0 to |url|
      invariant buf.Valid() && (buf.data == old(buf.data) || fresh(buf.data))
      invariant buf.Contents() == old(buf.Contents()) + EncodeUrl(url[..i])
    {
      PushEncoded(buf, url[i]);
      assert url[..i + 1][..i] == url[..i];
      assert buf.Contents() == old(buf.Contents()) + (EncodeUrl(url[..i]) + EncodeByte(url[i]));
    }
    assert url[..|url|] == url;
  }

  /** One turn of the loop of decode_url: the byte written, the bytes read. */
  method DecodeStep(url: string, i: nat) returns (c: char, n: nat)
    requires i < |url|
    ensures (c, n) == DecodeOne(url[i..])
  {
    if url[i] == '%' {
      if i + 1 < |url| && url[i + 1] == '%' {
        return '%', 2;
      }
      if i + 2 < |url| && IsHex(url[i + 1]) && IsHex(url[i + 2]) {
        return (HexValue(url[i + 1]) * 16 + HexValue(url[i + 2])) as char, 3;
      }
    }
    return url[i], 1;
  }

  /** decode_url: one allocation of the length of the input plus a terminator is
      always enough. */
  method DecodeUrlInto(url: string) returns (ret: array<char>, p: nat)
    requires NUL !in url
    ensures fresh(ret) && ret.Length == |url| + 1
    ensures p <= |url| && ret[..p] == DecodeUrl(url) && ret[p] == NUL
  {
    hide DecodeOne;
    var len := |url|;
    ret := new char[len + 1];
    p := 0;
    var i := 0;
    assert url[0..] == url;
    assert ret[..0] + DecodeUrl(url) == DecodeUrl(url);
    while i < len
      invariant p <= i <= len
      invariant ret[..p] + DecodeUrl(url[i..]) == DecodeUrl(url)
    {
      var c, n := DecodeStep(url, i);
      DecodeTurn(url, i, ret[..p]);
      ghost var done := ret[..p];
      ret[p] := c;
      assert ret[..p + 1] == done + [c];
      p, i := p + 1, i + n;
    }
    ret[p] := NUL;
    assert ret[..p] + [] == ret[..p];
  }

  lemma DecodeTurn(url: string, i: nat, done: string)
    requires i < |url|
    ensures var (c, n) := DecodeOne(url[i..]);
            i + n <= |url| && done + DecodeUrl(url[i..]) == done + [c] + DecodeUrl(url[i + n..])
  {
    hide DecodeOne;
    var (c, n) := DecodeOne(url[i..]);
    assert url[i..][n..] == url[i + n..];
    assert done + ([c] + DecodeUrl(url[i + n..])) == done + [c] + DecodeUrl(url[i + n..]);
  }

  // ----- Coding laws -----

  lemma HexDigits(n: nat)
    requires n < 16
    ensures IsHex(HEX[n]) && HexValue(HEX[n]) == n && !NeedsEncoding(HEX[n])
  {
  }

  /** One encoded byte, whatever follows it, decodes to itself. */
  lemma DecodeByte(c: char, rest: string)
    requires c as int < 256
    ensures DecodeUrl(EncodeByte(c) + rest) == [c] + DecodeUrl(rest)
  {
    var s := EncodeByte(c) + rest;
    if NeedsEncoding(c) {
      HexDigits(c as int / 16);
      HexDigits(c as int % 16);
      assert s[1] == HEX[c as int / 16] && s[2] == HEX[c as int % 16];
      assert s[3..] == rest;
    } else {
      assert s[1..] == rest;
    }
  }

  lemma {:induction false} DecodeEncodedThen(s: string, rest: string)
    requires IsBytes(s)
    ensures DecodeUrl(EncodeUrl(s) + rest) == s + DecodeUrl(rest)
  {
    hide DecodeUrl, EncodeByte;
    if s == [] {
      assert EncodeUrl(s) + rest == rest;
    } else {
      var init, c := s[..|s| - 1], s[|s| - 1];
      DecodeEncodedThen(init, EncodeByte(c) + rest);
      DecodeByte(c, rest);
      assert EncodeUrl(s) + rest == EncodeUrl(init) + (EncodeByte(c) + rest);
      assert init + ([c] + DecodeUrl(rest)) == s + DecodeUrl(rest);
    }
  }

  /** Decoding undoes encoding on every byte string. */
  lemma CodingRoundTrip(s: string)
    requires IsBytes(s)
    ensures DecodeUrl(EncodeUrl(s)) == s
  {
    DecodeEncodedThen(s, []);
    assert EncodeUrl(s) + [] == EncodeUrl(s);
    assert s + DecodeUrl([]) == s;
  }

  function Encoded(s: string): nat {
    if s == [] then 0 else Encoded(s[..|s| - 1]) + (if NeedsEncoding(s[|s| - 1]) then 1 else 0)
  }

  /** n bytes grow by two for each byte outside the unreserved set, and only
      unreserved characters and '%' are left. */
  lemma {:induction false} EncodingShape(s: string)
    requires IsBytes(s)
    ensures |EncodeUrl(s)| == |s| + 2 * Encoded(s)
    ensures forall i | 0 <= i < |EncodeUrl(s)| :: !NeedsEncoding(EncodeUrl(s)[i]) || EncodeUrl(s)[i] == '%'
  {
    if s != [] {
      EncodingShape(s[..|s| - 1]);
      HexDigits(s[|s| - 1] as int / 16);
      HexDigits(s[|s| - 1] as int % 16);
    }
  }

  /** Decoding changes a string only where a '%' introduces an escape. */
  lemma {:induction false} DecodeWithoutPercent(s: string)
    requires '%' !in s
    ensures DecodeUrl(s) == s
  {
    if s != [] {
      DecodeWithoutPercent(s[1..]);
    }
  }

  // ----- Any spelling -----

  const UPPER_DIGITS := "0123456789ABCDEF"
  const LOWER_DIGITS := "0123456789abcdef"

  /** The hex digit of value n, in either case. */
  predicate IsDigitOf(c: char, n: nat)
    requires n < 16
  {
    c == UPPER_DIGITS[n] || c == LOWER_DIGITS[n]
  }

  lemma DigitValue(c: char, n: nat)
    requires n < 16 && IsDigitOf(c, n)
    ensures IsHex(c) && HexValue(c) == n && c != '%'
  {
  }

  /** A percent sign and two hex digits, in any case, read as the byte they spell. */
  lemma EscapeDecodes(hi: char, lo: char, a: nat, b: nat, rest: string)
    requires a < 16 && b < 16 && IsDigitOf(hi, a) && IsDigitOf(lo, b)
    ensures DecodeUrl("%" + [hi, lo] + rest) == [(a * 16 + b) as char] + DecodeUrl(rest)
  {
    hide IsDigitOf, IsHex, HexValue;
    DigitValue(hi, a);
    DigitValue(lo, b);
    var s := "%" + [hi, lo] + rest;
    assert s[0] == '%' && s[1] == hi && s[2] == lo && s[3..] == rest;
  }

  /** A doubled percent sign reads as one. */
  lemma DoubledPercent(rest: string)
    ensures DecodeUrl("%%" + rest) == "%" + DecodeUrl(rest)
  {
    var s := "%%" + rest;
    assert s[0] == '%' && s[1] == '%' && s[2..] == rest;
  }

  /** Any other byte reads as itself. */
  lemma PlainByte(c: char, rest: string)
    requires c != '%'
    ensures DecodeUrl([c] + rest) == [c] + DecodeUrl(rest)
  {
    assert ([c] + rest)[1..] == rest;
  }

  predicate IsHexDigit(c: char) {
    c in UPPER_DIGITS || c in LOWER_DIGITS
  }

  /** So does a percent sign that is neither doubled nor followed by two hex digits. */
  lemma LonePercent(rest: string)
    requires rest != [] ==> rest[0] != '%'
    requires |rest| >= 2 ==> !(IsHexDigit(rest[0]) && IsHexDigit(rest[1]))
    ensures DecodeUrl("%" + rest) == "%" + DecodeUrl(rest)
  {
    hide IsHexDigit, IsHex, HexValue;
    var s := "%" + rest;
    assert s[1..] == rest && s[0] == '%';
    if |rest| >= 2 {
      assert s[1] == rest[0] && s[2] == rest[1];
      HexExactly(rest[0]);
      HexExactly(rest[1]);
    }
  }

  lemma HexExactly(c: char)
    ensures IsHex(c) <==> IsHexDigit(c)
  {
    var u, l := UPPER_DIGITS, LOWER_DIGITS;
    if IsDigit(c) { assert u[c as int - '0' as int] == c; }
    if 'A' <= c <= 'F' { assert u[c as int - 'A' as int + 10] == c; }
    if 'a' <= c <= 'f' { assert l[c as int - 'a' as int + 10] == c; }
  }

  /** The piece spells the byte: as it stands, escaped, or as a doubled percent sign. */
  ghost predicate SpellsByte(piece: string, c: char) {
    || (c != '%' && piece == [c])
    || (c == '%' && piece == "%%")
    || (|piece| == 3 && piece[0] == '%' && c as int < 256
        && IsDigitOf(piece[1], c as int / 16) && IsDigitOf(piece[2], c as int % 16))
  }

  /** e is a spelling of s, byte by byte. */
  ghost predicate Spells(e: string, s: string)
    decreases |s|
  {
    if s == [] then e == []
    else exists n :: 0 < n <= |e| && SpellsByte(e[..n], s[0]) && Spells(e[n..], s[1..])
  }

  lemma SpelledByte(piece: string, c: char, rest: string)
    requires SpellsByte(piece, c)
    ensures DecodeUrl(piece + rest) == [c] + DecodeUrl(rest)
  {
    hide DecodeUrl, IsDigitOf;
    if c != '%' && piece == [c] {
      PlainByte(c, rest);
    } else if piece == "%%" {
      DoubledPercent(rest);
    } else {
      assert piece == "%" + [piece[1], piece[2]];
      EscapeDecodes(piece[1], piece[2], c as int / 16, c as int % 16, rest);
    }
  }

  /** Every spelling decodes to what it spells, whatever follows. */
  lemma {:induction false} SpellingDecodes(e: string, s: string, rest: string)
    requires Spells(e, s)
    ensures DecodeUrl(e + rest) == s + DecodeUrl(rest)
    decreases |s|
  {
    hide DecodeUrl, SpellsByte;
    if s == [] {
      assert e + rest == rest && s + DecodeUrl(rest) == DecodeUrl(rest);
    } else {
      var n :| 0 < n <= |e| && SpellsByte(e[..n], s[0]) && Spells(e[n..], s[1..]);
      SpelledByte(e[..n], s[0], e[n..] + rest);
      SpellingDecodes(e[n..], s[1..], rest);
      assert e + rest == e[..n] + (e[n..] + rest);
      assert [s[0]] + (s[1..] + DecodeUrl(rest)) == s + DecodeUrl(rest);
    }
  }

  /** A spelling brings in no NUL. */
  lemma {:induction false} SpellingHasNoNul(e: string, s: string)
    requires Spells(e, s) && '\0' !in s
    ensures '\0' !in e
    decreases |s|
  {
    if s != [] {
      var n :| 0 < n <= |e| && SpellsByte(e[..n], s[0]) && Spells(e[n..], s[1..]);
      SpellingHasNoNul(e[n..], s[1..]);
      PieceHasNoNul(e[..n], s[0]);
      assert e == e[..n] + e[n..];
    }
  }

  lemma PieceHasNoNul(piece: string, c: char)
    requires SpellsByte(piece, c) && c != '\0'
    ensures '\0' !in piece
  {
    if |piece| == 3 {
      assert piece == [piece[0], piece[1], piece[2]];
    }
  }

  /** What buf_encode_url prints is one of the spellings. */
  lemma {:induction false} EncodingSpells(s: string)
    requires IsBytes(s)
    ensures Spells(EncodeUrl(s), s)
    decreases |s|
  {
    if s != [] {
      hide EncodeByte, SpellsByte, Spells;
      EncodeFirst(s);
      EncodedByteSpells(s[0]);
      EncodingSpells(s[1..]);
      var e, n := EncodeUrl(s), |EncodeByte(s[0])|;
      assert e[..n] == EncodeByte(s[0]) && e[n..] == EncodeUrl(s[1..]);
      SpelledOn(e, s, n);
    }
  }

  lemma SpelledOn(e: string, s: string, n: nat)
    requires s != [] && 0 < n <= |e| && SpellsByte(e[..n], s[0]) && Spells(e[n..], s[1..])
    ensures Spells(e, s)
  {
    hide SpellsByte;
  }

  lemma EncodedByteSpells(c: char)
    requires c as int < 256
    ensures SpellsByte(EncodeByte(c), c)
  {
  }

  lemma {:induction false} EncodeFirst(s: string)
    requires IsBytes(s) && s != []
    ensures EncodeUrl(s) == EncodeByte(s[0]) + EncodeUrl(s[1..])
    decreases |s|
  {
    hide EncodeByte;
    var init, c := s[..|s| - 1], s[|s| - 1];
    if init == [] {
      assert s[1..] == [] && EncodeUrl(init) == [];
      assert [] + EncodeByte(c) == EncodeByte(c) + [];
    } else {
      EncodeFirst(init);
      assert init[1..] == s[1..][..|s[1..]| - 1];
      assert EncodeByte(s[0]) + EncodeUrl(init[1..]) + EncodeByte(c) == EncodeByte(s[0]) + (EncodeUrl(init[1..]) + EncodeByte(c));
    }
  }

  /** Only the unreserved bytes of section 2.3 of RFC 3986 stand for themselves. */
  lemma UnreservedExactly(c: char)
    requires c as int < 256
    ensures EncodeByte(c) == [c] <==>
            'A' <= c <= 'Z' || 'a' <= c <= 'z' || '0' <= c <= '9' || c in {'-', '.', '_', '~'}
  {
  }
}
